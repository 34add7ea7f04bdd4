/** The reference equivalence checker's gate library: one clause template per
    gate kind (Tseytin transformation), the methods that push a template into
    the solver, and the proof that each template is functionally exact, that
    is, satisfied by an assignment exactly when the output variable carries
    the gate's function of the inputs. */
module Tseytin {
  import opened Cnf

  /** Buffer y = a: (a | ~y), (~a | y). */
  function BufferClauses(a: Var, y: Var): seq<Clause>
  {
    [[Pos(a), Neg(y)], [Neg(a), Pos(y)]]
  }

  /** Inverter y = ~a: (a | y), (~a | ~y). */
  function InvClauses(a: Var, y: Var): seq<Clause>
  {
    [[Pos(a), Pos(y)], [Neg(a), Neg(y)]]
  }

  /** AND: (~a1 | ... | ~an | y), then (ai | ~y) for each i. */
  function AndClauses(ins: seq<Var>, y: Var): seq<Clause>
  {
    [Lits(ins, false) + [Pos(y)]] + Pairs(ins, true, Neg(y), false)
  }

  /** NAND: (~a1 | ... | ~an | ~y), then (ai | y) for each i. */
  function NandClauses(ins: seq<Var>, y: Var): seq<Clause>
  {
    [Lits(ins, false) + [Neg(y)]] + Pairs(ins, true, Pos(y), false)
  }

  /** OR: (a1 | ... | an | ~y), then (~ai | y) for each i. */
  function OrClauses(ins: seq<Var>, y: Var): seq<Clause>
  {
    [Lits(ins, true) + [Neg(y)]] + Pairs(ins, false, Pos(y), false)
  }

  /** NOR: (a1 | ... | an | y), then (~ai | ~y) for each i. */
  function NorClauses(ins: seq<Var>, y: Var): seq<Clause>
  {
    [Lits(ins, true) + [Pos(y)]] + Pairs(ins, false, Neg(y), false)
  }

  /** Two-input XOR: the four clauses that each exclude one assignment of
      (a, b, y) on which y differs from a xor b. */
  function XorClauses(a: Var, b: Var, y: Var): seq<Clause>
  {
    [[Neg(a), Neg(b), Neg(y)], [Pos(a), Pos(b), Neg(y)],
     [Pos(a), Neg(b), Pos(y)], [Neg(a), Pos(b), Pos(y)]]
  }

  // ---------------------------------------------------------------------
  // Exactness of every template
  // ---------------------------------------------------------------------

  lemma BufferExact(a: Assignment, x: Var, y: Var)
    ensures |BufferClauses(x, y)| == 2
    ensures Sat(a, BufferClauses(x, y)) <==> a(y) == a(x)
  {
    var cs := BufferClauses(x, y);
    assert cs[0] in cs && cs[1] in cs;
    if a(y) == a(x) {
      if a(x) { assert LitTrue(a, cs[0][0]) && LitTrue(a, cs[1][1]); }
      else { assert LitTrue(a, cs[0][1]) && LitTrue(a, cs[1][0]); }
    }
  }

  lemma InvExact(a: Assignment, x: Var, y: Var)
    ensures |InvClauses(x, y)| == 2
    ensures Sat(a, InvClauses(x, y)) <==> a(y) == !a(x)
  {
    var cs := InvClauses(x, y);
    assert cs[0] in cs && cs[1] in cs;
    if a(y) == !a(x) {
      if a(x) { assert LitTrue(a, cs[0][0]) && LitTrue(a, cs[1][1]); }
      else { assert LitTrue(a, cs[0][1]) && LitTrue(a, cs[1][0]); }
    }
  }

  lemma XorExact(a: Assignment, x: Var, z: Var, y: Var)
    ensures |XorClauses(x, z, y)| == 4
    ensures Sat(a, XorClauses(x, z, y)) <==> a(y) == (a(x) != a(z))
  {
    var cs := XorClauses(x, z, y);
    assert cs[0] in cs && cs[1] in cs && cs[2] in cs && cs[3] in cs;
    if a(y) == (a(x) != a(z)) {
      forall c | c in cs ensures ClauseSat(a, c) {
        if a(x) && a(z) { assert LitTrue(a, cs[0][2]) && LitTrue(a, cs[1][0]) && LitTrue(a, cs[2][0]) && LitTrue(a, cs[3][1]); }
        else if a(x) { assert LitTrue(a, cs[0][1]) && LitTrue(a, cs[1][0]) && LitTrue(a, cs[2][0]) && LitTrue(a, cs[3][2]); }
        else if a(z) { assert LitTrue(a, cs[0][0]) && LitTrue(a, cs[1][1]) && LitTrue(a, cs[2][2]) && LitTrue(a, cs[3][0]); }
        else { assert LitTrue(a, cs[0][0]) && LitTrue(a, cs[1][2]) && LitTrue(a, cs[2][1]) && LitTrue(a, cs[3][0]); }
      }
    }
  }

  /** An n-input AND adds n + 1 clauses and is exact. */
  lemma AndExact(a: Assignment, ins: seq<Var>, y: Var)
    ensures |AndClauses(ins, y)| == |ins| + 1
    ensures Sat(a, AndClauses(ins, y)) <==> a(y) == AllTrue(a, ins)
  {
    LitsClauseSat(a, ins, false, Pos(y));
    PairsSat(a, ins, true, Neg(y), false);
    SatAppend(a, [Lits(ins, false) + [Pos(y)]], Pairs(ins, true, Neg(y), false));
  }

  /** An n-input NAND adds n + 1 clauses and is exact. */
  lemma NandExact(a: Assignment, ins: seq<Var>, y: Var)
    ensures |NandClauses(ins, y)| == |ins| + 1
    ensures Sat(a, NandClauses(ins, y)) <==> a(y) == !AllTrue(a, ins)
  {
    LitsClauseSat(a, ins, false, Neg(y));
    PairsSat(a, ins, true, Pos(y), false);
    SatAppend(a, [Lits(ins, false) + [Neg(y)]], Pairs(ins, true, Pos(y), false));
  }

  /** An n-input OR adds n + 1 clauses and is exact. */
  lemma OrExact(a: Assignment, ins: seq<Var>, y: Var)
    ensures |OrClauses(ins, y)| == |ins| + 1
    ensures Sat(a, OrClauses(ins, y)) <==> a(y) == AnyTrue(a, ins)
  {
    LitsClauseSat(a, ins, true, Neg(y));
    PairsSat(a, ins, false, Pos(y), false);
    SatAppend(a, [Lits(ins, true) + [Neg(y)]], Pairs(ins, false, Pos(y), false));
  }

  /** An n-input NOR adds n + 1 clauses and is exact. */
  lemma NorExact(a: Assignment, ins: seq<Var>, y: Var)
    ensures |NorClauses(ins, y)| == |ins| + 1
    ensures Sat(a, NorClauses(ins, y)) <==> a(y) == !AnyTrue(a, ins)
  {
    LitsClauseSat(a, ins, true, Pos(y));
    PairsSat(a, ins, false, Neg(y), false);
    SatAppend(a, [Lits(ins, true) + [Pos(y)]], Pairs(ins, false, Neg(y), false));
  }

  // ---------------------------------------------------------------------
  // Pushing the templates into the solver
  // ---------------------------------------------------------------------

  /** Add a clause made of the literals of vs with one polarity followed by
      one more literal, building it one literal at a time. */
  method AddLitsClause(s: Solver, vs: seq<Var>, positive: bool, last: Lit)
    requires s.Valid() && last.v < s.numVars
    requires forall i :: 0 <= i < |vs| ==> vs[i] < s.numVars
    modifies s
    ensures s.Valid() && s.numVars == old(s.numVars)
    ensures s.clauses == old(s.clauses) + [Lits(vs, positive) + [last]]
  {
    var clause: Clause := [];
    for i := 0 to |vs|
      invariant clause == Lits(vs[..i], positive)
    {
      clause := clause + [Lit(vs[i], positive)];
    }
    assert vs[..|vs|] == vs;
    s.AddClause(clause + [last]);
  }

  /** Add one two-literal clause per variable of vs. */
  method AddPairs(s: Solver, vs: seq<Var>, positive: bool, other: Lit, otherFirst: bool)
    requires s.Valid() && other.v < s.numVars
    requires forall i :: 0 <= i < |vs| ==> vs[i] < s.numVars
    modifies s
    ensures s.Valid() && s.numVars == old(s.numVars)
    ensures s.clauses == old(s.clauses) + Pairs(vs, positive, other, otherFirst)
  {
    for i := 0 to |vs|
      invariant s.Valid() && s.numVars == old(s.numVars)
      invariant s.clauses == old(s.clauses) + Pairs(vs[..i], positive, other, otherFirst)
    {
      var c := if otherFirst then [other, Lit(vs[i], positive)] else [Lit(vs[i], positive), other];
      s.AddClause(c);
      assert Pairs(vs[..i + 1], positive, other, otherFirst) == Pairs(vs[..i], positive, other, otherFirst) + [c];
    }
    assert vs[..|vs|] == vs;
  }

  method EncodeBuffer(s: Solver, a: Var, y: Var)
    requires s.Valid() && a < s.numVars && y < s.numVars
    modifies s
    ensures s.Valid() && s.numVars == old(s.numVars)
    ensures s.clauses == old(s.clauses) + BufferClauses(a, y)
  {
    s.AddClause([Pos(a), Neg(y)]);
    s.AddClause([Neg(a), Pos(y)]);
  }

  method EncodeInv(s: Solver, a: Var, y: Var)
    requires s.Valid() && a < s.numVars && y < s.numVars
    modifies s
    ensures s.Valid() && s.numVars == old(s.numVars)
    ensures s.clauses == old(s.clauses) + InvClauses(a, y)
  {
    s.AddClause([Pos(a), Pos(y)]);
    s.AddClause([Neg(a), Neg(y)]);
  }

  method EncodeAnd(s: Solver, inputs: seq<Var>, y: Var)
    requires s.Valid() && y < s.numVars
    requires forall i :: 0 <= i < |inputs| ==> inputs[i] < s.numVars
    modifies s
    ensures s.Valid() && s.numVars == old(s.numVars)
    ensures s.clauses == old(s.clauses) + AndClauses(inputs, y)
  {
    AddLitsClause(s, inputs, false, Pos(y));
    AddPairs(s, inputs, true, Neg(y), false);
  }

  method EncodeNand(s: Solver, inputs: seq<Var>, y: Var)
    requires s.Valid() && y < s.numVars
    requires forall i :: 0 <= i < |inputs| ==> inputs[i] < s.numVars
    modifies s
    ensures s.Valid() && s.numVars == old(s.numVars)
    ensures s.clauses == old(s.clauses) + NandClauses(inputs, y)
  {
    AddLitsClause(s, inputs, false, Neg(y));
    AddPairs(s, inputs, true, Pos(y), false);
  }

  method EncodeOr(s: Solver, inputs: seq<Var>, y: Var)
    requires s.Valid() && y < s.numVars
    requires forall i :: 0 <= i < |inputs| ==> inputs[i] < s.numVars
    modifies s
    ensures s.Valid() && s.numVars == old(s.numVars)
    ensures s.clauses == old(s.clauses) + OrClauses(inputs, y)
  {
    AddLitsClause(s, inputs, true, Neg(y));
    AddPairs(s, inputs, false, Pos(y), false);
  }

  method EncodeNor(s: Solver, inputs: seq<Var>, y: Var)
    requires s.Valid() && y < s.numVars
    requires forall i :: 0 <= i < |inputs| ==> inputs[i] < s.numVars
    modifies s
    ensures s.Valid() && s.numVars == old(s.numVars)
    ensures s.clauses == old(s.clauses) + NorClauses(inputs, y)
  {
    AddLitsClause(s, inputs, true, Pos(y));
    AddPairs(s, inputs, false, Neg(y), false);
  }

  method EncodeXor2(s: Solver, a: Var, b: Var, y: Var)
    requires s.Valid() && a < s.numVars && b < s.numVars && y < s.numVars
    modifies s
    ensures s.Valid() && s.numVars == old(s.numVars)
    ensures s.clauses == old(s.clauses) + XorClauses(a, b, y)
  {
    s.AddClause([Neg(a), Neg(b), Neg(y)]);
    s.AddClause([Pos(a), Pos(b), Neg(y)]);
    s.AddClause([Pos(a), Neg(b), Pos(y)]);
    s.AddClause([Neg(a), Pos(b), Pos(y)]);
  }
}
