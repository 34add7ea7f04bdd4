/** Literals, clauses and their meaning under a boolean assignment, and the
    interface of the SAT engine: a counter of fresh variables and an
    append-only list of clauses. The search itself is not modelled. */
module Cnf {

  /** A solver variable, numbered from 0 in order of creation. */
  type Var = nat

  /** A literal: a variable with a polarity (`mkLit(v)` is positive,
      `~mkLit(v)` is negative). */
  datatype Lit = Lit(v: Var, positive: bool)

  function Pos(v: Var): Lit { Lit(v, true) }
  function Neg(v: Var): Lit { Lit(v, false) }

  type Clause = seq<Lit>

  /** A total boolean assignment to the variables. */
  type Assignment = Var -> bool

  predicate LitTrue(a: Assignment, l: Lit)
  {
    a(l.v) == l.positive
  }

  /** A clause is a disjunction of its literals. */
  predicate ClauseSat(a: Assignment, c: Clause)
  {
    exists l :: l in c && LitTrue(a, l)
  }

  /** A clause list is the conjunction of its clauses. */
  predicate Sat(a: Assignment, cs: seq<Clause>)
  {
    forall c :: c in cs ==> ClauseSat(a, c)
  }

  /** Every literal of every clause names a variable below n. */
  ghost predicate Allocated(cs: seq<Clause>, n: nat)
  {
    forall c, l :: c in cs && l in c ==> l.v < n
  }

  lemma SatAppend(a: Assignment, xs: seq<Clause>, ys: seq<Clause>)
    ensures Sat(a, xs + ys) <==> Sat(a, xs) && Sat(a, ys)
  {
    assert forall c :: c in xs + ys <==> c in xs || c in ys;
  }

  lemma AllocatedAppend(xs: seq<Clause>, ys: seq<Clause>, n: nat)
    ensures Allocated(xs + ys, n) <==> Allocated(xs, n) && Allocated(ys, n)
  {
    assert forall c :: c in xs + ys <==> c in xs || c in ys;
  }

  // ---------------------------------------------------------------------
  // Boolean functions of the gate kinds
  // ---------------------------------------------------------------------

  /** True when every variable of vs is true under a. */
  predicate AllTrue(a: Assignment, vs: seq<Var>)
  {
    forall i :: 0 <= i < |vs| ==> a(vs[i])
  }

  /** True when some variable of vs is true under a. */
  predicate AnyTrue(a: Assignment, vs: seq<Var>)
  {
    exists i :: 0 <= i < |vs| && a(vs[i])
  }

  /** The combinational gate functions that get a clause template. */
  datatype GateFn = BufferFn | InvFn | AndFn | NandFn | OrFn | NorFn | XorFn

  /** The value a gate of kind g computes from the inputs vs (buffer,
      inverter and xor read the first one or two inputs). */
  predicate GateValue(g: GateFn, a: Assignment, vs: seq<Var>)
    requires g == BufferFn || g == InvFn ==> |vs| == 1
    requires g == XorFn ==> |vs| == 2
  {
    match g
    case BufferFn => a(vs[0])
    case InvFn => !a(vs[0])
    case AndFn => AllTrue(a, vs)
    case NandFn => !AllTrue(a, vs)
    case OrFn => AnyTrue(a, vs)
    case NorFn => !AnyTrue(a, vs)
    case XorFn => a(vs[0]) != a(vs[1])
  }

  // ---------------------------------------------------------------------
  // Clause building blocks shared by the gate templates
  // ---------------------------------------------------------------------

  /** The literals of vs, all with the given polarity, in order. */
  function Lits(vs: seq<Var>, positive: bool): (r: Clause)
    ensures |r| == |vs|
    ensures forall i :: 0 <= i < |vs| ==> r[i] == Lit(vs[i], positive)
  {
    seq(|vs|, i requires 0 <= i < |vs| => Lit(vs[i], positive))
  }

  /** One two-literal clause per variable of vs: the variable's literal with
      the given polarity and the literal `other`, `other` first when
      otherFirst holds. */
  function Pairs(vs: seq<Var>, positive: bool, other: Lit, otherFirst: bool): (r: seq<Clause>)
    ensures |r| == |vs|
    ensures forall i :: 0 <= i < |vs| ==>
      r[i] == (if otherFirst then [other, Lit(vs[i], positive)] else [Lit(vs[i], positive), other])
  {
    seq(|vs|, i requires 0 <= i < |vs| =>
      if otherFirst then [other, Lit(vs[i], positive)] else [Lit(vs[i], positive), other])
  }

  /** The clause made of vs's literals and one more literal is satisfied
      exactly when that literal is, or some variable of vs has the given
      polarity. */
  lemma {:induction false} LitsClauseSat(a: Assignment, vs: seq<Var>, positive: bool, extra: Lit)
    ensures ClauseSat(a, Lits(vs, positive) + [extra])
        <==> LitTrue(a, extra) || exists i :: 0 <= i < |vs| && a(vs[i]) == positive
    ensures ClauseSat(a, [extra] + Lits(vs, positive))
        <==> LitTrue(a, extra) || exists i :: 0 <= i < |vs| && a(vs[i]) == positive
  {
    var c1, c2 := Lits(vs, positive) + [extra], [extra] + Lits(vs, positive);
    if exists i :: 0 <= i < |vs| && a(vs[i]) == positive {
      var i :| 0 <= i < |vs| && a(vs[i]) == positive;
      assert c1[i] in c1 && LitTrue(a, c1[i]);
      assert c2[i + 1] in c2 && LitTrue(a, c2[i + 1]);
    }
    if LitTrue(a, extra) {
      assert c1[|vs|] in c1;
      assert c2[0] in c2;
    }
    if ClauseSat(a, c1) {
      var l :| l in c1 && LitTrue(a, l);
      var k :| 0 <= k < |c1| && c1[k] == l;
      if k < |vs| {
        assert a(vs[k]) == positive;
      }
    }
    if ClauseSat(a, c2) {
      var l :| l in c2 && LitTrue(a, l);
      var k :| 0 <= k < |c2| && c2[k] == l;
      if k > 0 {
        assert a(vs[k - 1]) == positive;
      }
    }
  }

  /** The pair clauses are all satisfied exactly when every variable of vs
      has the given polarity or the literal `other` is true. */
  lemma {:induction false} PairsSat(a: Assignment, vs: seq<Var>, positive: bool, other: Lit, otherFirst: bool)
    ensures Sat(a, Pairs(vs, positive, other, otherFirst))
        <==> LitTrue(a, other) || forall i :: 0 <= i < |vs| ==> a(vs[i]) == positive
  {
    var ps := Pairs(vs, positive, other, otherFirst);
    if Sat(a, ps) && !LitTrue(a, other) {
      forall i | 0 <= i < |vs| ensures a(vs[i]) == positive {
        assert ps[i] in ps;
        var l :| l in ps[i] && LitTrue(a, l);
      }
    }
    if LitTrue(a, other) || forall i :: 0 <= i < |vs| ==> a(vs[i]) == positive {
      forall c | c in ps ensures ClauseSat(a, c) {
        var i :| 0 <= i < |ps| && ps[i] == c;
        if LitTrue(a, other) {
          assert other in c;
        } else {
          assert Lit(vs[i], positive) in c;
        }
      }
    }
  }

  // ---------------------------------------------------------------------
  // The SAT engine's interface
  // ---------------------------------------------------------------------

  /** The SAT engine as the encoders see it: a counter of created variables
      and the clauses added so far, which are never retracted. */
  class Solver {
    var numVars: nat
    var clauses: seq<Clause>

    /** Every clause only mentions variables that were created. */
    ghost predicate Valid()
      reads this
    {
      Allocated(clauses, numVars)
    }

    constructor ()
      ensures Valid() && numVars == 0 && clauses == []
    {
      numVars := 0;
      clauses := [];
    }

    /** `newVar`: the next unused variable. */
    method NewVar() returns (v: Var)
      requires Valid()
      modifies this
      ensures Valid()
      ensures v == old(numVars) && numVars == old(numVars) + 1
      ensures clauses == old(clauses)
    {
      v := numVars;
      numVars := numVars + 1;
    }

    /** `addClause`: append a clause over created variables. */
    method AddClause(c: Clause)
      requires Valid()
      requires forall l :: l in c ==> l.v < numVars
      modifies this
      ensures Valid()
      ensures clauses == old(clauses) + [c] && numVars == old(numVars)
    {
      AllocatedAppend(clauses, [c], numVars);
      clauses := clauses + [c];
    }
  }
}
