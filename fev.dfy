/** The submitted equivalence checker (HCM/wet02/HW2ex1.cc): each circuit is
    encoded with its own node-to-variable pool, matched primary inputs and
    flip-flop outputs are tied afterwards with equivalence clauses, and an
    XOR miter over the compared signals asks for a difference. */
module Fev {
  import opened Netlist
  import opened Cnf
  import Tseytin

  // ---------------------------------------------------------------------
  // Variable pools
  // ---------------------------------------------------------------------

  /** A node-to-variable pool: variables already created, one per name. */
  ghost predicate PoolValid(pool: map<string, Var>, n: nat)
  {
    && (forall k :: k in pool ==> pool[k] < n)
    && (forall k1, k2 :: k1 in pool && k2 in pool && k1 != k2 ==> pool[k1] != pool[k2])
  }

  /** pool2 keeps every entry of pool1. */
  ghost predicate Extends(pool2: map<string, Var>, pool1: map<string, Var>)
  {
    forall k :: k in pool1 ==> k in pool2 && pool2[k] == pool1[k]
  }

  /** The unit clause `getVar` adds when it creates the variable of a node
      named exactly "VDD" (forced true) or "VSS" (forced false). */
  function PowerUnits(name: string, v: Var): seq<Clause>
  {
    if name == "VDD" then [[Pos(v)]] else if name == "VSS" then [[Neg(v)]] else []
  }

  /** The constants forced on the names that entered the pool after pool0. */
  ghost predicate PowerHolds(a: Assignment, pool: map<string, Var>, pool0: map<string, Var>)
  {
    forall n :: n in pool && n !in pool0 ==>
      (n == "VDD" ==> a(pool[n])) && (n == "VSS" ==> !a(pool[n]))
  }

  /** Two steps that each add only power constraints add only power
      constraints. */
  lemma PowerStep(c0: seq<Clause>, c1: seq<Clause>, c2: seq<Clause>,
                  p0: map<string, Var>, p1: map<string, Var>, p2: map<string, Var>)
    requires Extends(p1, p0) && Extends(p2, p1)
    requires forall a: Assignment :: Sat(a, c1) <==> (Sat(a, c0) && PowerHolds(a, p1, p0))
    requires forall a: Assignment :: Sat(a, c2) <==> (Sat(a, c1) && PowerHolds(a, p2, p1))
    ensures forall a: Assignment :: Sat(a, c2) <==> (Sat(a, c0) && PowerHolds(a, p2, p0))
  {
    forall a: Assignment ensures Sat(a, c2) <==> (Sat(a, c0) && PowerHolds(a, p2, p0)) {
      PowerChain(a, p0, p1, p2);
    }
  }

  lemma PowerChain(a: Assignment, p0: map<string, Var>, p1: map<string, Var>, p2: map<string, Var>)
    requires Extends(p1, p0) && Extends(p2, p1)
    ensures PowerHolds(a, p2, p0) <==> PowerHolds(a, p1, p0) && PowerHolds(a, p2, p1)
  {
  }

  /** `getVar`: the variable of a node, created on first use. A repeated
      call returns the stored variable and changes nothing; a first call
      creates one fresh variable and, for "VDD" or "VSS" exactly, adds the
      unit clause that forces it. */
  method GetVar(s: Solver, pool: map<string, Var>, name: string) returns (v: Var, pool': map<string, Var>)
    requires s.Valid() && PoolValid(pool, s.numVars)
    modifies s
    ensures s.Valid() && PoolValid(pool', s.numVars) && Extends(pool', pool)
    ensures name in pool' && v == pool'[name]
    ensures name in pool ==>
      (v == pool[name] && pool' == pool && s.numVars == old(s.numVars) && s.clauses == old(s.clauses))
    ensures name !in pool ==>
      (v == old(s.numVars) && pool' == pool[name := v] && s.numVars == old(s.numVars) + 1
       && s.clauses == old(s.clauses) + PowerUnits(name, v))
    ensures forall a: Assignment :: Sat(a, s.clauses) <==> (Sat(a, old(s.clauses)) && PowerHolds(a, pool', pool))
  {
    if name in pool {
      return pool[name], pool;
    }
    v := s.NewVar();
    pool' := pool[name := v];
    if name == "VDD" {
      s.AddClause([Pos(v)]);
    } else if name == "VSS" {
      s.AddClause([Neg(v)]);
    }
    forall a: Assignment ensures Sat(a, s.clauses) <==> Sat(a, old(s.clauses)) && PowerHolds(a, pool', pool) {
      SatAppend(a, old(s.clauses), PowerUnits(name, v));
      var u := PowerUnits(name, v);
      if u != [] {
        assert u[0] in u;
        assert u[0][0] in u[0];
      }
    }
  }

  /** `addEq`: the two clauses (~a | b), (a | ~b). */
  function EqClauses(x: Var, y: Var): seq<Clause>
  {
    [[Neg(x), Pos(y)], [Pos(x), Neg(y)]]
  }

  lemma EqExact(a: Assignment, x: Var, y: Var)
    ensures |EqClauses(x, y)| == 2
    ensures Sat(a, EqClauses(x, y)) <==> a(x) == a(y)
  {
    var cs := EqClauses(x, y);
    assert cs[0] in cs && cs[1] in cs;
    if a(x) == a(y) {
      if a(x) { assert LitTrue(a, cs[0][1]) && LitTrue(a, cs[1][0]); }
      else { assert LitTrue(a, cs[0][0]) && LitTrue(a, cs[1][1]); }
    }
  }

  method AddEq(s: Solver, x: Var, y: Var)
    requires s.Valid() && x < s.numVars && y < s.numVars
    modifies s
    ensures s.Valid() && s.numVars == old(s.numVars)
    ensures s.clauses == old(s.clauses) + EqClauses(x, y)
    ensures forall a: Assignment :: Sat(a, s.clauses) <==> (Sat(a, old(s.clauses)) && a(x) == a(y))
  {
    ghost var c0 := s.clauses;
    s.AddClause([Neg(x), Pos(y)]);
    s.AddClause([Pos(x), Neg(y)]);
    assert s.clauses == c0 + EqClauses(x, y);
    forall a: Assignment ensures Sat(a, c0 + EqClauses(x, y)) <==> (Sat(a, c0) && a(x) == a(y)) {
      SatAppend(a, c0, EqClauses(x, y));
      EqExact(a, x, y);
    }
  }

  // ---------------------------------------------------------------------
  // Gate dispatch and clause templates of encodeGate
  // ---------------------------------------------------------------------

  lemma PrefixChars(s: string, p: string)
    ensures StartsWith(s, p) ==> forall i :: 0 <= i < |p| ==> s[i] == p[i]
  {
    if StartsWith(s, p) {
      forall i | 0 <= i < |p| ensures s[i] == p[i] {
        assert s[..|p|][i] == s[i];
      }
    }
  }

  /** The names and prefixes encodeGate tests exclude one another: a name
      matches at most one of them. */
  lemma DispatchPrefixes(name: string)
    ensures (name == "buffer" || name == "inv" || name == "not") ==>
      !StartsWith(name, "xor") && !StartsWith(name, "nand") && !StartsWith(name, "nor")
      && !StartsWith(name, "and") && !StartsWith(name, "or")
    ensures StartsWith(name, "xor") ==>
      !StartsWith(name, "nand") && !StartsWith(name, "nor") && !StartsWith(name, "and") && !StartsWith(name, "or")
    ensures StartsWith(name, "nand") ==> !StartsWith(name, "nor") && !StartsWith(name, "and") && !StartsWith(name, "or")
    ensures StartsWith(name, "nor") ==> !StartsWith(name, "and") && !StartsWith(name, "or")
    ensures StartsWith(name, "and") ==> !StartsWith(name, "or")
  {
    PrefixChars(name, "xor");
    PrefixChars(name, "nand");
    PrefixChars(name, "nor");
    PrefixChars(name, "and");
    PrefixChars(name, "or");
    if name == "buffer" || name == "inv" || name == "not" {
      assert name[0] != 'x' && name[0] != 'a' && name[0] != 'o';
      assert name == "not" || name[0] != 'n';
      assert name == "not" ==> name[1] == 'o' && name[2] == 't';
    }
    if StartsWith(name, "nand") {
      assert name[0] == 'n' && name[1] == 'a' && name[2] == 'n';
    }
  }

  /** The gate function encodeGate chooses for a master-cell name and a
      number of inputs, None when it adds nothing. Exact names are tested
      for buffer and inverter, prefixes for the others, "nand" and "nor"
      before "and" and "or". */
  function GateOf(name: string, arity: nat): (r: Option<GateFn>)
    ensures r == Some(BufferFn) <==> name == "buffer" && arity == 1
    ensures r == Some(InvFn) <==> (name == "inv" || name == "not") && arity == 1
    ensures r == Some(XorFn) <==> StartsWith(name, "xor") && arity == 2
    ensures r == Some(NandFn) <==> StartsWith(name, "nand")
    ensures r == Some(NorFn) <==> StartsWith(name, "nor")
    ensures r == Some(AndFn) <==> StartsWith(name, "and")
    ensures r == Some(OrFn) <==> StartsWith(name, "or")
    ensures r.None? <==>
      && !(name == "buffer" && arity == 1)
      && !((name == "inv" || name == "not") && arity == 1)
      && !(StartsWith(name, "xor") && arity == 2)
      && !StartsWith(name, "nand") && !StartsWith(name, "nor")
      && !StartsWith(name, "and") && !StartsWith(name, "or")
  {
    DispatchPrefixes(name);
    if name == "buffer" then (if arity == 1 then Some(BufferFn) else None)
    else if name == "inv" || name == "not" then (if arity == 1 then Some(InvFn) else None)
    else if StartsWith(name, "xor") then (if arity == 2 then Some(XorFn) else None)
    else if StartsWith(name, "nand") then Some(NandFn)
    else if StartsWith(name, "nor") then Some(NorFn)
    else if name == "and" || (StartsWith(name, "and") && !StartsWith(name, "nand")) then Some(AndFn)
    else if name == "or" || (StartsWith(name, "or") && !StartsWith(name, "nor")) then Some(OrFn)
    else None
  }

  /** The clauses encodeGate adds for gate g with inputs ins and output y. */
  function GateClauses(g: GateFn, ins: seq<Var>, y: Var): seq<Clause>
    requires g == BufferFn || g == InvFn ==> |ins| == 1
    requires g == XorFn ==> |ins| == 2
  {
    match g
    case BufferFn => [[Neg(y), Pos(ins[0])], [Pos(y), Neg(ins[0])]]
    case InvFn => [[Neg(y), Neg(ins[0])], [Pos(y), Pos(ins[0])]]
    case XorFn => Tseytin.XorClauses(ins[0], ins[1], y)
    case NandFn => Pairs(ins, true, Pos(y), true) + [[Neg(y)] + Lits(ins, false)]
    case NorFn => Pairs(ins, false, Neg(y), true) + [[Pos(y)] + Lits(ins, true)]
    case AndFn => Pairs(ins, true, Neg(y), true) + [[Pos(y)] + Lits(ins, false)]
    case OrFn => Pairs(ins, false, Pos(y), false) + [[Neg(y)] + Lits(ins, true)]
  }

  /** Every template of encodeGate is functionally exact. */
  lemma GateExact(a: Assignment, g: GateFn, ins: seq<Var>, y: Var)
    requires g == BufferFn || g == InvFn ==> |ins| == 1
    requires g == XorFn ==> |ins| == 2
    ensures Sat(a, GateClauses(g, ins, y)) <==> a(y) == GateValue(g, a, ins)
  {
    var cs := GateClauses(g, ins, y);
    match g
    case BufferFn =>
      assert cs[0] in cs && cs[1] in cs;
      if a(y) == a(ins[0]) {
        if a(y) { assert LitTrue(a, cs[0][1]) && LitTrue(a, cs[1][0]); }
        else { assert LitTrue(a, cs[0][0]) && LitTrue(a, cs[1][1]); }
      }
    case InvFn =>
      assert cs[0] in cs && cs[1] in cs;
      if a(y) == !a(ins[0]) {
        if a(y) { assert LitTrue(a, cs[0][1]) && LitTrue(a, cs[1][0]); }
        else { assert LitTrue(a, cs[0][0]) && LitTrue(a, cs[1][1]); }
      }
    case XorFn =>
      Tseytin.XorExact(a, ins[0], ins[1], y);
    case NandFn =>
      PairsSat(a, ins, true, Pos(y), true);
      LitsClauseSat(a, ins, false, Neg(y));
      SatAppend(a, Pairs(ins, true, Pos(y), true), [[Neg(y)] + Lits(ins, false)]);
    case NorFn =>
      PairsSat(a, ins, false, Neg(y), true);
      LitsClauseSat(a, ins, true, Pos(y));
      SatAppend(a, Pairs(ins, false, Neg(y), true), [[Pos(y)] + Lits(ins, true)]);
    case AndFn =>
      PairsSat(a, ins, true, Neg(y), true);
      LitsClauseSat(a, ins, false, Pos(y));
      SatAppend(a, Pairs(ins, true, Neg(y), true), [[Pos(y)] + Lits(ins, false)]);
    case OrFn =>
      PairsSat(a, ins, false, Pos(y), false);
      LitsClauseSat(a, ins, true, Neg(y));
      SatAppend(a, Pairs(ins, false, Pos(y), false), [[Neg(y)] + Lits(ins, true)]);
  }

  /** The clauses encodeGate adds for a master name: none when GateOf
      rejects the name or the number of inputs. */
  function EncodedClauses(name: string, ins: seq<Var>, y: Var): seq<Clause>
  {
    match GateOf(name, |ins|)
    case None => []
    case Some(g) => GateClauses(g, ins, y)
  }

  /** What encodeGate adds means what the dispatch selects: nothing for a
      rejected name or number of inputs, otherwise clauses that hold exactly
      when the output equals the selected gate function of the inputs. */
  lemma EncodedExact(a: Assignment, name: string, ins: seq<Var>, y: Var)
    ensures GateOf(name, |ins|).None? ==> EncodedClauses(name, ins, y) == []
    ensures GateOf(name, |ins|).Some? ==>
      (Sat(a, EncodedClauses(name, ins, y)) <==> a(y) == GateValue(GateOf(name, |ins|).value, a, ins))
  {
    if GateOf(name, |ins|).Some? {
      GateExact(a, GateOf(name, |ins|).value, ins, y);
    }
  }

  /** The clause that starts with `head` and continues with the literals of
      vs, built one literal at a time. */
  method AddHeadClause(s: Solver, head: Lit, vs: seq<Var>, positive: bool)
    requires s.Valid() && head.v < s.numVars
    requires forall i :: 0 <= i < |vs| ==> vs[i] < s.numVars
    modifies s
    ensures s.Valid() && s.numVars == old(s.numVars)
    ensures s.clauses == old(s.clauses) + [[head] + Lits(vs, positive)]
  {
    var clause: Clause := [head];
    for i := 0 to |vs|
      invariant clause == [head] + Lits(vs[..i], positive)
    {
      clause := clause + [Lit(vs[i], positive)];
    }
    assert vs[..|vs|] == vs;
    s.AddClause(clause);
  }

  /** One template of encodeGate: append the clauses of gate g. */
  method EmitGate(s: Solver, g: GateFn, inputs: seq<Var>, outputVar: Var)
    requires s.Valid() && outputVar < s.numVars
    requires forall i :: 0 <= i < |inputs| ==> inputs[i] < s.numVars
    requires g == BufferFn || g == InvFn ==> |inputs| == 1
    requires g == XorFn ==> |inputs| == 2
    modifies s
    ensures s.Valid() && s.numVars == old(s.numVars)
    ensures s.clauses == old(s.clauses) + GateClauses(g, inputs, outputVar)
  {
    match g
    case BufferFn =>
      s.AddClause([Neg(outputVar), Pos(inputs[0])]);
      s.AddClause([Pos(outputVar), Neg(inputs[0])]);
    case InvFn =>
      s.AddClause([Neg(outputVar), Neg(inputs[0])]);
      s.AddClause([Pos(outputVar), Pos(inputs[0])]);
    case XorFn =>
      Tseytin.EncodeXor2(s, inputs[0], inputs[1], outputVar);
    case NandFn =>
      Tseytin.AddPairs(s, inputs, true, Pos(outputVar), true);
      AddHeadClause(s, Neg(outputVar), inputs, false);
    case NorFn =>
      Tseytin.AddPairs(s, inputs, false, Neg(outputVar), true);
      AddHeadClause(s, Pos(outputVar), inputs, true);
    case AndFn =>
      Tseytin.AddPairs(s, inputs, true, Neg(outputVar), true);
      AddHeadClause(s, Pos(outputVar), inputs, false);
    case OrFn =>
      Tseytin.AddPairs(s, inputs, false, Pos(outputVar), false);
      AddHeadClause(s, Neg(outputVar), inputs, true);
  }

  /** `encodeGate`: append the Tseytin clauses of the named gate, chosen
      by the master name in the order the source tests the names. */
  method EncodeGate(s: Solver, gateName: string, inputs: seq<Var>, outputVar: Var)
    requires s.Valid() && outputVar < s.numVars
    requires forall i :: 0 <= i < |inputs| ==> inputs[i] < s.numVars
    modifies s
    ensures s.Valid() && s.numVars == old(s.numVars)
    ensures s.clauses == old(s.clauses) + EncodedClauses(gateName, inputs, outputVar)
  {
    ghost var g := GateOf(gateName, |inputs|);
    if gateName == "buffer" {
      if |inputs| == 1 {
        EmitGate(s, BufferFn, inputs, outputVar);
      }
    } else if gateName == "inv" || gateName == "not" {
      if |inputs| == 1 {
        EmitGate(s, InvFn, inputs, outputVar);
      }
    } else if StartsWith(gateName, "xor") {
      if |inputs| == 2 {
        EmitGate(s, XorFn, inputs, outputVar);
      }
    } else if StartsWith(gateName, "nand") {
      EmitGate(s, NandFn, inputs, outputVar);
    } else if StartsWith(gateName, "nor") {
      EmitGate(s, NorFn, inputs, outputVar);
    } else if gateName == "and" || (StartsWith(gateName, "and") && !StartsWith(gateName, "nand")) {
      EmitGate(s, AndFn, inputs, outputVar);
    } else if gateName == "or" || (StartsWith(gateName, "or") && !StartsWith(gateName, "nor")) {
      EmitGate(s, OrFn, inputs, outputVar);
    }
  }

  // ---------------------------------------------------------------------
  // Encoding a cell: encodeCell
  // ---------------------------------------------------------------------

  /** Every node an instance port connects has a variable. */
  ghost predicate NodesIn(inst: Instance, pool: map<string, Var>)
  {
    forall p :: p in inst.ports ==> p.node in pool
  }

  /** The variables of the ports with direction d, in port order. */
  function DirVars(pool: map<string, Var>, ports: seq<InstPort>, d: Dir): seq<Var>
    requires forall p :: p in ports ==> p.node in pool
  {
    if ports == [] then []
    else
      var last := ports[|ports| - 1];
      DirVars(pool, ports[..|ports| - 1], d) + (if last.dir == d then [pool[last.node]] else [])
  }

  lemma {:induction false} DirVarsExtend(p1: map<string, Var>, p2: map<string, Var>, ports: seq<InstPort>, d: Dir)
    requires Extends(p2, p1) && forall p :: p in ports ==> p.node in p1
    ensures DirVars(p2, ports, d) == DirVars(p1, ports, d)
  {
    if ports != [] {
      DirVarsExtend(p1, p2, ports[..|ports| - 1], d);
    }
  }

  /** One more port appends at most its own variable. */
  lemma DirVarsSnoc(pool: map<string, Var>, ports: seq<InstPort>, j: nat, d: Dir)
    requires j < |ports| && forall p :: p in ports[..j + 1] ==> p.node in pool
    ensures DirVars(pool, ports[..j + 1], d)
         == DirVars(pool, ports[..j], d) + (if ports[j].dir == d then [pool[ports[j].node]] else [])
  {
    assert ports[..j + 1][..j] == ports[..j];
  }

  lemma DirVarsBelow(pool: map<string, Var>, ports: seq<InstPort>, d: Dir, n: nat)
    requires forall p :: p in ports ==> p.node in pool
    requires forall k :: k in pool ==> pool[k] < n
    ensures forall i :: 0 <= i < |DirVars(pool, ports, d)| ==> DirVars(pool, ports, d)[i] < n
  {
    if ports != [] {
      DirVarsBelow(pool, ports[..|ports| - 1], d, n);
    }
  }

  /** The instance's constraint as encodeCell states it: nothing for a
      "dff" or an instance without an output port, otherwise the gate
      relation between its first output and its inputs. */
  ghost predicate InstHolds(a: Assignment, pool: map<string, Var>, inst: Instance)
    requires NodesIn(inst, pool)
  {
    var ins := DirVars(pool, inst.ports, In);
    var outs := DirVars(pool, inst.ports, Out);
    inst.master == "dff" || outs == [] ||
      match GateOf(inst.master, |ins|)
      case None => true
      case Some(g) => a(outs[0]) == GateValue(g, a, ins)
  }

  lemma InstHoldsExtend(a: Assignment, p1: map<string, Var>, p2: map<string, Var>, inst: Instance)
    requires Extends(p2, p1) && NodesIn(inst, p1)
    ensures NodesIn(inst, p2)
    ensures InstHolds(a, p2, inst) <==> InstHolds(a, p1, inst)
  {
    DirVarsExtend(p1, p2, inst.ports, In);
    DirVarsExtend(p1, p2, inst.ports, Out);
  }

  /** Port name to node, the later port winning, as encodeCell's portNodes. */
  function PortNodes(ports: seq<InstPort>): (r: map<string, string>)
    ensures forall k :: k in r ==> exists j :: 0 <= j < |ports| && ports[j].port == k && ports[j].node == r[k]
    ensures forall j :: 0 <= j < |ports| ==> ports[j].port in r
  {
    if ports == [] then map[]
    else
      var last := ports[|ports| - 1];
      PortNodes(ports[..|ports| - 1])[last.port := last.node]
  }

  /** What encodeCell records of a flip-flop: its D and Q nodes, if any. */
  datatype DffInfo = DffInfo(d: Option<string>, q: Option<string>)

  function DffOf(inst: Instance): DffInfo
  {
    var pn := PortNodes(inst.ports);
    DffInfo(if "D" in pn then Some(pn["D"]) else None, if "Q" in pn then Some(pn["Q"]) else None)
  }

  /** One iteration of the port loop keeps its invariant: the variable of
      port j's node is filed as an input or output by the port's direction. */
  lemma PortLoopNext(c1: seq<Clause>, c2: seq<Clause>, ports: seq<InstPort>, j: nat,
                     c0: seq<Clause>, pool: map<string, Var>, pool1: map<string, Var>, pool2: map<string, Var>, v: Var,
                     inputs1: seq<Var>, outputs1: seq<Var>, portNodes1: map<string, string>,
                     inputs2: seq<Var>, outputs2: seq<Var>, portNodes2: map<string, string>)
    requires j < |ports| && Extends(pool1, pool) && Extends(pool2, pool1)
    requires forall p :: p in ports[..j] ==> p.node in pool1
    requires inputs1 == DirVars(pool1, ports[..j], In) && outputs1 == DirVars(pool1, ports[..j], Out)
    requires portNodes1 == PortNodes(ports[..j])
    requires forall a: Assignment :: Sat(a, c1) <==> (Sat(a, c0) && PowerHolds(a, pool1, pool))
    requires ports[j].node in pool2 && v == pool2[ports[j].node]
    requires forall a: Assignment :: Sat(a, c2) <==> (Sat(a, c1) && PowerHolds(a, pool2, pool1))
    requires portNodes2 == portNodes1[ports[j].port := ports[j].node]
    requires inputs2 == inputs1 + (if ports[j].dir == In then [v] else [])
    requires outputs2 == outputs1 + (if ports[j].dir == Out then [v] else [])
    ensures forall p :: p in ports[..j + 1] ==> p.node in pool2
    ensures inputs2 == DirVars(pool2, ports[..j + 1], In)
    ensures outputs2 == DirVars(pool2, ports[..j + 1], Out)
    ensures portNodes2 == PortNodes(ports[..j + 1])
    ensures forall a: Assignment :: Sat(a, c2) <==> (Sat(a, c0) && PowerHolds(a, pool2, pool))
  {
    PowerStep(c0, c1, c2, pool, pool1, pool2);
    DirVarsExtend(pool1, pool2, ports[..j], In);
    DirVarsExtend(pool1, pool2, ports[..j], Out);
    assert forall q :: q in ports[..j + 1] ==> q in ports[..j] || q == ports[j];
    DirVarsSnoc(pool2, ports, j, In);
    DirVarsSnoc(pool2, ports, j, Out);
    assert ports[..j + 1][..j] == ports[..j];
  }

  /** The port loop of encodeCell: a variable for every port's node, the
      input and output variables in port order, and the port-name map. */
  method PortVars(s: Solver, ports: seq<InstPort>, pool: map<string, Var>)
    returns (pool': map<string, Var>, inputs: seq<Var>, outputs: seq<Var>, portNodes: map<string, string>)
    requires s.Valid() && PoolValid(pool, s.numVars)
    modifies s
    ensures s.Valid() && PoolValid(pool', s.numVars) && Extends(pool', pool) && old(s.numVars) <= s.numVars
    ensures forall p :: p in ports ==> p.node in pool'
    ensures inputs == DirVars(pool', ports, In) && outputs == DirVars(pool', ports, Out)
    ensures portNodes == PortNodes(ports)
    ensures forall a: Assignment :: Sat(a, s.clauses) <==> (Sat(a, old(s.clauses)) && PowerHolds(a, pool', pool))
  {
    pool' := pool;
    inputs, outputs, portNodes := [], [], map[];
    for j := 0 to |ports|
      invariant s.Valid() && PoolValid(pool', s.numVars) && Extends(pool', pool) && old(s.numVars) <= s.numVars
      invariant forall p :: p in ports[..j] ==> p.node in pool'
      invariant inputs == DirVars(pool', ports[..j], In)
      invariant outputs == DirVars(pool', ports[..j], Out)
      invariant portNodes == PortNodes(ports[..j])
      invariant forall a: Assignment :: Sat(a, s.clauses) <==> (Sat(a, old(s.clauses)) && PowerHolds(a, pool', pool))
    {
      var p := ports[j];
      ghost var pool1, c1, inputs1, outputs1, portNodes1 := pool', s.clauses, inputs, outputs, portNodes;
      var v;
      v, pool' := GetVar(s, pool', p.node);
      portNodes := portNodes[p.port := p.node];
      if p.dir == In {
        inputs := inputs + [v];
      } else if p.dir == Out {
        outputs := outputs + [v];
      }
      PortLoopNext(c1, s.clauses, ports, j, old(s.clauses), pool, pool1, pool', v,
                   inputs1, outputs1, portNodes1, inputs, outputs, portNodes);
    }
    assert ports[..|ports|] == ports;
  }

  /** One loop iteration of encodeCell: the variables of every port's node,
      then either the flip-flop record or the gate's clauses on its first
      output. */
  method EncodeInstance(s: Solver, inst: Instance, pool: map<string, Var>) returns (pool': map<string, Var>, dff: Option<DffInfo>)
    requires s.Valid() && PoolValid(pool, s.numVars)
    modifies s
    ensures s.Valid() && PoolValid(pool', s.numVars) && Extends(pool', pool) && NodesIn(inst, pool')
    ensures old(s.numVars) <= s.numVars
    ensures dff == (if inst.master == "dff" then Some(DffOf(inst)) else None)
    ensures forall a: Assignment :: Sat(a, s.clauses) <==>
      (Sat(a, old(s.clauses)) && PowerHolds(a, pool', pool) && InstHolds(a, pool', inst))
  {
    var inputs, outputs, portNodes;
    pool', inputs, outputs, portNodes := PortVars(s, inst.ports, pool);
    ghost var c1 := s.clauses;
    if inst.master == "dff" {
      var info := RecordDff(s, inst, pool', portNodes);
      dff := Some(info);
      assert s.clauses == c1;
      return;
    }
    dff := None;
    if outputs != [] {
      EncodeInstGate(s, inst, pool', inputs, outputs);
      forall a: Assignment ensures Sat(a, s.clauses) <==>
        (Sat(a, old(s.clauses)) && PowerHolds(a, pool', pool) && InstHolds(a, pool', inst))
      {
        assert Sat(a, s.clauses) <==> Sat(a, c1) && InstHolds(a, pool', inst);
        assert Sat(a, c1) <==> Sat(a, old(s.clauses)) && PowerHolds(a, pool', pool);
      }
    }
  }

  /** The flip-flop half of one loop iteration of encodeCell: the D and Q
      nodes are looked up (they already have variables, so nothing is
      added) and recorded. */
  method RecordDff(s: Solver, inst: Instance, pool: map<string, Var>, portNodes: map<string, string>)
    returns (info: DffInfo)
    requires s.Valid() && PoolValid(pool, s.numVars) && NodesIn(inst, pool)
    requires portNodes == PortNodes(inst.ports)
    modifies s
    ensures s.Valid() && s.numVars == old(s.numVars) && s.clauses == old(s.clauses)
    ensures info == DffOf(inst)
  {
    var dNode: Option<string> := None;
    var qNode: Option<string> := None;
    if "D" in portNodes {
      dNode := Some(portNodes["D"]);
      var j :| 0 <= j < |inst.ports| && inst.ports[j].port == "D" && inst.ports[j].node == portNodes["D"];
      assert inst.ports[j] in inst.ports;
      var _, _ := GetVar(s, pool, portNodes["D"]);
    }
    if "Q" in portNodes {
      qNode := Some(portNodes["Q"]);
      var j :| 0 <= j < |inst.ports| && inst.ports[j].port == "Q" && inst.ports[j].node == portNodes["Q"];
      assert inst.ports[j] in inst.ports;
      var _, _ := GetVar(s, pool, portNodes["Q"]);
    }
    info := DffInfo(dNode, qNode);
  }

  /** The gate half of one loop iteration of encodeCell: the clauses of the
      gate on the instance's first output, which hold exactly when the
      instance's constraint does. */
  method EncodeInstGate(s: Solver, inst: Instance, pool: map<string, Var>, inputs: seq<Var>, outputs: seq<Var>)
    requires s.Valid() && PoolValid(pool, s.numVars) && NodesIn(inst, pool) && inst.master != "dff"
    requires inputs == DirVars(pool, inst.ports, In) && outputs == DirVars(pool, inst.ports, Out) && outputs != []
    modifies s
    ensures s.Valid() && s.numVars == old(s.numVars)
    ensures forall a: Assignment :: Sat(a, s.clauses) <==> (Sat(a, old(s.clauses)) && InstHolds(a, pool, inst))
  {
    DirVarsBelow(pool, inst.ports, In, s.numVars);
    DirVarsBelow(pool, inst.ports, Out, s.numVars);
    EncodeGate(s, inst.master, inputs, outputs[0]);
    forall a: Assignment ensures Sat(a, s.clauses) <==> (Sat(a, old(s.clauses)) && InstHolds(a, pool, inst))
    {
      SatAppend(a, old(s.clauses), EncodedClauses(inst.master, inputs, outputs[0]));
      match GateOf(inst.master, |inputs|)
      case None =>
      case Some(g) => GateExact(a, g, inputs, outputs[0]);
    }
  }

  /** Every node of every instance of the cell has a variable. */
  ghost predicate CellNodesIn(cell: Cell, pool: map<string, Var>)
  {
    forall i :: i in cell.insts ==> NodesIn(cell.insts[i], pool)
  }

  /** Every instance's constraint holds. */
  ghost predicate CellHolds(a: Assignment, pool: map<string, Var>, cell: Cell)
    requires CellNodesIn(cell, pool)
  {
    forall i :: i in cell.insts ==> InstHolds(a, pool, cell.insts[i])
  }

  lemma CellHoldsExtend(a: Assignment, p1: map<string, Var>, p2: map<string, Var>, cell: Cell)
    requires Extends(p2, p1) && CellNodesIn(cell, p1)
    ensures CellNodesIn(cell, p2)
    ensures CellHolds(a, p2, cell) <==> CellHolds(a, p1, cell)
  {
    forall i | i in cell.insts ensures InstHolds(a, p2, cell.insts[i]) <==> InstHolds(a, p1, cell.insts[i]) {
      InstHoldsExtend(a, p1, p2, cell.insts[i]);
    }
  }

  /** One iteration of the instance loop of encodeCell keeps its clause
      invariant. */
  lemma CellLoopNext(c0: seq<Clause>, c1: seq<Clause>, c2: seq<Clause>, cell: Cell, todo: set<string>, name: string,
                     pool: map<string, Var>, p1: map<string, Var>, p2: map<string, Var>)
    requires name in todo && name in cell.insts && Extends(p1, pool) && Extends(p2, p1)
    requires forall i :: i in cell.insts && i !in todo ==> NodesIn(cell.insts[i], p1)
    requires NodesIn(cell.insts[name], p2)
    requires forall a: Assignment :: Sat(a, c1) <==>
      (Sat(a, c0) && PowerHolds(a, p1, pool)
       && forall i :: i in cell.insts && i !in todo ==> InstHolds(a, p1, cell.insts[i]))
    requires forall a: Assignment :: Sat(a, c2) <==>
      (Sat(a, c1) && PowerHolds(a, p2, p1) && InstHolds(a, p2, cell.insts[name]))
    ensures forall i :: i in cell.insts && i !in todo - {name} ==> NodesIn(cell.insts[i], p2)
    ensures forall a: Assignment :: Sat(a, c2) <==>
      (Sat(a, c0) && PowerHolds(a, p2, pool)
       && forall i :: i in cell.insts && i !in todo - {name} ==> InstHolds(a, p2, cell.insts[i]))
  {
    forall a: Assignment ensures Sat(a, c2) <==>
      (Sat(a, c0) && PowerHolds(a, p2, pool)
       && forall i :: i in cell.insts && i !in todo - {name} ==> InstHolds(a, p2, cell.insts[i]))
    {
      PowerChain(a, pool, p1, p2);
      forall i | i in cell.insts && i !in todo
        ensures InstHolds(a, p2, cell.insts[i]) <==> InstHolds(a, p1, cell.insts[i])
      {
        InstHoldsExtend(a, p1, p2, cell.insts[i]);
      }
    }
  }

  /** The flip-flop table encodeCell fills: every "dff" instance by name. */
  function DffTable(cell: Cell): map<string, DffInfo>
  {
    map i | i in cell.insts && cell.insts[i].master == "dff" :: DffOf(cell.insts[i])
  }

  /** `encodeCell`: after it, an assignment satisfies the clauses exactly
      when it satisfied the earlier ones, forces the power nodes it met, and
      gives every encoded gate's output the gate's function of its inputs. */
  method EncodeCell(s: Solver, cell: Cell, pool: map<string, Var>) returns (pool': map<string, Var>, dffs: map<string, DffInfo>)
    requires s.Valid() && PoolValid(pool, s.numVars)
    modifies s
    ensures s.Valid() && PoolValid(pool', s.numVars) && Extends(pool', pool) && CellNodesIn(cell, pool')
    ensures old(s.numVars) <= s.numVars
    ensures dffs == DffTable(cell)
    ensures forall a: Assignment :: Sat(a, s.clauses) <==>
      (Sat(a, old(s.clauses)) && PowerHolds(a, pool', pool) && CellHolds(a, pool', cell))
  {
    pool' := pool;
    dffs := map[];
    var todo := cell.insts.Keys;
    while todo != {}
      invariant todo <= cell.insts.Keys
      invariant s.Valid() && PoolValid(pool', s.numVars) && Extends(pool', pool) && old(s.numVars) <= s.numVars
      invariant forall i :: i in cell.insts && i !in todo ==> NodesIn(cell.insts[i], pool')
      invariant dffs == map i | i in cell.insts && i !in todo && cell.insts[i].master == "dff" :: DffOf(cell.insts[i])
      invariant forall a: Assignment :: Sat(a, s.clauses) <==>
        (Sat(a, old(s.clauses)) && PowerHolds(a, pool', pool)
         && forall i :: i in cell.insts && i !in todo ==> InstHolds(a, pool', cell.insts[i]))
      decreases todo
    {
      var name :| name in todo;
      var inst := cell.insts[name];
      ghost var before, c1 := pool', s.clauses;
      var dff;
      pool', dff := EncodeInstance(s, inst, pool');
      if dff.Some? {
        dffs := dffs[name := dff.value];
      }
      CellLoopNext(old(s.clauses), c1, s.clauses, cell, todo, name, pool, before, pool');
      todo := todo - {name};
    }
  }
}
