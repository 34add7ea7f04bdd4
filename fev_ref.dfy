/** The reference equivalence checker (HCM/wet02/utilities/poli_reference.cc):
    one node-to-variable pool shared by both circuits, whose keys carry a
    "SPEC_" or "IMPL_" prefix; gates dispatched on the exact master-cell
    name; gate pins found by instance-port key, exactly or after a '%'. */
module FevRef {
  import opened Netlist
  import opened Cnf
  import Tseytin
  import Fev

  // ---------------------------------------------------------------------
  // The shared pool and getOrCreateVar
  // ---------------------------------------------------------------------

  /** Every variable of the pool was created. Two names may share one
      variable (a primary input's spec and impl names do). */
  ghost predicate Below(pool: map<string, Var>, n: nat)
  {
    forall k :: k in pool ==> pool[k] < n
  }

  /** The unit clauses getOrCreateVar adds for a new name: true when the
      name ends with "VDD", false when it ends with "VSS" (two independent
      tests on the last three characters). */
  function SuffixUnits(name: string, v: Var): seq<Clause>
  {
    (if EndsWith(name, "VDD") then [[Pos(v)]] else []) + (if EndsWith(name, "VSS") then [[Neg(v)]] else [])
  }

  /** The constants forced on the names that entered the pool after pool0. */
  ghost predicate SuffixPowerHolds(a: Assignment, pool: map<string, Var>, pool0: map<string, Var>)
  {
    forall n :: n in pool && n !in pool0 ==>
      (EndsWith(n, "VDD") ==> a(pool[n])) && (EndsWith(n, "VSS") ==> !a(pool[n]))
  }

  /** No name ends with both "VDD" and "VSS", so a new variable gets at most
      one unit clause. */
  lemma PowerSuffixesExclusive(name: string)
    ensures !(EndsWith(name, "VDD") && EndsWith(name, "VSS"))
    ensures |SuffixUnits(name, 0)| <= 1
  {
  }

  lemma SuffixChain(a: Assignment, p0: map<string, Var>, p1: map<string, Var>, p2: map<string, Var>)
    requires Fev.Extends(p1, p0) && Fev.Extends(p2, p1)
    ensures SuffixPowerHolds(a, p2, p0) <==> SuffixPowerHolds(a, p1, p0) && SuffixPowerHolds(a, p2, p1)
  {
  }

  /** Two steps that each add only power constraints add only power
      constraints. */
  lemma SuffixStep(c0: seq<Clause>, c1: seq<Clause>, c2: seq<Clause>,
                   p0: map<string, Var>, p1: map<string, Var>, p2: map<string, Var>)
    requires Fev.Extends(p1, p0) && Fev.Extends(p2, p1)
    requires forall a: Assignment :: Sat(a, c1) <==> (Sat(a, c0) && SuffixPowerHolds(a, p1, p0))
    requires forall a: Assignment :: Sat(a, c2) <==> (Sat(a, c1) && SuffixPowerHolds(a, p2, p1))
    ensures forall a: Assignment :: Sat(a, c2) <==> (Sat(a, c0) && SuffixPowerHolds(a, p2, p0))
  {
    forall a: Assignment ensures Sat(a, c2) <==> (Sat(a, c0) && SuffixPowerHolds(a, p2, p0)) {
      SuffixChain(a, p0, p1, p2);
    }
  }

  /** `getOrCreateVar`: the variable of a (prefixed) node name, created on
      first use. A repeated call returns the stored variable and changes
      nothing; a first call creates one fresh variable and forces it by a
      unit clause when the name ends with "VDD" or "VSS". */
  method GetOrCreateVar(s: Solver, pool: map<string, Var>, name: string) returns (v: Var, pool': map<string, Var>)
    requires s.Valid() && Below(pool, s.numVars)
    modifies s
    ensures s.Valid() && Below(pool', s.numVars) && Fev.Extends(pool', pool) && old(s.numVars) <= s.numVars
    ensures name in pool' && v == pool'[name]
    ensures name in pool ==>
      (v == pool[name] && pool' == pool && s.numVars == old(s.numVars) && s.clauses == old(s.clauses))
    ensures name !in pool ==>
      (v == old(s.numVars) && pool' == pool[name := v] && s.numVars == old(s.numVars) + 1
       && s.clauses == old(s.clauses) + SuffixUnits(name, v))
    ensures forall a: Assignment :: Sat(a, s.clauses) <==> (Sat(a, old(s.clauses)) && SuffixPowerHolds(a, pool', pool))
  {
    if name in pool {
      return pool[name], pool;
    }
    v := s.NewVar();
    pool' := pool[name := v];
    if EndsWith(name, "VDD") {
      s.AddClause([Pos(v)]);
    }
    if EndsWith(name, "VSS") {
      s.AddClause([Neg(v)]);
    }
    forall a: Assignment ensures Sat(a, s.clauses) <==> Sat(a, old(s.clauses)) && SuffixPowerHolds(a, pool', pool) {
      var u := SuffixUnits(name, v);
      SatAppend(a, old(s.clauses), u);
      PowerSuffixesExclusive(name);
      if u != [] {
        assert u[0] in u;
        assert u[0][0] in u[0];
      }
    }
  }

  // ---------------------------------------------------------------------
  // Gate kinds of encodeGate
  // ---------------------------------------------------------------------

  /** The gate kinds encodeGate tells apart by the master cell's exact
      name; the sized families carry their number of inputs. */
  datatype Kind = Buffer | Inv | And(arity: nat) | Nand(arity: nat) | Or(arity: nat) | Nor(arity: nat)
                | Xor2 | Dff | Unknown

  function Digit(k: nat): char
    requires k <= 9
  {
    ('0' as int + k) as char
  }

  /** name is the family base with k inputs: the bare base and base+"2"
      mean two, base+"3" to base+"9" mean three to nine. */
  predicate SizedName(name: string, base: string, k: nat)
  {
    (k == 2 && name == base) || (2 <= k <= 9 && name == base + [Digit(k)])
  }

  /** The number of inputs a sized family name spells, if it spells one. */
  function SizedArity(name: string, base: string): (r: Option<nat>)
    ensures r.Some? ==> SizedName(name, base, r.value)
    ensures forall k: nat :: SizedName(name, base, k) ==> r == Some(k)
  {
    if name == base || name == base + "2" then Some(2)
    else if |name| == |base| + 1 && name[..|base|] == base && '3' <= name[|base|] <= '9' then
      assert name == base + [Digit(name[|base|] as int - '0' as int)];
      Some(name[|base|] as int - '0' as int)
    else None
  }

  /** The sized families have two to nine inputs. */
  predicate WellSized(k: Kind)
  {
    (k.And? || k.Nand? || k.Or? || k.Nor?) ==> 2 <= k.arity <= 9
  }

  /** The gate kind encodeGate chooses for a master-cell name. Any other
      name, "xor" and "and10" among them, gets no clauses. */
  function KindOf(name: string): (r: Kind)
    ensures WellSized(r)
    ensures r == Buffer <==> name == "buffer"
    ensures r == Inv <==> name == "inv" || name == "not"
    ensures r == Xor2 <==> name == "xor2"
    ensures r == Dff <==> name == "dff"
    ensures r.And? ==> SizedName(name, "and", r.arity)
    ensures r.Nand? ==> SizedName(name, "nand", r.arity)
    ensures r.Or? ==> SizedName(name, "or", r.arity)
    ensures r.Nor? ==> SizedName(name, "nor", r.arity)
  {
    if name == "buffer" then Buffer
    else if name == "inv" || name == "not" then Inv
    else if SizedArity(name, "and").Some? then
      SizedPrefix(name, "and", SizedArity(name, "and").value);
      assert name[0] == 'a';
      And(SizedArity(name, "and").value)
    else if SizedArity(name, "nand").Some? then
      SizedPrefix(name, "nand", SizedArity(name, "nand").value);
      assert name[0] == 'n' && name[1] == 'a';
      Nand(SizedArity(name, "nand").value)
    else if SizedArity(name, "or").Some? then
      SizedPrefix(name, "or", SizedArity(name, "or").value);
      assert name[0] == 'o';
      Or(SizedArity(name, "or").value)
    else if SizedArity(name, "nor").Some? then
      SizedPrefix(name, "nor", SizedArity(name, "nor").value);
      assert name[0] == 'n' && name[1] == 'o';
      Nor(SizedArity(name, "nor").value)
    else if name == "xor2" then Xor2
    else if name == "dff" then Dff
    else Unknown
  }

  /** A sized family name starts with its base and has at most one more
      character. */
  lemma SizedPrefix(name: string, base: string, k: nat)
    requires SizedName(name, base, k)
    ensures |base| <= |name| <= |base| + 1 && name[..|base|] == base
  {
  }

  /** Every spelling of a sized family selects that family with that
      number of inputs. */
  lemma SizedKinds(name: string, k: nat)
    ensures SizedName(name, "and", k) ==> KindOf(name) == And(k)
    ensures SizedName(name, "nand", k) ==> KindOf(name) == Nand(k)
    ensures SizedName(name, "or", k) ==> KindOf(name) == Or(k)
    ensures SizedName(name, "nor", k) ==> KindOf(name) == Nor(k)
  {
    if SizedName(name, "nand", k) {
      assert name[0] == 'n' && name[1] == 'a';
      assert SizedArity(name, "and") == None;
    }
    if SizedName(name, "or", k) {
      assert name[0] == 'o';
      assert SizedArity(name, "and") == None && SizedArity(name, "nand") == None;
    }
    if SizedName(name, "nor", k) {
      assert name[0] == 'n' && name[1] == 'o';
      assert SizedArity(name, "and") == None && SizedArity(name, "nand") == None;
      assert SizedArity(name, "or") == None;
    }
  }

  /** Names the dispatch does not know: they are skipped with a warning. A
      family member outside two to nine inputs is unknown. */
  lemma UnknownArities()
    ensures KindOf("and10") == Unknown && KindOf("and1") == Unknown
  {
    assert "and10" != "and" + [Digit(1)];
    assert SizedArity("and10", "and") == None;
    assert SizedArity("and10", "nand") == None;
    assert SizedArity("and1", "and") == None;
  }

  /** The dispatch matches exact lower-case names: "xor", "xnor" and
      upper-case spellings are unknown. */
  lemma UnknownNames()
    ensures KindOf("xor") == Unknown && KindOf("AND2") == Unknown && KindOf("xnor") == Unknown
  {
    assert SizedArity("xnor", "nor") == None;
  }

  /** The pins encodeGate reads as inputs, in order. */
  const Letters: string := "ABCDEFGHI"

  function InputPorts(k: Kind): (r: seq<string>)
    requires WellSized(k)
    ensures k.And? || k.Nand? || k.Or? || k.Nor? ==> |r| == k.arity
    ensures |r| <= |Letters|
    ensures forall i :: 0 <= i < |r| ==> r[i] == [Letters[i]]
  {
    match k
    case Buffer => ["A"]
    case Inv => ["A"]
    case Xor2 => ["A", "B"]
    case Dff => []
    case Unknown => []
    case _ => seq(k.arity, i requires 0 <= i < k.arity => [Letters[i]])
  }

  /** The pins encodeGate looks up, in the order it looks them up: the
      inputs, then "Y". A flip-flop or an unknown gate looks up none. */
  function NeededPorts(k: Kind): seq<string>
    requires WellSized(k)
  {
    if k == Dff || k == Unknown then [] else InputPorts(k) + ["Y"]
  }

  /** The gate function behind a kind, when it has clauses. */
  function FnOf(k: Kind): (r: Option<GateFn>)
    ensures r.None? <==> k == Dff || k == Unknown
  {
    match k
    case Buffer => Some(BufferFn)
    case Inv => Some(InvFn)
    case And(_) => Some(AndFn)
    case Nand(_) => Some(NandFn)
    case Or(_) => Some(OrFn)
    case Nor(_) => Some(NorFn)
    case Xor2 => Some(XorFn)
    case Dff => None
    case Unknown => None
  }

  // ---------------------------------------------------------------------
  // getPortVar: finding the node behind a gate pin
  // ---------------------------------------------------------------------

  /** A port key fits pin p: exactly p, or (hierarchical key) any key that
      ends with "%" followed by p. */
  predicate KeyFits(key: string, p: string, exact: bool)
  {
    if exact then key == p else EndsWith(key, "%" + p)
  }

  /** The node of the first port, in key order, whose key fits p. */
  function FirstFit(ports: seq<InstPort>, p: string, exact: bool): (r: Option<string>)
    ensures r.None? <==> forall i :: 0 <= i < |ports| ==> !KeyFits(ports[i].key, p, exact)
    ensures r.Some? ==> exists i :: 0 <= i < |ports| && KeyFits(ports[i].key, p, exact) && ports[i].node == r.value
                                    && forall j :: 0 <= j < i ==> !KeyFits(ports[j].key, p, exact)
  {
    if ports == [] then None
    else if KeyFits(ports[0].key, p, exact) then Some(ports[0].node)
    else
      var r := FirstFit(ports[1..], p, exact);
      assert forall i :: 1 <= i < |ports| ==> ports[i] == ports[1..][i - 1];
      if r.Some? then
        ghost var i :| 0 <= i < |ports[1..]| && KeyFits(ports[1..][i].key, p, exact) && ports[1..][i].node == r.value
                       && forall j :: 0 <= j < i ==> !KeyFits(ports[1..][j].key, p, exact);
        assert KeyFits(ports[i + 1].key, p, exact) && forall j :: 0 <= j < i + 1 ==> !KeyFits(ports[j].key, p, exact);
        r
      else r
  }

  /** The node getPortVar uses for pin p: the port keyed exactly p, else the
      first port whose key ends with "%p"; None where the program prints the
      available ports and exits. */
  function PortNode(ports: seq<InstPort>, p: string): (r: Option<string>)
    ensures (exists i :: 0 <= i < |ports| && ports[i].key == p) ==>
      r.Some? && exists i :: 0 <= i < |ports| && ports[i].key == p && ports[i].node == r.value
    ensures r.None? <==> forall i :: 0 <= i < |ports| ==> ports[i].key != p && !EndsWith(ports[i].key, "%" + p)
  {
    var exact := FirstFit(ports, p, true);
    if exact.Some? then exact else FirstFit(ports, p, false)
  }

  /** The lookup of getPortVar: a search for the exact key, then a scan in
      key order for a key ending with "%p". */
  method FindPortNode(ports: seq<InstPort>, p: string) returns (r: Option<string>)
    ensures r == PortNode(ports, p)
  {
    r := FindFit(ports, p, true);
    if r.None? {
      r := FindFit(ports, p, false);
    }
  }

  /** One scan over the ports in key order for the first key that fits. */
  method FindFit(ports: seq<InstPort>, p: string, exact: bool) returns (r: Option<string>)
    ensures r == FirstFit(ports, p, exact)
  {
    var suffix := "%" + p;
    for i := 0 to |ports|
      invariant forall j :: 0 <= j < i ==> !KeyFits(ports[j].key, p, exact)
    {
      var key := ports[i].key;
      var fits := if exact then key == p else |key| >= |suffix| && key[|key| - |suffix|..] == suffix;
      assert fits == KeyFits(key, p, exact);
      if fits {
        FirstFitPrefix(ports, i, p, exact);
        return Some(ports[i].node);
      }
    }
    return None;
  }

  /** When no port before i fits and port i does, port i is the first fit. */
  lemma {:induction false} FirstFitPrefix(ports: seq<InstPort>, i: nat, p: string, exact: bool)
    requires i < |ports| && KeyFits(ports[i].key, p, exact)
    requires forall j :: 0 <= j < i ==> !KeyFits(ports[j].key, p, exact)
    ensures FirstFit(ports, p, exact) == Some(ports[i].node)
  {
    if i > 0 {
      assert !KeyFits(ports[0].key, p, exact);
      FirstFitPrefix(ports[1..], i - 1, p, exact);
    }
  }

  // ---------------------------------------------------------------------
  // encodeGate
  // ---------------------------------------------------------------------

  /** Every pin of names resolves to a node of the instance. */
  ghost predicate Resolved(inst: Instance, names: seq<string>)
  {
    forall i :: 0 <= i < |names| ==> PortNode(inst.ports, names[i]).Some?
  }

  /** The prefixed name of every resolved pin's node is in the pool. */
  ghost predicate KeysIn(pool: map<string, Var>, prefix: string, inst: Instance, names: seq<string>)
    requires Resolved(inst, names)
  {
    forall i :: 0 <= i < |names| ==> prefix + PortNode(inst.ports, names[i]).value in pool
  }

  /** The variables of the pins' nodes, in pin order. */
  ghost function PinVars(pool: map<string, Var>, prefix: string, inst: Instance, names: seq<string>): (r: seq<Var>)
    requires Resolved(inst, names) && KeysIn(pool, prefix, inst, names)
    ensures |r| == |names|
  {
    seq(|names|, i requires 0 <= i < |names| => pool[prefix + PortNode(inst.ports, names[i]).value])
  }

  lemma PinVarsExtend(p1: map<string, Var>, p2: map<string, Var>, prefix: string, inst: Instance, names: seq<string>)
    requires Fev.Extends(p2, p1) && Resolved(inst, names) && KeysIn(p1, prefix, inst, names)
    ensures KeysIn(p2, prefix, inst, names)
    ensures PinVars(p2, prefix, inst, names) == PinVars(p1, prefix, inst, names)
  {
  }

  /** One lookup of the pin loop keeps its invariant. */
  lemma ResolveNext(c0: seq<Clause>, c1: seq<Clause>, c2: seq<Clause>, pool: map<string, Var>,
                    p1: map<string, Var>, p2: map<string, Var>, prefix: string, inst: Instance,
                    names: seq<string>, j: nat, node: string, v: Var, vars1: seq<Var>)
    requires j < |names| && PortNode(inst.ports, names[j]) == Some(node)
    requires Fev.Extends(p1, pool) && Fev.Extends(p2, p1)
    requires Resolved(inst, names[..j]) && KeysIn(p1, prefix, inst, names[..j])
    requires vars1 == PinVars(p1, prefix, inst, names[..j])
    requires prefix + node in p2 && v == p2[prefix + node]
    requires forall a: Assignment :: Sat(a, c1) <==> (Sat(a, c0) && SuffixPowerHolds(a, p1, pool))
    requires forall a: Assignment :: Sat(a, c2) <==> (Sat(a, c1) && SuffixPowerHolds(a, p2, p1))
    ensures Resolved(inst, names[..j + 1]) && KeysIn(p2, prefix, inst, names[..j + 1])
    ensures vars1 + [v] == PinVars(p2, prefix, inst, names[..j + 1])
    ensures forall a: Assignment :: Sat(a, c2) <==> (Sat(a, c0) && SuffixPowerHolds(a, p2, pool))
  {
    SuffixStep(c0, c1, c2, pool, p1, p2);
    PinVarsExtend(p1, p2, prefix, inst, names[..j]);
    assert names[..j + 1][..j] == names[..j];
  }

  /** The calls of getPortVar one gate makes, in order: each pin's node
      gets its variable; the first pin that resolves to no node ends the
      run (the program exits). */
  method ResolvePorts(s: Solver, pool: map<string, Var>, prefix: string, inst: Instance, names: seq<string>)
    returns (ok: bool, vars: seq<Var>, pool': map<string, Var>)
    requires s.Valid() && Below(pool, s.numVars)
    modifies s
    ensures s.Valid() && Below(pool', s.numVars) && Fev.Extends(pool', pool) && old(s.numVars) <= s.numVars
    ensures ok <==> Resolved(inst, names)
    ensures ok ==> KeysIn(pool', prefix, inst, names) && vars == PinVars(pool', prefix, inst, names)
    ensures forall a: Assignment :: Sat(a, s.clauses) <==> (Sat(a, old(s.clauses)) && SuffixPowerHolds(a, pool', pool))
  {
    pool', vars := pool, [];
    for j := 0 to |names|
      invariant s.Valid() && Below(pool', s.numVars) && Fev.Extends(pool', pool) && old(s.numVars) <= s.numVars
      invariant Resolved(inst, names[..j]) && KeysIn(pool', prefix, inst, names[..j])
      invariant vars == PinVars(pool', prefix, inst, names[..j])
      invariant forall a: Assignment :: Sat(a, s.clauses) <==> (Sat(a, old(s.clauses)) && SuffixPowerHolds(a, pool', pool))
    {
      var node := FindPortNode(inst.ports, names[j]);
      if node.None? {
        return false, vars, pool';
      }
      ghost var p1, c1, vars1 := pool', s.clauses, vars;
      var v;
      v, pool' := GetOrCreateVar(s, pool', prefix + node.value);
      vars := vars + [v];
      ResolveNext(old(s.clauses), c1, s.clauses, pool, p1, pool', prefix, inst, names, j, node.value, v, vars1);
    }
    assert names[..|names|] == names;
    ok := true;
  }

  /** The clauses encodeGate adds for a gate of kind k whose pins, inputs
      then "Y", have the variables vars. */
  function RefClauses(k: Kind, vars: seq<Var>): seq<Clause>
    requires WellSized(k) && |vars| == |NeededPorts(k)|
  {
    match k
    case Buffer => Tseytin.BufferClauses(vars[0], vars[1])
    case Inv => Tseytin.InvClauses(vars[0], vars[1])
    case And(n) => Tseytin.AndClauses(vars[..n], vars[n])
    case Nand(n) => Tseytin.NandClauses(vars[..n], vars[n])
    case Or(n) => Tseytin.OrClauses(vars[..n], vars[n])
    case Nor(n) => Tseytin.NorClauses(vars[..n], vars[n])
    case Xor2 => Tseytin.XorClauses(vars[0], vars[1], vars[2])
    case Dff => []
    case Unknown => []
  }

  /** The gate's output pin carries the gate's function of its input pins
      (no constraint for a flip-flop or an unknown gate). */
  ghost predicate GateHolds(a: Assignment, k: Kind, vars: seq<Var>)
    requires WellSized(k) && |vars| == |NeededPorts(k)|
  {
    FnOf(k).Some? ==> a(vars[|vars| - 1]) == GateValue(FnOf(k).value, a, vars[..|vars| - 1])
  }

  /** The clauses of every kind are functionally exact. */
  lemma RefClausesExact(a: Assignment, k: Kind, vars: seq<Var>)
    requires WellSized(k) && |vars| == |NeededPorts(k)|
    ensures Sat(a, RefClauses(k, vars)) <==> GateHolds(a, k, vars)
  {
    if k.And? || k.Nand? || k.Or? || k.Nor? {
      SizedExact(a, k, vars);
    } else {
      FixedExact(a, k, vars);
    }
  }

  lemma FixedExact(a: Assignment, k: Kind, vars: seq<Var>)
    requires !(k.And? || k.Nand? || k.Or? || k.Nor?) && |vars| == |NeededPorts(k)|
    ensures Sat(a, RefClauses(k, vars)) <==> GateHolds(a, k, vars)
  {
    match k
    case Buffer =>
      assert vars[..1] == [vars[0]];
      Tseytin.BufferExact(a, vars[0], vars[1]);
    case Inv =>
      assert vars[..1] == [vars[0]];
      Tseytin.InvExact(a, vars[0], vars[1]);
    case Xor2 =>
      assert vars[..2] == [vars[0], vars[1]];
      Tseytin.XorExact(a, vars[0], vars[1], vars[2]);
    case Dff =>
    case Unknown =>
  }

  lemma SizedExact(a: Assignment, k: Kind, vars: seq<Var>)
    requires (k.And? || k.Nand? || k.Or? || k.Nor?) && WellSized(k) && |vars| == |NeededPorts(k)|
    ensures Sat(a, RefClauses(k, vars)) <==> GateHolds(a, k, vars)
  {
    var n := k.arity;
    assert |InputPorts(k)| == n;
    var ins, y := vars[..n], vars[n];
    assert vars[..|vars| - 1] == ins && vars[|vars| - 1] == y;
    assert GateHolds(a, k, vars) <==> a(y) == GateValue(FnOf(k).value, a, ins);
    match k
    case And(_) => Tseytin.AndExact(a, ins, y);
    case Nand(_) => Tseytin.NandExact(a, ins, y);
    case Or(_) => Tseytin.OrExact(a, ins, y);
    case Nor(_) => Tseytin.NorExact(a, ins, y);
  }

  /** The pins of inst's gate kind all resolve. */
  ghost predicate InstResolved(inst: Instance)
  {
    Resolved(inst, NeededPorts(KindOf(inst.master)))
  }

  ghost predicate InstKeysIn(pool: map<string, Var>, prefix: string, inst: Instance)
  {
    InstResolved(inst) && KeysIn(pool, prefix, inst, NeededPorts(KindOf(inst.master)))
  }

  /** The constraint one encoded instance puts on an assignment. */
  ghost predicate RefInstHolds(a: Assignment, pool: map<string, Var>, prefix: string, inst: Instance)
    requires InstKeysIn(pool, prefix, inst)
  {
    GateHolds(a, KindOf(inst.master), PinVars(pool, prefix, inst, NeededPorts(KindOf(inst.master))))
  }

  lemma RefInstHoldsExtend(a: Assignment, p1: map<string, Var>, p2: map<string, Var>, prefix: string, inst: Instance)
    requires Fev.Extends(p2, p1) && InstKeysIn(p1, prefix, inst)
    ensures InstKeysIn(p2, prefix, inst)
    ensures RefInstHolds(a, p2, prefix, inst) <==> RefInstHolds(a, p1, prefix, inst)
  {
    PinVarsExtend(p1, p2, prefix, inst, NeededPorts(KindOf(inst.master)));
  }

  /** The encoder call of encodeGate's dispatch: the clauses of kind k on
      the pin variables. */
  method EmitGate(s: Solver, k: Kind, vars: seq<Var>)
    requires s.Valid() && WellSized(k) && |vars| == |NeededPorts(k)|
    requires forall i :: 0 <= i < |vars| ==> vars[i] < s.numVars
    modifies s
    ensures s.Valid() && s.numVars == old(s.numVars)
    ensures s.clauses == old(s.clauses) + RefClauses(k, vars)
  {
    match k
    case Buffer => Tseytin.EncodeBuffer(s, vars[0], vars[1]);
    case Inv => Tseytin.EncodeInv(s, vars[0], vars[1]);
    case And(n) => Tseytin.EncodeAnd(s, vars[..n], vars[n]);
    case Nand(n) => Tseytin.EncodeNand(s, vars[..n], vars[n]);
    case Or(n) => Tseytin.EncodeOr(s, vars[..n], vars[n]);
    case Nor(n) => Tseytin.EncodeNor(s, vars[..n], vars[n]);
    case Xor2 => Tseytin.EncodeXor2(s, vars[0], vars[1], vars[2]);
    case Dff =>
    case Unknown =>
  }

  /** `encodeGate`: look up the gate's pins in order, then add the clauses
      of its kind. The run fails exactly when a pin the kind needs has no
      matching port; otherwise the new clauses force the gate's output to
      its function of the inputs. A flip-flop or an unknown gate looks up
      nothing and adds nothing. */
  method EncodeGateRef(s: Solver, inst: Instance, pool: map<string, Var>, prefix: string)
    returns (ok: bool, pool': map<string, Var>)
    requires s.Valid() && Below(pool, s.numVars)
    modifies s
    ensures s.Valid() && Below(pool', s.numVars) && Fev.Extends(pool', pool) && old(s.numVars) <= s.numVars
    ensures ok <==> InstResolved(inst)
    ensures ok ==> InstKeysIn(pool', prefix, inst)
    ensures ok ==> forall a: Assignment :: Sat(a, s.clauses) <==>
      (Sat(a, old(s.clauses)) && SuffixPowerHolds(a, pool', pool) && RefInstHolds(a, pool', prefix, inst))
  {
    var k := KindOf(inst.master);
    var vars;
    ok, vars, pool' := ResolvePorts(s, pool, prefix, inst, NeededPorts(k));
    if !ok {
      return;
    }
    assert forall i :: 0 <= i < |vars| ==> vars[i] < s.numVars;
    ghost var mid := s.clauses;
    EmitGate(s, k, vars);
    forall a: Assignment ensures Sat(a, s.clauses) <==>
      (Sat(a, old(s.clauses)) && SuffixPowerHolds(a, pool', pool) && RefInstHolds(a, pool', prefix, inst))
    {
      SatAppend(a, mid, RefClauses(k, vars));
      RefClausesExact(a, k, vars);
    }
  }

  // ---------------------------------------------------------------------
  // encodeCircuit
  // ---------------------------------------------------------------------

  /** Every instance's needed pins resolve. */
  ghost predicate CircuitResolved(cell: Cell)
  {
    forall i :: i in cell.insts ==> InstResolved(cell.insts[i])
  }

  ghost predicate CircuitKeysIn(pool: map<string, Var>, prefix: string, cell: Cell)
  {
    forall i :: i in cell.insts ==> InstKeysIn(pool, prefix, cell.insts[i])
  }

  /** Every instance's gate constraint holds. */
  ghost predicate CircuitHolds(a: Assignment, pool: map<string, Var>, prefix: string, cell: Cell)
    requires CircuitKeysIn(pool, prefix, cell)
  {
    forall i :: i in cell.insts ==> RefInstHolds(a, pool, prefix, cell.insts[i])
  }

  lemma CircuitHoldsExtend(a: Assignment, p1: map<string, Var>, p2: map<string, Var>, prefix: string, cell: Cell)
    requires Fev.Extends(p2, p1) && CircuitKeysIn(p1, prefix, cell)
    ensures CircuitKeysIn(p2, prefix, cell)
    ensures CircuitHolds(a, p2, prefix, cell) <==> CircuitHolds(a, p1, prefix, cell)
  {
    forall i | i in cell.insts
      ensures InstKeysIn(p2, prefix, cell.insts[i])
      ensures RefInstHolds(a, p2, prefix, cell.insts[i]) <==> RefInstHolds(a, p1, prefix, cell.insts[i])
    {
      RefInstHoldsExtend(a, p1, p2, prefix, cell.insts[i]);
    }
  }

  /** One iteration of the instance loop keeps its clause invariant. */
  lemma CircuitLoopNext(c0: seq<Clause>, c1: seq<Clause>, c2: seq<Clause>, cell: Cell, todo: set<string>, name: string,
                        prefix: string, pool: map<string, Var>, p1: map<string, Var>, p2: map<string, Var>)
    requires name in todo && name in cell.insts && Fev.Extends(p1, pool) && Fev.Extends(p2, p1)
    requires forall i :: i in cell.insts && i !in todo ==> InstKeysIn(p1, prefix, cell.insts[i])
    requires InstKeysIn(p2, prefix, cell.insts[name])
    requires forall a: Assignment :: Sat(a, c1) <==>
      (Sat(a, c0) && SuffixPowerHolds(a, p1, pool)
       && forall i :: i in cell.insts && i !in todo ==> RefInstHolds(a, p1, prefix, cell.insts[i]))
    requires forall a: Assignment :: Sat(a, c2) <==>
      (Sat(a, c1) && SuffixPowerHolds(a, p2, p1) && RefInstHolds(a, p2, prefix, cell.insts[name]))
    ensures forall i :: i in cell.insts && i !in todo - {name} ==> InstKeysIn(p2, prefix, cell.insts[i])
    ensures forall a: Assignment :: Sat(a, c2) <==>
      (Sat(a, c0) && SuffixPowerHolds(a, p2, pool)
       && forall i :: i in cell.insts && i !in todo - {name} ==> RefInstHolds(a, p2, prefix, cell.insts[i]))
  {
    forall i | i in cell.insts && i !in todo ensures InstKeysIn(p2, prefix, cell.insts[i]) {
      RefInstHoldsExtend((v: Var) => true, p1, p2, prefix, cell.insts[i]);
    }
    forall a: Assignment ensures Sat(a, c2) <==>
      (Sat(a, c0) && SuffixPowerHolds(a, p2, pool)
       && forall i :: i in cell.insts && i !in todo - {name} ==> RefInstHolds(a, p2, prefix, cell.insts[i]))
    {
      SuffixChain(a, pool, p1, p2);
      forall i | i in cell.insts && i !in todo
        ensures RefInstHolds(a, p2, prefix, cell.insts[i]) <==> RefInstHolds(a, p1, prefix, cell.insts[i])
      {
        RefInstHoldsExtend(a, p1, p2, prefix, cell.insts[i]);
      }
    }
  }

  /** `encodeCircuit`: encodeGate on every instance of the flat cell, in
      instance-name order. It fails exactly when some instance has a needed
      pin with no matching port; otherwise an assignment satisfies the new
      clauses exactly when it satisfied the earlier ones, forces the power
      names that entered the pool, and meets every gate's constraint. */
  method EncodeCircuit(s: Solver, cell: Cell, pool: map<string, Var>, prefix: string)
    returns (ok: bool, pool': map<string, Var>)
    requires s.Valid() && Below(pool, s.numVars)
    modifies s
    ensures s.Valid() && Below(pool', s.numVars) && Fev.Extends(pool', pool) && old(s.numVars) <= s.numVars
    ensures ok <==> CircuitResolved(cell)
    ensures ok ==> CircuitKeysIn(pool', prefix, cell)
    ensures ok ==> forall a: Assignment :: Sat(a, s.clauses) <==>
      (Sat(a, old(s.clauses)) && SuffixPowerHolds(a, pool', pool) && CircuitHolds(a, pool', prefix, cell))
  {
    pool' := pool;
    var todo := cell.insts.Keys;
    while todo != {}
      invariant todo <= cell.insts.Keys
      invariant s.Valid() && Below(pool', s.numVars) && Fev.Extends(pool', pool) && old(s.numVars) <= s.numVars
      invariant forall i :: i in cell.insts && i !in todo ==> InstKeysIn(pool', prefix, cell.insts[i])
      invariant forall a: Assignment :: Sat(a, s.clauses) <==>
        (Sat(a, old(s.clauses)) && SuffixPowerHolds(a, pool', pool)
         && forall i :: i in cell.insts && i !in todo ==> RefInstHolds(a, pool', prefix, cell.insts[i]))
      decreases todo
    {
      var name :| name in todo;
      ghost var p1, c1 := pool', s.clauses;
      var gateOk;
      gateOk, pool' := EncodeGateRef(s, cell.insts[name], pool', prefix);
      if !gateOk {
        return false, pool';
      }
      CircuitLoopNext(old(s.clauses), c1, s.clauses, cell, todo, name, prefix, pool, p1, pool');
      todo := todo - {name};
    }
    ok := true;
  }

  // ---------------------------------------------------------------------
  // getPrimaryInputs, getPrimaryOutputs and getDFFs
  // ---------------------------------------------------------------------

  /** `getPrimaryInputs` (d = In) and `getPrimaryOutputs` (d = Out): the
      nodes whose boundary port has exactly direction d, each once. */
  method BoundaryNodes(cell: Cell, d: Dir) returns (names: seq<string>)
    ensures Distinct(names)
    ensures forall n :: n in names <==> n in cell.nodes && cell.nodes[n].port == Some(d)
  {
    names := [];
    var todo := cell.nodes.Keys;
    while todo != {}
      invariant todo <= cell.nodes.Keys
      invariant Distinct(names)
      invariant forall n :: n in names <==> n in cell.nodes && n !in todo && cell.nodes[n].port == Some(d)
      decreases todo
    {
      var n :| n in todo;
      if cell.nodes[n].port == Some(d) {
        names := names + [n];
      }
      todo := todo - {n};
    }
  }

  /** A bidirectional boundary node is neither a primary input nor a primary
      output of the reference checker. */
  lemma InOutIsNeither(cell: Cell, n: string, ins: seq<string>, outs: seq<string>)
    requires forall m :: m in ins <==> m in cell.nodes && cell.nodes[m].port == Some(In)
    requires forall m :: m in outs <==> m in cell.nodes && cell.nodes[m].port == Some(Out)
    requires n in cell.nodes && cell.nodes[n].port == Some(InOut)
    ensures n !in ins && n !in outs
  {
  }

  /** A port key names flip-flop pin p: exactly p, or longer than two
      characters and ending with "%p". */
  predicate IsPin(key: string, p: string)
  {
    key == p || (|key| > 2 && EndsWith(key, "%" + p))
  }

  /** The node of the last port, in key order, that names pin p; "" when
      none does. */
  function LastPin(ports: seq<InstPort>, p: string): (r: string)
    ensures (forall i :: 0 <= i < |ports| ==> !IsPin(ports[i].key, p)) ==> r == ""
  {
    if ports == [] then ""
    else if IsPin(ports[|ports| - 1].key, p) then ports[|ports| - 1].node
    else
      var front := ports[..|ports| - 1];
      assert forall i :: 0 <= i < |front| ==> front[i] == ports[i];
      LastPin(front, p)
  }

  /** When some port names pin p, LastPin is the node of the last such port
      i: a later matching key ("D" or one ending in "%D") overrides an earlier one. */
  lemma {:induction false} LastPinIsLast(ports: seq<InstPort>, p: string) returns (i: int)
    requires exists k :: 0 <= k < |ports| && IsPin(ports[k].key, p)
    ensures 0 <= i < |ports| && IsPin(ports[i].key, p) && ports[i].node == LastPin(ports, p)
    ensures forall j :: i < j < |ports| ==> !IsPin(ports[j].key, p)
  {
    var n := |ports| - 1;
    if IsPin(ports[n].key, p) {
      i := n;
    } else {
      var front := ports[..n];
      var k :| 0 <= k < |ports| && IsPin(ports[k].key, p);
      assert k < n && front[k] == ports[k];
      i := LastPinIsLast(front, p);
      assert ports[i] == front[i];
      assert forall j :: i < j < n ==> ports[j] == front[j];
      assert LastPin(ports, p) == LastPin(front, p);
    }
  }

  lemma LastPinNext(ports: seq<InstPort>, i: nat, p: string)
    requires i < |ports|
    ensures LastPin(ports[..i + 1], p) == if IsPin(ports[i].key, p) then ports[i].node else LastPin(ports[..i], p)
  {
    assert ports[..i + 1][..i] == ports[..i];
  }

  /** The port loop of getDFFs: the D and Q nodes of one flip-flop. */
  method PinNodes(ports: seq<InstPort>) returns (dNode: string, qNode: string)
    ensures dNode == LastPin(ports, "D") && qNode == LastPin(ports, "Q")
  {
    dNode, qNode := "", "";
    for i := 0 to |ports|
      invariant dNode == LastPin(ports[..i], "D") && qNode == LastPin(ports[..i], "Q")
    {
      var key := ports[i].key;
      var isD := key == "D" || (|key| > 2 && key[|key| - 2..] == "%D");
      var isQ := key == "Q" || (|key| > 2 && key[|key| - 2..] == "%Q");
      assert isD == IsPin(key, "D") && isQ == IsPin(key, "Q");
      if isD {
        dNode := ports[i].node;
      }
      if isQ {
        qNode := ports[i].node;
      }
      LastPinNext(ports, i, "D");
      LastPinNext(ports, i, "Q");
    }
    assert ports[..|ports|] == ports;
  }

  /** The (D node, Q node) pair of every "dff" instance, by instance name. */
  function DffPinTable(cell: Cell): map<string, (string, string)>
  {
    map i | i in cell.insts && cell.insts[i].master == "dff" :: (LastPin(cell.insts[i].ports, "D"), LastPin(cell.insts[i].ports, "Q"))
  }

  /** `getDFFs`: the flip-flop table of a flat cell. */
  method GetDffs(cell: Cell) returns (dffs: map<string, (string, string)>)
    ensures dffs == DffPinTable(cell)
  {
    dffs := map[];
    var todo := cell.insts.Keys;
    while todo != {}
      invariant todo <= cell.insts.Keys
      invariant dffs == map i | i in cell.insts && i !in todo && cell.insts[i].master == "dff" ::
        (LastPin(cell.insts[i].ports, "D"), LastPin(cell.insts[i].ports, "Q"))
      decreases todo
    {
      var name :| name in todo;
      var inst := cell.insts[name];
      if inst.master == "dff" {
        var dNode, qNode := PinNodes(inst.ports);
        dffs := dffs[name := (dNode, qNode)];
      }
      todo := todo - {name};
    }
  }
}
