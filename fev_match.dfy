/** The second half of the submitted equivalence checker
    (HCM/wet02/HW2ex1.cc:202-228, 393-475): the boundary ports of both
    circuits, the ties between same-named primary inputs and flip-flop
    outputs, the list of signals to compare, and the XOR miter that asks
    for a difference between them. */
module FevMatch {
  import opened Netlist
  import opened Cnf
  import opened Fev
  import Tseytin

  /** A pair of solver variables: one of the specification, one of the
      implementation. */
  type Pair = (Var, Var)

  // ---------------------------------------------------------------------
  // Boundary ports (collectPorts)
  // ---------------------------------------------------------------------

  /** The names of the nodes `collectPorts` files as primary inputs. */
  ghost function PrimaryInputs(cell: Cell): set<string>
  {
    set n | n in cell.nodes && (cell.nodes[n].port == Some(In) || cell.nodes[n].port == Some(InOut))
  }

  /** The names of the nodes `collectPorts` files as primary outputs. */
  ghost function PrimaryOutputs(cell: Cell): set<string>
  {
    set n | n in cell.nodes && (cell.nodes[n].port == Some(Out) || cell.nodes[n].port == Some(InOut))
  }

  /** `collectPorts`: every boundary node by its direction; internal nodes
      (no port) are skipped. */
  method CollectPorts(cell: Cell) returns (pis: set<string>, pos: set<string>)
    ensures pis == PrimaryInputs(cell) && pos == PrimaryOutputs(cell)
  {
    pis, pos := {}, {};
    var todo := cell.nodes.Keys;
    while todo != {}
      invariant todo <= cell.nodes.Keys
      invariant pis == set n | n in cell.nodes && n !in todo
        && (cell.nodes[n].port == Some(In) || cell.nodes[n].port == Some(InOut))
      invariant pos == set n | n in cell.nodes && n !in todo
        && (cell.nodes[n].port == Some(Out) || cell.nodes[n].port == Some(InOut))
      decreases todo
    {
      var name :| name in todo;
      var port := cell.nodes[name].port;
      if port.Some? {
        if port.value == In {
          pis := pis + {name};
        } else if port.value == Out {
          pos := pos + {name};
        } else {
          pis := pis + {name};
          pos := pos + {name};
        }
      }
      todo := todo - {name};
    }
  }

  /** A node is both a primary input and a primary output exactly when its
      port is bidirectional; a node without a port is neither. */
  lemma PortClasses(cell: Cell, n: string)
    ensures n in PrimaryInputs(cell) && n in PrimaryOutputs(cell)
        <==> n in cell.nodes && cell.nodes[n].port == Some(InOut)
    ensures n in cell.nodes && cell.nodes[n].port == None ==>
      n !in PrimaryInputs(cell) && n !in PrimaryOutputs(cell)
  {
  }

  // ---------------------------------------------------------------------
  // What the matching stages add
  // ---------------------------------------------------------------------

  /** Every tie holds: both variables of each pair have the same value. */
  ghost predicate TiesHold(a: Assignment, ties: seq<Pair>)
  {
    forall i :: 0 <= i < |ties| ==> a(ties[i].0) == a(ties[i].1)
  }

  /** Pair i joins the specification variable of node ls[i] and the
      implementation variable of node rs[i]. */
  ghost predicate NodePairs(ps: seq<Pair>, ls: seq<string>, rs: seq<string>,
                            sp: map<string, Var>, ip: map<string, Var>)
  {
    && |ps| == |ls| && |ps| == |rs|
    && forall i :: 0 <= i < |ps| ==> ls[i] in sp && rs[i] in ip && ps[i] == (sp[ls[i]], ip[rs[i]])
  }

  lemma NodePairsExtend(ps: seq<Pair>, ls: seq<string>, rs: seq<string>,
                        sp: map<string, Var>, ip: map<string, Var>, sp': map<string, Var>, ip': map<string, Var>)
    requires NodePairs(ps, ls, rs, sp, ip) && Extends(sp', sp) && Extends(ip', ip)
    ensures NodePairs(ps, ls, rs, sp', ip')
  {
  }

  lemma NodePairsSnoc(ps: seq<Pair>, ls: seq<string>, rs: seq<string>,
                      sp: map<string, Var>, ip: map<string, Var>, l: string, r: string)
    requires NodePairs(ps, ls, rs, sp, ip) && l in sp && r in ip
    ensures NodePairs(ps + [(sp[l], ip[r])], ls + [l], rs + [r], sp, ip)
  {
  }

  /** The clauses c are those of c0 plus the power constants of the names
      new in both pools plus the ties. */
  ghost predicate Stage(a: Assignment, c: seq<Clause>, c0: seq<Clause>, sp: map<string, Var>, sp0: map<string, Var>,
                        ip: map<string, Var>, ip0: map<string, Var>, ties: seq<Pair>)
  {
    Sat(a, c) <==> (Sat(a, c0) && PowerHolds(a, sp, sp0) && PowerHolds(a, ip, ip0) && TiesHold(a, ties))
  }

  /** An empty stage adds nothing. */
  lemma StageEmpty(c: seq<Clause>, sp: map<string, Var>, ip: map<string, Var>)
    ensures forall a: Assignment :: Stage(a, c, c, sp, sp, ip, ip, [])
  {
  }

  /** The fixed stage facts after a pair of `getVar` calls. */
  lemma StageGet(c0: seq<Clause>, c1: seq<Clause>, c2: seq<Clause>,
                 sp: map<string, Var>, sp1: map<string, Var>, sp2: map<string, Var>,
                 ip: map<string, Var>, ip1: map<string, Var>, ip2: map<string, Var>, ties: seq<Pair>)
    requires Extends(sp1, sp) && Extends(sp2, sp1) && Extends(ip1, ip) && Extends(ip2, ip1)
    requires forall a: Assignment :: Stage(a, c1, c0, sp1, sp, ip1, ip, ties)
    requires forall a: Assignment :: Sat(a, c2) <==> (Sat(a, c1) && PowerHolds(a, sp2, sp1) && PowerHolds(a, ip2, ip1))
    ensures forall a: Assignment :: Stage(a, c2, c0, sp2, sp, ip2, ip, ties)
  {
    forall a: Assignment ensures Stage(a, c2, c0, sp2, sp, ip2, ip, ties) {
      assert Stage(a, c1, c0, sp1, sp, ip1, ip, ties);
      PowerChain(a, sp, sp1, sp2);
      PowerChain(a, ip, ip1, ip2);
    }
  }

  /** The stage facts after one more `addEq`. */
  lemma StageTie(c0: seq<Clause>, c1: seq<Clause>, c2: seq<Clause>,
                 sp: map<string, Var>, sp1: map<string, Var>, ip: map<string, Var>, ip1: map<string, Var>,
                 ties: seq<Pair>, x: Var, y: Var)
    requires forall a: Assignment :: Stage(a, c1, c0, sp1, sp, ip1, ip, ties)
    requires forall a: Assignment :: Sat(a, c2) <==> (Sat(a, c1) && a(x) == a(y))
    ensures forall a: Assignment :: Stage(a, c2, c0, sp1, sp, ip1, ip, ties + [(x, y)])
  {
    forall a: Assignment ensures Stage(a, c2, c0, sp1, sp, ip1, ip, ties + [(x, y)]) {
      assert Stage(a, c1, c0, sp1, sp, ip1, ip, ties);
      var t := ties + [(x, y)];
      assert t[|ties|] == (x, y);
      assert TiesHold(a, t) <==> TiesHold(a, ties) && a(x) == a(y) by {
        if TiesHold(a, ties) && a(x) == a(y) {
          forall i | 0 <= i < |t| ensures a(t[i].0) == a(t[i].1) {
            if i < |ties| { assert t[i] == ties[i]; }
          }
        }
        if TiesHold(a, t) {
          forall i | 0 <= i < |ties| ensures a(ties[i].0) == a(ties[i].1) {
            assert t[i] == ties[i];
          }
        }
      }
    }
  }

  /** The two `getVar` calls that look up a signal in the specification
      pool and its namesake in the implementation pool. */
  method GetVarPair(s: Solver, sp: map<string, Var>, ip: map<string, Var>, m: string, n: string)
    returns (x: Var, y: Var, sp': map<string, Var>, ip': map<string, Var>)
    requires s.Valid() && PoolValid(sp, s.numVars) && PoolValid(ip, s.numVars)
    modifies s
    ensures s.Valid() && PoolValid(sp', s.numVars) && PoolValid(ip', s.numVars)
    ensures Extends(sp', sp) && Extends(ip', ip)
    ensures m in sp' && x == sp'[m] && n in ip' && y == ip'[n]
    ensures forall a: Assignment :: Sat(a, s.clauses) <==>
      (Sat(a, old(s.clauses)) && PowerHolds(a, sp', sp) && PowerHolds(a, ip', ip))
  {
    x, sp' := GetVar(s, sp, m);
    y, ip' := GetVar(s, ip, n);
  }

  // ---------------------------------------------------------------------
  // Primary inputs and outputs
  // ---------------------------------------------------------------------

  /** The primary-input loop: every specification input that the
      implementation also has is tied to its namesake with `addEq`; an
      input of one circuit only stays free. */
  method TieInputs(s: Solver, specPIs: set<string>, implPIs: set<string>, sp: map<string, Var>, ip: map<string, Var>)
    returns (sp': map<string, Var>, ip': map<string, Var>, ties: seq<Pair>, ghost names: seq<string>)
    requires s.Valid() && PoolValid(sp, s.numVars) && PoolValid(ip, s.numVars)
    modifies s
    ensures s.Valid() && PoolValid(sp', s.numVars) && PoolValid(ip', s.numVars)
    ensures Extends(sp', sp) && Extends(ip', ip)
    ensures Distinct(names) && forall n :: n in names <==> n in specPIs && n in implPIs
    ensures NodePairs(ties, names, names, sp', ip')
    ensures forall a: Assignment :: Stage(a, s.clauses, old(s.clauses), sp', sp, ip', ip, ties)
  {
    sp', ip', ties, names := sp, ip, [], [];
    var todo := specPIs;
    while todo != {}
      invariant todo <= specPIs
      invariant s.Valid() && PoolValid(sp', s.numVars) && PoolValid(ip', s.numVars)
      invariant Extends(sp', sp) && Extends(ip', ip)
      invariant Distinct(names) && forall n :: n in names <==> n in specPIs && n !in todo && n in implPIs
      invariant NodePairs(ties, names, names, sp', ip')
      invariant forall a: Assignment :: Stage(a, s.clauses, old(s.clauses), sp', sp, ip', ip, ties)
      decreases todo
    {
      var name :| name in todo;
      todo := todo - {name};
      if name !in implPIs {
        continue;
      }
      ghost var sp1, ip1, c1 := sp', ip', s.clauses;
      var x, y;
      x, y, sp', ip' := GetVarPair(s, sp', ip', name, name);
      StageGet(old(s.clauses), c1, s.clauses, sp, sp1, sp', ip, ip1, ip', ties);
      ghost var c2 := s.clauses;
      AddEq(s, x, y);
      StageTie(old(s.clauses), c2, s.clauses, sp, sp', ip, ip', ties, x, y);
      NodePairsExtend(ties, names, names, sp1, ip1, sp', ip');
      ties := ties + [(x, y)];
      names := names + [name];
    }
  }

  /** The primary-output loop: every specification output that the
      implementation also has becomes a compare pair; nothing is added to
      the clauses but the power constants of new names. */
  method CompareOutputs(s: Solver, specPOs: set<string>, implPOs: set<string>, sp: map<string, Var>, ip: map<string, Var>)
    returns (sp': map<string, Var>, ip': map<string, Var>, pairs: seq<Pair>, ghost names: seq<string>)
    requires s.Valid() && PoolValid(sp, s.numVars) && PoolValid(ip, s.numVars)
    modifies s
    ensures s.Valid() && PoolValid(sp', s.numVars) && PoolValid(ip', s.numVars)
    ensures Extends(sp', sp) && Extends(ip', ip)
    ensures Distinct(names) && forall n :: n in names <==> n in specPOs && n in implPOs
    ensures NodePairs(pairs, names, names, sp', ip')
    ensures forall a: Assignment :: Stage(a, s.clauses, old(s.clauses), sp', sp, ip', ip, [])
  {
    sp', ip', pairs, names := sp, ip, [], [];
    var todo := specPOs;
    while todo != {}
      invariant todo <= specPOs
      invariant s.Valid() && PoolValid(sp', s.numVars) && PoolValid(ip', s.numVars)
      invariant Extends(sp', sp) && Extends(ip', ip)
      invariant Distinct(names) && forall n :: n in names <==> n in specPOs && n !in todo && n in implPOs
      invariant NodePairs(pairs, names, names, sp', ip')
      invariant forall a: Assignment :: Stage(a, s.clauses, old(s.clauses), sp', sp, ip', ip, [])
      decreases todo
    {
      var name :| name in todo;
      todo := todo - {name};
      if name !in implPOs {
        continue;
      }
      ghost var sp1, ip1, c1 := sp', ip', s.clauses;
      var x, y;
      x, y, sp', ip' := GetVarPair(s, sp', ip', name, name);
      StageGet(old(s.clauses), c1, s.clauses, sp, sp1, sp', ip, ip1, ip', []);
      NodePairsExtend(pairs, names, names, sp1, ip1, sp', ip');
      pairs := pairs + [(x, y)];
      names := names + [name];
    }
  }

  // ---------------------------------------------------------------------
  // Flip-flops
  // ---------------------------------------------------------------------

  /** The Q nodes of the named flip-flops. */
  function QNodes(dffs: map<string, DffInfo>, names: seq<string>): (r: seq<string>)
    requires forall i :: 0 <= i < |names| ==> names[i] in dffs && dffs[names[i]].q.Some?
    ensures |r| == |names| && forall i :: 0 <= i < |names| ==> r[i] == dffs[names[i]].q.value
  {
    seq(|names|, i requires 0 <= i < |names| => dffs[names[i]].q.value)
  }

  /** The D nodes of the named flip-flops. */
  function DNodes(dffs: map<string, DffInfo>, names: seq<string>): (r: seq<string>)
    requires forall i :: 0 <= i < |names| ==> names[i] in dffs && dffs[names[i]].d.Some?
    ensures |r| == |names| && forall i :: 0 <= i < |names| ==> r[i] == dffs[names[i]].d.value
  {
    seq(|names|, i requires 0 <= i < |names| => dffs[names[i]].d.value)
  }

  lemma DffNodesSnoc(dffs: map<string, DffInfo>, names: seq<string>, n: string)
    requires forall i :: 0 <= i < |names| ==> names[i] in dffs
    requires n in dffs
    ensures (forall i :: 0 <= i < |names| ==> dffs[names[i]].q.Some?) && dffs[n].q.Some? ==>
      QNodes(dffs, names + [n]) == QNodes(dffs, names) + [dffs[n].q.value]
    ensures (forall i :: 0 <= i < |names| ==> dffs[names[i]].d.Some?) && dffs[n].d.Some? ==>
      DNodes(dffs, names + [n]) == DNodes(dffs, names) + [dffs[n].d.value]
  {
  }

  /** Stages compose: the ties of the second follow those of the first. */
  lemma StageCompose(c0: seq<Clause>, c1: seq<Clause>, c2: seq<Clause>,
                     sp: map<string, Var>, sp1: map<string, Var>, sp2: map<string, Var>,
                     ip: map<string, Var>, ip1: map<string, Var>, ip2: map<string, Var>,
                     t1: seq<Pair>, t2: seq<Pair>)
    requires Extends(sp1, sp) && Extends(sp2, sp1) && Extends(ip1, ip) && Extends(ip2, ip1)
    requires forall a: Assignment :: Stage(a, c1, c0, sp1, sp, ip1, ip, t1)
    requires forall a: Assignment :: Stage(a, c2, c1, sp2, sp1, ip2, ip1, t2)
    ensures forall a: Assignment :: Stage(a, c2, c0, sp2, sp, ip2, ip, t1 + t2)
  {
    forall a: Assignment ensures Stage(a, c2, c0, sp2, sp, ip2, ip, t1 + t2) {
      assert Stage(a, c1, c0, sp1, sp, ip1, ip, t1);
      assert Stage(a, c2, c1, sp2, sp1, ip2, ip1, t2);
      PowerChain(a, sp, sp1, sp2);
      PowerChain(a, ip, ip1, ip2);
      var t := t1 + t2;
      assert TiesHold(a, t) <==> TiesHold(a, t1) && TiesHold(a, t2) by {
        if TiesHold(a, t1) && TiesHold(a, t2) {
          forall i | 0 <= i < |t| ensures a(t[i].0) == a(t[i].1) {
            if i < |t1| { assert t[i] == t1[i]; } else { assert t[i] == t2[i - |t1|]; }
          }
        }
        if TiesHold(a, t) {
          forall i | 0 <= i < |t1| ensures a(t1[i].0) == a(t1[i].1) {
            assert t[i] == t1[i];
          }
          forall i | 0 <= i < |t2| ensures a(t2[i].0) == a(t2[i].1) {
            assert t[|t1| + i] == t2[i];
          }
        }
      }
    }
  }

  /** The body of the flip-flop loop for a name both circuits have: the Q
      variables are tied when both Q nodes exist, and the D variables are
      returned as a compare pair when both D nodes exist. */
  method MatchDff(s: Solver, specInfo: DffInfo, implInfo: DffInfo, sp: map<string, Var>, ip: map<string, Var>)
    returns (sp': map<string, Var>, ip': map<string, Var>, qTie: seq<Pair>, dPair: seq<Pair>)
    requires s.Valid() && PoolValid(sp, s.numVars) && PoolValid(ip, s.numVars)
    modifies s
    ensures s.Valid() && PoolValid(sp', s.numVars) && PoolValid(ip', s.numVars)
    ensures Extends(sp', sp) && Extends(ip', ip)
    ensures specInfo.q.Some? && implInfo.q.Some? ==>
      (specInfo.q.value in sp' && implInfo.q.value in ip' && qTie == [(sp'[specInfo.q.value], ip'[implInfo.q.value])])
    ensures !(specInfo.q.Some? && implInfo.q.Some?) ==> qTie == []
    ensures specInfo.d.Some? && implInfo.d.Some? ==>
      (specInfo.d.value in sp' && implInfo.d.value in ip' && dPair == [(sp'[specInfo.d.value], ip'[implInfo.d.value])])
    ensures !(specInfo.d.Some? && implInfo.d.Some?) ==> dPair == []
    ensures forall a: Assignment :: Stage(a, s.clauses, old(s.clauses), sp', sp, ip', ip, qTie)
  {
    sp', ip', qTie, dPair := sp, ip, [], [];
    StageEmpty(s.clauses, sp, ip);
    if specInfo.q.Some? && implInfo.q.Some? {
      var x, y;
      x, y, sp', ip' := GetVarPair(s, sp, ip, specInfo.q.value, implInfo.q.value);
      StageGet(old(s.clauses), old(s.clauses), s.clauses, sp, sp, sp', ip, ip, ip', []);
      ghost var c2 := s.clauses;
      AddEq(s, x, y);
      StageTie(old(s.clauses), c2, s.clauses, sp, sp', ip, ip', [], x, y);
      qTie := [(x, y)];
      assert [] + qTie == qTie;
    }
    if specInfo.d.Some? && implInfo.d.Some? {
      ghost var sp1, ip1, c1 := sp', ip', s.clauses;
      var x, y;
      x, y, sp', ip' := GetVarPair(s, sp', ip', specInfo.d.value, implInfo.d.value);
      StageGet(old(s.clauses), c1, s.clauses, sp, sp1, sp', ip, ip1, ip', qTie);
      if qTie != [] {
        assert specInfo.q.value in sp1 && implInfo.q.value in ip1;
      }
      dPair := [(x, y)];
    }
  }

  /** The bookkeeping of one iteration of the flip-flop loop: the name
      joins the Q list and the D list when its pair was tied or compared. */
  lemma DffNamesNext(specDffs: map<string, DffInfo>, implDffs: map<string, DffInfo>, todo: set<string>, name: string,
                     qNames: seq<string>, dNames: seq<string>, qTies: seq<Pair>, dPairs: seq<Pair>,
                     sp1: map<string, Var>, ip1: map<string, Var>, sp2: map<string, Var>, ip2: map<string, Var>,
                     qTie: seq<Pair>, dPair: seq<Pair>)
    returns (qNames': seq<string>, dNames': seq<string>)
    requires name in specDffs && name in implDffs && name !in todo
    requires Distinct(qNames) && forall n :: n in qNames <==>
      (n in specDffs && n !in todo && n != name && n in implDffs && specDffs[n].q.Some? && implDffs[n].q.Some?)
    requires Distinct(dNames) && forall n :: n in dNames <==>
      (n in specDffs && n !in todo && n != name && n in implDffs && specDffs[n].d.Some? && implDffs[n].d.Some?)
    requires NodePairs(qTies, QNodes(specDffs, qNames), QNodes(implDffs, qNames), sp1, ip1)
    requires NodePairs(dPairs, DNodes(specDffs, dNames), DNodes(implDffs, dNames), sp1, ip1)
    requires Extends(sp2, sp1) && Extends(ip2, ip1)
    requires var si, ii := specDffs[name], implDffs[name];
      && (si.q.Some? && ii.q.Some? ==> si.q.value in sp2 && ii.q.value in ip2 && qTie == [(sp2[si.q.value], ip2[ii.q.value])])
      && (!(si.q.Some? && ii.q.Some?) ==> qTie == [])
      && (si.d.Some? && ii.d.Some? ==> si.d.value in sp2 && ii.d.value in ip2 && dPair == [(sp2[si.d.value], ip2[ii.d.value])])
      && (!(si.d.Some? && ii.d.Some?) ==> dPair == [])
    ensures Distinct(qNames') && forall n :: n in qNames' <==>
      (n in specDffs && n !in todo && n in implDffs && specDffs[n].q.Some? && implDffs[n].q.Some?)
    ensures Distinct(dNames') && forall n :: n in dNames' <==>
      (n in specDffs && n !in todo && n in implDffs && specDffs[n].d.Some? && implDffs[n].d.Some?)
    ensures NodePairs(qTies + qTie, QNodes(specDffs, qNames'), QNodes(implDffs, qNames'), sp2, ip2)
    ensures NodePairs(dPairs + dPair, DNodes(specDffs, dNames'), DNodes(implDffs, dNames'), sp2, ip2)
  {
    var si, ii := specDffs[name], implDffs[name];
    NodePairsExtend(qTies, QNodes(specDffs, qNames), QNodes(implDffs, qNames), sp1, ip1, sp2, ip2);
    NodePairsExtend(dPairs, DNodes(specDffs, dNames), DNodes(implDffs, dNames), sp1, ip1, sp2, ip2);
    qNames', dNames' := qNames, dNames;
    if si.q.Some? && ii.q.Some? {
      NodePairsSnoc(qTies, QNodes(specDffs, qNames), QNodes(implDffs, qNames), sp2, ip2, si.q.value, ii.q.value);
      DffNodesSnoc(specDffs, qNames, name);
      DffNodesSnoc(implDffs, qNames, name);
      qNames' := qNames + [name];
    } else {
      assert qTies + qTie == qTies;
    }
    if si.d.Some? && ii.d.Some? {
      NodePairsSnoc(dPairs, DNodes(specDffs, dNames), DNodes(implDffs, dNames), sp2, ip2, si.d.value, ii.d.value);
      DffNodesSnoc(specDffs, dNames, name);
      DffNodesSnoc(implDffs, dNames, name);
      dNames' := dNames + [name];
    } else {
      assert dPairs + dPair == dPairs;
    }
  }

  /** The flip-flop loop: flip-flops are matched by instance name; a
      matched pair whose Q nodes both exist gets its Q variables tied, and
      one whose D nodes both exist contributes a compare pair. */
  method MatchDffs(s: Solver, specDffs: map<string, DffInfo>, implDffs: map<string, DffInfo>,
                   sp: map<string, Var>, ip: map<string, Var>)
    returns (sp': map<string, Var>, ip': map<string, Var>, qTies: seq<Pair>, dPairs: seq<Pair>,
             ghost qNames: seq<string>, ghost dNames: seq<string>)
    requires s.Valid() && PoolValid(sp, s.numVars) && PoolValid(ip, s.numVars)
    modifies s
    ensures s.Valid() && PoolValid(sp', s.numVars) && PoolValid(ip', s.numVars)
    ensures Extends(sp', sp) && Extends(ip', ip)
    ensures Distinct(qNames) && forall n :: n in qNames <==>
      (n in specDffs && n in implDffs && specDffs[n].q.Some? && implDffs[n].q.Some?)
    ensures Distinct(dNames) && forall n :: n in dNames <==>
      (n in specDffs && n in implDffs && specDffs[n].d.Some? && implDffs[n].d.Some?)
    ensures NodePairs(qTies, QNodes(specDffs, qNames), QNodes(implDffs, qNames), sp', ip')
    ensures NodePairs(dPairs, DNodes(specDffs, dNames), DNodes(implDffs, dNames), sp', ip')
    ensures forall a: Assignment :: Stage(a, s.clauses, old(s.clauses), sp', sp, ip', ip, qTies)
  {
    sp', ip', qTies, dPairs, qNames, dNames := sp, ip, [], [], [], [];
    var todo := specDffs.Keys;
    while todo != {}
      invariant todo <= specDffs.Keys
      invariant s.Valid() && PoolValid(sp', s.numVars) && PoolValid(ip', s.numVars)
      invariant Extends(sp', sp) && Extends(ip', ip)
      invariant Distinct(qNames) && forall n :: n in qNames <==>
        (n in specDffs && n !in todo && n in implDffs && specDffs[n].q.Some? && implDffs[n].q.Some?)
      invariant Distinct(dNames) && forall n :: n in dNames <==>
        (n in specDffs && n !in todo && n in implDffs && specDffs[n].d.Some? && implDffs[n].d.Some?)
      invariant NodePairs(qTies, QNodes(specDffs, qNames), QNodes(implDffs, qNames), sp', ip')
      invariant NodePairs(dPairs, DNodes(specDffs, dNames), DNodes(implDffs, dNames), sp', ip')
      invariant forall a: Assignment :: Stage(a, s.clauses, old(s.clauses), sp', sp, ip', ip, qTies)
      decreases todo
    {
      var name :| name in todo;
      todo := todo - {name};
      if name !in implDffs {
        continue;
      }
      var specInfo, implInfo := specDffs[name], implDffs[name];
      ghost var sp1, ip1, c1 := sp', ip', s.clauses;
      var qTie, dPair;
      sp', ip', qTie, dPair := MatchDff(s, specInfo, implInfo, sp', ip');
      StageCompose(old(s.clauses), c1, s.clauses, sp, sp1, sp', ip, ip1, ip', qTies, qTie);
      qNames, dNames := DffNamesNext(specDffs, implDffs, todo, name, qNames, dNames, qTies, dPairs,
                                     sp1, ip1, sp', ip', qTie, dPair);
      qTies := qTies + qTie;
      dPairs := dPairs + dPair;
    }
  }

  // ---------------------------------------------------------------------
  // The XOR miter
  // ---------------------------------------------------------------------

  /** The variables base, base+1, ..., base+k-1. */
  function Range(base: nat, k: nat): (r: seq<Var>)
    ensures |r| == k && forall i :: 0 <= i < k ==> r[i] == base + i
  {
    seq(k, i requires 0 <= i < k => base + i)
  }

  /** The difference clauses of the miter: pair i gets variable base+i and
      the four clauses of z <-> (x XOR y). */
  function XorBlock(pairs: seq<Pair>, base: nat): (r: seq<Clause>)
    ensures |r| == 4 * |pairs|
  {
    if pairs == [] then []
    else
      var k := |pairs| - 1;
      XorBlock(pairs[..k], base) + Tseytin.XorClauses(pairs[k].0, pairs[k].1, base + k)
  }

  /** All miter clauses: the difference clauses, then the miter clause
      over the difference variables when there is at least one pair. */
  function MiterClauses(pairs: seq<Pair>, base: nat): seq<Clause>
  {
    XorBlock(pairs, base) + (if pairs == [] then [] else [Lits(Range(base, |pairs|), true)])
  }

  /** The difference variable of every pair is true exactly when the pair's
      two variables differ. */
  ghost predicate Differences(a: Assignment, pairs: seq<Pair>, base: nat)
  {
    forall i :: 0 <= i < |pairs| ==> a(base + i) == (a(pairs[i].0) != a(pairs[i].1))
  }

  lemma {:induction false} XorBlockExact(a: Assignment, pairs: seq<Pair>, base: nat)
    ensures Sat(a, XorBlock(pairs, base)) <==> Differences(a, pairs, base)
  {
    if pairs != [] {
      var k := |pairs| - 1;
      XorBlockExact(a, pairs[..k], base);
      SatAppend(a, XorBlock(pairs[..k], base), Tseytin.XorClauses(pairs[k].0, pairs[k].1, base + k));
      Tseytin.XorExact(a, pairs[k].0, pairs[k].1, base + k);
      assert forall i :: 0 <= i < k ==> pairs[..k][i] == pairs[i];
    }
  }

  /** The miter clauses hold exactly when every difference variable is
      right and, if there is a pair at all, one of them is true. */
  lemma MiterExact(a: Assignment, pairs: seq<Pair>, base: nat)
    ensures Sat(a, MiterClauses(pairs, base)) <==>
      (Differences(a, pairs, base) && (pairs != [] ==> AnyTrue(a, Range(base, |pairs|))))
  {
    XorBlockExact(a, pairs, base);
    var tail := if pairs == [] then [] else [Lits(Range(base, |pairs|), true)];
    SatAppend(a, XorBlock(pairs, base), tail);
    if pairs != [] {
      var zs := Range(base, |pairs|);
      var c := Lits(zs, true);
      assert tail[0] == c;
      if AnyTrue(a, zs) {
        var i :| 0 <= i < |zs| && a(zs[i]);
        assert c[i] in c && LitTrue(a, c[i]);
      }
      if Sat(a, tail) {
        assert c in tail;
        var l :| l in c && LitTrue(a, l);
        var i :| 0 <= i < |c| && c[i] == l;
        assert a(zs[i]);
      }
    }
  }

  lemma XorBlockSnoc(pairs: seq<Pair>, k: nat, base: nat)
    requires k < |pairs|
    ensures XorBlock(pairs[..k + 1], base)
         == XorBlock(pairs[..k], base) + Tseytin.XorClauses(pairs[k].0, pairs[k].1, base + k)
  {
    assert pairs[..k + 1][..k] == pairs[..k];
  }

  lemma MismatchSnoc(base: nat, k: nat)
    ensures Lits(Range(base, k + 1), true) == Lits(Range(base, k), true) + [Pos(base + k)]
  {
  }

  /** One iteration of the miter loop: a fresh variable z and the four
      clauses of z <-> (a XOR b). */
  method AddDifference(s: Solver, a: Var, b: Var) returns (z: Var)
    requires s.Valid() && a < s.numVars && b < s.numVars
    modifies s
    ensures s.Valid() && z == old(s.numVars) && s.numVars == old(s.numVars) + 1
    ensures s.clauses == old(s.clauses) + Tseytin.XorClauses(a, b, z)
  {
    z := s.NewVar();
    s.AddClause([Neg(a), Neg(b), Neg(z)]);
    s.AddClause([Pos(a), Pos(b), Neg(z)]);
    s.AddClause([Pos(a), Neg(b), Pos(z)]);
    s.AddClause([Neg(a), Pos(b), Pos(z)]);
  }

  /** The miter loop and the miter clause: a fresh difference variable and
      four XOR clauses per compare pair, in order, then the disjunction of
      the difference variables if there is any. */
  method BuildMiter(s: Solver, pairs: seq<Pair>) returns (mismatch: seq<Lit>)
    requires s.Valid() && forall i :: 0 <= i < |pairs| ==> pairs[i].0 < s.numVars && pairs[i].1 < s.numVars
    modifies s
    ensures s.Valid() && s.numVars == old(s.numVars) + |pairs|
    ensures mismatch == Lits(Range(old(s.numVars), |pairs|), true)
    ensures s.clauses == old(s.clauses) + MiterClauses(pairs, old(s.numVars))
  {
    var base := s.numVars;
    mismatch := [];
    for idx := 0 to |pairs|
      invariant s.Valid() && s.numVars == base + idx
      invariant s.clauses == old(s.clauses) + XorBlock(pairs[..idx], base)
      invariant mismatch == Lits(Range(base, idx), true)
    {
      var z := AddDifference(s, pairs[idx].0, pairs[idx].1);
      XorBlockSnoc(pairs, idx, base);
      MismatchSnoc(base, idx);
      mismatch := mismatch + [Pos(z)];
    }
    assert pairs[..|pairs|] == pairs;
    if mismatch != [] {
      s.AddClause(mismatch);
    }
  }

  /** Two assignments that agree below n satisfy the same clauses over
      variables below n. */
  lemma AgreeSat(a: Assignment, b: Assignment, cs: seq<Clause>, n: nat)
    requires Allocated(cs, n) && forall v: Var :: v < n ==> a(v) == b(v)
    ensures Sat(a, cs) <==> Sat(b, cs)
  {
    forall c | c in cs ensures ClauseSat(a, c) <==> ClauseSat(b, c) {
      forall l | l in c ensures LitTrue(a, l) <==> LitTrue(b, l) {
        assert l.v < n;
      }
    }
  }

  /** Every assignment that satisfies the miter makes some compared pair
      differ. */
  lemma MiterSound(a: Assignment, pairs: seq<Pair>, base: nat)
    requires pairs != [] && Sat(a, MiterClauses(pairs, base))
    ensures exists i :: 0 <= i < |pairs| && a(pairs[i].0) != a(pairs[i].1)
  {
    MiterExact(a, pairs, base);
    var zs := Range(base, |pairs|);
    var i :| 0 <= i < |zs| && a(zs[i]);
    assert a(pairs[i].0) != a(pairs[i].1);
  }

  /** The assignment a with every difference variable set to whether its
      pair differs under a. */
  function WithDifferences(a: Assignment, pairs: seq<Pair>, base: nat): (b: Assignment)
    ensures forall v: Var :: v < base ==> b(v) == a(v)
  {
    (v: Var) => if base <= v < base + |pairs| then a(pairs[v - base].0) != a(pairs[v - base].1) else a(v)
  }

  /** Conversely, when the pairs' variables lie below base and some pair
      differs (or there is no pair), setting the difference variables
      satisfies the miter without changing any variable below base. */
  lemma MiterComplete(a: Assignment, pairs: seq<Pair>, base: nat)
    requires forall i :: 0 <= i < |pairs| ==> pairs[i].0 < base && pairs[i].1 < base
    requires pairs == [] || exists i :: 0 <= i < |pairs| && a(pairs[i].0) != a(pairs[i].1)
    ensures Sat(WithDifferences(a, pairs, base), MiterClauses(pairs, base))
  {
    var b := WithDifferences(a, pairs, base);
    assert Differences(b, pairs, base);
    if pairs != [] {
      var i :| 0 <= i < |pairs| && a(pairs[i].0) != a(pairs[i].1);
      assert b(Range(base, |pairs|)[i]);
    }
    MiterExact(b, pairs, base);
  }

  /** The miter query: the clauses plus the miter are satisfiable exactly
      when some assignment satisfies the clauses and makes some compared
      pair differ. With no compare pair there is no miter clause, and the
      query is satisfiable whenever the circuit clauses are. */
  lemma MiterQuery(cs: seq<Clause>, pairs: seq<Pair>, base: nat)
    requires Allocated(cs, base)
    requires forall i :: 0 <= i < |pairs| ==> pairs[i].0 < base && pairs[i].1 < base
    ensures (exists a: Assignment :: Sat(a, cs + MiterClauses(pairs, base))) <==>
      (exists a: Assignment :: Sat(a, cs) && (pairs == [] || exists i :: 0 <= i < |pairs| && a(pairs[i].0) != a(pairs[i].1)))
  {
    if a: Assignment :| Sat(a, cs + MiterClauses(pairs, base)) {
      SatAppend(a, cs, MiterClauses(pairs, base));
      if pairs != [] {
        MiterSound(a, pairs, base);
      }
    }
    if a: Assignment :| Sat(a, cs) && (pairs == [] || exists i :: 0 <= i < |pairs| && a(pairs[i].0) != a(pairs[i].1)) {
      var b := WithDifferences(a, pairs, base);
      AgreeSat(a, b, cs, base);
      MiterComplete(a, pairs, base);
      SatAppend(b, cs, MiterClauses(pairs, base));
    }
  }

  // ---------------------------------------------------------------------
  // The whole query
  // ---------------------------------------------------------------------

  /** The constraints one encoded circuit puts on an assignment: its power
      nodes are constant and every encoded gate computes its function. */
  ghost predicate Encoded(a: Assignment, pool: map<string, Var>, cell: Cell)
    requires CellNodesIn(cell, pool)
  {
    PowerHolds(a, pool, map[]) && CellHolds(a, pool, cell)
  }

  lemma NodePairsAppend(p1: seq<Pair>, l1: seq<string>, r1: seq<string>, p2: seq<Pair>, l2: seq<string>, r2: seq<string>,
                        sp: map<string, Var>, ip: map<string, Var>)
    requires NodePairs(p1, l1, r1, sp, ip) && NodePairs(p2, l2, r2, sp, ip)
    ensures NodePairs(p1 + p2, l1 + l2, r1 + r2, sp, ip)
  {
    var ps, ls, rs := p1 + p2, l1 + l2, r1 + r2;
    forall i | 0 <= i < |ps| ensures ls[i] in sp && rs[i] in ip && ps[i] == (sp[ls[i]], ip[rs[i]]) {
      if i >= |p1| {
        assert ps[i] == p2[i - |p1|] && ls[i] == l2[i - |p1|] && rs[i] == r2[i - |p1|];
      }
    }
  }

  /** The meaning of the clauses before the miter: both encoded circuits
      and all ties. */
  lemma QueryMeaning(c2: seq<Clause>, c5: seq<Clause>, spec: Cell, impl: Cell,
                     sp1: map<string, Var>, sp4: map<string, Var>, ip1: map<string, Var>, ip4: map<string, Var>,
                     ties: seq<Pair>)
    requires Extends(sp4, sp1) && Extends(ip4, ip1) && CellNodesIn(spec, sp1) && CellNodesIn(impl, ip1)
    requires forall a: Assignment :: Sat(a, c2) <==> (Encoded(a, sp1, spec) && Encoded(a, ip1, impl))
    requires forall a: Assignment :: Stage(a, c5, c2, sp4, sp1, ip4, ip1, ties)
    ensures CellNodesIn(spec, sp4) && CellNodesIn(impl, ip4)
    ensures forall a: Assignment :: Sat(a, c5) <==> (Encoded(a, sp4, spec) && Encoded(a, ip4, impl) && TiesHold(a, ties))
  {
    forall a: Assignment ensures CellNodesIn(spec, sp4) && CellNodesIn(impl, ip4)
      && (Sat(a, c5) <==> (Encoded(a, sp4, spec) && Encoded(a, ip4, impl) && TiesHold(a, ties)))
    {
      assert Stage(a, c5, c2, sp4, sp1, ip4, ip1, ties);
      PowerChain(a, map[], sp1, sp4);
      PowerChain(a, map[], ip1, ip4);
      CellHoldsExtend(a, sp1, sp4, spec);
      CellHoldsExtend(a, ip1, ip4, impl);
    }
  }

  /** The first half of the main routine: a new solver holding the
      specification's clauses and then the implementation's, each circuit
      with its own node pool. */
  method EncodeBoth(spec: Cell, impl: Cell)
    returns (s: Solver, sp: map<string, Var>, ip: map<string, Var>,
             specDffs: map<string, DffInfo>, implDffs: map<string, DffInfo>)
    ensures fresh(s) && s.Valid() && PoolValid(sp, s.numVars) && PoolValid(ip, s.numVars)
    ensures CellNodesIn(spec, sp) && CellNodesIn(impl, ip)
    ensures specDffs == DffTable(spec) && implDffs == DffTable(impl)
    ensures forall a: Assignment :: Sat(a, s.clauses) <==> (Encoded(a, sp, spec) && Encoded(a, ip, impl))
  {
    s := new Solver();
    sp, specDffs := EncodeCell(s, spec, map[]);
    ghost var c1 := s.clauses;
    ghost var n1 := s.numVars;
    ip, implDffs := EncodeCell(s, impl, map[]);
    assert PoolValid(sp, s.numVars) by {
      assert forall k :: k in sp ==> sp[k] < n1 <= s.numVars;
    }
  }

  /** The second half of the main routine before the miter: primary inputs
      tied by name, primary outputs paired by name, and the flip-flops
      matched by instance name. */
  method MatchAll(s: Solver, spec: Cell, impl: Cell, specDffs: map<string, DffInfo>, implDffs: map<string, DffInfo>,
                  sp: map<string, Var>, ip: map<string, Var>)
    returns (sp': map<string, Var>, ip': map<string, Var>, ties: seq<Pair>, pairs: seq<Pair>,
             ghost piNames: seq<string>, ghost poNames: seq<string>, ghost qNames: seq<string>, ghost dNames: seq<string>)
    requires s.Valid() && PoolValid(sp, s.numVars) && PoolValid(ip, s.numVars)
    modifies s
    ensures s.Valid() && Extends(sp', sp) && Extends(ip', ip)
    ensures Distinct(piNames) && forall n :: n in piNames <==> n in PrimaryInputs(spec) && n in PrimaryInputs(impl)
    ensures Distinct(poNames) && forall n :: n in poNames <==> n in PrimaryOutputs(spec) && n in PrimaryOutputs(impl)
    ensures Distinct(qNames) && forall n :: n in qNames <==>
      (n in specDffs && n in implDffs && specDffs[n].q.Some? && implDffs[n].q.Some?)
    ensures Distinct(dNames) && forall n :: n in dNames <==>
      (n in specDffs && n in implDffs && specDffs[n].d.Some? && implDffs[n].d.Some?)
    ensures NodePairs(ties, piNames + QNodes(specDffs, qNames), piNames + QNodes(implDffs, qNames), sp', ip')
    ensures NodePairs(pairs, poNames + DNodes(specDffs, dNames), poNames + DNodes(implDffs, dNames), sp', ip')
    ensures forall a: Assignment :: Stage(a, s.clauses, old(s.clauses), sp', sp, ip', ip, ties)
    ensures forall i :: 0 <= i < |pairs| ==> pairs[i].0 < s.numVars && pairs[i].1 < s.numVars
  {
    var specPIs, specPOs := CollectPorts(spec);
    var implPIs, implPOs := CollectPorts(impl);
    var piTies, poPairs, qTies, dPairs;
    ghost var c3, c4, sp2, ip2, sp3, ip3;
    sp', ip', piTies, piNames := TieInputs(s, specPIs, implPIs, sp, ip);
    c3, sp2, ip2 := s.clauses, sp', ip';
    sp', ip', poPairs, poNames := CompareOutputs(s, specPOs, implPOs, sp', ip');
    c4, sp3, ip3 := s.clauses, sp', ip';
    StageCompose(old(s.clauses), c3, c4, sp, sp2, sp3, ip, ip2, ip3, piTies, []);
    sp', ip', qTies, dPairs, qNames, dNames := MatchDffs(s, specDffs, implDffs, sp', ip');
    StageCompose(old(s.clauses), c4, s.clauses, sp, sp3, sp', ip, ip3, ip', piTies + [], qTies);
    assert piTies + [] == piTies;
    ties := piTies + qTies;
    pairs := poPairs + dPairs;
    NodePairsExtend(piTies, piNames, piNames, sp2, ip2, sp', ip');
    NodePairsExtend(poPairs, poNames, poNames, sp3, ip3, sp', ip');
    NodePairsAppend(piTies, piNames, piNames, qTies, QNodes(specDffs, qNames), QNodes(implDffs, qNames), sp', ip');
    NodePairsAppend(poPairs, poNames, poNames, dPairs, DNodes(specDffs, dNames), DNodes(implDffs, dNames), sp', ip');
    assert forall i :: 0 <= i < |pairs| ==> pairs[i].0 < s.numVars && pairs[i].1 < s.numVars;
  }

  /** The two circuits of the main routine, encoded into one solver with
      the inputs and flip-flop outputs tied, before the miter: its clauses
      hold exactly when both circuits' constraints and all ties do. */
  method BuildCircuit(spec: Cell, impl: Cell)
    returns (s: Solver, ghost sp: map<string, Var>, ghost ip: map<string, Var>, ties: seq<Pair>, pairs: seq<Pair>,
             ghost piNames: seq<string>, ghost poNames: seq<string>, ghost qNames: seq<string>, ghost dNames: seq<string>)
    ensures fresh(s) && s.Valid() && CellNodesIn(spec, sp) && CellNodesIn(impl, ip)
    ensures Distinct(piNames) && forall n :: n in piNames <==> n in PrimaryInputs(spec) && n in PrimaryInputs(impl)
    ensures Distinct(poNames) && forall n :: n in poNames <==> n in PrimaryOutputs(spec) && n in PrimaryOutputs(impl)
    ensures Distinct(qNames) && forall n :: n in qNames <==>
      (n in DffTable(spec) && n in DffTable(impl) && DffTable(spec)[n].q.Some? && DffTable(impl)[n].q.Some?)
    ensures Distinct(dNames) && forall n :: n in dNames <==>
      (n in DffTable(spec) && n in DffTable(impl) && DffTable(spec)[n].d.Some? && DffTable(impl)[n].d.Some?)
    ensures NodePairs(ties, piNames + QNodes(DffTable(spec), qNames), piNames + QNodes(DffTable(impl), qNames), sp, ip)
    ensures NodePairs(pairs, poNames + DNodes(DffTable(spec), dNames), poNames + DNodes(DffTable(impl), dNames), sp, ip)
    ensures forall a: Assignment :: Sat(a, s.clauses) <==> (Encoded(a, sp, spec) && Encoded(a, ip, impl) && TiesHold(a, ties))
    ensures forall i :: 0 <= i < |pairs| ==> pairs[i].0 < s.numVars && pairs[i].1 < s.numVars
  {
    var sp1, ip1, specDffs, implDffs;
    s, sp1, ip1, specDffs, implDffs := EncodeBoth(spec, impl);
    ghost var c2 := s.clauses;
    sp, ip, ties, pairs, piNames, poNames, qNames, dNames := MatchAll(s, spec, impl, specDffs, implDffs, sp1, ip1);
    QueryMeaning(c2, s.clauses, spec, impl, sp1, sp, ip1, ip, ties);
  }

  /** The query of the submitted checker for a specification and an
      implementation cell, up to the solver call: the flip-flops matched by
      name and the primary inputs and outputs matched by node name, as the
      main routine builds them, then the miter. The query is satisfiable
      exactly when some assignment meets both encoded circuits and all
      ties and makes a compared pair differ (or there is no compared pair
      at all). */
  method BuildQuery(spec: Cell, impl: Cell)
    returns (s: Solver, ghost sp: map<string, Var>, ghost ip: map<string, Var>, ties: seq<Pair>, pairs: seq<Pair>,
             ghost piNames: seq<string>, ghost poNames: seq<string>, ghost qNames: seq<string>, ghost dNames: seq<string>)
    ensures fresh(s) && s.Valid() && CellNodesIn(spec, sp) && CellNodesIn(impl, ip)
    ensures Distinct(piNames) && forall n :: n in piNames <==> n in PrimaryInputs(spec) && n in PrimaryInputs(impl)
    ensures Distinct(poNames) && forall n :: n in poNames <==> n in PrimaryOutputs(spec) && n in PrimaryOutputs(impl)
    ensures Distinct(qNames) && forall n :: n in qNames <==>
      (n in DffTable(spec) && n in DffTable(impl) && DffTable(spec)[n].q.Some? && DffTable(impl)[n].q.Some?)
    ensures Distinct(dNames) && forall n :: n in dNames <==>
      (n in DffTable(spec) && n in DffTable(impl) && DffTable(spec)[n].d.Some? && DffTable(impl)[n].d.Some?)
    ensures NodePairs(ties, piNames + QNodes(DffTable(spec), qNames), piNames + QNodes(DffTable(impl), qNames), sp, ip)
    ensures NodePairs(pairs, poNames + DNodes(DffTable(spec), dNames), poNames + DNodes(DffTable(impl), dNames), sp, ip)
    ensures (exists a: Assignment :: Sat(a, s.clauses)) <==>
      (exists a: Assignment :: Encoded(a, sp, spec) && Encoded(a, ip, impl) && TiesHold(a, ties)
         && (pairs == [] || exists i :: 0 <= i < |pairs| && a(pairs[i].0) != a(pairs[i].1)))
  {
    s, sp, ip, ties, pairs, piNames, poNames, qNames, dNames := BuildCircuit(spec, impl);
    ghost var circuit := s.clauses;
    ghost var base := s.numVars;
    var mismatch := BuildMiter(s, pairs);
    MiterQuery(circuit, pairs, base);
  }
}
