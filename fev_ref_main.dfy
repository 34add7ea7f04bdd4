/** The query the reference checker's main function builds
    (HCM/wet02/utilities/poli_reference.cc): shared variables for the
    primary inputs and the matched flip-flop outputs, both circuits
    encoded into one pool under the prefixes "SPEC_" and "IMPL_", one XOR
    per compared signal, and the clause that some XOR is true. */
module FevRefMain {
  import opened Netlist
  import opened Cnf
  import Fev
  import FevMatch
  import Tseytin
  import opened FevRef

  const SpecPrefix: string := "SPEC_"
  const ImplPrefix: string := "IMPL_"

  /** The two prefixes never produce the same key, and each keeps distinct
      names apart. */
  lemma PrefixKeys(x: string, y: string)
    ensures SpecPrefix + x != ImplPrefix + y
    ensures SpecPrefix + x == SpecPrefix + y ==> x == y
    ensures ImplPrefix + x == ImplPrefix + y ==> x == y
  {
    assert (SpecPrefix + x)[0] == 'S' && (ImplPrefix + y)[0] == 'I';
    if SpecPrefix + x == SpecPrefix + y {
      assert x == (SpecPrefix + x)[5..] && y == (SpecPrefix + y)[5..];
    }
    if ImplPrefix + x == ImplPrefix + y {
      assert x == (ImplPrefix + x)[5..] && y == (ImplPrefix + y)[5..];
    }
  }

  // ---------------------------------------------------------------------
  // Step 2: one shared variable per primary input of the spec
  // ---------------------------------------------------------------------

  /** One iteration of the primary-input loop adds only the two names of
      the current input. */
  lemma SharePIKeys(pis: seq<string>, j: nat, v: Var, pool1: map<string, Var>, pool2: map<string, Var>)
    requires j < |pis| && Below(pool1, v)
    requires forall k :: k in pool1 ==> exists i :: 0 <= i < j && (k == SpecPrefix + pis[i] || k == ImplPrefix + pis[i])
    requires pool2 == pool1[SpecPrefix + pis[j] := v][ImplPrefix + pis[j] := v]
    ensures Below(pool2, v + 1)
    ensures forall k :: k in pool2 ==> exists i :: 0 <= i < j + 1 && (k == SpecPrefix + pis[i] || k == ImplPrefix + pis[i])
  {
  }

  /** One iteration of the primary-input loop files the new variable under
      both names of the current input and keeps the earlier inputs'
      entries. */
  lemma SharePIShared(pis: seq<string>, j: nat, base: nat, v: Var,
                      pool1: map<string, Var>, shared1: map<string, Var>,
                      pool2: map<string, Var>, shared2: map<string, Var>)
    requires j < |pis| && v == base + j
    requires forall p :: p in shared1 <==> p in pis[..j]
    requires forall i :: 0 <= i < j ==>
      SpecPrefix + pis[i] in pool1 && ImplPrefix + pis[i] in pool1
      && pool1[SpecPrefix + pis[i]] == shared1[pis[i]] && pool1[ImplPrefix + pis[i]] == shared1[pis[i]]
      && base <= shared1[pis[i]]
    requires Distinct(pis) ==> forall i :: 0 <= i < j ==> shared1[pis[i]] == base + i
    requires shared2 == shared1[pis[j] := v]
    requires pool2 == pool1[SpecPrefix + pis[j] := v][ImplPrefix + pis[j] := v]
    ensures forall p :: p in shared2 <==> p in pis[..j + 1]
    ensures forall i :: 0 <= i < j + 1 ==>
      SpecPrefix + pis[i] in pool2 && ImplPrefix + pis[i] in pool2
      && pool2[SpecPrefix + pis[i]] == shared2[pis[i]] && pool2[ImplPrefix + pis[i]] == shared2[pis[i]]
      && base <= shared2[pis[i]]
    ensures Distinct(pis) ==> forall i :: 0 <= i < j + 1 ==> shared2[pis[i]] == base + i
  {
    var pi := pis[j];
    assert pis[..j + 1] == pis[..j] + [pi];
    forall i | 0 <= i < j
      ensures SpecPrefix + pis[i] in pool2 && ImplPrefix + pis[i] in pool2
      ensures pool2[SpecPrefix + pis[i]] == shared2[pis[i]] && pool2[ImplPrefix + pis[i]] == shared2[pis[i]]
    {
      PrefixKeys(pis[i], pi);
      PrefixKeys(pi, pis[i]);
    }
  }

  /** The loop over the spec's primary inputs: one new variable each, filed
      under both the spec and the impl name of the input and in the table
      of shared inputs. No clause is added. */
  method SharePIs(s: Solver, pis: seq<string>) returns (pool: map<string, Var>, shared: map<string, Var>)
    requires s.Valid()
    modifies s
    ensures s.Valid() && s.clauses == old(s.clauses) && s.numVars == old(s.numVars) + |pis|
    ensures Below(pool, s.numVars)
    ensures forall k :: k in pool ==> exists i :: 0 <= i < |pis| && (k == SpecPrefix + pis[i] || k == ImplPrefix + pis[i])
    ensures forall p :: p in shared <==> p in pis
    ensures forall i :: 0 <= i < |pis| ==>
      SpecPrefix + pis[i] in pool && ImplPrefix + pis[i] in pool
      && pool[SpecPrefix + pis[i]] == shared[pis[i]] && pool[ImplPrefix + pis[i]] == shared[pis[i]]
      && old(s.numVars) <= shared[pis[i]]
    ensures Distinct(pis) ==> forall i :: 0 <= i < |pis| ==> shared[pis[i]] == old(s.numVars) + i
  {
    pool, shared := map[], map[];
    for j := 0 to |pis|
      invariant s.Valid() && s.clauses == old(s.clauses) && s.numVars == old(s.numVars) + j
      invariant Below(pool, s.numVars)
      invariant forall k :: k in pool ==> exists i :: 0 <= i < j && (k == SpecPrefix + pis[i] || k == ImplPrefix + pis[i])
      invariant forall p :: p in shared <==> p in pis[..j]
      invariant forall i :: 0 <= i < j ==>
        SpecPrefix + pis[i] in pool && ImplPrefix + pis[i] in pool
        && pool[SpecPrefix + pis[i]] == shared[pis[i]] && pool[ImplPrefix + pis[i]] == shared[pis[i]]
        && old(s.numVars) <= shared[pis[i]]
      invariant Distinct(pis) ==> forall i :: 0 <= i < j ==> shared[pis[i]] == old(s.numVars) + i
    {
      var pi := pis[j];
      var v := s.NewVar();
      ghost var pool1, shared1 := pool, shared;
      shared := shared[pi := v];
      pool := pool[SpecPrefix + pi := v][ImplPrefix + pi := v];
      SharePIKeys(pis, j, v, pool1, pool);
      SharePIShared(pis, j, old(s.numVars), v, pool1, shared1, pool, shared);
    }
    assert pis[..|pis|] == pis;
  }

  // ---------------------------------------------------------------------
  // Step 3: flip-flops matched by instance name
  // ---------------------------------------------------------------------

  /** The flip-flop table of getDFFs: instance name to (D node, Q node). */
  type DffPins = map<string, (string, string)>

  /** Flip-flop n is in both circuits and both its Q nodes are known: its
      outputs get one shared variable. */
  ghost predicate QShared(sd: DffPins, id: DffPins, n: string)
  {
    n in sd && n in id && sd[n].1 != "" && id[n].1 != ""
  }

  /** Flip-flop n is in both circuits and both its D nodes are known: its
      inputs are compared. */
  ghost predicate DCompared(sd: DffPins, id: DffPins, n: string)
  {
    n in sd && n in id && sd[n].0 != "" && id[n].0 != ""
  }

  /** k is a pool key that the Q sharing of the flip-flops in done writes. */
  ghost predicate QKey(sd: DffPins, id: DffPins, done: set<string>, k: string)
  {
    exists n :: n in done && QShared(sd, id, n) && (k == SpecPrefix + sd[n].1 || k == ImplPrefix + id[n].1)
  }

  /** No other shared flip-flop has the same spec Q node or the same impl Q
      node as n. */
  ghost predicate QUnique(sd: DffPins, id: DffPins, n: string)
  {
    && n in sd && n in id
    && forall m :: QShared(sd, id, m) && m != n ==> sd[m].1 != sd[n].1 && id[m].1 != id[n].1
  }

  /** The pool after the Q sharing of the flip-flops in done, started from
      pool with variables from base on. */
  ghost predicate QState(sd: DffPins, id: DffPins, done: set<string>, pool: map<string, Var>, base: nat, pool1: map<string, Var>)
  {
    && (forall k :: k in pool1 <==> k in pool || QKey(sd, id, done, k))
    && (forall k :: k in pool && !QKey(sd, id, done, k) ==> pool1[k] == pool[k])
    && (forall k :: k in pool1 && QKey(sd, id, done, k) ==> base <= pool1[k])
    && (forall n :: n in done && QShared(sd, id, n) ==> SpecPrefix + sd[n].1 in pool1 && ImplPrefix + id[n].1 in pool1)
    && (forall n :: n in done && QShared(sd, id, n) && QUnique(sd, id, n) ==>
          pool1[SpecPrefix + sd[n].1] == pool1[ImplPrefix + id[n].1])
  }

  /** The compared D names after the flip-flops in done. */
  ghost predicate DState(sd: DffPins, id: DffPins, done: set<string>, dPairs: seq<(string, string)>, dNames: seq<string>)
  {
    && Distinct(dNames) && (forall n :: n in dNames <==> n in done && DCompared(sd, id, n))
    && |dPairs| == |dNames|
    && forall i :: 0 <= i < |dNames| ==>
         (dNames[i] in sd && dNames[i] in id && dPairs[i] == (SpecPrefix + sd[dNames[i]].0, ImplPrefix + id[dNames[i]].0))
  }

  lemma QStateNext(sd: DffPins, id: DffPins, done: set<string>, name: string, base: nat,
                   pool: map<string, Var>, pool1: map<string, Var>, pool2: map<string, Var>, q: Var)
    requires name in sd && name !in done && base <= q
    requires QState(sd, id, done, pool, base, pool1)
    requires pool2 == if QShared(sd, id, name) then pool1[SpecPrefix + sd[name].1 := q][ImplPrefix + id[name].1 := q] else pool1
    ensures QState(sd, id, done + {name}, pool, base, pool2)
  {
    QKeysNext(sd, id, done, name, base, pool, pool1, pool2, q);
    QSharedNext(sd, id, done, name, pool1, pool2, q);
  }

  lemma DStateNext(sd: DffPins, id: DffPins, done: set<string>, name: string,
                   dPairs: seq<(string, string)>, dNames: seq<string>, dPairs2: seq<(string, string)>, dNames2: seq<string>)
    requires name in sd && name !in done
    requires DState(sd, id, done, dPairs, dNames)
    requires DCompared(sd, id, name) ==>
      dPairs2 == dPairs + [(SpecPrefix + sd[name].0, ImplPrefix + id[name].0)] && dNames2 == dNames + [name]
    requires !DCompared(sd, id, name) ==> dPairs2 == dPairs && dNames2 == dNames
    ensures DState(sd, id, done + {name}, dPairs2, dNames2)
  {
  }

  /** One iteration of the flip-flop loop writes only the Q keys of the
      current flip-flop, with a fresh variable. */
  lemma QKeysNext(sd: DffPins, id: DffPins, done: set<string>, name: string, base: nat,
                  pool: map<string, Var>, pool1: map<string, Var>, pool2: map<string, Var>, q: Var)
    requires name in sd && base <= q
    requires forall k :: k in pool1 <==> k in pool || QKey(sd, id, done, k)
    requires forall k :: k in pool && !QKey(sd, id, done, k) ==> pool1[k] == pool[k]
    requires forall k :: k in pool1 && QKey(sd, id, done, k) ==> base <= pool1[k]
    requires forall n :: n in done && QShared(sd, id, n) ==> SpecPrefix + sd[n].1 in pool1 && ImplPrefix + id[n].1 in pool1
    requires pool2 == if QShared(sd, id, name) then pool1[SpecPrefix + sd[name].1 := q][ImplPrefix + id[name].1 := q] else pool1
    ensures forall k :: k in pool2 <==> k in pool || QKey(sd, id, done + {name}, k)
    ensures forall k :: k in pool && !QKey(sd, id, done + {name}, k) ==> pool2[k] == pool[k]
    ensures forall k :: k in pool2 && QKey(sd, id, done + {name}, k) ==> base <= pool2[k]
    ensures forall n :: n in done + {name} && QShared(sd, id, n) ==> SpecPrefix + sd[n].1 in pool2 && ImplPrefix + id[n].1 in pool2
  {
    QKeyAdd(sd, id, done, name);
    if QShared(sd, id, name) {
      var ks, ki := SpecPrefix + sd[name].1, ImplPrefix + id[name].1;
      assert pool2 == pool1[ks := q][ki := q];
      forall k ensures k in pool2 <==> k in pool || QKey(sd, id, done + {name}, k) {
        assert k in pool2 <==> k in pool1 || k == ks || k == ki;
      }
      forall k | k in pool && !QKey(sd, id, done + {name}, k)
        ensures pool2[k] == pool[k]
      {
        assert k != ks && k != ki && !QKey(sd, id, done, k);
      }
      forall k | k in pool2 && QKey(sd, id, done + {name}, k)
        ensures base <= pool2[k]
      {
        if k != ks && k != ki {
          assert QKey(sd, id, done, k) && pool2[k] == pool1[k];
        }
      }
    } else {
      assert pool2 == pool1;
    }
  }

  /** The Q keys after one more flip-flop are the earlier ones and, when it
      is shared, its two Q names. */
  lemma QKeyAdd(sd: DffPins, id: DffPins, done: set<string>, name: string)
    requires name in sd
    ensures forall k :: QKey(sd, id, done + {name}, k) <==>
      QKey(sd, id, done, k) || (QShared(sd, id, name) && (k == SpecPrefix + sd[name].1 || k == ImplPrefix + id[name].1))
  {
    forall k ensures QKey(sd, id, done + {name}, k) <==>
      QKey(sd, id, done, k) || (QShared(sd, id, name) && (k == SpecPrefix + sd[name].1 || k == ImplPrefix + id[name].1))
    {
      if QKey(sd, id, done + {name}, k) {
        var n :| n in done + {name} && QShared(sd, id, n) && (k == SpecPrefix + sd[n].1 || k == ImplPrefix + id[n].1);
        if n != name {
          assert QKey(sd, id, done, k);
        }
      }
    }
  }

  /** One iteration of the flip-flop loop keeps every earlier flip-flop's
      sharing whose Q nodes no other flip-flop writes, and shares the
      current one. */
  lemma QSharedNext(sd: DffPins, id: DffPins, done: set<string>, name: string,
                    pool1: map<string, Var>, pool2: map<string, Var>, q: Var)
    requires name in sd && name !in done
    requires forall n :: n in done && QShared(sd, id, n) ==> SpecPrefix + sd[n].1 in pool1 && ImplPrefix + id[n].1 in pool1
    requires forall n :: n in done && QShared(sd, id, n) && QUnique(sd, id, n) ==>
      pool1[SpecPrefix + sd[n].1] == pool1[ImplPrefix + id[n].1]
    requires pool2 == if QShared(sd, id, name) then pool1[SpecPrefix + sd[name].1 := q][ImplPrefix + id[name].1 := q] else pool1
    ensures forall n :: n in done + {name} && QShared(sd, id, n) && QUnique(sd, id, n) ==>
      SpecPrefix + sd[n].1 in pool2 && ImplPrefix + id[n].1 in pool2
      && pool2[SpecPrefix + sd[n].1] == pool2[ImplPrefix + id[n].1]
  {
    if QShared(sd, id, name) {
      PrefixKeys(sd[name].1, id[name].1);
      forall n | n in done && QShared(sd, id, n) && QUnique(sd, id, n)
        ensures pool2[SpecPrefix + sd[n].1] == pool1[SpecPrefix + sd[n].1]
        ensures pool2[ImplPrefix + id[n].1] == pool1[ImplPrefix + id[n].1]
      {
        assert sd[name].1 != sd[n].1 && id[name].1 != id[n].1;
        PrefixKeys(sd[n].1, sd[name].1);
        PrefixKeys(id[n].1, id[name].1);
        PrefixKeys(sd[n].1, id[name].1);
        PrefixKeys(sd[name].1, id[n].1);
      }
    }
  }

  /** The Q half of one iteration of the flip-flop loop: a fresh variable
      under both Q names when the flip-flop is matched and both its Q nodes
      are known. */
  method ShareQ(s: Solver, pool: map<string, Var>, sd: DffPins, id: DffPins, name: string)
    returns (pool': map<string, Var>, q: Var)
    requires s.Valid() && Below(pool, s.numVars) && name in sd
    modifies s
    ensures s.Valid() && s.clauses == old(s.clauses) && q == old(s.numVars)
    ensures s.numVars == old(s.numVars) + (if QShared(sd, id, name) then 1 else 0)
    ensures pool' == if QShared(sd, id, name) then pool[SpecPrefix + sd[name].1 := q][ImplPrefix + id[name].1 := q] else pool
    ensures Below(pool', s.numVars)
  {
    q, pool' := s.numVars, pool;
    if name in id {
      var specQ, impQ := sd[name].1, id[name].1;
      if specQ != "" && impQ != "" {
        q := s.NewVar();
        pool' := pool'[SpecPrefix + specQ := q][ImplPrefix + impQ := q];
      }
    }
  }

  /** The loop over the spec's flip-flops: a flip-flop of the same name in
      the impl with both Q nodes known gets one new variable for both Q
      nodes; one with both D nodes known gets its D names compared later.
      No clause is added. A Q node that two flip-flops share, or that is
      also a primary input, keeps the variable written last. */
  method ShareDffs(s: Solver, pool: map<string, Var>, sd: DffPins, id: DffPins)
    returns (pool': map<string, Var>, dPairs: seq<(string, string)>, ghost dNames: seq<string>)
    requires s.Valid() && Below(pool, s.numVars)
    modifies s
    ensures s.Valid() && s.clauses == old(s.clauses) && old(s.numVars) <= s.numVars
    ensures Below(pool', s.numVars)
    ensures forall k :: k in pool' <==> k in pool || QKey(sd, id, sd.Keys, k)
    ensures forall k :: k in pool && !QKey(sd, id, sd.Keys, k) ==> pool'[k] == pool[k]
    ensures forall k :: k in pool' && QKey(sd, id, sd.Keys, k) ==> old(s.numVars) <= pool'[k]
    ensures forall n :: QShared(sd, id, n) ==> SpecPrefix + sd[n].1 in pool' && ImplPrefix + id[n].1 in pool'
    ensures forall n :: QShared(sd, id, n) && QUnique(sd, id, n) ==>
      pool'[SpecPrefix + sd[n].1] == pool'[ImplPrefix + id[n].1]
    ensures Distinct(dNames) && forall n :: n in dNames <==> DCompared(sd, id, n)
    ensures |dPairs| == |dNames|
    ensures forall i :: 0 <= i < |dNames| ==>
      (dNames[i] in sd && dNames[i] in id && dPairs[i] == (SpecPrefix + sd[dNames[i]].0, ImplPrefix + id[dNames[i]].0))
  {
    pool', dPairs, dNames := pool, [], [];
    var todo := sd.Keys;
    ghost var done: set<string> := {};
    while todo != {}
      invariant todo <= sd.Keys && done == sd.Keys - todo
      invariant s.Valid() && s.clauses == old(s.clauses) && old(s.numVars) <= s.numVars
      invariant Below(pool', s.numVars)
      invariant QState(sd, id, done, pool, old(s.numVars), pool')
      invariant DState(sd, id, done, dPairs, dNames)
      decreases todo
    {
      var name :| name in todo;
      pool', dPairs, dNames := ShareOne(s, pool', sd, id, name, dPairs, dNames, done, pool, old(s.numVars));
      todo := todo - {name};
      done := done + {name};
    }
    assert done == sd.Keys;
  }

  /** One iteration of the flip-flop loop: the Q sharing of flip-flop name
      and, when both its D nodes are known, its D names queued for
      comparison. */
  method ShareOne(s: Solver, pool1: map<string, Var>, sd: DffPins, id: DffPins, name: string,
                  dPairs1: seq<(string, string)>, ghost dNames1: seq<string>,
                  ghost done: set<string>, ghost pool: map<string, Var>, ghost base: nat)
    returns (pool': map<string, Var>, dPairs: seq<(string, string)>, ghost dNames: seq<string>)
    requires s.Valid() && Below(pool1, s.numVars) && base <= s.numVars && name in sd && name !in done
    requires QState(sd, id, done, pool, base, pool1) && DState(sd, id, done, dPairs1, dNames1)
    modifies s
    ensures s.Valid() && s.clauses == old(s.clauses) && old(s.numVars) <= s.numVars
    ensures Below(pool', s.numVars)
    ensures QState(sd, id, done + {name}, pool, base, pool') && DState(sd, id, done + {name}, dPairs, dNames)
  {
    var q;
    pool', q := ShareQ(s, pool1, sd, id, name);
    dPairs, dNames := dPairs1, dNames1;
    if name in id && sd[name].0 != "" && id[name].0 != "" {
      dPairs := dPairs + [(SpecPrefix + sd[name].0, ImplPrefix + id[name].0)];
      dNames := dNames + [name];
    }
    QStateNext(sd, id, done, name, base, pool, pool1, pool', q);
    DStateNext(sd, id, done, name, dPairs1, dNames1, dPairs, dNames);
  }

  // ---------------------------------------------------------------------
  // Step 5: the miter
  // ---------------------------------------------------------------------

  /** Every name of ns has a variable. */
  ghost predicate NamesIn(pool: map<string, Var>, ns: seq<string>)
  {
    forall i :: 0 <= i < |ns| ==> ns[i] in pool
  }

  /** The compare loops so far: one difference variable per compared pair of
      names, all distinct, all created from base on, none of them the
      variable of a pool name. */
  ghost predicate Compared(pool: map<string, Var>, n: nat, base: nat, zs: seq<Var>, ls: seq<string>, rs: seq<string>)
  {
    && |zs| == |ls| && |rs| == |ls| && Below(pool, n) && NamesIn(pool, ls) && NamesIn(pool, rs)
    && (forall i :: 0 <= i < |zs| ==> base <= zs[i] < n)
    && Distinct(zs)
    && (forall k :: k in pool ==> pool[k] !in zs)
  }

  /** Each difference variable is the XOR of its pair of named signals. */
  ghost predicate XorsHold(a: Assignment, pool: map<string, Var>, zs: seq<Var>, ls: seq<string>, rs: seq<string>)
    requires |zs| == |ls| && |rs| == |ls| && NamesIn(pool, ls) && NamesIn(pool, rs)
  {
    forall i :: 0 <= i < |zs| ==> a(zs[i]) == (a(pool[ls[i]]) != a(pool[rs[i]]))
  }

  /** The clauses c, relative to c0 and pool0: power constraints on the new
      names, and the XOR of every compared pair. */
  ghost predicate CompareSat(c: seq<Clause>, c0: seq<Clause>, pool0: map<string, Var>, pool: map<string, Var>,
                             zs: seq<Var>, ls: seq<string>, rs: seq<string>)
    requires |zs| == |ls| && |rs| == |ls| && NamesIn(pool, ls) && NamesIn(pool, rs)
  {
    forall a: Assignment :: Sat(a, c) <==> (Sat(a, c0) && SuffixPowerHolds(a, pool, pool0) && XorsHold(a, pool, zs, ls, rs))
  }

  /** One comparison: the variables of the two names (created on first use),
      a fresh variable z, and the XOR clauses z = l xor r. */
  method ComparePair(s: Solver, pool: map<string, Var>, l: string, r: string) returns (z: Var, pool': map<string, Var>)
    requires s.Valid() && Below(pool, s.numVars)
    modifies s
    ensures s.Valid() && Fev.Extends(pool', pool) && l in pool' && r in pool'
    ensures old(s.numVars) <= z && s.numVars == z + 1 && Below(pool', z)
    ensures forall k :: k in pool' && k !in pool ==> old(s.numVars) <= pool'[k]
    ensures forall a: Assignment :: Sat(a, s.clauses) <==>
      (Sat(a, old(s.clauses)) && SuffixPowerHolds(a, pool', pool) && a(z) == (a(pool'[l]) != a(pool'[r])))
  {
    var x, y;
    x, pool' := GetOrCreateVar(s, pool, l);
    ghost var p1, c1 := pool', s.clauses;
    y, pool' := GetOrCreateVar(s, pool', r);
    ghost var c2 := s.clauses;
    z := s.NewVar();
    Tseytin.EncodeXor2(s, x, y, z);
    forall a: Assignment ensures Sat(a, s.clauses) <==>
      (Sat(a, old(s.clauses)) && SuffixPowerHolds(a, pool', pool) && a(z) == (a(pool'[l]) != a(pool'[r])))
    {
      SuffixChain(a, pool, p1, pool');
      SatAppend(a, c2, Tseytin.XorClauses(x, y, z));
      Tseytin.XorExact(a, x, y, z);
    }
  }

  /** One comparison keeps the compare-loop invariant. */
  lemma CompareNext(c0: seq<Clause>, c1: seq<Clause>, c2: seq<Clause>, pool0: map<string, Var>,
                    p1: map<string, Var>, p2: map<string, Var>, n1: nat, base: nat,
                    zs: seq<Var>, ls: seq<string>, rs: seq<string>, z: Var, l: string, r: string)
    requires Compared(p1, n1, base, zs, ls, rs) && CompareSat(c1, c0, pool0, p1, zs, ls, rs)
    requires Fev.Extends(p1, pool0) && Fev.Extends(p2, p1) && l in p2 && r in p2
    requires n1 <= z && Below(p2, z) && base <= n1
    requires forall k :: k in p2 && k !in p1 ==> n1 <= p2[k]
    requires forall a: Assignment :: Sat(a, c2) <==>
      (Sat(a, c1) && SuffixPowerHolds(a, p2, p1) && a(z) == (a(p2[l]) != a(p2[r])))
    ensures Compared(p2, z + 1, base, zs + [z], ls + [l], rs + [r])
    ensures CompareSat(c2, c0, pool0, p2, zs + [z], ls + [l], rs + [r])
    ensures Fev.Extends(p2, pool0)
  {
    forall a: Assignment ensures Sat(a, c2) <==>
      (Sat(a, c0) && SuffixPowerHolds(a, p2, pool0) && XorsHold(a, p2, zs + [z], ls + [l], rs + [r]))
    {
      SuffixChain(a, pool0, p1, p2);
      assert XorsHold(a, p2, zs, ls, rs) == XorsHold(a, p1, zs, ls, rs);
      XorsSnoc(a, p2, zs, ls, rs, z, l, r);
    }
  }

  lemma XorsSnoc(a: Assignment, pool: map<string, Var>, zs: seq<Var>, ls: seq<string>, rs: seq<string>, z: Var, l: string, r: string)
    requires |zs| == |ls| && |rs| == |ls| && NamesIn(pool, ls) && NamesIn(pool, rs) && l in pool && r in pool
    ensures NamesIn(pool, ls + [l]) && NamesIn(pool, rs + [r])
    ensures XorsHold(a, pool, zs + [z], ls + [l], rs + [r]) <==>
      XorsHold(a, pool, zs, ls, rs) && a(z) == (a(pool[l]) != a(pool[r]))
  {
    if XorsHold(a, pool, zs + [z], ls + [l], rs + [r]) {
      forall i | 0 <= i < |zs| ensures a(zs[i]) == (a(pool[ls[i]]) != a(pool[rs[i]])) {
        assert (zs + [z])[i] == zs[i] && (ls + [l])[i] == ls[i] && (rs + [r])[i] == rs[i];
      }
      assert (zs + [z])[|zs|] == z;
    }
  }

  /** The spec names that the impl list also has, in spec order. */
  function Common(xs: seq<string>, ys: seq<string>): (r: seq<string>)
    ensures forall x :: x in r <==> x in xs && x in ys
    ensures Distinct(xs) ==> Distinct(r)
  {
    if xs == [] then []
    else
      var front := xs[..|xs| - 1];
      assert forall x :: x in xs <==> x in front || x == xs[|xs| - 1];
      Common(front, ys) + (if xs[|xs| - 1] in ys then [xs[|xs| - 1]] else [])
  }

  /** Each name with the prefix in front. */
  function Prefixed(prefix: string, ns: seq<string>): (r: seq<string>)
    ensures |r| == |ns| && forall i :: 0 <= i < |ns| ==> r[i] == prefix + ns[i]
  {
    seq(|ns|, i requires 0 <= i < |ns| => prefix + ns[i])
  }

  /** The inner search of the output loop: whether the impl lists the name. */
  method Contains(xs: seq<string>, x: string) returns (found: bool)
    ensures found <==> x in xs
  {
    found := false;
    for j := 0 to |xs|
      invariant !found && x !in xs[..j]
    {
      if xs[j] == x {
        return true;
      }
      assert xs[..j + 1] == xs[..j] + [xs[j]];
    }
    assert xs[..|xs|] == xs;
  }

  /** The loop over the spec's primary outputs: each one that the impl also
      has is compared under its two prefixed names. */
  method ComparePOs(s: Solver, pool: map<string, Var>, specPOs: seq<string>, impPOs: seq<string>,
                    zs: seq<Var>, ghost ls: seq<string>, ghost rs: seq<string>,
                    ghost c0: seq<Clause>, ghost pool0: map<string, Var>, ghost base: nat)
    returns (zs': seq<Var>, pool': map<string, Var>, ghost ls': seq<string>, ghost rs': seq<string>)
    requires s.Valid() && base <= s.numVars && Fev.Extends(pool, pool0)
    requires Compared(pool, s.numVars, base, zs, ls, rs) && CompareSat(s.clauses, c0, pool0, pool, zs, ls, rs)
    modifies s
    ensures s.Valid() && Fev.Extends(pool', pool0) && old(s.numVars) <= s.numVars
    ensures ls' == ls + Prefixed(SpecPrefix, Common(specPOs, impPOs))
    ensures rs' == rs + Prefixed(ImplPrefix, Common(specPOs, impPOs))
    ensures Compared(pool', s.numVars, base, zs', ls', rs') && CompareSat(s.clauses, c0, pool0, pool', zs', ls', rs')
  {
    zs', pool', ls', rs' := zs, pool, ls, rs;
    for i := 0 to |specPOs|
      invariant s.Valid() && Fev.Extends(pool', pool0) && old(s.numVars) <= s.numVars
      invariant ls' == ls + Prefixed(SpecPrefix, Common(specPOs[..i], impPOs))
      invariant rs' == rs + Prefixed(ImplPrefix, Common(specPOs[..i], impPOs))
      invariant Compared(pool', s.numVars, base, zs', ls', rs') && CompareSat(s.clauses, c0, pool0, pool', zs', ls', rs')
    {
      zs', pool', ls', rs' := CompareOne(s, pool', specPOs, i, impPOs, zs', ls', rs', ls, rs, c0, pool0, base);
    }
    assert specPOs[..|specPOs|] == specPOs;
  }

  /** The common outputs of one more specification output. */
  lemma CommonNext(xs: seq<string>, i: nat, ys: seq<string>, prefix: string)
    requires i < |xs|
    ensures Prefixed(prefix, Common(xs[..i + 1], ys))
            == Prefixed(prefix, Common(xs[..i], ys)) + (if xs[i] in ys then [prefix + xs[i]] else [])
  {
    assert xs[..i + 1][..i] == xs[..i];
  }

  /** One output of the specification, specPOs[i]: when the implementation
      has an output of the same name, the two are compared. */
  method CompareOne(s: Solver, pool: map<string, Var>, specPOs: seq<string>, i: nat, impPOs: seq<string>,
                    zs: seq<Var>, ghost ls: seq<string>, ghost rs: seq<string>,
                    ghost ls0: seq<string>, ghost rs0: seq<string>,
                    ghost c0: seq<Clause>, ghost pool0: map<string, Var>, ghost base: nat)
    returns (zs': seq<Var>, pool': map<string, Var>, ghost ls': seq<string>, ghost rs': seq<string>)
    requires i < |specPOs| && s.Valid() && base <= s.numVars && Fev.Extends(pool, pool0)
    requires ls == ls0 + Prefixed(SpecPrefix, Common(specPOs[..i], impPOs))
    requires rs == rs0 + Prefixed(ImplPrefix, Common(specPOs[..i], impPOs))
    requires Compared(pool, s.numVars, base, zs, ls, rs) && CompareSat(s.clauses, c0, pool0, pool, zs, ls, rs)
    modifies s
    ensures s.Valid() && Fev.Extends(pool', pool0) && old(s.numVars) <= s.numVars
    ensures ls' == ls0 + Prefixed(SpecPrefix, Common(specPOs[..i + 1], impPOs))
    ensures rs' == rs0 + Prefixed(ImplPrefix, Common(specPOs[..i + 1], impPOs))
    ensures Compared(pool', s.numVars, base, zs', ls', rs') && CompareSat(s.clauses, c0, pool0, pool', zs', ls', rs')
  {
    CommonNext(specPOs, i, impPOs, SpecPrefix);
    CommonNext(specPOs, i, impPOs, ImplPrefix);
    var po := specPOs[i];
    zs', pool', ls', rs' := zs, pool, ls, rs;
    var found := Contains(impPOs, po);
    if found {
      ghost var p1, c1, n1 := pool', s.clauses, s.numVars;
      var z;
      z, pool' := ComparePair(s, pool', SpecPrefix + po, ImplPrefix + po);
      CompareNext(c0, c1, s.clauses, pool0, p1, pool', n1, base, zs', ls', rs', z, SpecPrefix + po, ImplPrefix + po);
      zs', ls', rs' := zs' + [z], ls' + [SpecPrefix + po], rs' + [ImplPrefix + po];
    }
  }

  function Firsts(ps: seq<(string, string)>): (r: seq<string>)
    ensures |r| == |ps| && forall i :: 0 <= i < |ps| ==> r[i] == ps[i].0
  {
    seq(|ps|, i requires 0 <= i < |ps| => ps[i].0)
  }

  function Seconds(ps: seq<(string, string)>): (r: seq<string>)
    ensures |r| == |ps| && forall i :: 0 <= i < |ps| ==> r[i] == ps[i].1
  {
    seq(|ps|, i requires 0 <= i < |ps| => ps[i].1)
  }

  /** The loop over the flip-flop D pairs: each is compared. */
  method CompareDs(s: Solver, pool: map<string, Var>, dPairs: seq<(string, string)>,
                   zs: seq<Var>, ghost ls: seq<string>, ghost rs: seq<string>,
                   ghost c0: seq<Clause>, ghost pool0: map<string, Var>, ghost base: nat)
    returns (zs': seq<Var>, pool': map<string, Var>, ghost ls': seq<string>, ghost rs': seq<string>)
    requires s.Valid() && base <= s.numVars && Fev.Extends(pool, pool0)
    requires Compared(pool, s.numVars, base, zs, ls, rs) && CompareSat(s.clauses, c0, pool0, pool, zs, ls, rs)
    modifies s
    ensures s.Valid() && Fev.Extends(pool', pool0) && old(s.numVars) <= s.numVars
    ensures ls' == ls + Firsts(dPairs) && rs' == rs + Seconds(dPairs)
    ensures Compared(pool', s.numVars, base, zs', ls', rs') && CompareSat(s.clauses, c0, pool0, pool', zs', ls', rs')
  {
    zs', pool', ls', rs' := zs, pool, ls, rs;
    for i := 0 to |dPairs|
      invariant s.Valid() && Fev.Extends(pool', pool0) && old(s.numVars) <= s.numVars
      invariant ls' == ls + Firsts(dPairs[..i]) && rs' == rs + Seconds(dPairs[..i])
      invariant Compared(pool', s.numVars, base, zs', ls', rs') && CompareSat(s.clauses, c0, pool0, pool', zs', ls', rs')
    {
      ghost var p1, c1, n1 := pool', s.clauses, s.numVars;
      var z;
      z, pool' := ComparePair(s, pool', dPairs[i].0, dPairs[i].1);
      CompareNext(c0, c1, s.clauses, pool0, p1, pool', n1, base, zs', ls', rs', z, dPairs[i].0, dPairs[i].1);
      zs', ls', rs' := zs' + [z], ls' + [dPairs[i].0], rs' + [dPairs[i].1];
      assert Firsts(dPairs[..i + 1]) == Firsts(dPairs[..i]) + [dPairs[i].0];
      assert Seconds(dPairs[..i + 1]) == Seconds(dPairs[..i]) + [dPairs[i].1];
    }
    assert dPairs[..|dPairs|] == dPairs;
  }

  /** The miter clause: some difference variable is true. */
  method AddMiterClause(s: Solver, zs: seq<Var>)
    requires s.Valid() && forall i :: 0 <= i < |zs| ==> zs[i] < s.numVars
    modifies s
    ensures s.Valid() && s.numVars == old(s.numVars)
    ensures forall a: Assignment :: Sat(a, s.clauses) <==> (Sat(a, old(s.clauses)) && (zs != [] ==> AnyTrue(a, zs)))
  {
    if |zs| > 0 {
      var clause: Clause := [];
      for i := 0 to |zs|
        invariant clause == Lits(zs[..i], true)
      {
        clause := clause + [Pos(zs[i])];
      }
      assert zs[..|zs|] == zs;
      s.AddClause(clause);
      forall a: Assignment ensures Sat(a, s.clauses) <==> (Sat(a, old(s.clauses)) && AnyTrue(a, zs)) {
        SatAppend(a, old(s.clauses), [clause]);
        MiterClauseSat(a, zs);
      }
    }
  }

  lemma MiterClauseSat(a: Assignment, zs: seq<Var>)
    ensures ClauseSat(a, Lits(zs, true)) <==> AnyTrue(a, zs)
  {
    var c := Lits(zs, true);
    if AnyTrue(a, zs) {
      var i :| 0 <= i < |zs| && a(zs[i]);
      assert c[i] in c && LitTrue(a, c[i]);
    }
    if ClauseSat(a, c) {
      var l :| l in c && LitTrue(a, l);
      var k :| 0 <= k < |c| && c[k] == l;
      assert a(zs[k]);
    }
  }

  // ---------------------------------------------------------------------
  // What the query means
  // ---------------------------------------------------------------------

  /** a with each zs[i] set to vals[i]. */
  function Override(a: Assignment, zs: seq<Var>, vals: seq<bool>): Assignment
    requires |zs| == |vals|
  {
    if zs == [] then a
    else
      var b := Override(a, zs[..|zs| - 1], vals[..|vals| - 1]);
      (v: Var) => if v == zs[|zs| - 1] then vals[|vals| - 1] else b(v)
  }

  lemma {:induction false} OverrideSpec(a: Assignment, zs: seq<Var>, vals: seq<bool>)
    requires |zs| == |vals| && Distinct(zs)
    ensures forall i :: 0 <= i < |zs| ==> Override(a, zs, vals)(zs[i]) == vals[i]
    ensures forall v: Var :: v !in zs ==> Override(a, zs, vals)(v) == a(v)
  {
    if zs != [] {
      var n := |zs| - 1;
      var front, fvals := zs[..n], vals[..n];
      OverrideSpec(a, front, fvals);
      forall i | 0 <= i < n ensures Override(a, zs, vals)(zs[i]) == vals[i] {
        assert zs[i] == front[i] && zs[i] != zs[n];
      }
      forall v: Var | v !in zs ensures Override(a, zs, vals)(v) == a(v) {
        assert v !in front;
      }
    }
  }

  /** Every assignment that satisfies the miter makes some compared pair
      differ. */
  lemma RefMiterSound(a: Assignment, c0: seq<Clause>, c1: seq<Clause>, c2: seq<Clause>, pool0: map<string, Var>,
                      pool: map<string, Var>, n: nat, base: nat, zs: seq<Var>, ls: seq<string>, rs: seq<string>)
    requires Compared(pool, n, base, zs, ls, rs)
    requires CompareSat(c1, c0, pool0, pool, zs, ls, rs)
    requires forall a: Assignment :: Sat(a, c2) <==> (Sat(a, c1) && (zs != [] ==> AnyTrue(a, zs)))
    requires Sat(a, c2)
    ensures Sat(a, c0) && SuffixPowerHolds(a, pool, pool0)
    ensures ls == [] || exists i :: 0 <= i < |ls| && a(pool[ls[i]]) != a(pool[rs[i]])
  {
    assert Sat(a, c1);
    if ls != [] {
      var i :| 0 <= i < |zs| && a(zs[i]);
      assert a(pool[ls[i]]) != a(pool[rs[i]]);
    }
  }

  /** The XOR values of the compared pairs under a. */
  ghost function PairXors(a: Assignment, pool: map<string, Var>, zs: seq<Var>, ls: seq<string>, rs: seq<string>): (r: seq<bool>)
    requires |zs| == |ls| && |rs| == |ls| && NamesIn(pool, ls) && NamesIn(pool, rs)
    ensures |r| == |zs| && forall i :: 0 <= i < |zs| ==> r[i] == (a(pool[ls[i]]) != a(pool[rs[i]]))
  {
    seq(|zs|, i requires 0 <= i < |zs| => a(pool[ls[i]]) != a(pool[rs[i]]))
  }

  /** Setting the difference variables changes neither the circuit clauses
      (all below base) nor any pool variable. */
  lemma OverrideKeeps(a: Assignment, c0: seq<Clause>, pool0: map<string, Var>, pool: map<string, Var>,
                      n: nat, base: nat, zs: seq<Var>, ls: seq<string>, rs: seq<string>)
    requires Allocated(c0, base) && Compared(pool, n, base, zs, ls, rs)
    ensures var b := Override(a, zs, PairXors(a, pool, zs, ls, rs));
      (Sat(b, c0) <==> Sat(a, c0)) && (SuffixPowerHolds(b, pool, pool0) <==> SuffixPowerHolds(a, pool, pool0))
      && forall k :: k in pool ==> b(pool[k]) == a(pool[k])
  {
    var b := Override(a, zs, PairXors(a, pool, zs, ls, rs));
    OverrideSpec(a, zs, PairXors(a, pool, zs, ls, rs));
    forall v: Var | v < base ensures a(v) == b(v) {
      assert v !in zs;
    }
    FevMatch.AgreeSat(a, b, c0, base);
    forall k | k in pool ensures b(pool[k]) == a(pool[k]) {
      assert pool[k] !in zs;
    }
  }

  /** Setting the difference variables to the pairs' XORs makes every XOR
      constraint hold, and the miter clause too when some pair differs. */
  lemma OverrideXors(a: Assignment, pool: map<string, Var>, n: nat, base: nat, zs: seq<Var>, ls: seq<string>, rs: seq<string>)
    requires Compared(pool, n, base, zs, ls, rs)
    requires forall k :: k in pool ==> Override(a, zs, PairXors(a, pool, zs, ls, rs))(pool[k]) == a(pool[k])
    requires ls == [] || exists i :: 0 <= i < |ls| && a(pool[ls[i]]) != a(pool[rs[i]])
    ensures var b := Override(a, zs, PairXors(a, pool, zs, ls, rs));
      XorsHold(b, pool, zs, ls, rs) && (zs != [] ==> AnyTrue(b, zs))
  {
    var b := Override(a, zs, PairXors(a, pool, zs, ls, rs));
    OverrideSpec(a, zs, PairXors(a, pool, zs, ls, rs));
    if zs != [] {
      var i :| 0 <= i < |ls| && a(pool[ls[i]]) != a(pool[rs[i]]);
      assert b(zs[i]);
    }
  }

  /** Conversely, setting every difference variable to its pair's XOR turns
      an assignment that makes some pair differ into one that satisfies the
      miter. */
  lemma RefMiterComplete(a: Assignment, c0: seq<Clause>, c1: seq<Clause>, c2: seq<Clause>, pool0: map<string, Var>,
                         pool: map<string, Var>, n: nat, base: nat, zs: seq<Var>, ls: seq<string>, rs: seq<string>)
    requires Allocated(c0, base) && Compared(pool, n, base, zs, ls, rs)
    requires CompareSat(c1, c0, pool0, pool, zs, ls, rs)
    requires forall a: Assignment :: Sat(a, c2) <==> (Sat(a, c1) && (zs != [] ==> AnyTrue(a, zs)))
    requires Sat(a, c0) && SuffixPowerHolds(a, pool, pool0)
    requires ls == [] || exists i :: 0 <= i < |ls| && a(pool[ls[i]]) != a(pool[rs[i]])
    ensures Sat(Override(a, zs, PairXors(a, pool, zs, ls, rs)), c2)
  {
    OverrideKeeps(a, c0, pool0, pool, n, base, zs, ls, rs);
    OverrideXors(a, pool, n, base, zs, ls, rs);
    var b := Override(a, zs, PairXors(a, pool, zs, ls, rs));
    assert Sat(b, c1);
  }

  /** The miter query: the final clauses are satisfiable exactly when some
      assignment satisfies the circuit clauses c0, forces the power names
      the compare loops added, and makes some compared pair differ (any
      assignment will do when nothing is compared). */
  lemma RefMiterQuery(c0: seq<Clause>, c1: seq<Clause>, c2: seq<Clause>, pool0: map<string, Var>, pool: map<string, Var>,
                      n: nat, base: nat, zs: seq<Var>, ls: seq<string>, rs: seq<string>)
    requires Allocated(c0, base) && Compared(pool, n, base, zs, ls, rs)
    requires CompareSat(c1, c0, pool0, pool, zs, ls, rs)
    requires forall a: Assignment :: Sat(a, c2) <==> (Sat(a, c1) && (zs != [] ==> AnyTrue(a, zs)))
    ensures (exists a: Assignment :: Sat(a, c2)) <==>
      (exists a: Assignment :: Sat(a, c0) && SuffixPowerHolds(a, pool, pool0)
         && (ls == [] || exists i :: 0 <= i < |ls| && a(pool[ls[i]]) != a(pool[rs[i]])))
  {
    if a: Assignment :| Sat(a, c2) {
      RefMiterSound(a, c0, c1, c2, pool0, pool, n, base, zs, ls, rs);
    }
    if a: Assignment :| Sat(a, c0) && SuffixPowerHolds(a, pool, pool0)
                        && (ls == [] || exists i :: 0 <= i < |ls| && a(pool[ls[i]]) != a(pool[rs[i]])) {
      RefMiterComplete(a, c0, c1, c2, pool0, pool, n, base, zs, ls, rs);
    }
  }

  /** Before the compare loops nothing has been compared. */
  lemma CompareStart(c: seq<Clause>, pool: map<string, Var>, n: nat)
    requires Below(pool, n)
    ensures Compared(pool, n, n, [], [], []) && CompareSat(c, c, pool, pool, [], [], [])
  {
  }

  /** The output loop followed by the flip-flop D loop. */
  method CompareAll(s: Solver, pool0: map<string, Var>, specPOs: seq<string>, impPOs: seq<string>,
                    dPairs: seq<(string, string)>)
    returns (zs: seq<Var>, pool: map<string, Var>, ghost ls: seq<string>, ghost rs: seq<string>)
    requires s.Valid() && Below(pool0, s.numVars)
    modifies s
    ensures s.Valid() && Fev.Extends(pool, pool0) && old(s.numVars) <= s.numVars
    ensures ls == Prefixed(SpecPrefix, Common(specPOs, impPOs)) + Firsts(dPairs)
    ensures rs == Prefixed(ImplPrefix, Common(specPOs, impPOs)) + Seconds(dPairs)
    ensures Compared(pool, s.numVars, old(s.numVars), zs, ls, rs)
    ensures CompareSat(s.clauses, old(s.clauses), pool0, pool, zs, ls, rs)
  {
    ghost var cE, base := s.clauses, s.numVars;
    CompareStart(cE, pool0, base);
    zs, pool, ls, rs := ComparePOs(s, pool0, specPOs, impPOs, [], [], [], cE, pool0, base);
    zs, pool, ls, rs := CompareDs(s, pool, dPairs, zs, ls, rs, cE, pool0, base);
  }

  /** Step 5: the output loop, the flip-flop D loop and the miter clause,
      on top of the encoded circuits' clauses. The final clauses are
      satisfiable exactly when some assignment satisfies the earlier ones,
      forces the power names the loops added, and makes some compared pair
      differ. */
  method BuildMiterRef(s: Solver, pool0: map<string, Var>, specPOs: seq<string>, impPOs: seq<string>,
                       dPairs: seq<(string, string)>)
    returns (pool: map<string, Var>, ghost ls: seq<string>, ghost rs: seq<string>)
    requires s.Valid() && Below(pool0, s.numVars)
    modifies s
    ensures s.Valid() && Fev.Extends(pool, pool0)
    ensures ls == Prefixed(SpecPrefix, Common(specPOs, impPOs)) + Firsts(dPairs)
    ensures rs == Prefixed(ImplPrefix, Common(specPOs, impPOs)) + Seconds(dPairs)
    ensures NamesIn(pool, ls) && NamesIn(pool, rs)
    ensures (exists a: Assignment :: Sat(a, s.clauses)) <==>
      (exists a: Assignment :: Sat(a, old(s.clauses)) && SuffixPowerHolds(a, pool, pool0)
         && (ls == [] || exists i :: 0 <= i < |ls| && a(pool[ls[i]]) != a(pool[rs[i]])))
  {
    ghost var cE, base := s.clauses, s.numVars;
    var zs;
    zs, pool, ls, rs := CompareAll(s, pool0, specPOs, impPOs, dPairs);
    ghost var c2 := s.clauses;
    AddMiterClause(s, zs);
    RefMiterQuery(cE, c2, s.clauses, pool0, pool, s.numVars, base, zs, ls, rs);
  }

  /** The two encoded circuits, together with the power names the compare
      loops added, mean: power constraints on every name since the sharing
      steps, and every gate of both circuits. */
  lemma EncodedMeaning(c1: seq<Clause>, cE: seq<Clause>, poolQ: map<string, Var>, poolS: map<string, Var>,
                       poolI: map<string, Var>, pool: map<string, Var>, spec: Cell, impl: Cell)
    requires Fev.Extends(poolS, poolQ) && Fev.Extends(poolI, poolS) && Fev.Extends(pool, poolI)
    requires CircuitKeysIn(poolS, SpecPrefix, spec) && CircuitKeysIn(poolI, ImplPrefix, impl)
    requires forall a: Assignment :: Sat(a, c1) <==>
      (Sat(a, []) && SuffixPowerHolds(a, poolS, poolQ) && CircuitHolds(a, poolS, SpecPrefix, spec))
    requires forall a: Assignment :: Sat(a, cE) <==>
      (Sat(a, c1) && SuffixPowerHolds(a, poolI, poolS) && CircuitHolds(a, poolI, ImplPrefix, impl))
    ensures CircuitKeysIn(pool, SpecPrefix, spec) && CircuitKeysIn(pool, ImplPrefix, impl)
    ensures forall a: Assignment :: (Sat(a, cE) && SuffixPowerHolds(a, pool, poolI)) <==>
      (SuffixPowerHolds(a, pool, poolQ) && CircuitHolds(a, pool, SpecPrefix, spec) && CircuitHolds(a, pool, ImplPrefix, impl))
  {
    CircuitHoldsExtend((v: Var) => true, poolS, pool, SpecPrefix, spec);
    CircuitHoldsExtend((v: Var) => true, poolI, pool, ImplPrefix, impl);
    forall a: Assignment ensures (Sat(a, cE) && SuffixPowerHolds(a, pool, poolI)) <==>
      (SuffixPowerHolds(a, pool, poolQ) && CircuitHolds(a, pool, SpecPrefix, spec) && CircuitHolds(a, pool, ImplPrefix, impl))
    {
      CircuitHoldsExtend(a, poolS, pool, SpecPrefix, spec);
      CircuitHoldsExtend(a, poolI, pool, ImplPrefix, impl);
      SuffixChain(a, poolQ, poolS, poolI);
      SuffixChain(a, poolQ, poolI, pool);
    }
  }

  /** A node of the cell whose boundary port has direction d. */
  ghost predicate IsBoundary(cell: Cell, n: string, d: Dir)
  {
    n in cell.nodes && cell.nodes[n].port == Some(d)
  }

  /** Every spec primary input has one variable under both prefixed names
      unless a flip-flop Q name overwrote one of them. */
  ghost predicate PIsShared(spec: Cell, impl: Cell, poolQ: map<string, Var>)
  {
    forall pi :: IsBoundary(spec, pi, In) ==>
      SpecPrefix + pi in poolQ && ImplPrefix + pi in poolQ
      && (!QKey(DffPinTable(spec), DffPinTable(impl), DffPinTable(spec).Keys, SpecPrefix + pi)
          && !QKey(DffPinTable(spec), DffPinTable(impl), DffPinTable(spec).Keys, ImplPrefix + pi)
          ==> poolQ[SpecPrefix + pi] == poolQ[ImplPrefix + pi])
  }

  /** Every matched flip-flop has both Q names in the pool, and one variable
      under both when no other matched flip-flop uses its Q nodes. */
  ghost predicate QsShared(spec: Cell, impl: Cell, poolQ: map<string, Var>)
  {
    && (forall n :: QShared(DffPinTable(spec), DffPinTable(impl), n) ==>
          SpecPrefix + DffPinTable(spec)[n].1 in poolQ && ImplPrefix + DffPinTable(impl)[n].1 in poolQ)
    && (forall n :: QShared(DffPinTable(spec), DffPinTable(impl), n) && QUnique(DffPinTable(spec), DffPinTable(impl), n) ==>
          poolQ[SpecPrefix + DffPinTable(spec)[n].1] == poolQ[ImplPrefix + DffPinTable(impl)[n].1])
  }

  /** Steps 1 to 3: the boundary lists, the shared primary-input variables
      and the flip-flop sharing. */
  method ShareInputs(s: Solver, spec: Cell, impl: Cell)
    returns (poolQ: map<string, Var>, specPOs: seq<string>, impPOs: seq<string>,
             dPairs: seq<(string, string)>, ghost dNames: seq<string>)
    requires s.Valid() && s.clauses == []
    modifies s
    ensures s.Valid() && s.clauses == [] && Below(poolQ, s.numVars)
    ensures Distinct(specPOs) && forall n :: n in specPOs <==> IsBoundary(spec, n, Out)
    ensures Distinct(impPOs) && forall n :: n in impPOs <==> IsBoundary(impl, n, Out)
    ensures PIsShared(spec, impl, poolQ) && QsShared(spec, impl, poolQ)
    ensures DState(DffPinTable(spec), DffPinTable(impl), DffPinTable(spec).Keys, dPairs, dNames)
  {
    var specPIs := BoundaryNodes(spec, In);
    specPOs := BoundaryNodes(spec, Out);
    var impPIs := BoundaryNodes(impl, In);
    impPOs := BoundaryNodes(impl, Out);
    var pool0, shared := SharePIs(s, specPIs);
    var specDffs := GetDffs(spec);
    var impDffs := GetDffs(impl);
    poolQ, dPairs, dNames := ShareDffs(s, pool0, specDffs, impDffs);
    forall pi | IsBoundary(spec, pi, In)
      ensures SpecPrefix + pi in poolQ && ImplPrefix + pi in poolQ
      ensures !QKey(specDffs, impDffs, specDffs.Keys, SpecPrefix + pi)
              && !QKey(specDffs, impDffs, specDffs.Keys, ImplPrefix + pi)
              ==> poolQ[SpecPrefix + pi] == poolQ[ImplPrefix + pi]
    {
      var i :| 0 <= i < |specPIs| && specPIs[i] == pi;
      assert SpecPrefix + specPIs[i] in pool0 && ImplPrefix + specPIs[i] in pool0;
    }
  }

  /** The D nodes of the matched flip-flops, prefixed, from position k of
      the compared lists on. */
  ghost predicate DsListed(sd: DffPins, id: DffPins, k: nat, dNames: seq<string>, ls: seq<string>, rs: seq<string>)
  {
    && Distinct(dNames) && (forall n :: n in dNames <==> DCompared(sd, id, n))
    && |ls| == k + |dNames| && |rs| == |ls|
    && (forall i :: 0 <= i < |dNames| ==>
          dNames[i] in sd && dNames[i] in id &&
          ls[k + i] == SpecPrefix + sd[dNames[i]].0 && rs[k + i] == ImplPrefix + id[dNames[i]].0)
  }

  /** The names the reference checker compares, in order: the prefixed
      primary outputs the two circuits share, then the prefixed D nodes of
      the matched flip-flops. */
  ghost predicate ComparedLists(spec: Cell, impl: Cell, poNames: seq<string>, dNames: seq<string>,
                                ls: seq<string>, rs: seq<string>)
  {
    && Distinct(poNames) && (forall n :: n in poNames <==> IsBoundary(spec, n, Out) && IsBoundary(impl, n, Out))
    && |poNames| <= |ls| && |rs| == |ls|
    && (forall i :: 0 <= i < |poNames| ==> ls[i] == SpecPrefix + poNames[i] && rs[i] == ImplPrefix + poNames[i])
    && DsListed(DffPinTable(spec), DffPinTable(impl), |poNames|, dNames, ls, rs)
  }

  lemma DsListedHold(sd: DffPins, id: DffPins, po: seq<string>, dPairs: seq<(string, string)>, dNames: seq<string>,
                     ls: seq<string>, rs: seq<string>)
    requires DState(sd, id, sd.Keys, dPairs, dNames)
    requires ls == Prefixed(SpecPrefix, po) + Firsts(dPairs) && rs == Prefixed(ImplPrefix, po) + Seconds(dPairs)
    ensures DsListed(sd, id, |po|, dNames, ls, rs)
  {
    forall i | 0 <= i < |dNames|
      ensures ls[|po| + i] == SpecPrefix + sd[dNames[i]].0 && rs[|po| + i] == ImplPrefix + id[dNames[i]].0
    {
      assert ls[|po| + i] == Firsts(dPairs)[i] && rs[|po| + i] == Seconds(dPairs)[i];
    }
  }

  lemma ComparedListsHold(spec: Cell, impl: Cell, specPOs: seq<string>, impPOs: seq<string>,
                          dPairs: seq<(string, string)>, dNames: seq<string>, ls: seq<string>, rs: seq<string>)
    requires Distinct(specPOs) && forall n :: n in specPOs <==> IsBoundary(spec, n, Out)
    requires forall n :: n in impPOs <==> IsBoundary(impl, n, Out)
    requires DState(DffPinTable(spec), DffPinTable(impl), DffPinTable(spec).Keys, dPairs, dNames)
    requires ls == Prefixed(SpecPrefix, Common(specPOs, impPOs)) + Firsts(dPairs)
    requires rs == Prefixed(ImplPrefix, Common(specPOs, impPOs)) + Seconds(dPairs)
    ensures ComparedLists(spec, impl, Common(specPOs, impPOs), dNames, ls, rs)
  {
    var po := Common(specPOs, impPOs);
    DsListedHold(DffPinTable(spec), DffPinTable(impl), po, dPairs, dNames, ls, rs);
    forall i | 0 <= i < |po|
      ensures ls[i] == SpecPrefix + po[i] && rs[i] == ImplPrefix + po[i]
    {
      assert ls[i] == Prefixed(SpecPrefix, po)[i] && rs[i] == Prefixed(ImplPrefix, po)[i];
    }
  }

  /** The reference checker's query, from the two flat cells to the clause
      list handed to the solver. The run fails exactly when a gate of either
      circuit needs a pin with no matching port. Otherwise the clauses are
      satisfiable exactly when some assignment forces the power names, meets
      every gate of both circuits, and makes some compared pair differ; with
      nothing to compare, whenever the circuits' clauses are satisfiable. */
  method RefQuery(spec: Cell, impl: Cell)
    returns (ok: bool, s: Solver, poolQ: map<string, Var>, pool: map<string, Var>,
             ghost ls: seq<string>, ghost rs: seq<string>, ghost poNames: seq<string>, ghost dNames: seq<string>)
    ensures fresh(s) && s.Valid()
    ensures ok <==> CircuitResolved(spec) && CircuitResolved(impl)
    ensures PIsShared(spec, impl, poolQ) && QsShared(spec, impl, poolQ)
    ensures ok ==> Fev.Extends(pool, poolQ)
    ensures ok ==> CircuitKeysIn(pool, SpecPrefix, spec) && CircuitKeysIn(pool, ImplPrefix, impl)
    ensures ok ==> ComparedLists(spec, impl, poNames, dNames, ls, rs)
    ensures ok ==> NamesIn(pool, ls) && NamesIn(pool, rs)
    ensures ok ==> ((exists a: Assignment :: Sat(a, s.clauses)) <==>
      (exists a: Assignment :: SuffixPowerHolds(a, pool, poolQ)
         && CircuitHolds(a, pool, SpecPrefix, spec) && CircuitHolds(a, pool, ImplPrefix, impl)
         && (ls == [] || exists i :: 0 <= i < |ls| && a(pool[ls[i]]) != a(pool[rs[i]]))))
  {
    s := new Solver();
    pool, ls, rs, poNames := map[], [], [], [];
    var specPOs, impPOs, dPairs;
    poolQ, specPOs, impPOs, dPairs, dNames := ShareInputs(s, spec, impl);
    var poolS, poolI;
    ok, poolS := EncodeCircuit(s, spec, poolQ, SpecPrefix);
    if !ok {
      return;
    }
    ghost var c1 := s.clauses;
    ok, poolI := EncodeCircuit(s, impl, poolS, ImplPrefix);
    if !ok {
      return;
    }
    ghost var cE := s.clauses;
    pool, ls, rs := BuildMiterRef(s, poolI, specPOs, impPOs, dPairs);
    poNames := Common(specPOs, impPOs);
    ComparedListsHold(spec, impl, specPOs, impPOs, dPairs, dNames, ls, rs);
    EncodedMeaning(c1, cE, poolQ, poolS, poolI, pool, spec, impl);
  }
}
