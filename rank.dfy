/** Logic-depth ranking of the instances of a flat cell: a dependency graph
    from drivers to sinks, Kahn's traversal assigning every reached instance
    its longest distance from the primary inputs, and the sorted
    (rank, name) report. */
module Rank {
  import opened Netlist

  /** The synthetic source that stands for every primary input. */
  const TopSrc := "__TOP_INPUT__"
  /** Rank of an instance no ranked driver has reached. */
  const NegInf := -1000000

  type Edge = (string, string)

  // ---------------------------------------------------------------------
  // Initial tables
  // ---------------------------------------------------------------------

  /** The starting rank of every name: -1 for the source, the sentinel for
      each instance. */
  function InitRank(insts: set<string>): (r: map<string, int>)
    ensures r.Keys == insts + {TopSrc} && r[TopSrc] == -1
    ensures forall k :: k in insts && k != TopSrc ==> r[k] == NegInf
  {
    map k | k in insts + {TopSrc} :: if k == TopSrc then -1 else NegInf
  }

  /** Every instance gets the sentinel rank and in-degree 0, then the source
      gets rank -1 and in-degree 0. */
  method InitTables(insts: set<string>) returns (rank: map<string, int>, indeg: map<string, int>)
    ensures rank == InitRank(insts)
    ensures indeg.Keys == insts + {TopSrc} && forall k :: k in indeg ==> indeg[k] == 0
  {
    rank, indeg := map[], map[];
    var todo := insts;
    while todo != {}
      invariant todo <= insts
      invariant rank.Keys == indeg.Keys == insts - todo
      invariant forall k :: k in rank ==> rank[k] == NegInf && indeg[k] == 0
      decreases todo
    {
      var k :| k in todo;
      rank, indeg := rank[k := NegInf], indeg[k := 0];
      todo := todo - {k};
    }
    rank, indeg := rank[TopSrc := -1], indeg[TopSrc := 0];
  }

  // ---------------------------------------------------------------------
  // Drivers and sinks of one node
  // ---------------------------------------------------------------------

  /** A connection whose master port is an output or bidirectional drives
      the node. */
  predicate DrivesNode(c: Conn)
  {
    c.dir == Some(Out) || c.dir == Some(InOut)
  }

  /** A connection whose master port is an input or bidirectional reads the
      node. */
  predicate ReadsNode(c: Conn)
  {
    c.dir == Some(In) || c.dir == Some(InOut)
  }

  /** A cell input (or bidirectional) port on the node: the source drives it. */
  predicate FedByInput(node: Node)
  {
    node.port == Some(In) || node.port == Some(InOut)
  }

  ghost predicate IsDriver(node: Node, d: string)
  {
    (exists c :: c in node.conns && DrivesNode(c) && c.inst == d) || (d == TopSrc && FedByInput(node))
  }

  ghost predicate IsSink(node: Node, s: string)
  {
    exists c :: c in node.conns && ReadsNode(c) && c.inst == s
  }

  /** The driver and sink lists of one node. A connection without a master
      port is skipped; a bidirectional one is both. */
  method NodeEnds(node: Node) returns (drivers: seq<string>, sinks: seq<string>)
    ensures forall d :: d in drivers <==> IsDriver(node, d)
    ensures forall s :: s in sinks <==> IsSink(node, s)
  {
    drivers, sinks := [], [];
    for i := 0 to |node.conns|
      invariant forall d :: d in drivers <==> exists c :: c in node.conns[..i] && DrivesNode(c) && c.inst == d
      invariant forall s :: s in sinks <==> exists c :: c in node.conns[..i] && ReadsNode(c) && c.inst == s
    {
      var c := node.conns[i];
      assert node.conns[..i + 1] == node.conns[..i] + [c];
      if c.dir.Some? {
        if DrivesNode(c) {
          drivers := drivers + [c.inst];
        }
        if ReadsNode(c) {
          sinks := sinks + [c.inst];
        }
      }
    }
    assert node.conns[..|node.conns|] == node.conns;
    if FedByInput(node) {
      drivers := drivers + [TopSrc];
    }
  }

  // ---------------------------------------------------------------------
  // The dependency graph
  // ---------------------------------------------------------------------

  /** The distinct predecessors of k. */
  function Preds(edges: set<Edge>, k: string): (r: set<string>)
    ensures forall d :: d in r <==> (d, k) in edges
  {
    set e | e in edges && e.1 == k :: e.0
  }

  /** k is the source or an instance some node of the cell connects to. */
  ghost predicate Named(cell: Cell, k: string)
  {
    k == TopSrc || exists n, c :: n in cell.nodes && c in cell.nodes[n].conns && c.inst == k
  }

  /** The graph tables agree with the edge set: `adj[d]` lists each
      successor of d once, no edge is a self edge, every endpoint has an
      in-degree entry, and each in-degree counts the distinct
      predecessors. */
  ghost predicate GraphInv(edges: set<Edge>, adj: map<string, seq<string>>, indeg: map<string, int>)
  {
    && (forall d :: d in adj ==> Distinct(adj[d]) && forall s :: s in adj[d] <==> (d, s) in edges)
    && (forall e :: e in edges ==> e.0 != e.1 && e.0 in adj && e.0 in indeg && e.1 in indeg)
    && (forall k :: k in indeg ==> indeg[k] == |Preds(edges, k)|)
  }

  /** Adding a new edge d->s adds d to the predecessors of s only. */
  lemma PredsAdd(edges: set<Edge>, d: string, s: string, k: string)
    requires (d, s) !in edges
    ensures |Preds(edges + {(d, s)}, k)| == |Preds(edges, k)| + (if k == s then 1 else 0)
  {
    if k == s {
      assert Preds(edges + {(d, s)}, k) == Preds(edges, k) + {d};
    } else {
      assert Preds(edges + {(d, s)}, k) == Preds(edges, k);
    }
  }

  /** Insertion of one new edge: appended to the driver's successor list,
      the sink's in-degree incremented (created at 0 when missing), and an
      in-degree entry made for the driver. */
  method AddEdge(edges: set<Edge>, adj: map<string, seq<string>>, indeg: map<string, int>, d: string, s: string)
    returns (edges': set<Edge>, adj': map<string, seq<string>>, indeg': map<string, int>)
    requires GraphInv(edges, adj, indeg) && d != s && (d, s) !in edges
    ensures GraphInv(edges', adj', indeg')
    ensures edges' == edges + {(d, s)} && indeg'.Keys == indeg.Keys + {d, s}
  {
    edges' := edges + {(d, s)};
    var succ := if d in adj then adj[d] else [];
    adj' := adj[d := succ + [s]];
    var n := if s in indeg then indeg[s] else 0;
    indeg' := indeg[s := n + 1];
    if d !in indeg' {
      indeg' := indeg'[d := 0];
    }
    forall k | k in indeg'
      ensures indeg'[k] == |Preds(edges', k)|
    {
      PredsAdd(edges, d, s, k);
      if k !in indeg {
        assert Preds(edges, k) == {};
      }
    }
  }

  /** d->s is an edge of the cell's graph: some non-global node has d among
      its drivers and s among its sinks, and d is not s. */
  ghost predicate Linked(cell: Cell, names: set<string>, d: string, s: string)
  {
    d != s && exists n :: n in names && n in cell.nodes && n !in Globals
                          && IsDriver(cell.nodes[n], d) && IsSink(cell.nodes[n], s)
  }

  /** The pairs from one driver to every sink, skipping a self pair and
      pairs already present. */
  method AddDriverEdges(edges: set<Edge>, adj: map<string, seq<string>>, indeg: map<string, int>,
                        d: string, sinks: seq<string>)
    returns (edges': set<Edge>, adj': map<string, seq<string>>, indeg': map<string, int>)
    requires GraphInv(edges, adj, indeg)
    ensures GraphInv(edges', adj', indeg') && indeg.Keys <= indeg'.Keys
    ensures forall x, s :: (x, s) in edges' <==> (x, s) in edges || (x == d && s in sinks && d != s)
    ensures forall k :: k in indeg' ==> k in indeg || k == d || k in sinks
  {
    edges', adj', indeg' := edges, adj, indeg;
    for j := 0 to |sinks|
      invariant GraphInv(edges', adj', indeg') && indeg.Keys <= indeg'.Keys
      invariant forall x, s :: (x, s) in edges' <==> (x, s) in edges || (x == d && s in sinks[..j] && d != s)
      invariant forall k :: k in indeg' ==> k in indeg || k == d || k in sinks
    {
      var s := sinks[j];
      assert sinks[..j + 1] == sinks[..j] + [s];
      if d != s && (d, s) !in edges' {
        edges', adj', indeg' := AddEdge(edges', adj', indeg', d, s);
      }
    }
    assert sinks[..|sinks|] == sinks;
  }

  /** Every driver-sink pair of one node. */
  method AddNodeEdges(edges: set<Edge>, adj: map<string, seq<string>>, indeg: map<string, int>,
                      drivers: seq<string>, sinks: seq<string>)
    returns (edges': set<Edge>, adj': map<string, seq<string>>, indeg': map<string, int>)
    requires GraphInv(edges, adj, indeg)
    ensures GraphInv(edges', adj', indeg') && indeg.Keys <= indeg'.Keys
    ensures forall d, s :: (d, s) in edges' <==> (d, s) in edges || (d in drivers && s in sinks && d != s)
    ensures forall k :: k in indeg' ==> k in indeg || k in drivers || k in sinks
  {
    edges', adj', indeg' := edges, adj, indeg;
    for i := 0 to |drivers|
      invariant GraphInv(edges', adj', indeg') && indeg.Keys <= indeg'.Keys
      invariant forall d, s :: (d, s) in edges' <==> (d, s) in edges || (d in drivers[..i] && s in sinks && d != s)
      invariant forall k :: k in indeg' ==> k in indeg || k in drivers || k in sinks
    {
      assert drivers[..i + 1] == drivers[..i] + [drivers[i]];
      edges', adj', indeg' := AddDriverEdges(edges', adj', indeg', drivers[i], sinks);
    }
    assert drivers[..|drivers|] == drivers;
  }

  lemma LinkedNext(cell: Cell, names: set<string>, n: string, d: string, s: string)
    requires n in cell.nodes
    ensures Linked(cell, names + {n}, d, s) <==>
      Linked(cell, names, d, s) || (n !in Globals && IsDriver(cell.nodes[n], d) && IsSink(cell.nodes[n], s) && d != s)
  {
  }

  /** The edge-building loop over the nodes of the cell (global nodes
      contribute nothing). The resulting edge set is exactly the linked
      pairs, and the tables agree with it. */
  method BuildEdges(cell: Cell, indeg0: map<string, int>)
    returns (edges: set<Edge>, adj: map<string, seq<string>>, indeg: map<string, int>)
    requires forall k :: k in indeg0 ==> indeg0[k] == 0
    ensures GraphInv(edges, adj, indeg)
    ensures forall d, s :: (d, s) in edges <==> Linked(cell, cell.nodes.Keys, d, s)
    ensures indeg0.Keys <= indeg.Keys
    ensures forall k :: k in indeg ==> k in indeg0 || Named(cell, k)
  {
    edges, adj, indeg := {}, map[], indeg0;
    var todo := cell.nodes.Keys;
    while todo != {}
      invariant todo <= cell.nodes.Keys
      invariant GraphInv(edges, adj, indeg) && indeg0.Keys <= indeg.Keys
      invariant forall d, s :: (d, s) in edges <==> Linked(cell, cell.nodes.Keys - todo, d, s)
      invariant forall k :: k in indeg ==> k in indeg0 || Named(cell, k)
      decreases todo
    {
      var n :| n in todo;
      ghost var seen := cell.nodes.Keys - todo;
      if n !in Globals {
        var drivers, sinks := NodeEnds(cell.nodes[n]);
        edges, adj, indeg := AddNodeEdges(edges, adj, indeg, drivers, sinks);
      }
      forall d, s
        ensures (d, s) in edges <==> Linked(cell, seen + {n}, d, s)
      {
        LinkedNext(cell, seen, n, d, s);
      }
      assert cell.nodes.Keys - (todo - {n}) == seen + {n};
      todo := todo - {n};
    }
  }

  // ---------------------------------------------------------------------
  // Kahn's traversal
  // ---------------------------------------------------------------------

  /** The queue is seeded, in map order, with every name of in-degree 0; a
      seeded name without a rank entry gets the sentinel. */
  method SeedQueue(indeg: map<string, int>, rank: map<string, int>) returns (q: seq<string>, rank': map<string, int>)
    ensures Distinct(q) && forall x :: x in q <==> x in indeg && indeg[x] == 0
    ensures rank'.Keys == rank.Keys + (set x | x in q)
    ensures forall k :: k in rank' ==> rank'[k] == if k in rank then rank[k] else NegInf
  {
    q, rank' := [], rank;
    var todo := indeg.Keys;
    while todo != {}
      invariant todo <= indeg.Keys
      invariant Distinct(q) && forall x :: x in q <==> x in indeg && x !in todo && indeg[x] == 0
      invariant rank'.Keys == rank.Keys + (set x | x in q)
      invariant forall k :: k in rank' ==> rank'[k] == if k in rank then rank[k] else NegInf
      decreases todo
    {
      var k :| k in todo;
      if indeg[k] == 0 {
        if k !in rank' {
          rank' := rank'[k := NegInf];
        }
        q := q + [k];
      }
      todo := todo - {k};
    }
  }

  /** The rank of a successor after a predecessor of rank curRank is
      visited: one more than curRank when curRank is not the sentinel and
      that is higher, else unchanged. */
  function Raise(prev: int, curRank: int): int
  {
    if curRank != NegInf && prev < curRank + 1 then curRank + 1 else prev
  }

  lemma SameUpdate(m: map<string, int>, k: string)
    requires k in m
    ensures m[k := m[k]] == m
  {
  }

  /** Every rank is the sentinel or at least -1. */
  ghost predicate RankRange(rank: map<string, int>)
  {
    forall k :: k in rank ==> rank[k] == NegInf || rank[k] >= -1
  }

  /** Same names as rank0, and no rank below its starting value. */
  ghost predicate Grown(rank0: map<string, int>, rank: map<string, int>)
  {
    rank.Keys == rank0.Keys && forall k {:trigger rank0[k]} :: k in rank0 ==> rank[k] >= rank0[k]
  }

  /** Each dequeued ranked name has raised every successor to at least one
      more than its own rank, except the successors of cur still in P. */
  ghost predicate Raised(edges: set<Edge>, rank: map<string, int>, done: set<string>, cur: string, P: seq<string>)
  {
    forall d, s :: d in done && (d, s) in edges && !(d == cur && s in P) && d in rank && s in rank && rank[d] != NegInf
      ==> rank[s] >= rank[d] + 1
  }

  /** Each rank is its starting value or one more than the rank of a
      dequeued ranked predecessor. */
  ghost predicate Witnessed(edges: set<Edge>, rank0: map<string, int>, rank: map<string, int>, done: set<string>)
  {
    forall s {:trigger rank0[s]} :: s in rank && s in rank0 ==>
      rank[s] == rank0[s] || exists d :: d in done && (d, s) in edges && d in rank && rank[d] != NegInf && rank[s] == rank[d] + 1
  }

  /** Each in-degree counts the predecessors not yet dequeued, plus one for
      a pending successor of the name being visited. */
  ghost predicate Counts(edges: set<Edge>, K: set<string>, indeg: map<string, int>, done: set<string>, P: seq<string>)
  {
    indeg.Keys == K && forall k {:trigger indeg[k]} :: k in K ==> indeg[k] == |Preds(edges, k) - done| + (if k in P then 1 else 0)
  }

  /** A name has been queued (and possibly dequeued) exactly when all its
      predecessors are dequeued and it is not a pending successor; the
      queue holds no name twice. */
  ghost predicate Queued(edges: set<Edge>, K: set<string>, q: seq<string>, done: set<string>, P: seq<string>)
  {
    && Distinct(q) && done <= K && (forall x :: x in q ==> x in K && x !in done)
    && forall k {:trigger Preds(edges, k)} :: k in K ==> ((k in done || k in q) <==> (Preds(edges, k) <= done && k !in P))
  }

  /** pos numbers the dequeued names in dequeue order; every predecessor of
      a dequeued name was dequeued before it. */
  ghost predicate Ordered(edges: set<Edge>, done: set<string>, pos: map<string, nat>)
  {
    && pos.Keys == done && (forall d :: d in done ==> pos[d] < |done|)
    && forall p, d :: d in done && (p, d) in edges ==> p in done && pos[p] < pos[d]
  }

  /** The traversal state, while visiting the successors P of cur (P empty
      between two dequeues). */
  ghost predicate KInv(edges: set<Edge>, K: set<string>, rank0: map<string, int>, rank: map<string, int>,
                       indeg: map<string, int>, q: seq<string>, done: set<string>, pos: map<string, nat>,
                       cur: string, P: seq<string>)
  {
    && Frame(edges, K, rank0) && RankState(edges, rank0, rank, done, cur, P)
    && Counts(edges, K, indeg, done, P) && Queued(edges, K, q, done, P) && Ordered(edges, done, pos)
    && Pending(edges, done, cur, P)
  }

  /** Every edge joins two distinct names of K, and K has starting ranks. */
  ghost predicate Frame(edges: set<Edge>, K: set<string>, rank0: map<string, int>)
  {
    (forall e :: e in edges ==> e.0 in K && e.1 in K && e.0 != e.1) && K <= rank0.Keys
  }

  ghost predicate RankState(edges: set<Edge>, rank0: map<string, int>, rank: map<string, int>, done: set<string>,
                            cur: string, P: seq<string>)
  {
    RankRange(rank) && Grown(rank0, rank) && Raised(edges, rank, done, cur, P) && Witnessed(edges, rank0, rank, done)
  }

  /** P lists, once each, successors of the dequeued name cur. */
  ghost predicate Pending(edges: set<Edge>, done: set<string>, cur: string, P: seq<string>)
  {
    Distinct(P) && (P != [] ==> cur in done) && forall s :: s in P ==> (cur, s) in edges
  }

  lemma DistinctTail(P: seq<string>)
    requires Distinct(P) && P != []
    ensures Distinct(P[1..]) && P[0] !in P[1..]
    ensures forall k :: k in P <==> k == P[0] || k in P[1..]
  {
    forall i, j | 0 <= i < j < |P[1..]|
      ensures P[1..][i] != P[1..][j]
    {
      assert P[1..][i] == P[i + 1] && P[1..][j] == P[j + 1];
    }
  }

  lemma PredsDone(edges: set<Edge>, k: string, done: set<string>, cur: string)
    requires cur !in done
    ensures |Preds(edges, k) - done| == |Preds(edges, k) - (done + {cur})| + (if (cur, k) in edges then 1 else 0)
  {
    if (cur, k) in edges {
      assert Preds(edges, k) - done == (Preds(edges, k) - (done + {cur})) + {cur};
    } else {
      assert Preds(edges, k) - done == Preds(edges, k) - (done + {cur});
    }
  }

  lemma DequeueCounts(edges: set<Edge>, K: set<string>, indeg: map<string, int>, done: set<string>,
                      cur: string, succ: seq<string>)
    requires Counts(edges, K, indeg, done, []) && cur !in done
    requires forall s :: s in succ <==> (cur, s) in edges
    ensures Counts(edges, K, indeg, done + {cur}, succ)
  {
    forall k | k in K
      ensures indeg[k] == |Preds(edges, k) - (done + {cur})| + (if k in succ then 1 else 0)
    {
      PredsDone(edges, k, done, cur);
    }
  }

  lemma DequeueQueued(edges: set<Edge>, K: set<string>, q: seq<string>, done: set<string>, succ: seq<string>)
    requires Queued(edges, K, q, done, []) && q != []
    requires forall s :: s in succ <==> (q[0], s) in edges
    ensures Queued(edges, K, q[1..], done + {q[0]}, succ)
  {
    var cur, done' := q[0], done + {q[0]};
    forall k | k in K
      ensures (k in done' || k in q[1..]) <==> (Preds(edges, k) <= done' && k !in succ)
    {
      assert k in q <==> k == cur || k in q[1..];
      if k in succ {
        assert cur in Preds(edges, k);
      }
    }
  }

  lemma DequeueOrdered(edges: set<Edge>, done: set<string>, pos: map<string, nat>, cur: string)
    requires Ordered(edges, done, pos) && cur !in done && Preds(edges, cur) <= done
    ensures Ordered(edges, done + {cur}, pos[cur := |done|])
  {
  }

  lemma DequeueRanks(edges: set<Edge>, rank0: map<string, int>, rank: map<string, int>, done: set<string>,
                     c: string, cur: string, succ: seq<string>)
    requires Raised(edges, rank, done, c, []) && Witnessed(edges, rank0, rank, done)
    requires forall s :: (cur, s) in edges ==> s in succ
    ensures Raised(edges, rank, done + {cur}, cur, succ) && Witnessed(edges, rank0, rank, done + {cur})
  {
  }

  /** Dequeuing the front name: it joins the dequeued names with the next
      position, and all its successors become pending. */
  lemma DequeueStep(edges: set<Edge>, K: set<string>, rank0: map<string, int>, rank: map<string, int>,
                    indeg: map<string, int>, q: seq<string>, done: set<string>, pos: map<string, nat>,
                    c: string, succ: seq<string>)
    requires KInv(edges, K, rank0, rank, indeg, q, done, pos, c, []) && q != []
    requires Distinct(succ) && forall s :: s in succ <==> (q[0], s) in edges
    ensures q[0] in K && q[0] !in done && q[0] in rank
    ensures KInv(edges, K, rank0, rank, indeg, q[1..], done + {q[0]}, pos[q[0] := |done|], q[0], succ)
  {
    var cur := q[0];
    assert cur in K && cur !in done;
    DequeueCounts(edges, K, indeg, done, cur, succ);
    DequeueQueued(edges, K, q, done, succ);
    assert Preds(edges, cur) <= done;
    DequeueOrdered(edges, done, pos, cur);
    DequeueRanks(edges, rank0, rank, done, c, cur, succ);
  }

  lemma VisitCounts(edges: set<Edge>, K: set<string>, indeg: map<string, int>, done: set<string>,
                    P: seq<string>, indeg': map<string, int>)
    requires Counts(edges, K, indeg, done, P) && P != [] && P[0] in K && Distinct(P)
    requires indeg' == indeg[P[0] := indeg[P[0]] - 1]
    ensures Counts(edges, K, indeg', done, P[1..])
  {
    assert forall k :: k in P <==> k == P[0] || k in P[1..];
    assert P[0] !in P[1..];
  }

  lemma VisitQueued(edges: set<Edge>, K: set<string>, q: seq<string>, done: set<string>,
                    P: seq<string>, q': seq<string>, zero: bool)
    requires Queued(edges, K, q, done, P) && P != [] && P[0] in K && Distinct(P)
    requires zero <==> Preds(edges, P[0]) <= done
    requires q' == if zero then q + [P[0]] else q
    ensures Queued(edges, K, q', done, P[1..])
  {
    assert forall k :: k in P <==> k == P[0] || k in P[1..];
    assert P[0] !in P[1..];
  }

  lemma VisitRaised(edges: set<Edge>, rank: map<string, int>, done: set<string>,
                    cur: string, P: seq<string>, rank': map<string, int>)
    requires Raised(edges, rank, done, cur, P)
    requires P != [] && Distinct(P) && P[0] !in done && cur in rank && P[0] in rank
    requires rank' == rank[P[0] := Raise(rank[P[0]], rank[cur])]
    ensures Raised(edges, rank', done, cur, P[1..])
  {
    var nxt := P[0];
    assert nxt !in P[1..];
    forall d, s | d in done && (d, s) in edges && !(d == cur && s in P[1..]) && d in rank' && s in rank' && rank'[d] != NegInf
      ensures rank'[s] >= rank'[d] + 1
    {
      assert rank'[d] == rank[d];
      if !(d == cur && s == nxt) {
        assert s in P <==> s == nxt || s in P[1..];
      }
    }
  }

  lemma VisitWitnessed(edges: set<Edge>, rank0: map<string, int>, rank: map<string, int>, done: set<string>,
                       cur: string, nxt: string, rank': map<string, int>)
    requires Witnessed(edges, rank0, rank, done)
    requires cur in done && (cur, nxt) in edges && nxt !in done && cur in rank && nxt in rank && cur != nxt
    requires rank' == rank[nxt := Raise(rank[nxt], rank[cur])]
    ensures Witnessed(edges, rank0, rank', done)
  {
    forall s | s in rank' && s in rank0
      ensures rank'[s] == rank0[s] || exists d :: d in done && (d, s) in edges && d in rank' && rank'[d] != NegInf && rank'[s] == rank'[d] + 1
    {
      if s == nxt && rank' != rank {
        assert rank'[cur] == rank[cur];
      } else if rank[s] != rank0[s] {
        var d :| d in done && (d, s) in edges && d in rank && rank[d] != NegInf && rank[s] == rank[d] + 1;
        assert d != nxt;
      }
    }
  }

  lemma VisitRange(rank0: map<string, int>, rank: map<string, int>, cur: string, nxt: string, rank': map<string, int>)
    requires RankRange(rank) && Grown(rank0, rank) && cur in rank && nxt in rank
    requires rank' == rank[nxt := Raise(rank[nxt], rank[cur])]
    ensures RankRange(rank') && Grown(rank0, rank')
  {
  }

  /** Visiting the next pending successor nxt of cur: its rank is raised to
      cur's rank plus one when cur is ranked and that is higher, its
      in-degree drops, and it is queued when that reaches 0. */
  lemma VisitTables(edges: set<Edge>, K: set<string>, indeg: map<string, int>, q: seq<string>, done: set<string>,
                    cur: string, P: seq<string>, nxt: string, indeg': map<string, int>, q': seq<string>)
    requires Counts(edges, K, indeg, done, P) && Queued(edges, K, q, done, P) && Pending(edges, done, cur, P)
    requires P != [] && P[0] == nxt && nxt in K
    requires indeg' == indeg[nxt := indeg[nxt] - 1]
    requires q' == if indeg'[nxt] == 0 then q + [nxt] else q
    ensures nxt !in done
    ensures Counts(edges, K, indeg', done, P[1..]) && Queued(edges, K, q', done, P[1..])
  {
    assert nxt !in done by {
      assert !(Preds(edges, nxt) <= done && nxt !in P);
    }
    VisitCounts(edges, K, indeg, done, P, indeg');
    assert indeg'[nxt] == |Preds(edges, nxt) - done|;
    assert indeg'[nxt] == 0 <==> Preds(edges, nxt) <= done by {
      if Preds(edges, nxt) <= done {
        assert Preds(edges, nxt) - done == {};
      } else {
        var p :| p in Preds(edges, nxt) && p !in done;
        assert p in Preds(edges, nxt) - done;
      }
    }
    VisitQueued(edges, K, q, done, P, q', indeg'[nxt] == 0);
  }

  lemma PendingTail(edges: set<Edge>, done: set<string>, cur: string, P: seq<string>)
    requires Pending(edges, done, cur, P) && P != []
    ensures Pending(edges, done, cur, P[1..]) && (cur, P[0]) in edges && cur in done
  {
    DistinctTail(P);
  }

  /** Visiting the next pending successor nxt of cur: its rank is raised to
      cur's rank plus one when cur is ranked and that is higher, its
      in-degree drops, and it is queued when that reaches 0. */
  lemma VisitStep(edges: set<Edge>, K: set<string>, rank0: map<string, int>, rank: map<string, int>,
                  indeg: map<string, int>, q: seq<string>, done: set<string>, pos: map<string, nat>,
                  cur: string, P: seq<string>, nxt: string, curRank: int,
                  rank': map<string, int>, indeg': map<string, int>, q': seq<string>)
    requires KInv(edges, K, rank0, rank, indeg, q, done, pos, cur, P) && P != [] && P[0] == nxt
    requires cur in rank && nxt in rank && nxt in indeg && rank[cur] == curRank
    requires rank' == rank[nxt := Raise(rank[nxt], curRank)]
    requires indeg' == indeg[nxt := indeg[nxt] - 1]
    requires q' == if indeg'[nxt] == 0 then q + [nxt] else q
    ensures KInv(edges, K, rank0, rank', indeg', q', done, pos, cur, P[1..])
  {
    PendingTail(edges, done, cur, P);
    assert nxt in K;
    VisitTables(edges, K, indeg, q, done, cur, P, nxt, indeg', q');
    VisitRaised(edges, rank, done, cur, P, rank');
    VisitWitnessed(edges, rank0, rank, done, cur, nxt, rank');
    VisitRange(rank0, rank, cur, nxt, rank');
  }


  /** What the traversal leaves behind: ranks only grew, each dequeued
      ranked name raised its successors, each rank is its start or is
      explained by a dequeued predecessor, exactly the names whose
      predecessors were all dequeued were dequeued, and the dequeue order
      respects the edges. */
  ghost predicate Ranked(edges: set<Edge>, rank0: map<string, int>, rank: map<string, int>,
                         done: set<string>, pos: map<string, nat>)
  {
    && (forall e :: e in edges ==> e.0 in rank && e.1 in rank && e.0 != e.1)
    && RankRange(rank) && Grown(rank0, rank) && done <= rank.Keys
    && Raised(edges, rank, done, "", []) && Witnessed(edges, rank0, rank, done)
    && (forall k {:trigger Preds(edges, k)} :: k in rank ==> (k in done <==> Preds(edges, k) <= done))
    && Ordered(edges, done, pos)
  }

  lemma VisitPre(edges: set<Edge>, K: set<string>, rank0: map<string, int>, rank: map<string, int>,
                 indeg: map<string, int>, q: seq<string>, done: set<string>, pos: map<string, nat>,
                 cur: string, P: seq<string>)
    requires KInv(edges, K, rank0, rank, indeg, q, done, pos, cur, P) && P != [] && cur in K
    ensures cur in rank && P[0] in rank && P[0] in indeg && P[0] != cur
  {
    assert (cur, P[0]) in edges;
  }

  lemma KInvStart(edges: set<Edge>, adj: map<string, seq<string>>, indeg0: map<string, int>,
                  rank0: map<string, int>, q0: seq<string>)
    requires GraphInv(edges, adj, indeg0) && indeg0.Keys == rank0.Keys && RankRange(rank0)
    requires Distinct(q0) && forall x :: x in q0 <==> x in indeg0 && indeg0[x] == 0
    ensures KInv(edges, indeg0.Keys, rank0, rank0, indeg0, q0, {}, map[], "", [])
  {
    forall k | k in indeg0
      ensures indeg0[k] == |Preds(edges, k) - {}|
    {
      assert Preds(edges, k) - {} == Preds(edges, k);
    }
    forall k | k in indeg0
      ensures k in q0 <==> Preds(edges, k) <= {}
    {
      if Preds(edges, k) != {} {
        var p :| p in Preds(edges, k);
      }
    }
  }

  lemma KInvDone(edges: set<Edge>, K: set<string>, rank0: map<string, int>, rank: map<string, int>,
                 indeg: map<string, int>, done: set<string>, pos: map<string, nat>, cur: string)
    requires KInv(edges, K, rank0, rank, indeg, [], done, pos, cur, []) && K == rank0.Keys
    ensures Ranked(edges, rank0, rank, done, pos) && |done| <= |K|
  {
    assert done <= K;
    SubsetCard(done, K);
  }

  /**
   * Visits the first pending successor nxt of cur: its rank becomes at least one above
   * the rank of cur (an unreachable cur raises nothing), its count of unprocessed
   * predecessors drops by one, and it joins the queue when that count reaches zero.
   */
  method Relax(ghost edges: set<Edge>, ghost K: set<string>, ghost rank0: map<string, int>,
               rank: map<string, int>, indeg: map<string, int>, q: seq<string>,
               ghost done: set<string>, ghost pos: map<string, nat>, cur: string, P: seq<string>)
    returns (rank': map<string, int>, indeg': map<string, int>, q': seq<string>)
    requires KInv(edges, K, rank0, rank, indeg, q, done, pos, cur, P) && cur in K && cur in rank && P != []
    ensures KInv(edges, K, rank0, rank', indeg', q', done, pos, cur, P[1..]) && rank'[cur] == rank[cur]
  {
    var nxt := P[0];
    var curRank := rank[cur];
    VisitPre(edges, K, rank0, rank, indeg, q, done, pos, cur, P);
    if curRank != NegInf && rank[nxt] < curRank + 1 {
      rank' := rank[nxt := curRank + 1];
      assert Raise(rank[nxt], curRank) == curRank + 1;
    } else {
      rank' := rank;
      SameUpdate(rank, nxt);
      assert Raise(rank[nxt], curRank) == rank[nxt];
    }
    indeg' := indeg[nxt := indeg[nxt] - 1];
    if indeg'[nxt] == 0 {
      q' := q + [nxt];
    } else {
      q' := q;
    }
    VisitStep(edges, K, rank0, rank, indeg, q, done, pos, cur, P, nxt, curRank, rank', indeg', q');
  }

  /** The inner loop of the traversal: visits every successor of cur in adjacency order. */
  method VisitSuccessors(ghost edges: set<Edge>, ghost K: set<string>, ghost rank0: map<string, int>,
                         rank: map<string, int>, indeg: map<string, int>, q: seq<string>,
                         ghost done: set<string>, ghost pos: map<string, nat>, cur: string, succ: seq<string>)
    returns (rank': map<string, int>, indeg': map<string, int>, q': seq<string>)
    requires KInv(edges, K, rank0, rank, indeg, q, done, pos, cur, succ) && cur in K && cur in rank
    ensures KInv(edges, K, rank0, rank', indeg', q', done, pos, cur, [])
  {
    rank', indeg', q' := rank, indeg, q;
    var rest := succ;
    while rest != []
      invariant KInv(edges, K, rank0, rank', indeg', q', done, pos, cur, rest) && rank'[cur] == rank[cur]
      decreases |rest|
    {
      rank', indeg', q' := Relax(edges, K, rank0, rank', indeg', q', done, pos, cur, rest);
      rest := rest[1..];
    }
  }

  /** Removing one more name from the pending set shrinks it, so the work loop ends. */
  lemma Shrink(K: set<string>, done: set<string>, c: string)
    requires c in K && c !in done
    ensures |K - (done + {c})| < |K - done|
  {
    assert K - done == (K - (done + {c})) + {c};
  }

  /** One round of the work loop: dequeue the head of the queue and visit its successors. */
  method Dequeue(ghost edges: set<Edge>, adj: map<string, seq<string>>, ghost K: set<string>,
                 ghost rank0: map<string, int>, rank: map<string, int>, indeg: map<string, int>, q: seq<string>,
                 ghost done: set<string>, ghost pos: map<string, nat>, ghost cur: string)
    returns (c: string, rank': map<string, int>, indeg': map<string, int>, q': seq<string>,
             ghost done': set<string>, ghost pos': map<string, nat>)
    requires forall d :: d in adj ==> Distinct(adj[d]) && forall s :: s in adj[d] <==> (d, s) in edges
    requires forall e :: e in edges ==> e.0 in adj
    requires KInv(edges, K, rank0, rank, indeg, q, done, pos, cur, []) && q != []
    ensures c == q[0] && c in K && c !in done && done' == done + {c}
    ensures KInv(edges, K, rank0, rank', indeg', q', done', pos', c, [])
  {
    c := q[0];
    var succ := if c in adj then adj[c] else [];
    assert forall s :: s in succ <==> (c, s) in edges;
    DequeueStep(edges, K, rank0, rank, indeg, q, done, pos, cur, succ);
    done', pos' := done + {c}, pos[c := |done|];
    rank', indeg', q' := VisitSuccessors(edges, K, rank0, rank, indeg, q[1..], done', pos', c, succ);
  }

  /**
   * The work loop of Kahn's traversal: pop a ready instance, raise the rank of each
   * successor to one above the popped rank, and enqueue every successor whose count
   * of unprocessed predecessors reaches zero.
   */
  method Propagate(edges: set<Edge>, adj: map<string, seq<string>>, indeg0: map<string, int>,
                   rank0: map<string, int>, q0: seq<string>)
    returns (rank: map<string, int>, indeg: map<string, int>, ghost done: set<string>, ghost pos: map<string, nat>,
             ghost steps: nat)
    requires GraphInv(edges, adj, indeg0) && indeg0.Keys == rank0.Keys && RankRange(rank0)
    requires Distinct(q0) && forall x :: x in q0 <==> x in indeg0 && indeg0[x] == 0
    ensures Ranked(edges, rank0, rank, done, pos)
    ensures steps == |done| <= |rank0.Keys|
  {
    ghost var K := indeg0.Keys;
    rank, indeg := rank0, indeg0;
    var q := q0;
    done, pos, steps := {}, map[], 0;
    ghost var cur: string := "";
    KInvStart(edges, adj, indeg0, rank0, q0);
    while q != []
      invariant KInv(edges, K, rank0, rank, indeg, q, done, pos, cur, []) && steps == |done|
      decreases |K - done|
    {
      ghost var done0 := done;
      var c;
      c, rank, indeg, q, done, pos := Dequeue(edges, adj, K, rank0, rank, indeg, q, done, pos, cur);
      Shrink(K, done0, c);
      steps, cur := steps + 1, c;
    }
    KInvDone(edges, K, rank0, rank, indeg, done, pos, cur);
  }

  // ---------------------------------------------------------------------
  // What the ranks mean
  // ---------------------------------------------------------------------

  /** c is a walk along the edges. */
  ghost predicate IsPath(edges: set<Edge>, c: seq<string>)
  {
    |c| >= 1 && forall i :: 0 <= i < |c| - 1 ==> (c[i], c[i + 1]) in edges
  }

  /** Only the source starts with a rank other than the sentinel, and it starts at -1. */
  ghost predicate SourceOnly(rank0: map<string, int>)
  {
    TopSrc in rank0 && rank0[TopSrc] == -1 && forall k :: k in rank0 && k != TopSrc ==> rank0[k] == NegInf
  }

  /** Along a walk that ends at a dequeued name, every name was dequeued, and earlier. */
  lemma {:induction false} PathDone(edges: set<Edge>, done: set<string>, pos: map<string, nat>, c: seq<string>)
    requires Ordered(edges, done, pos) && IsPath(edges, c) && c[|c| - 1] in done
    ensures c[0] in done && pos[c[0]] + |c| - 1 <= pos[c[|c| - 1]]
  {
    if |c| > 1 {
      var t := c[1..];
      assert forall i :: 0 <= i < |t| ==> t[i] == c[i + 1];
      PathDone(edges, done, pos, t);
      assert (c[0], t[0]) in edges;
    }
  }

  /** No name on a cycle is ever dequeued: the traversal reports no error for
      a cyclic netlist, it silently stops short of the cycle. */
  lemma CycleNeverDone(edges: set<Edge>, rank0: map<string, int>, rank: map<string, int>,
                       done: set<string>, pos: map<string, nat>, c: seq<string>)
    requires Ranked(edges, rank0, rank, done, pos)
    requires IsPath(edges, c) && (c[|c| - 1], c[0]) in edges
    ensures forall i :: 0 <= i < |c| ==> c[i] !in done
  {
    forall i | 0 <= i < |c|
      ensures c[i] !in done
    {
      if c[i] in done {
        var pre := c[..i + 1];
        assert forall j :: 0 <= j < |pre| ==> pre[j] == c[j];
        PathDone(edges, done, pos, pre);
        assert c[|c| - 1] in done;
        PathDone(edges, done, pos, c);
        assert false;
      }
    }
  }

  /** With a layering h that strictly increases along every edge (so no
      cycle), the name k is dequeued. */
  lemma {:induction false} LayeredDone(edges: set<Edge>, rank0: map<string, int>, rank: map<string, int>,
                                       done: set<string>, pos: map<string, nat>, h: map<string, nat>, k: string)
    requires Ranked(edges, rank0, rank, done, pos)
    requires rank.Keys <= h.Keys && forall e :: e in edges ==> e.0 in h && e.1 in h && h[e.0] < h[e.1]
    requires k in rank
    ensures k in done
    decreases h[k]
  {
    forall p | p in Preds(edges, k)
      ensures p in done
    {
      assert (p, k) in edges;
      LayeredDone(edges, rank0, rank, done, pos, h, p);
    }
  }

  /** On an acyclic graph the traversal dequeues every name. */
  lemma AcyclicAllDone(edges: set<Edge>, rank0: map<string, int>, rank: map<string, int>,
                       done: set<string>, pos: map<string, nat>, h: map<string, nat>)
    requires Ranked(edges, rank0, rank, done, pos)
    requires rank.Keys <= h.Keys && forall e :: e in edges ==> e.0 in h && e.1 in h && h[e.0] < h[e.1]
    ensures done == rank.Keys
  {
    forall k | k in rank
      ensures k in done
    {
      LayeredDone(edges, rank0, rank, done, pos, h, k);
    }
  }

  /** A walk from a ranked name through dequeued names raises each step by at
      least one: rank is at least the walk's length. */
  lemma {:induction false} RankLowerBound(edges: set<Edge>, rank0: map<string, int>, rank: map<string, int>,
                                          done: set<string>, pos: map<string, nat>, c: seq<string>)
    requires Ranked(edges, rank0, rank, done, pos)
    requires IsPath(edges, c) && c[0] in rank && rank[c[0]] >= -1
    requires forall i :: 0 <= i < |c| - 1 ==> c[i] in done
    ensures c[|c| - 1] in rank && rank[c[|c| - 1]] >= rank[c[0]] + |c| - 1
  {
    if |c| > 1 {
      var pre := c[..|c| - 1];
      assert forall j :: 0 <= j < |pre| ==> pre[j] == c[j];
      RankLowerBound(edges, rank0, rank, done, pos, pre);
      var d, s := c[|c| - 2], c[|c| - 1];
      assert (d, s) in edges && d in done;
    }
  }

  /** Every name holding a real rank r is the end of a walk from the source
      with r + 1 edges whose names before the last were all dequeued. */
  lemma {:induction false} RankPath(edges: set<Edge>, rank0: map<string, int>, rank: map<string, int>,
                                    done: set<string>, k: string)
    returns (c: seq<string>)
    requires RankRange(rank) && Grown(rank0, rank) && Witnessed(edges, rank0, rank, done) && SourceOnly(rank0)
    requires k in rank && rank[k] != NegInf
    ensures IsPath(edges, c) && c[0] == TopSrc && c[|c| - 1] == k && |c| == rank[k] + 2
    ensures forall i :: 0 <= i < |c| - 1 ==> c[i] in done
    decreases rank[k] + 1
  {
    assert k in rank0 && rank[k] >= -1;
    if rank[k] == rank0[k] {
      c := [k];
    } else {
      var d :| d in done && (d, k) in edges && d in rank && rank[d] != NegInf && rank[k] == rank[d] + 1;
      var pre := RankPath(edges, rank0, rank, done, d);
      c := pre + [k];
      assert pre[|pre| - 1] == d;
      forall i | 0 <= i < |c| - 1
        ensures (c[i], c[i + 1]) in edges && c[i] in done
      {
        if i < |pre| - 1 {
          assert c[i] == pre[i] && c[i + 1] == pre[i + 1];
        } else {
          assert c[i] == d && c[i + 1] == k;
        }
      }
    }
  }

  /**
   * On an acyclic graph, when only the source starts ranked, the traversal
   * computes longest paths: a name keeps the sentinel exactly when no walk
   * from the source reaches it, and otherwise its rank is one less than the
   * number of edges of the longest walk from the source.
   */
  lemma LongestPath(edges: set<Edge>, rank0: map<string, int>, rank: map<string, int>,
                    done: set<string>, pos: map<string, nat>, h: map<string, nat>, k: string)
    requires Ranked(edges, rank0, rank, done, pos) && SourceOnly(rank0)
    requires rank.Keys <= h.Keys && forall e :: e in edges ==> e.0 in h && e.1 in h && h[e.0] < h[e.1]
    requires k in rank
    ensures rank[k] == NegInf <==> !exists c :: IsPath(edges, c) && c[0] == TopSrc && c[|c| - 1] == k
    ensures forall c :: IsPath(edges, c) && c[0] == TopSrc && c[|c| - 1] == k ==> |c| <= rank[k] + 2
    ensures rank[k] != NegInf ==> exists c :: IsPath(edges, c) && c[0] == TopSrc && c[|c| - 1] == k && |c| == rank[k] + 2
  {
    AcyclicAllDone(edges, rank0, rank, done, pos, h);
    forall c | IsPath(edges, c) && c[0] == TopSrc && c[|c| - 1] == k
      ensures rank[k] >= |c| - 2
    {
      assert TopSrc in rank0 && rank[TopSrc] >= -1;
      assert forall i :: 0 <= i < |c| - 1 ==> c[i] in rank by {
        forall i | 0 <= i < |c| - 1 ensures c[i] in rank { assert (c[i], c[i + 1]) in edges; }
      }
      RankLowerBound(edges, rank0, rank, done, pos, c);
    }
    if rank[k] != NegInf {
      var c := RankPath(edges, rank0, rank, done, k);
    }
  }
}
