/** The logic-depth report of a flat cell: the ranking pipeline end to end,
    the collection of the ranked instances, and the sort of the
    (rank, name) entries. */
module RankReport {
  import opened Netlist
  import opened Rank
  import opened Order

  /** The entry (r, k) belongs in the report when k is an instance with a
      non-negative rank r (the synthetic source never does). */
  ghost predicate Reported(rank: map<string, int>, p: Entry)
  {
    p.1 in rank && rank[p.1] == p.0 && p.0 >= 0 && p.1 != TopSrc
  }

  /** Gathers, in map order, the entries of the names whose rank is at least
      zero, leaving out the source. */
  method CollectRanked(rank: map<string, int>) returns (v: seq<Entry>)
    ensures forall p :: p in v <==> Reported(rank, p)
    ensures forall i, j :: 0 <= i < j < |v| ==> v[i] != v[j] && v[i].1 != v[j].1
  {
    v := [];
    var todo := rank.Keys;
    while todo != {}
      invariant todo <= rank.Keys
      invariant forall p :: p in v <==> Reported(rank, p) && p.1 !in todo
      invariant forall i, j :: 0 <= i < j < |v| ==> v[i].1 != v[j].1
      decreases todo
    {
      var k :| k in todo;
      if rank[k] >= 0 && k != TopSrc {
        v := v + [(rank[k], k)];
      }
      todo := todo - {k};
    }
  }

  /** The prefix s[..i + 1] is ordered except that s[j] may come before a
      larger neighbour on its left; the neighbours of j are ordered with each
      other. */
  ghost predicate Hole(s: seq<Entry>, i: int, j: int)
  {
    && 0 <= j <= i < |s|
    && (forall k :: 0 < k <= i && k != j ==> PairLe(s[k - 1], s[k]))
    && (0 < j < i ==> PairLe(s[j - 1], s[j + 1]))
  }

  /** Swapping s[j] with its larger left neighbour moves the hole one step left. */
  lemma HoleSwap(s: seq<Entry>, i: int, j: int)
    requires Hole(s, i, j) && j > 0 && PairLess(s[j], s[j - 1])
    ensures Hole(s[j - 1 := s[j]][j := s[j - 1]], i, j - 1)
  {
    PairTotal(s[j], s[j - 1]);
  }

  /** Once s[j] is not smaller than its left neighbour, the prefix is ordered. */
  lemma HoleClosed(s: seq<Entry>, i: int, j: int)
    requires Hole(s, i, j) && (j == 0 || !PairLess(s[j], s[j - 1]))
    ensures AdjacentSorted(s[..i + 1])
  {
  }

  /** Moves a[i] down past every larger entry, so that a[..i + 1] becomes
      ordered when a[..i] was; the entries after i stay in place. */
  method InsertNext(a: array<Entry>, i: int)
    requires 0 < i < a.Length && AdjacentSorted(a[..i])
    modifies a
    ensures AdjacentSorted(a[..i + 1]) && a[i + 1..] == old(a[i + 1..])
    ensures multiset(a[..]) == multiset(old(a[..]))
  {
    var j := i;
    while j > 0 && PairLess(a[j], a[j - 1])
      invariant Hole(a[..], i, j)
      invariant forall k :: i < k < a.Length ==> a[k] == old(a[k])
      invariant multiset(a[..]) == multiset(old(a[..]))
      decreases j
    {
      HoleSwap(a[..], i, j);
      SwapDown(a, j);
      j := j - 1;
    }
    HoleClosed(a[..], i, j);
  }

  /** Exchanges a[j] with its left neighbour, keeping the same entries. */
  method SwapDown(a: array<Entry>, j: int)
    requires 0 < j < a.Length
    modifies a
    ensures a[..] == old(a[..])[j - 1 := old(a[j])][j := old(a[j - 1])]
    ensures multiset(a[..]) == multiset(old(a[..]))
  {
    a[j - 1], a[j] := a[j], a[j - 1];
  }

  /** Sorts the entries in place by the report comparator (insertion sort
      by adjacent swaps). */
  method SortEntries(a: array<Entry>)
    modifies a
    ensures Sorted(a[..]) && multiset(a[..]) == multiset(old(a[..]))
  {
    if a.Length > 1 {
      for i := 1 to a.Length
        invariant AdjacentSorted(a[..i]) && multiset(a[..]) == multiset(old(a[..]))
      {
        InsertNext(a, i);
      }
      assert a[..a.Length] == a[..];
    }
    AdjacentSortedIsSorted(a[..]);
  }

  /** The sorted report holds each reported entry exactly once, in strictly
      increasing order. */
  method SortReport(v: seq<Entry>) returns (report: seq<Entry>)
    requires forall i, j :: 0 <= i < j < |v| ==> v[i] != v[j]
    ensures StrictlySorted(report) && forall p :: p in report <==> p in v
  {
    var a := new Entry[|v|](i requires 0 <= i < |v| => v[i]);
    assert a[..] == v;
    SortEntries(a);
    report := a[..];
    assert forall p :: p in report <==> p in v by {
      forall p ensures p in report <==> p in v {
        assert p in report <==> p in multiset(report);
        assert p in v <==> p in multiset(v);
      }
    }
    assert multiset(report) == multiset(v);
    forall i, j | 0 <= i < j < |report|
      ensures report[i] != report[j]
    {
      if report[i] == report[j] {
        var x := report[i];
        assert multiset(report)[x] >= 2 by {
          assert report == report[..i] + [x] + report[i + 1..j] + [x] + report[j + 1..];
        }
        DistinctOnce(v, x);
      }
    }
    SortedDistinctIsStrict(report);
  }

  /** A sequence without repetitions holds each entry at most once. */
  lemma {:induction false} DistinctOnce(v: seq<Entry>, x: Entry)
    requires forall i, j :: 0 <= i < j < |v| ==> v[i] != v[j]
    ensures multiset(v)[x] <= 1
  {
    if v != [] {
      var t := v[1..];
      assert v == [v[0]] + t;
      DistinctOnce(t, x);
      if v[0] == x {
        assert forall k :: 0 <= k < |t| ==> t[k] == v[k + 1];
        assert x !in t;
      }
    }
  }

  /** Under well-formedness the graph names no new node: the in-degree
      table keeps exactly the names the rank table starts with. */
  lemma NoNewNames(cell: Cell, rank0: map<string, int>, indeg0: map<string, int>, indeg: map<string, int>)
    requires WellFormed(cell) && rank0 == InitRank(cell.insts.Keys) && indeg0.Keys == cell.insts.Keys + {TopSrc}
    requires indeg0.Keys <= indeg.Keys && forall k :: k in indeg ==> k in indeg0 || Named(cell, k)
    ensures indeg.Keys == rank0.Keys
  {
  }

  /**
   * The ranking of a flat cell: every instance starts at the sentinel and
   * the source at -1, the driver-to-sink graph of the cell is built, and
   * Kahn's traversal propagates longest-path ranks along it.
   */
  method RankCell(cell: Cell)
    returns (edges: set<Edge>, rank: map<string, int>, ghost done: set<string>, ghost pos: map<string, nat>)
    requires WellFormed(cell)
    ensures forall d, s :: (d, s) in edges <==> Linked(cell, cell.nodes.Keys, d, s)
    ensures Ranked(edges, InitRank(cell.insts.Keys), rank, done, pos)
    ensures rank.Keys == cell.insts.Keys + {TopSrc}
  {
    var rank0, indeg0 := InitTables(cell.insts.Keys);
    var adj, indeg;
    edges, adj, indeg := BuildEdges(cell, indeg0);
    NoNewNames(cell, rank0, indeg0, indeg);
    var q, rank1 := SeedQueue(indeg, rank0);
    SeedKeepsRanks(indeg, rank0, rank1, q);
    var indeg';
    ghost var steps;
    rank, indeg', done, pos, steps := Propagate(edges, adj, indeg, rank1, q);
    assert Grown(rank0, rank);
  }

  /** Seeding the queue adds no rank entry when every in-degree name is
      already ranked. */
  lemma SeedKeepsRanks(indeg: map<string, int>, rank0: map<string, int>, rank1: map<string, int>, q: seq<string>)
    requires indeg.Keys == rank0.Keys && forall x :: x in q ==> x in indeg
    requires rank1.Keys == rank0.Keys + (set x | x in q)
    requires forall k :: k in rank1 ==> rank1[k] == if k in rank0 then rank0[k] else NegInf
    ensures rank1 == rank0
  {
    assert rank1.Keys == rank0.Keys;
  }

  /**
   * The report of a flat cell: every instance of non-negative rank with its
   * rank, sorted by rank and then by name. The extra results expose the
   * graph and the final ranks the report is read from.
   */
  method MaxRanks(cell: Cell)
    returns (report: seq<Entry>, edges: set<Edge>, rank: map<string, int>,
             ghost done: set<string>, ghost pos: map<string, nat>)
    requires WellFormed(cell)
    ensures forall d, s :: (d, s) in edges <==> Linked(cell, cell.nodes.Keys, d, s)
    ensures Ranked(edges, InitRank(cell.insts.Keys), rank, done, pos)
    ensures rank.Keys == cell.insts.Keys + {TopSrc}
    ensures forall p :: p in report <==> Reported(rank, p)
    ensures StrictlySorted(report)
  {
    edges, rank, done, pos := RankCell(cell);
    var v := CollectRanked(rank);
    report := SortReport(v);
  }

  /** Only the source starts ranked, so the longest-path lemmas of the
      traversal apply to the ranks MaxRanks reports. */
  lemma InitRankSourceOnly(insts: set<string>)
    ensures SourceOnly(InitRank(insts))
  {
  }

  /** The report is fully determined by the cell: any two runs (whatever
      the map order of their loops) produce the same report. */
  lemma ReportDeterminate(r1: seq<Entry>, r2: seq<Entry>, rank: map<string, int>)
    requires StrictlySorted(r1) && StrictlySorted(r2)
    requires forall p :: p in r1 <==> Reported(rank, p)
    requires forall p :: p in r2 <==> Reported(rank, p)
    ensures r1 == r2
  {
    StrictlySortedUnique(r1, r2);
  }
}
