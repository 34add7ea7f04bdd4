/** The statistics report of the folded top cell of a design: how many of
    its nodes are not global, how many instances it has, and the fixed
    answers of the sections the program leaves at their initial values. */
module Stats {
  import opened Netlist

  /** The figures written to the statistics file, one per section: a (non-global
      nodes), b (instances), c and d (instances of a cell, folded and flat), e
      (deepest reach) and f (hierarchical names of the deepest nodes). */
  datatype Report = Report(a: int, b: int, c: int, d: int, e: int, f: seq<string>)

  /** Counts, in map order, the node names that are not global. */
  method CountNonGlobal(nodes: set<string>) returns (n: int)
    ensures n == |nodes - Globals|
  {
    n := 0;
    var todo := nodes;
    ghost var seen: set<string> := {};
    while todo != {}
      invariant seen + todo == nodes && seen !! todo
      invariant n == |seen - Globals|
      decreases todo
    {
      var k :| k in todo;
      CountStep(seen, k);
      if k !in Globals {
        n := n + 1;
      }
      seen, todo := seen + {k}, todo - {k};
    }
  }

  lemma CountStep(seen: set<string>, k: string)
    requires k !in seen
    ensures |(seen + {k}) - Globals| == |seen - Globals| + (if k in Globals then 0 else 1)
  {
    if k in Globals {
      assert (seen + {k}) - Globals == seen - Globals;
    } else {
      assert (seen + {k}) - Globals == (seen - Globals) + {k};
    }
  }

  /** The non-global count is the node count less the global nodes present:
      it never exceeds the node count, falls short of it by at most two, and
      equals it exactly when neither global node is present. */
  lemma NonGlobalBounds(nodes: set<string>)
    ensures |nodes - Globals| == |nodes| - |nodes * Globals|
    ensures |nodes| - 2 <= |nodes - Globals| <= |nodes|
    ensures |nodes - Globals| == |nodes| <==> nodes * Globals == {}
  {
    assert nodes == (nodes - Globals) + (nodes * Globals);
    assert nodes * Globals <= Globals;
    assert |Globals| == 2;
    SubsetCard(nodes * Globals, Globals);
  }

  /** Drops the leading character of a hierarchical name (the '/' the name
      starts with); an empty name stays empty. */
  function TrimLead(s: string): (r: string)
    ensures |s| > 0 ==> [s[0]] + r == s
    ensures |s| == 0 ==> r == []
  {
    if |s| == 0 then s else s[1..]
  }

  /** Trims every name of the list, in list order. */
  method TrimNames(names: seq<string>) returns (out: seq<string>)
    ensures |out| == |names|
    ensures forall i :: 0 <= i < |names| && |names[i]| > 0 ==> [names[i][0]] + out[i] == names[i]
    ensures forall i :: 0 <= i < |names| && |names[i]| == 0 ==> out[i] == []
  {
    out := [];
    for i := 0 to |names|
      invariant |out| == i
      invariant forall k :: 0 <= k < i ==> out[k] == TrimLead(names[k])
    {
      out := out + [TrimLead(names[i])];
    }
  }

  /** A name that starts with '/' is printed without it, and printing it back
      with the '/' restores it. */
  lemma TrimSlash(s: string)
    requires |s| > 0 && s[0] == '/'
    ensures "/" + TrimLead(s) == s && |TrimLead(s)| == |s| - 1
  {
  }

  /**
   * The statistics of the (unflattened) top cell: a counts its non-global
   * nodes, b its instances; c, d and e keep their initial values 0, 0 and
   * 1, and the list of deepest-reaching names stays empty, so section f
   * prints nothing.
   */
  method TopStats(top: Cell) returns (r: Report)
    ensures r.a == |top.nodes.Keys - Globals| && r.b == |top.insts|
    ensures r.c == 0 && r.d == 0 && r.e == 1 && r.f == []
  {
    var a := CountNonGlobal(top.nodes.Keys);
    var b := |top.insts|;
    var deepest: seq<string> := [];
    var f := TrimNames(deepest);
    r := Report(a, b, 0, 0, 1, f);
  }
}
