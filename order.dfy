/** The orders the ranking report is sorted by: strings compared
    character by character (std::string's operator<), and (rank, name)
    pairs compared by rank first and name second. */
module Order {

  /** Lexicographic "less than" on strings: a proper prefix is smaller,
      otherwise the first differing character decides. */
  function StrLess(a: string, b: string): bool
  {
    if |b| == 0 then false
    else if |a| == 0 then true
    else if a[0] != b[0] then a[0] < b[0]
    else StrLess(a[1..], b[1..])
  }

  lemma {:induction false} StrLessIrreflexive(a: string)
    ensures !StrLess(a, a)
  {
    if |a| > 0 {
      StrLessIrreflexive(a[1..]);
    }
  }

  lemma {:induction false} StrLessTransitive(a: string, b: string, c: string)
    requires StrLess(a, b) && StrLess(b, c)
    ensures StrLess(a, c)
  {
    if |a| > 0 && a[0] == b[0] && b[0] == c[0] {
      StrLessTransitive(a[1..], b[1..], c[1..]);
    }
  }

  /** Any two different strings are ordered one way, and never both. */
  lemma {:induction false} StrLessTotal(a: string, b: string)
    ensures a != b <==> (StrLess(a, b) || StrLess(b, a))
    ensures !(StrLess(a, b) && StrLess(b, a))
  {
    if |a| > 0 && |b| > 0 && a[0] == b[0] {
      StrLessTotal(a[1..], b[1..]);
      if a[1..] == b[1..] {
        assert a == [a[0]] + a[1..] && b == [b[0]] + b[1..];
      }
    } else if |a| > 0 && |b| > 0 {
      assert a[0] != b[0];
    } else if a != b {
      assert |a| > 0 || |b| > 0;
    }
  }

  type Entry = (int, string)

  /** The report comparator: smaller rank first, then smaller name. */
  function PairLess(p: Entry, q: Entry): (r: bool)
    ensures r ==> p != q
  {
    StrLessIrreflexive(p.1);
    p.0 < q.0 || (p.0 == q.0 && StrLess(p.1, q.1))
  }

  /** q does not come before p. */
  predicate PairLe(p: Entry, q: Entry)
  {
    !PairLess(q, p)
  }

  /** The comparator is a strict total order: irreflexive (from its
      ensures), asymmetric, transitive, and relating any two different
      entries. */
  lemma PairTotal(p: Entry, q: Entry)
    ensures p != q <==> (PairLess(p, q) || PairLess(q, p))
    ensures !(PairLess(p, q) && PairLess(q, p))
  {
    StrLessTotal(p.1, q.1);
  }

  lemma PairTransitive(p: Entry, q: Entry, r: Entry)
    requires PairLess(p, q) && PairLess(q, r)
    ensures PairLess(p, r)
  {
    if p.0 == q.0 && q.0 == r.0 {
      StrLessTransitive(p.1, q.1, r.1);
    }
  }

  /** PairLe is transitive, so an adjacent-ordered sequence is ordered. */
  lemma PairLeTransitive(p: Entry, q: Entry, r: Entry)
    requires PairLe(p, q) && PairLe(q, r)
    ensures PairLe(p, r)
  {
    PairTotal(q, r);
    if PairLess(r, p) && q != r {
      PairTransitive(q, r, p);
    }
  }

  /** Each entry is not after the next one. */
  ghost predicate AdjacentSorted(s: seq<Entry>)
  {
    forall i :: 0 < i < |s| ==> PairLe(s[i - 1], s[i])
  }

  /** Each entry is not after any later one. */
  ghost predicate Sorted(s: seq<Entry>)
  {
    forall i, j :: 0 <= i < j < |s| ==> PairLe(s[i], s[j])
  }

  /** Each entry comes strictly before every later one. */
  ghost predicate StrictlySorted(s: seq<Entry>)
  {
    forall i, j :: 0 <= i < j < |s| ==> PairLess(s[i], s[j])
  }

  lemma {:induction false} AdjacentSortedIsSorted(s: seq<Entry>)
    requires AdjacentSorted(s)
    ensures Sorted(s)
  {
    if |s| > 1 {
      var t := s[..|s| - 1];
      assert forall i :: 0 <= i < |t| ==> t[i] == s[i];
      AdjacentSortedIsSorted(t);
      forall i | 0 <= i < |s| - 1
        ensures PairLe(s[i], s[|s| - 1])
      {
        if i < |s| - 2 {
          assert PairLe(t[i], t[|t| - 1]);
          PairLeTransitive(s[i], s[|s| - 2], s[|s| - 1]);
        }
      }
    }
  }

  /** A sorted sequence with no entry twice is strictly sorted. */
  lemma SortedDistinctIsStrict(s: seq<Entry>)
    requires Sorted(s) && forall i, j :: 0 <= i < j < |s| ==> s[i] != s[j]
    ensures StrictlySorted(s)
  {
    forall i, j | 0 <= i < j < |s|
      ensures PairLess(s[i], s[j])
    {
      PairTotal(s[i], s[j]);
    }
  }

  /** Two strictly sorted sequences holding the same entries are equal:
      the sorted report does not depend on the order the entries were
      collected in. */
  lemma {:induction false} StrictlySortedUnique(s: seq<Entry>, t: seq<Entry>)
    requires StrictlySorted(s) && StrictlySorted(t)
    requires forall x :: x in s <==> x in t
    ensures s == t
  {
    assert s != [] ==> s[0] in t;
    assert t != [] ==> t[0] in s;
    if s != [] && t != [] {
      // The head of each is the least entry of both.
      if s[0] != t[0] {
        var i :| 0 <= i < |s| && s[i] == t[0];
        var j :| 0 <= j < |t| && t[j] == s[0];
        assert i > 0 && j > 0;
        assert PairLess(s[0], t[0]) && PairLess(t[0], s[0]);
        PairTotal(s[0], t[0]);
      }
      var s', t' := s[1..], t[1..];
      forall x
        ensures x in s' <==> x in t'
      {
        if x in s' {
          var i :| 0 <= i < |s'| && s'[i] == x;
          assert x == s[i + 1] && PairLess(s[0], x);
          assert x != t[0];
          assert x in t;
        }
        if x in t' {
          var i :| 0 <= i < |t'| && t'[i] == x;
          assert x == t[i + 1] && PairLess(t[0], x);
          assert x != s[0];
          assert x in s;
        }
      }
      StrictlySortedUnique(s', t');
      assert s == [s[0]] + s' && t == [t[0]] + t';
    }
  }
}
