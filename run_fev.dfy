/** The test driver of the equivalence checker: it classifies the checker's
    output, reads the expected verdict from comment keywords in the test
    files (or a table), and collects the tests whose verdict differs. */
module RunFev {
  import opened Netlist

  const NotSat := "NOT SATISFIABLE!"
  const Sat := "SATISFIABLE!"
  const Error := "ERROR"
  const Unknown := "UNKNOWN"

  // ---------------------------------------------------------------------
  // Substring search (Python's `in` on strings)
  // ---------------------------------------------------------------------

  /** pat occurs in text at index i. */
  ghost predicate OccursAt(text: string, pat: string, i: int)
  {
    0 <= i && i + |pat| <= |text| && text[i..i + |pat|] == pat
  }

  /** pat occurs somewhere in text. */
  ghost predicate Occurs(text: string, pat: string)
  {
    exists i :: OccursAt(text, pat, i)
  }

  /** Scans text from the left for an occurrence of pat. */
  function Contains(text: string, pat: string): (r: bool)
    ensures r <==> Occurs(text, pat)
    decreases |text|
  {
    if StartsWith(text, pat) then
      assert OccursAt(text, pat, 0);
      true
    else if |text| == 0 then
      false
    else
      var r := Contains(text[1..], pat);
      assert r ==> Occurs(text, pat) by {
        if r {
          var i :| OccursAt(text[1..], pat, i);
          assert text[1..][i..i + |pat|] == text[i + 1..i + 1 + |pat|];
          assert OccursAt(text, pat, i + 1);
        }
      }
      assert Occurs(text, pat) ==> r by {
        if Occurs(text, pat) {
          var i :| OccursAt(text, pat, i);
          assert i != 0;
          assert text[1..][i - 1..i - 1 + |pat|] == text[i..i + |pat|];
          assert OccursAt(text[1..], pat, i - 1);
        }
      }
      r
  }

  /** An occurrence of an occurrence is an occurrence: whatever contains b
      contains every substring of b. */
  lemma OccursTrans(a: string, b: string, c: string)
    requires Occurs(a, b) && Occurs(b, c)
    ensures Occurs(a, c)
  {
    var i :| OccursAt(a, b, i);
    var j :| OccursAt(b, c, j);
    assert forall k :: 0 <= k < |c| ==> c[k] == b[j + k] && b[j + k] == a[i + j + k];
    assert OccursAt(a, c, i + j);
  }

  /** Whatever contains pat contains every substring of pat. */
  lemma ContainsTrans(a: string, pat: string, sub: string)
    requires Contains(a, pat) && Contains(pat, sub)
    ensures Contains(a, sub)
  {
    OccursTrans(a, pat, sub);
  }

  // ---------------------------------------------------------------------
  // The checker's verdict
  // ---------------------------------------------------------------------

  /** The verdict printed by the checker: the unsatisfiable banner wins,
      then the satisfiable one, and an output with neither is an error. */
  function ParseStatus(output: string): (r: string)
    ensures r == NotSat || r == Sat || r == Error
    ensures r == NotSat <==> Contains(output, NotSat)
  {
    if Contains(output, NotSat) then NotSat
    else if Contains(output, Sat) then Sat
    else Error
  }

  /** "NOT SATISFIABLE!" contains "SATISFIABLE!", so the order of the two
      tests matters: the output is an error exactly when it does not contain
      "SATISFIABLE!", and it is satisfiable exactly when it contains that
      banner without the "NOT " form. */
  lemma ParseStatusMeaning(output: string)
    ensures ParseStatus(output) == Error <==> !Contains(output, Sat)
    ensures ParseStatus(output) == Sat <==> Contains(output, Sat) && !Contains(output, NotSat)
  {
    assert OccursAt(NotSat, Sat, 4);
    if Contains(output, NotSat) {
      ContainsTrans(output, NotSat, Sat);
    }
  }

  // ---------------------------------------------------------------------
  // Expected verdict from the test files
  // ---------------------------------------------------------------------

  /** ASCII lower-casing of one character. */
  function LowerChar(c: char): (r: char)
    ensures !('A' <= r <= 'Z')
    ensures 'a' <= c <= 'z' || !('A' <= c <= 'Z') ==> r == c
  {
    if 'A' <= c <= 'Z' then (c as int + 32) as char else c
  }

  function Lower(s: string): (r: string)
    ensures |r| == |s| && forall i :: 0 <= i < |s| ==> r[i] == LowerChar(s[i])
  {
    seq(|s|, i requires 0 <= i < |s| => LowerChar(s[i]))
  }

  /** Lower-casing twice changes nothing more. */
  lemma LowerIdempotent(s: string)
    ensures Lower(Lower(s)) == Lower(s)
  {
    assert forall i :: 0 <= i < |s| ==> LowerChar(LowerChar(s[i])) == LowerChar(s[i]);
  }

  /** The characters that end a line for Python's str.splitlines. */
  predicate LineBreak(c: char)
  {
    c == '\n' || c == '\r' || c == '\U{B}' || c == '\U{C}' || c == '\U{1C}' || c == '\U{1D}'
    || c == '\U{1E}' || c == '\U{85}' || c == '\U{2028}' || c == '\U{2029}'
  }

  /** Index of the first line break in s, or |s| when there is none. */
  function FirstBreak(s: string): (i: nat)
    ensures i <= |s| && (i < |s| ==> LineBreak(s[i]))
    ensures forall k :: 0 <= k < i ==> !LineBreak(s[k])
  {
    if |s| == 0 || LineBreak(s[0]) then 0 else 1 + FirstBreak(s[1..])
  }

  /** str.splitlines: the text cut at each line break ("\r\n" counts as one),
      the breaks dropped, and no empty line after a final break. */
  function SplitLines(s: string): (lines: seq<string>)
    ensures forall k, j :: 0 <= k < |lines| && 0 <= j < |lines[k]| ==> !LineBreak(lines[k][j])
    ensures |lines| == 0 <==> |s| == 0
    decreases |s|
  {
    if |s| == 0 then []
    else
      var i := FirstBreak(s);
      if i == |s| then [s]
      else
        var skip := if s[i] == '\r' && i + 1 < |s| && s[i + 1] == '\n' then 2 else 1;
        [s[..i]] + SplitLines(s[i + skip..])
  }

  /** "\n".join(lines). */
  function JoinLines(lines: seq<string>): (r: string)
    ensures |lines| == 1 ==> r == lines[0]
  {
    if |lines| == 0 then ""
    else if |lines| == 1 then lines[0]
    else lines[0] + "\n" + JoinLines(lines[1..])
  }

  /** A keyword without a newline found in some line is found in the
      newline-joined text. */
  lemma {:induction false} JoinKeeps(lines: seq<string>, k: nat, pat: string)
    requires k < |lines| && Occurs(lines[k], pat)
    ensures Occurs(JoinLines(lines), pat)
  {
    if |lines| > 1 {
      var rest := JoinLines(lines[1..]);
      assert JoinLines(lines) == lines[0] + "\n" + rest;
      if k == 0 {
        var i :| OccursAt(lines[0], pat, i);
        assert JoinLines(lines)[i..i + |pat|] == lines[0][i..i + |pat|];
        assert OccursAt(JoinLines(lines), pat, i);
      } else {
        assert lines[1..][k - 1] == lines[k];
        JoinKeeps(lines[1..], k - 1, pat);
        var i :| OccursAt(rest, pat, i);
        var off := |lines[0]| + 1;
        assert JoinLines(lines)[off + i..off + i + |pat|] == rest[i..i + |pat|];
        assert OccursAt(JoinLines(lines), pat, off + i);
      }
    }
  }

  /** The text one readable file contributes: its first 50 lines, joined
      with newlines, lower-cased. */
  function FileText(contents: string): string
  {
    var lines := SplitLines(contents);
    Lower(JoinLines(if |lines| <= 50 then lines else lines[..50]))
  }

  /** Only the first 50 lines of a file can affect its text. */
  lemma FirstFiftyLines(c1: string, c2: string)
    requires |SplitLines(c1)| >= 50 && |SplitLines(c2)| >= 50
    requires SplitLines(c1)[..50] == SplitLines(c2)[..50]
    ensures FileText(c1) == FileText(c2)
  {
    var l1, l2 := SplitLines(c1), SplitLines(c2);
    assert (if |l1| <= 50 then l1 else l1[..50]) == l1[..50];
    assert (if |l2| <= 50 then l2 else l2[..50]) == l2[..50];
  }

  /** The texts of the readable files, in order; an unreadable file (None)
      is skipped. */
  function Texts(files: seq<Option<string>>): (r: seq<string>)
    ensures |r| <= |files|
  {
    if |files| == 0 then []
    else Texts(files[..|files| - 1]) + (match files[|files| - 1] case None => [] case Some(c) => [FileText(c)])
  }

  /** An unreadable file changes nothing. */
  lemma {:induction false} UnreadableSkipped(files: seq<Option<string>>, k: nat)
    requires k <= |files|
    ensures Texts(files[..k] + [None] + files[k..]) == Texts(files)
    decreases |files| - k
  {
    if k == |files| {
      assert files[..k] + [None] + files[k..] == files + [None];
      assert (files + [None])[..|files|] == files;
    } else {
      var g := files[..k] + [None] + files[k..];
      var f' := files[..|files| - 1];
      assert g[..|g| - 1] == f'[..k] + [None] + f'[k..];
      UnreadableSkipped(f', k);
      assert files[..|files| - 1] == f';
    }
  }

  /** The keyword classification of the lowered text, first match wins:
      unsatisfiable phrasing, then the non-equivalence phrases, then "sat",
      then "equivalent". */
  function Classify(text: string): (r: string)
    ensures r == NotSat || r == Sat || r == Unknown
    ensures Contains(text, "unsat") || Contains(text, "not satisfiable") ==> r == NotSat
  {
    if Contains(text, "unsat") || Contains(text, "not satisfiable") then NotSat
    else if Contains(text, "non-equivalent") || Contains(text, "not equivalent")
            || Contains(text, "not be equivalent") || Contains(text, "different from") then Sat
    else if Contains(text, "sat") || Contains(text, "satisfiable") then Sat
    else if Contains(text, "equivalent") then NotSat
    else Unknown
  }

  /** Every keyword of the first two rules contains "sat" or "equivalent",
      so a text is unclassified exactly when it has neither of those and
      no "different from". */
  lemma ClassifyUnknown(text: string)
    ensures Classify(text) == Unknown <==>
      !Contains(text, "sat") && !Contains(text, "equivalent") && !Contains(text, "different from")
  {
    assert OccursAt("unsat", "sat", 2);
    assert OccursAt("not satisfiable", "sat", 4);
    assert OccursAt("satisfiable", "sat", 0);
    assert OccursAt("non-equivalent", "equivalent", 4);
    assert OccursAt("not equivalent", "equivalent", 4);
    assert OccursAt("not be equivalent", "equivalent", 7);
    if Contains(text, "unsat") { ContainsTrans(text, "unsat", "sat"); }
    if Contains(text, "not satisfiable") { ContainsTrans(text, "not satisfiable", "sat"); }
    if Contains(text, "satisfiable") { ContainsTrans(text, "satisfiable", "sat"); }
    if Contains(text, "non-equivalent") { ContainsTrans(text, "non-equivalent", "equivalent"); }
    if Contains(text, "not equivalent") { ContainsTrans(text, "not equivalent", "equivalent"); }
    if Contains(text, "not be equivalent") { ContainsTrans(text, "not be equivalent", "equivalent"); }
  }

  /** A non-equivalence phrase gives "SATISFIABLE!" unless unsatisfiable
      phrasing is also present, although each such phrase contains
      "equivalent", which alone would give "NOT SATISFIABLE!". */
  lemma NonEquivalentWins(text: string, phrase: string)
    requires phrase == "non-equivalent" || phrase == "not equivalent" || phrase == "not be equivalent"
    requires Contains(text, phrase) && !Contains(text, "unsat") && !Contains(text, "not satisfiable")
    ensures Classify(text) == Sat && Contains(text, "equivalent")
  {
    assert OccursAt("non-equivalent", "equivalent", 4);
    assert OccursAt("not equivalent", "equivalent", 4);
    assert OccursAt("not be equivalent", "equivalent", 7);
    ContainsTrans(text, phrase, "equivalent");
  }

  /** The expected verdict from the files, in order: the readable files'
      texts are gathered, joined with newlines and classified. */
  method ExtractExpected(files: seq<Option<string>>) returns (r: string)
    ensures r == Classify(JoinLines(Texts(files)))
  {
    var combined: seq<string> := [];
    for i := 0 to |files|
      invariant combined == Texts(files[..i])
    {
      assert files[..i + 1][..i] == files[..i];
      match files[i] {
        case None =>
        case Some(c) =>
          combined := combined + [FileText(c)];
      }
    }
    assert files[..|files|] == files;
    var text := JoinLines(combined);
    r := Classify(text);
  }

  /** Every gathered text is lower-case, so a keyword is matched whatever
      the case it was written in. */
  lemma TextsLowered(files: seq<Option<string>>)
    ensures forall t, j :: t in Texts(files) && 0 <= j < |t| ==> !('A' <= t[j] <= 'Z')
  {
  }

  // ---------------------------------------------------------------------
  // Running the tests
  // ---------------------------------------------------------------------

  /** One test pair: its name, the exit code and standard output of the
      checker on it, and the contents of the specification and
      implementation files (None when unreadable). */
  datatype Test = Test(name: string, code: int, stdout: string, spec: Option<string>, impl: Option<string>)

  /** A table row: test name, verdict, expected verdict. */
  datatype Row = Row(name: string, status: string, expected: string)

  /** The driver exits with the checker's code at the first test whose run
      fails; otherwise it returns the rows and the failures. */
  datatype Outcome = Exited(code: int) | Finished(rows: seq<Row>, failures: seq<Row>)

  /** The expected verdict of a test: the file keywords when headers are
      used, then the table entry when that gives nothing, else unknown. */
  function Expected(t: Test, useHeaders: bool, table: Option<map<string, string>>): (r: string)
    ensures useHeaders && Classify(JoinLines(Texts([t.spec, t.impl]))) != Unknown
            ==> r == Classify(JoinLines(Texts([t.spec, t.impl])))
    ensures r == Unknown ==> !table.Some? || t.name !in table.value || table.value[t.name] == Unknown
  {
    var fromHeaders := if useHeaders then Classify(JoinLines(Texts([t.spec, t.impl]))) else Unknown;
    if fromHeaders == Unknown && table.Some? then
      if t.name in table.value then table.value[t.name] else Unknown
    else fromHeaders
  }

  /** A row fails when an expected verdict is known and the verdict differs. */
  predicate Fails(row: Row)
  {
    row.expected != Unknown && row.status != row.expected
  }

  /** The failing rows, in order. */
  function FailuresOf(rows: seq<Row>): (r: seq<Row>)
    ensures |r| <= |rows|
    ensures forall x :: x in r <==> x in rows && Fails(x)
  {
    if |rows| == 0 then []
    else FailuresOf(rows[..|rows| - 1]) + (if Fails(rows[|rows| - 1]) then [rows[|rows| - 1]] else [])
  }

  /** No test failed exactly when every row either has an unknown
      expectation or matches it. */
  lemma NoFailures(rows: seq<Row>)
    ensures FailuresOf(rows) == [] <==> forall k :: 0 <= k < |rows| ==> !Fails(rows[k])
  {
    if FailuresOf(rows) == [] {
      forall k | 0 <= k < |rows| ensures !Fails(rows[k]) {
        assert rows[k] in rows;
      }
    } else {
      assert FailuresOf(rows)[0] in FailuresOf(rows);
    }
  }

  /** The index of the first test whose run fails. */
  ghost predicate FirstFailedRun(tests: seq<Test>, k: int)
  {
    0 <= k < |tests| && tests[k].code != 0 && forall j :: 0 <= j < k ==> tests[j].code == 0
  }

  /** The row of one test: its name, the verdict of its output and its
      expected verdict. */
  function RowFor(t: Test, useHeaders: bool, table: Option<map<string, string>>): Row
  {
    Row(t.name, ParseStatus(t.stdout), Expected(t, useHeaders, table))
  }

  /** Computes one test's row, reading the file keywords first when headers
      are used, then the table. */
  method TestRow(t: Test, useHeaders: bool, table: Option<map<string, string>>) returns (row: Row)
    ensures row == RowFor(t, useHeaders, table)
  {
    var status := ParseStatus(t.stdout);
    var expected := Unknown;
    if useHeaders {
      expected := ExtractExpected([t.spec, t.impl]);
    }
    if expected == Unknown && table.Some? {
      expected := if t.name in table.value then table.value[t.name] else Unknown;
    }
    row := Row(t.name, status, expected);
  }

  /** After i tests the driver is still running, holds their rows in order
      and exactly the failing ones among them. */
  ghost predicate Ran(tests: seq<Test>, useHeaders: bool, table: Option<map<string, string>>,
                      i: int, rows: seq<Row>, failures: seq<Row>)
  {
    && 0 <= i <= |tests| && |rows| == i && failures == FailuresOf(rows)
    && (forall j :: 0 <= j < i ==> tests[j].code == 0)
    && forall k :: 0 <= k < i ==> rows[k] == RowFor(tests[k], useHeaders, table)
  }

  lemma RanNext(tests: seq<Test>, useHeaders: bool, table: Option<map<string, string>>,
                i: int, rows: seq<Row>, failures: seq<Row>, failures': seq<Row>)
    requires Ran(tests, useHeaders, table, i, rows, failures) && i < |tests| && tests[i].code == 0
    requires var row := RowFor(tests[i], useHeaders, table);
      failures' == if Fails(row) then failures + [row] else failures
    ensures Ran(tests, useHeaders, table, i + 1, rows + [RowFor(tests[i], useHeaders, table)], failures')
  {
    var row := RowFor(tests[i], useHeaders, table);
    var rows' := rows + [row];
    assert rows'[..|rows|] == rows && rows'[|rows|] == row;
    assert FailuresOf(rows') == FailuresOf(rows) + (if Fails(row) then [row] else []);
    forall k | 0 <= k < i + 1
      ensures rows'[k] == RowFor(tests[k], useHeaders, table)
    {
      if k < i {
        assert rows'[k] == rows[k];
      }
    }
  }

  /** Runs the tests in order: classify each output, find its expected
      verdict, record the row, and record it again as a failure when it
      fails. A failing run ends the driver with its exit code. */
  method RunFevTests(tests: seq<Test>, useHeaders: bool, table: Option<map<string, string>>)
    returns (out: Outcome)
    ensures out.Exited? <==> exists k :: FirstFailedRun(tests, k)
    ensures out.Exited? ==> exists k :: FirstFailedRun(tests, k) && out.code == tests[k].code
    ensures out.Finished? ==>
      && |out.rows| == |tests|
      && (forall k :: 0 <= k < |tests| ==> out.rows[k] == RowFor(tests[k], useHeaders, table))
      && out.failures == FailuresOf(out.rows)
  {
    var rows: seq<Row> := [];
    var failures: seq<Row> := [];
    for i := 0 to |tests|
      invariant Ran(tests, useHeaders, table, i, rows, failures)
    {
      if tests[i].code != 0 {
        FirstRunUnique(tests, i);
        return Exited(tests[i].code);
      }
      var row := TestRow(tests[i], useHeaders, table);
      ghost var failures0 := failures;
      if row.expected != Unknown && row.status != row.expected {
        failures := failures + [row];
      }
      RanNext(tests, useHeaders, table, i, rows, failures0, failures);
      rows := rows + [row];
    }
    out := Finished(rows, failures);
    NoFailedRun(tests);
  }

  lemma FirstRunUnique(tests: seq<Test>, i: int)
    requires FirstFailedRun(tests, i)
    ensures exists k :: FirstFailedRun(tests, k) && tests[i].code == tests[k].code
  {
  }

  lemma NoFailedRun(tests: seq<Test>)
    requires forall j :: 0 <= j < |tests| ==> tests[j].code == 0
    ensures !exists k :: FirstFailedRun(tests, k)
  {
  }
}
