/** splitDiffLines of include/utilxx/diff_util.h: lines without their newline, a last
    empty line left out. */
module Lines {

  type Line = string

  predicate NoNewline(s: string) {
    forall i :: 0 <= i < |s| ==> s[i] != '\n'
  }

  ghost predicate AllLines(ls: seq<Line>) {
    forall k :: 0 <= k < |ls| ==> NoNewline(ls[k])
  }

  /** The length of the first line. */
  function FirstBreak(s: string): (k: nat)
    ensures k <= |s| && NoNewline(s[..k]) && (k < |s| ==> s[k] == '\n')
  {
    if s == "" || s[0] == '\n' then 0
    else
      var k := 1 + FirstBreak(s[1..]);
      assert s[..k] == [s[0]] + s[1..][..k - 1];
      k
  }

  function SplitLines(s: string): seq<Line>
    decreases |s|
  {
    if s == "" then []
    else
      var k := FirstBreak(s);
      if k == |s| then [s] else [s[..k]] + SplitLines(s[k + 1..])
  }

  /** Every line followed by a newline. */
  function Unlines(ls: seq<Line>): string {
    if ls == [] then "" else ls[0] + "\n" + Unlines(ls[1..])
  }

  /** Splitting loses nothing but a missing newline at the very end. */
  lemma {:induction false} SplitKeepsText(s: string)
    ensures AllLines(SplitLines(s))
    ensures Unlines(SplitLines(s)) == if s == "" || s[|s| - 1] == '\n' then s else s + "\n"
    decreases |s|
  {
    if s != "" {
      var k := FirstBreak(s);
      if k == |s| {
        assert s[..k] == s;
      } else {
        var rest := s[k + 1..];
        SplitKeepsText(rest);
        assert s == s[..k] + "\n" + rest;
      }
    }
  }

  lemma FirstBreakIs(s: string, rest: string)
    requires NoNewline(s)
    ensures FirstBreak(s + "\n" + rest) == |s|
  {
    var t := s + "\n" + rest;
    var k := FirstBreak(t);
    assert forall i :: 0 <= i < |s| ==> t[i] == s[i];
    if k > |s| { NoNewlineAt(t[..k], |s|); }
  }

  lemma NoNewlineAt(s: string, i: nat)
    requires NoNewline(s) && i < |s|
    ensures s[i] != '\n'
  {
  }

  /** And lines joined by newlines split into themselves. */
  lemma {:induction false} SplitOfUnlines(ls: seq<Line>)
    requires AllLines(ls)
    ensures SplitLines(Unlines(ls)) == ls
  {
    if ls == [] {
    } else {
      var rest := Unlines(ls[1..]);
      var s := ls[0] + "\n" + rest;
      FirstBreakIs(ls[0], rest);
      assert s[..|ls[0]|] == ls[0] && s[|ls[0]| + 1..] == rest;
      SplitOfUnlines(ls[1..]);
    }
  }

  /** What is left to split at start, when lines have been split off before. */
  ghost predicate SplitSoFar(s: string, lines: seq<Line>, start: nat) {
    start <= |s| && lines + SplitLines(s[start..]) == SplitLines(s)
  }

  /** The splitting loop. */
  method SplitDiffLines(s: string) returns (lines: seq<Line>)
    ensures lines == SplitLines(s)
  {
    lines := [];
    var start: nat := 0;
    assert s[0..] == s;
    hide SplitLines;
    for i := 0 to |s|
      invariant start <= i && SplitSoFar(s, lines, start)
      invariant forall k :: start <= k < i ==> s[k] != '\n'
    {
      if s[i] == '\n' {
        NextLine(s, lines, start, i);
        lines := lines + [s[start..i]];
        start := i + 1;
      }
    }
    LastLine(s, lines, start);
    if start < |s| {
      lines := lines + [s[start..]];
    }
  }

  lemma LastLine(s: string, lines: seq<Line>, start: nat)
    requires SplitSoFar(s, lines, start)
    requires forall k :: start <= k < |s| ==> s[k] != '\n'
    ensures SplitLines(s) == if start < |s| then lines + [s[start..]] else lines
  {
    var last := s[start..];
    assert forall j :: 0 <= j < |last| ==> last[j] == s[start + j] != '\n';
    assert FirstBreak(last) == |last|;
  }

  lemma NextLine(s: string, lines: seq<Line>, start: nat, i: nat)
    requires SplitSoFar(s, lines, start) && start <= i < |s| && s[i] == '\n'
    requires forall k :: start <= k < i ==> s[k] != '\n'
    ensures SplitSoFar(s, lines + [s[start..i]], i + 1)
  {
    var rest := s[start..];
    assert rest == s[start..i] + "\n" + s[i + 1..];
    FirstBreakIs(s[start..i], s[i + 1..]);
    assert rest[..i - start] == s[start..i] && rest[i - start + 1..] == s[i + 1..];
    assert lines + ([s[start..i]] + SplitLines(s[i + 1..])) == (lines + [s[start..i]]) + SplitLines(s[i + 1..]);
  }
}
