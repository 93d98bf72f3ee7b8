/** Edit scripts between two lists of lines, and how few changes one can have. */
module EditScripts {
  import opened Lines

  datatype DiffLineType = Context | Add | Delete

  /** A line of a diff; the line number it does not have is 0. */
  datatype DiffLine = DiffLine(kind: DiffLineType, text: Line, oldLineNo: nat, newLineNo: nat)

  /** The texts of the lines of some kinds. */
  function Texts(script: seq<DiffLine>, kinds: set<DiffLineType>): seq<Line> {
    if script == [] then []
    else (if script[0].kind in kinds then [script[0].text] else []) + Texts(script[1..], kinds)
  }

  /** The lines a script keeps or deletes: the old text. */
  function OldOf(script: seq<DiffLine>): seq<Line> {
    Texts(script, {Context, Delete})
  }

  /** The lines a script keeps or adds: the new text. */
  function NewOf(script: seq<DiffLine>): seq<Line> {
    Texts(script, {Context, Add})
  }

  /** The lines a script keeps. */
  function Kept(script: seq<DiffLine>): seq<Line> {
    Texts(script, {Context})
  }

  /** How many lines a script adds or deletes. */
  function Changes(script: seq<DiffLine>): nat {
    if script == [] then 0
    else (if script[0].kind == Context then 0 else 1) + Changes(script[1..])
  }

  /** script turns a from line i on into b from line j on, and numbers its lines. */
  ghost predicate IsScript(script: seq<DiffLine>, a: seq<Line>, b: seq<Line>, i: nat, j: nat)
    requires i <= |a| && j <= |b|
    decreases |script|
  {
    if script == [] then i == |a| && j == |b|
    else
      var l := script[0];
      match l.kind
      case Context =>
        i < |a| && j < |b| && a[i] == b[j] && l == DiffLine(Context, a[i], i + 1, j + 1)
        && IsScript(script[1..], a, b, i + 1, j + 1)
      case Add =>
        j < |b| && l == DiffLine(Add, b[j], 0, j + 1) && IsScript(script[1..], a, b, i, j + 1)
      case Delete =>
        i < |a| && l == DiffLine(Delete, a[i], i + 1, 0) && IsScript(script[1..], a, b, i + 1, j)
  }

  /** The two projections of a script are the two texts; twice the lines kept and the
      lines changed make up both. */
  lemma {:induction false} ScriptProjects(script: seq<DiffLine>, a: seq<Line>, b: seq<Line>, i: nat, j: nat)
    requires i <= |a| && j <= |b| && IsScript(script, a, b, i, j)
    ensures OldOf(script) == a[i..] && NewOf(script) == b[j..]
    decreases |script|
  {
    if script == [] {
    } else {
      var rest := script[1..];
      match script[0].kind
      case Context =>
        ScriptProjects(rest, a, b, i + 1, j + 1);
        assert a[i..] == [a[i]] + a[i + 1..] && b[j..] == [b[j]] + b[j + 1..];
      case Add =>
        ScriptProjects(rest, a, b, i, j + 1);
        assert b[j..] == [b[j]] + b[j + 1..];
      case Delete =>
        ScriptProjects(rest, a, b, i + 1, j);
        assert a[i..] == [a[i]] + a[i + 1..];
    }
  }

  lemma {:induction false} SizesAddUp(script: seq<DiffLine>)
    ensures |OldOf(script)| + |NewOf(script)| == 2 * |Kept(script)| + Changes(script)
  {
    if script == [] {
    } else {
      SizesAddUp(script[1..]);
    }
  }

  /** The line numbers count the lines of each text. */
  lemma {:induction false} ScriptNumbers(script: seq<DiffLine>, a: seq<Line>, b: seq<Line>, i: nat, j: nat, k: nat)
    requires i <= |a| && j <= |b| && IsScript(script, a, b, i, j) && k < |script|
    ensures script[k].oldLineNo == if script[k].kind == Add then 0 else i + |OldOf(script[..k])| + 1
    ensures script[k].newLineNo == if script[k].kind == Delete then 0 else j + |NewOf(script[..k])| + 1
    decreases |script|
  {
    if k > 0 {
      assert script[..k][1..] == script[1..][..k - 1];
      match script[0].kind
      case Context => ScriptNumbers(script[1..], a, b, i + 1, j + 1, k - 1);
      case Add => ScriptNumbers(script[1..], a, b, i, j + 1, k - 1);
      case Delete => ScriptNumbers(script[1..], a, b, i + 1, j, k - 1);
    }
  }

  // ---------------------------------------------------------------------------
  // Longest common subsequences
  // ---------------------------------------------------------------------------

  /** The recurrence of the table: the longest common subsequence of the first i lines of a
      and the first j lines of b. */
  ghost function Lcs(a: seq<Line>, b: seq<Line>, i: nat, j: nat): nat
    requires i <= |a| && j <= |b|
  {
    if i == 0 || j == 0 then 0
    else if a[i - 1] == b[j - 1] then Lcs(a, b, i - 1, j - 1) + 1
    else if Lcs(a, b, i - 1, j) > Lcs(a, b, i, j - 1) then Lcs(a, b, i - 1, j)
    else Lcs(a, b, i, j - 1)
  }

  /** One more line is worth at most one, and never costs. */
  lemma {:induction false} LcsStep(a: seq<Line>, b: seq<Line>, i: nat, j: nat)
    requires i <= |a| && j <= |b|
    ensures i < |a| ==> Lcs(a, b, i, j) <= Lcs(a, b, i + 1, j) <= Lcs(a, b, i, j) + 1
    ensures j < |b| ==> Lcs(a, b, i, j) <= Lcs(a, b, i, j + 1) <= Lcs(a, b, i, j) + 1
    decreases i + j
  {
    if i > 0 { LcsStep(a, b, i - 1, j); }
    if j > 0 { LcsStep(a, b, i, j - 1); }
  }

  lemma {:induction false} LcsSmall(a: seq<Line>, b: seq<Line>, i: nat, j: nat)
    requires i <= |a| && j <= |b|
    ensures Lcs(a, b, i, j) <= i && Lcs(a, b, i, j) <= j
  {
    if i > 0 && j > 0 {
      LcsSmall(a, b, i - 1, j - 1);
      LcsSmall(a, b, i - 1, j);
      LcsSmall(a, b, i, j - 1);
    }
  }

  /** s is a subsequence of the first i lines of a. */
  ghost predicate IsSubsequence(s: seq<Line>, a: seq<Line>, i: nat)
    requires i <= |a|
  {
    s == [] ||
    (i > 0 && ((s[|s| - 1] == a[i - 1] && IsSubsequence(s[..|s| - 1], a, i - 1)) || IsSubsequence(s, a, i - 1)))
  }

  lemma {:induction false} SubsequenceDrops(s: seq<Line>, a: seq<Line>, i: nat)
    requires i <= |a| && s != [] && IsSubsequence(s, a, i)
    ensures i > 0 && IsSubsequence(s[..|s| - 1], a, i - 1)
  {
    if !(s[|s| - 1] == a[i - 1] && IsSubsequence(s[..|s| - 1], a, i - 1)) {
      SubsequenceDrops(s, a, i - 1);
      SubsequenceGrows(s[..|s| - 1], a, i - 2);
    }
  }

  lemma SubsequenceGrows(s: seq<Line>, a: seq<Line>, i: nat)
    requires i < |a| && IsSubsequence(s, a, i)
    ensures IsSubsequence(s, a, i + 1)
  {
  }

  /** No common subsequence is longer than the recurrence says. */
  lemma {:induction false} LcsIsBound(s: seq<Line>, a: seq<Line>, b: seq<Line>, i: nat, j: nat)
    requires i <= |a| && j <= |b| && IsSubsequence(s, a, i) && IsSubsequence(s, b, j)
    ensures |s| <= Lcs(a, b, i, j)
    decreases i + j
  {
    if s == [] {
    } else {
      SubsequenceDrops(s, a, i);
      SubsequenceDrops(s, b, j);
      if a[i - 1] == b[j - 1] {
        LcsIsBound(s[..|s| - 1], a, b, i - 1, j - 1);
      } else if IsSubsequence(s, a, i - 1) {
        LcsIsBound(s, a, b, i - 1, j);
      } else {
        assert IsSubsequence(s, b, j - 1);
        LcsIsBound(s, a, b, i, j - 1);
      }
    }
  }

  lemma {:induction false} TextsSplit(t: seq<DiffLine>, rest: seq<DiffLine>, kinds: set<DiffLineType>)
    ensures Texts(t + rest, kinds) == Texts(t, kinds) + Texts(rest, kinds)
  {
    if t == [] {
      assert t + rest == rest;
    } else {
      assert (t + rest)[1..] == t[1..] + rest;
      TextsSplit(t[1..], rest, kinds);
    }
  }

  lemma TextsMore(t: seq<DiffLine>, l: DiffLine, kinds: set<DiffLineType>)
    ensures Texts(t + [l], kinds) == if l.kind in kinds then Texts(t, kinds) + [l.text] else Texts(t, kinds)
  {
    TextsSplit(t, [l], kinds);
  }

  lemma {:induction false} SubsequenceOfPrefix(s: seq<Line>, a: seq<Line>, more: seq<Line>, i: nat)
    requires i <= |a|
    ensures IsSubsequence(s, a, i) <==> IsSubsequence(s, a + more, i)
  {
    if s != [] && i > 0 {
      SubsequenceOfPrefix(s, a, more, i - 1);
      SubsequenceOfPrefix(s[..|s| - 1], a, more, i - 1);
    }
  }

  /** Fewer kinds give a subsequence; so what a script keeps is common to both texts. */
  lemma {:induction false} TextsAreSubsequence(t: seq<DiffLine>, kinds: set<DiffLineType>, more: set<DiffLineType>)
    requires kinds <= more
    ensures IsSubsequence(Texts(t, kinds), Texts(t, more), |Texts(t, more)|)
    decreases |t|
  {
    hide IsSubsequence;
    if t == [] {
      EmptyIsSubsequence(Texts(t, kinds), Texts(t, more));
    } else {
      var init, l := t[..|t| - 1], t[|t| - 1];
      assert t == init + [l];
      TextsAreSubsequence(init, kinds, more);
      TextsMore(init, l, kinds);
      TextsMore(init, l, more);
      var s, a := Texts(init, kinds), Texts(init, more);
      SubsequenceMore(s, a, l.text);
    }
  }

  lemma EmptyIsSubsequence(s: seq<Line>, a: seq<Line>)
    requires s == []
    ensures IsSubsequence(s, a, |a|)
  {
  }

  lemma SubsequenceMore(s: seq<Line>, a: seq<Line>, x: Line)
    requires IsSubsequence(s, a, |a|)
    ensures IsSubsequence(s, a + [x], |a| + 1) && IsSubsequence(s + [x], a + [x], |a| + 1)
  {
    SubsequenceOfPrefix(s, a, [x], |a|);
    assert (s + [x])[..|s|] == s && (a + [x])[|a|] == x;
  }

  /** So no script keeps more lines than the recurrence says. */
  lemma NoScriptKeepsMore(script: seq<DiffLine>)
    ensures var o, n := OldOf(script), NewOf(script);
            |Kept(script)| <= Lcs(o, n, |o|, |n|)
  {
    TextsAreSubsequence(script, {Context}, {Context, Delete});
    TextsAreSubsequence(script, {Context}, {Context, Add});
    LcsIsBound(Kept(script), OldOf(script), NewOf(script), |OldOf(script)|, |NewOf(script)|);
  }

  /** A script that keeps as many lines as the recurrence says changes as few as any. */
  lemma KeepingMostIsMinimal(script: seq<DiffLine>, other: seq<DiffLine>)
    requires OldOf(other) == OldOf(script) && NewOf(other) == NewOf(script)
    requires |Kept(script)| == Lcs(OldOf(script), NewOf(script), |OldOf(script)|, |NewOf(script)|)
    ensures Changes(script) <= Changes(other)
  {
    SizesAddUp(script);
    SizesAddUp(other);
    NoScriptKeepsMore(other);
  }

  /** Two texts have a line in common exactly when the recurrence is positive. */
  lemma {:induction false} LcsPositive(a: seq<Line>, b: seq<Line>, i: nat, j: nat)
    requires i <= |a| && j <= |b|
    ensures Lcs(a, b, i, j) > 0 <==> exists x, y :: 0 <= x < i && 0 <= y < j && a[x] == b[y]
    decreases i + j
  {
    if i > 0 && j > 0 {
      if a[i - 1] != b[j - 1] {
        LcsPositive(a, b, i - 1, j);
        LcsPositive(a, b, i, j - 1);
      } else {
        assert 0 <= i - 1 < i && 0 <= j - 1 < j && a[i - 1] == b[j - 1];
      }
    }
  }
}
