/** computeLineDiff of include/utilxx/diff_util.h: a table of longest common subsequences,
    walked backwards, and a plain diff when the table would be too large. */
module LineDiff {
  import opened Basics
  import opened Lines
  import opened EditScripts
  import opened DiffOrder

  newtype uint32 = x: int | 0 <= x < 0x1_0000_0000

  const MAX_DP_CELLS: nat := 16_000_000

  /** The guard, as the code writes it to avoid the overflow of a product. */
  predicate TooLarge(n: nat, m: nat) {
    m + 1 > 0 && n + 1 > MAX_DP_CELLS / (m + 1)
  }

  /** It is the test of the product. */
  lemma GuardTestsProduct(n: nat, m: nat)
    ensures TooLarge(n, m) <==> (n + 1) * (m + 1) > 16_000_000
    ensures !TooLarge(n, m) ==> n < MAX_DP_CELLS && m < MAX_DP_CELLS
  {
    DivideOrMultiply(n + 1, m + 1, MAX_DP_CELLS);
    AtLeastFactor(n + 1, m + 1);
    AtLeastFactor(m + 1, n + 1);
  }

  lemma DivideOrMultiply(x: nat, d: nat, limit: nat)
    requires d > 0
    ensures x > limit / d <==> x * d > limit
  {
    var q := limit / d;
    assert q * d <= limit < (q + 1) * d;
    if x > q {
      Monotone(q + 1, x, d);
    } else {
      Monotone(x, q, d);
    }
  }

  lemma Monotone(x: nat, y: nat, d: nat)
    requires x <= y
    ensures x * d <= y * d
  {
  }

  lemma AtLeastFactor(x: nat, d: nat)
    requires d > 0
    ensures x <= x * d && x <= d * x
  {
    Monotone(1, d, x);
  }

  /** The table of the recurrence. */
  method FillTable(a: seq<Line>, b: seq<Line>) returns (dp: array2<uint32>)
    requires !TooLarge(|a|, |b|)
    ensures fresh(dp) && dp.Length0 == |a| + 1 && dp.Length1 == |b| + 1
    ensures forall i, j :: 0 <= i <= |a| && 0 <= j <= |b| ==> dp[i, j] as int == Lcs(a, b, i, j)
  {
    GuardTestsProduct(|a|, |b|);
    dp := new uint32[|a| + 1, |b| + 1]((_, _) => 0);
    forall j | 0 <= j <= |b| ensures Lcs(a, b, 0, j) == 0 {}
    hide *;
    for i := 1 to |a| + 1
      invariant forall x, y :: 0 <= x < i && 0 <= y <= |b| ==> dp[x, y] as int == Lcs(a, b, x, y)
      invariant forall x :: i <= x <= |a| ==> dp[x, 0] == 0
    {
      FillRow(a, b, dp, i);
    }
  }

  /** The inner loop: one row from the row above it. */
  method FillRow(a: seq<Line>, b: seq<Line>, dp: array2<uint32>, i: nat)
    requires |a| < MAX_DP_CELLS && 1 <= i <= |a|
    requires dp.Length0 == |a| + 1 && dp.Length1 == |b| + 1 && dp[i, 0] == 0
    requires forall x, y :: x == i - 1 && 0 <= y <= |b| ==> dp[x, y] as int == Lcs(a, b, x, y)
    modifies dp
    ensures forall y :: 0 <= y <= |b| ==> dp[i, y] as int == Lcs(a, b, i, y)
    ensures forall x, y :: 0 <= x <= |a| && 0 <= y <= |b| && x != i ==> dp[x, y] == old(dp[x, y])
  {
    LcsRow(a, b, i, 0);
    hide Lcs;
    for j := 1 to |b| + 1
      invariant forall y :: 0 <= y < j ==> dp[i, y] as int == Lcs(a, b, i, y)
      invariant forall x, y :: 0 <= x <= |a| && 0 <= y <= |b| && x != i ==> dp[x, y] == old(dp[x, y])
    {
      LcsRow(a, b, i, j);
      if a[i - 1] == b[j - 1] {
        dp[i, j] := dp[i - 1, j - 1] + 1;
      } else {
        dp[i, j] := if dp[i - 1, j] > dp[i, j - 1] then dp[i - 1, j] else dp[i, j - 1];
      }
    }
  }

  lemma LcsRow(a: seq<Line>, b: seq<Line>, i: nat, j: nat)
    requires 1 <= i <= |a| && j <= |b|
    ensures Lcs(a, b, i, j) <= |a|
    ensures Lcs(a, b, i, j) ==
            if j == 0 then 0
            else if a[i - 1] == b[j - 1] then Lcs(a, b, i - 1, j - 1) + 1
            else if Lcs(a, b, i - 1, j) > Lcs(a, b, i, j - 1) then Lcs(a, b, i - 1, j)
            else Lcs(a, b, i, j - 1)
  {
    LcsSmall(a, b, i, j);
  }

  function Reversed(s: seq<DiffLine>): (r: seq<DiffLine>)
    ensures |r| == |s|
  {
    if s == [] then [] else Reversed(s[1..]) + [s[0]]
  }

  lemma {:induction false} ReversedMore(s: seq<DiffLine>, l: DiffLine)
    ensures Reversed(s + [l]) == [l] + Reversed(s)
  {
    if s == [] {
    } else {
      assert (s + [l])[1..] == s[1..] + [l];
      ReversedMore(s[1..], l);
    }
  }

  /** The lines pushed so far, read backwards, are a script for the rest of both texts that
      keeps what the table promises. */
  ghost predicate Traced(result: seq<DiffLine>, a: seq<Line>, b: seq<Line>, i: nat, j: nat) {
    && i <= |a| && j <= |b|
    && IsScript(Reversed(result), a, b, i, j) && Settled(Reversed(result), a, b, i, j)
    && Lcs(a, b, i, j) + |Kept(Reversed(result))| == Lcs(a, b, |a|, |b|)
  }

  lemma TracedMore(result: seq<DiffLine>, a: seq<Line>, b: seq<Line>, i: nat, j: nat, l: DiffLine, i': nat, j': nat)
    requires Traced(result, a, b, i, j) && i' <= i && j' <= j
    requires match l.kind
             case Context => i == i' + 1 && j == j' + 1 && a[i'] == b[j'] && l == DiffLine(Context, a[i'], i, j)
             case Add =>
               && i == i' && j == j' + 1 && l == DiffLine(Add, b[j'], 0, j)
               && !SameLast(a, b, i, j) && Lcs(a, b, i, j) == Lcs(a, b, i, j')
             case Delete =>
               && i == i' + 1 && j == j' && l == DiffLine(Delete, a[i'], i, 0)
               && !SameLast(a, b, i, j) && Lcs(a, b, i, j) == Lcs(a, b, i', j)
               && (j > 0 ==> Lcs(a, b, i, j - 1) < Lcs(a, b, i, j))
    ensures Traced(result + [l], a, b, i', j')
  {
    ReversedMore(result, l);
    var r := Reversed(result);
    assert ([l] + r)[1..] == r;
    assert Kept([l] + r) == (if l.kind == Context then [l.text] else []) + Kept(r);
  }

  /** Walks the table backwards from its last cell. */
  method Trace(a: seq<Line>, b: seq<Line>, dp: array2<uint32>) returns (result: seq<DiffLine>)
    requires dp.Length0 == |a| + 1 && dp.Length1 == |b| + 1
    requires forall i, j :: 0 <= i <= |a| && 0 <= j <= |b| ==> dp[i, j] as int == Lcs(a, b, i, j)
    ensures IsScript(result, a, b, 0, 0) && Settled(result, a, b, 0, 0)
    ensures |Kept(result)| == Lcs(a, b, |a|, |b|)
  {
    result := [];
    var i: nat, j: nat := |a|, |b|;
    var oldNo, newNo := i, j;
    while i > 0 || j > 0
      invariant Traced(result, a, b, i, j) && oldNo == i && newNo == j
      decreases i + j
    {
      if i > 0 && j > 0 && a[i - 1] == b[j - 1] {
        var l := DiffLine(Context, a[i - 1], oldNo, newNo);
        TracedMore(result, a, b, i, j, l, i - 1, j - 1);
        result := result + [l];
        i, j, oldNo, newNo := i - 1, j - 1, oldNo - 1, newNo - 1;
      } else if j > 0 && (i == 0 || dp[i, j - 1] >= dp[i - 1, j]) {
        var l := DiffLine(Add, b[j - 1], 0, newNo);
        TracedMore(result, a, b, i, j, l, i, j - 1);
        result := result + [l];
        j, newNo := j - 1, newNo - 1;
      } else {
        var l := DiffLine(Delete, a[i - 1], oldNo, 0);
        TracedMore(result, a, b, i, j, l, i - 1, j);
        result := result + [l];
        i, oldNo := i - 1, oldNo - 1;
      }
    }
    result := Reversed(result);
  }

  /** The diff of texts too large for the table: everything deleted, everything added. */
  function PlainDiff(a: seq<Line>, b: seq<Line>): seq<DiffLine> {
    seq(|a|, k requires 0 <= k < |a| => DiffLine(Delete, a[k], k + 1, 0))
    + seq(|b|, k requires 0 <= k < |b| => DiffLine(Add, b[k], 0, k + 1))
  }

  method MakePlainDiff(a: seq<Line>, b: seq<Line>) returns (result: seq<DiffLine>)
    ensures result == PlainDiff(a, b)
  {
    result := [];
    var oldNo := 1;
    for k := 0 to |a|
      invariant oldNo == k + 1 && result == PlainDiff(a[..k], [])
    {
      result := result + [DiffLine(Delete, a[k], oldNo, 0)];
      oldNo := oldNo + 1;
    }
    var newNo := 1;
    for k := 0 to |b|
      invariant newNo == k + 1 && result == PlainDiff(a, b[..k])
    {
      result := result + [DiffLine(Add, b[k], 0, newNo)];
      newNo := newNo + 1;
    }
  }

  /** The plain diff is a script, and keeps nothing. */
  lemma {:induction false} PlainAdds(a: seq<Line>, b: seq<Line>, j: nat)
    requires j <= |b|
    ensures var s := PlainDiff(a, b)[|a| + j..];
            IsScript(s, a, b, |a|, j) && Kept(s) == []
    decreases |b| - j
  {
    var s := PlainDiff(a, b)[|a| + j..];
    if j < |b| {
      assert s[1..] == PlainDiff(a, b)[|a| + j + 1..];
      PlainAdds(a, b, j + 1);
    }
  }

  lemma {:induction false} PlainIsScript(a: seq<Line>, b: seq<Line>, i: nat)
    requires i <= |a|
    ensures var s := PlainDiff(a, b)[i..];
            IsScript(s, a, b, i, 0) && Kept(s) == []
    decreases |a| - i
  {
    var s := PlainDiff(a, b)[i..];
    if i < |a| {
      assert s[1..] == PlainDiff(a, b)[i + 1..];
      PlainIsScript(a, b, i + 1);
    } else {
      PlainAdds(a, b, 0);
    }
  }

  method ComputeLineDiff(oldText: string, newText: string) returns (result: seq<DiffLine>)
    ensures var a, b := SplitLines(oldText), SplitLines(newText);
            IsDiff(result, a, b)
  {
    var oldLines := SplitDiffLines(oldText);
    var newLines := SplitDiffLines(newText);
    if TooLarge(|oldLines|, |newLines|) {
      result := MakePlainDiff(oldLines, newLines);
      PlainIsScript(oldLines, newLines, 0);
      assert result[0..] == result;
    } else {
      var dp := FillTable(oldLines, newLines);
      result := Trace(oldLines, newLines, dp);
    }
  }

  /** What ComputeLineDiff returns. */
  ghost predicate IsDiff(result: seq<DiffLine>, a: seq<Line>, b: seq<Line>) {
    && IsScript(result, a, b, 0, 0)
    && |Kept(result)| == (if TooLarge(|a|, |b|) then 0 else Lcs(a, b, |a|, |b|))
    && (if TooLarge(|a|, |b|) then result == PlainDiff(a, b) else Settled(result, a, b, 0, 0))
  }

  lemma PlainDeletesFirst(a: seq<Line>, b: seq<Line>)
    ensures DeletesFirst(PlainDiff(a, b))
  {
    var s := PlainDiff(a, b);
    forall k | 0 <= k < |s| - 1 ensures !(s[k].kind == Add && s[k + 1].kind == Delete) {
      if k < |a| { assert s[k].kind == Delete; } else { assert s[k + 1].kind == Add; }
    }
  }

  /** On both paths the texts determine the diff, and no added line stands directly in front of
      a deleted one. */
  lemma DiffDetermined(s: seq<DiffLine>, t: seq<DiffLine>, a: seq<Line>, b: seq<Line>)
    requires IsDiff(s, a, b) && IsDiff(t, a, b)
    ensures s == t && DeletesFirst(s)
  {
    hide IsScript, Settled, PlainDiff, DeletesFirst;
    if TooLarge(|a|, |b|) {
      PlainDeletesFirst(a, b);
    } else {
      SettledUnique(s, t, a, b);
      SettledDeletesFirst(s, a, b, 0, 0);
    }
  }

  /** s turns the first i lines of a into the first j lines of b and keeps n of them. */
  ghost predicate Keeps(s: seq<DiffLine>, a: seq<Line>, b: seq<Line>, i: nat, j: nat, n: nat) {
    i <= |a| && j <= |b| && OldOf(s) == a[..i] && NewOf(s) == b[..j] && |Kept(s)| == n
  }

  /** Some script keeps as many lines as the recurrence says. */
  lemma {:induction false} BestScript(a: seq<Line>, b: seq<Line>, i: nat, j: nat) returns (s: seq<DiffLine>)
    requires i <= |a| && j <= |b|
    ensures Keeps(s, a, b, i, j, Lcs(a, b, i, j))
    decreases i + j
  {
    hide Keeps;
    if i == 0 && j == 0 {
      s := NoLines(a, b);
    } else if i > 0 && j > 0 && a[i - 1] == b[j - 1] {
      var t := BestScript(a, b, i - 1, j - 1);
      s := KeepsMore(t, a, b, i - 1, j - 1, Lcs(a, b, i - 1, j - 1), Context);
    } else if i > 0 && (j == 0 || Lcs(a, b, i, j) == Lcs(a, b, i - 1, j)) {
      var t := BestScript(a, b, i - 1, j);
      s := KeepsMore(t, a, b, i - 1, j, Lcs(a, b, i - 1, j), Delete);
    } else {
      var t := BestScript(a, b, i, j - 1);
      s := KeepsMore(t, a, b, i, j - 1, Lcs(a, b, i, j - 1), Add);
    }
  }

  lemma NoLines(a: seq<Line>, b: seq<Line>) returns (s: seq<DiffLine>)
    ensures Keeps(s, a, b, 0, 0, 0)
  {
    s := [];
  }

  lemma KeepsMore(t: seq<DiffLine>, a: seq<Line>, b: seq<Line>, i: nat, j: nat, n: nat, kind: DiffLineType)
    returns (s: seq<DiffLine>)
    requires Keeps(t, a, b, i, j, n)
    requires kind != Add ==> i < |a|
    requires kind != Delete ==> j < |b|
    requires kind == Context ==> a[i] == b[j]
    ensures Keeps(s, a, b, if kind == Add then i else i + 1, if kind == Delete then j else j + 1,
                  if kind == Context then n + 1 else n)
  {
    hide OldOf, NewOf, Kept;
    match kind
    case Context =>
      s := AppendLine(t, DiffLine(Context, a[i], 0, 0));
      TakeOneMore(a, i);
      TakeOneMore(b, j);
    case Add =>
      s := AppendLine(t, DiffLine(Add, b[j], 0, 0));
      TakeOneMore(b, j);
    case Delete =>
      s := AppendLine(t, DiffLine(Delete, a[i], 0, 0));
      TakeOneMore(a, i);
  }

  lemma AppendLine(t: seq<DiffLine>, l: DiffLine) returns (s: seq<DiffLine>)
    ensures s == t + [l]
    ensures OldOf(s) == if l.kind == Add then OldOf(t) else OldOf(t) + [l.text]
    ensures NewOf(s) == if l.kind == Delete then NewOf(t) else NewOf(t) + [l.text]
    ensures Kept(s) == if l.kind == Context then Kept(t) + [l.text] else Kept(t)
  {
    s := t + [l];
    TextsMore(t, l, {Context, Delete});
    TextsMore(t, l, {Context, Add});
    TextsMore(t, l, {Context});
  }

  /** A diff below the guard changes as few lines as any script between the two texts; one
      above it does so exactly when the texts have no line in common. */
  lemma DiffIsMinimal(result: seq<DiffLine>, a: seq<Line>, b: seq<Line>)
    requires IsDiff(result, a, b)
    ensures (forall other :: OldOf(other) == a && NewOf(other) == b ==> Changes(result) <= Changes(other)) <==>
            !TooLarge(|a|, |b|) || forall x, y :: 0 <= x < |a| && 0 <= y < |b| ==> a[x] != b[y]
  {
    ScriptProjects(result, a, b, 0, 0);
    LcsPositive(a, b, |a|, |b|);
    SizesAddUp(result);
    if |Kept(result)| == Lcs(a, b, |a|, |b|) {
      forall other | OldOf(other) == a && NewOf(other) == b ensures Changes(result) <= Changes(other) {
        KeepingMostIsMinimal(result, other);
      }
    } else {
      var best := BestScript(a, b, |a|, |b|);
      SizesAddUp(best);
      assert OldOf(best) == a && NewOf(best) == b && Changes(best) < Changes(result);
    }
  }

  /** A text compared with itself: every line is kept. */
  function AllKept(a: seq<Line>): seq<DiffLine> {
    if a == [] then []
    else AllKept(a[..|a| - 1]) + [DiffLine(Context, a[|a| - 1], |a|, |a|)]
  }

  lemma KeepOneMore(t: seq<DiffLine>, l: DiffLine)
    requires l.kind == Context
    ensures OldOf(t + [l]) == OldOf(t) + [l.text] && NewOf(t + [l]) == NewOf(t) + [l.text]
    ensures Kept(t + [l]) == Kept(t) + [l.text]
  {
    hide Texts;
    TextsMore(t, l, {Context, Delete});
    TextsMore(t, l, {Context, Add});
    TextsMore(t, l, {Context});
  }

  lemma {:induction false} AllKeptProjects(a: seq<Line>)
    ensures OldOf(AllKept(a)) == a && NewOf(AllKept(a)) == a && Kept(AllKept(a)) == a
    decreases |a|
  {
    if a == [] {
    } else {
      var init, l := a[..|a| - 1], DiffLine(Context, a[|a| - 1], |a|, |a|);
      AllKeptProjects(init);
      KeepOneMore(AllKept(init), l);
      hide OldOf, NewOf, Kept;
      assert init + [a[|a| - 1]] == a;
    }
  }

  /** Four thousand equal lines, compared with themselves: the guard trips, the diff changes
      all of them twice, and another one would change nothing. */
  lemma FallbackNotMinimal()
    ensures var a: seq<Line> := seq(4000, _ => "x");
            && TooLarge(|a|, |a|)
            && IsDiff(PlainDiff(a, a), a, a) && Changes(PlainDiff(a, a)) == 8000
            && OldOf(AllKept(a)) == a && NewOf(AllKept(a)) == a && Changes(AllKept(a)) == 0
  {
    var a: seq<Line> := seq(4000, _ => "x");
    GuardTestsProduct(4000, 4000);
    PlainIsDiff(a, a);
    AllKeptProjects(a);
    SizesAddUp(AllKept(a));
  }

  lemma PlainIsDiff(a: seq<Line>, b: seq<Line>)
    requires TooLarge(|a|, |b|)
    ensures IsDiff(PlainDiff(a, b), a, b) && Changes(PlainDiff(a, b)) == |a| + |b|
  {
    hide Changes, TooLarge;
    PlainIsScript(a, b, 0);
    TakeFromStart(PlainDiff(a, b));
    ScriptProjects(PlainDiff(a, b), a, b, 0, 0);
    TakeFromStart(a);
    TakeFromStart(b);
    SizesAddUp(PlainDiff(a, b));
  }

  lemma TakeFromStart<T>(s: seq<T>)
    ensures s[0..] == s
  {
  }
}
