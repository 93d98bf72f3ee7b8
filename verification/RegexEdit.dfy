/** remove and replace of src/regex.cpp, which both backends write the same way, on the
    spans that match returned. */
module RegexEdit {
  import opened Basics
  import opened Intervals

  /** size_t holds the numbers below this one; no text is longer. */
  const SIZE_T: nat := 0x1_0000_0000_0000_0000

  /** The difference of two size_t wraps around. */
  function Minus(a: nat, b: nat): (d: nat)
    requires a < SIZE_T && b < SIZE_T
    ensures d < SIZE_T
  {
    (a - b) % SIZE_T
  }

  /** substr: no further than the end of the text. */
  function Substr(s: string, pos: nat, count: nat): string
    requires pos <= |s|
  {
    if count < |s| - pos then s[pos..pos + count] else s[pos..]
  }

  /** Every span lies within a text; their order is free. */
  ghost predicate InText(spans: seq<Interval>, length: nat) {
    forall k :: 0 <= k < |spans| ==> spans[k].start <= spans[k].end <= length
  }

  /** What is copied in front of a span: for a span that starts before the position reached,
      all the rest of the text, because the difference wraps around. */
  function Gap(input: string, index: nat, start: nat): string
    requires index <= |input| && start <= |input|
  {
    if index <= start then input[index..start] else input[index..]
  }

  lemma SubstrIsGap(input: string, index: nat, start: nat)
    requires index <= |input| < SIZE_T && start <= |input|
    ensures Substr(input, index, Minus(start, index)) == Gap(input, index, start)
  {
    if index <= start {
      assert Minus(start, index) == start - index;
      if start == |input| { assert input[index..start] == input[index..]; }
    } else {
      assert Minus(start, index) == SIZE_T - (index - start);
    }
  }

  /** What the loops make of the text from a position on. */
  ghost function Replaced(input: string, spans: seq<Interval>, from: nat, target: string): string
    requires from <= |input| && InText(spans, |input|)
    decreases |spans|
  {
    if spans == [] then input[from..]
    else
      InTextRest(spans, |input|);
      Gap(input, from, spans[0].start) + target + Replaced(input, spans[1..], spans[0].end, target)
  }

  lemma InTextRest(spans: seq<Interval>, length: nat)
    requires spans != [] && InText(spans, length)
    ensures spans[0].start <= spans[0].end <= length && InText(spans[1..], length)
  {
    var rest := spans[1..];
    assert forall k :: 0 <= k < |rest| ==> rest[k] == spans[k + 1];
  }

  lemma InTextFrom(spans: seq<Interval>, k: nat, length: nat)
    requires k < |spans| && InText(spans, length)
    ensures InText(spans[k..], length) && InText(spans[k + 1..], length)
    ensures spans[k].start <= spans[k].end <= length
    ensures spans[k..][0] == spans[k] && spans[k..][1..] == spans[k + 1..]
  {
  }

  lemma ReplaceOne(input: string, spans: seq<Interval>, k: nat, from: nat, target: string, done: string)
    requires k < |spans| && from <= |input| < SIZE_T && InText(spans, |input|)
    ensures spans[k].start <= spans[k].end <= |input| && InText(spans[k..], |input|) && InText(spans[k + 1..], |input|)
    ensures done + Replaced(input, spans[k..], from, target) ==
            done + Substr(input, from, Minus(spans[k].start, from)) + target
            + Replaced(input, spans[k + 1..], spans[k].end, target)
  {
    hide InText, Substr, Minus, Gap;
    InTextFrom(spans, k, |input|);
    SubstrIsGap(input, from, spans[k].start);
    var gap, rest := Gap(input, from, spans[k].start), Replaced(input, spans[k + 1..], spans[k].end, target);
    assert Replaced(input, spans[k..], from, target) == gap + target + rest;
    JoinsThree(done, gap, target, rest);
  }

  lemma ReplaceStart(input: string, spans: seq<Interval>, target: string)
    requires InText(spans, |input|)
    ensures spans[0..] == spans && "" + Replaced(input, spans, 0, target) == Replaced(input, spans, 0, target)
    ensures spans == [] ==> Replaced(input, spans, 0, target) == input
  {
  }

  lemma ReplaceEnd(input: string, spans: seq<Interval>, from: nat, target: string, done: string)
    requires from <= |input|
    ensures InText(spans[|spans|..], |input|)
    ensures done + Replaced(input, spans[|spans|..], from, target) ==
            if from < |input| then done + input[from..] else done
  {
    assert spans[|spans|..] == [];
  }

  method Replace(input: string, target: string, results: seq<Interval>) returns (result: string)
    requires |input| < SIZE_T && InText(results, |input|)
    ensures result == Replaced(input, results, 0, target)
  {
    hide *;
    ReplaceStart(input, results, target);
    if results == [] {
      return input;
    }
    result := "";
    var index: nat := 0;
    for k := 0 to |results|
      invariant index <= |input| && InText(results[k..], |input|)
      invariant result + Replaced(input, results[k..], index, target) == Replaced(input, results, 0, target)
    {
      ReplaceOne(input, results, k, index, target, result);
      SizesFit(index, |input|, results[k].start);
      result := result + Substr(input, index, Minus(results[k].start, index));
      result := result + target;
      index := results[k].end;
    }
    ReplaceEnd(input, results, index, target, result);
    if index < |input| {
      result := result + input[index..];
    }
  }

  lemma SizesFit(index: nat, length: nat, start: nat)
    requires index <= length < SIZE_T && start <= length
    ensures index < SIZE_T && start < SIZE_T
  {
  }

  /** remove is written out like replace, without a target; it is replacing by nothing,
      whatever the order of the spans. */
  method Remove(input: string, results: seq<Interval>) returns (result: string)
    requires |input| < SIZE_T && InText(results, |input|)
    ensures result == Replaced(input, results, 0, "")
  {
    hide *;
    ReplaceStart(input, results, "");
    if results == [] {
      return input;
    }
    result := "";
    var index: nat := 0;
    for k := 0 to |results|
      invariant index <= |input| && InText(results[k..], |input|)
      invariant result + Replaced(input, results[k..], index, "") == Replaced(input, results, 0, "")
    {
      ReplaceOne(input, results, k, index, "", result);
      SizesFit(index, |input|, results[k].start);
      result := result + Substr(input, index, Minus(results[k].start, index));
      EmptyInFront(result);
      index := results[k].end;
    }
    ReplaceEnd(input, results, index, "", result);
    if index < |input| {
      result := result + input[index..];
    }
  }

  // ---------------------------------------------------------------------------
  // Spans in order
  // ---------------------------------------------------------------------------

  /** The spans lie one behind the other, from a position on, within a text. */
  ghost predicate Fits(spans: seq<Interval>, from: nat, end: nat) {
    && from <= end
    && InOrder(spans)
    && (forall k :: 0 <= k < |spans| ==> from <= spans[k].start && spans[k].end <= end)
  }

  lemma FitsInText(spans: seq<Interval>, from: nat, end: nat)
    requires Fits(spans, from, end)
    ensures from <= end && InText(spans, end)
  {
  }

  /** Pieces with something between them. */
  function Interleaved(pieces: seq<string>, between: seq<string>): string
    requires |pieces| == |between| + 1
  {
    if between == [] then pieces[0] else pieces[0] + between[0] + Interleaved(pieces[1..], between[1..])
  }

  /** The text between the spans, and that of the spans themselves. */
  function Around(input: string, spans: seq<Interval>, from: nat): (r: seq<string>)
    requires from <= |input| && InText(spans, |input|)
    ensures |r| == |spans| + 1
    decreases |spans|
  {
    if spans == [] then [input[from..]]
    else
      InTextRest(spans, |input|);
      [Gap(input, from, spans[0].start)] + Around(input, spans[1..], spans[0].end)
  }

  function Matched(input: string, spans: seq<Interval>): (r: seq<string>)
    requires InText(spans, |input|)
    ensures |r| == |spans| && forall k :: 0 <= k < |r| ==> r[k] == input[spans[k].start..spans[k].end]
  {
    seq(|spans|, k requires 0 <= k < |spans| => input[spans[k].start..spans[k].end])
  }

  function Copies(target: string, n: nat): (r: seq<string>)
    ensures |r| == n && forall k :: 0 <= k < n ==> r[k] == target
  {
    seq(n, _ => target)
  }

  lemma InterleavedMore(piece: string, pieces: seq<string>, x: string, between: seq<string>)
    requires |pieces| == |between| + 1
    ensures Interleaved([piece] + pieces, [x] + between) == piece + x + Interleaved(pieces, between)
  {
    assert ([piece] + pieces)[1..] == pieces && ([x] + between)[1..] == between;
  }

  lemma MatchedMore(input: string, spans: seq<Interval>, target: string)
    requires spans != [] && InText(spans, |input|)
    ensures InText(spans[1..], |input|)
    ensures Matched(input, spans) == [input[spans[0].start..spans[0].end]] + Matched(input, spans[1..])
    ensures Copies(target, |spans|) == [target] + Copies(target, |spans[1..]|)
  {
    InTextRest(spans, |input|);
  }

  /** In order, the spans cut the text into pieces with what they matched between them; and
      replacing puts the target there instead. */
  lemma {:induction false} ReplaceFillsIn(input: string, spans: seq<Interval>, from: nat, target: string)
    requires Fits(spans, from, |input|)
    ensures from <= |input| && InText(spans, |input|)
    ensures Interleaved(Around(input, spans, from), Matched(input, spans)) == input[from..]
    ensures Replaced(input, spans, from, target) == Interleaved(Around(input, spans, from), Copies(target, |spans|))
    decreases |spans|
  {
    FitsInText(spans, from, |input|);
    if spans == [] {
    } else {
      FitsRest(spans, from, |input|);
      MatchedMore(input, spans, target);
      hide Fits, InText, Matched, Copies, Interleaved;
      var x, rest := spans[0], spans[1..];
      ReplaceFillsIn(input, rest, x.end, target);
      var gap, pieces := Gap(input, from, x.start), Around(input, rest, x.end);
      InterleavedMore(gap, pieces, input[x.start..x.end], Matched(input, rest));
      InterleavedMore(gap, pieces, target, Copies(target, |rest|));
      CutInThree(input, from, x.start, x.end);
    }
  }

  lemma CutInThree<T>(s: seq<T>, a: nat, b: nat, c: nat)
    requires a <= b <= c <= |s|
    ensures s[a..] == s[a..b] + s[b..c] + s[c..]
  {
  }

  // ---------------------------------------------------------------------------
  // What is removed
  // ---------------------------------------------------------------------------

  /** The characters from a position on that no raw interval covers. */
  ghost function Uncovered(input: string, raw: set<Interval>, from: nat): string
    requires from <= |input|
    decreases |input| - from
  {
    if from == |input| then ""
    else (if Covered(raw, from) then "" else [input[from]]) + Uncovered(input, raw, from + 1)
  }

  lemma SliceMore<T>(s: seq<T>, from: nat, until: nat)
    requires from < until <= |s|
    ensures s[from..until] == [s[from]] + s[from + 1..until]
  {
  }

  lemma SliceNone<T>(s: seq<T>, from: nat)
    requires from <= |s|
    ensures s[from..from] == []
  {
  }

  lemma StepOn(input: string, raw: set<Interval>, from: nat)
    requires from < |input|
    ensures Uncovered(input, raw, from) ==
            (if Covered(raw, from) then "" else [input[from]]) + Uncovered(input, raw, from + 1)
  {
  }

  /** A stretch that is all covered is gone, one that is not at all stays. */
  lemma {:induction false} Stretch(input: string, raw: set<Interval>, from: nat, until: nat, covered: bool)
    requires from <= until <= |input|
    requires forall k: nat :: from <= k < until ==> Covered(raw, k) == covered
    ensures Uncovered(input, raw, from) == (if covered then "" else input[from..until]) + Uncovered(input, raw, until)
    decreases until - from
  {
    hide *;
    var tail := Uncovered(input, raw, until);
    if from < until {
      Stretch(input, raw, from + 1, until, covered);
      StepOn(input, raw, from);
      if covered {
        EmptyInFront(Uncovered(input, raw, from + 1));
      } else {
        SliceMore(input, from, until);
        Joins([input[from]], input[from + 1..until], tail);
      }
    } else {
      SliceNone(input, from);
      EmptyInFront(tail);
    }
  }

  ghost predicate CoversSame(raw: set<Interval>, spans: seq<Interval>, from: nat) {
    forall k: nat :: k >= from ==> (Covered(raw, k) <==> Covered(AsSet(spans), k))
  }

  ghost predicate AllCovered(raw: set<Interval>, from: nat, until: nat, covered: bool) {
    forall k: nat :: from <= k < until ==> Covered(raw, k) == covered
  }

  /** Nothing is covered in front of the first span, and all of it is. */
  lemma FirstSpanCovers(raw: set<Interval>, spans: seq<Interval>, from: nat, end: nat)
    requires spans != [] && Fits(spans, from, end) && CoversSame(raw, spans, from)
    ensures AllCovered(raw, from, spans[0].start, false)
    ensures AllCovered(raw, spans[0].start, spans[0].end, true)
  {
    var x := spans[0];
    forall k: nat | from <= k < x.start ensures !Covered(raw, k) {
      forall y | y in AsSet(spans) ensures !Contains(y, k) {
        var j :| 0 <= j < |spans| && spans[j] == y;
      }
    }
    forall k: nat | x.start <= k < x.end ensures Covered(raw, k) {
      assert Contains(x, k) && x in AsSet(spans);
    }
  }

  lemma RestCovers(raw: set<Interval>, spans: seq<Interval>, from: nat, end: nat)
    requires spans != [] && Fits(spans, from, end) && CoversSame(raw, spans, from)
    ensures CoversSame(raw, spans[1..], spans[0].end)
  {
    var x, rest := spans[0], spans[1..];
    forall k: nat | k >= x.end ensures Covered(raw, k) <==> Covered(AsSet(rest), k) {
      assert Covered(raw, k) <==> Covered(AsSet(spans), k);
      RestHolds(spans, k);
    }
  }

  lemma RestHolds(spans: seq<Interval>, k: nat)
    requires spans != [] && !Contains(spans[0], k)
    ensures Covered(AsSet(spans), k) <==> Covered(AsSet(spans[1..]), k)
  {
    var rest := spans[1..];
    assert spans == [spans[0]] + rest;
    if y :| y in AsSet(rest) && Contains(y, k) { assert y in AsSet(spans); }
    if y :| y in AsSet(spans) && Contains(y, k) { assert y in AsSet(rest); }
  }

  lemma FitsRest(spans: seq<Interval>, from: nat, end: nat)
    requires spans != [] && Fits(spans, from, end)
    ensures from <= spans[0].start <= spans[0].end <= end && Fits(spans[1..], spans[0].end, end)
  {
    var rest := spans[1..];
    assert forall k :: 0 <= k < |rest| ==> rest[k] == spans[k + 1];
  }

  lemma Stretches(input: string, raw: set<Interval>, from: nat, start: nat, end: nat)
    requires from <= start <= end <= |input|
    requires AllCovered(raw, from, start, false) && AllCovered(raw, start, end, true)
    ensures Uncovered(input, raw, from) == input[from..start] + "" + Uncovered(input, raw, end)
  {
    hide Covered, Uncovered;
    Stretch(input, raw, from, start, false);
    Stretch(input, raw, start, end, true);
    Joins(input[from..start], "", Uncovered(input, raw, end));
  }

  lemma NothingCovered(input: string, raw: set<Interval>, from: nat)
    requires Fits([], from, |input|) && CoversSame(raw, [], from)
    ensures from <= |input| && Uncovered(input, raw, from) == input[from..]
  {
    forall k: nat | from <= k < |input| ensures !Covered(raw, k) {
      assert Covered(raw, k) <==> Covered(AsSet([]), k);
    }
    Stretch(input, raw, from, |input|, false);
    assert Uncovered(input, raw, |input|) == "";
    assert input[from..|input|] + "" == input[from..];
  }

  lemma {:induction false} RemovesCovered(input: string, raw: set<Interval>, spans: seq<Interval>, from: nat)
    requires Fits(spans, from, |input|) && CoversSame(raw, spans, from)
    ensures from <= |input| && InText(spans, |input|)
    ensures Replaced(input, spans, from, "") == Uncovered(input, raw, from)
    decreases |spans|
  {
    hide Fits, CoversSame, Covered, Uncovered, InText;
    FitsInText(spans, from, |input|);
    if spans == [] {
      NothingCovered(input, raw, from);
    } else {
      var x := spans[0];
      FitsRest(spans, from, |input|);
      FirstSpanCovers(raw, spans, from, |input|);
      RestCovers(raw, spans, from, |input|);
      Stretches(input, raw, from, x.start, x.end);
      RemovesCovered(input, raw, spans[1..], x.end);
    }
  }
}
