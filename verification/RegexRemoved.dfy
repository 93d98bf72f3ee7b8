/** What remove of src/regex.cpp leaves of a text, for merged spans in any order. */
module RegexRemoved {
  import opened Basics
  import opened Intervals
  import opened RegexOnline
  import opened RegexArrival
  import opened RegexSorted
  import opened RegexEdit

  // ---------------------------------------------------------------------------
  // Lengths
  // ---------------------------------------------------------------------------

  /** The lengths of all spans. */
  function Total(spans: seq<Interval>): int {
    if spans == [] then 0 else spans[0].end - spans[0].start + Total(spans[1..])
  }

  /** No span starts before the one in front of it ends. */
  predicate Ascends(spans: seq<Interval>, from: nat) {
    spans == [] || (from <= spans[0].start && Ascends(spans[1..], spans[0].end))
  }

  /** What is copied twice: the rest of the text, for every span that starts too early. */
  function Repeated(spans: seq<Interval>, from: nat, length: nat): int {
    if spans == [] then 0
    else (if from <= spans[0].start then 0 else length - spans[0].start) + Repeated(spans[1..], spans[0].end, length)
  }

  lemma {:induction false} RemovedLength(input: string, spans: seq<Interval>, from: nat)
    requires from <= |input| && InText(spans, |input|)
    ensures |Replaced(input, spans, from, "")| + Total(spans) == |input| - from + Repeated(spans, from, |input|)
    ensures Repeated(spans, from, |input|) >= 0
    ensures Repeated(spans, from, |input|) == 0 <==> Ascends(spans, from)
    decreases |spans|
  {
    if spans == [] {
    } else {
      InTextRest(spans, |input|);
      RemovedLength(input, spans[1..], spans[0].end);
    }
  }

  lemma {:induction false} AscendsIsOrder(spans: seq<Interval>, from: nat, length: nat)
    requires from <= length && InText(spans, length)
    ensures Ascends(spans, from) <==> Fits(spans, from, length)
    decreases |spans|
  {
    if spans == [] {
    } else {
      InTextRest(spans, length);
      AscendsIsOrder(spans[1..], spans[0].end, length);
      FitsSplit(spans, from, length);
    }
  }

  lemma FitsSplit(spans: seq<Interval>, from: nat, length: nat)
    requires spans != [] && from <= length && InText(spans, length)
    ensures Fits(spans, from, length) <==> from <= spans[0].start && Fits(spans[1..], spans[0].end, length)
  {
    var rest := spans[1..];
    assert forall k :: 0 <= k < |rest| ==> rest[k] == spans[k + 1];
    if from <= spans[0].start && Fits(rest, spans[0].end, length) {
      assert forall k :: 0 < k < |spans| ==> spans[k] == rest[k - 1];
    }
    if Fits(spans, from, length) { FitsRest(spans, from, length); }
  }

  /** One more interval over positions not covered before takes away as many characters. */
  lemma {:induction false} OneMoreCovers(input: string, s: set<Interval>, x: Interval, from: nat)
    requires from <= |input| && x.start <= x.end <= |input|
    requires forall k: nat :: Contains(x, k) ==> !Covered(s, k)
    ensures |Uncovered(input, s, from)| ==
            |Uncovered(input, s + {x}, from)| + if x.end <= from then 0 else x.end - Max(x.start, from)
    decreases |input| - from
  {
    if from == |input| {
    } else {
      OneMoreCovers(input, s, x, from + 1);
      CoveredMore(s, x, from);
      StepOn(input, s, from);
      StepOn(input, s + {x}, from);
      hide Uncovered, Covered;
    }
  }

  lemma CoveredMore(s: set<Interval>, x: Interval, k: nat)
    ensures Covered(s + {x}, k) <==> Covered(s, k) || Contains(x, k)
  {
    if y :| y in s && Contains(y, k) { assert y in s + {x}; }
    if Contains(x, k) { assert x in s + {x}; }
  }

  lemma {:induction false} UncoveredLength(input: string, spans: seq<Interval>)
    requires InText(spans, |input|) && Separate(spans)
    ensures |Uncovered(input, AsSet(spans), 0)| + Total(spans) == |input|
    decreases |spans|
  {
    if spans == [] {
      Stretch(input, AsSet(spans), 0, |input|, false);
    } else {
      var x, rest := spans[0], spans[1..];
      InTextRest(spans, |input|);
      SeparateRest(spans);
      UncoveredLength(input, rest);
      OneMoreCovers(input, AsSet(rest), x, 0);
      assert AsSet(rest) + {x} == AsSet(spans) by { assert spans == [x] + rest; }
    }
  }

  lemma SeparateRest(spans: seq<Interval>)
    requires Separate(spans) && spans != []
    ensures Separate(spans[1..])
    ensures forall k: nat :: Contains(spans[0], k) ==> !Covered(AsSet(spans[1..]), k)
  {
    var rest := spans[1..];
    assert forall i :: 0 <= i < |rest| ==> rest[i] == spans[i + 1];
    forall k: nat | Contains(spans[0], k) ensures !Covered(AsSet(rest), k) {
      forall y | y in AsSet(rest) ensures !Contains(y, k) {
        var i :| 0 <= i < |rest| && rest[i] == y;
        assert spans[i + 1] == y;
      }
    }
  }

  lemma {:induction false} UncoveredSame(input: string, r: set<Interval>, s: set<Interval>, from: nat)
    requires from <= |input| && forall k: nat :: Covered(r, k) <==> Covered(s, k)
    ensures Uncovered(input, r, from) == Uncovered(input, s, from)
    decreases |input| - from
  {
    hide Covered;
    if from == |input| {
    } else {
      UncoveredSame(input, r, s, from + 1);
    }
  }

  /** The uncovered characters: in order, those at the positions that no interval covers. */
  lemma {:induction false} UncoveredAre(input: string, raw: set<Interval>, from: nat) returns (kept: seq<nat>)
    requires from <= |input|
    ensures Picks(input, from, kept, Uncovered(input, raw, from))
    ensures forall k: nat :: from <= k < |input| ==> (k in kept <==> !Covered(raw, k))
    decreases |input| - from
  {
    hide *;
    if from == |input| {
      NothingPicked(input, raw);
      return [];
    }
    StepOn(input, raw, from);
    var rest := UncoveredAre(input, raw, from + 1);
    PickMore(input, from, rest, Uncovered(input, raw, from + 1));
    kept := if Covered(raw, from) then rest else [from] + rest;
    assert "" + Uncovered(input, raw, from + 1) == Uncovered(input, raw, from + 1);
  }

  lemma NothingPicked(input: string, raw: set<Interval>)
    ensures Picks(input, |input|, [], Uncovered(input, raw, |input|))
  {
  }

  // ---------------------------------------------------------------------------
  // When remove is right
  // ---------------------------------------------------------------------------

  lemma MergedInText(raw: set<Interval>, spans: seq<Interval>, length: nat)
    requires IsMerge(raw, AsSet(spans)) && forall x :: x in raw ==> x.end <= length
    ensures InText(spans, length)
  {
    forall k | 0 <= k < |spans| ensures spans[k].start <= spans[k].end <= length {
      var x := spans[k];
      assert x in AsSet(spans);
      if x.start < x.end {
        assert Contains(x, x.end - 1);
        var y :| y in raw && Contains(y, x.end - 1);
      }
    }
  }

  lemma MergeUncovers(input: string, raw: set<Interval>, spans: seq<Interval>)
    requires IsMerge(raw, AsSet(spans))
    ensures Uncovered(input, raw, 0) == Uncovered(input, AsSet(spans), 0)
    ensures CoversSame(raw, spans, 0)
  {
    forall k: nat ensures Covered(raw, k) <==> Covered(AsSet(spans), k) {
      MergeCovers(raw, AsSet(spans), k);
    }
    UncoveredSame(input, raw, AsSet(spans), 0);
  }

  /** With merged spans, remove deletes exactly the characters that some raw interval covers,
      if and only if the spans are listed in order; else it leaves a longer text. */
  lemma RemoveDeletesMatches(input: string, raw: set<Interval>, spans: seq<Interval>)
    requires IsMerge(raw, AsSet(spans)) && Separate(spans)
    requires forall x :: x in raw ==> x.end <= |input|
    ensures InText(spans, |input|)
    ensures Replaced(input, spans, 0, "") == Uncovered(input, raw, 0) <==> InOrder(spans)
    ensures !InOrder(spans) ==> |Replaced(input, spans, 0, "")| > |Uncovered(input, raw, 0)|
  {
    hide *;
    MergedInText(raw, spans, |input|);
    MergeUncovers(input, raw, spans);
    UncoveredLength(input, spans);
    RemovedLength(input, spans, 0);
    AscendsIsOrder(spans, 0, |input|);
    FitsIsOrder(spans, |input|);
    if InOrder(spans) {
      RemovesCovered(input, raw, spans, 0);
    }
  }

  lemma FitsIsOrder(spans: seq<Interval>, length: nat)
    requires InText(spans, length)
    ensures Fits(spans, 0, length) <==> InOrder(spans)
  {
  }

  lemma HitsInText(hits: Hits, length: nat)
    requires forall k :: 0 <= k < |hits| ==> hits[k].0 <= length && hits[k].1 <= length
    ensures forall x :: x in RawSet(hits) ==> x.end <= length
  {
    forall x | x in RawSet(hits) ensures x.end <= length {
      var p :| p in hits && x == Raw(p.0, p.1);
    }
  }

  /** So for the hits of a scan: remove is right if and only if, of any two merged spans, the
      one in front has its last hit before the other one is placed; as when ends do not go
      back. */
  lemma RemoveAfterScan(input: string, hits: Hits, s: set<Interval>)
    requires forall k :: 0 <= k < |hits| ==> hits[k].0 <= |input| && hits[k].1 <= |input|
    requires IsMerge(RawSet(hits), s)
    ensures InText(Online(hits), |input|)
    ensures Replaced(input, Online(hits), 0, "") == Uncovered(input, RawSet(hits), 0) <==> ArriveInOrder(hits, s)
    ensures EndsAscend(hits) ==> ArriveInOrder(hits, s)
  {
    hide *;
    OnlineMerges(hits);
    HitsInText(hits, |input|);
    RemoveDeletesMatches(input, RawSet(hits), Online(hits));
    OrderIsArrival(hits, s);
  }

  /** Spans in order are separate. */
  lemma OrderSeparates(spans: seq<Interval>)
    requires InOrder(spans)
    ensures Separate(spans)
  {
  }

  /** So for the other backend, whose spans are in order, remove is always right. */
  lemma RemoveAfterSort(input: string, raw: set<Interval>, spans: seq<Interval>)
    requires IsMerge(raw, AsSet(spans)) && InOrder(spans)
    requires forall x :: x in raw ==> x.end <= |input|
    ensures InText(spans, |input|) && Replaced(input, spans, 0, "") == Uncovered(input, raw, 0)
  {
    hide *;
    OrderSeparates(spans);
    RemoveDeletesMatches(input, raw, spans);
  }

  /** XXRegexHP::remove */
  method ScanAndRemove(input: string, hits: Hits) returns (results: seq<Interval>, result: string)
    requires |input| < SIZE_T
    requires forall k :: 0 <= k < |hits| ==> hits[k].0 <= |input| && hits[k].1 <= |input|
    ensures IsMerge(RawSet(hits), AsSet(results))
    ensures result == Uncovered(input, RawSet(hits), 0) <==> ArriveInOrder(hits, AsSet(results))
    ensures |result| >= |Uncovered(input, RawSet(hits), 0)|
  {
    hide *;
    results := Scan(hits);
    HitsInText(hits, |input|);
    RemoveDeletesMatches(input, RawSet(hits), results);
    OrderIsArrival(hits, AsSet(results));
    result := Remove(input, results);
  }

  /** XXRegexStdRegex::remove */
  method SortAndRemove(input: string, raw: seq<Interval>) returns (results: seq<Interval>, result: string)
    requires |input| < SIZE_T
    requires forall x :: x in raw ==> Proper(x) && x.end <= |input|
    ensures IsMerge(AsSet(raw), AsSet(results)) && InOrder(results)
    ensures result == Uncovered(input, AsSet(raw), 0)
  {
    assert forall x :: x in AsSet(raw) ==> x.end <= |input|;
    hide *;
    results := SortAndMerge(raw);
    RemoveAfterSort(input, AsSet(raw), results);
    result := Remove(input, results);
  }

  /** Two hits, the later one in front: remove repeats the end of the text. */
  lemma OutOfOrder()
    ensures Online([(2, 3), (0, 1)]) == [Interval(2, 3), Interval(0, 1)]
    ensures InText([Interval(2, 3), Interval(0, 1)], 4)
    ensures Replaced("abcd", [Interval(2, 3), Interval(0, 1)], 0, "") == "abdbcd"
    ensures Uncovered("abcd", RawSet([(2, 3), (0, 1)]), 0) == "bd"
  {
    OnlineOfTwo();
    ReplacedOfTwo();
    UncoveredOfTwo();
  }

  lemma OnlineOfTwo()
    ensures Online([(2, 3), (0, 1)]) == [Interval(2, 3), Interval(0, 1)]
  {
    var hits: seq<(nat, nat)> := [(2, 3), (0, 1)];
    var none: seq<(nat, nat)> := [];
    assert hits[..1] == [(2, 3)] && hits[..1][..0] == none;
    assert Online(none) == [] && Online(hits[..1]) == [Interval(2, 3)];
    assert HullOf([Interval(2, 3)], Interval(0, 1)) == HullOf([], Interval(0, 1));
  }

  lemma ReplacedOfTwo()
    ensures InText([Interval(2, 3), Interval(0, 1)], 4)
    ensures Replaced("abcd", [Interval(2, 3), Interval(0, 1)], 0, "") == "abdbcd"
  {
    var spans := [Interval(2, 3), Interval(0, 1)];
    var text := "abcd";
    assert spans[1..] == [Interval(0, 1)] && spans[1..][1..] == [];
    assert Replaced(text, [], 1, "") == "bcd";
    assert Replaced(text, [Interval(0, 1)], 3, "") == "d" + "" + "bcd";
    assert Gap(text, 0, 2) == "ab";
  }

  lemma UncoveredOfTwo()
    ensures Uncovered("abcd", RawSet([(2, 3), (0, 1)]), 0) == "bd"
  {
    var hits: seq<(nat, nat)> := [(2, 3), (0, 1)];
    var raw := RawSet(hits);
    assert raw == {Interval(2, 3), Interval(0, 1)} by {
      assert hits[0] in hits && hits[1] in hits;
      assert Raw(2, 3) == Interval(2, 3) && Raw(0, 1) == Interval(0, 1);
    }
    assert Contains(Interval(0, 1), 0) && Contains(Interval(2, 3), 2);
    assert Covered(raw, 0) && !Covered(raw, 1) && Covered(raw, 2) && !Covered(raw, 3);
    hide Covered;
    StepOn("abcd", raw, 3);
    StepOn("abcd", raw, 2);
    StepOn("abcd", raw, 1);
    StepOn("abcd", raw, 0);
  }
}
