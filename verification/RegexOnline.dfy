/** The Hyperscan callback of src/regex.cpp, which merges raw matches one at a time. The
    engine is a source of raw intervals. */
module RegexOnline {
  import opened Basics
  import opened Intervals

  /** The callback takes the two ends of a hit in either order. */
  function Raw(from: nat, to: nat): Interval {
    Interval(Min(from, to), Max(from, to))
  }

  /** What is left of results without the intervals that overlap n. */
  function Apart(results: seq<Interval>, n: Interval): (r: seq<Interval>)
    ensures forall x :: x in r <==> x in results && !Overlaps(x, n)
  {
    if results == [] then []
    else (if Overlaps(results[0], n) then [] else [results[0]]) + Apart(results[1..], n)
  }

  /** A new interval together with all of results that overlap it. */
  function HullOf(results: seq<Interval>, n: Interval): Interval {
    if results == [] then n
    else
      var h, x := HullOf(results[..|results| - 1], n), results[|results| - 1];
      if Overlaps(x, n) then Interval(Min(h.start, x.start), Max(h.end, x.end)) else h
  }

  /** The spans after some hits, in the order in which the callback leaves them. */
  function Online(hits: seq<(nat, nat)>): seq<Interval> {
    if hits == [] then []
    else
      var before, hit := Online(hits[..|hits| - 1]), hits[|hits| - 1];
      var n := Raw(hit.0, hit.1);
      Apart(before, n) + [HullOf(before, n)]
  }

  lemma {:induction false} ApartSplit(a: seq<Interval>, b: seq<Interval>, n: Interval)
    ensures Apart(a + b, n) == Apart(a, n) + Apart(b, n)
  {
    if a == [] {
      assert a + b == b;
    } else {
      assert (a + b)[1..] == a[1..] + b;
      ApartSplit(a[1..], b, n);
    }
  }

  lemma {:induction false} ApartAll(a: seq<Interval>, n: Interval)
    requires forall x :: x in a ==> !Overlaps(x, n)
    ensures Apart(a, n) == a
  {
    if a == [] {
    } else {
      assert forall x :: x in a[1..] ==> x in a;
      ApartAll(a[1..], n);
    }
  }

  // ---------------------------------------------------------------------------
  // One at a time
  // ---------------------------------------------------------------------------

  /** The first loop of the callback: the hull of the new interval with all that overlap it,
      and where these are. */
  method FindOverlaps(results: seq<Interval>, n: Interval, ghost raw: set<Interval>)
    returns (mergeStart: nat, mergeEnd: nat, toErase: seq<nat>)
    requires IsMerge(raw, AsSet(results)) && Proper(n)
    ensures mergeStart <= mergeEnd && IsHull(AsSet(results), n, Interval(mergeStart, mergeEnd))
    ensures HullOf(results, n) == Interval(mergeStart, mergeEnd)
    ensures forall e: nat :: e in toErase <==> e < |results| && Overlaps(results[e], n)
    ensures forall i, j :: 0 <= i < j < |toErase| ==> toErase[i] < toErase[j]
  {
    mergeStart, mergeEnd, toErase := n.start, n.end, [];
    HullStart(results, n);
    hide IsMerge, IsHull, AsSet, HullOf;
    for i := 0 to |results|
      invariant mergeStart <= mergeEnd && IsHull(AsSet(results[..i]), n, Interval(mergeStart, mergeEnd))
      invariant HullOf(results[..i], n) == Interval(mergeStart, mergeEnd)
      invariant forall e: nat :: e in toErase <==> e < i && Overlaps(results[e], n)
      invariant forall k, l :: 0 <= k < l < |toErase| ==> toErase[k] < toErase[l]
      invariant forall k :: 0 <= k < |toErase| ==> toErase[k] < i
    {
      var exist := results[i];
      HullStep(raw, results, i, n, Interval(mergeStart, mergeEnd));
      if exist.start < mergeEnd && mergeStart < exist.end {
        mergeStart := Min(mergeStart, exist.start);
        mergeEnd := Max(mergeEnd, exist.end);
        toErase := toErase + [i];
      }
    }
    TakeAll(results);
  }

  lemma HullStart(results: seq<Interval>, n: Interval)
    requires Proper(n)
    ensures IsHull(AsSet(results[..0]), n, n) && HullOf(results[..0], n) == n
  {
    assert AsSet(results[..0]) == {};
  }

  /** The test may use the hull so far, and what it finds widens the hull. */
  lemma HullStep(raw: set<Interval>, results: seq<Interval>, i: nat, n: Interval, h: Interval)
    requires IsMerge(raw, AsSet(results)) && Proper(n) && i < |results|
    requires IsHull(AsSet(results[..i]), n, h) && HullOf(results[..i], n) == h
    ensures Overlaps(results[i], h) <==> Overlaps(results[i], n)
    ensures var x := results[i];
            var h' := if Overlaps(x, n) then Interval(Min(h.start, x.start), Max(h.end, x.end)) else h;
            Proper(h') && IsHull(AsSet(results[..i + 1]), n, h') && HullOf(results[..i + 1], n) == h'
  {
    assert results[i] in AsSet(results);
    HullTestsN(raw, AsSet(results), AsSet(results[..i]), n, h, results[i]);
    HullMore(raw, AsSet(results), results, i, n, h);
    HullOfMore(results, i, n);
  }

  lemma HullOfMore(results: seq<Interval>, i: nat, n: Interval)
    requires i < |results|
    ensures var h, x := HullOf(results[..i], n), results[i];
            HullOf(results[..i + 1], n) ==
            if Overlaps(x, n) then Interval(Min(h.start, x.start), Max(h.end, x.end)) else h
  {
    assert results[..i + 1][..i] == results[..i];
  }

  lemma HullMore(raw: set<Interval>, s: set<Interval>, results: seq<Interval>, i: nat, n: Interval, h: Interval)
    requires IsMerge(raw, s) && s == AsSet(results) && i < |results| && Proper(n)
    requires IsHull(AsSet(results[..i]), n, h)
    ensures var x := results[i];
            IsHull(AsSet(results[..i + 1]), n,
                   if Overlaps(x, n) then Interval(Min(h.start, x.start), Max(h.end, x.end)) else h)
  {
    var x := results[i];
    assert x in s;
    var t, t' := AsSet(results[..i]), AsSet(results[..i + 1]);
    assert t' == t + {x};
    if Overlaps(x, n) {
      var h' := Interval(Min(h.start, x.start), Max(h.end, x.end));
      forall k: nat | Contains(h', k)
        ensures Contains(n, k) || exists y :: y in t' && Overlaps(y, n) && Contains(y, k)
      {
        if Contains(x, k) {
          assert x in t';
        } else if Contains(h, k) && !Contains(n, k) {
          var y :| y in t && Overlaps(y, n) && Contains(y, k);
          assert y in t';
        }
      }
    } else {
      forall k: nat | Contains(h, k) ensures Contains(n, k) || exists y :: y in t' && Overlaps(y, n) && Contains(y, k) {
        if !Contains(n, k) {
          var y :| y in t && Overlaps(y, n) && Contains(y, k);
          assert y in t';
        }
      }
    }
  }

  /** The second loop: erase what was marked, last one first. */
  method EraseMarked(results: seq<Interval>, n: Interval, toErase: seq<nat>) returns (r: seq<Interval>)
    requires forall e: nat :: e in toErase <==> e < |results| && Overlaps(results[e], n)
    requires forall i, j :: 0 <= i < j < |toErase| ==> toErase[i] < toErase[j]
    ensures r == Apart(results, n)
  {
    hide Apart;
    r := results;
    var j := |toErase|;
    ghost var b: nat := |results|;
    EraseStart(results, n, toErase);
    while j > 0
      invariant 0 <= j <= |toErase| && b <= |results|
      invariant forall k :: 0 <= k < j ==> toErase[k] < b
      invariant forall e: nat :: e < b && Overlaps(results[e], n) ==> e in toErase[..j]
      invariant r == results[..b] + Apart(results[b..], n)
    {
      j := j - 1;
      var e := toErase[j];
      assert e in toErase;
      EraseOne(results, n, e, b, toErase, j);
      r := r[..e] + r[e + 1..];
      b := e;
    }
    EraseDone(results, n, b);
  }

  lemma EraseStart(results: seq<Interval>, n: Interval, toErase: seq<nat>)
    requires forall e: nat :: e in toErase <==> e < |results| && Overlaps(results[e], n)
    ensures results == results[..|results|] + Apart(results[|results|..], n)
    ensures forall k :: 0 <= k < |toErase| ==> toErase[k] < |results|
    ensures toErase[..|toErase|] == toErase
  {
    assert forall k :: 0 <= k < |toErase| ==> toErase[k] in toErase;
    assert results[|results|..] == [];
  }

  lemma EraseDone(results: seq<Interval>, n: Interval, b: nat)
    requires b <= |results| && forall e: nat :: e < b ==> !Overlaps(results[e], n)
    ensures results[..b] + Apart(results[b..], n) == Apart(results, n)
  {
    ApartAll(results[..b], n);
    ApartSplit(results[..b], results[b..], n);
    assert results == results[..b] + results[b..];
  }

  lemma EraseOne(results: seq<Interval>, n: Interval, e: nat, b: nat, toErase: seq<nat>, j: nat)
    requires e < b <= |results| && Overlaps(results[e], n)
    requires j < |toErase| && toErase[j] == e
    requires forall k, l :: 0 <= k < l < |toErase| ==> toErase[k] < toErase[l]
    requires forall i: nat :: i < b && Overlaps(results[i], n) ==> i in toErase[..j + 1]
    ensures forall i: nat :: i < e && Overlaps(results[i], n) ==> i in toErase[..j]
    ensures var r := results[..b] + Apart(results[b..], n);
            r[..e] + r[e + 1..] == results[..e] + Apart(results[e..], n)
  {
    assert toErase[..j + 1] == toErase[..j] + [e];
    assert forall i :: i in toErase[..j] ==> i < e;
    ErasedIsApart(results, n, e, b);
  }

  lemma CutOut<T>(s: seq<T>, e: nat, b: nat, kept: seq<T>)
    requires e < b <= |s|
    ensures (s[..b] + kept)[..e] + (s[..b] + kept)[e + 1..] == s[..e] + (s[e + 1..b] + kept)
  {
    assert (s[..b] + kept)[..e] == s[..e];
    assert (s[..b] + kept)[e + 1..] == s[e + 1..b] + kept;
  }

  lemma SplitTail<T>(s: seq<T>, e: nat, b: nat)
    requires e < b <= |s|
    ensures s[e..] == [s[e]] + (s[e + 1..b] + s[b..])
  {
    assert s[e + 1..b] + s[b..] == s[e + 1..];
  }

  lemma ApartOne(x: Interval, rest: seq<Interval>, n: Interval)
    requires Overlaps(x, n)
    ensures Apart([x] + rest, n) == Apart(rest, n)
  {
    assert ([x] + rest)[1..] == rest;
  }

  lemma ErasedIsApart(results: seq<Interval>, n: Interval, e: nat, b: nat)
    requires e < b <= |results| && Overlaps(results[e], n)
    requires forall i :: e < i < b ==> !Overlaps(results[i], n)
    ensures var r := results[..b] + Apart(results[b..], n);
            r[..e] + r[e + 1..] == results[..e] + Apart(results[e..], n)
  {
    hide *;
    var mid, tail := results[e + 1..b], results[b..];
    forall x | x in mid ensures !Overlaps(x, n) {
      var i :| 0 <= i < |mid| && mid[i] == x;
      assert results[e + 1 + i] == x;
    }
    SplitTail(results, e, b);
    ApartOne(results[e], mid + tail, n);
    ApartSplit(mid, tail, n);
    ApartAll(mid, n);
    CutOut(results, e, b, Apart(tail, n));
  }

  /** xxregexMatchCallback */
  method Callback(results: seq<Interval>, from: nat, to: nat, ghost raw: set<Interval>) returns (r: seq<Interval>)
    requires IsMerge(raw, AsSet(results))
    ensures var n := Raw(from, to);
            && IsMerge(raw + {n}, AsSet(r))
            && r == Apart(results, n) + [HullOf(results, n)] && IsHull(AsSet(results), n, HullOf(results, n))
  {
    var n := Interval(Min(from, to), Max(from, to));
    if results != [] {
      var mergeStart, mergeEnd, toErase := FindOverlaps(results, n, raw);
      var kept := EraseMarked(results, n, toErase);
      r := kept + [Interval(mergeStart, mergeEnd)];
    } else {
      r := [n];
    }
    var h := r[|r| - 1];
    MergeOne(raw, AsSet(results), n, h);
    assert AsSet(r) == Merged(AsSet(results), n, h);
  }

  ghost function RawSet(hits: seq<(nat, nat)>): set<Interval> {
    set p | p in hits :: Raw(p.0, p.1)
  }

  /** No raw interval is empty, and ends do not go back. */
  ghost predicate EndsAscend(hits: seq<(nat, nat)>) {
    && (forall i :: 0 <= i < |hits| ==> hits[i].0 < hits[i].1)
    && (forall i, j :: 0 <= i < j < |hits| ==> hits[i].1 <= hits[j].1)
  }

  lemma {:induction false} ApartKeepsOrder(xs: seq<Interval>, n: Interval)
    requires InOrder(xs)
    ensures InOrder(Apart(xs, n))
  {
    if xs == [] {
    } else {
      var rest := xs[1..];
      ApartKeepsOrder(rest, n);
      var kept := Apart(rest, n);
      forall x | x in kept ensures xs[0].end <= x.start {
        var k :| 0 <= k < |rest| && rest[k] == x;
        assert xs[k + 1] == x;
      }
      var all := [xs[0]] + kept;
      assert forall k :: 0 < k < |all| ==> all[k] == kept[k - 1];
    }
  }

  /** The hull of an interval that ends last ends with it. */
  lemma HullEndsLast(s: set<Interval>, n: Interval, h: Interval)
    requires IsHull(s, n, h) && n.start < n.end && forall x :: x in s ==> x.end <= n.end
    ensures h.end == n.end
  {
    if h.end > n.end { assert Contains(h, h.end - 1); }
  }

  /** So it goes to the back of the list. */
  lemma CallbackKeepsOrder(results: seq<Interval>, n: Interval, h: Interval, raw: set<Interval>)
    requires IsMerge(raw, AsSet(results)) && InOrder(results)
    requires forall x :: x in results ==> x.start < x.end <= n.end
    requires n.start < n.end && IsHull(AsSet(results), n, h)
    ensures InOrder(Apart(results, n) + [h])
    ensures forall x :: x in Apart(results, n) + [h] ==> x.start < x.end <= n.end
  {
    ApartKeepsOrder(results, n);
    HullEndsLast(AsSet(results), n, h);
    assert Proper(h) && h.start <= n.start;
    var kept := Apart(results, n);
    forall x | x in kept ensures x.end <= h.start {
      assert x in AsSet(results);
      HullTestsN(raw, AsSet(results), AsSet(results), n, h, x);
    }
    hide IsMerge, IsHull, Apart, AsSet;
    assert forall k :: 0 <= k < |kept| ==> (kept + [h])[k] == kept[k] && kept[k] in kept;
  }

  /** Spans in order, none empty, none ending behind a given position. */
  ghost predicate ListOk(results: seq<Interval>, end: nat) {
    InOrder(results) && forall x :: x in results ==> x.start < x.end <= end
  }

  lemma ListOkOne(results: seq<Interval>, end: nat, n: Interval, h: Interval, raw: set<Interval>)
    requires IsMerge(raw, AsSet(results)) && ListOk(results, end) && end <= n.end
    requires n.start < n.end && IsHull(AsSet(results), n, h)
    ensures ListOk(Apart(results, n) + [h], n.end)
  {
    CallbackKeepsOrder(results, n, h, raw);
  }

  /** No position lies in two spans of a list. */
  ghost predicate Separate(xs: seq<Interval>) {
    forall i, j, k: nat :: 0 <= i < j < |xs| ==> !(Contains(xs[i], k) && Contains(xs[j], k))
  }

  lemma SeparateOne(x: Interval, rest: seq<Interval>)
    requires Separate(rest) && forall y, k: nat :: y in rest ==> !(Contains(x, k) && Contains(y, k))
    ensures Separate([x] + rest) && Separate(rest + [x])
  {
    var front, back := [x] + rest, rest + [x];
    assert forall i :: 0 < i < |front| ==> front[i] == rest[i - 1] && front[i] in rest;
    assert forall i :: 0 <= i < |rest| ==> back[i] == rest[i] && back[i] in rest;
  }

  lemma {:induction false} ApartKeepsSeparate(xs: seq<Interval>, n: Interval)
    requires Separate(xs)
    ensures Separate(Apart(xs, n))
  {
    if xs == [] {
    } else {
      var rest := xs[1..];
      assert forall i :: 0 <= i < |rest| ==> rest[i] == xs[i + 1];
      ApartKeepsSeparate(rest, n);
      if !Overlaps(xs[0], n) {
        forall y, k: nat | y in Apart(rest, n) ensures !(Contains(xs[0], k) && Contains(y, k)) {
          var i :| 0 <= i < |rest| && rest[i] == y;
        }
        SeparateOne(xs[0], Apart(rest, n));
      }
    }
  }

  lemma CallbackKeepsSeparate(raw: set<Interval>, results: seq<Interval>, n: Interval, h: Interval)
    requires IsMerge(raw, AsSet(results)) && Proper(n) && IsHull(AsSet(results), n, h) && Separate(results)
    ensures Separate(Apart(results, n) + [h])
  {
    ApartKeepsSeparate(results, n);
    forall y, k: nat | y in Apart(results, n) ensures !(Contains(h, k) && Contains(y, k)) {
      assert y in AsSet(results);
      HullTestsN(raw, AsSet(results), AsSet(results), n, h, y);
    }
    SeparateOne(h, Apart(results, n));
  }

  lemma {:induction false} HullOfIsHull(raw: set<Interval>, results: seq<Interval>, n: Interval, i: nat)
    requires IsMerge(raw, AsSet(results)) && Proper(n) && i <= |results|
    ensures IsHull(AsSet(results[..i]), n, HullOf(results[..i], n))
  {
    if i == 0 {
      assert AsSet(results[..0]) == {};
    } else {
      HullOfIsHull(raw, results, n, i - 1);
      HullMore(raw, AsSet(results), results, i - 1, n, HullOf(results[..i - 1], n));
      HullOfMore(results, i - 1, n);
    }
  }

  /** Where the scan stands after i hits. */
  ghost predicate Scanned(hits: seq<(nat, nat)>, i: nat, results: seq<Interval>) {
    && i <= |hits|
    && IsMerge(RawSet(hits[..i]), AsSet(results)) && Separate(results)
    && (EndsAscend(hits) ==> ListOk(results, if i == 0 then 0 else hits[i - 1].1))
  }

  lemma ScanOne(hits: seq<(nat, nat)>, i: nat, results: seq<Interval>)
    requires i < |hits| && Scanned(hits, i, results)
    ensures var n := Raw(hits[i].0, hits[i].1);
            Scanned(hits, i + 1, Apart(results, n) + [HullOf(results, n)])
  {
    hide IsMerge, IsHull, Apart, InOrder, AsSet, RawSet, ListOk, HullOf, Merged, Separate;
    var n := Raw(hits[i].0, hits[i].1);
    var h := HullOf(results, n);
    var raw := RawSet(hits[..i]);
    assert results[..|results|] == results;
    HullOfIsHull(raw, results, n, |results|);
    MergeOne(raw, AsSet(results), n, h);
    MergedIs(results, n, h);
    RawSetMore(hits, i);
    CallbackKeepsSeparate(raw, results, n, h);
    if EndsAscend(hits) {
      assert hits[i].0 < hits[i].1 && (i > 0 ==> hits[i - 1].1 <= hits[i].1);
      ListOkOne(results, if i == 0 then 0 else hits[i - 1].1, n, h, raw);
    }
  }

  lemma MergedIs(results: seq<Interval>, n: Interval, h: Interval)
    ensures AsSet(Apart(results, n) + [h]) == Merged(AsSet(results), n, h)
  {
  }

  lemma RawSetMore(hits: seq<(nat, nat)>, i: nat)
    requires i < |hits|
    ensures RawSet(hits[..i + 1]) == RawSet(hits[..i]) + {Raw(hits[i].0, hits[i].1)}
  {
    assert hits[..i + 1] == hits[..i] + [hits[i]];
  }

  lemma OnlineMore(hits: seq<(nat, nat)>, i: nat)
    requires i < |hits|
    ensures var before, n := Online(hits[..i]), Raw(hits[i].0, hits[i].1);
            Online(hits[..i + 1]) == Apart(before, n) + [HullOf(before, n)]
  {
    assert hits[..i + 1][..i] == hits[..i];
  }

  lemma NoHits(hits: seq<(nat, nat)>)
    ensures Scanned(hits, 0, Online(hits[..0]))
  {
    assert hits[..0] == [];
  }

  lemma {:induction false} OnlineScanned(hits: seq<(nat, nat)>, i: nat)
    requires i <= |hits|
    ensures Scanned(hits, i, Online(hits[..i]))
  {
    hide *;
    if i == 0 {
      NoHits(hits);
    } else {
      OnlineScanned(hits, i - 1);
      ScanOne(hits, i - 1, Online(hits[..i - 1]));
      OnlineMore(hits, i - 1);
    }
  }

  /** For every arrival order the spans are the merge of the hits, and no position lies in
      two of them; when ends do not go back they are in order. */
  lemma OnlineMerges(hits: seq<(nat, nat)>)
    ensures IsMerge(RawSet(hits), AsSet(Online(hits))) && Separate(Online(hits))
    ensures EndsAscend(hits) ==> InOrder(Online(hits)) && forall x :: x in Online(hits) ==> x.start < x.end
  {
    OnlineScanned(hits, |hits|);
    assert hits[..|hits|] == hits;
  }

  /** hs_scan: the callback is called with every hit, in some order. */
  method Scan(hits: seq<(nat, nat)>) returns (results: seq<Interval>)
    ensures results == Online(hits)
    ensures IsMerge(RawSet(hits), AsSet(results)) && Separate(results)
    ensures EndsAscend(hits) ==> InOrder(results) && forall x :: x in results ==> x.start < x.end
  {
    hide *;
    results := [];
    ScanStart(hits);
    for i := 0 to |hits|
      invariant results == Online(hits[..i])
    {
      ScanReady(hits, i);
      OnlineMore(hits, i);
      results := Callback(results, hits[i].0, hits[i].1, RawSet(hits[..i]));
    }
    OnlineMerges(hits);
  }

  lemma ScanStart(hits: seq<(nat, nat)>)
    ensures Online(hits[..0]) == [] && hits[..|hits|] == hits
  {
  }

  lemma ScanReady(hits: seq<(nat, nat)>, i: nat)
    requires i < |hits|
    ensures IsMerge(RawSet(hits[..i]), AsSet(Online(hits[..i])))
  {
    OnlineScanned(hits, i);
  }
}
