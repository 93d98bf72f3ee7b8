/** In which order of arrival the hits of a scan leave the spans of the Hyperscan callback of
    src/regex.cpp in order. */
module RegexArrival {
  import opened Basics
  import opened Intervals
  import opened RegexOnline

  type Hits = seq<(nat, nat)>

  /** Hit n is merged into span x, or is x. */
  predicate Meets(n: Interval, x: Interval) {
    n == x || Overlaps(n, x)
  }

  /** Which hit was the last to meet a span, counted from one; 0 if none did. */
  function LastHit(hits: Hits, x: Interval): (t: nat)
    ensures t <= |hits|
  {
    if hits == [] then 0
    else
      var init, hit := hits[..|hits| - 1], hits[|hits| - 1];
      if Meets(Raw(hit.0, hit.1), x) then |hits| else LastHit(init, x)
  }

  /** Which hit was the first. */
  function FirstHit(hits: Hits, x: Interval): (t: nat)
    ensures t <= |hits| && (t == 0 <==> LastHit(hits, x) == 0) && t <= LastHit(hits, x)
  {
    if hits == [] then 0
    else
      var init, hit := hits[..|hits| - 1], hits[|hits| - 1];
      var t := FirstHit(init, x);
      if t == 0 && Meets(Raw(hit.0, hit.1), x) then |hits| else t
  }

  /** The hit that gave a span its place in the list, or its first place: every hit moves a
      span to the end, but an empty one stands there once for each. */
  function PlacedBy(hits: Hits, x: Interval): nat {
    if x.start < x.end then LastHit(hits, x) else FirstHit(hits, x)
  }

  /** Of two spans, the one in front has its last hit before the other one is placed. */
  ghost predicate ArriveInOrder(hits: Hits, s: set<Interval>) {
    forall x, y :: x in s && y in s && x != y && x.end <= y.start ==> LastHit(hits, x) < PlacedBy(hits, y)
  }

  // ---------------------------------------------------------------------------
  // The list with the hits that placed its spans
  // ---------------------------------------------------------------------------

  type Marks = seq<(Interval, nat)>

  function Spans(m: Marks): (r: seq<Interval>)
    ensures |r| == |m| && forall k :: 0 <= k < |m| ==> r[k] == m[k].0
  {
    if m == [] then [] else [m[0].0] + Spans(m[1..])
  }

  function Kept(m: Marks, n: Interval): (r: Marks)
    ensures forall p :: p in r <==> p in m && !Overlaps(p.0, n)
  {
    if m == [] then []
    else (if Overlaps(m[0].0, n) then [] else [m[0]]) + Kept(m[1..], n)
  }

  function Marked(hits: Hits): Marks {
    if hits == [] then []
    else
      var before, hit := Marked(hits[..|hits| - 1]), hits[|hits| - 1];
      var n := Raw(hit.0, hit.1);
      Kept(before, n) + [(HullOf(Spans(before), n), |hits|)]
  }

  lemma SpansSplit(a: Marks, b: Marks)
    ensures Spans(a + b) == Spans(a) + Spans(b)
  {
  }

  lemma {:induction false} SpansKept(m: Marks, n: Interval)
    ensures Spans(Kept(m, n)) == Apart(Spans(m), n)
  {
    if m == [] {
    } else {
      SpansKept(m[1..], n);
      assert Spans(m)[1..] == Spans(m[1..]);
      SpansSplit(if Overlaps(m[0].0, n) then [] else [m[0]], Kept(m[1..], n));
    }
  }

  lemma {:induction false} MarkedIsOnline(hits: Hits)
    ensures Spans(Marked(hits)) == Online(hits)
    decreases |hits|
  {
    if hits == [] {
    } else {
      var before, hit := Marked(hits[..|hits| - 1]), hits[|hits| - 1];
      var n := Raw(hit.0, hit.1);
      MarkedIsOnline(hits[..|hits| - 1]);
      SpansKept(before, n);
      SpansSplit(Kept(before, n), [(HullOf(Spans(before), n), |hits|)]);
    }
  }

  /** Later places have later marks. */
  ghost predicate Ascending(m: Marks, bound: nat) {
    && (forall i, j :: 0 <= i < j < |m| ==> m[i].1 < m[j].1)
    && (forall k :: 0 <= k < |m| ==> m[k].1 <= bound)
  }

  lemma AscendRest(m: Marks, bound: nat)
    requires Ascending(m, bound) && m != []
    ensures Ascending(m[1..], bound) && forall p :: p in m[1..] ==> m[0].1 < p.1
  {
    var rest := m[1..];
    assert forall k :: 0 <= k < |rest| ==> rest[k] == m[k + 1];
  }

  lemma AscendInFront(x: (Interval, nat), rest: Marks, bound: nat)
    requires Ascending(rest, bound) && x.1 <= bound && forall p :: p in rest ==> x.1 < p.1
    ensures Ascending([x] + rest, bound)
  {
    var all := [x] + rest;
    assert forall k :: 0 < k < |all| ==> all[k] == rest[k - 1];
  }

  lemma AscendBehind(m: Marks, x: (Interval, nat), bound: nat)
    requires Ascending(m, bound) && bound < x.1
    ensures Ascending(m + [x], x.1)
  {
    var all := m + [x];
    assert forall k :: 0 <= k < |m| ==> all[k] == m[k];
  }

  lemma {:induction false} KeptAscends(m: Marks, n: Interval, bound: nat)
    requires Ascending(m, bound)
    ensures Ascending(Kept(m, n), bound)
  {
    if m == [] {
    } else {
      AscendRest(m, bound);
      KeptAscends(m[1..], n, bound);
      assert m[0].1 <= bound;
      hide Ascending;
      EmptyInFront(Kept(m[1..], n));
      if !Overlaps(m[0].0, n) { AscendInFront(m[0], Kept(m[1..], n), bound); }
    }
  }

  /** The marks of a span lie between the hit that placed it and its last one, and both are
      among them. */
  ghost predicate Dated(hits: Hits, m: Marks) {
    forall p :: p in m ==> HasDate(hits, m, p)
  }

  ghost predicate HasDate(hits: Hits, m: Marks, p: (Interval, nat)) {
    && 0 < PlacedBy(hits, p.0) <= p.1 <= LastHit(hits, p.0)
    && (p.0, LastHit(hits, p.0)) in m && (p.0, PlacedBy(hits, p.0)) in m
  }

  lemma HitMore(hits: Hits, hit: (nat, nat), x: Interval)
    ensures var n, all := Raw(hit.0, hit.1), hits + [hit];
            && LastHit(all, x) == (if Meets(n, x) then |hits| + 1 else LastHit(hits, x))
            && FirstHit(all, x) == (if FirstHit(hits, x) == 0 && Meets(n, x) then |hits| + 1 else FirstHit(hits, x))
  {
    assert (hits + [hit])[..|hits|] == hits;
  }

  /** An empty hit inside a span is inside its hull too. */
  lemma MeetsHull(s: set<Interval>, n: Interval, h: Interval)
    requires IsHull(s, n, h) && Proper(n)
    ensures Meets(n, h) && (h.start == h.end ==> h == n)
  {
    if h != n && n.start == n.end {
      assert Contains(h, h.start);
      var x :| x in s && Overlaps(x, n) && Contains(x, h.start);
    }
  }

  /** A span that a hit does not overlap stays as it is, but for the hit itself. */
  lemma StaysApart(raw: set<Interval>, s: set<Interval>, n: Interval, h: Interval, x: Interval)
    requires IsMerge(raw, s) && IsHull(s, n, h) && Proper(n) && x in s && !Overlaps(x, n)
    ensures Meets(n, x) ==> x == n && x.start == x.end
    ensures x == h ==> x.start == x.end
    ensures x == n ==> h == n
  {
    if x == n {
      forall y | y in s ensures !Overlaps(y, n) { EmptyOutside(raw, s, y, x); }
      assert !Contains(h, h.start);
    }
    if x == h && x.start < x.end {
      if n.start < n.end {
      } else {
        MeetsHull(s, n, h);
      }
    }
  }

  /** An empty span is in the list as soon as it was hit and nothing crosses it. */
  lemma HitBefore(hits: Hits, x: Interval)
    requires x.start == x.end && LastHit(hits, x) > 0
    ensures x in RawSet(hits) || Crossed(RawSet(hits), x.start)
  {
    var n := |hits| - 1;
    assert hits == hits[..n] + [hits[n]];
    var r := Raw(hits[n].0, hits[n].1);
    assert hits[n] in hits;
    assert r in RawSet(hits);
    if Meets(r, x) {
      if r != x { assert Crosses(r, x.start); }
    } else {
      HitBefore(hits[..n], x);
      RawSetMore(hits, n);
      assert hits[..n + 1] == hits;
      if y :| y in RawSet(hits[..n]) && Crosses(y, x.start) { assert y in RawSet(hits); }
    }
  }

  lemma NotCrossed(raw: set<Interval>, s: set<Interval>, n: Interval, h: Interval)
    requires IsMerge(raw, s) && IsHull(s, n, h) && h == n && h.start == h.end
    ensures !Crossed(raw, h.start)
  {
    forall y | y in raw ensures !Crosses(y, h.start) {
      assert y.start < y.end ==> InsideSome(y, s);
    }
  }

  lemma NewSpanDated(hits: Hits, hit: (nat, nat), m: Marks, h: Interval)
    requires var n, s := Raw(hit.0, hit.1), AsSet(Spans(m));
             IsMerge(RawSet(hits), s) && IsHull(s, n, h) && Dated(hits, m)
    ensures var n, all := Raw(hit.0, hit.1), hits + [hit]; var m' := Kept(m, n) + [(h, |all|)];
            LastHit(all, h) == |all| && HasDate(all, m', (h, |all|))
  {
    var n, s, all := Raw(hit.0, hit.1), AsSet(Spans(m)), hits + [hit];
    MeetsHull(s, n, h);
    HitMore(hits, hit, h);
    if h.start == h.end && FirstHit(hits, h) != 0 {
      HitBefore(hits, h);
      NotCrossed(RawSet(hits), s, n, h);
      assert h in s;
      var k :| 0 <= k < |m| && Spans(m)[k] == h;
      assert m[k] in m && HasDate(hits, m, m[k]);
    }
  }

  lemma KeptSpanDated(hits: Hits, hit: (nat, nat), m: Marks, h: Interval, p: (Interval, nat))
    requires var n, s := Raw(hit.0, hit.1), AsSet(Spans(m));
             IsMerge(RawSet(hits), s) && IsHull(s, n, h) && Dated(hits, m) && p in Kept(m, n)
    requires LastHit(hits + [hit], h) == |hits| + 1
    ensures var n, all := Raw(hit.0, hit.1), hits + [hit]; var m' := Kept(m, n) + [(h, |all|)];
            HasDate(all, m', p)
  {
    assert HasDate(hits, m, p);
    var n, s := Raw(hit.0, hit.1), AsSet(Spans(m));
    var x := p.0;
    assert x in s by {
      var k :| 0 <= k < |m| && m[k] == p;
      assert Spans(m)[k] == x;
    }
    StaysApart(RawSet(hits), s, n, h, x);
    HitMore(hits, hit, x);
  }

  lemma AllDated(hits: Hits, hit: (nat, nat), m: Marks, h: Interval)
    requires var n, s := Raw(hit.0, hit.1), AsSet(Spans(m));
             IsMerge(RawSet(hits), s) && IsHull(s, n, h) && Dated(hits, m)
    ensures Dated(hits + [hit], Kept(m, Raw(hit.0, hit.1)) + [(h, |hits| + 1)])
  {
    hide *;
    var all, kept := hits + [hit], Kept(m, Raw(hit.0, hit.1));
    NewSpanDated(hits, hit, m, h);
    forall p | p in kept + [(h, |all|)] ensures HasDate(all, kept + [(h, |all|)], p) {
      if p in kept { KeptSpanDated(hits, hit, m, h, p); }
    }
    DatedIf(all, kept + [(h, |all|)]);
  }

  lemma DatedMore(hits: Hits, hit: (nat, nat), m: Marks)
    requires IsMerge(RawSet(hits), AsSet(Spans(m))) && Dated(hits, m)
    ensures var n := Raw(hit.0, hit.1);
            Dated(hits + [hit], Kept(m, n) + [(HullOf(Spans(m), n), |hits| + 1)])
  {
    var n, h := Raw(hit.0, hit.1), HullOf(Spans(m), Raw(hit.0, hit.1));
    assert Proper(n);
    hide *;
    TakeAll(Spans(m));
    HullOfIsHull(RawSet(hits), Spans(m), n, |Spans(m)|);
    AllDated(hits, hit, m, h);
  }

  lemma DatedIf(hits: Hits, m: Marks)
    requires forall p :: p in m ==> HasDate(hits, m, p)
    ensures Dated(hits, m)
  {
  }

  lemma MarkedMore(init: Hits, hit: (nat, nat))
    ensures var n, m := Raw(hit.0, hit.1), Marked(init);
            Marked(init + [hit]) == Kept(m, n) + [(HullOf(Spans(m), n), |init| + 1)]
  {
    assert (init + [hit])[..|init|] == init;
  }

  lemma NoMarks()
    ensures Dated([], Marked([])) && Ascending(Marked([]), 0)
  {
  }

  lemma {:induction false} MarksHold(hits: Hits)
    ensures Dated(hits, Marked(hits)) && Ascending(Marked(hits), |hits|) && Spans(Marked(hits)) == Online(hits)
    decreases |hits|
  {
    hide *;
    MarkedIsOnline(hits);
    if hits == [] {
      NoMarks();
    } else {
      var init, hit := hits[..|hits| - 1], hits[|hits| - 1];
      var m, n := Marked(init), Raw(hit.0, hit.1);
      assert hits == init + [hit];
      MarksHold(init);
      OnlineMerges(init);
      MarkedMore(init, hit);
      DatedMore(init, hit, m);
      KeptAscends(m, n, |init|);
      AscendBehind(Kept(m, n), (HullOf(Spans(m), n), |hits|), |init|);
    }
  }

  // ---------------------------------------------------------------------------
  // The condition
  // ---------------------------------------------------------------------------

  /** Two spans of a list lie one behind the other, or are the same empty one. */
  lemma OneBehind(raw: set<Interval>, spans: seq<Interval>, i: nat, j: nat)
    requires IsMerge(raw, AsSet(spans)) && Separate(spans) && i < j < |spans|
    ensures spans[i].end <= spans[j].start || spans[j].end <= spans[i].start
    ensures spans[i] == spans[j] ==> spans[i].end <= spans[j].start
  {
    var x, y := spans[i], spans[j];
    assert x in AsSet(spans) && y in AsSet(spans);
    if x.start < x.end && y.start < y.end {
      assert !(Contains(x, y.start) && Contains(y, y.start)) && !(Contains(x, x.start) && Contains(y, x.start));
    } else {
      if y.start == y.end { EmptyOutside(raw, AsSet(spans), x, y); }
      if x.start == x.end { EmptyOutside(raw, AsSet(spans), y, x); }
    }
  }

  lemma EmptyOutside(raw: set<Interval>, s: set<Interval>, x: Interval, y: Interval)
    requires IsMerge(raw, s) && x in s && y in s && y.start == y.end
    ensures !Crosses(x, y.start)
  {
  }

  /** Later places have later marks, seen from the spans. */
  lemma LaterPlaced(m: Marks, x: (Interval, nat), y: (Interval, nat), bound: nat)
    requires Ascending(m, bound) && InOrder(Spans(m)) && x in m && y in m
    requires x.0 != y.0 && x.0.end <= y.0.start
    ensures x.1 < y.1
  {
    var i :| 0 <= i < |m| && m[i] == x;
    var j :| 0 <= j < |m| && m[j] == y;
    assert Spans(m)[i] == x.0 && Spans(m)[j] == y.0;
  }

  lemma MarkOf(hits: Hits, x: Interval)
    requires Dated(hits, Marked(hits)) && x in Spans(Marked(hits))
    ensures (x, LastHit(hits, x)) in Marked(hits) && (x, PlacedBy(hits, x)) in Marked(hits)
  {
    var m := Marked(hits);
    var k :| 0 <= k < |m| && Spans(m)[k] == x;
    assert m[k] in m && HasDate(hits, m, m[k]);
  }

  lemma ArrivalFromOrder(hits: Hits)
    requires InOrder(Online(hits))
    ensures ArriveInOrder(hits, AsSet(Online(hits)))
  {
    var spans := AsSet(Online(hits));
    MarksHold(hits);
    hide Online, Marked, Ascending, InOrder, LastHit, PlacedBy, Dated, Spans;
    forall x, y | x in spans && y in spans && x != y && x.end <= y.start
      ensures LastHit(hits, x) < PlacedBy(hits, y)
    {
      MarkOf(hits, x);
      MarkOf(hits, y);
      LaterPlaced(Marked(hits), (x, LastHit(hits, x)), (y, PlacedBy(hits, y)), |hits|);
    }
  }

  lemma PlacesInOrder(hits: Hits, m: Marks, i: nat, j: nat, bound: nat)
    requires Dated(hits, m) && Ascending(m, bound) && i < j < |m|
    ensures PlacedBy(hits, m[i].0) < LastHit(hits, m[j].0)
  {
    assert m[i] in m && m[j] in m;
    assert HasDate(hits, m, m[i]) && HasDate(hits, m, m[j]);
  }

  lemma OrderFromArrival(hits: Hits)
    requires ArriveInOrder(hits, AsSet(Online(hits)))
    ensures InOrder(Online(hits))
  {
    var spans := Online(hits);
    MarksHold(hits);
    OnlineMerges(hits);
    hide Online, Marked, Ascending, LastHit, PlacedBy, Dated, Separate;
    forall i, j | 0 <= i < j < |spans| ensures spans[i].end <= spans[j].start {
      OneBehind(RawSet(hits), spans, i, j);
      PlacesInOrder(hits, Marked(hits), i, j, |hits|);
      assert spans[i] in AsSet(spans) && spans[j] in AsSet(spans);
    }
    hide ArriveInOrder;
    forall k | 0 <= k < |spans| ensures Proper(spans[k]) { assert spans[k] in AsSet(spans); }
  }

  /** The callback leaves its spans in order if and only if of any two of them the one in
      front has its last hit before the other one is placed. */
  lemma OrderIsArrival(hits: Hits, s: set<Interval>)
    requires IsMerge(RawSet(hits), s)
    ensures InOrder(Online(hits)) <==> ArriveInOrder(hits, s)
  {
    OnlineMerges(hits);
    MergeUnique(RawSet(hits), s, AsSet(Online(hits)));
    hide *;
    if InOrder(Online(hits)) { ArrivalFromOrder(hits); }
    if ArriveInOrder(hits, s) { OrderFromArrival(hits); }
  }
}
