/** Merging raw match intervals: when two sets of intervals are the same matches with
    overlaps merged. Touching intervals stay apart; an empty one stays unless a raw
    interval passes over its position. */
module Intervals {

  /** The positions start .. end - 1. */
  datatype Interval = Interval(start: nat, end: nat)

  predicate Proper(x: Interval) {
    x.start <= x.end
  }

  predicate Contains(x: Interval, k: nat) {
    x.start <= k < x.end
  }

  /** The boundary in front of position k lies inside x. */
  predicate Crosses(x: Interval, k: nat) {
    x.start < k < x.end
  }

  /** The overlap test of the code. */
  predicate Overlaps(x: Interval, y: Interval) {
    x.start < y.end && y.start < x.end
  }

  ghost predicate Covered(r: set<Interval>, k: nat) {
    exists x :: x in r && Contains(x, k)
  }

  ghost predicate Crossed(r: set<Interval>, k: nat) {
    exists x :: x in r && Crosses(x, k)
  }

  ghost predicate InsideSome(x: Interval, s: set<Interval>) {
    exists y :: y in s && y.start <= x.start && x.end <= y.end
  }

  /** s is what merging the overlaps of r gives: disjoint intervals over the same positions,
      every raw interval inside one of them, and no boundary inside one that no raw
      interval passes over. */
  ghost predicate IsMerge(r: set<Interval>, s: set<Interval>) {
    && (forall x :: x in r ==> Proper(x))
    && (forall x :: x in s ==> Proper(x))
    && (forall x, y, k: nat :: x in s && y in s && Contains(x, k) && Contains(y, k) ==> x == y)
    && (forall x, k: nat :: x in s && Contains(x, k) ==> Covered(r, k))
    && (forall x, k: nat :: x in s && Crosses(x, k) ==> Crossed(r, k))
    && (forall x :: x in r && x.start < x.end ==> InsideSome(x, s))
    && (forall x: Interval :: x.start == x.end ==> (x in s <==> x in r && !Crossed(r, x.start)))
  }

  /** Merging changes no position: the same ones are covered. */
  lemma MergeCovers(r: set<Interval>, s: set<Interval>, k: nat)
    requires IsMerge(r, s)
    ensures Covered(s, k) <==> Covered(r, k)
  {
    if x :| x in r && Contains(x, k) {
      assert InsideSome(x, s);
      var y :| y in s && y.start <= x.start && x.end <= y.end;
      assert Contains(y, k);
    }
  }

  /** A raw interval with position k lies inside the span with position k. */
  lemma RawInside(r: set<Interval>, s: set<Interval>, x: Interval, y: Interval, k: nat)
    requires IsMerge(r, s) && x in r && y in s && Contains(x, k) && Contains(y, k)
    ensures y.start <= x.start && x.end <= y.end
  {
    assert InsideSome(x, s);
    var z :| z in s && z.start <= x.start && x.end <= z.end;
    assert Contains(z, k);
  }

  /** Two merges have the same span around a common position. */
  lemma SameSpan(r: set<Interval>, s: set<Interval>, t: set<Interval>, x: Interval, y: Interval, k: nat)
    requires IsMerge(r, s) && IsMerge(r, t) && x in s && y in t && Contains(x, k) && Contains(y, k)
    ensures x.start >= y.start && x.end <= y.end
  {
    if x.start < y.start {
      assert Crosses(x, y.start);
      var z :| z in r && Crosses(z, y.start);
      RawInside(r, t, z, y, y.start);
      assert false;
    }
    if x.end > y.end {
      assert Crosses(x, y.end);
      var z :| z in r && Crosses(z, y.end);
      assert Contains(z, y.end - 1);
      RawInside(r, t, z, y, y.end - 1);
      assert false;
    }
  }

  lemma MergeSubset(r: set<Interval>, s: set<Interval>, t: set<Interval>, x: Interval)
    requires IsMerge(r, s) && IsMerge(r, t) && x in s
    ensures x in t
  {
    if x.start < x.end {
      assert Contains(x, x.start);
      MergeCovers(r, s, x.start);
      MergeCovers(r, t, x.start);
      assert Covered(s, x.start);
      var y :| y in t && Contains(y, x.start);
      SameSpan(r, s, t, x, y, x.start);
      SameSpan(r, t, s, y, x, x.start);
      assert x == y;
    }
  }

  /** There is one merge only. */
  lemma MergeUnique(r: set<Interval>, s: set<Interval>, t: set<Interval>)
    requires IsMerge(r, s) && IsMerge(r, t)
    ensures s == t
  {
    forall x ensures x in s <==> x in t {
      if x in s { MergeSubset(r, s, t, x); }
      if x in t { MergeSubset(r, t, s, x); }
    }
  }

  // ---------------------------------------------------------------------------
  // One more raw interval
  // ---------------------------------------------------------------------------

  /** h is n together with what overlaps it in s: it holds both, and no position of neither. */
  ghost predicate IsHull(s: set<Interval>, n: Interval, h: Interval) {
    && Proper(h) && h.start <= n.start && n.end <= h.end
    && (forall x :: x in s && Overlaps(x, n) ==> h.start <= x.start && x.end <= h.end)
    && (forall k: nat :: Contains(h, k) ==> Contains(n, k) || exists x :: x in s && Overlaps(x, n) && Contains(x, k))
    && (h.start == h.end ==> h == n)
  }

  /** A boundary inside the hull lies inside n or inside something that overlaps n. */
  lemma HullCrossed(s: set<Interval>, n: Interval, h: Interval, k: nat)
    requires IsHull(s, n, h) && Proper(n) && Crosses(h, k)
    ensures Crosses(n, k) || exists x :: x in s && Overlaps(x, n) && Crosses(x, k)
  {
    assert Contains(h, k - 1) && Contains(h, k);
    if Contains(n, k) && !Crosses(n, k) {
      var x :| x in s && Overlaps(x, n) && Contains(x, k - 1);
      assert Crosses(x, k);
    } else if !Contains(n, k) {
      var x :| x in s && Overlaps(x, n) && Contains(x, k);
      if !Crosses(x, k) && !Contains(n, k - 1) {
        var y :| y in s && Overlaps(y, n) && Contains(y, k - 1);
        assert Crosses(y, k) || y.end == k;
      }
    }
  }

  /** The overlap test may use the hull so far instead of n. */
  lemma HullTestsN(r: set<Interval>, s: set<Interval>, t: set<Interval>, n: Interval, h: Interval, x: Interval)
    requires IsMerge(r, s) && t <= s && Proper(n) && IsHull(t, n, h) && x in s
    ensures Overlaps(x, h) <==> Overlaps(x, n)
  {
    if Overlaps(x, h) {
      if x.start < x.end && h.start < h.end {
        var k := if x.start < h.start then h.start else x.start;
        assert Contains(x, k) && Contains(h, k);
        if !Contains(n, k) {
          var y :| y in t && Overlaps(y, n) && Contains(y, k);
          assert x == y;
        }
      } else if h.start < h.end {
        HullCrossed(t, n, h, x.start);
      }
    }
  }

  /** The spans after n arrived: those that overlap it give way to the hull. */
  ghost function Merged(s: set<Interval>, n: Interval, h: Interval): set<Interval> {
    (set x | x in s && !Overlaps(x, n)) + {h}
  }

  /** One more raw interval is merged. */
  lemma MergeOne(r: set<Interval>, s: set<Interval>, n: Interval, h: Interval)
    requires IsMerge(r, s) && Proper(n) && IsHull(s, n, h)
    ensures IsMerge(r + {n}, Merged(s, n, h))
  {
    var r', s' := r + {n}, Merged(s, n, h);
    forall x | x in s' ensures SpanOk(r', s', x) {
      if x == h {
        HullOk(r, s, n, h);
      } else {
        KeptOk(r, s, n, h, x);
      }
    }
    forall x | x in r' && x.start < x.end ensures InsideSome(x, s') {
      StillInside(r, s, n, h, x);
    }
    forall x: Interval | x.start == x.end ensures x in s' <==> x in r' && !Crossed(r', x.start) {
      EmptyOk(r, s, n, h, x);
    }
  }

  ghost predicate SpanOk(r: set<Interval>, s: set<Interval>, x: Interval) {
    && Proper(x)
    && (forall y, k: nat :: y in s && Contains(x, k) && Contains(y, k) ==> x == y)
    && (forall k: nat :: Contains(x, k) ==> Covered(r, k))
    && (forall k: nat :: Crosses(x, k) ==> Crossed(r, k))
  }

  lemma HullOk(r: set<Interval>, s: set<Interval>, n: Interval, h: Interval)
    requires IsMerge(r, s) && Proper(n) && IsHull(s, n, h)
    ensures SpanOk(r + {n}, Merged(s, n, h), h)
  {
    var r', s' := r + {n}, Merged(s, n, h);
    forall k: nat | Contains(h, k) ensures Covered(r', k) {
      if Contains(n, k) {
        assert n in r';
      } else {
        var x :| x in s && Overlaps(x, n) && Contains(x, k);
        var y :| y in r && Contains(y, k);
        assert y in r';
      }
    }
    forall k: nat | Crosses(h, k) ensures Crossed(r', k) {
      HullCrossed(s, n, h, k);
      if Crosses(n, k) {
        assert n in r';
      } else {
        var x :| x in s && Overlaps(x, n) && Crosses(x, k);
        var y :| y in r && Crosses(y, k);
        assert y in r';
      }
    }
    forall y, k: nat | y in s' && Contains(h, k) && Contains(y, k) ensures h == y {
      if y != h { HullTestsN(r, s, s, n, h, y); }
    }
  }

  lemma KeptOk(r: set<Interval>, s: set<Interval>, n: Interval, h: Interval, x: Interval)
    requires IsMerge(r, s) && Proper(n) && IsHull(s, n, h) && x in s && !Overlaps(x, n)
    ensures SpanOk(r + {n}, Merged(s, n, h), x)
  {
    var r' := r + {n};
    HullTestsN(r, s, s, n, h, x);
    forall k: nat | Contains(x, k) ensures Covered(r', k) {
      var y :| y in r && Contains(y, k);
      assert y in r';
    }
    forall k: nat | Crosses(x, k) ensures Crossed(r', k) {
      var y :| y in r && Crosses(y, k);
      assert y in r';
    }
  }

  lemma StillInside(r: set<Interval>, s: set<Interval>, n: Interval, h: Interval, x: Interval)
    requires IsMerge(r, s) && IsHull(s, n, h) && x in r + {n} && x.start < x.end
    ensures InsideSome(x, Merged(s, n, h))
  {
    var s' := Merged(s, n, h);
    assert h in s';
    if x != n {
      assert InsideSome(x, s);
      var y :| y in s && y.start <= x.start && x.end <= y.end;
      if !Overlaps(y, n) { assert y in s'; }
    }
  }

  lemma EmptyOk(r: set<Interval>, s: set<Interval>, n: Interval, h: Interval, x: Interval)
    requires IsMerge(r, s) && Proper(n) && IsHull(s, n, h) && x.start == x.end
    ensures x in Merged(s, n, h) <==> x in r + {n} && !Crossed(r + {n}, x.start)
  {
    var r', s' := r + {n}, Merged(s, n, h);
    var k := x.start;
    assert Crossed(r', k) <==> Crossed(r, k) || Crosses(n, k) by {
      if y :| y in r && Crosses(y, k) { assert y in r'; }
      if Crosses(n, k) { assert n in r'; }
    }
    if x == n {
      if y :| y in r && Crosses(y, k) {
        assert InsideSome(y, s);
        var z :| z in s && z.start <= y.start && y.end <= z.end;
        assert Overlaps(z, n);
      }
      if !Crossed(r, k) {
        forall y | y in s && Overlaps(y, n) ensures false { assert Crosses(y, k); }
        assert forall j: nat :: !Contains(h, j);
        if h.start < h.end { assert Contains(h, h.start); }
      }
    }
  }

  // ---------------------------------------------------------------------------
  // Lists of intervals
  // ---------------------------------------------------------------------------

  ghost function AsSet(xs: seq<Interval>): set<Interval> {
    set x | x in xs
  }

  /** Spans one behind the other. */
  ghost predicate InOrder(xs: seq<Interval>) {
    && (forall k :: 0 <= k < |xs| ==> Proper(xs[k]))
    && (forall k, l :: 0 <= k < l < |xs| ==> xs[k].end <= xs[l].start)
  }
}
