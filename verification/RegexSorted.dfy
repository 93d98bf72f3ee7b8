/** The merge behind std::regex of src/regex.cpp: sort all raw matches, then extend the last
    span or start another; and why both backends agree. */
module RegexSorted {
  import opened Basics
  import opened Sorting
  import opened Intervals
  import opened RegexOnline

  // ---------------------------------------------------------------------------
  // All at once
  // ---------------------------------------------------------------------------

  /** operator< of pairs. */
  predicate Less(a: Interval, b: Interval) {
    if a.start != b.start then a.start < b.start else a.end < b.end
  }

  lemma LessOrders()
    ensures WeakOrder(Less)
  {
  }

  /** The spans after the first i sorted intervals. The last one starts with one of them,
      and is that one if that one is empty. */
  ghost predicate MergedSoFar(sorted: seq<Interval>, i: nat, results: seq<Interval>) {
    && 0 < i <= |sorted| && results != []
    && InOrder(results)
    && IsMerge(AsSet(sorted[..i]), AsSet(results))
    && (exists j :: 0 <= j < i && StartsAs(results[|results| - 1], sorted[j]))
  }

  predicate StartsAs(span: Interval, x: Interval) {
    span.start == x.start && (x.start == x.end ==> span == x)
  }

  lemma AllBeforeLast(results: seq<Interval>, x: Interval)
    requires results != [] && InOrder(results) && x in results
    ensures Proper(x) && x.end <= results[|results| - 1].end
    ensures x in results[..|results| - 1] ==> x.end <= results[|results| - 1].start
  {
  }

  lemma ExtendLast(sorted: seq<Interval>, i: nat, results: seq<Interval>)
    requires Sorted(sorted, Less) && i < |sorted| && MergedSoFar(sorted, i, results)
    requires forall x :: x in sorted ==> Proper(x)
    requires sorted[i].start < results[|results| - 1].end
    ensures var last := results[|results| - 1];
            MergedSoFar(sorted, i + 1,
                        results[..|results| - 1] + [Interval(last.start, Max(last.end, sorted[i].end))])
  {
    hide IsMerge, Sorted, IsHull, Merged, InOrder, AsSet;
    var n, init, last := sorted[i], results[..|results| - 1], results[|results| - 1];
    var h := Interval(last.start, Max(last.end, n.end));
    var j :| 0 <= j < i && StartsAs(last, sorted[j]);
    assert sorted[i] in sorted && sorted[j] in sorted;
    LastOverlaps(sorted, i, j, last);
    LastHull(results, n, h);
    MergeOne(AsSet(sorted[..i]), AsSet(results), n, h);
    SetOneMore(sorted, i);
    LastReplaced(results, h);
    assert StartsAs(h, sorted[j]);
  }

  lemma LastHull(results: seq<Interval>, n: Interval, h: Interval)
    requires results != [] && InOrder(results) && Proper(n)
    requires var last := results[|results| - 1];
             last.start <= n.start && Overlaps(last, n) && h == Interval(last.start, Max(last.end, n.end))
    ensures IsHull(AsSet(results), n, h)
    ensures AsSet(results[..|results| - 1] + [h]) == Merged(AsSet(results), n, h)
  {
    var s, init, last := AsSet(results), results[..|results| - 1], results[|results| - 1];
    assert results == init + [last];
    forall x | x in init ensures !Overlaps(x, n) && x.end <= last.start { AllBeforeLast(results, x); }
    assert last in s;
    assert forall x :: x in s && Overlaps(x, n) ==> x == last;
    forall k: nat | Contains(h, k) ensures Contains(n, k) || exists x :: x in s && Overlaps(x, n) && Contains(x, k) {
      assert Contains(last, k) || Contains(n, k);
    }
  }

  lemma SetOneMore(sorted: seq<Interval>, i: nat)
    requires i < |sorted|
    ensures AsSet(sorted[..i + 1]) == AsSet(sorted[..i]) + {sorted[i]}
  {
    TakeOneMore(sorted, i);
  }

  lemma LastReplaced(results: seq<Interval>, h: Interval)
    requires results != [] && InOrder(results) && Proper(h) && h.start == results[|results| - 1].start
    ensures InOrder(results[..|results| - 1] + [h])
  {
  }

  lemma LastOverlaps(sorted: seq<Interval>, i: nat, j: nat, last: Interval)
    requires Sorted(sorted, Less) && j < i < |sorted| && Proper(sorted[i]) && Proper(sorted[j])
    requires StartsAs(last, sorted[j])
    requires sorted[i].start < last.end
    ensures last.start <= sorted[i].start && Overlaps(last, sorted[i])
    ensures sorted[j].start < sorted[j].end
  {
    SortedAt(sorted, Less, j, i);
  }

  lemma AppendSpan(sorted: seq<Interval>, i: nat, results: seq<Interval>)
    requires i < |sorted| && Proper(sorted[i]) && MergedSoFar(sorted, i, results)
    requires sorted[i].start >= results[|results| - 1].end
    ensures MergedSoFar(sorted, i + 1, results + [sorted[i]])
  {
    var n, s := sorted[i], AsSet(results);
    forall x | x in s ensures !Overlaps(x, n) && x.end <= n.start { AllBeforeLast(results, x); }
    hide IsMerge;
    assert IsHull(s, n, n);
    assert AsSet(results + [n]) == Merged(s, n, n);
    assert InOrder(results + [n]) by { assert forall k :: 0 <= k < |results| ==> results[k] in s; }
    hide IsHull, Merged, InOrder;
    MergeOne(AsSet(sorted[..i]), s, n, n);
    SetOneMore(sorted, i);
    assert StartsAs(n, sorted[i]);
  }

  /** XXRegexStdRegex::match on the collected raw intervals. */
  method SortAndMerge(raw: seq<Interval>) returns (results: seq<Interval>)
    requires forall x :: x in raw ==> Proper(x)
    ensures IsMerge(AsSet(raw), AsSet(results)) && InOrder(results)
  {
    results := [];
    if raw == [] {
      return;
    }
    LessOrders();
    var sorted := Sort(raw, Less);
    SameMembers(sorted, raw);
    SameSet(sorted, raw);
    assert sorted[0] in sorted;
    results := [sorted[0]];
    FirstSpan(sorted);
    for i := 1 to |sorted|
      invariant MergedSoFar(sorted, i, results)
    {
      assert sorted[i] in sorted;
      var last := results[|results| - 1];
      if sorted[i].start < last.end {
        ExtendLast(sorted, i, results);
        results := results[..|results| - 1] + [Interval(last.start, Max(last.end, sorted[i].end))];
      } else {
        AppendSpan(sorted, i, results);
        results := results + [sorted[i]];
      }
    }
    assert sorted[..|sorted|] == sorted;
  }

  lemma SameSet(a: seq<Interval>, b: seq<Interval>)
    requires forall x :: x in a <==> x in b
    ensures AsSet(a) == AsSet(b)
  {
  }

  lemma FirstSpan(sorted: seq<Interval>)
    requires sorted != [] && Proper(sorted[0])
    ensures MergedSoFar(sorted, 1, [sorted[0]])
  {
    var n := sorted[0];
    assert sorted[..1] == [n] && AsSet([n]) == {n};
    assert n in AsSet([n]);
    assert forall k: nat :: Crosses(n, k) ==> Crossed({n}, k);
    assert forall k: nat :: Contains(n, k) ==> Covered({n}, k);
    assert InsideSome(n, {n});
    assert StartsAs(n, sorted[0]);
  }

  // ---------------------------------------------------------------------------
  // Both agree
  // ---------------------------------------------------------------------------

  lemma {:induction false} OrderUnique(a: seq<Interval>, b: seq<Interval>)
    requires InOrder(a) && InOrder(b) && AsSet(a) == AsSet(b)
    requires forall x :: x in a ==> x.start < x.end
    ensures a == b
    decreases |a|, 1
  {
    assert forall x :: x in a <==> x in b by {
      forall x ensures x in a <==> x in b { assert x in AsSet(a) <==> x in AsSet(b); }
    }
    if b == [] {
    } else {
      assert b[0] in b;
    }
    if a != [] {
      assert a[0] in a && a[0] in b && b[0] in a;
      FirstIsLeast(a, b[0]);
      FirstIsLeast(b, a[0]);
      assert a[0] == b[0];
      OrderUniqueTails(a, b);
    }
  }

  lemma FirstIsLeast(a: seq<Interval>, x: Interval)
    requires InOrder(a) && x in a && (forall y :: y in a ==> y.start < y.end)
    ensures a[0].start < x.start || a[0] == x
  {
  }

  lemma OrderUniqueTails(a: seq<Interval>, b: seq<Interval>)
    requires InOrder(a) && InOrder(b) && a != [] && b != [] && a[0] == b[0]
    requires forall x :: x in a <==> x in b
    requires forall x :: x in a ==> x.start < x.end
    ensures a == b
    decreases |a|, 0
  {
    var a', b' := a[1..], b[1..];
    assert a == [a[0]] + a' && b == [b[0]] + b';
    forall x ensures x in a' <==> x in b' {
      if x in a' { assert x in b && x != a[0]; }
      if x in b' { assert x in a && x != b[0]; }
    }
    assert AsSet(a') == AsSet(b');
    OrderUnique(a', b');
  }

  /** The two backends find the same spans, whatever the order in which the hits arrive;
      with ends that do not go back they list them in the same order. */
  lemma BackendsAgree(hits: seq<(nat, nat)>, raw: seq<Interval>, online: seq<Interval>, sorted: seq<Interval>)
    requires RawSet(hits) == AsSet(raw)
    requires IsMerge(RawSet(hits), AsSet(online)) && IsMerge(AsSet(raw), AsSet(sorted))
    requires InOrder(sorted)
    ensures AsSet(online) == AsSet(sorted)
    ensures InOrder(online) && (forall x :: x in online ==> x.start < x.end) ==> online == sorted
  {
    MergeUnique(AsSet(raw), AsSet(online), AsSet(sorted));
    if InOrder(online) && forall x :: x in online ==> x.start < x.end {
      OrderUnique(online, sorted);
    }
  }
}
