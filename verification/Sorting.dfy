/** std::sort, as far as its result is used: the same elements, in the order of operator<. */
module Sorting {

  /** What std::sort asks of operator<. */
  ghost predicate WeakOrder<T(!new)>(less: (T, T) -> bool) {
    && (forall a :: !less(a, a))
    && (forall a, b, c :: less(a, b) && !less(c, b) ==> !less(c, a))
  }

  predicate Sorted<T(!new)>(xs: seq<T>, less: (T, T) -> bool) {
    forall i, j :: 0 <= i < j < |xs| ==> !less(xs[j], xs[i])
  }

  lemma SortedAt<T(!new)>(xs: seq<T>, less: (T, T) -> bool, i: nat, j: nat)
    requires Sorted(xs, less) && i < j < |xs|
    ensures !less(xs[j], xs[i])
  {
  }

  lemma InFront<T(!new)>(x: T, xs: seq<T>, less: (T, T) -> bool)
    requires Sorted(xs, less) && forall y :: y in xs ==> !less(y, x)
    ensures Sorted([x] + xs, less)
  {
    var all := [x] + xs;
    assert forall j :: 0 < j < |all| ==> all[j] == xs[j - 1] && all[j] in xs;
  }

  lemma Rest<T(!new)>(xs: seq<T>, less: (T, T) -> bool)
    requires Sorted(xs, less) && xs != []
    ensures Sorted(xs[1..], less) && forall y :: y in xs[1..] ==> !less(y, xs[0])
  {
    var rest := xs[1..];
    assert forall j :: 0 <= j < |rest| ==> rest[j] == xs[j + 1];
  }

  function Inserted<T(!new)>(xs: seq<T>, x: T, less: (T, T) -> bool): (r: seq<T>)
    requires WeakOrder(less) && Sorted(xs, less)
    ensures Sorted(r, less) && multiset(r) == multiset(xs) + multiset{x}
    ensures forall y :: y in r <==> y in xs || y == x
  {
    if xs == [] then [x]
    else
      Rest(xs, less);
      assert xs == [xs[0]] + xs[1..];
      if less(x, xs[0]) then
        assert less(x, xs[0]) && forall y :: y in xs ==> !less(y, x) by { Below(xs, x, less); }
        InFront(x, xs, less);
        [x] + xs
      else
        var r := Inserted(xs[1..], x, less);
        InFront(xs[0], r, less);
        [xs[0]] + r
  }

  lemma Below<T(!new)>(xs: seq<T>, x: T, less: (T, T) -> bool)
    requires WeakOrder(less) && Sorted(xs, less) && xs != [] && less(x, xs[0])
    ensures forall y :: y in xs ==> !less(y, x)
  {
    Rest(xs, less);
    forall y | y in xs ensures !less(y, xs[0]) && !less(y, x) {
      assert xs == [xs[0]] + xs[1..];
      assert y == xs[0] || y in xs[1..];
    }
  }

  method Sort<T(!new)>(xs: seq<T>, less: (T, T) -> bool) returns (r: seq<T>)
    requires WeakOrder(less)
    ensures Sorted(r, less) && multiset(r) == multiset(xs)
  {
    r := [];
    for i := 0 to |xs|
      invariant Sorted(r, less) && multiset(r) == multiset(xs[..i])
    {
      assert xs[..i + 1] == xs[..i] + [xs[i]];
      r := Inserted(r, xs[i], less);
    }
    assert xs[..|xs|] == xs;
  }

  lemma SameMembers<T>(a: seq<T>, b: seq<T>)
    requires multiset(a) == multiset(b)
    ensures a == [] <==> b == []
    ensures forall x :: x in a <==> x in b
  {
    forall x ensures x in a <==> x in b {
      assert x in a <==> x in multiset(a);
    }
    assert |multiset(a)| == |a| && |multiset(b)| == |b|;
  }
}
