/** Small things that several modules share. */
module Basics {

  datatype Option<T> = None | Some(value: T)

  /** An unordered container is walked in an order of its own. */
  method NextKey<K>(keys: set<K>) returns (k: K)
    requires keys != {}
    ensures k in keys
  {
    k :| k in keys;
  }

  function Min(a: nat, b: nat): nat {
    if a < b then a else b
  }

  function Max(a: nat, b: nat): nat {
    if a > b then a else b
  }

  predicate StartsWith(s: string, prefix: string) {
    |prefix| <= |s| && s[..|prefix|] == prefix
  }

  lemma Joins<T>(a: seq<T>, b: seq<T>, c: seq<T>)
    ensures a + b + c == a + (b + c)
  {
  }

  lemma JoinsFour<T>(a: seq<T>, b: seq<T>, c: seq<T>, d: seq<T>)
    ensures a + b + (c + d) == a + (b + c) + d == a + (b + (c + d))
  {
  }

  lemma JoinsThree<T>(a: seq<T>, b: seq<T>, c: seq<T>, d: seq<T>)
    ensures a + (b + c + d) == a + b + c + d
  {
  }

  lemma EmptyInFront<T>(s: seq<T>)
    ensures [] + s == s && s + [] == s
  {
  }

  lemma SplitAt<T>(s: seq<T>, i: nat)
    requires i < |s|
    ensures s == s[..i] + ([s[i]] + s[i + 1..])
    ensures s[i..] == [s[i]] + s[i + 1..]
  {
  }

  lemma TakeOneMore<T>(s: seq<T>, k: nat)
    requires k < |s|
    ensures s[..k + 1] == s[..k] + [s[k]] && s[k] in s
  {
  }

  lemma TakeAll<T>(s: seq<T>)
    ensures s[..|s|] == s && s[..0] == []
  {
  }

  /** Strings one behind the other. */
  function Concat(chunks: seq<string>): string {
    if chunks == [] then "" else chunks[0] + Concat(chunks[1..])
  }

  lemma {:induction false} ConcatSplit(a: seq<string>, b: seq<string>)
    ensures Concat(a + b) == Concat(a) + Concat(b)
  {
    if a == [] {
      assert a + b == b;
    } else {
      assert (a + b)[1..] == a[1..] + b;
      ConcatSplit(a[1..], b);
      Joins(a[0], Concat(a[1..]), Concat(b));
    }
  }

  lemma ConcatMore(chunks: seq<string>, x: string)
    ensures Concat(chunks + [x]) == Concat(chunks) + x
  {
    ConcatSplit(chunks, [x]);
    assert [x][1..] == [];
    assert Concat([]) == "";
  }

  /** What stands at these positions from a place on, in order. */
  ghost predicate Picks<T>(s: seq<T>, from: nat, kept: seq<nat>, r: seq<T>) {
    && |kept| == |r|
    && (forall i :: 0 <= i < |kept| ==> from <= kept[i] < |s| && r[i] == s[kept[i]])
    && (forall i, j :: 0 <= i < j < |kept| ==> kept[i] < kept[j])
  }

  lemma PickMore<T>(s: seq<T>, from: nat, kept: seq<nat>, r: seq<T>)
    requires from < |s| && Picks(s, from + 1, kept, r)
    ensures Picks(s, from, kept, r) && Picks(s, from, [from] + kept, [s[from]] + r)
    ensures from !in kept && forall k: nat :: k in [from] + kept <==> k == from || k in kept
  {
    assert forall i :: 0 < i < |kept| + 1 ==>
        ([from] + kept)[i] == kept[i - 1] && ([s[from]] + r)[i] == r[i - 1];
  }
}
