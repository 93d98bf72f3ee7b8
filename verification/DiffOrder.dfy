/** Which of the shortest scripts the walk of include/utilxx/diff_util.h gives: where it
    changes lines, and in which order. */
module DiffOrder {
  import opened Basics
  import opened Lines
  import opened EditScripts

  /** Behind i old lines and j new ones: is the last line of both the same? */
  predicate SameLast(a: seq<Line>, b: seq<Line>, i: nat, j: nat)
    requires i <= |a| && j <= |b|
  {
    i > 0 && j > 0 && a[i - 1] == b[j - 1]
  }

  /** From position i, j on, no line is changed where both texts end with the same line; no
      change costs a line that could be kept; and a line is deleted only where leaving out the
      new line in front of it would cost one. */
  ghost predicate Settled(script: seq<DiffLine>, a: seq<Line>, b: seq<Line>, i: nat, j: nat)
    requires i <= |a| && j <= |b| && IsScript(script, a, b, i, j)
    decreases |script|
  {
    script == [] ||
    match script[0].kind
    case Context => Settled(script[1..], a, b, i + 1, j + 1)
    case Add =>
      && !SameLast(a, b, i, j + 1) && Lcs(a, b, i, j + 1) == Lcs(a, b, i, j)
      && Settled(script[1..], a, b, i, j + 1)
    case Delete =>
      && !SameLast(a, b, i + 1, j) && Lcs(a, b, i + 1, j) == Lcs(a, b, i, j)
      && (j > 0 ==> Lcs(a, b, i + 1, j - 1) < Lcs(a, b, i + 1, j))
      && Settled(script[1..], a, b, i + 1, j)
  }

  /** No added line directly in front of a deleted one. */
  ghost predicate DeletesFirst(script: seq<DiffLine>) {
    forall k :: 0 <= k < |script| - 1 ==> !(script[k].kind == Add && script[k + 1].kind == Delete)
  }

  lemma DeletesFirstMore(l: DiffLine, rest: seq<DiffLine>)
    requires DeletesFirst(rest) && (rest != [] ==> !(l.kind == Add && rest[0].kind == Delete))
    ensures DeletesFirst([l] + rest)
  {
    var all := [l] + rest;
    assert forall k :: 0 < k < |all| ==> all[k] == rest[k - 1];
  }

  /** Blocks of changes begin with the deleted lines. */
  lemma {:induction false} SettledDeletesFirst(script: seq<DiffLine>, a: seq<Line>, b: seq<Line>, i: nat, j: nat)
    requires i <= |a| && j <= |b| && IsScript(script, a, b, i, j) && Settled(script, a, b, i, j)
    ensures DeletesFirst(script)
    decreases |script|
  {
    if script == [] {
    } else {
      var l, rest := script[0], script[1..];
      hide DeletesFirst, Lcs;
      match l.kind
      case Context => SettledDeletesFirst(rest, a, b, i + 1, j + 1);
      case Add =>
        SettledDeletesFirst(rest, a, b, i, j + 1);
        if rest != [] && rest[0].kind == Delete {
          LcsStep(a, b, i, j);
          assert false;
        }
      case Delete => SettledDeletesFirst(rest, a, b, i + 1, j);
      assert script == [l] + rest;
      DeletesFirstMore(l, rest);
    }
  }

  // ---------------------------------------------------------------------------
  // There is only one
  // ---------------------------------------------------------------------------

  /** The script so far, told from its end. */
  ghost predicate EndsAt(script: seq<DiffLine>, a: seq<Line>, b: seq<Line>, i: nat, j: nat)
    requires i <= |a| && j <= |b|
    decreases |script|
  {
    if script == [] then i == 0 && j == 0
    else
      var init, l := script[..|script| - 1], script[|script| - 1];
      match l.kind
      case Context =>
        SameLast(a, b, i, j) && l == DiffLine(Context, a[i - 1], i, j) && EndsAt(init, a, b, i - 1, j - 1)
      case Add =>
        && j > 0 && !SameLast(a, b, i, j) && Lcs(a, b, i, j) == Lcs(a, b, i, j - 1)
        && l == DiffLine(Add, b[j - 1], 0, j) && EndsAt(init, a, b, i, j - 1)
      case Delete =>
        && i > 0 && !SameLast(a, b, i, j) && (j > 0 ==> Lcs(a, b, i, j - 1) < Lcs(a, b, i, j))
        && l == DiffLine(Delete, a[i - 1], i, 0) && EndsAt(init, a, b, i - 1, j)
  }

  lemma EndsMore(done: seq<DiffLine>, l: DiffLine, rest: seq<DiffLine>)
    ensures done + ([l] + rest) == done + [l] + rest && (done + [l])[..|done|] == done
  {
  }

  lemma {:induction false} SettledEnds(done: seq<DiffLine>, rest: seq<DiffLine>, a: seq<Line>, b: seq<Line>, i: nat,
                                       j: nat)
    requires i <= |a| && j <= |b| && EndsAt(done, a, b, i, j)
    requires IsScript(rest, a, b, i, j) && Settled(rest, a, b, i, j)
    ensures EndsAt(done + rest, a, b, |a|, |b|)
    decreases |rest|
  {
    hide Lcs;
    if rest == [] {
      EmptyInFront(done);
    } else {
      var l, more := rest[0], rest[1..];
      assert rest == [l] + more;
      EndsMore(done, l, more);
      match l.kind
      case Context => SettledEnds(done + [l], more, a, b, i + 1, j + 1);
      case Add => SettledEnds(done + [l], more, a, b, i, j + 1);
      case Delete => SettledEnds(done + [l], more, a, b, i + 1, j);
    }
  }

  lemma {:induction false} EndsUnique(s: seq<DiffLine>, t: seq<DiffLine>, a: seq<Line>, b: seq<Line>, i: nat, j: nat)
    requires i <= |a| && j <= |b| && EndsAt(s, a, b, i, j) && EndsAt(t, a, b, i, j)
    ensures s == t
    decreases i + j
  {
    hide Lcs;
    if s != [] && t != [] {
      var l, init, init' := s[|s| - 1], s[..|s| - 1], t[..|t| - 1];
      assert s == init + [l] && t == init' + [l];
      match l.kind
      case Context => EndsUnique(init, init', a, b, i - 1, j - 1);
      case Add => EndsUnique(init, init', a, b, i, j - 1);
      case Delete => EndsUnique(init, init', a, b, i - 1, j);
    }
  }

  /** Two texts have one settled script only. */
  lemma SettledUnique(s: seq<DiffLine>, t: seq<DiffLine>, a: seq<Line>, b: seq<Line>)
    requires IsScript(s, a, b, 0, 0) && IsScript(t, a, b, 0, 0) && Settled(s, a, b, 0, 0) && Settled(t, a, b, 0, 0)
    ensures s == t
  {
    hide IsScript, Settled;
    assert EndsAt([], a, b, 0, 0);
    SettledEnds([], s, a, b, 0, 0);
    SettledEnds([], t, a, b, 0, 0);
    EmptyInFront(s);
    EmptyInFront(t);
    EndsUnique(s, t, a, b, |a|, |b|);
  }
}
