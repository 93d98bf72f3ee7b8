/** Route paths as lists of segments, and lookup on a set of registered paths: what the
    cursor code of include/utilxx/router.h comes down to. */
module RoutePaths {
  import opened Basics

  type Path = seq<string>

  /** A segment holds no slash, and is not empty. */
  predicate CleanSegment(s: string) {
    s != "" && forall i :: 0 <= i < |s| ==> s[i] != '/'
  }

  ghost predicate CleanPath(p: Path) {
    forall k :: 0 <= k < |p| ==> CleanSegment(p[k])
  }

  function FirstSlash(s: string): (k: nat)
    ensures k <= |s| && (k < |s| ==> s[k] == '/')
    ensures forall i :: 0 <= i < k ==> s[i] != '/'
  {
    if s == "" || s[0] == '/' then 0
    else
      var k := 1 + FirstSlash(s[1..]);
      assert forall i :: 0 < i < k ==> s[i] == s[1..][i - 1];
      k
  }

  /** The non-empty segments of a string. */
  function Segments(s: string): (p: Path)
    ensures CleanPath(p)
    decreases |s|
  {
    if s == "" then []
    else
      var k := FirstSlash(s);
      if k == 0 then Segments(s[1..])
      else if k == |s| then [s]
      else [s[..k]] + Segments(s[k + 1..])
  }

  /** A path as the lookup accumulates it: every segment followed by a slash. */
  function Accumulated(p: Path): string {
    if p == [] then "" else Accumulated(p[..|p| - 1]) + p[|p| - 1] + "/"
  }

  /** A path with slashes between its segments. */
  function Joined(p: Path): string {
    if p == [] then "" else Accumulated(p[..|p| - 1]) + p[|p| - 1]
  }

  /** re_path as the public methods return it. */
  function RePath(p: Path): string {
    if Joined(p) == "" then "" else "/" + Joined(p)
  }

  /** For example. */
  lemma RePathsSpelled()
    ensures RePath([]) == "" && RePath(["a"]) == "/a" && RePath(["a", "*"]) == "/a/*"
  {
    assert ["a"][..0] == [] && ["a", "*"][..1] == ["a"];
    assert Accumulated(["a"]) == "a/" && Joined(["a"]) == "a" && Joined(["a", "*"]) == "a/*";
  }

  lemma AccumulateMore(p: Path, x: string)
    ensures Accumulated(p + [x]) == Accumulated(p) + x + "/" && Joined(p + [x]) == Accumulated(p) + x
  {
    assert (p + [x])[..|p|] == p;
  }

  /** Dropping the slash at the end of what was accumulated gives the joined path. */
  function DropSlash(s: string): string {
    if s != "" && s[|s| - 1] == '/' then s[..|s| - 1] else s
  }

  lemma DropAccumulatedSlash(p: Path)
    ensures DropSlash(Accumulated(p)) == Joined(p)
  {
    if p != [] {
      assert Accumulated(p) == Joined(p) + "/";
    }
  }

  lemma {:induction false} SegmentsSplit(a: string, b: string)
    ensures Segments(a + "/" + b) == Segments(a) + Segments(b)
    decreases |a|
  {
    var s := a + "/" + b;
    if a == "" {
      assert s[1..] == b;
    } else {
      var k := FirstSlash(a);
      SlashIsFirst(s, k);
      if k == 0 {
        assert s[1..] == a[1..] + "/" + b;
        SegmentsSplit(a[1..], b);
      } else if k == |a| {
        assert s[..k] == a && s[k + 1..] == b;
      } else {
        assert s[..k] == a[..k] && s[k + 1..] == a[k + 1..] + "/" + b;
        SegmentsSplit(a[k + 1..], b);
      }
    }
  }

  lemma SlashIsFirst(s: string, k: nat)
    requires k < |s| && s[k] == '/' && forall i :: 0 <= i < k ==> s[i] != '/'
    ensures FirstSlash(s) == k
  {
  }

  lemma NoSlash(s: string)
    requires forall i :: 0 <= i < |s| ==> s[i] != '/'
    ensures FirstSlash(s) == |s| && Segments(s) == if s == "" then [] else [s]
  {
  }

  /** Splitting a joined path gives its segments back. */
  lemma {:induction false} SegmentsOfJoined(p: Path)
    requires CleanPath(p)
    ensures Segments(Joined(p)) == p && Segments(RePath(p)) == p
    decreases |p|
  {
    if p == [] {
    } else {
      var init, x := p[..|p| - 1], p[|p| - 1];
      SegmentsOfJoined(init);
      NoSlash(x);
      assert init + [x] == p;
      if init == [] {
        assert Joined(p) == x;
      } else {
        assert Accumulated(init) == Joined(init) + "/";
        assert Joined(p) == Joined(init) + "/" + x;
        SegmentsSplit(Joined(init), x);
      }
    }
    if Joined(p) != "" {
      assert RePath(p)[1..] == Joined(p);
    }
  }

  function SkipSlashes(s: string): (r: string)
    ensures r == "" || r[0] != '/'
    ensures Segments(r) == Segments(s)
  {
    if s == "" || s[0] != '/' then s else SkipSlashes(s[1..])
  }

  // ---------------------------------------------------------------------------
  // Lookup among registered paths
  // ---------------------------------------------------------------------------

  ghost predicate PrefixClosed(t: set<Path>) {
    [] in t && forall p, x :: p + [x] in t ==> p in t
  }

  /** From node p on: follow the segments; where one is missing, the wildcard child ends
      the walk, else a loose lookup ends at p and a strict one fails. */
  ghost function Lookup(t: set<Path>, p: Path, segs: Path, loose: bool): Option<Path>
    decreases |segs|
  {
    if segs == [] then Some(p)
    else if p + [segs[0]] in t then Lookup(t, p + [segs[0]], segs[1..], loose)
    else if p + ["*"] in t then Some(p + ["*"])
    else if loose then Some(p)
    else None
  }

  lemma {:induction false} LookupIsRegistered(t: set<Path>, p: Path, segs: Path, loose: bool)
    requires p in t
    ensures match Lookup(t, p, segs, loose) case Some(q) => q in t case None => !loose
    decreases |segs|
  {
    if segs != [] && p + [segs[0]] in t {
      LookupIsRegistered(t, p + [segs[0]], segs[1..], loose);
    }
  }

  /** A strict lookup that succeeds is the loose one. */
  lemma {:induction false} StrictIsLoose(t: set<Path>, p: Path, segs: Path)
    ensures Lookup(t, p, segs, false).Some? ==> Lookup(t, p, segs, true) == Lookup(t, p, segs, false)
    decreases |segs|
  {
    if segs != [] && p + [segs[0]] in t {
      StrictIsLoose(t, p + [segs[0]], segs[1..]);
    }
  }

  /** A registered path is found, in both modes. */
  lemma {:induction false} RegisteredIsFound(t: set<Path>, p: Path, segs: Path, loose: bool)
    requires PrefixClosed(t) && p + segs in t
    ensures Lookup(t, p, segs, loose) == Some(p + segs)
    decreases |segs|
  {
    if segs == [] {
      assert p + segs == p;
    } else {
      var p' := p + [segs[0]];
      assert p' + segs[1..] == p + segs;
      PrefixRegistered(t, p', segs[1..]);
      RegisteredIsFound(t, p', segs[1..], loose);
    }
  }

  lemma {:induction false} PrefixRegistered(t: set<Path>, p: Path, rest: Path)
    requires PrefixClosed(t) && p + rest in t
    ensures p in t
    decreases |rest|
  {
    if rest == [] {
      assert p + rest == p;
    } else {
      var init := rest[..|rest| - 1];
      assert p + rest == (p + init) + [rest[|rest| - 1]];
      PrefixRegistered(t, p, init);
    }
  }

  /** What a lookup returns is a path that leads to the same node again. */
  lemma FoundIsFixed(t: set<Path>, segs: Path, loose: bool, again: bool)
    requires PrefixClosed(t)
    ensures Lookup(t, [], segs, loose).Some? ==>
              var q := Lookup(t, [], segs, loose).value;
              Lookup(t, [], q, again) == Some(q)
  {
    LookupIsRegistered(t, [], segs, loose);
    if Lookup(t, [], segs, loose).Some? {
      var q := Lookup(t, [], segs, loose).value;
      assert [] + q == q;
      RegisteredIsFound(t, [], q, again);
    }
  }

  /** How many segments from p on are registered. */
  ghost function Depth(t: set<Path>, p: Path, segs: Path): (k: nat)
    ensures k <= |segs|
    decreases |segs|
  {
    if segs != [] && p + [segs[0]] in t then 1 + Depth(t, p + [segs[0]], segs[1..]) else 0
  }

  /** The lookup told without walking: it ends at the deepest registered prefix when that is
      the whole path, else at its wildcard child if there is one, else it stays there or
      fails. No longer prefix is registered. */
  lemma {:induction false} LookupEndsDeepest(t: set<Path>, p: Path, segs: Path, loose: bool)
    requires PrefixClosed(t) && p in t
    ensures var k := Depth(t, p, segs);
            && p + segs[..k] in t
            && (forall j :: k < j <= |segs| ==> p + segs[..j] !in t)
            && Lookup(t, p, segs, loose) ==
                 if k == |segs| then Some(p + segs)
                 else if p + segs[..k] + ["*"] in t then Some(p + segs[..k] + ["*"])
                 else if loose then Some(p + segs[..k])
                 else None
    decreases |segs|
  {
    if segs == [] {
      assert p + segs == p;
    } else if p + [segs[0]] in t {
      var p', rest := p + [segs[0]], segs[1..];
      LookupEndsDeepest(t, p', rest, loose);
      forall j | 0 <= j <= |rest| ensures p' + rest[..j] == p + segs[..j + 1] {}
      assert p' + rest == p + segs;
      forall j | Depth(t, p, segs) < j <= |segs| ensures p + segs[..j] !in t {
        assert p' + rest[..j - 1] == p + segs[..j];
      }
    } else {
      assert p + segs[..0] == p;
      forall j | 0 < j <= |segs| ensures p + segs[..j] !in t {
        if p + segs[..j] in t {
          assert p + segs[..j] == (p + [segs[0]]) + segs[1..j];
          PrefixRegistered(t, p + [segs[0]], segs[1..j]);
        }
      }
    }
  }

  /** All beginnings of p + segs that go beyond p, and p itself. */
  ghost function Along(p: Path, segs: Path): (ps: set<Path>)
    decreases |segs|
  {
    if segs == [] then {p} else {p} + Along(p + [segs[0]], segs[1..])
  }

  lemma {:induction false} AlongHasEnds(p: Path, segs: Path)
    ensures p in Along(p, segs) && p + segs in Along(p, segs)
    decreases |segs|
  {
    if segs == [] {
      assert p + segs == p;
    } else {
      AlongHasEnds(p + [segs[0]], segs[1..]);
      assert (p + [segs[0]]) + segs[1..] == p + segs;
    }
  }
}
