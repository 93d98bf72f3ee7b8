/** normalizeUrlPath of src/http_client.cpp: one buffer and a stack of positions in it do
    the work of a stack of segments. */
module UrlPath {
  import opened Basics
  import opened RoutePaths

  // ---------------------------------------------------------------------------
  // Where a path leads
  // ---------------------------------------------------------------------------

  /** One step from a place: "." stays, ".." goes up but not above the root. */
  function Visit(place: Path, segment: string): Path {
    if segment == "." then place
    else if segment == ".." then (if place == [] then [] else place[..|place| - 1])
    else place + [segment]
  }

  /** The place that a list of segments leads to. */
  function Walk(place: Path, segments: Path): Path
    decreases |segments|
  {
    if segments == [] then place else Walk(Visit(place, segments[0]), segments[1..])
  }

  ghost predicate NoDots(p: Path) {
    forall k :: 0 <= k < |p| ==> p[k] != "." && p[k] != ".."
  }

  /** Does the list end with a step up, not counting what stays? */
  predicate EndsUp(segments: Path) {
    segments != [] &&
    var last := segments[|segments| - 1];
    last == ".." || (last == "." && EndsUp(segments[..|segments| - 1]))
  }

  /** The normal form of a path: where it leads, with a slash at the end exactly when its
      last real step goes up to a place other than the root. */
  function Normal(path: string): string {
    var segments := Segments(path);
    var place := Walk([], segments);
    if place == [] then "/" else "/" + (if EndsUp(segments) then Accumulated(place) else Joined(place))
  }

  lemma {:induction false} WalkFrom(place: Path, segments: Path)
    requires CleanPath(place) && NoDots(place) && CleanPath(segments)
    ensures CleanPath(Walk(place, segments)) && NoDots(Walk(place, segments))
    decreases |segments|
  {
    if segments == [] {
    } else {
      WalkFrom(Visit(place, segments[0]), segments[1..]);
    }
  }

  /** Names only lead down. */
  lemma {:induction false} WalkDown(place: Path, segments: Path)
    requires NoDots(segments)
    ensures Walk(place, segments) == place + segments
    decreases |segments|
  {
    if segments == [] {
    } else {
      WalkDown(Visit(place, segments[0]), segments[1..]);
      assert place + [segments[0]] + segments[1..] == place + segments;
    }
  }

  lemma {:induction false} WalkSplit(place: Path, a: Path, b: Path)
    ensures Walk(place, a + b) == Walk(Walk(place, a), b)
    decreases |a|
  {
    if a == [] {
      assert a + b == b;
    } else {
      assert (a + b)[1..] == a[1..] + b;
      WalkSplit(Visit(place, a[0]), a[1..], b);
    }
  }

  // ---------------------------------------------------------------------------
  // The buffer
  // ---------------------------------------------------------------------------

  /** What the loop knows: the place, and whether the buffer ends with a slash left over
      from a step up. */
  datatype State = State(place: Path, slash: bool)

  function Apply(s: State, segment: string): State {
    State(Visit(s.place, segment),
          if segment == "." then s.slash
          else if segment == ".." then s.slash || s.place != []
          else false)
  }

  /** The contents of result. */
  function Buffer(s: State): string {
    if s.place == [] then (if s.slash then "/" else "")
    else "/" + (if s.slash then Accumulated(s.place) else Joined(s.place))
  }

  /** Where a segment behind the given ones starts. */
  function StartOf(before: Path): nat {
    1 + |Accumulated(before)|
  }

  ghost predicate Holds(s: State, result: string, segStarts: seq<nat>) {
    && CleanPath(s.place)
    && result == Buffer(s)
    && |segStarts| == |s.place|
    && (forall k :: 0 <= k < |segStarts| ==> segStarts[k] == StartOf(s.place[..k]))
  }

  lemma LastOfBuffer(s: State)
    requires CleanPath(s.place)
    ensures Buffer(s) == "" || Buffer(s)[|Buffer(s)| - 1] != '/' <==> !s.slash
    ensures (if s.slash then Buffer(s) else Buffer(s) + "/") == "/" + Accumulated(s.place)
  {
    if s.place != [] {
      var x := s.place[|s.place| - 1];
      assert CleanSegment(x);
      var a := Accumulated(s.place[..|s.place| - 1]);
      assert Joined(s.place) == a + x && Accumulated(s.place) == a + x + "/";
    }
  }

  lemma StackMore<T>(p: seq<T>, x: T)
    ensures forall k :: 0 <= k <= |p| ==> (p + [x])[..k] == p[..k]
    ensures p[..|p|] == p
  {
  }

  /** The buffer with one more segment. */
  lemma BufferMore(s: State, segment: string)
    requires CleanPath(s.place) && segment != "." && segment != ".."
    ensures Buffer(Apply(s, segment)) == (if s.slash then Buffer(s) else Buffer(s) + "/") + segment
    ensures |if s.slash then Buffer(s) else Buffer(s) + "/"| == StartOf(s.place)
  {
    hide Accumulated, Joined, CleanSegment, CleanPath;
    LastOfBuffer(s);
    AccumulateMore(s.place, segment);
    Joins("/", Accumulated(s.place), segment);
  }

  lemma Pushed(s: State, result: string, segStarts: seq<nat>, segment: string)
    requires Holds(s, result, segStarts) && CleanSegment(segment) && segment != "." && segment != ".."
    ensures var slashed := if result == "" || result[|result| - 1] != '/' then result + "/" else result;
            Holds(Apply(s, segment), slashed + segment, segStarts + [|slashed|])
  {
    hide Buffer, StartOf, CleanSegment;
    LastOfBuffer(s);
    BufferMore(s, segment);
    StackMore(s.place, segment);
  }

  lemma Popped(s: State, result: string, segStarts: seq<nat>)
    requires Holds(s, result, segStarts) && segStarts != []
    ensures var n := |segStarts| - 1;
            segStarts[n] <= |result| && Holds(Apply(s, ".."), result[..segStarts[n]], segStarts[..n])
  {
    var n := |segStarts| - 1;
    var up := s.place[..n];
    var a := Accumulated(up);
    assert Joined(s.place) == a + s.place[n];
    assert result[..1 + |a|] == "/" + a;
    assert forall k :: 0 <= k < n ==> up[..k] == s.place[..k];
  }

  /** The fold over the segments that are left. */
  function Rest(s: State, segments: Path): State
    decreases |segments|
  {
    if segments == [] then s else Rest(Apply(s, segments[0]), segments[1..])
  }

  lemma SkipSlash(path: string, i: nat)
    requires i < |path| && path[i] == '/'
    ensures Segments(path[i..]) == Segments(path[i + 1..])
  {
    assert FirstSlash(path[i..]) == 0;
    assert path[i..][1..] == path[i + 1..];
  }

  lemma SliceOfTail<T>(s: seq<T>, i: nat, k: nat)
    requires i + k <= |s|
    ensures s[i..][..k] == s[i..i + k] && s[i..][k..] == s[i + k..]
  {
  }

  lemma FirstIsClean(s: string)
    requires s != "" && s[0] != '/'
    ensures 0 < FirstSlash(s) <= |s| && CleanSegment(s[..FirstSlash(s)])
  {
  }

  lemma WholeAndNone<T>(s: seq<T>)
    ensures s[..|s|] == s && s[|s|..] == [] && [s] + [] == [s]
  {
  }

  lemma FirstSegment(s: string)
    requires s != "" && s[0] != '/'
    ensures var k := FirstSlash(s);
            && 0 < k <= |s| && CleanSegment(s[..k])
            && Segments(s) == [s[..k]] + Segments(s[if k == |s| then k else k + 1..])
  {
    FirstIsClean(s);
    hide FirstSlash, CleanSegment, CleanPath;
    if FirstSlash(s) == |s| {
      WholeAndNone(s);
      assert Segments("") == [];
    }
  }

  lemma TakeSegment(path: string, i: nat)
    requires i < |path| && path[i] != '/'
    ensures var segEnd := i + FirstSlash(path[i..]);
            && i < segEnd <= |path| && CleanSegment(path[i..segEnd])
            && Segments(path[i..]) ==
               [path[i..segEnd]] + Segments(path[if segEnd == |path| then segEnd else segEnd + 1..])
  {
    hide *;
    var rest := path[i..];
    assert rest[0] == path[i];
    FirstSegment(rest);
    var k := FirstSlash(rest);
    SliceOfTail(path, i, k);
    SliceOfTail(path, i, if k == |rest| then k else k + 1);
  }

  method NormalizeUrlPath(path: string) returns (r: string)
    ensures r == Normal(path)
  {
    hide *;
    var result := "";
    var segStarts: seq<nat> := [];
    var i: nat := 0;
    ghost var s := State([], false);
    Started(path);
    while i < |path|
      invariant i <= |path|
      invariant Holds(s, result, segStarts)
      invariant Rest(s, Segments(path[i..])) == Rest(State([], false), Segments(path))
    {
      while i < |path| && path[i] == '/'
        invariant i <= |path|
        invariant Rest(s, Segments(path[i..])) == Rest(State([], false), Segments(path))
      {
        SkipSlash(path, i);
        i := i + 1;
      }
      if i >= |path| {
        break;
      }
      TakeSegment(path, i);
      var segEnd := i + FirstSlash(path[i..]);
      var seg := path[i..segEnd];
      RestOne(s, seg, Segments(path[if segEnd == |path| then segEnd else segEnd + 1..]));
      if seg == "." {
        Stayed(s);
      } else if seg == ".." {
        if segStarts != [] {
          Popped(s, result, segStarts);
          result := result[..segStarts[|segStarts| - 1]];
          segStarts := segStarts[..|segStarts| - 1];
        } else {
          AtRoot(s, result, segStarts);
        }
      } else {
        Pushed(s, result, segStarts, seg);
        if result == "" || result[|result| - 1] != '/' {
          result := result + "/";
        }
        segStarts := segStarts + [|result|];
        result := result + seg;
      }
      s := Apply(s, seg);
      i := if segEnd == |path| then segEnd else segEnd + 1;
    }
    Finished(path, i, s, result, segStarts);
    if result == "" {
      return "/";
    }
    return result;
  }

  lemma Started(path: string)
    ensures path[0..] == path && Holds(State([], false), "", [])
  {
  }

  lemma RestOne(s: State, seg: string, rest: Path)
    ensures Rest(s, [seg] + rest) == Rest(Apply(s, seg), rest)
  {
    assert ([seg] + rest)[1..] == rest;
  }

  lemma Stayed(s: State)
    ensures Apply(s, ".") == s
  {
  }

  lemma AtRoot(s: State, result: string, segStarts: seq<nat>)
    requires Holds(s, result, segStarts) && segStarts == []
    ensures Apply(s, "..") == s
  {
  }

  lemma {:induction false} RestIs(s: State, segments: Path)
    ensures Rest(s, segments).place == Walk(s.place, segments)
    decreases |segments|
  {
    if segments == [] {
    } else {
      RestIs(Apply(s, segments[0]), segments[1..]);
    }
  }

  lemma {:induction false} RestLast(s: State, segments: Path)
    requires segments != []
    ensures var n := |segments| - 1;
            Rest(s, segments) == Apply(Rest(s, segments[..n]), segments[n])
    decreases |segments|
  {
    var n := |segments| - 1;
    if n > 0 {
      RestLast(Apply(s, segments[0]), segments[1..]);
      assert segments[1..][..n - 1] == segments[..n][1..];
    }
  }

  /** The flag of the loop, told by looking at the end of the list, while not at the root. */
  lemma {:induction false} SlashIs(segments: Path)
    ensures var s := Rest(State([], false), segments);
            s.place != [] ==> (s.slash <==> EndsUp(segments))
    decreases |segments|
  {
    if segments == [] {
    } else {
      var init := segments[..|segments| - 1];
      RestLast(State([], false), segments);
      SlashIs(init);
    }
  }

  lemma Finished(path: string, i: nat, s: State, result: string, segStarts: seq<nat>)
    requires i == |path| && Holds(s, result, segStarts)
    requires Rest(s, Segments(path[i..])) == Rest(State([], false), Segments(path))
    ensures (if result == "" then "/" else result) == Normal(path)
  {
    assert path[i..] == "";
    var segments := Segments(path);
    RestIs(State([], false), segments);
    SlashIs(segments);
  }

  // ---------------------------------------------------------------------------
  // What the normal form is
  // ---------------------------------------------------------------------------

  predicate NoDoubleSlash(s: string) {
    forall i :: 0 <= i < |s| - 1 ==> !(s[i] == '/' && s[i + 1] == '/')
  }

  predicate SlashEnd(s: string) {
    s != "" && s[|s| - 1] == '/'
  }

  lemma {:induction false} AccumulatedSlashes(p: Path)
    requires CleanPath(p)
    ensures NoDoubleSlash("/" + Joined(p)) && NoDoubleSlash("/" + Accumulated(p))
    decreases |p|
  {
    if p == [] {
    } else {
      hide NoDoubleSlash, CleanSegment;
      var a, x := "/" + Accumulated(p[..|p| - 1]), p[|p| - 1];
      AccumulatedSlashes(p[..|p| - 1]);
      JoinSlashes(a, x);
      assert "/" + Joined(p) == a + x;
      assert "/" + Accumulated(p) == a + x + "/";
    }
  }

  lemma JoinSlashes(a: string, x: string)
    requires NoDoubleSlash(a) && CleanSegment(x)
    ensures NoDoubleSlash(a + x) && NoDoubleSlash(a + x + "/")
  {
    forall i | 0 <= i < |a + x| ensures (a + x)[i] != '/' || i < |a| {
      if i >= |a| { assert (a + x)[i] == x[i - |a|]; }
    }
  }

  lemma LastIsSlash(p: Path)
    requires CleanPath(p) && p != []
    ensures Accumulated(p) == Joined(p) + "/" && Joined(p) != "" && !SlashEnd("/" + Joined(p))
  {
    var x := p[|p| - 1];
    assert CleanSegment(x);
  }

  lemma SegmentsOfNormal(path: string)
    ensures Segments(Normal(path)) == Walk([], Segments(path))
  {
    hide Walk, EndsUp, Accumulated, Joined, Segments;
    var place := Walk([], Segments(path));
    WalkFrom([], Segments(path));
    SegmentsAccumulated(place);
  }

  lemma SegmentsAccumulated(p: Path)
    requires CleanPath(p)
    ensures Segments("/" + Joined(p)) == p && Segments("/" + Accumulated(p)) == p
    ensures p == [] ==> Segments("/") == p
  {
    SegmentsOfJoined(p);
    if p == [] {
      assert "/"[1..] == "";
    } else {
      assert ("/" + Joined(p))[1..] == Joined(p);
      SegmentsSplit("/" + Joined(p), "");
      assert "/" + Joined(p) + "/" + "" == "/" + Accumulated(p);
      assert p + [] == p;
    }
  }

  /** The normal form starts with a slash, has no empty, "." or ".." segment, and leads to
      the same place as the path. */
  lemma NormalForm(path: string)
    ensures var r := Normal(path);
            && r != "" && r[0] == '/' && NoDoubleSlash(r)
            && NoDots(Segments(r)) && Segments(r) == Walk([], Segments(path))
            && Walk([], Segments(r)) == Walk([], Segments(path))
  {
    var place := Walk([], Segments(path));
    WalkFrom([], Segments(path));
    SegmentsOfNormal(path);
    WalkDown([], place);
    AccumulatedSlashes(place);
  }

  /** Two paths have normal forms that differ at most in a slash at the end exactly when
      they lead to the same place. */
  lemma SamePlace(a: string, b: string)
    ensures DropSlash(Normal(a)) == DropSlash(Normal(b)) <==> Walk([], Segments(a)) == Walk([], Segments(b))
  {
    NormalDropped(a);
    NormalDropped(b);
  }

  lemma NormalDropped(path: string)
    ensures var place := Walk([], Segments(path));
            DropSlash(Normal(path)) == (if place == [] then "" else "/" + Joined(place))
    ensures Segments(DropSlash(Normal(path))) == Walk([], Segments(path))
  {
    hide Walk, Segments, EndsUp, Accumulated, Joined;
    var place := Walk([], Segments(path));
    WalkFrom([], Segments(path));
    SegmentsAccumulated(place);
    if place == [] {
      NoSlash("");
    } else {
      LastIsSlash(place);
      DropEnd("/" + Joined(place));
      assert "/" + Accumulated(place) == "/" + Joined(place) + "/";
    }
  }

  lemma DropEnd(s: string)
    ensures DropSlash(s + "/") == s
    ensures !SlashEnd(s) ==> DropSlash(s) == s
  {
  }

  lemma EndsUpOnlyDots(p: Path)
    requires NoDots(p)
    ensures !EndsUp(p)
  {
  }

  /** Normalising again only drops a slash at the end. */
  lemma NormalAgain(path: string)
    ensures Normal(Normal(path)) == if Normal(path) == "/" then "/" else DropSlash(Normal(path))
  {
    var place := Walk([], Segments(path));
    NormalForm(path);
    NormalDropped(path);
    EndsUpOnlyDots(place);
    WalkFrom([], Segments(path));
  }

  /** A normal form is a fixed point, but for paths whose last real step goes up to a place
      other than the root. */
  lemma FixedExactly(path: string)
    ensures Normal(Normal(path)) == Normal(path) <==>
            Walk([], Segments(path)) == [] || !EndsUp(Segments(path))
    ensures Normal(Normal(path)) == Normal(path) <==> Normal(path) == "/" || !SlashEnd(Normal(path))
  {
    var place := Walk([], Segments(path));
    NormalAgain(path);
    NormalDropped(path);
    WalkFrom([], Segments(path));
    if place != [] { LastIsSlash(place); }
  }

  /** From the second application on it is one. */
  lemma FixedFromTheSecond(path: string)
    ensures Normal(Normal(Normal(path))) == Normal(Normal(path))
  {
    var place := Walk([], Segments(path));
    NormalForm(path);
    EndsUpOnlyDots(Segments(Normal(path)));
    FixedExactly(Normal(path));
  }

  lemma ExampleSegments()
    ensures Segments("/a") == ["a"] && Segments("/a/b/..") == ["a", "b", ".."]
  {
    hide Segments;
    NoSlash("");
    NoSlash("a");
    NoSlash("b");
    NoSlash("..");
    SegmentsSplit("", "a");
    SegmentsSplit("/a", "b");
    SegmentsSplit("/a/b", "..");
    assert "" + "/" + "a" == "/a" && "/a" + "/" + "b" == "/a/b" && "/a/b" + "/" + ".." == "/a/b/..";
  }

  lemma ExampleWalk()
    ensures Walk([], ["a", "b", ".."]) == ["a"] && Walk([], ["a"]) == ["a"]
  {
    WalkDown([], ["a", "b"]);
    WalkDown([], ["a"]);
    WalkSplit([], ["a", "b"], [".."]);
    assert ["a", "b"] + [".."] == ["a", "b", ".."] && [] + ["a", "b"] == ["a", "b"];
    assert Walk(["a", "b"], [".."]) == Walk(["a", "b"][..1], []);
  }

  /** Such a path. */
  lemma NotFixedAtOnce()
    ensures Normal("/a/b/..") == "/a/" && Normal("/a/") == "/a"
  {
    hide Segments, Walk;
    ExampleSegments();
    ExampleWalk();
    assert Accumulated(["a"]) == "a/" && Joined(["a"]) == "a";
    NormalAgain("/a/b/..");
  }
}
