/** Removal of dot segments after section 5.2.4 of RFC 3986, and when normalizeUrlPath of
    src/http_client.cpp agrees with it. */
module DotSegments {
  import opened Basics
  import opened RoutePaths
  import opened UrlPath

  // ---------------------------------------------------------------------------
  // The standard
  // ---------------------------------------------------------------------------

  /** Without the last segment and the slash in front of it, if any. */
  function WithoutLast(output: string): string {
    if output == "" then ""
    else
      var init := output[..|output| - 1];
      if output[|output| - 1] == '/' then init else WithoutLast(init)
  }

  /** How long the first segment is, with the slash in front of it, if any. */
  function FirstPart(input: string): (k: nat)
    ensures k <= |input| && (input != "" ==> k > 0)
  {
    if StartsWith(input, "/") then 1 + FirstSlash(input[1..]) else FirstSlash(input)
  }

  /** The loop with its input and output buffers, and its steps A to E. */
  function RemoveDots(input: string, output: string): string
    decreases |input|
  {
    if input == "" then output
    else if StartsWith(input, "../") then RemoveDots(input[3..], output)
    else if StartsWith(input, "./") then RemoveDots(input[2..], output)
    else if StartsWith(input, "/./") then RemoveDots("/" + input[3..], output)
    else if input == "/." then RemoveDots("/", output)
    else if StartsWith(input, "/../") then RemoveDots("/" + input[4..], WithoutLast(output))
    else if input == "/.." then RemoveDots("/", WithoutLast(output))
    else if input == "." || input == ".." then output
    else
      var k := FirstPart(input);
      RemoveDots(input[k..], output + input[..k])
  }

  // ---------------------------------------------------------------------------
  // The standard on lists of segments
  // ---------------------------------------------------------------------------

  predicate Plain(x: string) {
    forall i :: 0 <= i < |x| ==> x[i] != '/'
  }

  ghost predicate PlainPath(p: Path) {
    forall k :: 0 <= k < |p| ==> Plain(p[k])
  }

  /** Every segment with a slash in front. */
  function Slashed(p: Path): string {
    if p == [] then "" else "/" + p[0] + Slashed(p[1..])
  }

  /** All segments of a string, the empty ones too. */
  function Parts(s: string): (p: Path)
    ensures p != [] && PlainPath(p)
    decreases |s|
  {
    var k := FirstSlash(s);
    if k == |s| then [s] else [s[..k]] + Parts(s[k + 1..])
  }

  predicate IsDots(x: string) {
    x == "." || x == ".."
  }

  /** Behind a last "." or ".." there is an empty segment. */
  function Tail(p: Path): Path
    requires p != []
  {
    if IsDots(p[|p| - 1]) then [""] else []
  }

  lemma {:induction false} PartsJoin(s: string)
    ensures Slashed(Parts(s)) == "/" + s
    decreases |s|
  {
    var k := FirstSlash(s);
    if k == |s| {
      assert [s][1..] == [];
      assert "/" + s + "" == "/" + s;
    } else {
      var rest := s[k + 1..];
      PartsJoin(rest);
      assert ([s[..k]] + Parts(rest))[1..] == Parts(rest);
      assert s == s[..k] + ("/" + rest);
      Joins("/", s[..k], "/" + rest);
    }
  }

  lemma {:induction false} SlashedSplit(a: Path, b: Path)
    ensures Slashed(a + b) == Slashed(a) + Slashed(b)
  {
    if a == [] {
      assert a + b == b;
    } else {
      assert (a + b)[1..] == a[1..] + b;
      SlashedSplit(a[1..], b);
      Joins("/" + a[0], Slashed(a[1..]), Slashed(b));
    }
  }

  lemma SlashedMore(p: Path, x: string)
    ensures Slashed(p + [x]) == Slashed(p) + ("/" + x)
  {
    SlashedSplit(p, [x]);
    assert [x][1..] == [];
    assert "/" + x + "" == "/" + x;
  }

  lemma {:induction false} WithoutLastIs(a: string, x: string)
    requires Plain(x)
    ensures WithoutLast(a + ("/" + x)) == a
    decreases |x|
  {
    var s := a + ("/" + x);
    if x == "" {
      assert s[..|s| - 1] == a;
    } else {
      var init := x[..|x| - 1];
      assert s[..|s| - 1] == a + ("/" + init);
      WithoutLastIs(a, init);
    }
  }

  lemma LastUp(place: Path)
    requires PlainPath(place)
    ensures WithoutLast(Slashed(place)) == Slashed(Visit(place, ".."))
  {
    if place != [] {
      var n := |place| - 1;
      SlashedMore(place[..n], place[n]);
      assert place == place[..n] + [place[n]];
      WithoutLastIs(Slashed(place[..n]), place[n]);
    }
  }

  /** One turn of the loop. */
  lemma Turn(x: string, rest: string, output: string)
    requires Plain(x) && (rest == "" || rest[0] == '/')
    ensures var next := if rest == "" then "/" else rest;
            RemoveDots("/" + x + rest, output) ==
            if x == "." then RemoveDots(next, output)
            else if x == ".." then RemoveDots(next, WithoutLast(output))
            else RemoveDots(rest, output + ("/" + x))
  {
    var input := "/" + x + rest;
    assert input[0] == '/' && input[1..] == x + rest;
    SlashAt(x, rest);
    assert input[..1 + |x|] == "/" + x && input[1 + |x|..] == rest;
    if rest != "" { assert rest == "/" + rest[1..]; }
    hide WithoutLast;
    Prefixes(x, rest);
  }

  lemma SlashAt(x: string, rest: string)
    requires Plain(x) && (rest == "" || rest[0] == '/')
    ensures FirstSlash(x + rest) == |x|
  {
    var s := x + rest;
    if rest == "" {
      assert s == x;
      NoSlash(x);
    } else {
      SlashIsFirst(s, |x|);
    }
  }

  /** Which of the steps it is. */
  lemma Prefixes(x: string, rest: string)
    requires Plain(x) && (rest == "" || rest[0] == '/')
    ensures var input := "/" + x + rest;
            && !StartsWith(input, "../") && !StartsWith(input, "./") && input != "." && input != ".." && input != ""
            && (StartsWith(input, "/./") <==> x == "." && rest != "")
            && (input == "/." <==> x == "." && rest == "")
            && (StartsWith(input, "/../") <==> x == ".." && rest != "")
            && (input == "/.." <==> x == ".." && rest == "")
            && (IsDots(x) && rest != "" ==> "/" + input[2 + |x|..] == rest)
            && FirstPart(input) == 1 + |x|
  {
    hide *;
    var input := "/" + x + rest;
    Joins("/", x, rest);
    StartsWithSlash(x + rest);
    SlashAt(x, rest);
    DotsSpelled();
    if rest == "" {
      EmptyInFront("/" + x);
      LastSegment(x);
    } else {
      BehindSlash("/" + x, rest);
      InnerSegment(x, rest, ".");
      InnerSegment(x, rest, "..");
    }
  }

  lemma DotsSpelled()
    ensures "/" + "." + "/" == "/./" && "/" + ".." + "/" == "/../"
    ensures "/" + "." == "/." && "/" + ".." == "/.." && Plain(".") && Plain("..")
  {
  }

  lemma StartsWithSlash(s: string)
    ensures var input := "/" + s;
            && !StartsWith(input, "../") && !StartsWith(input, "./") && input != "." && input != ".." && input != ""
            && FirstPart(input) == 1 + FirstSlash(s)
  {
    assert ("/" + s)[0] == '/' && ("/" + s)[1..] == s;
    hide FirstSlash;
  }

  lemma LastSegment(x: string)
    requires Plain(x)
    ensures var input := "/" + x;
            && (input == "/." <==> x == ".") && (input == "/.." <==> x == "..")
            && !StartsWith(input, "/./") && !StartsWith(input, "/../")
  {
    var input := "/" + x;
    assert input[1..] == x;
    assert |x| >= 2 ==> input[2] == x[1] != '/';
    assert |x| >= 3 ==> input[3] == x[2] != '/';
  }

  lemma InnerSegment(x: string, rest: string, y: string)
    requires Plain(x) && Plain(y) && rest != "" && rest[0] == '/'
    ensures StartsWith("/" + x + rest, "/" + y + "/") <==> x == y
    ensures "/" + x + rest != "/" + y
  {
    var input, prefix := "/" + x + rest, "/" + y + "/";
    SlashAt(x, rest);
    SlashAt(y, "");
    assert input[1..] == x + rest;
    hide FirstSlash, Plain;
    EmptyInFront(y);
    if StartsWith(input, prefix) {
      var tail := "/" + input[|prefix|..];
      assert input[1..] == y + tail;
      SlashAt(y, tail);
      assert x == (x + rest)[..|x|] == (y + tail)[..|y|] == y;
    }
    assert ("/" + y)[1..] == y;
  }

  lemma BehindSlash(a: string, rest: string)
    requires rest != "" && rest[0] == '/'
    ensures "/" + (a + rest)[|a| + 1..] == rest
  {
    assert (a + rest)[|a| + 1..] == rest[1..];
  }

  lemma SlashedStarts(p: Path)
    ensures Slashed(p) == "" || Slashed(p)[0] == '/'
    ensures Slashed(p) == "" <==> p == []
  {
  }

  lemma {:induction false} LoopWalks(p: Path, place: Path)
    requires p != [] && PlainPath(p) && PlainPath(place)
    ensures RemoveDots(Slashed(p), Slashed(place)) == Slashed(Walk(place, p) + Tail(p))
    decreases |p|
  {
    hide *;
    var x, rest := p[0], p[1..];
    var next := Visit(place, x);
    Unfold(p, place);
    Turn(x, Slashed(rest), Slashed(place));
    LastUp(place);
    SlashedMore(place, x);
    VisitIs(place, x);
    if rest == [] {
      LastTurn(Slashed(next));
      SlashedMore(next, "");
      EmptyInFront(next);
      EmptyInFront("/");
    } else {
      LoopWalks(rest, next);
    }
  }

  lemma Unfold(p: Path, place: Path)
    requires p != [] && PlainPath(p) && PlainPath(place)
    ensures var x, rest := p[0], p[1..];
            && Slashed(p) == "/" + x + Slashed(rest)
            && (Slashed(rest) == "" || Slashed(rest)[0] == '/') && (Slashed(rest) == "" <==> rest == [])
            && Walk(place, p) == (if rest == [] then Visit(place, x) else Walk(Visit(place, x), rest))
            && Tail(p) == (if rest == [] then (if x == "." || x == ".." then [""] else []) else Tail(rest))
            && Plain(x) && PlainPath(rest) && PlainPath(Visit(place, x))
  {
    SlashedStarts(p[1..]);
    hide Slashed;
  }

  lemma VisitIs(place: Path, x: string)
    ensures x == "." ==> Visit(place, x) == place
    ensures x != "." && x != ".." ==> Visit(place, x) == place + [x]
  {
  }

  lemma LastTurn(output: string)
    ensures RemoveDots("/", output) == output + "/" && RemoveDots("", output) == output
  {
    Turn("", "", output);
    assert "/" + "" + "" == "/" && "/" + "" == "/";
  }

  /** The standard walks the segments of an absolute path like any others, the empty ones
      too, and leaves a slash at the end behind a last "." or "..". */
  lemma StandardWalks(path: string)
    requires StartsWith(path, "/")
    ensures var parts := Parts(path[1..]);
            RemoveDots(path, "") == Slashed(Walk([], parts) + Tail(parts))
  {
    hide RemoveDots, Walk;
    PartsJoin(path[1..]);
    assert path == "/" + path[1..];
    LoopWalks(Parts(path[1..]), []);
  }

  // ---------------------------------------------------------------------------
  // The comparison
  // ---------------------------------------------------------------------------

  lemma {:induction false} AccumulatedIsSlashed(p: Path)
    ensures "/" + Accumulated(p) == Slashed(p) + "/"
    ensures p != [] ==> "/" + Joined(p) == Slashed(p)
    decreases |p|
  {
    if p == [] {
    } else {
      var init, x := p[..|p| - 1], p[|p| - 1];
      AccumulatedIsSlashed(init);
      assert p == init + [x];
      SlashedMore(init, x);
      Joins("/", Accumulated(init), x);
      Joins("/", Accumulated(init) + x, "/");
      Joins(Slashed(init), "/", x);
    }
  }

  lemma NormalIsSlashed(path: string)
    ensures var place := Walk([], Segments(path));
            Normal(path) == Slashed(place) + if place == [] || EndsUp(Segments(path)) then "/" else ""
  {
    var place := Walk([], Segments(path));
    AccumulatedIsSlashed(place);
    EmptyInFront(Slashed(place));
  }

  /** With no two slashes in a row, only the last segment can be empty. */
  lemma {:induction false} PartsAre(s: string)
    requires NoDoubleSlash("/" + s)
    ensures Parts(s) == Segments(s) + if s == "" || SlashEnd(s) then [""] else []
    decreases |s|
  {
    hide *;
    var k := FirstSlash(s);
    if s == "" {
      NothingSplit();
    } else {
      NotFirst(s);
      SplitOff(s);
      if k < |s| {
        var rest := s[k + 1..];
        TailSlashes("/" + s, k + 1, rest);
        PartsAre(rest);
        Joins([s[..k]], Segments(rest), if rest == "" || SlashEnd(rest) then [""] else []);
      }
      EmptyInFront([s]);
    }
  }

  lemma NothingSplit()
    ensures Parts("") == [""] && Segments("") == []
  {
  }

  lemma NotFirst(s: string)
    requires NoDoubleSlash("/" + s) && s != ""
    ensures FirstSlash(s) > 0
  {
    assert ("/" + s)[0] == '/' && ("/" + s)[1] == s[0] != '/';
  }

  lemma SplitOff(s: string)
    requires s != "" && FirstSlash(s) > 0
    ensures var k := FirstSlash(s);
            && k <= |s|
            && (k == |s| ==> Parts(s) == [s] && Segments(s) == [s] && !SlashEnd(s))
            && (k < |s| ==>
                var rest := s[k + 1..];
                && Parts(s) == [s[..k]] + Parts(rest) && Segments(s) == [s[..k]] + Segments(rest)
                && (SlashEnd(s) <==> rest == "" || SlashEnd(rest)) && s[k] == '/')
  {
  }

  lemma TailSlashes(s: string, k: nat, rest: string)
    requires NoDoubleSlash(s) && k < |s| && s[k] == '/' && rest == s[k + 1..]
    ensures NoDoubleSlash("/" + rest)
  {
    assert s[k..] == "/" + rest;
    forall i | 0 <= i < |rest| ensures !(s[k..][i] == '/' && s[k..][i + 1] == '/') {
      assert s[k..][i] == s[k + i] && s[k..][i + 1] == s[k + i + 1];
    }
  }

  /** The walk of the standard when no segment but the last is empty. */
  lemma WalkOfParts(p: Path, slashEnd: bool)
    requires slashEnd || p != []
    ensures var parts := p + if slashEnd then [""] else [];
            && parts != []
            && Walk([], parts) + Tail(parts) ==
               Walk([], p) + if slashEnd || IsDots(p[|p| - 1]) then [""] else []
  {
    if slashEnd {
      WalkSplit([], p, [""]);
      assert Walk(Walk([], p), [""]) == Walk([], p) + [""];
    } else {
      EmptyInFront(p);
    }
  }

  lemma StandardIs(path: string)
    requires StartsWith(path, "/") && NoDoubleSlash(path)
    ensures var p := Segments(path);
            && (SlashEnd(path) || p != [])
            && RemoveDots(path, "") ==
               Slashed(Walk([], p)) + if SlashEnd(path) || IsDots(p[|p| - 1]) then "/" else ""
  {
    hide RemoveDots, Walk, Slashed, FirstSlash, Parts, NoDoubleSlash;
    var s := path[1..];
    assert path == "/" + s;
    StandardWalks(path);
    SkipSlash(path, 0);
    assert path[0..] == path;
    PartsAre(s);
    var p := Segments(path);
    assert SlashEnd(path) <==> s == "" || SlashEnd(s);
    WalkOfParts(p, SlashEnd(path));
    SlashedMore(Walk([], p), "");
    EmptyInFront(Walk([], p));
    EmptyInFront(Slashed(Walk([], p)));
  }

  lemma {:induction false} EndsWithDots(p: Path)
    requires EndsUp(p)
    ensures p != [] && IsDots(p[|p| - 1])
  {
  }

  /** For an absolute path with no two slashes in a row, the normal form is what the standard
      gives if and only if the path leads to the root, or its last real step goes up, or it
      has no slash at the end and no "." as its last segment. */
  lemma NormalIsStandard(path: string)
    requires StartsWith(path, "/") && NoDoubleSlash(path)
    ensures var p := Segments(path);
            Normal(path) == RemoveDots(path, "") <==>
            Walk([], p) == [] || EndsUp(p) || (!SlashEnd(path) && p[|p| - 1] != ".")
  {
    var p := Segments(path);
    hide RemoveDots, Walk, Slashed, Normal, Segments, NoDoubleSlash;
    NormalIsSlashed(path);
    StandardIs(path);
    if p == [] {
      WalkDown([], []);
      EmptyInFront(p);
    }
    if EndsUp(p) { EndsWithDots(p); }
    if p != [] && Walk([], p) == [] { LeadsToRoot(p); }
    EmptyInFront(Slashed(Walk([], p)));
  }

  /** Only a dot segment leads to the root. */
  lemma LeadsToRoot(p: Path)
    requires p != [] && Walk([], p) == []
    ensures IsDots(p[|p| - 1])
  {
    var n := |p| - 1;
    WalkSplit([], p[..n], [p[n]]);
    assert p == p[..n] + [p[n]];
    assert Walk(Walk([], p[..n]), [p[n]]) == Visit(Walk([], p[..n]), p[n]);
  }

  // ---------------------------------------------------------------------------
  // Examples
  // ---------------------------------------------------------------------------

  lemma WalkMore(p: Path, x: string)
    ensures Walk([], p + [x]) == Visit(Walk([], p), x)
  {
    WalkSplit([], p, [x]);
  }

  lemma SegmentsMore(a: string, x: string)
    requires CleanSegment(x)
    ensures Segments(a + "/" + x) == Segments(a) + [x]
  {
    hide Segments;
    SegmentsSplit(a, x);
    NoSlash(x);
  }

  /** A last "." without a slash behind it. */
  lemma DotAtEnd()
    ensures Normal("/a/.") == "/a" && RemoveDots("/a/.", "") == "/a/"
  {
    hide Walk, RemoveDots, Normal, Segments, Slashed;
    var path := "/a/.";
    assert "" + "/" + "a" == "/a" && "/a" + "/" + "." == path;
    NoSlash("");
    SegmentsMore("", "a");
    SegmentsMore("/a", ".");
    assert [] + ["a"] == ["a"] && ["a"] + ["."] == ["a", "."];
    WalkDown([], ["a"]);
    WalkMore(["a"], ".");
    NormalIsSlashed(path);
    StandardIs(path);
    AccumulatedIsSlashed(["a"]);
    assert Joined(["a"]) == "a" && "/" + "a" + "/" == "/a/" && "/a" + "" == "/a";
  }

  lemma Around<T>(a: seq<T>, c: T, b: seq<T>)
    ensures var s := a + ([c] + b); |s| == |a| + 1 + |b| && s[..|a|] == a && s[|a| + 1..] == b
  {
  }

  lemma PartsOne(x: string, rest: string)
    requires Plain(x)
    ensures Parts(x + ("/" + rest)) == [x] + Parts(rest) && Parts(x) == [x]
  {
    SlashAt(x, "/" + rest);
    SlashAt(x, "");
    hide FirstSlash, Plain;
    EmptyInFront(x);
    Around(x, '/', rest);
  }

  lemma PartsOfFour(a: string, b: string, c: string, d: string)
    requires Plain(a) && Plain(b) && Plain(c) && Plain(d)
    ensures Parts(a + ("/" + (b + ("/" + (c + ("/" + d)))))) == [a, b, c, d]
  {
    hide Parts;
    PartsOne(a, b + ("/" + (c + ("/" + d))));
    PartsOne(b, c + ("/" + d));
    PartsOne(c, d);
    PartsOne(d, "");
    assert [a] + ([b] + ([c] + [d])) == [a, b, c, d];
  }

  /** An empty segment: the step up takes it back in the standard, and the name in front of it
      in the normal form. */
  lemma EmptySegment()
    ensures Normal("/a//../b") == "/b" && RemoveDots("/a//../b", "") == "/a/b"
  {
    hide Walk, RemoveDots, Normal, Segments, Slashed, Parts;
    var path := "/a//../b";
    assert "" + "/" + "a" == "/a" && "/a" + "/" + "" == "/a/" && "/a/" + "/" + ".." == "/a//.."
        && "/a//.." + "/" + "b" == path;
    NoSlash("");
    SegmentsMore("", "a");
    SegmentsSplit("/a", "");
    SegmentsMore("/a/", "..");
    SegmentsMore("/a//..", "b");
    assert [] + ["a"] == ["a"] && ["a"] + [] == ["a"];
    WalkDown([], ["a"]);
    WalkMore(["a"], "..");
    WalkMore(["a"] + [".."], "b");
    NormalIsSlashed(path);
    AccumulatedIsSlashed(["b"]);
    assert ["a"][..0] == [] && [] + ["b"] == ["b"] && Joined(["b"]) == "b";
    assert Segments(path) == ["a"] + [".."] + ["b"];
    EmptyInFront("/" + "b");
    EmptySegmentKept(path);
  }

  lemma EmptySegmentKept(path: string)
    requires path == "/a//../b"
    ensures RemoveDots(path, "") == "/a/b"
  {
    assert path[1..] == "a" + ("/" + ("" + ("/" + (".." + ("/" + "b")))));
    hide *;
    PartsOfFour("a", "", "..", "b");
    OneSlash(path);
    StandardWalks(path);
    WalkOfFour();
    SlashedAB();
  }

  lemma OneSlash(path: string)
    requires path == "/a//../b"
    ensures StartsWith(path, "/") && Plain("a") && Plain("") && Plain("..") && Plain("b")
  {
  }

  lemma WalkOfFour()
    ensures var p := ["a", "", "..", "b"]; Walk([], p) + Tail(p) == ["a", "b"]
  {
    WalkDown([], ["a", ""]);
    hide Walk;
    WalkMore(["a", ""], "..");
    WalkMore(["a", "", ".."], "b");
    assert ["a", ""] + [".."] == ["a", "", ".."] && ["a", "", ".."] + ["b"] == ["a", "", "..", "b"];
    assert ["a", ""][..1] == ["a"] && ["a"] + ["b"] == ["a", "b"] && [] + ["a", ""] == ["a", ""];
    EmptyInFront(["a", "b"]);
  }

  lemma SlashedAB()
    ensures Slashed(["a", "b"]) == "/a/b"
  {
    AccumulatedIsSlashed(["a", "b"]);
    assert ["a", "b"][..1] == ["a"];
    assert Joined(["a", "b"]) == "a/b";
  }
}
