/** The router seen from outside: which paths are registered, with which handlers, and what
    adding, removing and looking up mean for them. */
module Routes {
  import opened Basics
  import opened RoutePaths

  /** The handlers of every registered path, one place for each method. */
  type Table<H> = map<Path, seq<Option<H>>>

  /** getHandle: no handler for a method out of range. */
  function Handle<H>(handles: seq<Option<H>>, method': int): Option<H> {
    if 0 <= method' < |handles| then handles[method'] else None
  }

  function NoHandles<H>(num: nat): seq<Option<H>> {
    seq(num, _ => None)
  }

  ghost predicate IsTable<H>(m: Table<H>, num: nat) {
    PrefixClosed(m.Keys) && forall q :: q in m ==> |m[q]| == num && CleanPath(q)
  }

  /** The handler of the longest beginning of q that has one. */
  function Nearest<H>(m: Table<H>, q: Path, method': int): Option<H> {
    if q in m && Handle(m[q], method').Some? then Handle(m[q], method')
    else if q == [] then None
    else Nearest(m, q[..|q| - 1], method')
  }

  /** Where a lookup of a path text ends. */
  ghost function Target<H>(m: Table<H>, path: string, loose: bool): Option<Path> {
    Lookup(m.Keys, [], Segments(path), loose)
  }

  /** What getNocache answers: the handler and the path of the route. */
  ghost function Answer<H>(m: Table<H>, path: string, method': int, loose: bool): (Option<H>, string) {
    match Target(m, path, loose)
    case None => (None, "")
    case Some(q) =>
      (if loose then Nearest(m, q, method') else if q in m then Handle(m[q], method') else None, RePath(q))
  }

  ghost function SetHandle<H>(m: Table<H>, q: Path, method': int, h: Option<H>): Table<H>
    requires q in m
  {
    if 0 <= method' < |m[q]| then m[q := m[q][method' := h]] else m
  }

  /** The table with a path and its beginnings registered. */
  ghost function Register<H>(m: Table<H>, q: Path, num: nat): Table<H> {
    map p | p in m.Keys + Along([], q) :: if p in m then m[p] else NoHandles(num)
  }

  /** add */
  ghost function AddRoute<H>(m: Table<H>, path: string, method': int, h: Option<H>, num: nat): Table<H> {
    AlongHasEnds([], Segments(path));
    assert [] + Segments(path) == Segments(path);
    SetHandle(Register(m, Segments(path), num), Segments(path), method', h)
  }

  /** remove: the handler of the route that a strict lookup ends at. */
  ghost function RemoveRoute<H>(m: Table<H>, path: string, method': int): Table<H> {
    match Target(m, path, false)
    case None => m
    case Some(q) => if q in m then SetHandle(m, q, method', None) else m
  }

  lemma {:induction false} AlongIsClosed(t: set<Path>, p: Path, segs: Path)
    requires PrefixClosed(t) && p in t
    ensures PrefixClosed(t + Along(p, segs))
    decreases |segs|
  {
    if segs == [] {
      assert t + {p} == t;
    } else {
      var p' := p + [segs[0]];
      var t' := t + {p'};
      forall u, x | u + [x] in t' ensures u in t' {
        if u + [x] == p' { assert u == (u + [x])[..|u|] == p'[..|u|] == p; }
      }
      AlongIsClosed(t', p', segs[1..]);
      AlongHasEnds(p', segs[1..]);
      assert t' + Along(p', segs[1..]) == t + Along(p, segs);
    }
  }

  lemma {:induction false} AlongIsPrefixes(p: Path, segs: Path, q: Path)
    requires q in Along(p, segs)
    ensures exists k :: 0 <= k <= |segs| && q == p + segs[..k]
    decreases |segs|
  {
    if q == p {
      assert q == p + segs[..0];
    } else {
      AlongIsPrefixes(p + [segs[0]], segs[1..], q);
      var k :| 0 <= k <= |segs[1..]| && q == (p + [segs[0]]) + segs[1..][..k];
      assert q == p + segs[..k + 1];
    }
  }

  lemma RegisterKeepsTable<H>(m: Table<H>, q: Path, num: nat)
    requires IsTable(m, num) && CleanPath(q)
    ensures IsTable(Register(m, q, num), num)
    ensures q in Register(m, q, num)
  {
    AlongIsClosed(m.Keys, [], q);
    AlongHasEnds([], q);
    assert [] + q == q;
    var m' := Register(m, q, num);
    assert m'.Keys == m.Keys + Along([], q);
    forall p | p in m' ensures CleanPath(p) {
      if p !in m {
        AlongIsPrefixes([], q, p);
        var k :| 0 <= k <= |q| && p == [] + q[..k];
      }
    }
  }

  /** Adding keeps a table a table. */
  lemma AddKeepsTable<H>(m: Table<H>, path: string, method': int, h: Option<H>, num: nat)
    requires IsTable(m, num)
    ensures IsTable(AddRoute(m, path, method', h, num), num)
    ensures AddRoute(m, path, method', h, num).Keys == m.Keys + Along([], Segments(path))
    ensures Segments(path) in AddRoute(m, path, method', h, num)
  {
    RegisterKeepsTable(m, Segments(path), num);
    var m1 := Register(m, Segments(path), num);
    assert SetHandle(m1, Segments(path), method', h).Keys == m1.Keys;
  }

  /** What was added is what is looked up: a strict lookup of any text with the same
      segments gives the handler; a loose one gives it too when it is not null. */
  lemma AddThenGet<H>(m: Table<H>, path: string, again: string, method': int, h: Option<H>, num: nat)
    requires IsTable(m, num) && 0 <= method' < num && Segments(again) == Segments(path)
    ensures var m' := AddRoute(m, path, method', h, num);
            && Answer(m', again, method', false) == (h, RePath(Segments(path)))
            && (h.Some? ==> Answer(m', again, method', true) == (h, RePath(Segments(path))))
  {
    AddKeepsTable(m, path, method', h, num);
    var m', q := AddRoute(m, path, method', h, num), Segments(path);
    assert [] + q == q;
    RegisteredIsFound(m'.Keys, [], q, false);
    RegisteredIsFound(m'.Keys, [], q, true);
    var m1 := Register(m, q, num);
    RegisterKeepsTable(m, q, num);
    assert Handle(m'[q], method') == h;
  }

  /** The answer for a registered path, in both modes. */
  lemma RegisteredAnswer<H>(m: Table<H>, other: string, method': int, loose: bool, num: nat)
    requires IsTable(m, num) && Segments(other) in m
    ensures var q := Segments(other);
            && Target(m, other, loose) == Some(q)
            && Answer(m, other, method', loose) ==
               (if loose then Nearest(m, q, method') else Handle(m[q], method'), RePath(q))
  {
    var q := Segments(other);
    assert [] + q == q;
    RegisteredIsFound(m.Keys, [], q, loose);
  }

  /** A path other than the one added keeps its handlers; so does every path for another
      method. A path that was not there has none, or the one added. */
  lemma AddedHandles<H>(m: Table<H>, path: string, method': int, h: Option<H>, num: nat, p: Path, otherMethod: int)
    requires IsTable(m, num) && (p != Segments(path) || otherMethod != method')
    ensures var m' := AddRoute(m, path, method', h, num);
            && (p in m ==> p in m' && Handle(m'[p], otherMethod) == Handle(m[p], otherMethod))
            && (p !in m && p in m' ==> Handle(m'[p], otherMethod) == None)
  {
    AddKeepsTable(m, path, method', h, num);
    RegisterKeepsTable(m, Segments(path), num);
    var m1 := Register(m, Segments(path), num);
    assert p in m ==> m1[p] == m[p];
    assert p in m1 && p !in m ==> m1[p] == NoHandles(num);
  }

  /** For another method the nearest handler is the same. */
  lemma {:induction false} AddKeepsNearest<H>(m: Table<H>, path: string, method': int, h: Option<H>, num: nat, q: Path,
                                              otherMethod: int)
    requires IsTable(m, num) && otherMethod != method'
    ensures Nearest(AddRoute(m, path, method', h, num), q, otherMethod) == Nearest(m, q, otherMethod)
    decreases |q|
  {
    hide AddRoute, IsTable;
    AddedHandles(m, path, method', h, num, q, otherMethod);
    if q == [] {
    } else {
      AddKeepsNearest(m, path, method', h, num, q[..|q| - 1], otherMethod);
    }
  }

  /** Adding a route changes no target of another registered path, and no strict answer for
      it or for another method. A loose answer stays, too, for another method, and for a
      path with a handler of its own. */
  lemma AddChangesNoOther<H>(m: Table<H>, path: string, method': int, h: Option<H>, num: nat, other: string,
                             otherMethod: int)
    requires IsTable(m, num) && Segments(other) in m
    requires Segments(other) != Segments(path) || otherMethod != method'
    ensures var m' := AddRoute(m, path, method', h, num);
            && Answer(m', other, otherMethod, false) == Answer(m, other, otherMethod, false)
            && Target(m', other, false) == Target(m, other, false)
            && Target(m', other, true) == Target(m, other, true)
            && (otherMethod != method' || Handle(m[Segments(other)], otherMethod).Some? ==>
                  Answer(m', other, otherMethod, true) == Answer(m, other, otherMethod, true))
  {
    hide AddRoute, Answer, Target, Segments;
    var m', q := AddRoute(m, path, method', h, num), Segments(other);
    AddKeepsTable(m, path, method', h, num);
    AddedHandles(m, path, method', h, num, q, otherMethod);
    RegisteredAnswer(m, other, otherMethod, false, num);
    RegisteredAnswer(m, other, otherMethod, true, num);
    RegisteredAnswer(m', other, otherMethod, false, num);
    RegisteredAnswer(m', other, otherMethod, true, num);
    if otherMethod != method' {
      AddKeepsNearest(m, path, method', h, num, q, otherMethod);
    }
  }

  /** Removing what was added takes back the handler and leaves the path registered. */
  lemma RemoveTakesBack<H>(m: Table<H>, path: string, method': int, num: nat)
    requires IsTable(m, num) && 0 <= method' < num && Segments(path) in m
    ensures var m' := RemoveRoute(m, path, method');
            && m' == SetHandle(m, Segments(path), method', None) && m'.Keys == m.Keys
            && Answer(m', path, method', false) == (None, RePath(Segments(path)))
  {
    var q := Segments(path);
    assert [] + q == q;
    RegisteredIsFound(m.Keys, [], q, false);
  }

  /** A handler that was null before is as if it had never been added. */
  lemma RemoveUndoesAdd<H>(m: Table<H>, path: string, method': int, h: Option<H>, num: nat)
    requires IsTable(m, num) && 0 <= method' < num
    ensures var q := Segments(path);
            var m1 := Register(m, q, num);
            (q in m ==> Handle(m[q], method') == None) ==>
              RemoveRoute(AddRoute(m, path, method', h, num), path, method') == m1
  {
    var q := Segments(path);
    AddKeepsTable(m, path, method', h, num);
    RegisterKeepsTable(m, q, num);
    var m1, m2 := Register(m, q, num), AddRoute(m, path, method', h, num);
    RemoveTakesBack(m2, path, method', num);
    if q in m ==> Handle(m[q], method') == None {
      assert Handle(m1[q], method') == None;
      hide Register, AddRoute, Segments, IsTable;
      SetBack(m1, q, method', h);
    }
  }

  lemma SetBack<H>(m: Table<H>, q: Path, method': int, h: Option<H>)
    requires q in m && 0 <= method' < |m[q]| && m[q][method'] == None
    ensures SetHandle(SetHandle(m, q, method', h), q, method', None) == m
  {
    assert m[q][method' := h][method' := None] == m[q];
  }

  /** Looking up a path that a lookup returned leads to the same place, in both modes. */
  lemma RePathIsFixed<H>(m: Table<H>, path: string, loose: bool, again: bool, num: nat)
    requires IsTable(m, num)
    ensures match Target(m, path, loose)
            case None => !loose
            case Some(q) => Target(m, RePath(q), again) == Some(q) && q in m
  {
    LookupIsRegistered(m.Keys, [], Segments(path), loose);
    FoundIsFixed(m.Keys, Segments(path), loose, again);
    match Target(m, path, loose)
    case None =>
    case Some(q) => SegmentsOfJoined(q);
  }

  /** The answer of a loose lookup is the handler of the longest registered beginning of
      the path that has one: above the end of the walk, nothing is passed over. */
  lemma {:induction false} NearestIsLongest<H>(m: Table<H>, q: Path, method': int)
    ensures var h := Nearest(m, q, method');
            && (h == None <==> forall k :: 0 <= k <= |q| && q[..k] in m ==> Handle(m[q[..k]], method') == None)
            && (h != None ==>
                  exists k :: 0 <= k <= |q| && q[..k] in m && Handle(m[q[..k]], method') == h &&
                    (forall l :: k < l <= |q| && q[..l] in m ==> Handle(m[q[..l]], method') == None))
    decreases |q|
  {
    assert q[..|q|] == q;
    if q != [] && !(q in m && Handle(m[q], method').Some?) {
      var init := q[..|q| - 1];
      NearestIsLongest(m, init, method');
      assert forall k :: 0 <= k < |q| ==> init[..k] == q[..k];
    }
  }

  /** An answer by where the lookup ends: the path is that of this node, to which it leads back
      in both modes, also when the handler is that of a node above it. */
  lemma AnswerMeans<H>(m: Table<H>, path: string, method': int, loose: bool, again: bool, num: nat)
    requires IsTable(m, num)
    ensures var (h, rePath) := Answer(m, path, method', loose);
            match Target(m, path, loose)
            case None => !loose && h == None && rePath == ""
            case Some(q) =>
              && q in m && Segments(rePath) == q && Target(m, rePath, again) == Some(q)
              && (!loose ==> h == Handle(m[q], method'))
              && (loose && h == None ==>
                    forall k :: 0 <= k <= |q| && q[..k] in m ==> Handle(m[q[..k]], method') == None)
              && (loose && h != None ==>
                    exists k :: 0 <= k <= |q| && q[..k] in m && Handle(m[q[..k]], method') == h &&
                      (forall l :: k < l <= |q| && q[..l] in m ==> Handle(m[q[..l]], method') == None))
  {
    hide IsTable, Target, Nearest, RePath, Segments;
    RePathIsFixed(m, path, loose, again, num);
    match Target(m, path, loose)
    case None =>
    case Some(q) =>
      RegisteredSegments(m, path, loose, num);
      NearestIsLongest(m, q, method');
  }

  lemma RegisteredSegments<H>(m: Table<H>, path: string, loose: bool, num: nat)
    requires IsTable(m, num) && Target(m, path, loose).Some?
    ensures Segments(RePath(Target(m, path, loose).value)) == Target(m, path, loose).value
  {
    LookupIsRegistered(m.Keys, [], Segments(path), loose);
    FoundIsFixed(m.Keys, Segments(path), loose, loose);
    SegmentsOfJoined(Target(m, path, loose).value);
  }

  /** When a strict answer taken from the target of a loose lookup, as a cache hit does, is
      the right one: exactly when the strict lookup succeeds too, or when the target is the
      root and has no handler. */
  lemma LooseTargetForStrict<H>(m: Table<H>, path: string, method': int, num: nat)
    requires IsTable(m, num)
    ensures Target(m, path, true).Some? && Target(m, path, true).value in m
    ensures var q := Target(m, path, true).value;
            (Handle(m[q], method'), RePath(q)) == Answer(m, path, method', false) <==>
            Target(m, path, false).Some? || (q == [] && Handle(m[[]], method') == None)
  {
    LookupIsRegistered(m.Keys, [], Segments(path), true);
    LookupIsRegistered(m.Keys, [], Segments(path), false);
    StrictIsLoose(m.Keys, [], Segments(path));
    var q := Target(m, path, true).value;
    if q != [] { assert CleanSegment(q[|q| - 1]); }
  }

  /** So a strict lookup can be answered wrongly from a cache that a loose one has filled:
      one segment below a route without wildcard, a loose lookup ends at the route and a
      strict one nowhere. */
  lemma LooseEntryMisleads<H>(m: Table<H>, q: Path, x: string, method': int, h: H, num: nat)
    requires IsTable(m, num) && q in m && Handle(m[q], method') == Some(h) && CleanSegment(x)
    requires q + [x] !in m && q + ["*"] !in m
    ensures var path := RePath(q + [x]);
            && Answer(m, path, method', true) == (Some(h), RePath(q))
            && Answer(m, path, method', false) == (None, "")
  {
    SegmentsOfJoined(q + [x]);
    var segs := q + [x];
    assert segs[..|q|] == q && [] + q == q && segs[..|segs|] == segs && [] + segs == segs;
    LookupEndsDeepest(m.Keys, [], segs, true);
    LookupEndsDeepest(m.Keys, [], segs, false);
    var k := Depth(m.Keys, [], segs);
    assert [] + segs[..|q|] == q && [] + segs[..|segs|] == segs;
    assert k == |q|;
  }

  /** For example, with a single route at /a and a lookup of /a/b. */
  lemma LooseEntryMisleadsAt<H>(h: H) returns (m: Table<H>)
    ensures IsTable(m, 1) && Answer(m, RePath(["a", "b"]), 0, true) == (Some(h), RePath(["a"]))
    ensures Answer(m, RePath(["a", "b"]), 0, false) == (None, "")
  {
    m := map[[] := [None], ["a"] := [Some(h)]];
    assert forall u: Path, x :: u + [x] == ["a"] ==> u == (u + [x])[..|u|] == [];
    assert |["a"] + ["b"]| == 2 && |["a"] + ["*"]| == 2;
    assert ["a"] + ["b"] == ["a", "b"];
    LooseEntryMisleads(m, ["a"], "b", 0, h, 1);
  }
}
