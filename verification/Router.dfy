/** XXRouter of include/utilxx/router.h: a tree of routes walked by a cursor over a C
    string, a fallback to the longest registered prefix, and a cache of lookups. */
module Router {
  import opened Basics
  import opened RoutePaths
  import opened Routes
  import opened RouteTree

  /** What the cursor loop of getChild finds in front of a string: the length of the first
      segment, and, unless the string ends there, where its run of slashes ends. */
  datatype Cut = Last | Inner(length: nat, next: nat)

  /** The cursor loop of getChild. */
  method Scan(s: string) returns (cut: Cut)
    ensures cut.Last? <==> forall i :: 0 <= i < |s| ==> s[i] != '/'
    ensures cut.Inner? ==>
              && cut.length < cut.next <= |s|
              && (forall i :: 0 <= i < cut.length ==> s[i] != '/')
              && (forall i :: cut.length <= i < cut.next ==> s[i] == '/')
              && (cut.next < |s| ==> s[cut.next] != '/')
  {
    var strptr, nextptr := 0, 0;
    while true
      invariant 0 <= strptr <= nextptr <= |s|
      invariant forall i :: 0 <= i < strptr ==> s[i] != '/'
      invariant forall i :: strptr <= i < nextptr ==> s[i] == '/'
      invariant strptr < nextptr ==> nextptr < |s| && s[nextptr] == '/'
      decreases |s| - nextptr
    {
      if nextptr < |s| && s[nextptr] == '/' {
        if nextptr + 1 < |s| && s[nextptr + 1] == '/' {
          nextptr := nextptr + 1;
        } else {
          break;
        }
      } else if nextptr < |s| {
        strptr, nextptr := strptr + 1, nextptr + 1;
      } else {
        return Last;
      }
    }
    cut := Inner(strptr, nextptr + 1);
  }

  /** The segments getChild sees: a string that begins with a slash counts as ended. */
  function Seen(s: string): Path {
    if s != "" && s[0] == '/' then [] else Segments(s)
  }

  lemma {:induction false} SeenInner(s: string, length: nat, next: nat)
    requires length < next <= |s|
    requires forall i :: 0 <= i < length ==> s[i] != '/'
    requires forall i :: length <= i < next ==> s[i] == '/'
    requires next < |s| ==> s[next] != '/'
    ensures Seen(s) == if length == 0 then [] else [s[..length]] + Seen(s[next..])
    ensures length > 0 ==> CleanSegment(s[..length])
  {
    if length > 0 {
      SlashIsFirst(s, length);
      SlashesSkipped(s, length + 1, next);
    }
  }

  lemma {:induction false} SlashesSkipped(s: string, i: nat, next: nat)
    requires i <= next <= |s| && forall k :: i <= k < next ==> s[k] == '/'
    ensures Segments(s[i..]) == Segments(s[next..])
    decreases next - i
  {
    if i < next {
      assert s[i..][0] == '/' && s[i..][1..] == s[i + 1..];
      SlashesSkipped(s, i + 1, next);
    }
  }

  /** std::string::resize: cut off, or fill up with NUL. */
  function Resize(s: string, n: nat): (r: string)
    ensures |r| == n
  {
    if n <= |s| then s[..n] else s + seq(n - |s|, _ => '\0')
  }

  datatype CacheValue = CacheValue(path: string, node: nat)

  /** A cached lookup is the loose lookup of its text; while only strict lookups fill the
      cache, it is the strict one too. */
  ghost predicate EntryOk<H>(value: CacheValue, path: string, spell: seq<Path>, m: Table<H>, strictOnly: bool) {
    && value.node < |spell|
    && Target(m, path, true) == Some(spell[value.node])
    && value.path == RePath(spell[value.node])
    && (strictOnly ==> Target(m, path, false).Some?)
  }

  ghost predicate CacheOk<H>(cache: map<string, CacheValue>, spell: seq<Path>, m: Table<H>, strictOnly: bool) {
    forall p :: p in cache ==> EntryOk(cache[p], p, spell, m, strictOnly)
  }

  lemma PutKeepsCache<H>(cache: map<string, CacheValue>, cache': map<string, CacheValue>, path: string,
                         value: CacheValue,
                         spell: seq<Path>, m: Table<H>, strictOnly: bool)
    requires CacheOk(cache, spell, m, strictOnly) && EntryOk(value, path, spell, m, strictOnly)
    requires forall p :: p in cache' ==> if p == path then cache'[p] == value else p in cache && cache'[p] == cache[p]
    ensures CacheOk(cache', spell, m, strictOnly)
  {
  }

  lemma LooseCallKeepsCache<H>(cache: map<string, CacheValue>, spell: seq<Path>, m: Table<H>, strictOnly: bool,
                               loose: bool)
    requires CacheOk(cache, spell, m, strictOnly)
    ensures CacheOk(cache, spell, m, strictOnly && !loose)
  {
    forall p | p in cache ensures EntryOk(cache[p], p, spell, m, strictOnly && !loose) {
      assert EntryOk(cache[p], p, spell, m, strictOnly);
    }
  }

  class XXRouter<H> {
    const num: nat
    var nodes: seq<RouteNode<H>>
    var cache: map<string, CacheValue>
    ghost var spell: seq<Path>
    ghost var index: map<Path, nat>
    ghost var strictOnly: bool

    /** The child of node for a segment, created below it. */
    method NewChild(node: nat, x: string) returns (child: nat)
      requires IsTree(nodes, spell, index, num) && node < |nodes| && x !in nodes[node].child && CleanSegment(x)
      modifies this`nodes, this`spell, this`index
      ensures IsTree(nodes, spell, index, num)
      ensures child < |nodes| && spell[child] == old(spell)[node] + [x]
      ensures old(spell) <= spell && index.Keys == old(index).Keys + {old(spell)[node] + [x]}
      ensures HandlesKept(old(nodes), nodes, num)
    {
      hide *;
      TreeFacts(nodes, spell, index, num);
      child := |nodes|;
      ghost var w := spell[node] + [x];
      nodes := nodes[node := nodes[node].(child := nodes[node].child[x := child])];
      nodes := nodes + [RouteNode(x, Some(node), NoHandles(num), map[])];
      spell := spell + [w];
      index := index[w := child];
      NewLeafKeepsTree(old(nodes), old(spell), old(index), num, node, x, nodes, spell, index);
      NewLeafKeepsHandles(old(nodes), num, node, x, nodes);
    }

    /** Where a segment is missing: the wildcard child, else this node if loose. */
    method Fallback(node: nat, re: string, loose: bool) returns (found: Option<nat>, rePath: string)
      requires IsTree(nodes, spell, index, num) && node < |nodes| && re == Accumulated(spell[node])
      ensures found ==
              if spell[node] + ["*"] in index then Some(index[spell[node] + ["*"]])
              else if loose then Some(node)
              else None
      ensures found.Some? ==> found.value < |nodes| && rePath == Joined(spell[found.value])
      ensures found.None? ==> rePath == ""
    {
      ChildFacts(nodes, spell, index, num, node, "*");
      if "*" in nodes[node].child {
        AccumulateMore(spell[node], "*");
        found, rePath := Some(nodes[node].child["*"]), re + "*";
      } else if loose {
        DropAccumulatedSlash(spell[node]);
        found, rePath := Some(node), DropSlash(re);
      } else {
        found, rePath := None, "";
      }
    }

    /** What GetChild promises of a lookup. */
    ghost predicate Found(node: nat, segs: Path, loose: bool, found: Option<nat>, rePath: string)
      requires node < |spell|
      reads this`spell, this`index
    {
      match Lookup(index.Keys, spell[node], segs, loose)
      case Some(q) => found.Some? && found.value < |spell| && spell[found.value] == q && rePath == Joined(q)
      case None => found.None?
    }

    lemma FoundNode(node: nat, loose: bool)
      requires node < |spell|
      ensures Found(node, [], loose, Some(node), Joined(spell[node]))
    {
    }

    lemma FoundByFallback(node: nat, segs: Path, loose: bool, found: Option<nat>, rePath: string)
      requires IsTree(nodes, spell, index, num) && node < |spell| && segs != [] && spell[node] + [segs[0]] !in index
      requires found ==
               if spell[node] + ["*"] in index then Some(index[spell[node] + ["*"]])
               else if loose then Some(node)
               else None
      requires found.Some? ==> found.value < |spell| && rePath == Joined(spell[found.value])
      ensures Found(node, segs, loose, found, rePath)
    {
    }

    lemma FoundBelow(node: nat, child: nat, segs: Path, loose: bool, found: Option<nat>, rePath: string,
                     rePath': string)
      requires node < |spell| && child < |spell| && segs != []
      requires spell[child] == spell[node] + [segs[0]] && spell[child] in index
      requires Found(child, segs[1..], loose, found, rePath) && (found.Some? ==> rePath' == rePath)
      ensures Found(node, segs, loose, found, rePath')
    {
    }

    /** getChild where no slash is left: this node, a child, or the fallback. */
    method LastSegment(node: nat, inPath: string, re: string, doAdd: bool, loose: bool)
      returns (found: Option<nat>, rePath: string)
      requires IsTree(nodes, spell, index, num) && node < |nodes| && re == Accumulated(spell[node])
      requires forall i :: 0 <= i < |inPath| ==> inPath[i] != '/'
      modifies this`nodes, this`spell, this`index
      ensures IsTree(nodes, spell, index, num)
      ensures !doAdd ==> nodes == old(nodes) && spell == old(spell) && index == old(index)
      ensures !doAdd ==> Found(node, Seen(inPath), loose, found, rePath) && (found.None? ==> rePath == "")
      ensures doAdd ==> Added(old(nodes), old(spell), old(index), node, Seen(inPath), found, rePath)
    {
      TreeFacts(nodes, spell, index, num);
      NoSlash(inPath);
      if inPath == "" {
        DropAccumulatedSlash(spell[node]);
        AddedNothing(node);
        return Some(node), DropSlash(re);
      }
      ChildFacts(nodes, spell, index, num, node, inPath);
      AccumulateMore(spell[node], inPath);
      hide IsTree, Grown, HandlesKept, Segments, Accumulated, Joined, Along;
      ghost var p := spell[node];
      if inPath in nodes[node].child {
        found, rePath := Some(nodes[node].child[inPath]), re + inPath;
        FoundNode(found.value, loose);
        if doAdd {
          GrownOne(nodes, spell, index, nodes, spell, index, num, p, inPath);
        } else {
          FoundBelow(node, found.value, [inPath], loose, found, rePath, rePath);
        }
      } else if doAdd {
        var child := NewChild(node, inPath);
        GrownOne(old(nodes), old(spell), old(index), nodes, spell, index, num, p, inPath);
        found, rePath := Some(child), re + inPath;
      } else {
        found, rePath := Fallback(node, re, loose);
        FoundByFallback(node, [inPath], loose, found, rePath);
      }
    }

    /** What GetChild promises of an addition. */
    ghost predicate Added(nodes0: seq<RouteNode<H>>, spell0: seq<Path>, index0: map<Path, nat>, node: nat, segs: Path,
                          found: Option<nat>, rePath: string)
      requires node < |spell0|
      reads this
    {
      && found.Some? && found.value < |spell|
      && spell[found.value] == spell0[node] + segs && rePath == Joined(spell0[node] + segs)
      && Grown(nodes0, spell0, index0, nodes, spell, index, num, spell0[node], segs)
    }

    lemma AddedBelow(nodes0: seq<RouteNode<H>>, spell0: seq<Path>, index0: map<Path, nat>,
                     nodes1: seq<RouteNode<H>>, spell1: seq<Path>, index1: map<Path, nat>,
                     node: nat, child: nat, segs: Path, found: Option<nat>, rePath: string)
      requires node < |spell0| && child < |spell1| && segs != [] && spell0[node] in index0
      requires spell1[child] == spell0[node] + [segs[0]]
      requires spell0 <= spell1 && index1.Keys == index0.Keys + {spell1[child]} && HandlesKept(nodes0, nodes1, num)
      requires Added(nodes1, spell1, index1, child, segs[1..], found, rePath)
      ensures Added(nodes0, spell0, index0, node, segs, found, rePath)
    {
      assert spell1[child] + segs[1..] == spell0[node] + segs;
      GrownStep(nodes0, spell0, index0, nodes1, spell1, index1, nodes, spell, index, num, spell0[node], segs);
    }

    /** Walks down from a node along what is left of the path, and tells the path of the
        node it ends at. With doAdd, missing nodes are created. */
    method GetChild(node: nat, inPath: string, re: string, doAdd: bool, loose: bool)
      returns (found: Option<nat>, rePath: string)
      requires IsTree(nodes, spell, index, num) && node < |nodes| && re == Accumulated(spell[node])
      modifies this`nodes, this`spell, this`index
      ensures IsTree(nodes, spell, index, num)
      ensures !doAdd ==> nodes == old(nodes) && spell == old(spell) && index == old(index)
      ensures !doAdd ==> Found(node, Seen(inPath), loose, found, rePath)
                           && (found.None? ==> rePath == "" || |rePath| == |re|)
      ensures doAdd ==> Added(old(nodes), old(spell), old(index), node, Seen(inPath), found, rePath)
      decreases |inPath|
    {
      hide *;
      var cut := Scan(inPath);
      if cut.Last? {
        found, rePath := LastSegment(node, inPath, re, doAdd, loose);
        return;
      }
      TreeFacts(nodes, spell, index, num);
      SeenInner(inPath, cut.length, cut.next);
      var str, rest := inPath[..cut.length], inPath[cut.next..];
      if str == "" {
        DropAccumulatedSlash(spell[node]);
        FoundNode(node, loose);
        AddedNothing(node);
        return Some(node), DropSlash(re);
      }
      ChildFacts(nodes, spell, index, num, node, str);
      AccumulateMore(spell[node], str);
      ghost var segs := Seen(inPath);
      assert segs[0] == str && segs[1..] == Seen(rest);
      if str in nodes[node].child || doAdd {
        var child: nat;
        if str in nodes[node].child {
          child := nodes[node].child[str];
          HandlesKeptSame(nodes, num);
          assert index.Keys == index.Keys + {spell[child]};
        } else {
          child := NewChild(node, str);
        }
        ghost var nodes1, spell1, index1 := nodes, spell, index;
        TreeFacts(nodes, spell, index, num);
        found, rePath := GetChild(child, rest, re + str + "/", doAdd, loose);
        if doAdd {
          AddedBelow(old(nodes), old(spell), old(index), nodes1, spell1, index1, node, child, segs, found, rePath);
          AddedIsFound(nodes1, spell1, index1, child, segs[1..], found, rePath);
        }
        ghost var rePath1 := rePath;
        if found.None? {
          rePath := Resize(rePath, |re|);
        }
        if !doAdd {
          FoundBelow(node, child, segs, loose, found, rePath1, rePath);
        }
      } else {
        found, rePath := Fallback(node, re, loose);
        FoundByFallback(node, segs, loose, found, rePath);
      }
    }

    lemma AddedNothing(node: nat)
      requires IsTree(nodes, spell, index, num) && node < |nodes|
      ensures node < |spell| && Added(nodes, spell, index, node, [], Some(node), Joined(spell[node]))
    {
      assert spell[node] + [] == spell[node];
      GrownNone(nodes, spell, index, num, spell[node]);
    }

    lemma AddedIsFound(nodes0: seq<RouteNode<H>>, spell0: seq<Path>, index0: map<Path, nat>, node: nat, segs: Path,
                       found: Option<nat>, rePath: string)
      requires node < |spell0| && Added(nodes0, spell0, index0, node, segs, found, rePath)
      ensures found.Some?
    {
    }

    // -------------------------------------------------------------------------
    // The public methods
    // -------------------------------------------------------------------------

    /** The routes and handlers the tree stands for. */
    ghost function Table(): Table<H>
      requires IsTree(nodes, spell, index, num)
      reads this`nodes, this`spell, this`index
    {
      TreeFacts(nodes, spell, index, num);
      TableOf(nodes, index)
    }

    ghost predicate Valid()
      reads this
    {
      IsTree(nodes, spell, index, num) && CacheOk(cache, spell, Table(), strictOnly)
    }

    constructor (num: nat)
      ensures Valid() && this.num == num && cache == map[] && strictOnly
      ensures Table() == map[[] := NoHandles(num)]
    {
      this.num := num;
      nodes := [RouteNode("/", None, NoHandles(num), map[])];
      cache := map[];
      spell := [[]];
      index := map[[] := 0];
      strictOnly := true;
      new;
      RootIsTree<H>("/", NoHandles(num), num);
    }

    /** The loop that drops leading slashes. */
    static method DropLeading(s: string) returns (r: string)
      ensures r == SkipSlashes(s)
    {
      r := s;
      while r != "" && r[0] == '/'
        invariant SkipSlashes(r) == SkipSlashes(s)
        decreases |r|
      {
        r := r[1..];
      }
    }

    method GetTreepNocache(path: string, loose: bool) returns (found: Option<nat>, rePath: string)
      requires IsTree(nodes, spell, index, num)
      modifies this`nodes, this`spell, this`index
      ensures nodes == old(nodes) && spell == old(spell) && index == old(index)
      ensures match Target(Table(), path, loose)
              case None => found.None? && rePath == ""
              case Some(q) => found.Some? && found.value < |nodes| && spell[found.value] == q && rePath == RePath(q)
    {
      TreeFacts(nodes, spell, index, num);
      TreeIsTable(nodes, spell, index, num);
      hide IsTree, Lookup, Segments, TableOf;
      var strp := DropLeading(path);
      found, rePath := GetChild(0, strp, "", false, loose);
      if rePath != "" {
        rePath := "/" + rePath;
      }
    }

    /** The walk up the parents. */
    method NearestFrom(node: nat, method': int) returns (h: Option<H>)
      requires IsTree(nodes, spell, index, num) && node < |nodes|
      ensures h == Nearest(Table(), spell[node], method')
    {
      TreeIsTable(nodes, spell, index, num);
      h := Handle(nodes[node].handles, method');
      ParentFacts(nodes, spell, index, num, node);
      var parent := nodes[node].parent;
      while parent.Some? && h.None?
        invariant parent.Some? ==> parent.value < |nodes|
        invariant if h.Some? then h == Nearest(Table(), spell[node], method')
                  else if parent.Some?
                  then Nearest(Table(), spell[parent.value], method') == Nearest(Table(), spell[node], method')
                  else Nearest(Table(), spell[node], method') == None
        decreases if parent.Some? then |spell[parent.value]| + 1 else 0
      {
        h := Handle(nodes[parent.value].handles, method');
        ParentFacts(nodes, spell, index, num, parent.value);
        parent := nodes[parent.value].parent;
      }
    }

    /** setHandle */
    method SetHandleAt(node: nat, method': int, h: Option<H>) returns (ok: bool)
      requires IsTree(nodes, spell, index, num) && node < |nodes|
      modifies this`nodes
      ensures IsTree(nodes, spell, index, num)
      ensures spell[node] in old(Table()) && Table() == SetHandle(old(Table()), spell[node], method', h)
      ensures ok <==> 0 <= method' < num
    {
      TreeFacts(nodes, spell, index, num);
      ok := 0 <= method' < |nodes[node].handles|;
      if ok {
        nodes := nodes[node := nodes[node].(handles := nodes[node].handles[method' := h])];
      }
      HandleSet(old(nodes), spell, index, num, node, method', h, nodes);
    }

    method Add(path: string, method': int, h: Option<H>) returns (ok: bool)
      requires Valid()
      modifies this
      ensures Valid() && cache == map[] && strictOnly
      ensures Table() == AddRoute(old(Table()), path, method', h, num)
      ensures ok <==> 0 <= method' < num
    {
      hide *;
      ValidFacts();
      cache := map[];
      strictOnly := true;
      var strp := DropLeading(path);
      SeenDropped(path, strp);
      var found, rePath := GetChild(0, strp, "", true, false);
      AddedIsFound(old(nodes), old(spell), old(index), 0, Seen(strp), found, rePath);
      AddedAtRoot(old(nodes), old(spell), old(index), Seen(strp), found, rePath);
      AddRouteIs(old(Table()), path, method', h, num);
      ok := SetHandleAt(found.value, method', h);
      EmptyCacheIsOk();
    }

    lemma ValidFacts()
      requires Valid()
      ensures IsTree(nodes, spell, index, num) && |nodes| == |spell| > 0 && spell[0] == [] && Accumulated([]) == ""
      ensures (forall q :: q in index ==> index[q] < |nodes|) && Table() == TableOf(nodes, index)
    {
      TreeFacts(nodes, spell, index, num);
    }

    lemma EmptyCacheIsOk()
      requires IsTree(nodes, spell, index, num) && cache == map[]
      ensures Valid()
    {
    }

    lemma SeenDropped(path: string, strp: string)
      requires strp == SkipSlashes(path)
      ensures Seen(strp) == Segments(path)
    {
    }

    lemma AddRouteIs(m: Table<H>, path: string, method': int, h: Option<H>, num: nat)
      ensures Segments(path) in Register(m, Segments(path), num)
      ensures AddRoute(m, path, method', h, num) ==
              SetHandle(Register(m, Segments(path), num), Segments(path), method', h)
    {
      AlongHasEnds([], Segments(path));
      assert [] + Segments(path) == Segments(path);
    }

    lemma AddedAtRoot(nodes0: seq<RouteNode<H>>, spell0: seq<Path>, index0: map<Path, nat>, segs: Path,
                      found: Option<nat>, rePath: string)
      requires IsTree(nodes0, spell0, index0, num) && IsTree(nodes, spell, index, num)
      requires |spell0| > 0 && spell0[0] == [] && Added(nodes0, spell0, index0, 0, segs, found, rePath)
      ensures found.Some? && found.value < |nodes| && spell[found.value] == segs
      ensures forall q :: q in index0 ==> index0[q] < |nodes0|
      ensures Table() == Register(TableOf(nodes0, index0), segs, num)
    {
      assert [] + segs == segs;
      GrownIsRegistered(nodes0, spell0, index0, nodes, spell, index, num, segs);
    }

    /** The cache: a bounded map that may drop entries when one is put. */
    method Put(path: string, value: CacheValue)
      modifies this`cache
      ensures path in cache && forall p :: p in cache ==>
                if p == path then cache[p] == value else p in old(cache) && cache[p] == old(cache)[p]
    {
      var kept: set<string> := *;
      cache := (map p | p in cache && p in kept :: cache[p])[path := value];
    }

    /** What get answers: the answer of getNocache, except that a hit answers a strict call
        from the target of the loose lookup. */
    ghost function CachedAnswer(path: string, method': int, loose: bool): (Option<H>, string)
      requires Valid()
      reads this
    {
      TreeIsTable(nodes, spell, index, num);
      if path in cache && !loose then
        var q := spell[cache[path].node];
        (Handle(Table()[q], method'), RePath(q))
      else Answer(Table(), path, method', loose)
    }

    /** The node that a call of get ends at, from the cache or by a lookup. */
    ghost function Reached(path: string, loose: bool): Option<Path>
      requires Valid()
      reads this
    {
      if path in cache then Some(spell[cache[path].node]) else Target(Table(), path, loose)
    }

    /** Its own handler, if there is one. */
    ghost function OwnHandler(q: Option<Path>, method': int): Option<H>
      requires IsTree(nodes, spell, index, num)
      reads this`nodes, this`spell, this`index
    {
      if q.Some? && q.value in Table() then Handle(Table()[q.value], method') else None
    }

    /** The handler and path that a call reads off the node its lookup ended at. */
    ghost function AtNode(node: nat, method': int, loose: bool): (Option<H>, string)
      requires IsTree(nodes, spell, index, num) && node < |nodes|
      reads this`nodes, this`spell, this`index
    {
      (if loose then Nearest(Table(), spell[node], method') else Handle(nodes[node].handles, method'),
       RePath(spell[node]))
    }

    lemma Hit(path: string, method': int, loose: bool)
      requires Valid() && path in cache
      ensures cache[path].node < |nodes| && cache[path].path == RePath(spell[cache[path].node])
      ensures CachedAnswer(path, method', loose) == AtNode(cache[path].node, method', loose)
      ensures EntryOk(cache[path], path, spell, Table(), strictOnly && !loose)
    {
      TreeIsTable(nodes, spell, index, num);
      assert EntryOk(cache[path], path, spell, Table(), strictOnly);
    }

    lemma Miss(path: string, method': int, loose: bool, node: nat)
      requires Valid() && path !in cache && node < |nodes| && Target(Table(), path, loose) == Some(spell[node])
      ensures CachedAnswer(path, method', loose) == AtNode(node, method', loose)
      ensures EntryOk(CacheValue(RePath(spell[node]), node), path, spell, Table(), strictOnly && !loose)
    {
      TreeIsTable(nodes, spell, index, num);
      StrictIsLoose(Table().Keys, [], Segments(path));
    }

    lemma MissNothing(path: string, method': int, loose: bool)
      requires Valid() && path !in cache && Target(Table(), path, loose) == None
      ensures CachedAnswer(path, method', loose) == (None, "") && !loose
    {
      LookupIsRegistered(Table().Keys, [], Segments(path), loose);
    }

    lemma OwnHandle(node: nat, method': int)
      requires IsTree(nodes, spell, index, num) && node < |nodes|
      ensures AtNode(node, method', false) == (Handle(nodes[node].handles, method'), RePath(spell[node]))
      ensures Handle(nodes[node].handles, method').Some? ==> AtNode(node, method', true) == AtNode(node, method', false)
      ensures AtNode(node, method', true) == (Nearest(Table(), spell[node], method'), RePath(spell[node]))
    {
      TreeIsTable(nodes, spell, index, num);
    }

    lemma ReachedIs(path: string, loose: bool)
      requires Valid()
      ensures path in cache ==>
                cache[path].node < |spell| && Reached(path, loose) == Some(spell[cache[path].node])
      ensures path !in cache ==> Reached(path, loose) == Target(Table(), path, loose)
    {
      if path in cache { assert EntryOk(cache[path], path, spell, Table(), strictOnly); }
    }

    lemma OwnIs(node: nat, method': int)
      requires IsTree(nodes, spell, index, num) && node < |nodes|
      ensures node < |spell| && OwnHandler(Some(spell[node]), method') == Handle(nodes[node].handles, method')
    {
      TreeIsTable(nodes, spell, index, num);
    }

    lemma NotOwn(method': int)
      requires IsTree(nodes, spell, index, num)
      ensures OwnHandler(None, method') == None
    {
    }

    lemma ValidIs()
      requires Valid()
      ensures IsTree(nodes, spell, index, num) && CacheOk(cache, spell, Table(), strictOnly)
    {
    }

    lemma IsValid()
      requires IsTree(nodes, spell, index, num) && CacheOk(cache, spell, Table(), strictOnly)
      ensures Valid()
    {
    }

    method Get(path: string, method': int, loose: bool) returns (h: Option<H>, rePath: string)
      requires Valid()
      modifies this
      ensures Valid() && nodes == old(nodes) && spell == old(spell) && index == old(index)
      ensures (h, rePath) == old(CachedAnswer(path, method', loose))
      ensures strictOnly == (old(strictOnly) && !loose)
      ensures if old(OwnHandler(Reached(path, loose), method')).Some?
              then
                && path in cache && cache[path].node < |spell|
                && spell[cache[path].node] == old(Reached(path, loose)).value && cache[path].path == rePath
                && forall p :: p in cache && p != path ==> p in old(cache) && cache[p] == old(cache)[p]
              else cache == old(cache)
    {
      hide *;
      ValidIs();
      ghost var m, reached := Table(), Reached(path, loose);
      ReachedIs(path, loose);
      var found: Option<nat>;
      if path in cache {
        Hit(path, method', loose);
        found, rePath := Some(cache[path].node), cache[path].path;
      } else {
        found, rePath := GetTreepNocache(path, loose);
        if found.None? {
          MissNothing(path, method', loose);
          NotOwn(method');
          return None, rePath;
        }
        Miss(path, method', loose, found.value);
      }
      OwnHandle(found.value, method');
      OwnIs(found.value, method');
      LooseCallKeepsCache(cache, spell, m, strictOnly, loose);
      strictOnly := strictOnly && !loose;
      h := Handle(nodes[found.value].handles, method');
      if h.Some? {
        ghost var before := cache;
        Put(path, CacheValue(rePath, found.value));
        PutKeepsCache(before, cache, path, CacheValue(rePath, found.value), spell, m, strictOnly);
      } else if loose {
        h := NearestFrom(found.value, method');
      }
      IsValid();
    }

    method GetNocache(path: string, method': int, loose: bool) returns (h: Option<H>, rePath: string)
      requires Valid()
      modifies this`nodes, this`spell, this`index
      ensures Valid() && nodes == old(nodes) && spell == old(spell) && index == old(index)
      ensures (h, rePath) == Answer(Table(), path, method', loose)
    {
      TreeIsTable(nodes, spell, index, num);
      var found;
      found, rePath := GetTreepNocache(path, loose);
      if found.None? {
        return None, rePath;
      }
      h := Handle(nodes[found.value].handles, method');
      if h.None? && loose {
        h := NearestFrom(found.value, method');
      }
    }

    method Remove(path: string, method': int) returns (h: Option<H>)
      requires Valid()
      modifies this
      ensures Valid()
      ensures Table() == RemoveRoute(old(Table()), path, method')
      ensures h == Answer(old(Table()), path, method', false).0
      ensures if Target(old(Table()), path, false).Some? then cache == map[] && strictOnly
              else cache == old(cache) && strictOnly == old(strictOnly)
    {
      hide *;
      ValidFacts();
      var strp := DropLeading(path);
      SeenDropped(path, strp);
      var found, rePath := GetChild(0, strp, "", false, false);
      if found.None? {
        RemovesNothing(path, method', rePath);
        return None;
      }
      RemovesAt(path, method', found, rePath);
      cache := map[];
      strictOnly := true;
      h := Handle(nodes[found.value].handles, method');
      var ok := SetHandleAt(found.value, method', None);
      EmptyCacheIsOk();
    }

    lemma RemovesNothing(path: string, method': int, rePath: string)
      requires IsTree(nodes, spell, index, num) && 0 < |spell| && spell[0] == []
      requires Found(0, Segments(path), false, None, rePath)
      ensures RemoveRoute(Table(), path, method') == Table() && Answer(Table(), path, method', false).0 == None
      ensures Target(Table(), path, false) == None
    {
      TreeIsTable(nodes, spell, index, num);
    }

    lemma RemovesAt(path: string, method': int, found: Option<nat>, rePath: string)
      requires IsTree(nodes, spell, index, num) && 0 < |spell| && spell[0] == [] && found.Some?
      requires Found(0, Segments(path), false, found, rePath)
      ensures found.value < |nodes| && spell[found.value] in Table() && Target(Table(), path, false).Some?
      ensures RemoveRoute(Table(), path, method') == SetHandle(Table(), spell[found.value], method', None)
      ensures Answer(Table(), path, method', false).0 == Handle(nodes[found.value].handles, method')
    {
      TreeIsTable(nodes, spell, index, num);
    }

    method ClearCache()
      requires Valid()
      modifies this`cache, this`strictOnly
      ensures Valid() && cache == map[] && strictOnly
    {
      cache := map[];
      strictOnly := true;
    }

    /** Drops every route but the root. */
    method Clear()
      requires Valid()
      modifies this
      ensures Valid() && cache == map[] && strictOnly
      ensures [] in old(Table()) && Table() == map[[] := old(Table()[[]])]
    {
      hide *;
      ValidIs();
      ValidFacts();
      TreeFacts(nodes, spell, index, num);
      TreeIsTable(nodes, spell, index, num);
      assert spell[0] in Table() && Table()[spell[0]] == nodes[0].handles;
      RootIsTree(nodes[0].path, nodes[0].handles, num);
      ghost var root := nodes[0].handles;
      nodes := [nodes[0].(child := map[])];
      spell := [[]];
      index := map[[] := 0];
      cache := map[];
      strictOnly := true;
      RootTable(nodes[0], index);
      EmptyCacheIsOk();
      ValidFacts();
    }

    lemma RootTable(node: RouteNode<H>, index: map<Path, nat>)
      requires index == map[[] := 0]
      ensures TableOf([node], index) == map[[] := node.handles]
    {
    }

    /** While no loose lookup has filled the cache since it was last emptied, and for loose
        lookups always, get answers what getNocache does. */
    lemma CacheAgrees(path: string, method': int, loose: bool)
      requires Valid() && (loose || strictOnly)
      ensures CachedAnswer(path, method', loose) == Answer(Table(), path, method', loose)
    {
      TreeIsTable(nodes, spell, index, num);
      StrictIsLoose(Table().Keys, [], Segments(path));
    }

    /** In general it does so exactly if the text is not cached, or its strict lookup ends
        somewhere, or the cached target is the root and has no handler. */
    lemma CacheAgreesExactlyWhen(path: string, method': int)
      requires Valid()
      ensures CachedAnswer(path, method', false) == Answer(Table(), path, method', false) <==>
              path !in cache || Target(Table(), path, false).Some?
              || (spell[cache[path].node] == [] && Answer(Table(), "", method', false).0 == None)
    {
      TreeIsTable(nodes, spell, index, num);
      LooseTargetForStrict(Table(), path, method', num);
    }
  }
}
