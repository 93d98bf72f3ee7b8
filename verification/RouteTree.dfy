/** The route tree of include/utilxx/router.h on values. Nodes live in a list and point at
    each other by position; spell[i] is the path of segments from the root to node i, and
    index is its inverse. */
module RouteTree {
  import opened Basics
  import opened RoutePaths
  import opened Routes

  datatype RouteNode<H> = RouteNode(path: string, parent: Option<nat>, handles: seq<Option<H>>, child: map<string, nat>)

  /** spell and index name every node by a different path. */
  ghost predicate Named(spell: seq<Path>, index: map<Path, nat>) {
    && |spell| > 0
    && spell[0] == []
    && (forall i :: 0 <= i < |spell| ==> spell[i] in index && index[spell[i]] == i)
    && (forall p :: p in index ==> index[p] < |spell| && spell[index[p]] == p)
  }

  /** The child of i for a segment is the node of the longer path, when there is one; its
      parent is i. */
  ghost predicate Linked<H>(nodes: seq<RouteNode<H>>, spell: seq<Path>, index: map<Path, nat>)
    requires |nodes| == |spell|
  {
    && (forall i, x :: 0 <= i < |nodes| ==>
          if x in nodes[i].child
          then spell[i] + [x] in index && nodes[i].child[x] == index[spell[i] + [x]]
          else spell[i] + [x] !in index)
    && (forall i, x :: 0 <= i < |nodes| && x in nodes[i].child ==>
          nodes[i].child[x] < |nodes| && nodes[nodes[i].child[x]].parent == Some(i))
  }

  ghost predicate IsTree<H>(nodes: seq<RouteNode<H>>, spell: seq<Path>, index: map<Path, nat>, num: nat) {
    && |nodes| == |spell|
    && Named(spell, index)
    && PrefixClosed(index.Keys)
    && Linked(nodes, spell, index)
    && nodes[0].parent == None
    && (forall i :: 0 <= i < |nodes| ==> |nodes[i].handles| == num)
    && (forall p :: p in index ==> CleanPath(p))
  }

  lemma RootIsTree<H>(path: string, handles: seq<Option<H>>, num: nat)
    requires |handles| == num
    ensures IsTree([RouteNode(path, None, handles, map[])], [[]], map[[] := 0], num)
  {
    assert forall p: Path, x :: p + [x] != [];
  }

  lemma TreeFacts<H>(nodes: seq<RouteNode<H>>, spell: seq<Path>, index: map<Path, nat>, num: nat)
    requires IsTree(nodes, spell, index, num)
    ensures |nodes| == |spell| > 0 && spell[0] == [] && [] in index && index[[]] == 0 && PrefixClosed(index.Keys)
    ensures nodes[0].parent == None
    ensures forall i :: 0 <= i < |nodes| ==> |nodes[i].handles| == num && spell[i] in index && index[spell[i]] == i
    ensures forall p :: p in index ==> index[p] < |nodes| && spell[index[p]] == p && CleanPath(p)
  {
  }

  lemma ChildFacts<H>(nodes: seq<RouteNode<H>>, spell: seq<Path>, index: map<Path, nat>, num: nat, i: nat, x: string)
    requires IsTree(nodes, spell, index, num) && i < |nodes|
    ensures x in nodes[i].child <==> spell[i] + [x] in index
    ensures x in nodes[i].child ==>
              nodes[i].child[x] < |nodes| && nodes[i].child[x] == index[spell[i] + [x]]
              && spell[nodes[i].child[x]] == spell[i] + [x]
  {
  }

  /** A node that is not the root is a child of its parent. */
  lemma ParentFacts<H>(nodes: seq<RouteNode<H>>, spell: seq<Path>, index: map<Path, nat>, num: nat, i: nat)
    requires IsTree(nodes, spell, index, num) && i < |nodes|
    ensures i == 0 <==> spell[i] == []
    ensures i == 0 ==> nodes[i].parent == None
    ensures i != 0 ==> nodes[i].parent.Some? && nodes[i].parent.value < |nodes|
                       && spell[nodes[i].parent.value] == spell[i][..|spell[i]| - 1]
  {
    assert index[spell[0]] == 0 && index[spell[i]] == i;
    if i != 0 {
      var p := spell[i];
      var init, x := p[..|p| - 1], p[|p| - 1];
      assert init + [x] == p;
      assert init + [x] in index && init in index;
      var k := index[init];
      assert spell[k] + [x] in index;
      assert nodes[k].child[x] == i;
    }
  }

  /** Hanging a new leaf below node i keeps the tree. */
  lemma NewLeafKeepsTree<H>(nodes: seq<RouteNode<H>>, spell: seq<Path>, index: map<Path, nat>, num: nat, i: nat,
                            x: string,
                            nodes': seq<RouteNode<H>>, spell': seq<Path>, index': map<Path, nat>)
    requires IsTree(nodes, spell, index, num) && i < |nodes| && x !in nodes[i].child && CleanSegment(x)
    requires spell' == spell + [spell[i] + [x]]
    requires index' == index[spell[i] + [x] := |nodes|]
    requires nodes' == nodes[i := nodes[i].(child := nodes[i].child[x := |nodes|])]
                       + [RouteNode(x, Some(i), NoHandles(num), map[])]
    ensures IsTree(nodes', spell', index', num)
  {
    var w := spell[i] + [x];
    assert w !in index;
    assert Named(spell', index');
    forall p, y | p + [y] in index' ensures p in index' {
      if p + [y] == w { assert p == (p + [y])[..|p|] == w[..|p|] == spell[i]; }
    }
    LeafLinked(nodes, spell, index, i, x, nodes', spell', index', num);
    forall p | p in index' ensures CleanPath(p) {
      if p == w { assert CleanPath(spell[i]); }
    }
  }

  lemma LeafLinked<H>(nodes: seq<RouteNode<H>>, spell: seq<Path>, index: map<Path, nat>, i: nat, x: string,
                      nodes': seq<RouteNode<H>>, spell': seq<Path>, index': map<Path, nat>, num: nat)
    requires |nodes| == |spell| && Named(spell, index) && PrefixClosed(index.Keys) && Linked(nodes, spell, index)
    requires i < |nodes| && x !in nodes[i].child
    requires spell' == spell + [spell[i] + [x]]
    requires index' == index[spell[i] + [x] := |nodes|]
    requires nodes' == nodes[i := nodes[i].(child := nodes[i].child[x := |nodes|])]
                       + [RouteNode(x, Some(i), NoHandles(num), map[])]
    ensures Linked(nodes', spell', index')
  {
    var w := spell[i] + [x];
    assert w !in index;
    forall k, y | 0 <= k < |nodes'|
      ensures if y in nodes'[k].child
              then spell'[k] + [y] in index' && nodes'[k].child[y] == index'[spell'[k] + [y]]
              else spell'[k] + [y] !in index'
    {
      var u := spell'[k];
      assert (u + [y])[..|u|] == u && (u + [y])[|u|] == y;
      assert w[..|spell[i]|] == spell[i] && w[|spell[i]|] == x;
      if k < |nodes| {
        if u + [y] == w { assert u == spell[i]; assert k == i; }
      } else {
        assert |u + [y]| > |w|;
        if u + [y] in index { }
      }
    }
  }

  /** A tree stays one when only handles change. */
  lemma SameShapeKeepsTree<H>(nodes: seq<RouteNode<H>>, nodes': seq<RouteNode<H>>, spell: seq<Path>,
                              index: map<Path, nat>, num: nat)
    requires IsTree(nodes, spell, index, num) && |nodes'| == |nodes|
    requires forall i :: 0 <= i < |nodes| ==>
               nodes'[i].child == nodes[i].child && nodes'[i].parent == nodes[i].parent && |nodes'[i].handles| == num
    ensures IsTree(nodes', spell, index, num)
  {
  }

  // ---------------------------------------------------------------------------
  // The table the tree stands for
  // ---------------------------------------------------------------------------

  /** The handlers of every registered path. */
  ghost function TableOf<H>(nodes: seq<RouteNode<H>>, index: map<Path, nat>): Table<H>
    requires forall q :: q in index ==> index[q] < |nodes|
  {
    map q | q in index :: nodes[index[q]].handles
  }

  lemma TreeIsTable<H>(nodes: seq<RouteNode<H>>, spell: seq<Path>, index: map<Path, nat>, num: nat)
    requires IsTree(nodes, spell, index, num)
    ensures forall q :: q in index ==> index[q] < |nodes|
    ensures TableOf(nodes, index).Keys == index.Keys && IsTable(TableOf(nodes, index), num)
    ensures forall i :: 0 <= i < |nodes| ==>
              spell[i] in TableOf(nodes, index) && TableOf(nodes, index)[spell[i]] == nodes[i].handles
  {
    var m := TableOf(nodes, index);
    assert m.Keys == index.Keys;
    forall i | 0 <= i < |nodes| ensures spell[i] in m && m[spell[i]] == nodes[i].handles {
      assert index[spell[i]] == i;
    }
  }

  /** A tree that grew along a path stands for the table with that path registered. */
  lemma GrownIsRegistered<H>(nodes: seq<RouteNode<H>>, spell: seq<Path>, index: map<Path, nat>,
                             nodes': seq<RouteNode<H>>, spell': seq<Path>, index': map<Path, nat>, num: nat, segs: Path)
    requires IsTree(nodes, spell, index, num) && IsTree(nodes', spell', index', num)
    requires Grown(nodes, spell, index, nodes', spell', index', num, [], segs)
    ensures forall q :: q in index ==> index[q] < |nodes|
    ensures forall q :: q in index' ==> index'[q] < |nodes'|
    ensures TableOf(nodes', index') == Register(TableOf(nodes, index), segs, num)
  {
    TreeIsTable(nodes, spell, index, num);
    TreeIsTable(nodes', spell', index', num);
    TreeFacts(nodes, spell, index, num);
    TreeFacts(nodes', spell', index', num);
    hide *;
    var m, m' := TableOf(nodes, index), TableOf(nodes', index');
    forall q | q in m' ensures m'[q] == if q in m then m[q] else NoHandles(num) {
      GrownEntry(nodes, spell, index, nodes', spell', index', num, segs, q);
    }
    GrownKeys(nodes, spell, index, nodes', spell', index', num, segs);
    TableIsRegister(m, m', segs, num);
  }

  lemma GrownKeys<H>(nodes: seq<RouteNode<H>>, spell: seq<Path>, index: map<Path, nat>,
                     nodes': seq<RouteNode<H>>, spell': seq<Path>, index': map<Path, nat>, num: nat, segs: Path)
    requires Grown(nodes, spell, index, nodes', spell', index', num, [], segs)
    ensures index'.Keys == index.Keys + Along([], segs)
  {
  }

  lemma TableIsRegister<H>(m: Table<H>, m': Table<H>, segs: Path, num: nat)
    requires m'.Keys == m.Keys + Along([], segs)
    requires forall q :: q in m' ==> m'[q] == if q in m then m[q] else NoHandles(num)
    ensures m' == Register(m, segs, num)
  {
    hide Along;
  }

  lemma GrownEntry<H>(nodes: seq<RouteNode<H>>, spell: seq<Path>, index: map<Path, nat>,
                      nodes': seq<RouteNode<H>>, spell': seq<Path>, index': map<Path, nat>, num: nat, segs: Path,
                      q: Path)
    requires IsTree(nodes, spell, index, num) && IsTree(nodes', spell', index', num)
    requires Grown(nodes, spell, index, nodes', spell', index', num, [], segs) && q in index'
    ensures index'[q] < |nodes'| && (q in index ==> index[q] < |nodes|)
    ensures nodes'[index'[q]].handles == if q in index then nodes[index[q]].handles else NoHandles(num)
    ensures forall p :: p in index ==> index[p] < |nodes|
    ensures forall p :: p in index' ==> index'[p] < |nodes'|
    ensures q in TableOf(nodes', index') && TableOf(nodes', index')[q] == nodes'[index'[q]].handles
    ensures q in index <==> q in TableOf(nodes, index)
    ensures q in index ==> TableOf(nodes, index)[q] == nodes[index[q]].handles
  {
    TreeFacts(nodes, spell, index, num);
    TreeFacts(nodes', spell', index', num);
    hide IsTree, Along;
    if q in index {
      OldIndexKept(spell, index, spell', index', q);
    } else {
      NewIndexLater(spell, index, spell', index', q);
    }
  }

  lemma OldIndexKept(spell: seq<Path>, index: map<Path, nat>, spell': seq<Path>, index': map<Path, nat>, q: Path)
    requires spell <= spell' && q in index && index[q] < |spell| && spell[index[q]] == q
    requires forall i :: 0 <= i < |spell'| ==> spell'[i] in index' && index'[spell'[i]] == i
    ensures q in index' && index'[q] == index[q]
  {
    assert spell'[index[q]] == q;
  }

  lemma NewIndexLater(spell: seq<Path>, index: map<Path, nat>, spell': seq<Path>, index': map<Path, nat>, q: Path)
    requires spell <= spell' && q in index' && q !in index && index'[q] < |spell'| && spell'[index'[q]] == q
    requires forall i :: 0 <= i < |spell| ==> spell[i] in index
    ensures index'[q] >= |spell|
  {
    assert forall i :: 0 <= i < |spell| ==> spell'[i] == spell[i] != q;
  }

  /** Setting a handle of a node is setting it in the table. */
  lemma HandleSet<H>(nodes: seq<RouteNode<H>>, spell: seq<Path>, index: map<Path, nat>, num: nat, i: nat,
                     method': int, h: Option<H>,
                     nodes': seq<RouteNode<H>>)
    requires IsTree(nodes, spell, index, num) && i < |nodes|
    requires nodes' == if 0 <= method' < |nodes[i].handles|
                       then nodes[i := nodes[i].(handles := nodes[i].handles[method' := h])]
                       else nodes
    ensures IsTree(nodes', spell, index, num)
    ensures forall q :: q in index ==> index[q] < |nodes|
    ensures spell[i] in TableOf(nodes, index)
    ensures TableOf(nodes', index) == SetHandle(TableOf(nodes, index), spell[i], method', h)
  {
    TreeIsTable(nodes, spell, index, num);
    SameShapeKeepsTree(nodes, nodes', spell, index, num);
    TreeIsTable(nodes', spell, index, num);
    TreeFacts(nodes, spell, index, num);
    hide *;
    var m, m' := TableOf(nodes, index), TableOf(nodes', index);
    forall q | q in m' ensures m'[q] == if q == spell[i] then nodes'[i].handles else m[q] {
      assert spell[index[q]] == q;
      assert nodes'[index[q]] == if index[q] == i then nodes'[i] else nodes[index[q]];
    }
    TableIsSet(m, m', spell[i], method', h, nodes'[i].handles);
  }

  lemma TableIsSet<H>(m: Table<H>, m': Table<H>, p: Path, method': int, h: Option<H>, handles: seq<Option<H>>)
    requires p in m && m'.Keys == m.Keys
    requires handles == if 0 <= method' < |m[p]| then m[p][method' := h] else m[p]
    requires forall q :: q in m' ==> m'[q] == if q == p then handles else m[q]
    ensures m' == SetHandle(m, p, method', h)
  {
  }

  // ---------------------------------------------------------------------------
  // Growing the tree
  // ---------------------------------------------------------------------------

  /** Old nodes keep their handles, new ones have none. */
  ghost predicate HandlesKept<H>(nodes: seq<RouteNode<H>>, nodes': seq<RouteNode<H>>, num: nat) {
    && |nodes| <= |nodes'|
    && forall i :: 0 <= i < |nodes'| ==>
         nodes'[i].handles == if i < |nodes| then nodes[i].handles else NoHandles(num)
  }

  /** The tree after a path was registered below p: the paths along it are new, everything
      else is as before. */
  ghost predicate Grown<H>(nodes: seq<RouteNode<H>>, spell: seq<Path>, index: map<Path, nat>,
                           nodes': seq<RouteNode<H>>, spell': seq<Path>, index': map<Path, nat>, num: nat, p: Path,
                           segs: Path)
  {
    && spell <= spell'
    && index'.Keys == index.Keys + Along(p, segs)
    && HandlesKept(nodes, nodes', num)
  }

  lemma GrownNone<H>(nodes: seq<RouteNode<H>>, spell: seq<Path>, index: map<Path, nat>, num: nat, p: Path)
    requires IsTree(nodes, spell, index, num) && p in index
    ensures Grown(nodes, spell, index, nodes, spell, index, num, p, [])
  {
    assert index.Keys == index.Keys + {p};
  }

  lemma NewLeafKeepsHandles<H>(nodes: seq<RouteNode<H>>, num: nat, i: nat, x: string, nodes': seq<RouteNode<H>>)
    requires i < |nodes|
    requires nodes' == nodes[i := nodes[i].(child := nodes[i].child[x := |nodes|])]
                       + [RouteNode(x, Some(i), NoHandles(num), map[])]
    ensures HandlesKept(nodes, nodes', num)
  {
  }

  lemma HandlesKeptSame<H>(nodes: seq<RouteNode<H>>, num: nat)
    ensures HandlesKept(nodes, nodes, num)
  {
  }

  lemma GrownOne<H>(nodes: seq<RouteNode<H>>, spell: seq<Path>, index: map<Path, nat>,
                    nodes1: seq<RouteNode<H>>, spell1: seq<Path>, index1: map<Path, nat>, num: nat, p: Path, x: string)
    requires p in index && spell <= spell1 && index1.Keys == index.Keys + {p + [x]}
    requires HandlesKept(nodes, nodes1, num) || (nodes1 == nodes && p + [x] in index)
    ensures Grown(nodes, spell, index, nodes1, spell1, index1, num, p, [x])
  {
    assert [x][1..] == [];
    assert Along(p, [x]) == {p} + {p + [x]};
  }

  lemma GrownStep<H>(nodes: seq<RouteNode<H>>, spell: seq<Path>, index: map<Path, nat>,
                     nodes1: seq<RouteNode<H>>, spell1: seq<Path>, index1: map<Path, nat>,
                     nodes2: seq<RouteNode<H>>, spell2: seq<Path>, index2: map<Path, nat>, num: nat, p: Path,
                     segs: Path)
    requires segs != [] && p in index
    requires spell <= spell1 && index1.Keys == index.Keys + {p + [segs[0]]} && HandlesKept(nodes, nodes1, num)
    requires Grown(nodes1, spell1, index1, nodes2, spell2, index2, num, p + [segs[0]], segs[1..])
    ensures Grown(nodes, spell, index, nodes2, spell2, index2, num, p, segs)
  {
    AlongHasEnds(p + [segs[0]], segs[1..]);
  }
}
