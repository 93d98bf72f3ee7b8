/** The breadth-first pass of include/utilxx/aho_corasick.h: what it keeps while it sets
    failure links and merges outputs, and why it ends with every node finished. */
module AhoBuild {
  import opened Words
  import opened AhoTrie

  ghost function Parent(spell: seq<Word>, index: map<Word, nat>, i: nat): nat
    requires Named(spell, index) && PrefixClosed(index.Keys) && 0 < i < |spell|
  {
    assert spell[i] != [] by { assert index[spell[0]] == 0; }
    var w := spell[i];
    ClosedAt(index.Keys, w);
    index[w[..|w| - 1]]
  }

  ghost function Depth(spell: seq<Word>, i: nat): nat
    requires i < |spell|
  {
    |spell[i]|
  }

  /** The nodes that wait are finished, and come in order of depth, within one of curr. */
  ghost predicate Waiting(spell: seq<Word>, done: set<nat>, exp: set<nat>, q: seq<nat>, curr: nat)
    requires curr < |spell|
  {
    && (forall k :: 0 <= k < |q| ==> q[k] < |spell| && q[k] in done && q[k] !in exp && q[k] != curr)
    && (forall k :: 0 <= k < |q| ==> Depth(spell, curr) <= Depth(spell, q[k]) <= Depth(spell, curr) + 1)
    && (forall k, l :: 0 <= k < l < |q| ==> q[k] != q[l] && Depth(spell, q[k]) <= Depth(spell, q[l]))
  }

  /** Where the pass stands while it visits node curr: the nodes in done are finished,
      those in exp have had all their children visited, q holds the ones that wait, and
      rest holds the characters of curr still to be visited. */
  ghost predicate Visiting(spell: seq<Word>, index: map<Word, nat>, done: set<nat>, exp: set<nat>, q: seq<nat>,
                           curr: nat, rest: set<Code>)
    requires Named(spell, index) && PrefixClosed(index.Keys)
  {
    && curr < |spell| && curr in done && curr !in exp && 0 in done
    && Waiting(spell, done, exp, q, curr)
    && (forall i :: i in exp ==> i in done)
    && (forall i :: i in done ==> i < |spell| && (i in exp || i in q || i == curr))
    && (forall i: nat :: i < |spell| && i !in done ==> Depth(spell, i) > Depth(spell, curr))
    && (forall i: nat {:trigger Parent(spell, index, i)} :: 0 < i < |spell| ==>
          (i in done <==>
            Parent(spell, index, i) in exp || (Parent(spell, index, i) == curr && spell[i][|spell[i]| - 1] !in rest)))
  }

  lemma ParentFacts(spell: seq<Word>, index: map<Word, nat>, i: nat)
    requires Named(spell, index) && PrefixClosed(index.Keys) && 0 < i < |spell|
    ensures spell[i] != [] && Parent(spell, index, i) < |spell|
    ensures spell[i] == spell[Parent(spell, index, i)] + [spell[i][|spell[i]| - 1]]
    ensures Depth(spell, i) == Depth(spell, Parent(spell, index, i)) + 1
  {
    assert spell[i] != [] by { assert index[spell[0]] == 0; }
    ClosedAt(index.Keys, spell[i]);
  }

  /** A node is a child of its parent. */
  lemma ParentLinks(nodes: seq<Node>, spell: seq<Word>, index: map<Word, nat>, i: nat)
    requires IsTrie(nodes, spell, index) && 0 < i < |spell|
    ensures spell[i] != [] && Parent(spell, index, i) < |nodes|
    ensures var c := spell[i][|spell[i]| - 1];
            var p := Parent(spell, index, i);
            c in nodes[p].children && nodes[p].children[c] == i
  {
    ParentFacts(spell, index, i);
    assert spell[Parent(spell, index, i)] + [spell[i][|spell[i]| - 1]] in index;
  }

  lemma ChildFacts(nodes: seq<Node>, spell: seq<Word>, index: map<Word, nat>, i: nat, c: Code)
    requires IsTrie(nodes, spell, index) && i < |nodes| && c in nodes[i].children
    ensures var child := nodes[i].children[c];
            && 0 < child < |nodes| && spell[child] == spell[i] + [c]
            && Parent(spell, index, child) == i && spell[child][|spell[child]| - 1] == c
            && Depth(spell, child) == Depth(spell, i) + 1
  {
    assert spell[i] + [c] in index;
    var child := nodes[i].children[c];
    assert spell[child] == spell[i] + [c];
    assert spell[child][..|spell[child]| - 1] == spell[i];
  }

  lemma VisitStart(nodes: seq<Node>, spell: seq<Word>, index: map<Word, nat>)
    requires IsTrie(nodes, spell, index)
    ensures Visiting(spell, index, {0}, {}, [], 0, nodes[0].children.Keys)
  {
    forall i: nat | 0 < i < |spell| ensures Depth(spell, i) > 0 {
      ParentFacts(spell, index, i);
    }
    forall i: nat | 0 < i < |spell| && Parent(spell, index, i) == 0
      ensures spell[i] != [] && spell[i][|spell[i]| - 1] in nodes[0].children
    {
      ParentLinks(nodes, spell, index, i);
    }
  }

  /** The next child of curr has not been visited, and joins the queue. */
  lemma VisitChild(nodes: seq<Node>, spell: seq<Word>, index: map<Word, nat>,
                   done: set<nat>, exp: set<nat>, q: seq<nat>, curr: nat, rest: set<Code>, c: Code)
    requires IsTrie(nodes, spell, index)
    requires Visiting(spell, index, done, exp, q, curr, rest) && c in rest && c in nodes[curr].children
    ensures var child := nodes[curr].children[c];
            child !in done && Visiting(spell, index, done + {child}, exp, q + [child], curr, rest - {c})
  {
    var child := nodes[curr].children[c];
    ChildFacts(nodes, spell, index, curr, c);
    hide Named, IsTrie, PrefixClosed, Parent, Waiting;
    forall i: nat | 0 < i < |spell| && Parent(spell, index, i) == curr && spell[i] != []
        && spell[i][|spell[i]| - 1] == c
      ensures i == child
    {
      ParentLinks(nodes, spell, index, i);
    }
    ChildWaits(spell, done, exp, q, curr, child);
  }

  lemma ChildWaits(spell: seq<Word>, done: set<nat>, exp: set<nat>, q: seq<nat>, curr: nat, child: nat)
    requires curr < |spell| && child < |spell| && Waiting(spell, done, exp, q, curr)
    requires curr in done && exp <= done && child !in done && Depth(spell, child) == Depth(spell, curr) + 1
    ensures Waiting(spell, done + {child}, exp, q + [child], curr)
  {
  }

  /** With all children of curr visited, the first node that waits is next: no shallower
      node is left behind. */
  lemma VisitNext(nodes: seq<Node>, spell: seq<Word>, index: map<Word, nat>,
                  done: set<nat>, exp: set<nat>, q: seq<nat>, curr: nat)
    requires IsTrie(nodes, spell, index)
    requires Visiting(spell, index, done, exp, q, curr, {}) && q != []
    ensures q[0] < |spell|
    ensures Visiting(spell, index, done, exp + {curr}, q[1..], q[0], nodes[q[0]].children.Keys)
  {
    var next := q[0];
    hide Named, IsTrie, PrefixClosed, Parent;
    forall i: nat | i < |spell| && i !in done ensures Depth(spell, i) > Depth(spell, next) {
      ParentFacts(spell, index, i);
      var p := Parent(spell, index, i);
      if p in done {
        assert p in q;
        var k :| 0 <= k < |q| && q[k] == p;
        assert Depth(spell, q[0]) <= Depth(spell, q[k]);
      }
    }
    forall i: nat | 0 < i < |spell| && Parent(spell, index, i) == next
      ensures i !in done && spell[i] != [] && spell[i][|spell[i]| - 1] in nodes[next].children
    {
      ParentLinks(nodes, spell, index, i);
    }
    NextWaits(spell, done, exp, q, curr);
  }

  lemma NextWaits(spell: seq<Word>, done: set<nat>, exp: set<nat>, q: seq<nat>, curr: nat)
    requires curr < |spell| && Waiting(spell, done, exp, q, curr) && q != []
    ensures q[0] < |spell| && Waiting(spell, done, exp + {curr}, q[1..], q[0])
    ensures forall i :: i in q <==> i == q[0] || i in q[1..]
  {
    forall k | 0 <= k < |q[1..]| ensures q[1..][k] == q[k + 1] {}
    assert q == [q[0]] + q[1..];
  }

  /** When nothing waits any more, every node has been visited. */
  lemma {:induction false} VisitEnd(spell: seq<Word>, index: map<Word, nat>, done: set<nat>, exp: set<nat>, curr: nat,
                                    i: nat)
    requires Named(spell, index) && PrefixClosed(index.Keys)
    requires Visiting(spell, index, done, exp, [], curr, {}) && i < |spell|
    ensures i in done
    decreases Depth(spell, i)
  {
    if i != 0 {
      ParentFacts(spell, index, i);
      VisitEnd(spell, index, done, exp, curr, Parent(spell, index, i));
    }
  }

  /** The failure links of all nodes up to depth d are right. */
  ghost predicate FailsTo(nodes: seq<Node>, spell: seq<Word>, index: map<Word, nat>, d: nat)
    requires [] in index && |nodes| == |spell|
  {
    forall i: nat {:trigger FailRight(nodes, spell, index, i)} :: i < |nodes| && |spell[i]| <= d ==>
        FailRight(nodes, spell, index, i)
  }

  /** Inheriting the outputs of the failure link completes those of a node. */
  lemma OutputsInherited(nodes: seq<Node>, spell: seq<Word>, index: map<Word, nat>, keys: seq<Word>, i: nat, f: nat,
                         id: nat)
    requires ValidState(nodes, spell, index, keys) && i < |nodes| && f < |nodes| && spell[i] != []
    requires spell[f] == LongestSuffix(index.Keys, spell[i][1..])
    requires OutputsRight(nodes, spell, keys, f)
    ensures !IsEmptyKey(keys, id) ==>
              (id in nodes[i].outputs || id in nodes[f].outputs <==> Ends(keys, id, spell[i]))
  {
    if id < |keys| {
      assert keys[id] in index;
      SuffixesInherited(index.Keys, spell[i], keys[id]);
      if keys[id] == spell[i] { assert index[keys[id]] == i; }
    }
  }

  /** One failure link: the search for c goes on from the next shorter suffix. */
  lemma FollowOne(nodes: seq<Node>, spell: seq<Word>, index: map<Word, nat>, d: nat, at: nat, c: Code)
    requires IsTrie(nodes, spell, index) && 0 < at < |nodes| && c !in nodes[at].children
    requires FailsTo(nodes, spell, index, d) && |spell[at]| <= d
    ensures nodes[at].fail < |nodes| && |spell[nodes[at].fail]| < |spell[at]|
    ensures Step(index.Keys, spell[at], c) == Step(index.Keys, spell[nodes[at].fail], c)
  {
    ParentFacts(spell, index, at);
    assert FailRight(nodes, spell, index, at);
    assert spell[at] + [c] !in index;
  }

  lemma FollowLast(nodes: seq<Node>, spell: seq<Word>, index: map<Word, nat>, at: nat, c: Code)
    requires IsTrie(nodes, spell, index) && at < |nodes|
    requires at == 0 || c in nodes[at].children
    ensures var next := if c in nodes[at].children then nodes[at].children[c] else 0;
            next < |nodes| && spell[next] == Step(index.Keys, spell[at], c)
  {
    assert c in nodes[at].children <==> spell[at] + [c] in index;
  }

  ghost function NotIn(n: nat, s: set<nat>): set<nat> {
    set i: nat | i < n && i !in s
  }

  lemma NotInShrinks(n: nat, s: set<nat>, x: nat)
    requires x < n && x !in s
    ensures x in NotIn(n, s) && NotIn(n, s + {x}) == NotIn(n, s) - {x}
  {
  }

  /** The invariant of Build: a valid automaton whose visited nodes are finished. */
  ghost predicate Building(nodes: seq<Node>, spell: seq<Word>, index: map<Word, nat>, keys: seq<Word>,
                           done: set<nat>, exp: set<nat>, q: seq<nat>, curr: nat, rest: set<Code>)
  {
    && ValidState(nodes, spell, index, keys)
    && Visiting(spell, index, done, exp, q, curr, rest)
    && rest <= nodes[curr].children.Keys
    && forall i :: i in done ==> NodeDone(nodes, spell, index, keys, i)
  }

  lemma FinishChild(nodes: seq<Node>, nodes': seq<Node>, spell: seq<Word>, index: map<Word, nat>, keys: seq<Word>,
                    done: set<nat>, exp: set<nat>, q: seq<nat>, curr: nat, rest: set<Code>, c: Code,
                    child: nat, fail: nat, outputs: seq<nat>)
    requires Building(nodes, spell, index, keys, done, exp, q, curr, rest) && c in rest
    requires child == nodes[curr].children[c] && child < |nodes|
    requires nodes' == nodes[child := nodes[child].(fail := fail, outputs := outputs)]
    requires NodeDone(nodes', spell, index, keys, child)
    ensures Building(nodes', spell, index, keys, done + {child}, exp, q + [child], curr, rest - {c})
  {
    SameChildrenKeepTrie(nodes, nodes', spell, index);
    VisitChild(nodes, spell, index, done, exp, q, curr, rest, c);
    TrieFacts(nodes, spell, index);
    hide IsTrie, Named, Visiting, PrefixClosed, OutputsSound, NodeDone;
    OneNodeFinished(nodes, nodes', spell, index, keys, child, fail, outputs);
    DoneStays(nodes, nodes', spell, index, keys, done, child, fail, outputs);
  }

  lemma DoneStays(nodes: seq<Node>, nodes': seq<Node>, spell: seq<Word>, index: map<Word, nat>, keys: seq<Word>,
                  done: set<nat>, child: nat, fail: nat, outputs: seq<nat>)
    requires [] in index && |nodes| == |spell| && child < |nodes|
    requires nodes' == nodes[child := nodes[child].(fail := fail, outputs := outputs)]
    requires NodeDone(nodes', spell, index, keys, child)
    requires forall i :: i in done ==> NodeDone(nodes, spell, index, keys, i)
    ensures forall i :: i in done + {child} ==> NodeDone(nodes', spell, index, keys, i)
  {
    forall i | i in done ensures NodeDone(nodes', spell, index, keys, i) {
      assert NodeDone(nodes, spell, index, keys, i);
    }
  }

  lemma OneNodeFinished(nodes: seq<Node>, nodes': seq<Node>, spell: seq<Word>, index: map<Word, nat>, keys: seq<Word>,
                        child: nat, fail: nat, outputs: seq<nat>)
    requires |nodes| == |spell| && Named(spell, index) && [] in index && child < |nodes|
    requires spell[child] != []
    requires OutputsSound(nodes, spell, index, keys)
    requires nodes' == nodes[child := nodes[child].(fail := fail, outputs := outputs)]
    requires NodeDone(nodes', spell, index, keys, child)
    ensures OutputsSound(nodes', spell, index, keys)
  {
    forall id: nat | id < |keys| ensures keys[id] in index && id in nodes'[index[keys[id]]].outputs {
      if index[keys[id]] == child {
        assert spell[child] == keys[id] && id in nodes[child].outputs;
        assert Ends(keys, id, spell[child]);
      }
    }
  }

  lemma BuildingFacts(nodes: seq<Node>, spell: seq<Word>, index: map<Word, nat>, keys: seq<Word>,
                      done: set<nat>, exp: set<nat>, q: seq<nat>, curr: nat, rest: set<Code>)
    requires Building(nodes, spell, index, keys, done, exp, q, curr, rest)
    ensures IsTrie(nodes, spell, index) && curr < |nodes| == |spell| && curr !in exp && [] in index
    ensures rest <= nodes[curr].children.Keys
    ensures forall k :: 0 <= k < |q| ==> q[k] < |nodes|
    ensures forall c :: c in rest ==> nodes[curr].children[c] < |nodes|
    ensures FailsTo(nodes, spell, index, |spell[curr]|)
  {
    forall c | c in rest ensures nodes[curr].children[c] < |nodes| {
      ChildFacts(nodes, spell, index, curr, c);
    }
    forall i: nat | i < |nodes| && |spell[i]| <= |spell[curr]| ensures FailRight(nodes, spell, index, i) {
      assert Depth(spell, i) <= Depth(spell, curr);
      assert NodeDone(nodes, spell, index, keys, i);
    }
  }

  lemma BuildingLink(nodes: seq<Node>, spell: seq<Word>, index: map<Word, nat>, keys: seq<Word>,
                     done: set<nat>, exp: set<nat>, q: seq<nat>, curr: nat, rest: set<Code>)
    requires Building(nodes, spell, index, keys, done, exp, q, curr, rest) && curr != 0
    ensures 0 < curr < |nodes| == |spell| && nodes[curr].fail < |nodes| && [] in index
    ensures FailsTo(nodes, spell, index, |spell[nodes[curr].fail]|)
    ensures IsTrie(nodes, spell, index) && FailRight(nodes, spell, index, curr)
  {
    BuildingFacts(nodes, spell, index, keys, done, exp, q, curr, rest);
    ParentFacts(spell, index, curr);
    assert FailRight(nodes, spell, index, curr);
  }

  lemma BuildingStart(nodes: seq<Node>, nodes': seq<Node>, spell: seq<Word>, index: map<Word, nat>, keys: seq<Word>)
    requires ValidState(nodes, spell, index, keys)
    requires nodes' == nodes[0 := nodes[0].(fail := 0)]
    ensures Building(nodes', spell, index, keys, {0}, {}, [], 0, nodes'[0].children.Keys)
  {
    SameChildrenKeepTrie(nodes, nodes', spell, index);
    VisitStart(nodes', spell, index);
  }

  lemma BuildingNext(nodes: seq<Node>, spell: seq<Word>, index: map<Word, nat>, keys: seq<Word>,
                     done: set<nat>, exp: set<nat>, q: seq<nat>, curr: nat)
    requires Building(nodes, spell, index, keys, done, exp, q, curr, {}) && q != []
    ensures q[0] < |nodes| && q[0] != 0
    ensures Building(nodes, spell, index, keys, done, exp + {curr}, q[1..], q[0], nodes[q[0]].children.Keys)
  {
    VisitNext(nodes, spell, index, done, exp, q, curr);
  }

  lemma BuildingEnd(nodes: seq<Node>, spell: seq<Word>, index: map<Word, nat>, keys: seq<Word>,
                    done: set<nat>, exp: set<nat>, curr: nat)
    requires Building(nodes, spell, index, keys, done, exp, [], curr, {})
    ensures BuiltState(nodes, spell, index, keys)
  {
    forall i: nat | i < |nodes| ensures NodeDone(nodes, spell, index, keys, i) {
      VisitEnd(spell, index, done, exp, curr, i);
    }
  }

  /** A child of the root: no failure link to follow, nothing to inherit. */
  lemma RootChildDone(nodes: seq<Node>, spell: seq<Word>, index: map<Word, nat>, keys: seq<Word>, c: Code, child: nat)
    requires ValidState(nodes, spell, index, keys) && c in nodes[0].children
    requires child == nodes[0].children[c] && child < |nodes| && nodes[child].fail == 0
    ensures NodeDone(nodes, spell, index, keys, child)
  {
    ChildFacts(nodes, spell, index, 0, c);
    assert spell[child] == [c] && spell[child][1..] == [];
    forall id: nat | !IsEmptyKey(keys, id) ensures id in nodes[child].outputs <==> Ends(keys, id, [c]) {
      if Ends(keys, id, [c]) {
        assert keys[id] != [];
        assert keys[id] == [c];
        assert index[keys[id]] == child;
      }
    }
  }

  /** Any other child: its failure link is where c leads from the link of its parent,
      and the outputs of that node complete its own. */
  lemma ChildDone(nodes: seq<Node>, nodes': seq<Node>, spell: seq<Word>, index: map<Word, nat>, keys: seq<Word>,
                  child: nat, fail: nat)
    requires ValidState(nodes, spell, index, keys) && child < |nodes| && fail < |nodes|
    requires spell[child] != [] && spell[fail] == LongestSuffix(index.Keys, spell[child][1..])
    requires NodeDone(nodes, spell, index, keys, fail)
    requires nodes' ==
             nodes[child := nodes[child].(fail := fail, outputs := nodes[child].outputs + nodes[fail].outputs)]
    ensures NodeDone(nodes', spell, index, keys, child)
  {
    forall id: nat | !IsEmptyKey(keys, id) ensures id in nodes'[child].outputs <==> Ends(keys, id, spell[child]) {
      OutputsInherited(nodes, spell, index, keys, child, fail, id);
    }
  }

  lemma ChildFailWord(t: set<Word>, w: Word, c: Code, f: Word)
    requires PrefixClosed(t) && w != [] && f == LongestSuffix(t, w[1..])
    ensures Step(t, f, c) == LongestSuffix(t, (w + [c])[1..])
    ensures |LongestSuffix(t, (w + [c])[1..])| <= |w|
  {
    assert (w + [c])[1..] == w[1..] + [c];
    StepIsLongest(t, w[1..], c);
  }

  lemma FailRightMeans(nodes: seq<Node>, spell: seq<Word>, index: map<Word, nat>, i: nat)
    requires IsTrie(nodes, spell, index) && i < |nodes| && spell[i] != []
    requires FailRight(nodes, spell, index, i)
    ensures nodes[i].fail < |nodes| && spell[nodes[i].fail] == LongestSuffix(index.Keys, spell[i][1..])
  {
  }

  lemma ChildFails(nodes: seq<Node>, spell: seq<Word>, index: map<Word, nat>, curr: nat, c: Code, child: nat, fail: nat)
    requires IsTrie(nodes, spell, index)
    requires 0 < curr < |nodes| && c in nodes[curr].children && child == nodes[curr].children[c] && child < |nodes|
    requires FailRight(nodes, spell, index, curr)
    requires nodes[curr].fail < |nodes| && fail < |nodes|
    requires spell[fail] == Step(index.Keys, spell[nodes[curr].fail], c)
    ensures spell[child] != [] && spell[fail] == LongestSuffix(index.Keys, spell[child][1..])
    ensures |spell[fail]| <= |spell[curr]|
  {
    ChildFacts(nodes, spell, index, curr, c);
    ParentFacts(spell, index, curr);
    FailRightMeans(nodes, spell, index, curr);
    hide *;
    ChildFailWord(index.Keys, spell[curr], c, spell[nodes[curr].fail]);
  }

  lemma RootChildFinished(nodes: seq<Node>, nodes': seq<Node>, spell: seq<Word>, index: map<Word, nat>, keys: seq<Word>,
                          done: set<nat>, exp: set<nat>, q: seq<nat>, rest: set<Code>, c: Code, child: nat)
    requires Building(nodes, spell, index, keys, done, exp, q, 0, rest) && c in rest
    requires child == nodes[0].children[c] && child < |nodes|
    requires nodes' == nodes[child := nodes[child].(fail := 0)]
    ensures Building(nodes', spell, index, keys, done + {child}, exp, q + [child], 0, rest - {c})
  {
    SameChildrenKeepTrie(nodes, nodes', spell, index);
    RootChildDone(nodes', spell, index, keys, c, child);
    FinishChild(nodes, nodes', spell, index, keys, done, exp, q, 0, rest, c, child, 0, nodes[child].outputs);
  }

  lemma ChildFinished(nodes: seq<Node>, nodes': seq<Node>, spell: seq<Word>, index: map<Word, nat>, keys: seq<Word>,
                      done: set<nat>, exp: set<nat>, q: seq<nat>, curr: nat, rest: set<Code>, c: Code, child: nat,
                      fail: nat)
    requires Building(nodes, spell, index, keys, done, exp, q, curr, rest) && c in rest && curr != 0
    requires child == nodes[curr].children[c] && child < |nodes|
    requires fail < |nodes| == |spell| && [] in index && |spell[fail]| <= |spell[curr]|
    requires spell[child] != [] && spell[fail] == LongestSuffix(index.Keys, spell[child][1..])
    requires nodes' ==
             nodes[child := nodes[child].(fail := fail, outputs := nodes[child].outputs + nodes[fail].outputs)]
    ensures Building(nodes', spell, index, keys, done + {child}, exp, q + [child], curr, rest - {c})
  {
    BuildingFacts(nodes, spell, index, keys, done, exp, q, curr, rest);
    assert Depth(spell, fail) <= Depth(spell, curr);
    assert NodeDone(nodes, spell, index, keys, fail);
    ChildDone(nodes, nodes', spell, index, keys, child, fail);
    FinishChild(nodes, nodes', spell, index, keys, done, exp, q, curr, rest, c, child, fail,
                nodes[child].outputs + nodes[fail].outputs);
  }
}
