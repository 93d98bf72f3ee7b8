/** The trie of include/utilxx/aho_corasick.h on values: what its nodes, failure links and
    outputs mean, and how a pattern is added.

    Two ghost values name what the nodes stand for: spell[i] is the word read on the way
    from the root to node i, and index is its inverse. */
module AhoTrie {
  import opened Words

  datatype Node = Node(children: map<Code, nat>, fail: nat, outputs: seq<nat>)

  /** Lower-cases the codes 65..90 when case is ignored. */
  function OnCharCode(ignoreCase: bool, ch: Code): Code {
    if ignoreCase && 65 <= ch <= 90 then ch + 32 else ch
  }

  function Fold(ignoreCase: bool, w: Word): Word {
    seq(|w|, i requires 0 <= i < |w| => OnCharCode(ignoreCase, w[i]))
  }

  lemma FoldAllMore(ignoreCase: bool, ps: seq<Word>, p: Word)
    ensures FoldAll(ignoreCase, ps + [p]) == FoldAll(ignoreCase, ps) + [Fold(ignoreCase, p)]
    ensures |FoldAll(ignoreCase, ps)| == |ps| && |Fold(ignoreCase, p)| == |p|
  {
  }

  lemma FoldFacts(ignoreCase: bool, w: Word, ps: seq<Word>)
    ensures |Fold(ignoreCase, w)| == |w|
    ensures forall i :: 0 <= i < |w| ==> Fold(ignoreCase, w)[i] == OnCharCode(ignoreCase, w[i])
    ensures |FoldAll(ignoreCase, ps)| == |ps|
    ensures forall k :: 0 <= k < |ps| ==> |FoldAll(ignoreCase, ps)[k]| == |ps[k]|
  {
  }

  lemma FoldPrefix(ignoreCase: bool, w: Word, k: nat)
    requires k < |w|
    ensures |Fold(ignoreCase, w)| == |w|
    ensures Fold(ignoreCase, w)[..k + 1] == Fold(ignoreCase, w)[..k] + [OnCharCode(ignoreCase, w[k])]
  {
  }

  function FoldAll(ignoreCase: bool, ps: seq<Word>): seq<Word> {
    seq(|ps|, i requires 0 <= i < |ps| => Fold(ignoreCase, ps[i]))
  }

  /** spell and index name every node by a different word. */
  ghost predicate Named(spell: seq<Word>, index: map<Word, nat>) {
    && |spell| > 0
    && spell[0] == []
    && (forall i :: 0 <= i < |spell| ==> spell[i] in index && index[spell[i]] == i)
    && (forall w :: w in index ==> index[w] < |spell| && spell[index[w]] == w)
  }

  /** The child of i for c is the node spelling one more character, when there is one. */
  ghost predicate Linked(nodes: seq<Node>, spell: seq<Word>, index: map<Word, nat>)
    requires |nodes| == |spell|
  {
    forall i, c :: 0 <= i < |nodes| ==>
      if c in nodes[i].children
      then spell[i] + [c] in index && nodes[i].children[c] == index[spell[i] + [c]]
      else spell[i] + [c] !in index
  }

  /** The nodes form the trie of the words in index. */
  ghost predicate IsTrie(nodes: seq<Node>, spell: seq<Word>, index: map<Word, nat>) {
    |nodes| == |spell| && Named(spell, index) && PrefixClosed(index.Keys) && Linked(nodes, spell, index)
  }

  lemma TrieFacts(nodes: seq<Node>, spell: seq<Word>, index: map<Word, nat>)
    requires IsTrie(nodes, spell, index)
    ensures |nodes| == |spell| && Named(spell, index) && [] in index && |nodes| > 0 && spell[0] == []
  {
  }

  /** Hanging a new leaf below node i keeps the trie. */
  lemma NewLeafKeepsTrie(nodes: seq<Node>, spell: seq<Word>, index: map<Word, nat>, i: nat, c: Code,
                         nodes': seq<Node>, spell': seq<Word>, index': map<Word, nat>)
    requires IsTrie(nodes, spell, index) && i < |nodes| && c !in nodes[i].children
    requires spell' == spell + [spell[i] + [c]]
    requires index' == index[spell[i] + [c] := |nodes|]
    requires nodes' == nodes[i := nodes[i].(children := nodes[i].children[c := |nodes|])] + [Node(map[], 0, [])]
    ensures IsTrie(nodes', spell', index')
  {
    var w := spell[i] + [c];
    assert w !in index;
    assert Named(spell', index');
    forall u, d | u + [d] in index' ensures u in index' {
      if u + [d] == w { assert u == (u + [d])[..|u|] == w[..|u|] == spell[i]; }
    }
    forall k, d | 0 <= k < |nodes'|
      ensures if d in nodes'[k].children
              then spell'[k] + [d] in index' && nodes'[k].children[d] == index'[spell'[k] + [d]]
              else spell'[k] + [d] !in index'
    {
      var u := spell'[k];
      assert (u + [d])[..|u|] == u && (u + [d])[|u|] == d;
      assert w[..|spell[i]|] == spell[i] && w[|spell[i]|] == c;
      if k < |nodes| {
        if u + [d] == w { assert u == spell[i]; assert k == i; }
      } else {
        assert |u + [d]| > |w|;
      }
    }
  }

  ghost predicate IsEmptyKey(keys: seq<Word>, id: nat) {
    id < |keys| && keys[id] == []
  }

  /** Pattern number id ends the word w. */
  ghost predicate Ends(keys: seq<Word>, id: nat, w: Word) {
    id < |keys| && keys[id] != [] && IsSuffix(keys[id], w)
  }

  /** Every node lists its own patterns, and lists nothing but patterns that end its word.
      This holds before, between and after calls of Build. */
  ghost predicate OutputsSound(nodes: seq<Node>, spell: seq<Word>, index: map<Word, nat>, keys: seq<Word>)
    requires |nodes| == |spell| && Named(spell, index)
  {
    && (forall i: nat, id: nat :: i < |nodes| && id in nodes[i].outputs ==>
          Ends(keys, id, spell[i]) || IsEmptyKey(keys, id))
    && (forall id :: 0 <= id < |keys| ==> keys[id] in index && id in nodes[index[keys[id]]].outputs)
  }

  /** The failure link of node i spells the longest proper suffix that is in the trie. */
  ghost predicate FailRight(nodes: seq<Node>, spell: seq<Word>, index: map<Word, nat>, i: nat)
    requires [] in index && i < |nodes| == |spell|
  {
    if spell[i] == [] then nodes[i].fail == 0
    else nodes[i].fail == index[LongestSuffix(index.Keys, spell[i][1..])]
  }

  /** Node i lists exactly the patterns that end its word, empty ones aside. */
  ghost predicate OutputsRight(nodes: seq<Node>, spell: seq<Word>, keys: seq<Word>, i: nat)
    requires i < |nodes| == |spell|
  {
    forall id: nat :: !IsEmptyKey(keys, id) ==> (id in nodes[i].outputs <==> Ends(keys, id, spell[i]))
  }

  /** A trie stays one when failure links and outputs change. */
  lemma SameChildrenKeepTrie(nodes: seq<Node>, nodes': seq<Node>, spell: seq<Word>, index: map<Word, nat>)
    requires IsTrie(nodes, spell, index) && |nodes'| == |nodes|
    requires forall i :: 0 <= i < |nodes| ==> nodes'[i].children == nodes[i].children
    ensures IsTrie(nodes', spell, index)
  {
  }

  /** index gained the prefixes of key and nothing else. */
  ghost predicate Grown(index: map<Word, nat>, index': map<Word, nat>, key: Word) {
    index'.Keys == index.Keys + Prefixes(key)
  }

  lemma GrownNone(index: map<Word, nat>)
    requires [] in index
    ensures Grown(index, index, [])
  {
  }

  lemma GrownMore(index: map<Word, nat>, index': map<Word, nat>, index'': map<Word, nat>, key: Word, c: Code)
    requires Grown(index, index', key) && index''.Keys == index'.Keys + {key + [c]}
    ensures Grown(index, index'', key + [c])
  {
    PrefixesMore(key, c);
  }

  /** New nodes have no outputs, old ones keep theirs. */
  ghost predicate OutputsKept(nodes: seq<Node>, nodes': seq<Node>) {
    && |nodes| <= |nodes'|
    && forall i :: 0 <= i < |nodes'| ==>
         nodes'[i].outputs == if i < |nodes| then nodes[i].outputs else []
  }

  lemma OutputsKeptTrans(a: seq<Node>, b: seq<Node>, c: seq<Node>)
    requires OutputsKept(a, b) && OutputsKept(b, c)
    ensures OutputsKept(a, c)
  {
  }

  lemma KeyAddedOutputs(nodes: seq<Node>, inserted: seq<Node>, nodes': seq<Node>, spell: seq<Word>, spell': seq<Word>,
                        index: map<Word, nat>, index': map<Word, nat>, keys: seq<Word>, key: Word, at: nat)
    requires Named(spell, index) && |nodes| == |spell| && OutputsSound(nodes, spell, index, keys)
    requires Named(spell', index') && |nodes'| == |spell'| && spell <= spell'
    requires at < |nodes'| && spell'[at] == key
    requires OutputsKept(nodes, inserted) && |inserted| == |nodes'|
    requires nodes' == inserted[at := inserted[at].(outputs := inserted[at].outputs + [|keys|])]
    ensures OutputsSound(nodes', spell', index', keys + [key])
  {
    var keys' := keys + [key];
    forall i: nat, id: nat | i < |nodes'| && id in nodes'[i].outputs
      ensures Ends(keys', id, spell'[i]) || IsEmptyKey(keys', id)
    {
      if id in inserted[i].outputs {
        assert id in nodes[i].outputs && spell'[i] == spell[i];
        assert Ends(keys, id, spell[i]) || IsEmptyKey(keys, id);
        assert keys'[id] == keys[id];
      } else {
        assert i == at && id == |keys| && keys'[id] == key;
        assert spell'[at][0..] == key;
      }
    }
    forall id | 0 <= id < |keys'|
      ensures keys'[id] in index' && id in nodes'[index'[keys'[id]]].outputs
    {
      if id == |keys| {
        assert keys'[id] == key == spell'[at];
        assert nodes'[at].outputs[|inserted[at].outputs|] == |keys|;
      } else {
        assert keys'[id] == keys[id];
        var i := index[keys[id]];
        assert spell[i] == keys[id] == spell'[i];
        assert id in nodes[i].outputs && inserted[i].outputs == nodes[i].outputs;
      }
    }
  }

  /** Node i needs no more work by Build. */
  ghost predicate NodeDone(nodes: seq<Node>, spell: seq<Word>, index: map<Word, nat>, keys: seq<Word>, i: nat)
    requires [] in index && |nodes| == |spell|
  {
    i < |nodes| && FailRight(nodes, spell, index, i) && OutputsRight(nodes, spell, keys, i)
  }

  ghost predicate ValidState(nodes: seq<Node>, spell: seq<Word>, index: map<Word, nat>, keys: seq<Word>) {
    IsTrie(nodes, spell, index) && index.Keys == AllPrefixes(keys) && OutputsSound(nodes, spell, index, keys)
  }

  /** The automaton theorem: the nodes are the trie of the patterns, every failure link
      spells the longest proper suffix in the trie, and every node lists exactly the
      patterns that end its word (and perhaps empty ones). */
  ghost predicate BuiltState(nodes: seq<Node>, spell: seq<Word>, index: map<Word, nat>, keys: seq<Word>) {
    && ValidState(nodes, spell, index, keys)
    && forall i: nat {:trigger NodeDone(nodes, spell, index, keys, i)} :: i < |nodes| ==>
        NodeDone(nodes, spell, index, keys, i)
  }

  lemma RootIsValid(ignoreCase: bool)
    ensures ValidState([Node(map[], 0, [])], [[]], map[[] := 0], FoldAll(ignoreCase, []))
  {
    assert FoldAll(ignoreCase, []) == [];
    var index: map<Word, nat> := map[[] := 0];
    assert forall w: Word, c :: w + [c] != [];
  }

  lemma ValidFacts(nodes: seq<Node>, spell: seq<Word>, index: map<Word, nat>, keys: seq<Word>)
    requires ValidState(nodes, spell, index, keys)
    ensures IsTrie(nodes, spell, index)
  {
  }

  /** What AddPattern does to a valid automaton, step by step on values: the walk grows
      the trie, then the last node gets the new pattern's number. */
  lemma KeyAdded(nodes: seq<Node>, inserted: seq<Node>, nodes': seq<Node>, spell: seq<Word>, spell': seq<Word>,
                 index: map<Word, nat>, index': map<Word, nat>, keys: seq<Word>, key: Word, at: nat)
    requires at < |inserted| == |spell'| && spell'[at] == key
    requires spell <= spell' && Grown(index, index', key) && OutputsKept(nodes, inserted)
    requires ValidState(nodes, spell, index, keys) && IsTrie(inserted, spell', index')
    requires nodes' == inserted[at := inserted[at].(outputs := inserted[at].outputs + [|keys|])]
    ensures ValidState(nodes', spell', index', keys + [key])
  {
    TrieFacts(nodes, spell, index);
    TrieFacts(inserted, spell', index');
    hide IsTrie, OutputsKept, OutputsSound;
    SameChildrenKeepTrie(inserted, nodes', spell', index');
    AllPrefixesMore(keys, key);
    KeyAddedOutputs(nodes, inserted, nodes', spell, spell', index, index', keys, key, at);
  }
}
