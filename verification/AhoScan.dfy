/** Why the scan of include/utilxx/aho_corasick.h misses no occurrence and makes none up. */
module AhoScan {
  import opened Words
  import opened Tokens
  import opened AhoTrie
  import opened AhoBuild

  lemma ReadNone(t: set<Word>, text: Word)
    requires [] in t
    ensures LongestSuffix(t, text[..0]) == []
  {
    assert text[..0] == [];
  }

  lemma ReadOne(t: set<Word>, text: Word, i: nat)
    requires PrefixClosed(t) && i < |text|
    ensures LongestSuffix(t, text[..i + 1]) == Step(t, LongestSuffix(t, text[..i]), text[i])
  {
    assert text[..i + 1] == text[..i] + [text[i]];
    StepIsLongest(t, text[..i], text[i]);
  }

  lemma BuiltFacts(nodes: seq<Node>, spell: seq<Word>, index: map<Word, nat>, keys: seq<Word>)
    requires BuiltState(nodes, spell, index, keys)
    ensures IsTrie(nodes, spell, index) && PrefixClosed(index.Keys) && |nodes| == |spell| > 0 && spell[0] == []
    ensures [] in index
    ensures forall d: nat :: FailsTo(nodes, spell, index, d)
    ensures forall i: nat, id: nat :: i < |nodes| && id in nodes[i].outputs ==> id < |keys|
    ensures forall id :: 0 <= id < |keys| ==> keys[id] in index
    ensures forall i: nat {:trigger OutputsRight(nodes, spell, keys, i)} :: i < |nodes| ==>
            OutputsRight(nodes, spell, keys, i)
  {
    forall i: nat | i < |nodes| ensures OutputsRight(nodes, spell, keys, i) {
      assert NodeDone(nodes, spell, index, keys, i);
    }
    forall i: nat, id: nat | i < |nodes| && id in nodes[i].outputs ensures id < |keys| {
      assert Ends(keys, id, spell[i]) || IsEmptyKey(keys, id);
    }
    forall d: nat ensures FailsTo(nodes, spell, index, d) {
      forall i: nat | i < |nodes| && |spell[i]| <= d ensures FailRight(nodes, spell, index, i) {
        assert NodeDone(nodes, spell, index, keys, i);
      }
    }
  }

  /** A pattern ends the longest suffix, in the trie, of the text read exactly when it
      occurs there. */
  lemma EndsIsOccurs(t: set<Word>, keys: seq<Word>, text: Word, i: nat, u: Word, id: nat)
    requires i <= |text| && IsLongest(t, text[..i], u) && id < |keys| && keys[id] in t
    ensures Ends(keys, id, u) <==> |keys[id]| <= i && Occurs(keys, text, Match(i - |keys[id]|, i, id))
  {
    var read := text[..i];
    if IsSuffix(keys[id], u) {
      SuffixTrans(keys[id], u, read);
    }
    if |keys[id]| <= i {
      assert read[i - |keys[id]|..] == text[i - |keys[id]|..i];
    }
  }

  /** The outputs of the node reached behind i characters are the occurrences ending there. */
  lemma OutputsAreMatches(nodes: seq<Node>, spell: seq<Word>, index: map<Word, nat>, keys: seq<Word>, text: Word,
                          i: nat, at: nat)
    requires i <= |text| && at < |nodes| == |spell| && IsLongest(index.Keys, text[..i], spell[at])
    requires (forall id :: 0 <= id < |keys| ==> keys[id] in index) && OutputsRight(nodes, spell, keys, at)
    ensures forall id: nat :: !IsEmptyKey(keys, id) ==>
              (id in nodes[at].outputs <==>
               id < |keys| && |keys[id]| <= i && Occurs(keys, text, Match(i - |keys[id]|, i, id)))
  {
    hide IsLongest, Occurs;
    forall id: nat | !IsEmptyKey(keys, id)
      ensures id in nodes[at].outputs <==>
                id < |keys| && |keys[id]| <= i && Occurs(keys, text, Match(i - |keys[id]|, i, id))
    {
      if id < |keys| { EndsIsOccurs(index.Keys, keys, text, i, spell[at], id); }
    }
  }

  /** The matches collected after i characters and the first k outputs of the node there. */
  ghost predicate Collected(keys: seq<Word>, text: Word, matches: seq<Match>, i: nat, outputs: seq<nat>, k: nat)
    requires k <= |outputs|
  {
    && (forall m :: m in matches ==> Occurs(keys, text, m) || OccursEmpty(keys, text, m))
    && (forall m :: Occurs(keys, text, m) ==>
          (m in matches <==> m.end < i || (m.end == i && m.patternId in outputs[..k])))
  }

  lemma CollectedNone(keys: seq<Word>, text: Word)
    ensures Collected(keys, text, [], 1, [], 0)
  {
  }

  lemma CollectedNext(keys: seq<Word>, text: Word, matches: seq<Match>, i: nat, outputs: seq<nat>)
    requires Collected(keys, text, matches, i, [], 0)
    ensures Collected(keys, text, matches, i, outputs, 0)
  {
  }

  lemma CollectedOne(keys: seq<Word>, text: Word, matches: seq<Match>, i: nat, outputs: seq<nat>, k: nat, m: Match)
    requires k < |outputs| && Collected(keys, text, matches, i, outputs, k)
    requires Occurs(keys, text, m) || OccursEmpty(keys, text, m)
    requires m.end == i && m.patternId == outputs[k]
    ensures Collected(keys, text, matches + [m], i, outputs, k + 1)
  {
    assert outputs[..k + 1] == outputs[..k] + [outputs[k]];
    forall n | Occurs(keys, text, n) && n.end == i && n.patternId == m.patternId ensures n == m {}
  }

  lemma CollectedAll(keys: seq<Word>, text: Word, matches: seq<Match>, i: nat, outputs: seq<nat>)
    requires Collected(keys, text, matches, i, outputs, |outputs|)
    requires forall id: nat :: !IsEmptyKey(keys, id) ==>
               (id in outputs <==> id < |keys| && |keys[id]| <= i && Occurs(keys, text, Match(i - |keys[id]|, i, id)))
    ensures Collected(keys, text, matches, i + 1, [], 0)
  {
    assert outputs[..|outputs|] == outputs;
    forall m | Occurs(keys, text, m) && m.end == i ensures m.patternId in outputs {
      assert m == Match(i - |keys[m.patternId]|, i, m.patternId);
    }
  }

  lemma CollectedEnd(keys: seq<Word>, text: Word, matches: seq<Match>)
    requires Collected(keys, text, matches, |text| + 1, [], 0)
    ensures AreMatches(keys, text, matches)
  {
  }
}
