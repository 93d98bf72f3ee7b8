/** Empty patterns in the automaton of include/utilxx/aho_corasick.h: their numbers stand at
    the root, and the pass of Build hands them on, but not to the children of the root. */
module AhoEmpty {
  import opened Basics
  import opened Words
  import opened Tokens
  import opened AhoTrie
  import opened AhoBuild
  import opened AhoScan

  /** Before the first call of Build only the root lists empty patterns. */
  ghost predicate EmptiesAtRoot(nodes: seq<Node>, keys: seq<Word>) {
    forall i, id: nat :: 0 < i < |nodes| && id in nodes[i].outputs ==> !IsEmptyKey(keys, id)
  }

  /** A node for word w lists them when it is finished: the root does, and every node whose
      last character begins no pattern. */
  ghost predicate Shows(t: set<Word>, w: Word) {
    w == [] || [w[|w| - 1]] !in t
  }

  ghost predicate ShowsRight(nodes: seq<Node>, spell: seq<Word>, t: set<Word>, keys: seq<Word>, i: nat)
    requires i < |nodes| == |spell|
  {
    forall id: nat :: IsEmptyKey(keys, id) ==> (id in nodes[i].outputs <==> Shows(t, spell[i]))
  }

  /** The finished nodes are right, the others list no empty patterns. */
  ghost predicate EmptiesSoFar(nodes: seq<Node>, spell: seq<Word>, t: set<Word>, keys: seq<Word>, done: set<nat>)
    requires |nodes| == |spell|
  {
    && (forall i: nat {:trigger ShowsRight(nodes, spell, t, keys, i)} :: i < |nodes| && i in done ==>
          ShowsRight(nodes, spell, t, keys, i))
    && (forall i: nat, id: nat :: i < |nodes| && i !in done && id in nodes[i].outputs ==> !IsEmptyKey(keys, id))
  }

  /** All nodes are right; as after the first call of Build. */
  ghost predicate EmptiesRight(nodes: seq<Node>, spell: seq<Word>, t: set<Word>, keys: seq<Word>)
    requires |nodes| == |spell|
  {
    forall i: nat {:trigger ShowsRight(nodes, spell, t, keys, i)} :: i < |nodes| ==>
        ShowsRight(nodes, spell, t, keys, i)
  }

  lemma OnlyRoot(nodes: seq<Node>, keys: seq<Word>)
    requires |nodes| == 1
    ensures EmptiesAtRoot(nodes, keys)
  {
  }

  // ---------------------------------------------------------------------------
  // Adding a pattern
  // ---------------------------------------------------------------------------

  lemma KeyAddedAtRoot(nodes: seq<Node>, inserted: seq<Node>, nodes': seq<Node>, spell: seq<Word>, spell': seq<Word>,
                       index: map<Word, nat>, index': map<Word, nat>, keys: seq<Word>, key: Word, at: nat)
    requires ValidState(nodes, spell, index, keys) && EmptiesAtRoot(nodes, keys)
    requires IsTrie(inserted, spell', index') && at < |inserted| == |spell'| && spell'[at] == key
    requires OutputsKept(nodes, inserted)
    requires nodes' == inserted[at := inserted[at].(outputs := inserted[at].outputs + [|keys|])]
    ensures EmptiesAtRoot(nodes', keys + [key])
  {
    TrieFacts(inserted, spell', index');
    forall i, id: nat | 0 < i < |nodes'| && id in nodes'[i].outputs ensures !IsEmptyKey(keys + [key], id) {
      if id in inserted[i].outputs {
        assert id in nodes[i].outputs;
        assert Ends(keys, id, spell[i]) || IsEmptyKey(keys, id);
        assert !IsEmptyKey(keys, id);
      } else {
        assert i == at && id == |keys|;
      }
    }
  }

  // ---------------------------------------------------------------------------
  // The pass of Build
  // ---------------------------------------------------------------------------

  lemma EmptiesStart(nodes: seq<Node>, nodes': seq<Node>, spell: seq<Word>, index: map<Word, nat>, keys: seq<Word>)
    requires ValidState(nodes, spell, index, keys) && EmptiesAtRoot(nodes, keys)
    requires nodes' == nodes[0 := nodes[0].(fail := 0)]
    ensures EmptiesSoFar(nodes', spell, index.Keys, keys, {0})
  {
    TrieFacts(nodes, spell, index);
    forall id: nat | IsEmptyKey(keys, id) ensures id in nodes'[0].outputs {
      assert index[keys[id]] == 0;
    }
  }

  /** What the pass knows of the child it is about to visit. */
  lemma ChildIsNew(nodes: seq<Node>, spell: seq<Word>, index: map<Word, nat>, keys: seq<Word>,
                   done: set<nat>, exp: set<nat>, q: seq<nat>, curr: nat, rest: set<Code>, c: Code)
    requires Building(nodes, spell, index, keys, done, exp, q, curr, rest) && c in rest
    ensures curr < |nodes| == |spell| && c in nodes[curr].children
    ensures var child := nodes[curr].children[c];
            child < |nodes| && child !in done && spell[child] == spell[curr] + [c] && spell[child] in index
    ensures forall f: nat :: f < |spell| && |spell[f]| <= |spell[curr]| ==> f in done
    ensures curr != 0 ==> spell[curr] != []
  {
    VisitChild(nodes, spell, index, done, exp, q, curr, rest, c);
    ChildFacts(nodes, spell, index, curr, c);
    forall f: nat | f < |spell| && |spell[f]| <= |spell[curr]| ensures f in done {
      assert Depth(spell, f) <= Depth(spell, curr);
    }
    if curr != 0 { ParentFacts(spell, index, curr); }
  }

  lemma RootChildShows(nodes: seq<Node>, nodes': seq<Node>, spell: seq<Word>, t: set<Word>, keys: seq<Word>,
                       done: set<nat>, child: nat, c: Code)
    requires |nodes| == |spell| && EmptiesSoFar(nodes, spell, t, keys, done)
    requires child < |nodes| && child !in done && spell[child] == [c] && [c] in t
    requires nodes' == nodes[child := nodes[child].(fail := 0)]
    ensures EmptiesSoFar(nodes', spell, t, keys, done + {child})
  {
    forall i: nat | i < |nodes| && i in done + {child} ensures ShowsRight(nodes', spell, t, keys, i) {
      if i != child { assert ShowsRight(nodes, spell, t, keys, i); }
    }
  }

  /** The longest suffix in the trie ends with the last character, or is empty because this
      character begins no pattern. */
  lemma ShowsLast(t: set<Word>, w: Word, c: Code)
    requires [] in t
    ensures Shows(t, LongestSuffix(t, w + [c])) <==> [c] !in t
  {
    var read := w + [c];
    var u := LongestSuffix(t, read);
    LongestIs(t, read);
    assert IsSuffix([c], read) by { assert read[|w|..] == [c]; }
    if u != [] { assert u[|u| - 1] == c; }
  }

  lemma ShowsInherited(t: set<Word>, w: Word, c: Code)
    requires [] in t && w != []
    ensures Shows(t, LongestSuffix(t, (w + [c])[1..])) <==> Shows(t, w + [c])
  {
    assert (w + [c])[1..] == w[1..] + [c];
    ShowsLast(t, w[1..], c);
  }

  lemma ChildShows(nodes: seq<Node>, nodes': seq<Node>, spell: seq<Word>, t: set<Word>, keys: seq<Word>,
                   done: set<nat>, child: nat, fail: nat)
    requires |nodes| == |spell| && EmptiesSoFar(nodes, spell, t, keys, done)
    requires child < |nodes| && child !in done && fail < |nodes| && fail in done
    requires Shows(t, spell[fail]) <==> Shows(t, spell[child])
    requires nodes' ==
             nodes[child := nodes[child].(fail := fail, outputs := nodes[child].outputs + nodes[fail].outputs)]
    ensures EmptiesSoFar(nodes', spell, t, keys, done + {child})
  {
    assert ShowsRight(nodes, spell, t, keys, fail);
    forall i: nat | i < |nodes| && i in done + {child} ensures ShowsRight(nodes', spell, t, keys, i) {
      if i != child { assert ShowsRight(nodes, spell, t, keys, i); }
    }
  }

  lemma EmptiesEnd(nodes: seq<Node>, spell: seq<Word>, index: map<Word, nat>, keys: seq<Word>,
                   done: set<nat>, exp: set<nat>, curr: nat)
    requires Building(nodes, spell, index, keys, done, exp, [], curr, {})
    requires |nodes| == |spell| && EmptiesSoFar(nodes, spell, index.Keys, keys, done)
    ensures EmptiesRight(nodes, spell, index.Keys, keys)
  {
    forall i: nat | i < |nodes| ensures ShowsRight(nodes, spell, index.Keys, keys, i) {
      VisitEnd(spell, index, done, exp, curr, i);
    }
  }

  // ---------------------------------------------------------------------------
  // The scan
  // ---------------------------------------------------------------------------

  ghost predicate Begins(keys: seq<Word>, c: Code) {
    exists id :: 0 <= id < |keys| && keys[id] != [] && keys[id][0] == c
  }

  /** An empty pattern matches behind every character that begins no pattern, and behind no
      other. */
  ghost predicate EmptyShown(keys: seq<Word>, text: Word, m: Match) {
    OccursEmpty(keys, text, m) && !Begins(keys, text[m.end - 1])
  }

  lemma BeginsIs(keys: seq<Word>, c: Code)
    ensures [c] in AllPrefixes(keys) <==> Begins(keys, c)
  {
    AllPrefixesMeans(keys, [c]);
    forall id | 0 <= id < |keys| ensures IsPrefix([c], keys[id]) <==> keys[id] != [] && keys[id][0] == c {
      if keys[id] != [] { assert keys[id][..1] == [keys[id][0]]; }
    }
  }

  /** The node reached shows the empty patterns if the character just read begins none. */
  lemma ReachedShows(nodes: seq<Node>, spell: seq<Word>, index: map<Word, nat>, keys: seq<Word>, text: Word,
                     i: nat, at: nat)
    requires BuiltState(nodes, spell, index, keys) && EmptiesRight(nodes, spell, index.Keys, keys)
    requires i < |text| && at < |nodes| && spell[at] == LongestSuffix(index.Keys, text[..i + 1])
    ensures forall id: nat :: IsEmptyKey(keys, id) ==> (id in nodes[at].outputs <==> !Begins(keys, text[i]))
  {
    hide *;
    KeysSpelled(nodes, spell, index, keys);
    ShowsAt(nodes, spell, index.Keys, keys, at);
    BeginsIs(keys, text[i]);
    TakeOneMore(text, i);
    ShowsLast(index.Keys, text[..i], text[i]);
  }

  lemma KeysSpelled(nodes: seq<Node>, spell: seq<Word>, index: map<Word, nat>, keys: seq<Word>)
    requires BuiltState(nodes, spell, index, keys)
    ensures |nodes| == |spell| && index.Keys == AllPrefixes(keys) && [] in index
  {
  }

  lemma ShowsAt(nodes: seq<Node>, spell: seq<Word>, t: set<Word>, keys: seq<Word>, at: nat)
    requires |nodes| == |spell| && EmptiesRight(nodes, spell, t, keys) && at < |nodes|
    ensures forall id: nat :: IsEmptyKey(keys, id) ==> (id in nodes[at].outputs <==> Shows(t, spell[at]))
  {
    hide Shows;
    assert ShowsRight(nodes, spell, t, keys, at);
  }

  /** The empty matches collected after i characters and the first k outputs there. */
  ghost predicate EmptiesCollected(keys: seq<Word>, text: Word, matches: seq<Match>, i: nat, outputs: seq<nat>, k: nat)
    requires k <= |outputs|
  {
    forall m :: OccursEmpty(keys, text, m) ==>
      (m in matches <==>
       (m.end < i && EmptyShown(keys, text, m)) || (m.end == i && m.patternId in outputs[..k]))
  }

  lemma EmptiesCollectedNone(keys: seq<Word>, text: Word)
    ensures EmptiesCollected(keys, text, [], 1, [], 0)
  {
  }

  lemma EmptiesCollectedNext(keys: seq<Word>, text: Word, matches: seq<Match>, i: nat, outputs: seq<nat>)
    requires EmptiesCollected(keys, text, matches, i, [], 0)
    ensures EmptiesCollected(keys, text, matches, i, outputs, 0)
  {
  }

  lemma EmptiesCollectedOne(keys: seq<Word>, text: Word, matches: seq<Match>, i: nat, outputs: seq<nat>, k: nat,
                            m: Match)
    requires k < |outputs| && EmptiesCollected(keys, text, matches, i, outputs, k)
    requires Occurs(keys, text, m) || OccursEmpty(keys, text, m)
    requires m.end == i && m.patternId == outputs[k]
    ensures EmptiesCollected(keys, text, matches + [m], i, outputs, k + 1)
  {
    assert outputs[..k + 1] == outputs[..k] + [outputs[k]];
    forall n | OccursEmpty(keys, text, n) && n.end == i && n.patternId == m.patternId ensures n == m {}
  }

  lemma EmptiesCollectedAll(keys: seq<Word>, text: Word, matches: seq<Match>, i: nat, outputs: seq<nat>)
    requires 0 < i <= |text| && EmptiesCollected(keys, text, matches, i, outputs, |outputs|)
    requires forall id: nat :: IsEmptyKey(keys, id) ==> (id in outputs <==> !Begins(keys, text[i - 1]))
    ensures EmptiesCollected(keys, text, matches, i + 1, [], 0)
  {
    assert outputs[..|outputs|] == outputs;
  }

  /** All empty matches there should be, and no others. */
  ghost predicate EmptiesFound(keys: seq<Word>, text: Word, matches: seq<Match>) {
    forall m :: OccursEmpty(keys, text, m) ==> (m in matches <==> EmptyShown(keys, text, m))
  }

  lemma EmptiesCollectedEnd(keys: seq<Word>, text: Word, matches: seq<Match>)
    requires EmptiesCollected(keys, text, matches, |text| + 1, [], 0)
    ensures EmptiesFound(keys, text, matches)
  {
  }

  // ---------------------------------------------------------------------------
  // Both kinds of matches together
  // ---------------------------------------------------------------------------

  /** What the scan has after i characters and the first k outputs there; of the empty
      matches something is known if the automaton was built once. */
  ghost predicate Gathered(once: bool, keys: seq<Word>, text: Word, matches: seq<Match>, i: nat, outputs: seq<nat>,
                           k: nat)
    requires k <= |outputs|
  {
    && Collected(keys, text, matches, i, outputs, k)
    && (once ==> EmptiesCollected(keys, text, matches, i, outputs, k))
  }

  lemma GatheredNone(once: bool, keys: seq<Word>, text: Word)
    ensures Gathered(once, keys, text, [], 1, [], 0)
  {
    CollectedNone(keys, text);
    EmptiesCollectedNone(keys, text);
  }

  lemma GatheredNext(once: bool, keys: seq<Word>, text: Word, matches: seq<Match>, i: nat, outputs: seq<nat>)
    requires Gathered(once, keys, text, matches, i, [], 0)
    ensures Gathered(once, keys, text, matches, i, outputs, 0)
  {
    hide Collected, EmptiesCollected;
    CollectedNext(keys, text, matches, i, outputs);
    if once { EmptiesCollectedNext(keys, text, matches, i, outputs); }
  }

  /** The outputs at i are the patterns that end there, and all or none of the empty ones. */
  ghost predicate OutputsAt(once: bool, keys: seq<Word>, text: Word, i: nat, outputs: seq<nat>)
    requires 0 < i <= |text|
  {
    && (forall id: nat :: id in outputs ==> id < |keys|)
    && (forall id: nat :: !IsEmptyKey(keys, id) ==>
          (id in outputs <==> id < |keys| && |keys[id]| <= i && Occurs(keys, text, Match(i - |keys[id]|, i, id))))
    && (once ==> forall id: nat :: IsEmptyKey(keys, id) ==> (id in outputs <==> !Begins(keys, text[i - 1])))
  }

  /** m is an occurrence of a pattern, or of an empty one, where it should show. */
  ghost predicate IsMatch(once: bool, keys: seq<Word>, text: Word, m: Match) {
    Occurs(keys, text, m) || (OccursEmpty(keys, text, m) && (once ==> EmptyShown(keys, text, m)))
  }

  lemma OutputIsMatch(once: bool, keys: seq<Word>, text: Word, i: nat, outputs: seq<nat>, id: nat)
    requires 0 < i <= |text| && OutputsAt(once, keys, text, i, outputs) && id in outputs
    ensures id < |keys| && |keys[id]| <= i && IsMatch(once, keys, text, Match(i - |keys[id]|, i, id))
  {
  }

  lemma GatheredOne(once: bool, keys: seq<Word>, text: Word, matches: seq<Match>, i: nat, outputs: seq<nat>, k: nat,
                    m: Match)
    requires k < |outputs| && Gathered(once, keys, text, matches, i, outputs, k)
    requires IsMatch(once, keys, text, m) && m.end == i && m.patternId == outputs[k]
    ensures Gathered(once, keys, text, matches + [m], i, outputs, k + 1)
  {
    hide Collected, EmptiesCollected, Occurs, OccursEmpty;
    CollectedOne(keys, text, matches, i, outputs, k, m);
    if once { EmptiesCollectedOne(keys, text, matches, i, outputs, k, m); }
  }

  lemma GatheredAll(once: bool, keys: seq<Word>, text: Word, matches: seq<Match>, i: nat, outputs: seq<nat>)
    requires 0 < i <= |text| && OutputsAt(once, keys, text, i, outputs)
    requires Gathered(once, keys, text, matches, i, outputs, |outputs|)
    ensures Gathered(once, keys, text, matches, i + 1, [], 0)
  {
    hide Collected, EmptiesCollected, Occurs, OccursEmpty;
    CollectedAll(keys, text, matches, i, outputs);
    if once { EmptiesCollectedAll(keys, text, matches, i, outputs); }
  }

  /** All matches, and of the empty ones those that should show. */
  ghost predicate Found(once: bool, keys: seq<Word>, text: Word, matches: seq<Match>) {
    AreMatches(keys, text, matches) && (once ==> EmptiesFound(keys, text, matches))
  }

  lemma GatheredEnd(once: bool, keys: seq<Word>, text: Word, matches: seq<Match>)
    requires Gathered(once, keys, text, matches, |text| + 1, [], 0)
    ensures Found(once, keys, text, matches)
  {
    hide Collected, EmptiesCollected, AreMatches, EmptiesFound;
    CollectedEnd(keys, text, matches);
    if once { EmptiesCollectedEnd(keys, text, matches); }
  }

  /** A match, if there is any. */
  ghost predicate FoundOne(once: bool, keys: seq<Word>, text: Word, matches: seq<Match>) {
    && |matches| <= 1
    && (forall m :: m in matches ==> IsMatch(once, keys, text, m))
    && (matches == [] ==> Found(once, keys, text, []))
  }

  lemma JustOne(once: bool, keys: seq<Word>, text: Word, m: Match)
    requires IsMatch(once, keys, text, m)
    ensures FoundOne(once, keys, text, [m])
  {
  }

  /** One more output of the node reached. */
  lemma OutputGathered(once: bool, keys: seq<Word>, text: Word, matches: seq<Match>, i: nat, outputs: seq<nat>, k: nat)
    requires 0 < i <= |text| && OutputsAt(once, keys, text, i, outputs)
    requires k < |outputs| && Gathered(once, keys, text, matches, i, outputs, k)
    ensures outputs[k] < |keys| && |keys[outputs[k]]| <= i
    ensures var m := Match(i - |keys[outputs[k]]|, i, outputs[k]);
            && Gathered(once, keys, text, matches + [m], i, outputs, k + 1)
            && (matches == [] ==> FoundOne(once, keys, text, matches + [m]))
  {
    hide *;
    assert outputs[k] in outputs;
    OutputIsMatch(once, keys, text, i, outputs, outputs[k]);
    var m := Match(i - |keys[outputs[k]]|, i, outputs[k]);
    GatheredOne(once, keys, text, matches, i, outputs, k, m);
    JustOne(once, keys, text, m);
    if matches == [] { assert matches + [m] == [m]; }
  }

  lemma NotOne(once: bool, keys: seq<Word>, text: Word)
    requires Found(once, keys, text, [])
    ensures FoundOne(once, keys, text, [])
  {
  }

  ghost predicate OnceRight(once: bool, nodes: seq<Node>, spell: seq<Word>, index: map<Word, nat>, keys: seq<Word>) {
    once ==> |nodes| == |spell| && EmptiesRight(nodes, spell, index.Keys, keys)
  }

  lemma OnceMeans(once: bool, nodes: seq<Node>, spell: seq<Word>, index: map<Word, nat>, keys: seq<Word>)
    requires OnceRight(once, nodes, spell, index, keys) && once
    ensures |nodes| == |spell| && EmptiesRight(nodes, spell, index.Keys, keys)
  {
  }

  lemma ReachedOutputs(once: bool, nodes: seq<Node>, spell: seq<Word>, index: map<Word, nat>, keys: seq<Word>,
                       text: Word, i: nat, at: nat)
    requires BuiltState(nodes, spell, index, keys)
    requires OnceRight(once, nodes, spell, index, keys)
    requires i < |text| && at < |nodes| == |spell| && [] in index
    requires spell[at] == LongestSuffix(index.Keys, text[..i + 1])
    ensures OutputsAt(once, keys, text, i + 1, nodes[at].outputs)
  {
    hide *;
    BuiltFacts(nodes, spell, index, keys);
    LongestIs(index.Keys, text[..i + 1]);
    OutputsAreMatches(nodes, spell, index, keys, text, i + 1, at);
    if once {
      OnceMeans(once, nodes, spell, index, keys);
      ReachedShows(nodes, spell, index, keys, text, i, at);
    }
    OutputsAtIs(once, keys, text, i + 1, nodes[at].outputs);
  }

  /** What the scan uses of a built automaton. */
  lemma ScanFacts(nodes: seq<Node>, spell: seq<Word>, index: map<Word, nat>, keys: seq<Word>)
    requires BuiltState(nodes, spell, index, keys)
    ensures IsTrie(nodes, spell, index) && PrefixClosed(index.Keys) && |nodes| == |spell| > 0 && spell[0] == []
    ensures [] in index && forall d: nat :: FailsTo(nodes, spell, index, d)
  {
    hide *;
    BuiltFacts(nodes, spell, index, keys);
  }

  lemma OutputsAtIs(once: bool, keys: seq<Word>, text: Word, i: nat, outputs: seq<nat>)
    requires 0 < i <= |text| && forall id: nat :: id in outputs ==> id < |keys|
    requires forall id: nat :: !IsEmptyKey(keys, id) ==>
               (id in outputs <==> id < |keys| && |keys[id]| <= i && Occurs(keys, text, Match(i - |keys[id]|, i, id)))
    requires once ==> forall id: nat :: IsEmptyKey(keys, id) ==> (id in outputs <==> !Begins(keys, text[i - 1]))
    ensures OutputsAt(once, keys, text, i, outputs)
  {
  }

  // ---------------------------------------------------------------------------
  // The result of a search
  // ---------------------------------------------------------------------------

  /** The spans that are not empty are the leftmost-longest tokens, in order, with matches of
      empty patterns in between: those that no token covers. */
  ghost predicate Searched(once: bool, keys: seq<Word>, text: Word, result: seq<Match>) {
    && Filled(Spans(result)) == Tokenise(keys, text, 0) && Ordered(Spans(result), 0, |text|)
    && (forall m :: m in result ==> IsMatch(once, keys, text, m))
    && (once ==> forall m :: OccursEmpty(keys, text, m) ==>
          (m in result <==> EmptyShown(keys, text, m) && !Inside(Tokenise(keys, text, 0), m.end)))
  }

  lemma SearchedNone(once: bool, keys: seq<Word>, text: Word)
    requires Found(once, keys, text, [])
    ensures Searched(once, keys, text, [])
  {
    forall m ensures !Occurs(keys, text, m) { assert m !in []; }
    NoTokens(keys, text);
    hide Tokenise, Occurs;
  }

  lemma FoundForward(once: bool, keys: seq<Word>, text: Word, matches: seq<Match>)
    requires Found(once, keys, text, matches)
    ensures forall m :: m in matches ==> m.start <= m.end
  {
  }

  lemma FoundSorted(once: bool, keys: seq<Word>, text: Word, matches: seq<Match>, sorted: seq<Match>)
    requires Found(once, keys, text, matches)
    requires forall m :: m in sorted <==> m in matches
    ensures Found(once, keys, text, sorted) && forall m :: m in matches ==> m.start <= m.end
    ensures forall m :: m in sorted ==> m.start <= m.end
  {
  }

  lemma ChosenIsSearched(once: bool, keys: seq<Word>, text: Word, ms: seq<Match>, result: seq<Match>)
    requires Found(once, keys, text, ms) && Chosen(ms, |ms|, result)
    ensures Searched(once, keys, text, result)
  {
    ChosenIsTokenisation(keys, text, ms, result);
    ChosenFacts(ms, result);
    hide Chosen, Tokenise, Spans, Filled, Inside, Ordered, Occurs, OccursEmpty, EmptyShown;
    if once {
      forall m | OccursEmpty(keys, text, m)
        ensures m in result <==> EmptyShown(keys, text, m) && !Inside(Tokenise(keys, text, 0), m.end)
      {
        EmptyIsFlat(keys, text, m);
        if m in ms { ChosenEmpties(ms, result, m); }
      }
    }
  }

  lemma EmptyIsFlat(keys: seq<Word>, text: Word, m: Match)
    requires OccursEmpty(keys, text, m)
    ensures m.start == m.end
  {
  }

  /** Without empty patterns the spans are the tokens. */
  lemma SearchedFilled(once: bool, keys: seq<Word>, text: Word, result: seq<Match>)
    requires Searched(once, keys, text, result) && NoEmpty(keys)
    ensures Spans(result) == Tokenise(keys, text, 0)
  {
    forall s | s in Spans(result) ensures s.start < s.end {
      SpanOf(result, s);
    }
    FilledAll(Spans(result));
  }

  /** Deleting the spans found deletes the tokens. */
  lemma SearchedErases(once: bool, keys: seq<Word>, text: Word, original: Word, result: seq<Match>)
    requires Searched(once, keys, text, result) && |original| == |text|
    ensures Ordered(Spans(result), 0, |original|)
    ensures Erase(original, Spans(result), 0) == Strip(keys, text, original, 0)
  {
    hide Strip, Tokenise, Filled, Inside;
    EraseFilled(original, Spans(result), 0);
    EraseIsStrip(keys, text, original, 0);
  }
}
