/** The Aho-Corasick automaton of include/utilxx/aho_corasick.h: a trie of nodes that
    grows in place, failure links set breadth first, a one-pass scan, and the removal of
    the leftmost-longest matches. */
module AhoCorasickAutomaton {
  import opened Basics
  import opened Words
  import opened Sorting
  import opened Tokens
  import opened AhoTrie
  import opened AhoBuild
  import opened AhoScan
  import opened AhoEmpty
  import opened AhoCase

  class AhoCorasick {
    const ignoreCase: bool
    var nodes: seq<Node>
    var patterns: seq<Word>
    ghost var spell: seq<Word>
    ghost var index: map<Word, nat>

    constructor (ps: seq<Word>, ignoreCase: bool)
      ensures BuiltState(nodes, spell, index, FoldAll(ignoreCase, patterns))
      ensures EmptiesRight(nodes, spell, index.Keys, FoldAll(ignoreCase, patterns))
      ensures patterns == ps && this.ignoreCase == ignoreCase
    {
      this.ignoreCase := ignoreCase;
      nodes := [Node(map[], 0, [])];
      patterns := [];
      spell := [[]];
      index := map[[] := 0];
      new;
      hide *;
      RootIsValid(ignoreCase);
      OnlyRoot(nodes, FoldAll(ignoreCase, patterns));
      TakeAll(ps);
      for k := 0 to |ps|
        invariant ValidState(nodes, spell, index, FoldAll(ignoreCase, patterns))
        invariant EmptiesAtRoot(nodes, FoldAll(ignoreCase, patterns))
        invariant patterns == ps[..k] && this.ignoreCase == ignoreCase
      {
        TakeOneMore(ps, k);
        AddPattern(ps[k]);
      }
      Build();
    }

    /** The child of current for ch, created when missing. */
    method ChildFor(current: nat, ch: Code) returns (child: nat)
      requires IsTrie(nodes, spell, index) && current < |nodes|
      modifies this`nodes, this`spell, this`index
      ensures IsTrie(nodes, spell, index)
      ensures child < |nodes| && spell[child] == old(spell)[current] + [ch]
      ensures index.Keys == old(index).Keys + {old(spell)[current] + [ch]}
      ensures old(spell) <= spell
      ensures OutputsKept(old(nodes), nodes)
    {
      if ch !in nodes[current].children {
        child := |nodes|;
        ghost var w := spell[current] + [ch];
        nodes := nodes[current := nodes[current].(children := nodes[current].children[ch := child])];
        nodes := nodes + [Node(map[], 0, [])];
        spell := spell + [w];
        index := index[w := child];
        NewLeafKeepsTrie(old(nodes), old(spell), old(index), current, ch, nodes, spell, index);
      } else {
        child := nodes[current].children[ch];
        assert index.Keys == old(index).Keys + {old(spell)[current] + [ch]};
      }
    }

    /** Walks down from the root along the folded pattern, creating what is missing. */
    method Insert(pattern: Word) returns (current: nat)
      requires IsTrie(nodes, spell, index)
      modifies this`nodes, this`spell, this`index
      ensures IsTrie(nodes, spell, index)
      ensures current < |nodes| && spell[current] == Fold(ignoreCase, pattern)
      ensures old(spell) <= spell
      ensures Grown(old(index), index, Fold(ignoreCase, pattern))
      ensures OutputsKept(old(nodes), nodes)
    {
      ghost var key := Fold(ignoreCase, pattern);
      current := 0;
      assert current < |nodes| && spell[current] == key[..0] && |key| == |pattern|;
      assert OutputsKept(old(nodes), nodes);
      GrownNone(index);
      assert key[..0] == [];
      assert key[..|pattern|] == key;
      hide *;
      for k := 0 to |pattern|
        invariant IsTrie(nodes, spell, index)
        invariant current < |nodes| && spell[current] == key[..k]
        invariant old(spell) <= spell
        invariant Grown(old(index), index, key[..k])
        invariant OutputsKept(old(nodes), nodes)
      {
        var useChar := OnCharCode(ignoreCase, pattern[k]);
        FoldPrefix(ignoreCase, pattern, k);
        ghost var nodes1, index1 := nodes, index;
        current := ChildFor(current, useChar);
        OutputsKeptTrans(old(nodes), nodes1, nodes);
        GrownMore(old(index), index1, index, key[..k], useChar);
      }
    }

    /** Adds a pattern, on a fresh automaton or on one that was already built. */
    method AddPattern(pattern: Word)
      requires ValidState(nodes, spell, index, FoldAll(ignoreCase, patterns))
      modifies this
      ensures ValidState(nodes, spell, index, FoldAll(ignoreCase, patterns))
      ensures old(EmptiesAtRoot(nodes, FoldAll(ignoreCase, patterns))) ==>
                EmptiesAtRoot(nodes, FoldAll(ignoreCase, patterns))
      ensures patterns == old(patterns) + [pattern]
    {
      hide *;
      ghost var keys, key := FoldAll(ignoreCase, patterns), Fold(ignoreCase, pattern);
      FoldAllMore(ignoreCase, patterns, pattern);
      ValidFacts(nodes, spell, index, keys);
      patterns := patterns + [pattern];
      var current := Insert(pattern);
      ghost var inserted := nodes;
      nodes := nodes[current := nodes[current].(outputs := nodes[current].outputs + [|patterns| - 1])];
      TrieFacts(inserted, spell, index);
      if EmptiesAtRoot(old(nodes), keys) {
        KeyAddedAtRoot(old(nodes), inserted, nodes, old(spell), spell, old(index), index, keys, key, current);
      }
      KeyAdded(old(nodes), inserted, nodes, old(spell), spell, old(index), index, keys, key, current);
    }

    /** Follows failure links from node `from` until one has a child for c or the root is
        reached; the answer is that child, or the root. */
    method Follow(from: nat, c: Code) returns (next: nat)
      requires IsTrie(nodes, spell, index) && from < |nodes|
      requires FailsTo(nodes, spell, index, |spell[from]|)
      ensures next < |nodes| && spell[next] == Step(index.Keys, spell[from], c)
    {
      hide *;
      TrieFacts(nodes, spell, index);
      var at: nat := from;
      while at != 0 && c !in nodes[at].children
        invariant at < |nodes| && |spell[at]| <= |spell[from]|
        invariant Step(index.Keys, spell[at], c) == Step(index.Keys, spell[from], c)
        decreases |spell[at]|
      {
        FollowOne(nodes, spell, index, |spell[from]|, at, c);
        at := nodes[at].fail;
      }
      FollowLast(nodes, spell, index, at, c);
      next := if c in nodes[at].children then nodes[at].children[c] else 0;
    }

    /** Sets the failure link of the child of curr for c, and merges outputs along it. */
    method LinkChild(curr: nat, c: Code, ghost keys: seq<Word>, ghost done: set<nat>, ghost exp: set<nat>,
                     ghost q: seq<nat>, ghost rest: set<Code>) returns (child: nat)
      requires Building(nodes, spell, index, keys, done, exp, q, curr, rest) && c in rest && curr != 0
      requires curr < |nodes| && c in nodes[curr].children
      modifies this`nodes
      ensures |nodes| == |old(nodes)| == |spell| && child == old(nodes)[curr].children[c]
      ensures nodes[curr].children == old(nodes)[curr].children
      ensures Building(nodes, spell, index, keys, done + {child}, exp, q + [child], curr, rest - {c})
      ensures |old(nodes)| == |spell| && EmptiesSoFar(old(nodes), spell, index.Keys, keys, done) ==>
                EmptiesSoFar(nodes, spell, index.Keys, keys, done + {child})
    {
      hide *;
      ChildIsNew(nodes, spell, index, keys, done, exp, q, curr, rest, c);
      BuildingFacts(nodes, spell, index, keys, done, exp, q, curr, rest);
      BuildingLink(nodes, spell, index, keys, done, exp, q, curr, rest);
      child := nodes[curr].children[c];
      var fail := Follow(nodes[curr].fail, c);
      ChildFails(nodes, spell, index, curr, c, child, fail);
      ghost var before := nodes;
      nodes := nodes[child := nodes[child].(fail := fail, outputs := nodes[child].outputs + nodes[fail].outputs)];
      ChildFinished(before, nodes, spell, index, keys, done, exp, q, curr, rest, c, child, fail);
      ShowsInherited(index.Keys, spell[curr], c);
      if EmptiesSoFar(before, spell, index.Keys, keys, done) {
        ChildShows(before, nodes, spell, index.Keys, keys, done, child, fail);
      }
    }

    /** Sets the failure links breadth first and merges outputs along them. The automaton
        may be fresh, or built before and extended since. */
    method Build()
      requires ValidState(nodes, spell, index, FoldAll(ignoreCase, patterns))
      modifies this`nodes
      ensures BuiltState(nodes, spell, index, FoldAll(ignoreCase, patterns))
      ensures |nodes| == |old(nodes)|
      ensures old(EmptiesAtRoot(nodes, FoldAll(ignoreCase, patterns))) ==>
                |nodes| == |spell| && EmptiesRight(nodes, spell, index.Keys, FoldAll(ignoreCase, patterns))
    {
      hide *;
      ghost var keys := FoldAll(ignoreCase, patterns);
      ghost var unbuilt := EmptiesAtRoot(nodes, keys);
      ValidFacts(nodes, spell, index, keys);
      TrieFacts(nodes, spell, index);
      nodes := nodes[0 := nodes[0].(fail := 0)];
      BuildingStart(old(nodes), nodes, spell, index, keys);
      if unbuilt { EmptiesStart(old(nodes), nodes, spell, index, keys); }
      var q: seq<nat> := [];
      var rest := nodes[0].children.Keys;
      ghost var done, exp, last := {0}, {}, 0;
      while rest != {}
        invariant |nodes| == |old(nodes)| == |spell|
        invariant Building(nodes, spell, index, keys, done, exp, q, 0, rest)
        invariant unbuilt ==> EmptiesSoFar(nodes, spell, index.Keys, keys, done)
        decreases rest
      {
        BuildingFacts(nodes, spell, index, keys, done, exp, q, 0, rest);
        var c := NextKey(rest);
        var child := nodes[0].children[c];
        ghost var before := nodes;
        nodes := nodes[child := nodes[child].(fail := 0)];
        ChildIsNew(before, spell, index, keys, done, exp, q, 0, rest, c);
        RootChildFinished(before, nodes, spell, index, keys, done, exp, q, rest, c, child);
        if unbuilt { RootChildShows(before, nodes, spell, index.Keys, keys, done, child, c); }
        q, rest := q + [child], rest - {c};
        done := done + {child};
      }
      while q != []
        invariant |nodes| == |old(nodes)| == |spell|
        invariant Building(nodes, spell, index, keys, done, exp, q, last, {})
        invariant unbuilt ==> EmptiesSoFar(nodes, spell, index.Keys, keys, done)
        decreases NotIn(|nodes|, exp)
      {
        BuildingFacts(nodes, spell, index, keys, done, exp, q, last, {});
        BuildingNext(nodes, spell, index, keys, done, exp, q, last);
        NotInShrinks(|nodes|, exp, last);
        var curr := q[0];
        q := q[1..];
        exp, last := exp + {last}, curr;
        rest := nodes[curr].children.Keys;
        while rest != {}
          invariant |nodes| == |old(nodes)| == |spell|
          invariant Building(nodes, spell, index, keys, done, exp, q, curr, rest)
          invariant unbuilt ==> EmptiesSoFar(nodes, spell, index.Keys, keys, done)
          decreases rest
        {
          BuildingFacts(nodes, spell, index, keys, done, exp, q, curr, rest);
          var c := NextKey(rest);
          var child := LinkChild(curr, c, keys, done, exp, q, rest);
          q, rest := q + [child], rest - {c};
          done := done + {child};
        }
      }
      if unbuilt { EmptiesEnd(nodes, spell, index, keys, done, exp, last); }
      BuildingEnd(nodes, spell, index, keys, done, exp, last);
    }

    /** The empty patterns are where the first call of Build leaves them. */
    ghost predicate BuiltOnce()
      reads this
    {
      |nodes| == |spell| && EmptiesRight(nodes, spell, index.Keys, FoldAll(ignoreCase, patterns))
    }

    lemma OnceIs()
      ensures OnceRight(BuiltOnce(), nodes, spell, index, FoldAll(ignoreCase, patterns))
    {
    }

    /** Collects the places of the patterns in one pass over the text, up to case when that is
        ignored; with onlyContains it stops at the first one. */
    method Scan(text: Word, onlyContains: bool) returns (matches: seq<Match>)
      requires BuiltState(nodes, spell, index, FoldAll(ignoreCase, patterns))
      ensures var keys, folded := FoldAll(ignoreCase, patterns), Fold(ignoreCase, text);
              if onlyContains
              then FoundOne(BuiltOnce(), keys, folded, matches)
              else Found(BuiltOnce(), keys, folded, matches)
      ensures if onlyContains
              then OnePlace(BuiltOnce(), ignoreCase, patterns, text, matches)
              else AllPlaces(BuiltOnce(), ignoreCase, patterns, text, matches)
    {
      hide *;
      ghost var once, keys, folded := BuiltOnce(), FoldAll(ignoreCase, patterns), Fold(ignoreCase, text);
      OnceIs();
      ScanFacts(nodes, spell, index, keys);
      FoldFacts(ignoreCase, text, patterns);
      ReadNone(index.Keys, folded);
      GatheredNone(once, keys, folded);
      matches := [];
      var current: nat := 0;
      for i := 0 to |text|
        invariant current < |nodes| && spell[current] == LongestSuffix(index.Keys, folded[..i])
        invariant Gathered(once, keys, folded, matches, i + 1, [], 0)
        invariant onlyContains ==> matches == []
      {
        var useChar := OnCharCode(ignoreCase, text[i]);
        ReadOne(index.Keys, folded, i);
        current := Follow(current, useChar);
        ReachedOutputs(once, nodes, spell, index, keys, folded, i, current);
        var outputs := nodes[current].outputs;
        GatheredNext(once, keys, folded, matches, i + 1, outputs);
        for k := 0 to |outputs|
          invariant Gathered(once, keys, folded, matches, i + 1, outputs, k)
          invariant onlyContains ==> matches == []
        {
          var patternId := outputs[k];
          OutputGathered(once, keys, folded, matches, i + 1, outputs, k);
          if i + 1 >= |patterns[patternId]| {
            var start := i + 1 - |patterns[patternId]|;
            var m := Match(start, i + 1, patternId);
            matches := matches + [m];
            if onlyContains {
              OneFoundPlace(once, ignoreCase, patterns, text, matches);
              return;
            }
          }
        }
        GatheredAll(once, keys, folded, matches, i + 1, outputs);
      }
      GatheredEnd(once, keys, folded, matches);
      if onlyContains {
        NotOne(once, keys, folded);
        OneFoundPlace(once, ignoreCase, patterns, text, matches);
      } else {
        FoundPlaces(once, ignoreCase, patterns, text, matches);
      }
    }

    /** The leftmost-longest matches of the patterns in the text, and between them those of
        empty patterns. */
    method Search(text: Word, onlyContains: bool) returns (result: seq<Match>)
      requires BuiltState(nodes, spell, index, FoldAll(ignoreCase, patterns))
      ensures var keys, folded := FoldAll(ignoreCase, patterns), Fold(ignoreCase, text);
              if onlyContains
              then FoundOne(BuiltOnce(), keys, folded, result)
              else Searched(BuiltOnce(), keys, folded, result)
      ensures if onlyContains
              then OnePlace(BuiltOnce(), ignoreCase, patterns, text, result)
              else TokensAndEmpties(BuiltOnce(), ignoreCase, patterns, text, result)
    {
      hide *;
      ghost var once, keys, folded := BuiltOnce(), FoldAll(ignoreCase, patterns), Fold(ignoreCase, text);
      var matches := Scan(text, onlyContains);
      if onlyContains || matches == [] {
        if !onlyContains {
          SearchedNone(once, keys, folded);
          SearchedTokens(once, ignoreCase, patterns, text, []);
        }
        return matches;
      }
      FoundForward(once, keys, folded, matches);
      BeforeOrders();
      var sorted := Sort(matches, Before);
      SameMembers(sorted, matches);
      FoundSorted(once, keys, folded, matches, sorted);
      result := Pick(sorted);
      ChosenIsSearched(once, keys, folded, sorted, result);
      SearchedTokens(once, ignoreCase, patterns, text, result);
    }

    method Contains(text: Word) returns (found: bool)
      requires BuiltState(nodes, spell, index, FoldAll(ignoreCase, patterns))
      ensures (exists m :: StandsAt(ignoreCase, patterns, text, m)) ==> found
      ensures found ==> exists m :: Stands(false, ignoreCase, patterns, text, m)
      ensures BuiltOnce() ==> (found <==> exists m :: Stands(true, ignoreCase, patterns, text, m))
    {
      hide *;
      var matches := Search(text, true);
      found := matches != [];
      OneMeans(BuiltOnce(), ignoreCase, patterns, text, matches);
    }

    /** The text without the leftmost-longest matches; what is kept keeps its case. */
    method RemoveAll(text: Word) returns (result: Word)
      requires BuiltState(nodes, spell, index, FoldAll(ignoreCase, patterns))
      ensures WithoutTokens(ignoreCase, patterns, text, result)
    {
      hide *;
      ghost var keys, folded := FoldAll(ignoreCase, patterns), Fold(ignoreCase, text);
      FoldFacts(ignoreCase, text, patterns);
      var matches := Search(text, false);
      ghost var spans := Spans(matches);
      SearchedErases(BuiltOnce(), keys, folded, text, matches);
      StrippedTokens(ignoreCase, patterns, text);
      if matches == [] {
        EraseEnd(text, 0);
        assert spans == [];
        return text;
      }
      var at: nat := 0;
      result := [];
      assert spans[0..] == spans;
      for k := 0 to |matches|
        invariant at <= |text| && Ordered(spans[k..], at, |text|)
        invariant result + Erase(text, spans[k..], at) == Erase(text, spans, 0)
      {
        EraseOne(text, spans, k, at, result);
        if matches[k].start > at {
          result := result + text[at..matches[k].start];
        }
        if matches[k].end > at {
          at := matches[k].end;
        }
      }
      EraseEnd(text, at);
      assert spans[|matches|..] == [];
      if at < |text| {
        result := result + text[at..];
      }
      assert result == Erase(text, spans, 0);
    }
  }
}
