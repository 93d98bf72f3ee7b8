/** What the search of include/utilxx/aho_corasick.h finds in the text as it stands, and not
    in the folded one: patterns up to the case of the letters A to Z. */
module AhoCase {
  import opened Basics
  import opened Words
  import opened Tokens
  import opened AhoTrie
  import opened AhoEmpty

  /** The same code, or, when case is ignored, a letter and its other case. */
  predicate SameCode(ignoreCase: bool, a: Code, b: Code) {
    a == b || (ignoreCase && ((65 <= a <= 90 && b == a + 32) || (65 <= b <= 90 && a == b + 32)))
  }

  ghost predicate SameWord(ignoreCase: bool, v: Word, w: Word) {
    |v| == |w| && forall i :: 0 <= i < |v| ==> SameCode(ignoreCase, v[i], w[i])
  }

  /** Here the text is the pattern with the number of m, which is not empty. */
  ghost predicate StandsAt(ignoreCase: bool, patterns: seq<Word>, text: Word, m: Match) {
    && m.patternId < |patterns| && m.start < m.end <= |text|
    && SameWord(ignoreCase, text[m.start..m.end], patterns[m.patternId])
  }

  ghost predicate SomeStands(ignoreCase: bool, patterns: seq<Word>, text: Word, start: nat, end: nat) {
    exists id: nat :: StandsAt(ignoreCase, patterns, text, Match(start, end, id))
  }

  /** Some pattern begins with this code. */
  ghost predicate Opens(ignoreCase: bool, patterns: seq<Word>, c: Code) {
    exists id :: 0 <= id < |patterns| && patterns[id] != [] && SameCode(ignoreCase, patterns[id][0], c)
  }

  /** The number of an empty pattern, behind a character of the text. */
  ghost predicate EmptyAt(patterns: seq<Word>, text: Word, m: Match) {
    m.patternId < |patterns| && patterns[m.patternId] == [] && 0 < m.start == m.end <= |text|
  }

  /** The leftmost-longest tokens: disjoint, in order, each a pattern and the longest one that
      stands where it starts, and no pattern starts outside of them. */
  ghost predicate AreTokens(ignoreCase: bool, patterns: seq<Word>, text: Word, spans: seq<Span>) {
    && Ordered(spans, 0, |text|)
    && (forall k :: 0 <= k < |spans| ==> SomeStands(ignoreCase, patterns, text, spans[k].start, spans[k].end))
    && (forall k, e: nat :: 0 <= k < |spans| && SomeStands(ignoreCase, patterns, text, spans[k].start, e) ==>
          e <= spans[k].end)
    && (forall s: nat, e: nat :: SomeStands(ignoreCase, patterns, text, s, e) ==> Inside(spans, s))
  }

  // ---------------------------------------------------------------------------
  // Folding
  // ---------------------------------------------------------------------------

  lemma CodesFold(ignoreCase: bool, a: Code, b: Code)
    ensures OnCharCode(ignoreCase, a) == OnCharCode(ignoreCase, b) <==> SameCode(ignoreCase, a, b)
  {
  }

  lemma WordsFold(ignoreCase: bool, v: Word, w: Word)
    ensures Fold(ignoreCase, v) == Fold(ignoreCase, w) <==> SameWord(ignoreCase, v, w)
  {
    hide OnCharCode, SameCode;
    forall i | 0 <= i < |v| && i < |w|
      ensures OnCharCode(ignoreCase, v[i]) == OnCharCode(ignoreCase, w[i]) <==> SameCode(ignoreCase, v[i], w[i])
    {
      CodesFold(ignoreCase, v[i], w[i]);
    }
    if Fold(ignoreCase, v) == Fold(ignoreCase, w) {
      forall i | 0 <= i < |v| ensures OnCharCode(ignoreCase, v[i]) == OnCharCode(ignoreCase, w[i]) {
        assert Fold(ignoreCase, v)[i] == Fold(ignoreCase, w)[i];
      }
    }
  }

  lemma SliceFolds(ignoreCase: bool, text: Word, a: nat, b: nat)
    requires a <= b <= |text|
    ensures |Fold(ignoreCase, text)| == |text|
    ensures Fold(ignoreCase, text)[a..b] == Fold(ignoreCase, text[a..b])
  {
  }

  /** Occurring in the folded text is standing in the text. */
  lemma OccursIsStanding(ignoreCase: bool, patterns: seq<Word>, text: Word, m: Match)
    ensures Occurs(FoldAll(ignoreCase, patterns), Fold(ignoreCase, text), m) <==>
            StandsAt(ignoreCase, patterns, text, m)
    ensures OccursEmpty(FoldAll(ignoreCase, patterns), Fold(ignoreCase, text), m) <==> EmptyAt(patterns, text, m)
  {
    FoldFacts(ignoreCase, text, patterns);
    if m.patternId < |patterns| && m.start < m.end <= |text| {
      SliceFolds(ignoreCase, text, m.start, m.end);
      WordsFold(ignoreCase, text[m.start..m.end], patterns[m.patternId]);
    }
  }

  /** Without ignoreCase that is the pattern itself. */
  lemma StandsExactly(patterns: seq<Word>, text: Word, m: Match)
    ensures StandsAt(false, patterns, text, m) <==>
            m.patternId < |patterns| && m.start < m.end <= |text| && text[m.start..m.end] == patterns[m.patternId]
  {
    if m.patternId < |patterns| && m.start < m.end <= |text| && StandsAt(false, patterns, text, m) {
      var v, w := text[m.start..m.end], patterns[m.patternId];
      assert forall i :: 0 <= i < |v| ==> SameCode(false, v[i], w[i]);
      assert v == w;
    }
  }

  /** "abc" in "xABCx". */
  lemma OtherCase()
    ensures var patterns: seq<Word>, text: Word := [[97, 98, 99]], [120, 65, 66, 67, 120];
            StandsAt(true, patterns, text, Match(1, 4, 0)) && !StandsAt(false, patterns, text, Match(1, 4, 0))
  {
    var text: Word := [120, 65, 66, 67, 120];
    assert text[1..4] == [65, 66, 67];
    assert !SameCode(false, text[1..4][0], 97);
  }

  lemma BeginsIsOpening(ignoreCase: bool, patterns: seq<Word>, text: Word, i: nat)
    requires i < |text|
    ensures |Fold(ignoreCase, text)| == |text|
    ensures Begins(FoldAll(ignoreCase, patterns), Fold(ignoreCase, text)[i]) <==> Opens(ignoreCase, patterns, text[i])
  {
    var keys, c := FoldAll(ignoreCase, patterns), Fold(ignoreCase, text)[i];
    FoldFacts(ignoreCase, text, patterns);
    hide OnCharCode, SameCode;
    forall id | 0 <= id < |patterns| && patterns[id] != []
      ensures keys[id] != [] && (keys[id][0] == c <==> SameCode(ignoreCase, patterns[id][0], text[i]))
    {
      CodesFold(ignoreCase, patterns[id][0], text[i]);
    }
  }

  // ---------------------------------------------------------------------------
  // What the methods give
  // ---------------------------------------------------------------------------

  lemma SomeFold(ignoreCase: bool, patterns: seq<Word>, text: Word, start: nat, end: nat)
    ensures OccursAt(FoldAll(ignoreCase, patterns), Fold(ignoreCase, text), start, end) <==>
            SomeStands(ignoreCase, patterns, text, start, end)
  {
    hide Occurs, StandsAt;
    forall id: nat
      ensures Occurs(FoldAll(ignoreCase, patterns), Fold(ignoreCase, text), Match(start, end, id)) <==>
              StandsAt(ignoreCase, patterns, text, Match(start, end, id))
    {
      OccursIsStanding(ignoreCase, patterns, text, Match(start, end, id));
    }
  }

  lemma TokensFold(ignoreCase: bool, patterns: seq<Word>, text: Word, spans: seq<Span>)
    ensures Tokenisation(FoldAll(ignoreCase, patterns), Fold(ignoreCase, text), spans, 0) <==>
            AreTokens(ignoreCase, patterns, text, spans)
  {
    FoldFacts(ignoreCase, text, patterns);
    hide OccursAt, SomeStands, Ordered, Inside, Fold, FoldAll;
    forall start: nat, end: nat
      ensures OccursAt(FoldAll(ignoreCase, patterns), Fold(ignoreCase, text), start, end) <==>
              SomeStands(ignoreCase, patterns, text, start, end)
    {
      SomeFold(ignoreCase, patterns, text, start, end);
    }
  }

  /** Every text has these tokens. */
  lemma TokensThere(ignoreCase: bool, patterns: seq<Word>, text: Word)
    ensures AreTokens(ignoreCase, patterns, text, Tokenise(FoldAll(ignoreCase, patterns), Fold(ignoreCase, text), 0))
  {
    hide *;
    var keys, folded := FoldAll(ignoreCase, patterns), Fold(ignoreCase, text);
    TokeniseIsTokenisation(keys, folded, 0);
    TokensFold(ignoreCase, patterns, text, Tokenise(keys, folded, 0));
  }

  /** And no others. */
  lemma TokensAreUnique(ignoreCase: bool, patterns: seq<Word>, text: Word, a: seq<Span>, b: seq<Span>)
    requires AreTokens(ignoreCase, patterns, text, a) && AreTokens(ignoreCase, patterns, text, b)
    ensures a == b
  {
    hide *;
    var keys, folded := FoldAll(ignoreCase, patterns), Fold(ignoreCase, text);
    TokensFold(ignoreCase, patterns, text, a);
    TokensFold(ignoreCase, patterns, text, b);
    TokenisationUnique(keys, folded, a, 0);
    TokenisationUnique(keys, folded, b, 0);
  }

  /** A pattern stands here, or an empty one where it shows. */
  ghost predicate Stands(once: bool, ignoreCase: bool, patterns: seq<Word>, text: Word, m: Match) {
    || StandsAt(ignoreCase, patterns, text, m)
    || (EmptyAt(patterns, text, m) && (once ==> !Opens(ignoreCase, patterns, text[m.end - 1])))
  }

  lemma MatchStands(once: bool, ignoreCase: bool, patterns: seq<Word>, text: Word, m: Match)
    ensures IsMatch(once, FoldAll(ignoreCase, patterns), Fold(ignoreCase, text), m) <==>
            Stands(once, ignoreCase, patterns, text, m)
    ensures EmptyAt(patterns, text, m) ==>
              (EmptyShown(FoldAll(ignoreCase, patterns), Fold(ignoreCase, text), m) <==>
               !Opens(ignoreCase, patterns, text[m.end - 1]))
  {
    OccursIsStanding(ignoreCase, patterns, text, m);
    hide Occurs, StandsAt, Begins, Opens, Fold, FoldAll;
    if EmptyAt(patterns, text, m) { BeginsIsOpening(ignoreCase, patterns, text, m.end - 1); }
  }

  /** All matches: every place of every pattern, and of the empty ones those that show. */
  ghost predicate AllPlaces(once: bool, ignoreCase: bool, patterns: seq<Word>, text: Word, matches: seq<Match>) {
    && (forall m :: m in matches ==> Stands(once, ignoreCase, patterns, text, m))
    && (forall m :: StandsAt(ignoreCase, patterns, text, m) ==> m in matches)
    && (once ==> forall m :: EmptyAt(patterns, text, m) && !Opens(ignoreCase, patterns, text[m.end - 1]) ==>
          m in matches)
  }

  lemma FoundPlaces(once: bool, ignoreCase: bool, patterns: seq<Word>, text: Word, matches: seq<Match>)
    requires Found(once, FoldAll(ignoreCase, patterns), Fold(ignoreCase, text), matches)
    ensures AllPlaces(once, ignoreCase, patterns, text, matches)
  {
    var keys, folded := FoldAll(ignoreCase, patterns), Fold(ignoreCase, text);
    hide Occurs, OccursEmpty, EmptyShown, StandsAt, EmptyAt, Opens, Fold, FoldAll;
    forall m ensures Occurs(keys, folded, m) <==> StandsAt(ignoreCase, patterns, text, m)
      ensures OccursEmpty(keys, folded, m) <==> EmptyAt(patterns, text, m)
      ensures EmptyAt(patterns, text, m) ==>
                0 < m.end <= |text| && (EmptyShown(keys, folded, m) <==> !Opens(ignoreCase, patterns, text[m.end - 1]))
    {
      OccursIsStanding(ignoreCase, patterns, text, m);
      MatchStands(once, ignoreCase, patterns, text, m);
      EmptyInside(patterns, text, m);
    }
  }

  lemma EmptyInside(patterns: seq<Word>, text: Word, m: Match)
    ensures EmptyAt(patterns, text, m) ==> 0 < m.end <= |text|
  {
  }

  /** One match, if there is any. */
  ghost predicate OnePlace(once: bool, ignoreCase: bool, patterns: seq<Word>, text: Word, matches: seq<Match>) {
    && |matches| <= 1
    && (forall m :: m in matches ==> Stands(once, ignoreCase, patterns, text, m))
    && (matches == [] ==> AllPlaces(once, ignoreCase, patterns, text, []))
  }

  lemma OneFoundPlace(once: bool, ignoreCase: bool, patterns: seq<Word>, text: Word, matches: seq<Match>)
    requires FoundOne(once, FoldAll(ignoreCase, patterns), Fold(ignoreCase, text), matches)
    ensures OnePlace(once, ignoreCase, patterns, text, matches)
  {
    hide IsMatch, Stands, Found, AllPlaces, Fold, FoldAll;
    forall m | m in matches ensures Stands(once, ignoreCase, patterns, text, m) {
      MatchStands(once, ignoreCase, patterns, text, m);
    }
    if matches == [] { FoundPlaces(once, ignoreCase, patterns, text, []); }
  }

  lemma OneMeans(once: bool, ignoreCase: bool, patterns: seq<Word>, text: Word, matches: seq<Match>)
    requires OnePlace(once, ignoreCase, patterns, text, matches)
    ensures (exists m :: StandsAt(ignoreCase, patterns, text, m)) ==> matches != []
    ensures matches != [] ==> exists m :: Stands(false, ignoreCase, patterns, text, m)
    ensures once ==> (matches != [] <==> exists m :: Stands(true, ignoreCase, patterns, text, m))
  {
    hide StandsAt, EmptyAt, Opens;
    if matches != [] {
      assert Stands(once, ignoreCase, patterns, text, matches[0]);
      assert Stands(false, ignoreCase, patterns, text, matches[0]);
    }
    if once && matches == [] {
      forall m ensures !Stands(true, ignoreCase, patterns, text, m) {
        assert m !in [];
        EmptyInside(patterns, text, m);
      }
    }
  }

  /** In order, the leftmost-longest tokens, and between them the empty patterns that show and
      that no token covers; each match with a pattern that stands there. */
  ghost predicate TokensAndEmpties(once: bool, ignoreCase: bool, patterns: seq<Word>, text: Word, result: seq<Match>) {
    var tokens := Filled(Spans(result));
    && Ordered(Spans(result), 0, |text|) && AreTokens(ignoreCase, patterns, text, tokens)
    && (forall m :: m in result ==> Stands(once, ignoreCase, patterns, text, m))
    && (once ==> forall m :: EmptyAt(patterns, text, m) ==>
          (m in result <==> !Opens(ignoreCase, patterns, text[m.end - 1]) && !Inside(tokens, m.end)))
  }

  lemma SearchedTokens(once: bool, ignoreCase: bool, patterns: seq<Word>, text: Word, result: seq<Match>)
    requires Searched(once, FoldAll(ignoreCase, patterns), Fold(ignoreCase, text), result)
    ensures TokensAndEmpties(once, ignoreCase, patterns, text, result)
  {
    var keys, folded := FoldAll(ignoreCase, patterns), Fold(ignoreCase, text);
    FoldFacts(ignoreCase, text, patterns);
    TokensThere(ignoreCase, patterns, text);
    hide Fold, FoldAll, AreTokens, Stands, IsMatch, OccursEmpty, EmptyShown, EmptyAt, Opens, Tokenise, Ordered, Inside,
      Filled, Spans;
    forall m | m in result ensures Stands(once, ignoreCase, patterns, text, m) {
      MatchStands(once, ignoreCase, patterns, text, m);
    }
    forall m | EmptyAt(patterns, text, m)
      ensures 0 < m.end <= |text| && OccursEmpty(keys, folded, m)
      ensures EmptyShown(keys, folded, m) <==> !Opens(ignoreCase, patterns, text[m.end - 1])
    {
      OccursIsStanding(ignoreCase, patterns, text, m);
      MatchStands(once, ignoreCase, patterns, text, m);
      EmptyInside(patterns, text, m);
    }
  }

  /** What is left when the tokens are dropped: the characters that are in none, in order. */
  ghost predicate WithoutTokens(ignoreCase: bool, patterns: seq<Word>, text: Word, result: Word) {
    exists spans, kept :: AreTokens(ignoreCase, patterns, text, spans) && Leaves(text, spans, 0, kept, result)
  }

  lemma StrippedTokens(ignoreCase: bool, patterns: seq<Word>, text: Word)
    ensures |Fold(ignoreCase, text)| == |text|
    ensures WithoutTokens(ignoreCase, patterns, text,
                          Strip(FoldAll(ignoreCase, patterns), Fold(ignoreCase, text), text, 0))
  {
    FoldFacts(ignoreCase, text, patterns);
    TokensThere(ignoreCase, patterns, text);
    hide Fold, FoldAll, AreTokens, Strip, Tokenise, Erase, Leaves;
    var keys, folded := FoldAll(ignoreCase, patterns), Fold(ignoreCase, text);
    EraseIsStrip(keys, folded, text, 0);
    var kept := EraseLeaves(text, Tokenise(keys, folded, 0), 0);
  }
}
