/** Matches of several words in a text, and the reference the search is proved against:
    the leftmost-longest tokenisation, found by trying every position in turn. */
module Tokens {
  import opened Basics
  import opened Words
  import opened Sorting

  datatype Match = Match(start: nat, end: nat, patternId: nat)

  datatype Span = Span(start: nat, end: nat)

  /** m is an occurrence in text of the word with its number, which is not empty. */
  ghost predicate Occurs(keys: seq<Word>, text: Word, m: Match) {
    && m.patternId < |keys|
    && m.start + |keys[m.patternId]| == m.end <= |text|
    && text[m.start..m.end] == keys[m.patternId]
    && m.start < m.end
  }

  /** m is an empty word somewhere behind the first character. */
  ghost predicate OccursEmpty(keys: seq<Word>, text: Word, m: Match) {
    m.patternId < |keys| && keys[m.patternId] == [] && 0 < m.start == m.end <= |text|
  }

  ghost predicate OccursAt(keys: seq<Word>, text: Word, start: nat, end: nat) {
    exists id: nat :: Occurs(keys, text, Match(start, end, id))
  }

  ghost predicate NoEmpty(keys: seq<Word>) {
    forall id :: 0 <= id < |keys| ==> keys[id] != []
  }

  lemma OccursInside(keys: seq<Word>, text: Word, start: nat, end: nat)
    requires OccursAt(keys, text, start, end)
    ensures start < end <= |text|
  {
  }

  /** The end of the longest occurrence starting at s, or s itself when there is none. */
  ghost function LongestAt(keys: seq<Word>, text: Word, s: nat): (e: nat)
    requires s <= |text|
    ensures s <= e <= |text|
    ensures e > s ==> OccursAt(keys, text, s, e)
    ensures forall e': nat :: OccursAt(keys, text, s, e') ==> e' <= e
  {
    if keys == [] then s
    else
      var last := |keys| - 1;
      var init := keys[..last];
      var e0 := LongestAt(init, text, s);
      var e1 := s + |keys[last]|;
      MoreKeys(init, keys[last], keys, text, s);
      if s < e1 <= |text| && text[s..e1] == keys[last] && e0 < e1 then e1 else e0
  }

  lemma MoreKeys(init: seq<Word>, last: Word, keys: seq<Word>, text: Word, s: nat)
    requires keys == init + [last]
    ensures forall e: nat :: OccursAt(keys, text, s, e) <==>
              OccursAt(init, text, s, e) || (s < e == s + |last| <= |text| && text[s..e] == last)
  {
    forall e: nat
      ensures OccursAt(keys, text, s, e) <==>
                OccursAt(init, text, s, e) || (s < e == s + |last| <= |text| && text[s..e] == last)
    {
      if id: nat :| Occurs(keys, text, Match(s, e, id)) && id < |init| {
        assert Occurs(init, text, Match(s, e, id));
      }
      if id: nat :| Occurs(init, text, Match(s, e, id)) {
        assert Occurs(keys, text, Match(s, e, id));
      }
      if s < e == s + |last| <= |text| && text[s..e] == last {
        assert Occurs(keys, text, Match(s, e, |init|));
      }
    }
  }

  /** Try every position: take the longest word there and go on behind it, or step on. */
  ghost function Tokenise(keys: seq<Word>, text: Word, from: nat): seq<Span>
    requires from <= |text|
    decreases |text| - from
  {
    if from == |text| then []
    else
      var e := LongestAt(keys, text, from);
      if e > from then [Span(from, e)] + Tokenise(keys, text, e)
      else Tokenise(keys, text, from + 1)
  }

  /** What is left of original when the tokens of the folded text are dropped. */
  ghost function Strip(keys: seq<Word>, text: Word, original: Word, from: nat): Word
    requires from <= |text| == |original|
    decreases |text| - from
  {
    if from == |text| then []
    else
      var e := LongestAt(keys, text, from);
      if e > from then Strip(keys, text, original, e)
      else [original[from]] + Strip(keys, text, original, from + 1)
  }

  ghost predicate Inside(spans: seq<Span>, p: nat) {
    exists k :: 0 <= k < |spans| && spans[k].start <= p < spans[k].end
  }

  ghost predicate Ordered(spans: seq<Span>, from: nat, to: nat) {
    && (forall k :: 0 <= k < |spans| ==> from <= spans[k].start <= spans[k].end <= to)
    && (forall k, l :: 0 <= k < l < |spans| ==> spans[k].end <= spans[l].start)
  }

  /** The leftmost-longest tokenisation from a position on, told by what it is rather
      than how it is found: disjoint occurrences in order, each the longest where it
      starts, and no occurrence starts outside of them. */
  ghost predicate Tokenisation(keys: seq<Word>, text: Word, spans: seq<Span>, from: nat) {
    && Ordered(spans, from, |text|)
    && (forall k :: 0 <= k < |spans| ==> OccursAt(keys, text, spans[k].start, spans[k].end))
    && (forall k, e: nat :: 0 <= k < |spans| && OccursAt(keys, text, spans[k].start, e) ==> e <= spans[k].end)
    && (forall s: nat, e: nat :: from <= s && OccursAt(keys, text, s, e) ==> Inside(spans, s))
  }

  lemma TokenPrepended(keys: seq<Word>, text: Word, rest: seq<Span>, from: nat, e: nat)
    requires from < e <= |text| && Tokenisation(keys, text, rest, e)
    requires OccursAt(keys, text, from, e)
    requires forall e': nat :: OccursAt(keys, text, from, e') ==> e' <= e
    ensures Tokenisation(keys, text, [Span(from, e)] + rest, from)
  {
    hide OccursAt, Inside, Ordered;
    var first := Span(from, e);
    var all := [first] + rest;
    OrderedPrepended(first, rest, |text|);
    InsidePrepended(first, rest);
    forall k | 0 <= k < |all|
      ensures OccursAt(keys, text, all[k].start, all[k].end)
      ensures forall e': nat :: OccursAt(keys, text, all[k].start, e') ==> e' <= all[k].end
    {
      if k > 0 { assert all[k] == rest[k - 1]; }
    }
  }

  lemma OrderedPrepended(first: Span, rest: seq<Span>, to: nat)
    requires first.start <= first.end <= to && Ordered(rest, first.end, to)
    ensures Ordered([first] + rest, first.start, to)
  {
    var all := [first] + rest;
    forall k | 0 < k < |all| ensures all[k] == rest[k - 1] {}
  }

  lemma TokenSkipped(keys: seq<Word>, text: Word, spans: seq<Span>, from: nat)
    requires from < |text|
    requires forall e: nat :: OccursAt(keys, text, from, e) ==> e <= from
    ensures Tokenisation(keys, text, spans, from) <==> Tokenisation(keys, text, spans, from + 1)
  {
    hide OccursAt, Inside;
    forall e: nat | OccursAt(keys, text, from, e) ensures false { OccursInside(keys, text, from, e); }
    if Tokenisation(keys, text, spans, from) {
      forall k | 0 <= k < |spans| ensures spans[k].start != from {
        assert OccursAt(keys, text, spans[k].start, spans[k].end);
      }
    }
  }

  lemma {:induction false} TokeniseIsTokenisation(keys: seq<Word>, text: Word, from: nat)
    requires from <= |text|
    ensures Tokenisation(keys, text, Tokenise(keys, text, from), from)
    decreases |text| - from
  {
    hide OccursAt, LongestAt, Inside, Tokenisation;
    if from == |text| {
      NoTokensAtEnd(keys, text);
    } else {
      var e := LongestAt(keys, text, from);
      if e > from {
        TokeniseIsTokenisation(keys, text, e);
        TokenPrepended(keys, text, Tokenise(keys, text, e), from, e);
      } else {
        TokeniseIsTokenisation(keys, text, from + 1);
        TokenSkipped(keys, text, Tokenise(keys, text, from + 1), from);
      }
    }
  }

  lemma NoTokensAtEnd(keys: seq<Word>, text: Word)
    ensures Tokenisation(keys, text, [], |text|)
  {
    forall s: nat, e: nat | OccursAt(keys, text, s, e) ensures s < |text| { OccursInside(keys, text, s, e); }
  }

  lemma InsidePrepended(first: Span, rest: seq<Span>)
    ensures forall p: nat :: Inside([first] + rest, p) <==> first.start <= p < first.end || Inside(rest, p)
  {
    var all := [first] + rest;
    forall p: nat ensures Inside(all, p) <==> first.start <= p < first.end || Inside(rest, p) {
      if first.start <= p < first.end { assert all[0].start <= p < all[0].end; }
      if k :| 0 <= k < |rest| && rest[k].start <= p < rest[k].end { assert all[k + 1].start <= p < all[k + 1].end; }
      if k :| 0 <= k < |all| && all[k].start <= p < all[k].end && k > 0 {
        assert rest[k - 1].start <= p < rest[k - 1].end;
      }
    }
  }

  /** A tokenisation begins with the longest occurrence at its first position, if any. */
  lemma TokenFirst(keys: seq<Word>, text: Word, spans: seq<Span>, from: nat, e: nat)
    requires from < e <= |text| && Tokenisation(keys, text, spans, from)
    requires OccursAt(keys, text, from, e)
    requires forall e': nat :: OccursAt(keys, text, from, e') ==> e' <= e
    ensures spans != [] && spans[0] == Span(from, e) && Tokenisation(keys, text, spans[1..], e)
  {
    hide OccursAt, Inside;
    forall k | 0 <= k < |spans| ensures spans[k].start < spans[k].end {
      OccursInside(keys, text, spans[k].start, spans[k].end);
    }
    InsideFirst(spans, from, |text|);
    assert spans[0].end <= e;
    var rest := spans[1..];
    assert spans == [spans[0]] + rest;
    InsidePrepended(spans[0], rest);
    assert forall k :: 0 <= k < |rest| ==> rest[k] == spans[k + 1];
    assert Ordered(rest, e, |text|);
  }

  lemma InsideFirst(spans: seq<Span>, from: nat, to: nat)
    requires Ordered(spans, from, to) && Inside(spans, from)
    requires forall k :: 0 <= k < |spans| ==> spans[k].start < spans[k].end
    ensures spans != [] && spans[0].start == from
  {
  }

  lemma TokensNeedRoom(keys: seq<Word>, text: Word, spans: seq<Span>, from: nat)
    requires Tokenisation(keys, text, spans, from) && spans != []
    ensures from < |text|
  {
    OccursInside(keys, text, spans[0].start, spans[0].end);
  }

  /** There is only one. */
  lemma {:induction false} TokenisationUnique(keys: seq<Word>, text: Word, spans: seq<Span>, from: nat)
    requires from <= |text|
    requires Tokenisation(keys, text, spans, from)
    ensures spans == Tokenise(keys, text, from)
    decreases |text| - from
  {
    hide OccursAt, LongestAt, Inside, Tokenisation;
    if from == |text| {
      if spans != [] { TokensNeedRoom(keys, text, spans, from); }
    } else {
      var e := LongestAt(keys, text, from);
      if e > from {
        TokenFirst(keys, text, spans, from, e);
        TokenisationUnique(keys, text, spans[1..], e);
        assert spans == [spans[0]] + spans[1..];
      } else {
        TokenSkipped(keys, text, spans, from);
        TokenisationUnique(keys, text, spans, from + 1);
      }
    }
  }

  // ---------------------------------------------------------------------------
  // Sorting the matches and keeping the leftmost-longest ones
  // ---------------------------------------------------------------------------

  /** operator<: earlier start first, and at one start the longer match first. */
  predicate Before(a: Match, b: Match) {
    if a.start != b.start then a.start < b.start else a.end > b.end
  }

  lemma BeforeOrders()
    ensures WeakOrder(Before)
  {
  }

  ghost function Spans(ms: seq<Match>): (spans: seq<Span>)
    ensures |spans| == |ms|
    ensures forall k :: 0 <= k < |ms| ==> spans[k] == Span(ms[k].start, ms[k].end)
  {
    if ms == [] then [] else Spans(ms[..|ms| - 1]) + [Span(ms[|ms| - 1].start, ms[|ms| - 1].end)]
  }

  function LastEnd(result: seq<Match>): nat {
    if result == [] then 0 else result[|result| - 1].end
  }

  /** The greedy choice among the first k of the sorted matches. */
  ghost predicate Chosen(ms: seq<Match>, k: nat, result: seq<Match>) {
    && k <= |ms|
    && (forall m :: m in result ==> m in ms && LongestOf(ms, m))
    && Ordered(Spans(result), 0, LastEnd(result))
    && (result != [] ==> NoneBefore(ms, k, result[|result| - 1].start))
    && Covered(ms, k, Spans(result))
    && EmptiesLeft(ms, k, result)
    && (k > 0 ==> result != [])
  }

  /** An empty match is left out only inside a chosen one. */
  ghost predicate EmptiesLeft(ms: seq<Match>, k: nat, result: seq<Match>) {
    k <= |ms| &&
    forall j :: 0 <= j < k && ms[j].start == ms[j].end ==> ms[j] in result || Inside(Spans(result), ms[j].start)
  }

  ghost predicate NoneBefore(ms: seq<Match>, k: nat, start: nat) {
    forall j :: k <= j < |ms| ==> start <= ms[j].start
  }

  ghost predicate Covered(ms: seq<Match>, k: nat, spans: seq<Span>) {
    k <= |ms| && forall j :: 0 <= j < k && ms[j].start < ms[j].end ==> Inside(spans, ms[j].start)
  }

  ghost predicate LongestOf(ms: seq<Match>, m: Match) {
    forall n :: n in ms && n.start == m.start ==> n.end <= m.end
  }

  lemma SpansPlus(ms: seq<Match>, m: Match)
    ensures Spans(ms + [m]) == Spans(ms) + [Span(m.start, m.end)]
    ensures forall p: nat :: Inside(Spans(ms + [m]), p) <==> Inside(Spans(ms), p) || m.start <= p < m.end
  {
    assert (ms + [m])[..|ms|] == ms;
    var before, after := Spans(ms), Spans(ms + [m]);
    assert after == before + [Span(m.start, m.end)];
    forall p: nat ensures Inside(after, p) <==> Inside(before, p) || m.start <= p < m.end {
      if k :| 0 <= k < |before| && before[k].start <= p < before[k].end { assert after[k].start <= p < after[k].end; }
      if m.start <= p < m.end { assert after[|before|].start <= p < after[|before|].end; }
      if k :| 0 <= k < |after| && after[k].start <= p < after[k].end && k < |before| {
        assert before[k].start <= p < before[k].end;
      }
    }
  }

  lemma InsideIsBefore(result: seq<Match>, p: nat)
    requires Ordered(Spans(result), 0, LastEnd(result)) && Inside(Spans(result), p)
    ensures p < LastEnd(result)
  {
  }

  lemma ChooseNext(ms: seq<Match>, k: nat, result: seq<Match>)
    requires Sorted(ms, Before) && Chosen(ms, k, result) && k < |ms|
    requires forall m :: m in ms ==> m.start <= m.end
    requires ms[k].start >= LastEnd(result)
    ensures Chosen(ms, k + 1, result + [ms[k]])
  {
    hide Inside, Ordered, Spans, LongestOf, Covered, NoneBefore, Sorted, EmptiesLeft;
    assert ms[k] in ms;
    EmptiesLeftPlus(ms, k, result);
    NextIsLongest(ms, k, result);
    CoveredPlus(ms, k, result);
    OrderedMore(result, ms[k]);
    NoneBeforeMore(ms, k);
  }

  lemma OrderedMore(result: seq<Match>, m: Match)
    requires Ordered(Spans(result), 0, LastEnd(result)) && LastEnd(result) <= m.start <= m.end
    ensures Ordered(Spans(result + [m]), 0, m.end)
  {
    SpansPlus(result, m);
    OrderedPlus(Spans(result), LastEnd(result), Span(m.start, m.end));
  }

  lemma NoneBeforeMore(ms: seq<Match>, k: nat)
    requires Sorted(ms, Before) && k < |ms|
    ensures NoneBefore(ms, k + 1, ms[k].start)
  {
    forall j | k + 1 <= j < |ms| ensures ms[k].start <= ms[j].start { SortedAt(ms, Before, k, j); }
  }

  lemma CoveredPlus(ms: seq<Match>, k: nat, result: seq<Match>)
    requires k < |ms| && Covered(ms, k, Spans(result))
    ensures Covered(ms, k + 1, Spans(result + [ms[k]]))
  {
    SpansPlus(result, ms[k]);
    hide Inside, Spans;
  }

  lemma EmptiesLeftPlus(ms: seq<Match>, k: nat, result: seq<Match>)
    requires k < |ms| && EmptiesLeft(ms, k, result)
    ensures EmptiesLeft(ms, k + 1, result + [ms[k]])
  {
    SpansPlus(result, ms[k]);
    hide Inside, Spans;
  }

  lemma NextIsLongest(ms: seq<Match>, k: nat, result: seq<Match>)
    requires Sorted(ms, Before) && Chosen(ms, k, result) && k < |ms|
    requires ms[k].start >= LastEnd(result)
    requires forall m :: m in ms ==> m.start <= m.end
    ensures LongestOf(ms, ms[k])
  {
    hide Inside, Ordered, Sorted, Spans;
    forall n | n in ms && n.start == ms[k].start ensures n.end <= ms[k].end {
      var j :| 0 <= j < |ms| && ms[j] == n;
      if n.start == n.end {
        assert ms[k] in ms;
      } else if j < k {
        InsideIsBefore(result, n.start);
      } else if j > k {
        SortedAt(ms, Before, k, j);
      }
    }
  }

  lemma OrderedPlus(spans: seq<Span>, to: nat, s: Span)
    requires Ordered(spans, 0, to) && to <= s.start <= s.end
    ensures Ordered(spans + [s], 0, s.end)
  {
    var all := spans + [s];
    assert forall k :: 0 <= k < |spans| ==> all[k] == spans[k];
    assert all[|spans|] == s;
  }

  /** A match that starts before the end of the last chosen one starts inside it. */
  lemma SkipNext(ms: seq<Match>, k: nat, result: seq<Match>)
    requires Chosen(ms, k, result) && k < |ms| && ms[k].start < LastEnd(result)
    ensures Chosen(ms, k + 1, result)
  {
    var last := |result| - 1;
    assert Spans(result)[last].start <= ms[k].start < Spans(result)[last].end;
  }

  /** Greedy choice over the sorted matches. */
  method Pick(ms: seq<Match>) returns (result: seq<Match>)
    requires Sorted(ms, Before) && forall m :: m in ms ==> m.start <= m.end
    ensures Chosen(ms, |ms|, result)
  {
    result := [];
    var lastEnd := 0;
    for k := 0 to |ms|
      invariant Chosen(ms, k, result) && lastEnd == LastEnd(result)
    {
      if ms[k].start >= lastEnd {
        ChooseNext(ms, k, result);
        result := result + [ms[k]];
        lastEnd := ms[k].end;
      } else {
        SkipNext(ms, k, result);
      }
    }
  }

  /** The spans that are not empty. */
  ghost function Filled(spans: seq<Span>): (r: seq<Span>)
    ensures forall s :: s in r <==> s in spans && s.start < s.end
  {
    if spans == [] then []
    else (if spans[0].start < spans[0].end then [spans[0]] else []) + Filled(spans[1..])
  }

  lemma InsideIn(spans: seq<Span>, p: nat)
    ensures Inside(spans, p) <==> exists s :: s in spans && s.start <= p < s.end
  {
    if s :| s in spans && s.start <= p < s.end {
      var k :| 0 <= k < |spans| && spans[k] == s;
      assert spans[k].start <= p < spans[k].end;
    }
  }

  lemma InsideFilled(spans: seq<Span>, p: nat)
    ensures Inside(Filled(spans), p) <==> Inside(spans, p)
  {
    InsideIn(spans, p);
    InsideIn(Filled(spans), p);
    hide Inside, Filled;
    if s :| s in spans && s.start <= p < s.end { assert s in Filled(spans); }
  }

  lemma OrderedRest(spans: seq<Span>, from: nat, to: nat)
    requires Ordered(spans, from, to) && spans != []
    ensures from <= spans[0].start <= spans[0].end <= to && Ordered(spans[1..], spans[0].end, to)
  {
    var rest := spans[1..];
    assert forall k :: 0 <= k < |rest| ==> rest[k] == spans[k + 1];
  }

  lemma OrderedFrom(spans: seq<Span>, from: nat, later: nat, to: nat)
    requires Ordered(spans, later, to) && from <= later
    ensures Ordered(spans, from, to)
  {
  }

  lemma {:induction false} OrderedFilled(spans: seq<Span>, from: nat, to: nat)
    requires Ordered(spans, from, to)
    ensures Ordered(Filled(spans), from, to)
  {
    if spans == [] {
    } else {
      OrderedRest(spans, from, to);
      hide Ordered;
      var first, rest := spans[0], Filled(spans[1..]);
      OrderedFilled(spans[1..], first.end, to);
      if first.start < first.end {
        OrderedPrepended(first, rest, to);
        OrderedFrom([first] + rest, from, first.start, to);
      } else {
        assert [] + rest == rest;
        OrderedFrom(rest, from, first.end, to);
      }
    }
  }

  lemma {:induction false} FilledAll(spans: seq<Span>)
    requires forall s :: s in spans ==> s.start < s.end
    ensures Filled(spans) == spans
  {
    if spans == [] {
    } else {
      assert forall s :: s in spans[1..] ==> s in spans;
      FilledAll(spans[1..]);
      assert spans[0] in spans;
    }
  }

  lemma SpanOf(ms: seq<Match>, s: Span)
    requires s in Spans(ms)
    ensures exists m :: m in ms && s == Span(m.start, m.end)
  {
    var k :| 0 <= k < |ms| && Spans(ms)[k] == s;
    assert ms[k] in ms;
  }

  /** The matches are the occurrences, and perhaps some of empty words. */
  ghost predicate AreMatches(keys: seq<Word>, text: Word, ms: seq<Match>) {
    && (forall m :: m in ms ==> Occurs(keys, text, m) || OccursEmpty(keys, text, m))
    && (forall m :: Occurs(keys, text, m) ==> m in ms)
  }

  lemma ChosenSpan(keys: seq<Word>, text: Word, ms: seq<Match>, result: seq<Match>, s: Span)
    requires AreMatches(keys, text, ms) && Chosen(ms, |ms|, result) && s in Spans(result)
    ensures s.start <= s.end <= |text| && (s.start < s.end ==> OccursAt(keys, text, s.start, s.end))
  {
    SpanOf(result, s);
    var m :| m in result && s == Span(m.start, m.end);
    assert m in ms && m == Match(m.start, m.end, m.patternId);
  }

  lemma OccurrenceCovered(keys: seq<Word>, text: Word, ms: seq<Match>, result: seq<Match>, s: nat, e: nat)
    requires AreMatches(keys, text, ms) && Chosen(ms, |ms|, result) && OccursAt(keys, text, s, e)
    ensures var spans := Filled(Spans(result));
            && Inside(spans, s)
            && forall k :: 0 <= k < |spans| && spans[k].start == s ==> e <= spans[k].end
  {
    hide Inside, Chosen, Spans, Filled;
    var id: nat :| Occurs(keys, text, Match(s, e, id));
    ChosenCovers(ms, result, Match(s, e, id));
    InsideFilled(Spans(result), s);
    var spans := Filled(Spans(result));
    assert forall k :: 0 <= k < |spans| ==> spans[k] in spans;
  }

  /** All matches in, the leftmost-longest tokenisation out, and empty spans in between. */
  lemma ChosenIsTokenisation(keys: seq<Word>, text: Word, ms: seq<Match>, result: seq<Match>)
    requires AreMatches(keys, text, ms) && Chosen(ms, |ms|, result)
    ensures Filled(Spans(result)) == Tokenise(keys, text, 0) && Ordered(Spans(result), 0, |text|)
    ensures forall m :: m in result ==> Occurs(keys, text, m) || OccursEmpty(keys, text, m)
    ensures ms != [] ==> result != []
  {
    var all, spans := Spans(result), Filled(Spans(result));
    ChosenFacts(ms, result);
    hide Inside, Chosen, Ordered, OccursEmpty, OccursAt, Spans, Filled, Tokenise;
    forall s: nat, e: nat | OccursAt(keys, text, s, e)
      ensures Inside(spans, s)
      ensures forall k :: 0 <= k < |spans| && spans[k].start == s ==> e <= spans[k].end
    {
      OccurrenceCovered(keys, text, ms, result, s, e);
    }
    forall k | 0 <= k < |spans| ensures OccursAt(keys, text, spans[k].start, spans[k].end) {
      assert spans[k] in spans;
      ChosenSpan(keys, text, ms, result, spans[k]);
    }
    forall k | 0 <= k < |all| ensures all[k].end <= |text| {
      assert all[k] in all;
      ChosenSpan(keys, text, ms, result, all[k]);
    }
    OrderedWithin(all, LastEnd(result), |text|);
    OrderedFilled(all, 0, |text|);
    TokenisationUnique(keys, text, spans, 0);
  }

  lemma ChosenFacts(ms: seq<Match>, result: seq<Match>)
    requires Chosen(ms, |ms|, result)
    ensures Ordered(Spans(result), 0, LastEnd(result)) && (forall m :: m in result ==> m in ms)
    ensures ms != [] ==> result != []
  {
  }

  lemma OrderedWithin(spans: seq<Span>, to: nat, to': nat)
    requires Ordered(spans, 0, to)
    requires forall k :: 0 <= k < |spans| ==> spans[k].end <= to'
    ensures Ordered(spans, 0, to')
  {
  }

  lemma ChosenCovers(ms: seq<Match>, result: seq<Match>, m: Match)
    requires Chosen(ms, |ms|, result) && m in ms && m.start < m.end
    ensures Inside(Spans(result), m.start)
    ensures forall s :: s in Spans(result) && s.start == m.start ==> m.end <= s.end
  {
    forall s | s in Spans(result) && s.start == m.start ensures m.end <= s.end {
      SpanOf(result, s);
      var r :| r in result && s == Span(r.start, r.end);
      assert LongestOf(ms, r);
    }
    var j :| 0 <= j < |ms| && ms[j] == m;
    assert Inside(Spans(result), ms[j].start);
  }

  /** Of the empty matches exactly those are chosen that no token covers. */
  lemma ChosenEmpties(ms: seq<Match>, result: seq<Match>, m: Match)
    requires Chosen(ms, |ms|, result) && m in ms && m.start == m.end
    ensures m in result <==> !Inside(Filled(Spans(result)), m.start)
  {
    InsideFilled(Spans(result), m.start);
    var j :| 0 <= j < |ms| && ms[j] == m;
    assert m in result || Inside(Spans(result), ms[j].start);
    if m in result && Inside(Spans(result), m.start) {
      var k :| 0 <= k < |result| && result[k].start <= m.start < result[k].end;
      var a :| 0 <= a < |result| && result[a] == m;
      assert result[k] in result && LongestOf(ms, m);
      NoOtherInside(result, a, k);
      assert false;
    }
  }

  lemma {:induction false} NoOtherInside(result: seq<Match>, a: nat, k: nat)
    requires Ordered(Spans(result), 0, LastEnd(result)) && a < |result| && k < |result|
    requires result[a].start == result[a].end && result[k].start <= result[a].start < result[k].end
    ensures result[k].start == result[a].start
  {
    var spans := Spans(result);
    assert a < k ==> spans[a].end <= spans[k].start;
  }

  // ---------------------------------------------------------------------------
  // Removing the chosen spans
  // ---------------------------------------------------------------------------

  ghost function Erase(original: Word, spans: seq<Span>, from: nat): Word
    requires from <= |original| && Ordered(spans, from, |original|)
  {
    if spans == [] then original[from..]
    else original[from..spans[0].start] + Erase(original, spans[1..], spans[0].end)
  }

  ghost function TotalLength(spans: seq<Span>): int {
    if spans == [] then 0 else spans[0].end - spans[0].start + TotalLength(spans[1..])
  }

  lemma {:induction false} EraseLength(original: Word, spans: seq<Span>, from: nat)
    requires from <= |original| && Ordered(spans, from, |original|)
    ensures |Erase(original, spans, from)| + TotalLength(spans) == |original| - from
  {
    if spans == [] {
    } else {
      EraseLength(original, spans[1..], spans[0].end);
    }
  }

  /** Erasing the tokens is stepping through the text and keeping what is not in a token. */
  lemma {:induction false} EraseIsStrip(keys: seq<Word>, text: Word, original: Word, from: nat)
    requires from <= |text| == |original|
    ensures Ordered(Tokenise(keys, text, from), from, |text|)
    ensures Erase(original, Tokenise(keys, text, from), from) == Strip(keys, text, original, from)
    decreases |text| - from
  {
    TokeniseIsTokenisation(keys, text, from);
    hide OccursAt, LongestAt;
    if from < |text| {
      var e := LongestAt(keys, text, from);
      if e > from {
        EraseIsStrip(keys, text, original, e);
        var rest := Tokenise(keys, text, e);
        assert ([Span(from, e)] + rest)[1..] == rest;
      } else {
        EraseIsStrip(keys, text, original, from + 1);
        var spans := Tokenise(keys, text, from + 1);
        EraseStep(original, spans, from);
      }
    }
  }

  lemma EraseStep(original: Word, spans: seq<Span>, from: nat)
    requires from < |original| && Ordered(spans, from + 1, |original|)
    ensures Ordered(spans, from, |original|)
    ensures Erase(original, spans, from) == [original[from]] + Erase(original, spans, from + 1)
  {
    if spans != [] {
      assert original[from..spans[0].start] == [original[from]] + original[from + 1..spans[0].start];
    }
  }

  /** What is left: in order, the characters at the positions that are in no token. */
  ghost predicate Leaves(original: Word, spans: seq<Span>, from: nat, kept: seq<nat>, result: Word) {
    && Picks(original, from, kept, result)
    && forall k: nat :: from <= k < |original| ==> (k in kept <==> !Inside(spans, k))
  }

  lemma {:induction false} EraseLeaves(original: Word, spans: seq<Span>, from: nat) returns (kept: seq<nat>)
    requires from <= |original| && Ordered(spans, from, |original|)
    ensures Leaves(original, spans, from, kept, Erase(original, spans, from))
    decreases |original| - from, |spans|
  {
    if from == |original| {
      NothingErased(original, spans);
      return [];
    }
    if spans != [] && spans[0].start == from {
      kept := EraseLeaves(original, spans[1..], spans[0].end);
      LeavesBehind(original, spans, from, kept);
    } else {
      OrderedLater(spans, from, |original|);
      kept := EraseLeaves(original, spans, from + 1);
      EraseStep(original, spans, from);
      LeavesOneMore(original, spans, from, kept, Erase(original, spans, from + 1));
      kept := [from] + kept;
    }
  }

  lemma {:induction false} NothingErased(original: Word, spans: seq<Span>)
    requires Ordered(spans, |original|, |original|)
    ensures Erase(original, spans, |original|) == []
    decreases |spans|
  {
    if spans != [] {
      OrderedRest(spans, |original|, |original|);
      NothingErased(original, spans[1..]);
    }
  }

  lemma OrderedLater(spans: seq<Span>, from: nat, to: nat)
    requires from < to && Ordered(spans, from, to) && (spans != [] ==> spans[0].start != from)
    ensures Ordered(spans, from + 1, to) && !Inside(spans, from)
  {
  }

  lemma LeavesBehind(original: Word, spans: seq<Span>, from: nat, kept: seq<nat>)
    requires from <= |original| && Ordered(spans, from, |original|) && spans != [] && spans[0].start == from
    requires Ordered(spans[1..], spans[0].end, |original|)
    requires Leaves(original, spans[1..], spans[0].end, kept, Erase(original, spans[1..], spans[0].end))
    ensures Leaves(original, spans, from, kept, Erase(original, spans, from))
  {
    var rest := spans[1..];
    assert original[from..from] == [];
    assert forall k :: 0 <= k < |rest| ==> rest[k] == spans[k + 1];
    forall k: nat ensures Inside(spans, k) <==> from <= k < spans[0].end || Inside(rest, k) {
      if Inside(rest, k) {
        var l :| 0 <= l < |rest| && rest[l].start <= k < rest[l].end;
        assert spans[l + 1].start <= k < spans[l + 1].end;
      }
    }
  }

  lemma LeavesOneMore(original: Word, spans: seq<Span>, from: nat, kept: seq<nat>, result: Word)
    requires from < |original| && !Inside(spans, from) && Leaves(original, spans, from + 1, kept, result)
    ensures Leaves(original, spans, from, [from] + kept, [original[from]] + result)
  {
    PickMore(original, from, kept, result);
    hide Picks, Inside;
  }

  lemma EraseEarlier(original: Word, spans: seq<Span>, from: nat, later: nat)
    requires from <= later <= |original| && Ordered(spans, later, |original|)
    ensures Ordered(spans, from, |original|)
    ensures Erase(original, spans, from) == original[from..later] + Erase(original, spans, later)
  {
    OrderedFrom(spans, from, later, |original|);
    if spans == [] {
      SliceJoins(original, from, later, |original|);
    } else {
      var s := spans[0].start;
      OrderedRest(spans, later, |original|);
      hide Ordered;
      SliceJoins(original, from, later, s);
      Joins(original[from..later], original[later..s], Erase(original, spans[1..], spans[0].end));
    }
  }

  lemma SliceJoins<T>(s: seq<T>, a: nat, b: nat, c: nat)
    requires a <= b <= c <= |s|
    ensures s[a..c] == s[a..b] + s[b..c]
    ensures c == |s| ==> s[a..] == s[a..c] && s[b..] == s[b..c]
  {
  }

  /** Empty spans erase nothing. */
  lemma {:induction false} EraseFilled(original: Word, spans: seq<Span>, from: nat)
    requires from <= |original| && Ordered(spans, from, |original|)
    ensures Ordered(Filled(spans), from, |original|)
    ensures Erase(original, Filled(spans), from) == Erase(original, spans, from)
    decreases |spans|
  {
    OrderedFilled(spans, from, |original|);
    if spans == [] {
    } else {
      var first, rest := spans[0], Filled(spans[1..]);
      OrderedRest(spans, from, |original|);
      EraseFilled(original, spans[1..], first.end);
      if first.start < first.end {
        assert ([first] + rest)[1..] == rest;
      } else {
        assert [] + rest == rest;
        EraseEarlier(original, rest, from, first.end);
      }
    }
  }

  /** One step of erasing, with what was kept before. */
  lemma EraseOne(original: Word, spans: seq<Span>, k: nat, at: nat, kept: Word)
    requires k < |spans| && at <= |original| && Ordered(spans[k..], at, |original|)
    ensures at <= spans[k].start <= spans[k].end <= |original|
    ensures Ordered(spans[k + 1..], spans[k].end, |original|)
    ensures kept + Erase(original, spans[k..], at) ==
            (if spans[k].start > at then kept + original[at..spans[k].start] else kept)
            + Erase(original, spans[k + 1..], spans[k].end)
  {
    assert spans[k..][0] == spans[k] && spans[k..][1..] == spans[k + 1..];
  }

  lemma EraseEnd(original: Word, at: nat)
    requires at <= |original|
    ensures Ordered([], at, |original|) && Erase(original, [], at) == original[at..]
  {
  }

  lemma NoTokens(keys: seq<Word>, text: Word)
    requires forall m :: !Occurs(keys, text, m)
    ensures Tokenise(keys, text, 0) == [] && Spans([]) == []
  {
    TokenisationUnique(keys, text, [], 0);
  }
}
