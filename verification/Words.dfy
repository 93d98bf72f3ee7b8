/** Words over character codes, and the longest member of a prefix-closed set of
    words that ends a given word. This is the reference the automaton is proved
    against: it mentions neither nodes nor failure links. */
module Words {

  type Code = int
  type Word = seq<Code>

  ghost predicate IsSuffix(s: Word, w: Word) {
    |s| <= |w| && w[|w| - |s|..] == s
  }

  ghost predicate IsPrefix(p: Word, w: Word) {
    |p| <= |w| && w[..|p|] == p
  }

  ghost function Prefixes(key: Word): (ps: set<Word>)
    ensures forall w :: w in ps <==> IsPrefix(w, key)
  {
    assert forall w :: IsPrefix(w, key) ==> w == key[..|w|];
    set j | 0 <= j <= |key| :: key[..j]
  }

  lemma PrefixesMore(key: Word, c: Code)
    ensures Prefixes(key + [c]) == Prefixes(key) + {key + [c]}
  {
    forall w | w in Prefixes(key + [c]) ensures w in Prefixes(key) + {key + [c]} {
      if |w| <= |key| { assert w == (key + [c])[..|w|] == key[..|w|]; }
    }
    forall w | w in Prefixes(key) ensures w in Prefixes(key + [c]) {
      assert w == key[..|w|] == (key + [c])[..|w|];
    }
  }

  /** The empty word and all prefixes of the given words: what their trie spells. */
  ghost function AllPrefixes(keys: seq<Word>): (ps: set<Word>)
    ensures [] in ps
  {
    if keys == [] then {[]} else AllPrefixes(keys[..|keys| - 1]) + Prefixes(keys[|keys| - 1])
  }

  lemma AllPrefixesMore(keys: seq<Word>, key: Word)
    ensures AllPrefixes(keys + [key]) == AllPrefixes(keys) + Prefixes(key)
  {
    assert (keys + [key])[..|keys|] == keys;
  }

  lemma {:induction false} AllPrefixesMeans(keys: seq<Word>, w: Word)
    ensures w in AllPrefixes(keys) <==> w == [] || exists id :: 0 <= id < |keys| && IsPrefix(w, keys[id])
  {
    if keys == [] {
    } else {
      var init, last := keys[..|keys| - 1], |keys| - 1;
      AllPrefixesMeans(init, w);
      if id :| 0 <= id < |init| && IsPrefix(w, init[id]) {
        assert IsPrefix(w, keys[id]);
      }
      if id :| 0 <= id < |keys| && IsPrefix(w, keys[id]) && id != last {
        assert IsPrefix(w, init[id]);
      }
    }
  }

  /** The words a trie spells: the empty word, and with a word all its prefixes. */
  ghost predicate PrefixClosed(t: set<Word>) {
    [] in t && forall w, c :: w + [c] in t ==> w in t
  }

  lemma ClosedAt(t: set<Word>, w: Word)
    requires PrefixClosed(t) && w in t && w != []
    ensures w[..|w| - 1] in t && w[..|w| - 1] + [w[|w| - 1]] == w
  {
    var u, c := w[..|w| - 1], w[|w| - 1];
    assert u + [c] == w;
    assert u + [c] in t;
  }

  /** The longest suffix of w that t spells. */
  ghost function LongestSuffix(t: set<Word>, w: Word): (r: Word)
    requires [] in t
    ensures r in t && IsSuffix(r, w)
    ensures forall s :: s in t && IsSuffix(s, w) ==> IsSuffix(s, r)
  {
    if w in t then w
    else
      assert forall s :: s in t && IsSuffix(s, w) ==> IsSuffix(s, w[1..]);
      LongestSuffix(t, w[1..])
  }

  /** What makes a word the longest suffix in t. */
  ghost predicate IsLongest(t: set<Word>, w: Word, u: Word) {
    u in t && IsSuffix(u, w) && forall s :: s in t && IsSuffix(s, w) ==> IsSuffix(s, u)
  }

  lemma LongestIs(t: set<Word>, w: Word)
    requires [] in t
    ensures IsLongest(t, w, LongestSuffix(t, w))
  {
  }

  /** Extending the longest suffix u by c: keep the extension if t spells it,
      otherwise retry from the next shorter suffix. */
  ghost function Step(t: set<Word>, u: Word, c: Code): Word
    requires [] in t
    decreases |u|
  {
    if u + [c] in t then u + [c]
    else if u == [] then []
    else Step(t, LongestSuffix(t, u[1..]), c)
  }

  /** Retrying from shorter and shorter suffixes never misses: it finds the longest
      suffix of the extended word, so the text itself can be forgotten. */
  lemma {:induction false} StepIsLongest(t: set<Word>, w: Word, c: Code)
    requires PrefixClosed(t)
    ensures Step(t, LongestSuffix(t, w), c) == LongestSuffix(t, w + [c])
    decreases |w|
  {
    if w + [c] in t {
    } else if w == [] {
      assert (w + [c])[1..] == [];
    } else {
      assert (w + [c])[1..] == w[1..] + [c];
      StepIsLongest(t, w[1..], c);
    }
  }

  lemma SuffixTrans(a: Word, b: Word, c: Word)
    requires IsSuffix(a, b) && IsSuffix(b, c)
    ensures IsSuffix(a, c)
  {
    assert c[|c| - |a|..] == c[|c| - |b|..][|b| - |a|..];
  }

  /** A word of t other than w itself ends w exactly when it ends the longest
      proper suffix of w: outputs may be inherited along failure links. */
  lemma SuffixesInherited(t: set<Word>, w: Word, p: Word)
    requires [] in t && p in t && w != []
    ensures IsSuffix(p, w) <==> p == w || IsSuffix(p, LongestSuffix(t, w[1..]))
  {
    var f := LongestSuffix(t, w[1..]);
    if IsSuffix(p, w) && p != w {
      assert IsSuffix(p, w[1..]);
    }
    if IsSuffix(p, f) {
      SuffixTrans(p, f, w[1..]);
      SuffixTrans(p, w[1..], w);
    }
  }
}
