/**
 * The word -> frequency view of the trie. Every mutating trie operation is
 * specified by one of the functions below on this map, and the lemmas here
 * state what the dictionary promises about them: insertion sums
 * frequencies and counts each distinct word once, learning bumps one word
 * by one, and every insertion of a non-empty word can be found again by any
 * of its case and padding variants.
 */
module Dictionary {
  import opened Text

  /** `p` is a literal prefix of `w`. */
  predicate IsPrefix(p: string, w: string)
  {
    |p| <= |w| && w[..|p|] == p
  }

  /** Frequency stored for `w`, zero for a word that is not stored. */
  function FrequencyOf(words: map<string, nat>, w: string): nat
  {
    if w in words then words[w] else 0
  }

  /** What `insert` does to the view, once `w` is normalised: nothing for the empty word, else adds `frequency`. */
  function AddWord(words: map<string, nat>, w: string, frequency: nat): map<string, nat>
  {
    if w == [] then words else words[w := FrequencyOf(words, w) + frequency]
  }

  /** What `incrementFrequency` does to the view: one more use of an already stored word. */
  function Bump(words: map<string, nat>, w: string): map<string, nat>
  {
    if w in words then words[w := words[w] + 1] else words
  }

  /** The stored words that start with `p`, with their frequencies. */
  function Matches(words: map<string, nat>, p: string): map<string, nat>
  {
    map w | w in words && IsPrefix(p, w) :: words[w]
  }

  /** The non-empty prefixes of `w` of length at most `n`. */
  function PathOf(w: string, n: nat): set<string>
  {
    set i | 0 < i <= n && i <= |w| :: w[..i]
  }

  /** Every non-empty prefix of some word in `ws`: the paths of the trie's non-root nodes. */
  function Prefixes(ws: set<string>): set<string>
  {
    set w, i | w in ws && 0 < i <= |w| :: w[..i]
  }

  /** Every stored word is the normalised form of itself and is not empty. */
  ghost predicate NormalizedKeys(words: map<string, nat>)
  {
    forall w :: NormalizedAt(words.Keys, w)
  }

  /** The word `w`, if stored, is non-empty and normalised. */
  predicate NormalizedAt(ws: set<string>, w: string)
  {
    w in ws ==> w != [] && Normalize(w) == w
  }

  // ---------------------------------------------------------------------
  // Insertion
  // ---------------------------------------------------------------------

  /**
   * Inserting a non-empty word stores it, adds `frequency` to what it had,
   * leaves every other word alone and raises the distinct-word count by one
   * exactly when the word is new.
   */
  lemma AddWordEffect(words: map<string, nat>, w: string, frequency: nat)
    requires w != []
    ensures var r := AddWord(words, w, frequency);
      && w in r && r[w] == FrequencyOf(words, w) + frequency
      && r.Keys == words.Keys + {w}
      && (forall v :: v in words && v != w ==> r[v] == words[v])
      && |r| == |words| + (if w in words then 0 else 1)
  {
    var r := AddWord(words, w, frequency);
    if w in words {
      assert r.Keys == words.Keys;
    } else {
      assert r.Keys == words.Keys + {w};
      assert |r.Keys| == |words.Keys| + 1;
    }
  }

  /** Inserting the same word twice counts it once and sums both frequencies. */
  lemma InsertTwiceCountsOnce(words: map<string, nat>, w: string, f: nat, g: nat)
    requires w != []
    ensures var r := AddWord(AddWord(words, w, f), w, g);
      && |r| == |words| + (if w in words then 0 else 1)
      && r[w] == FrequencyOf(words, w) + f + g
  {
    AddWordEffect(words, w, f);
    AddWordEffect(AddWord(words, w, f), w, g);
  }

  /**
   * After inserting `word`, any variant of it that differs only in letter
   * case and in surrounding white space is found.
   */
  lemma InsertThenSearch(words: map<string, nat>, word: string, frequency: nat, a: string, t: string, b: string)
    requires Normalize(word) != []
    requires AllSpace(a) && AllSpace(b) && Lower(t) == Lower(word)
    ensures Normalize(a + t + b) in AddWord(words, Normalize(word), frequency)
  {
    NormalizeIgnoresCaseAndPadding(word, a, t, b);
  }

  /** Empty and all-white-space input is rejected by `insert`. */
  lemma InsertRejectsBlank(words: map<string, nat>, word: string, frequency: nat)
    requires AllSpace(word)
    ensures AddWord(words, Normalize(word), frequency) == words
  {
    NormalizeShape(word);
  }

  /** Insertion keeps the keys normalised, because it stores the normalised form. */
  lemma AddWordNormalized(words: map<string, nat>, word: string, frequency: nat)
    requires NormalizedKeys(words)
    ensures NormalizedKeys(AddWord(words, Normalize(word), frequency))
  {
    NormalizeIdempotent(word);
    var ws := AddWord(words, Normalize(word), frequency).Keys;
    forall w ensures NormalizedAt(ws, w) {
      assert NormalizedAt(words.Keys, w);
    }
  }

  // ---------------------------------------------------------------------
  // Learning
  // ---------------------------------------------------------------------

  /** Learning changes only the frequency of the one word, by exactly one, and never adds a word. */
  lemma BumpEffect(words: map<string, nat>, w: string)
    ensures var r := Bump(words, w);
      && r.Keys == words.Keys
      && (forall v :: v in words && v != w ==> r[v] == words[v])
      && (w in words ==> r[w] == words[w] + 1)
      && (w !in words ==> r == words)
  {
  }

  // ---------------------------------------------------------------------
  // Node paths
  // ---------------------------------------------------------------------

  /** The paths created for a new word are its non-empty prefixes. */
  lemma PrefixesAdd(ws: set<string>, w: string)
    ensures Prefixes(ws + {w}) == Prefixes(ws) + PathOf(w, |w|)
  {
    forall q | q in Prefixes(ws + {w}) ensures q in Prefixes(ws) + PathOf(w, |w|) {
      var v, i :| v in ws + {w} && 0 < i <= |v| && q == v[..i];
      if v == w {
        assert q in PathOf(w, |w|);
      } else {
        assert q in Prefixes(ws);
      }
    }
  }

  /** A path determines its parent and its last character. */
  lemma SnocInjective(a: string, x: char, b: string, y: char)
    requires a + [x] == b + [y]
    ensures a == b && x == y
  {
    assert a == (a + [x])[..|a|];
    assert b == (b + [y])[..|b|];
    assert x == (a + [x])[|a|];
  }

  /** Paths are closed under taking prefixes. */
  lemma PrefixOfPrefix(ws: set<string>, q: string, j: nat)
    requires q in Prefixes(ws) && 0 < j <= |q|
    ensures q[..j] in Prefixes(ws)
  {
    var v, i :| v in ws && 0 < i <= |v| && q == v[..i];
    assert q[..j] == v[..j];
  }

  /** Every path is a prefix of a stored word, hence no longer than the longest one. */
  lemma PrefixBelongs(ws: set<string>, q: string) returns (v: string)
    requires q in Prefixes(ws)
    ensures v in ws && IsPrefix(q, v) && q != []
  {
    var i: nat;
    v, i :| v in ws && 0 < i <= |v| && q == v[..i];
  }

  /** The longest length in a set of words, with zero for none. */
  predicate IsLongest(ws: set<string>, d: nat)
  {
    && (forall w :: w in ws ==> |w| <= d)
    && (ws == {} ==> d == 0)
    && (ws != {} ==> exists w :: w in ws && |w| == d)
  }

  // ---------------------------------------------------------------------
  // Splitting a subtree by the first character below its root
  // ---------------------------------------------------------------------

  /** The word `p` itself, if stored, as a one-entry map. */
  function Own(words: map<string, nat>, p: string): map<string, nat>
  {
    if p in words then map[p := words[p]] else map[]
  }

  /** The stored words that continue `p` with one of the characters in `cs`. */
  function MatchesVia(words: map<string, nat>, p: string, cs: set<char>): map<string, nat>
  {
    map w | w in words && |w| > |p| && w[..|p|] == p && w[|p|] in cs :: words[w]
  }

  /** The completions of `p` are `p` itself and those below the children that exist. */
  lemma MatchesSplit(words: map<string, nat>, p: string, cs: set<char>)
    requires forall w :: w in words && |w| > |p| && w[..|p|] == p ==> w[|p|] in cs
    ensures Matches(words, p) == Own(words, p) + MatchesVia(words, p, cs)
    ensures p !in MatchesVia(words, p, cs)
  {
    forall w | w in words && IsPrefix(p, w) && |w| == |p| ensures w == p {
      assert w[..|p|] == w;
    }
    assert Matches(words, p).Keys == (Own(words, p) + MatchesVia(words, p, cs)).Keys;
  }

  /** A word continues `p + [c]` exactly when it goes on from `p` with `c`. */
  lemma PrefixStep(p: string, c: char, w: string)
    ensures IsPrefix(p + [c], w) <==> |w| > |p| && w[..|p|] == p && w[|p|] == c
  {
    var q := p + [c];
    if IsPrefix(q, w) {
      assert w[..|q|][..|p|] == w[..|p|];
      assert w[..|q|][|p|] == w[|p|];
    }
    if |w| > |p| && w[..|p|] == p && w[|p|] == c {
      assert w[..|q|] == w[..|p|] + [w[|p|]];
    }
  }

  /** Visiting one more child `c` adds exactly the completions of `p + [c]`, none of them seen before. */
  lemma MatchesViaAdd(words: map<string, nat>, p: string, cs: set<char>, c: char)
    requires c !in cs
    ensures MatchesVia(words, p, cs + {c}) == MatchesVia(words, p, cs) + Matches(words, p + [c])
    ensures (Own(words, p) + MatchesVia(words, p, cs)).Keys !! Matches(words, p + [c]).Keys
    ensures Own(words, p) + MatchesVia(words, p, cs + {c}) == (Own(words, p) + MatchesVia(words, p, cs)) + Matches(words, p + [c])
  {
    var before, below := MatchesVia(words, p, cs), Matches(words, p + [c]);
    var after := MatchesVia(words, p, cs + {c});
    forall w ensures (w in after <==> w in before || w in below) && (w in before ==> w !in below) {
      PrefixStep(p, c, w);
    }
    assert after == before + below;
  }

  /** The stored paths that extend `p`: the subtree below the node for `p`. */
  function Extensions(ks: set<string>, p: string): set<string>
  {
    set q | q in ks && IsPrefix(p, q)
  }

  /** The stored paths strictly below `p` whose next character is in `cs`. */
  function ExtensionsVia(ks: set<string>, p: string, cs: set<char>): set<string>
  {
    set q | q in ks && |q| > |p| && q[..|p|] == p && q[|p|] in cs
  }

  lemma ExtensionsSplit(ks: set<string>, p: string, cs: set<char>)
    requires p in ks
    requires forall q :: q in ks && |q| > |p| && q[..|p|] == p ==> q[|p|] in cs
    ensures Extensions(ks, p) == {p} + ExtensionsVia(ks, p, cs)
    ensures |Extensions(ks, p)| == 1 + |ExtensionsVia(ks, p, cs)|
  {
    assert p !in ExtensionsVia(ks, p, cs);
    forall w | w in ks && IsPrefix(p, w) && |w| == |p| ensures w == p {
      assert w[..|p|] == w;
    }
    assert p[..|p|] == p;
  }

  lemma ExtensionsViaAdd(ks: set<string>, p: string, cs: set<char>, c: char)
    requires c !in cs
    ensures ExtensionsVia(ks, p, cs + {c}) == ExtensionsVia(ks, p, cs) + Extensions(ks, p + [c])
    ensures ({p} + ExtensionsVia(ks, p, cs)) !! Extensions(ks, p + [c])
    ensures |ExtensionsVia(ks, p, cs + {c})| == |ExtensionsVia(ks, p, cs)| + |Extensions(ks, p + [c])|
  {
    var q := p + [c];
    forall w | w in ks && IsPrefix(q, w) ensures |w| > |p| && w[..|p|] == p && w[|p|] == c {
      assert w[..|q|][..|p|] == w[..|p|];
      assert w[..|q|][|p|] == w[|p|];
    }
    forall w | w in ks && |w| > |p| && w[..|p|] == p && w[|p|] == c ensures IsPrefix(q, w) {
      assert w[..|q|] == w[..|p|] + [w[|p|]];
    }
  }

  /**
   * `d` is the larger of `base` and the length of the longest path in `s`:
   * what a running maximum holds after visiting `s`, starting from `base`.
   */
  predicate Deepest(s: set<string>, base: nat, d: nat)
  {
    && base <= d
    && (forall q :: q in s ==> |q| <= d)
    && (d == base || exists q :: q in s && |q| == d)
  }

  /** A running maximum over `s` and then over `t` is the running maximum over both. */
  lemma DeepestUnion(s: set<string>, t: set<string>, base: nat, d: nat, e: nat)
    requires Deepest(s, base, d) && Deepest(t, d, e)
    ensures Deepest(s + t, base, e)
  {
    if e != base {
      if e == d {
        var q :| q in s && |q| == d;
        assert q in s + t;
      } else {
        var q :| q in t && |q| == e;
        assert q in s + t;
      }
    }
  }

  /** Raising the maximum to `|p|` first and then visiting `s` visits `{p} + s`. */
  lemma DeepestTop(p: string, s: set<string>, base: nat, d: nat)
    requires Deepest(s, if base >= |p| then base else |p|, d)
    ensures Deepest({p} + s, base, d)
  {
    if d != base && d == |p| {
      assert p in {p} + s;
    } else if d != base {
      var q :| q in s && |q| == d;
      assert q in {p} + s;
    }
  }

  /** Every path extends the empty one: the subtree of the root is the whole tree. */
  lemma ExtensionsOfRoot(ks: set<string>)
    ensures Extensions(ks, []) == ks
  {
    forall q | q in ks ensures IsPrefix([], q) {
      assert q[..0] == [];
    }
  }

  /** The subtree below a child is strictly smaller: recursion over children terminates. */
  lemma ExtensionsShrink(ks: set<string>, p: string, c: char)
    requires p in ks
    ensures Extensions(ks, p + [c]) < Extensions(ks, p)
  {
    var q := p + [c];
    forall w | w in Extensions(ks, q) ensures w in Extensions(ks, p) {
      assert w[..|q|][..|p|] == w[..|p|];
    }
    assert p in Extensions(ks, p);
  }

  // ---------------------------------------------------------------------
  // Re-building a dictionary from its entries
  // ---------------------------------------------------------------------

  function WordsIn(entries: seq<(string, nat)>): set<string>
  {
    set i | 0 <= i < |entries| :: entries[i].0
  }

  /** Insert every (word, frequency) pair in order. */
  function InsertAll(words: map<string, nat>, entries: seq<(string, nat)>): map<string, nat>
    decreases |entries|
  {
    if entries == [] then words
    else InsertAll(AddWord(words, Normalize(entries[0].0), entries[0].1), entries[1..])
  }

  /** Inserting the pairs from position `i` on is inserting pair `i` and then the rest. */
  lemma InsertAllStep(words: map<string, nat>, entries: seq<(string, nat)>, i: nat)
    requires i < |entries|
    ensures InsertAll(words, entries[i..])
         == InsertAll(AddWord(words, Normalize(entries[i].0), entries[i].1), entries[i + 1..])
  {
    assert entries[i..][1..] == entries[i + 1..];
  }

  /** `entries` lists the pairs of `m`, each word once, in some order. */
  predicate Enumerates(entries: seq<(string, nat)>, m: map<string, nat>)
  {
    && |entries| == |m|
    && (forall i :: 0 <= i < |entries| ==> entries[i].0 in m && m[entries[i].0] == entries[i].1)
    && (forall i, j :: 0 <= i < j < |entries| ==> entries[i].0 != entries[j].0)
  }

  /**
   * Re-inserting every stored (word, frequency) pair, in any order, into an
   * empty dictionary gives back the same dictionary.
   */
  lemma {:induction false} RebuildKeepsWords(acc: map<string, nat>, entries: seq<(string, nat)>, m: map<string, nat>)
    requires NormalizedKeys(m)
    requires forall i :: 0 <= i < |entries| ==> entries[i].0 in m && m[entries[i].0] == entries[i].1
    requires forall i, j :: 0 <= i < j < |entries| ==> entries[i].0 != entries[j].0
    requires forall i :: 0 <= i < |entries| ==> entries[i].0 !in acc
    requires acc.Keys + WordsIn(entries) == m.Keys
    requires forall w :: w in acc ==> w in m && acc[w] == m[w]
    ensures InsertAll(acc, entries) == m
    decreases |entries|
  {
    if entries == [] {
      assert acc.Keys == m.Keys;
    } else {
      var (w, f) := entries[0];
      assert NormalizedAt(m.Keys, w);
      var acc' := AddWord(acc, w, f);
      assert acc' == acc[w := f];
      var rest := entries[1..];
      assert WordsIn(rest) + {w} == WordsIn(entries) by {
        forall v | v in WordsIn(entries)
          ensures v in WordsIn(rest) + {w}
        {
          var i :| 0 <= i < |entries| && v == entries[i].0;
          if i > 0 { assert v == rest[i - 1].0; }
        }
      }
      RebuildKeepsWords(acc', rest, m);
    }
  }

  lemma RebuildFromEmpty(entries: seq<(string, nat)>, m: map<string, nat>)
    requires NormalizedKeys(m) && Enumerates(entries, m)
    ensures InsertAll(map[], entries) == m
  {
    var ks := WordsIn(entries);
    assert ks <= m.Keys;
    EnumeratedCard(entries, m);
    RebuildKeepsWords(map[], entries, m);
  }

  /** Distinct words drawn from `m`, as many as `m` has, are all of `m`'s words. */
  lemma EnumeratedCard(entries: seq<(string, nat)>, m: map<string, nat>)
    requires Enumerates(entries, m)
    ensures WordsIn(entries) == m.Keys
  {
    var ks := WordsIn(entries);
    DistinctCard(entries);
    assert ks <= m.Keys;
    assert m.Keys == ks + (m.Keys - ks);
    assert |m.Keys - ks| == 0;
  }

  lemma {:induction false} DistinctCard(entries: seq<(string, nat)>)
    requires forall i, j :: 0 <= i < j < |entries| ==> entries[i].0 != entries[j].0
    ensures |WordsIn(entries)| == |entries|
  {
    if entries != [] {
      var rest := entries[1..];
      DistinctCard(rest);
      var ks := WordsIn(entries);
      var rs := WordsIn(rest);
      assert ks == rs + {entries[0].0} by {
        forall v | v in ks ensures v in rs + {entries[0].0} {
          var i :| 0 <= i < |entries| && v == entries[i].0;
          if i > 0 { assert v == rest[i - 1].0; }
        }
      }
      assert entries[0].0 !in rs;
    }
  }
}
