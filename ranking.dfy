/**
 * Ranking of collected suggestions: the comparator passed to
 * `Array.prototype.sort` in `getSuggestions`, the (stable) sort itself, and
 * the truncation to `limit` entries by `slice(0, limit)`.
 *
 * `localeCompare` is modelled as plain lexicographic order on code points.
 */
module Ranking {

  /** One entry of the result of `getSuggestions`: a copy of a stored word and its frequency. */
  datatype Suggestion = Suggestion(word: string, frequency: nat)

  /** The two orders `getSuggestions` knows; any `sortBy` other than "frequency" sorts by word. */
  datatype SortBy = ByFrequency | Alphabetical

  function ModeOf(sortBy: string): SortBy
  {
    if sortBy == "frequency" then ByFrequency else Alphabetical
  }

  // ---------------------------------------------------------------------
  // Lexicographic order on words
  // ---------------------------------------------------------------------

  /** `a` sorts strictly before `b`: a proper prefix, or smaller at the first difference. */
  predicate LexLess(a: string, b: string)
  {
    if a == [] then b != []
    else b != [] && (a[0] < b[0] || (a[0] == b[0] && LexLess(a[1..], b[1..])))
  }

  predicate LexLeq(a: string, b: string)
  {
    a == b || LexLess(a, b)
  }

  lemma {:induction false} LexLessIrreflexive(a: string)
    ensures !LexLess(a, a)
  {
    if a != [] { LexLessIrreflexive(a[1..]); }
  }

  lemma {:induction false} LexLessTransitive(a: string, b: string, c: string)
    requires LexLess(a, b) && LexLess(b, c)
    ensures LexLess(a, c)
  {
    if a != [] && b != [] && c != [] && a[0] == b[0] == c[0] {
      LexLessTransitive(a[1..], b[1..], c[1..]);
    }
  }

  /** Any two different words are ordered one way round. */
  lemma {:induction false} LexLessTotal(a: string, b: string)
    requires a != b
    ensures LexLess(a, b) || LexLess(b, a)
  {
    if a != [] && b != [] && a[0] == b[0] {
      assert a == [a[0]] + a[1..] && b == [b[0]] + b[1..];
      LexLessTotal(a[1..], b[1..]);
    }
  }

  lemma {:induction false} LexLessAsymmetric(a: string, b: string)
    requires LexLess(a, b)
    ensures !LexLess(b, a)
  {
    if a != [] && b != [] && a[0] == b[0] {
      LexLessAsymmetric(a[1..], b[1..]);
    }
  }

  // ---------------------------------------------------------------------
  // The comparator
  // ---------------------------------------------------------------------

  /**
   * `a` may stay in front of `b`: the comparator returns a value <= 0.
   * By frequency that is `b.frequency - a.frequency <= 0`; by word it is
   * `a.word` not after `b.word`.
   */
  predicate Precedes(mode: SortBy, a: Suggestion, b: Suggestion)
  {
    match mode
    case ByFrequency => a.frequency >= b.frequency
    case Alphabetical => LexLeq(a.word, b.word)
  }

  lemma PrecedesTotal(mode: SortBy, a: Suggestion, b: Suggestion)
    ensures Precedes(mode, a, b) || Precedes(mode, b, a)
  {
    if mode == Alphabetical && a.word != b.word {
      LexLessTotal(a.word, b.word);
    }
  }

  lemma PrecedesTransitive(mode: SortBy, a: Suggestion, b: Suggestion, c: Suggestion)
    requires Precedes(mode, a, b) && Precedes(mode, b, c)
    ensures Precedes(mode, a, c)
  {
    if mode == Alphabetical && a.word != b.word && b.word != c.word {
      LexLessTransitive(a.word, b.word, c.word);
    }
  }

  predicate SortedBy(mode: SortBy, s: seq<Suggestion>)
  {
    forall i, j :: 0 <= i < j < |s| ==> Precedes(mode, s[i], s[j])
  }

  // ---------------------------------------------------------------------
  // The sort
  // ---------------------------------------------------------------------

  /** Put `x` in front of the first element it may precede; stable when `x` came first. */
  function InsertSorted(mode: SortBy, x: Suggestion, ys: seq<Suggestion>): seq<Suggestion>
  {
    if ys == [] || Precedes(mode, x, ys[0]) then [x] + ys
    else [ys[0]] + InsertSorted(mode, x, ys[1..])
  }

  /** A stable sort of `s` under the comparator of `mode`. */
  function Sort(mode: SortBy, s: seq<Suggestion>): seq<Suggestion>
  {
    if s == [] then [] else InsertSorted(mode, s[0], Sort(mode, s[1..]))
  }

  lemma {:induction false} InsertSortedPermutes(mode: SortBy, x: Suggestion, ys: seq<Suggestion>)
    ensures multiset(InsertSorted(mode, x, ys)) == multiset{x} + multiset(ys)
  {
    if ys != [] && !Precedes(mode, x, ys[0]) {
      InsertSortedPermutes(mode, x, ys[1..]);
      assert ys == [ys[0]] + ys[1..];
    }
  }

  lemma {:induction false} InsertSortedSorted(mode: SortBy, x: Suggestion, ys: seq<Suggestion>)
    requires SortedBy(mode, ys)
    ensures SortedBy(mode, InsertSorted(mode, x, ys))
  {
    if ys == [] || Precedes(mode, x, ys[0]) {
      var r := [x] + ys;
      forall i, j | 0 <= i < j < |r| ensures Precedes(mode, r[i], r[j]) {
        if i == 0 && j > 1 {
          PrecedesTransitive(mode, x, ys[0], ys[j - 1]);
        }
      }
    } else {
      var tail := InsertSorted(mode, x, ys[1..]);
      InsertSortedSorted(mode, x, ys[1..]);
      InsertSortedPermutes(mode, x, ys[1..]);
      PrecedesTotal(mode, x, ys[0]);
      var r := [ys[0]] + tail;
      forall j | 0 < j < |r| ensures Precedes(mode, ys[0], r[j]) {
        var z := tail[j - 1];
        assert z in multiset(tail);
        if z != x {
          assert z in multiset(ys[1..]);
          var k :| 0 <= k < |ys[1..]| && ys[1..][k] == z;
          assert ys[k + 1] == z;
        }
      }
    }
  }

  /** The sort returns its input in comparator order. */
  lemma {:induction false} SortSorted(mode: SortBy, s: seq<Suggestion>)
    ensures SortedBy(mode, Sort(mode, s))
  {
    if s != [] {
      SortSorted(mode, s[1..]);
      InsertSortedSorted(mode, s[0], Sort(mode, s[1..]));
    }
  }

  /** The sort neither loses nor invents entries. */
  lemma {:induction false} SortPermutes(mode: SortBy, s: seq<Suggestion>)
    ensures multiset(Sort(mode, s)) == multiset(s)
  {
    if s != [] {
      SortPermutes(mode, s[1..]);
      InsertSortedPermutes(mode, s[0], Sort(mode, s[1..]));
      assert s == [s[0]] + s[1..];
    }
  }

  // ---------------------------------------------------------------------
  // Listing a map of words
  // ---------------------------------------------------------------------

  function WordsOf(s: seq<Suggestion>): set<string>
  {
    set i | 0 <= i < |s| :: s[i].word
  }

  predicate DistinctWords(s: seq<Suggestion>)
  {
    forall i, j :: 0 <= i < j < |s| ==> s[i].word != s[j].word
  }

  /** Every entry of `s` is a word of `m` with its frequency. */
  predicate Agrees(s: seq<Suggestion>, m: map<string, nat>)
  {
    forall i :: 0 <= i < |s| ==> s[i].word in m && s[i].frequency == m[s[i].word]
  }

  /** `s` lists the entries of `m`, each word exactly once. */
  predicate Lists(s: seq<Suggestion>, m: map<string, nat>)
  {
    DistinctWords(s) && Agrees(s, m) && WordsOf(s) == m.Keys
  }

  lemma ListsEmpty(m: map<string, nat>)
    requires m == map[]
    ensures Lists([], m)
  {
  }

  /** Two listings of maps with disjoint words list their union. */
  lemma ListsConcat(a: seq<Suggestion>, ma: map<string, nat>, b: seq<Suggestion>, mb: map<string, nat>)
    requires Lists(a, ma) && Lists(b, mb) && ma.Keys !! mb.Keys
    ensures Lists(a + b, ma + mb)
  {
    var r := a + b;
    forall i, j | 0 <= i < j < |r| ensures r[i].word != r[j].word {
      if i < |a| && j >= |a| {
        assert r[i].word in WordsOf(a) && r[j] == b[j - |a|];
        assert r[j].word in WordsOf(b);
      }
    }
    forall i | 0 <= i < |r| ensures r[i].word in ma + mb && r[i].frequency == (ma + mb)[r[i].word] {
      if i < |a| {
        assert r[i] == a[i];
        assert a[i].word !in mb by { assert a[i].word in WordsOf(a); }
      } else {
        assert r[i] == b[i - |a|];
      }
    }
    assert WordsOf(r) == WordsOf(a) + WordsOf(b) by {
      forall w | w in WordsOf(a) ensures w in WordsOf(r) {
        var i :| 0 <= i < |a| && a[i].word == w;
        assert r[i] == a[i];
      }
      forall w | w in WordsOf(b) ensures w in WordsOf(r) {
        var i :| 0 <= i < |b| && b[i].word == w;
        assert r[|a| + i] == b[i];
      }
    }
  }

  /** A listing with the one entry of a singleton map. */
  lemma ListsSingle(x: Suggestion)
    ensures Lists([x], map[x.word := x.frequency])
  {
    assert [x][0] == x;
    assert x.word in WordsOf([x]);
  }

  /** A listing has one entry per word. */
  lemma ListsLength(s: seq<Suggestion>, m: map<string, nat>)
    requires Lists(s, m)
    ensures |s| == |m|
  {
    WordsOfCard(s);
  }

  lemma {:induction false} InsertSortedDistinct(mode: SortBy, x: Suggestion, ys: seq<Suggestion>)
    requires DistinctWords(ys) && x.word !in WordsOf(ys)
    ensures DistinctWords(InsertSorted(mode, x, ys))
    ensures WordsOf(InsertSorted(mode, x, ys)) == WordsOf(ys) + {x.word}
  {
    if ys == [] || Precedes(mode, x, ys[0]) {
      var r := [x] + ys;
      forall i, j | 0 <= i < j < |r| ensures r[i].word != r[j].word {
        if i == 0 { assert r[j] == ys[j - 1]; assert r[j].word in WordsOf(ys); }
      }
      assert WordsOf(r) == WordsOf(ys) + {x.word} by {
        assert r[0] == x && x.word in WordsOf(r);
        forall w | w in WordsOf(r) ensures w in WordsOf(ys) + {x.word} {
          var i :| 0 <= i < |r| && r[i].word == w;
          if i > 0 { assert r[i] == ys[i - 1]; }
        }
        forall w | w in WordsOf(ys) ensures w in WordsOf(r) {
          var i :| 0 <= i < |ys| && ys[i].word == w;
          assert r[i + 1] == ys[i];
        }
      }
    } else {
      var rest := ys[1..];
      assert WordsOf(ys) == WordsOf(rest) + {ys[0].word} by {
        forall w | w in WordsOf(ys) ensures w in WordsOf(rest) + {ys[0].word} {
          var i :| 0 <= i < |ys| && ys[i].word == w;
          if i > 0 { assert rest[i - 1] == ys[i]; }
        }
      }
      InsertSortedDistinct(mode, x, rest);
      var tail := InsertSorted(mode, x, rest);
      var r := [ys[0]] + tail;
      assert ys[0].word !in WordsOf(rest) by {
        forall i | 0 <= i < |rest| ensures rest[i].word != ys[0].word {
          assert rest[i] == ys[i + 1];
        }
      }
      forall i, j | 0 <= i < j < |r| ensures r[i].word != r[j].word {
        if i == 0 { assert r[j] == tail[j - 1]; assert r[j].word in WordsOf(tail); }
        else { assert r[i] == tail[i - 1] && r[j] == tail[j - 1]; }
      }
      assert WordsOf(r) == WordsOf(tail) + {ys[0].word} by {
        assert r[0] == ys[0] && ys[0].word in WordsOf(r);
        forall w | w in WordsOf(r) ensures w in WordsOf(tail) + {ys[0].word} {
          var i :| 0 <= i < |r| && r[i].word == w;
          if i > 0 { assert r[i] == tail[i - 1]; }
        }
        forall w | w in WordsOf(tail) ensures w in WordsOf(r) {
          var i :| 0 <= i < |tail| && tail[i].word == w;
          assert r[i + 1] == tail[i];
        }
      }
    }
  }

  /** Sorting a listing gives a listing of the same map. */
  lemma {:induction false} SortLists(mode: SortBy, s: seq<Suggestion>, m: map<string, nat>)
    requires Lists(s, m)
    ensures Lists(Sort(mode, s), m)
  {
    SortKeepsWords(mode, s);
    SortPermutes(mode, s);
    var r := Sort(mode, s);
    forall i | 0 <= i < |r| ensures r[i].word in m && r[i].frequency == m[r[i].word] {
      assert r[i] in multiset(s);
      var k :| 0 <= k < |s| && s[k] == r[i];
    }
  }

  lemma {:induction false} SortKeepsWords(mode: SortBy, s: seq<Suggestion>)
    requires DistinctWords(s)
    ensures DistinctWords(Sort(mode, s)) && WordsOf(Sort(mode, s)) == WordsOf(s)
  {
    if s != [] {
      var rest := s[1..];
      assert DistinctWords(rest);
      SortKeepsWords(mode, rest);
      assert s[0].word !in WordsOf(rest) by {
        forall i | 0 <= i < |rest| ensures rest[i].word != s[0].word {
          assert rest[i] == s[i + 1];
        }
      }
      InsertSortedDistinct(mode, s[0], Sort(mode, rest));
      assert WordsOf(s) == WordsOf(rest) + {s[0].word} by {
        forall w | w in WordsOf(s) ensures w in WordsOf(rest) + {s[0].word} {
          var i :| 0 <= i < |s| && s[i].word == w;
          if i > 0 { assert rest[i - 1] == s[i]; }
        }
      }
    }
  }

  // ---------------------------------------------------------------------
  // Truncation and what a ranked result promises
  // ---------------------------------------------------------------------

  /** `slice(0, limit)` for a non-negative limit. */
  function Take(s: seq<Suggestion>, limit: nat): seq<Suggestion>
  {
    if limit < |s| then s[..limit] else s
  }

  /**
   * `r` is a best-`limit` answer for the completions `m`: as long as `limit`
   * allows, distinct stored words with their frequencies, in comparator
   * order, and no omitted completion ranks strictly above a returned one.
   */
  predicate IsTopRanked(r: seq<Suggestion>, m: map<string, nat>, mode: SortBy, limit: nat)
  {
    && |r| == (if limit < |m| then limit else |m|)
    && Agrees(r, m)
    && DistinctWords(r)
    && SortedBy(mode, r)
    && (forall w, i :: w in m && w !in WordsOf(r) && 0 <= i < |r| ==> Precedes(mode, r[i], Suggestion(w, m[w])))
  }

  /** Sorting a listing and keeping its first `limit` entries gives a best-`limit` answer. */
  lemma TakeSortedIsTopRanked(mode: SortBy, s: seq<Suggestion>, m: map<string, nat>, limit: nat)
    requires Lists(s, m)
    ensures IsTopRanked(Take(Sort(mode, s), limit), m, mode, limit)
  {
    var sorted := Sort(mode, s);
    SortLists(mode, s, m);
    SortSorted(mode, s);
    ListsLength(sorted, m);
    var r := Take(sorted, limit);
    assert r == sorted[..|r|];
    forall w, i | w in m && w !in WordsOf(r) && 0 <= i < |r|
      ensures Precedes(mode, r[i], Suggestion(w, m[w]))
    {
      var j :| 0 <= j < |sorted| && sorted[j].word == w;
      forall k | 0 <= k < |r| ensures sorted[k].word != w {
        assert sorted[k] == r[k] && r[k].word in WordsOf(r);
      }
      assert sorted[j] == Suggestion(w, m[w]);
    }
    assert DistinctWords(r) by {
      forall i, j | 0 <= i < j < |r| ensures r[i].word != r[j].word {
        assert r[i] == sorted[i] && r[j] == sorted[j];
      }
    }
  }

  /** A best-`limit` answer returns every completion when `limit` is large enough. */
  lemma TopRankedIsComplete(r: seq<Suggestion>, m: map<string, nat>, mode: SortBy, limit: nat)
    requires IsTopRanked(r, m, mode, limit) && |m| <= limit
    ensures Lists(r, m)
  {
    var ks := WordsOf(r);
    assert ks <= m.Keys;
    WordsOfCard(r);
    assert m.Keys == ks + (m.Keys - ks);
  }

  lemma {:induction false} WordsOfCard(s: seq<Suggestion>)
    requires DistinctWords(s)
    ensures |WordsOf(s)| == |s|
  {
    if s != [] {
      var rest := s[1..];
      WordsOfCard(rest);
      assert WordsOf(s) == WordsOf(rest) + {s[0].word} by {
        forall w | w in WordsOf(s) ensures w in WordsOf(rest) + {s[0].word} {
          var i :| 0 <= i < |s| && s[i].word == w;
          if i > 0 { assert rest[i - 1] == s[i]; }
        }
      }
      assert s[0].word !in WordsOf(rest) by {
        forall i | 0 <= i < |rest| ensures rest[i].word != s[0].word {
          assert rest[i] == s[i + 1];
        }
      }
    }
  }

  /** In alphabetical order distinct words are strictly increasing. */
  lemma AlphabeticalIsStrict(r: seq<Suggestion>)
    requires SortedBy(Alphabetical, r) && DistinctWords(r)
    ensures forall i, j :: 0 <= i < j < |r| ==> LexLess(r[i].word, r[j].word)
  {
  }
}
