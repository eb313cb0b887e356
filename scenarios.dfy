/**
 * A few concrete runs of the trie on entries of `DEFAULT_DICTIONARY`
 * (`src/utils/TrieDataStructure.js`), each stating the outcome the
 * general contracts force. The facts about the literal words are proved
 * apart, in one lemma per run, so that each run only chains calls.
 */
module Scenarios {
  import opened Text
  import opened Dictionary
  import opened Ranking
  import opened PrefixTrie

  /** A lower-case word without surrounding white space is stored as it is. */
  lemma Plain(s: string)
    requires IsLower(s) && Unpadded(s)
    ensures Normalize(s) == s
  {
    LowerOfLower(s);
    TrimOfUnpadded(s);
  }

  /**
   * A new trie seeded with `entries` in order, as the application seeds
   * its trie with `DEFAULT_DICTIONARY` (`src/App.js`).
   */
  method Seed(entries: seq<(string, nat)>) returns (t: Trie)
    ensures fresh(t) && fresh(t.Paths.Keys) && t.Valid() && t.Words == InsertAll(map[], entries)
  {
    t := new Trie();
    var i := 0;
    while i < |entries|
      invariant 0 <= i <= |entries|
      invariant fresh(t.Paths.Keys) && t.Valid()
      invariant InsertAll(t.Words, entries[i..]) == InsertAll(map[], entries)
    {
      InsertAllStep(t.Words, entries, i);
      t.Insert(entries[i].0, entries[i].1);
      i := i + 1;
    }
  }

  /** The only best ranking of a one-word map is that word. */
  lemma RankedSingle(r: seq<Suggestion>, w: string, f: nat, mode: SortBy, limit: nat)
    requires IsTopRanked(r, map[w := f], mode, limit) && limit >= 1
    ensures r == [Suggestion(w, f)]
  {
    assert |map[w := f]| == 1 by {
      assert map[w := f].Keys == {w};
    }
    assert r[0].word in map[w := f];
  }

  // ---------------------------------------------------------------------
  // A duplicate seed entry
  // ---------------------------------------------------------------------

  /** 'algorithm' with 90 and then with 76 is one word with 166, its own only completion. */
  lemma AlgorithmTwice(m: map<string, nat>)
    requires m == InsertAll(map[], [("algorithm", 90), ("algorithm", 76)])
    ensures Normalize("algorithm") == "algorithm"
    ensures Matches(m, "algorithm") == map["algorithm" := 166] && |m| == 1
  {
    Plain("algorithm");
    assert m == map["algorithm" := 166];
    assert IsPrefix("algorithm", "algorithm");
    assert m.Keys == {"algorithm"};
  }

  /**
   * `DEFAULT_DICTIONARY` lists 'algorithm' twice, with 90 and with 76:
   * seeding keeps one word, counted once, with the frequencies summed.
   */
  method DuplicateSeedEntry() returns (count: nat, offered: seq<Suggestion>)
    ensures count == 1 && offered == [Suggestion("algorithm", 166)]
  {
    var t := Seed([("algorithm", 90), ("algorithm", 76)]);
    AlgorithmTwice(t.Words);
    count := t.GetWordCount();
    offered := t.GetSuggestions("algorithm", 10, "frequency");
    RankedSingle(offered, "algorithm", 166, ByFrequency, 10);
  }

  // ---------------------------------------------------------------------
  // Search
  // ---------------------------------------------------------------------

  /** " Java " is a case and padding variant of the stored 'java'; 'javas' is not stored. */
  lemma JavaVariants(m: map<string, nat>)
    requires m == InsertAll(map[], [("java", 120)])
    ensures Normalize(" Java ") in m && Normalize("javas") !in m
  {
    Plain("java");
    Plain("javas");
    assert m == map["java" := 120];
    assert Lower("Java") == Lower("java");
    assert AllSpace(" ");
    NormalizeIgnoresCaseAndPadding("java", " ", "Java", " ");
    assert " " + "Java" + " " == " Java ";
  }

  /** A search ignores letter case and surrounding blanks: " Java " finds the stored 'java'. */
  method SearchPadded() returns (found: bool, missing: bool)
    ensures found && !missing
  {
    var t := Seed([("java", 120)]);
    JavaVariants(t.Words);
    found := t.Search(" Java ");
    missing := t.Search("javas");
  }

  // ---------------------------------------------------------------------
  // Suggestions
  // ---------------------------------------------------------------------

  /** 'javascript' and 'java' both complete "Ja". */
  lemma JavaPair(m: map<string, nat>)
    requires m == InsertAll(map[], [("javascript", 150), ("java", 120)])
    ensures Normalize("Ja") == "ja"
    ensures Matches(m, "ja") == map["javascript" := 150, "java" := 120]
  {
    Plain("javascript");
    Plain("java");
    assert Lower("Ja") == "ja";
    Plain("ja");
    assert m == map["javascript" := 150, "java" := 120];
    assert IsPrefix("ja", "javascript") && IsPrefix("ja", "java");
  }

  /**
   * With 'javascript' (150) and 'java' (120) stored, the prefix "Ja" offers
   * both, most frequent first.
   */
  method JavaSuggestions() returns (both: seq<Suggestion>)
    ensures both == [Suggestion("javascript", 150), Suggestion("java", 120)]
  {
    var t := Seed([("javascript", 150), ("java", 120)]);
    JavaPair(t.Words);
    both := t.GetSuggestions("Ja", 10, "frequency");
    RankedPair(both, 10);
  }

  /** With the same two words and a limit of one, "Ja" offers only 'javascript'. */
  method JavaTopSuggestion() returns (top: seq<Suggestion>)
    ensures top == [Suggestion("javascript", 150)]
  {
    var t := Seed([("javascript", 150), ("java", 120)]);
    JavaPair(t.Words);
    top := t.GetSuggestions("Ja", 1, "frequency");
    RankedFirst(top);
  }

  /** The two entries, best first, are the only best-two ranking by frequency. */
  lemma RankedPair(r: seq<Suggestion>, limit: nat)
    requires limit >= 2
    requires IsTopRanked(r, map["javascript" := 150, "java" := 120], ByFrequency, limit)
    ensures r == [Suggestion("javascript", 150), Suggestion("java", 120)]
  {
    var m := map["javascript" := 150, "java" := 120];
    assert |m| == 2 by {
      assert m.Keys == {"javascript", "java"};
    }
    assert Precedes(ByFrequency, r[0], r[1]);
    assert r[0].word in m && r[1].word in m && r[0].word != r[1].word;
  }

  /** The best single entry by frequency is 'javascript'. */
  lemma RankedFirst(r: seq<Suggestion>)
    requires IsTopRanked(r, map["javascript" := 150, "java" := 120], ByFrequency, 1)
    ensures r == [Suggestion("javascript", 150)]
  {
    var m := map["javascript" := 150, "java" := 120];
    assert |m| == 2 by {
      assert m.Keys == {"javascript", "java"};
    }
    assert r[0].word in m && "javascript" in m;
  }

  // ---------------------------------------------------------------------
  // Learning
  // ---------------------------------------------------------------------

  /** Learning 'missing' leaves 'java' alone, learning "JAVA" raises it by one. */
  lemma LearningWords(m: map<string, nat>)
    requires m == InsertAll(map[], [("java", 120)])
    ensures Normalize("java") == "java"
    ensures Matches(Bump(m, Normalize("missing")), "java") == map["java" := 120]
    ensures Matches(Bump(m, Normalize("JAVA")), "java") == map["java" := 121]
  {
    Plain("java");
    Plain("missing");
    assert Lower("JAVA") == "java";
    assert m == map["java" := 120];
    assert IsPrefix("java", "java");
  }

  /** Learning a word that is not stored changes nothing. */
  method LearnMissing() returns (kept: seq<Suggestion>)
    ensures kept == [Suggestion("java", 120)]
  {
    var t := Seed([("java", 120)]);
    LearningWords(t.Words);
    t.IncrementFrequency("missing");
    kept := t.GetSuggestions("java", 5, "frequency");
    RankedSingle(kept, "java", 120, ByFrequency, 5);
  }

  /** Learning a stored word, in any letter case, adds one to its frequency. */
  method LearnAnyCase() returns (learned: seq<Suggestion>)
    ensures learned == [Suggestion("java", 121)]
  {
    var t := Seed([("java", 120)]);
    LearningWords(t.Words);
    t.IncrementFrequency("JAVA");
    learned := t.GetSuggestions("java", 5, "frequency");
    RankedSingle(learned, "java", 121, ByFrequency, 5);
  }

  // ---------------------------------------------------------------------
  // Statistics
  // ---------------------------------------------------------------------

  /** The non-empty prefixes of 'at' and 'as' are 'a' and the two words. */
  lemma PrefixesOfTwo()
    ensures Prefixes({"at", "as"}) == {"a", "at", "as"}
  {
    var ws: set<string> := {"at", "as"};
    forall q | q in Prefixes(ws) ensures q in {"a", "at", "as"} {
      var w, i :| w in ws && 0 < i <= |w| && q == w[..i];
      if i == 1 {
        assert q == [w[0]] == "a";
      } else {
        assert q == w;
      }
    }
    assert "at"[..1] == "a" && "at"[..2] == "at" && "as"[..2] == "as";
    assert "a" in Prefixes(ws) && "at" in Prefixes(ws) && "as" in Prefixes(ws);
  }

  /** Seeding 'at' and then 'as' stores exactly those two words. */
  lemma TwoWordsStored(m: map<string, nat>)
    requires m == InsertAll(map[], [("at", 86), ("as", 83)])
    ensures m.Keys == {"at", "as"}
  {
    Plain("at");
    Plain("as");
    assert m == map["at" := 86, "as" := 83];
  }

  /** The longest of 'at' and 'as' has length two. */
  lemma LongestOfTwo()
    ensures forall d :: IsLongest({"at", "as"}, d) ==> d == 2
  {
    forall d | IsLongest({"at", "as"}, d) ensures d == 2 {
      assert "at" in {"at", "as"};
    }
  }

  /** 'at' and 'as' are two words, with three non-empty prefixes, the longest of length two. */
  lemma TwoWords(m: map<string, nat>)
    requires m.Keys == {"at", "as"}
    ensures |m| == 2 && |Prefixes(m.Keys)| == 3
    ensures forall d :: IsLongest(m.Keys, d) ==> d == 2
  {
    PrefixesOfTwo();
    LongestOfTwo();
    assert |m.Keys| == 2;
    assert |{"a", "at", "as"}| == 3;
  }

  /** 'at' and 'as' share the node for "a": two words, four nodes with the root, depth two. */
  method StatsOfTwoWords() returns (words: nat, nodes: nat, depth: nat)
    ensures words == 2 && nodes == 4 && depth == 2
  {
    var t := Seed([("at", 86), ("as", 83)]);
    TwoWordsStored(t.Words);
    TwoWords(t.Words);
    var stats := t.GetStats();
    words, nodes, depth := stats.totalWords, stats.totalNodes, stats.maxDepth;
  }

  /** No word: no prefix, and nothing longer than zero. */
  lemma NoWords(m: map<string, nat>)
    requires m == map[]
    ensures |m| == 0 && |Prefixes(m.Keys)| == 0 && forall d :: IsLongest(m.Keys, d) ==> d == 0
  {
    assert Prefixes(m.Keys) == {};
  }

  /** After `clear`, statistics show no word, the root alone and depth zero. */
  method ClearedStats() returns (words: nat, nodes: nat, depth: nat)
    ensures words == 0 && nodes == 1 && depth == 0
  {
    var t := Seed([("python", 180)]);
    t.Clear();
    NoWords(t.Words);
    var stats := t.GetStats();
    words, nodes, depth := stats.totalWords, stats.totalNodes, stats.maxDepth;
  }
}
