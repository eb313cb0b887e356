/**
 * The prefix tree of `src/utils/TrieDataStructure.js`: `TrieNode` objects
 * linked through per-node child maps, and the `Trie` that owns the root and
 * the count of distinct words.
 *
 * The ghost map `Nodes` names every node by the path that leads to it from
 * the root, and the ghost map `Words` is the dictionary the tree stands for
 * (each complete word with its frequency). The ghost map `Kids` records,
 * path by path, each node's child map; `Valid()` says that the nodes' fields
 * agree with it and with `Words`, and that together they form the tree of
 * `Words` (module `TrieLayout`). Every operation is specified by its effect
 * on `Words`.
 */
module PrefixTrie {
  import opened Text
  import opened Dictionary
  import opened Ranking
  import opened TrieLayout

  /** One character position on some path from the root. */
  class TrieNode {
    var children: map<char, TrieNode>
    var isEndOfWord: bool
    var frequency: nat
    /** The complete word ending here, kept on terminal nodes (`null` elsewhere). */
    var word: Option<string>

    constructor ()
      ensures children == map[] && !isEndOfWord && frequency == 0 && word == None
    {
      children := map[];
      isEndOfWord := false;
      frequency := 0;
      word := None;
    }
  }

  /** The object `getStats` fills in. */
  class Stats {
    var totalWords: nat
    var totalNodes: nat
    var maxDepth: nat

    constructor (totalWords: nat)
      ensures this.totalWords == totalWords && totalNodes == 0 && maxDepth == 0
    {
      this.totalWords := totalWords;
      totalNodes := 0;
      maxDepth := 0;
    }
  }

  class Trie {
    var root: TrieNode
    var totalWords: nat

    /** Every node, by its path from the root. */
    ghost var Nodes: map<string, TrieNode>
    /** The dictionary: each complete word with its accumulated frequency. */
    ghost var Words: map<string, nat>
    /** The path of every node: the inverse of `Nodes`. */
    ghost var Paths: map<TrieNode, string>

    /** The child map of every node, by path. */
    ghost var Kids: map<string, map<char, TrieNode>>

    /**
     * The node for `p` has the child map `Kids` records for it, and its
     * `isEndOfWord`, `frequency` and `word` fields say whether `p` is a
     * stored word, with what frequency, and which word.
     */
    ghost predicate MirroredAt(p: string)
      reads this`Nodes, this`Paths, this`Kids, this`Words
      reads Paths.Keys`children, Paths.Keys`isEndOfWord, Paths.Keys`frequency, Paths.Keys`word
    {
      p in Nodes ==>
        && Nodes[p] in Paths && p in Kids
        && Nodes[p].children == Kids[p]
        && Mark(Nodes[p].isEndOfWord, Nodes[p].frequency, Nodes[p].word) == MarkFor(Words, p)
    }

    /** The nodes form the tree of `Words` below `root`; what holds also while `insert` is half-way down its path. */
    ghost predicate Consistent()
      reads this`root, this`Nodes, this`Paths, this`Kids, this`Words
      reads Paths.Keys`children, Paths.Keys`isEndOfWord, Paths.Keys`frequency, Paths.Keys`word
    {
      && "" in Nodes && Nodes[""] == root
      && Tree(Nodes, Paths, Kids, Words)
      && forall p :: MirroredAt(p)
    }

    /**
     * The invariant of a trie between operations: besides `Consistent()`,
     * every node lies on the path of a stored word, the stored words are
     * normalised and non-empty, and `totalWords` counts them.
     */
    ghost predicate Valid()
      reads this, Paths.Keys
    {
      && Consistent()
      && Covered(Nodes, Words)
      && NormalizedKeys(Words)
      && totalWords == |Words|
    }

    /** The paths of the nodes marked as the end of a word. */
    ghost function TerminalPaths(): set<string>
      reads this`Nodes, this`Paths, Paths.Keys`isEndOfWord
    {
      set p | p in Nodes && Nodes[p] in Paths && Nodes[p].isEndOfWord
    }

    /** The paths in the subtree of the node for `p`. */
    ghost function Subtree(p: string): set<string>
      reads this`Nodes
    {
      Extensions(Nodes.Keys, p)
    }

    constructor ()
      ensures Valid() && fresh(root)
      ensures Words == map[] && Nodes == map["" := root] && Paths == map[root := ""]
    {
      var r := new TrieNode();
      root, totalWords := r, 0;
      Nodes, Paths, Kids, Words := map["" := r], map[r := ""], map["" := map[]], map[];
      new;
      EmptyTree(r);
    }

    /** The terminal nodes are exactly the stored words. */
    lemma TerminalsAreWords()
      requires Consistent()
      ensures TerminalPaths() == Words.Keys
    {
      forall p | p in Nodes ensures Nodes[p] in Paths && (Nodes[p].isEndOfWord <==> p in Words) {
        assert MirroredAt(p);
      }
    }

    /**
     * A node marked as the end of a word stores, in `word`, its own path
     * from the root, which is a normalised, non-empty word, and carries that
     * word's frequency; an unmarked node stores no word and frequency 0.
     */
    lemma NodeFields(p: string)
      requires Valid() && p in Nodes
      ensures Nodes[p].isEndOfWord <==> p in Words
      ensures Nodes[p].isEndOfWord ==> Nodes[p].word == Some(p) && Nodes[p].frequency == Words[p] && p != [] && Normalize(p) == p
      ensures !Nodes[p].isEndOfWord ==> Nodes[p].word == None && Nodes[p].frequency == 0
    {
      assert MirroredAt(p);
      assert NormalizedAt(Words.Keys, p);
    }

    /**
     * The walk from the root along `w` that `search`, `getSuggestions` and
     * `incrementFrequency` each perform: the node for `w`, or `null` as soon
     * as a character has no child, in which case no stored word starts with `w`.
     */
    method Walk(w: string) returns (node: TrieNode?)
      requires Valid()
      ensures node != null <==> w in Nodes
      ensures node != null ==> node == Nodes[w]
      ensures node == null ==> Matches(Words, w) == map[]
    {
      node := root;
      var i := 0;
      while i < |w|
        invariant 0 <= i <= |w|
        invariant w[..i] in Nodes && node == Nodes[w[..i]]
      {
        assert MirroredAt(w[..i]);
        if w[i] !in node.children {
          Blocked(Nodes, Kids, Words, w, i);
          return null;
        }
        Descend(Nodes, Kids, w, i);
        node := node.children[w[i]];
        i := i + 1;
      }
      assert w[..i] == w;
    }

    /** `search`: exact lookup of the normalised word. */
    method Search(word: string) returns (found: bool)
      requires Valid()
      ensures found <==> Normalize(word) in Words
    {
      if word == [] {
        assert NormalizedAt(Words.Keys, Normalize(word));
        return false;
      }
      var w := Normalize(word);
      var node := Walk(w);
      if node == null {
        return false;
      }
      assert MirroredAt(w);
      found := node.isEndOfWord;
    }

    /** `node.children[char] = new TrieNode()`: one new, unmarked leaf below the node for `p`. */
    method AddChild(ghost p: string, node: TrieNode, c: char) returns (child: TrieNode)
      requires Consistent() && p in Nodes && node == Nodes[p]
      requires c !in node.children && p + [c] !in Nodes
      modifies this`Nodes, this`Paths, this`Kids, node`children
      ensures Consistent() && fresh(child)
      ensures Nodes == old(Nodes)[p + [c] := child] && Paths == old(Paths)[child := p + [c]]
      ensures Kids == old(Kids)[p := old(Kids)[p][c := child]][p + [c] := map[]]
    {
      child := new TrieNode();
      ghost var q := p + [c];
      assert MirroredAt(p);
      AddLeaf(Nodes, Paths, Kids, Words, p, c, child);
      forall r | r in Nodes && r != p ensures Nodes[r] != node && Nodes[r] != child {
        assert InverseAt(Nodes, Paths, r) && InverseAt(Nodes, Paths, p);
      }
      Nodes, Paths, Kids := Nodes[q := child], Paths[child := q], Kids[p := Kids[p][c := child]][q := map[]];
      node.children := node.children[c := child];
      forall r ensures MirroredAt(r) {
        if r != p && r != q {
          assert old(MirroredAt(r));
        }
      }
    }

    /** `insert`: walks the normalised word down from the root, creating missing nodes, and marks its end. */
    method Insert(word: string, frequency: nat)
      requires Valid()
      modifies this`Nodes, this`Paths, this`Kids, this`Words, this`totalWords, Paths.Keys
      ensures Valid() && fresh(Paths.Keys - old(Paths.Keys))
      ensures Words == AddWord(old(Words), Normalize(word), frequency)
      ensures totalWords == old(totalWords) + if Normalize(word) == [] || Normalize(word) in old(Words) then 0 else 1
    {
      var w := Normalize(word);
      if |w| == 0 {
        return;
      }
      Store(w, frequency);
      AddWordEffect(old(Words), w, frequency);
      AddWordNormalized(old(Words), word, frequency);
    }

    /** The work of `insert` once the word is normalised and non-empty: the walk down `w`, then the marking of its end. */
    method Store(w: string, frequency: nat)
      requires Consistent() && Covered(Nodes, Words) && w != []
      modifies this`Nodes, this`Paths, this`Kids, this`Words, this`totalWords, Paths.Keys
      ensures Consistent() && Covered(Nodes, Words) && fresh(Paths.Keys - old(Paths.Keys))
      ensures Words == AddWord(old(Words), w, frequency)
      ensures totalWords == old(totalWords) + if w in old(Words) then 0 else 1
    {
      var node := Reach(w);
      assert InverseAt(Nodes, Paths, w);
      MarkEnd(node, w, frequency);
      CoverWord(old(Nodes), Nodes, old(Words), w, frequency);
    }

    /** The loop of `insert`: walks down `w` from the root, creating each missing node on the way. */
    method Reach(w: string) returns (node: TrieNode)
      requires Consistent() && Covered(Nodes, Words)
      modifies this`Nodes, this`Paths, this`Kids, Paths.Keys`children
      ensures Consistent() && fresh(Paths.Keys - old(Paths.Keys))
      ensures Grown(Nodes, old(Nodes), w, |w|) && SpellsUpTo(Kids, w, |w|)
      ensures w in Nodes && node == Nodes[w]
    {
      node := root;
      var i := 0;
      while i < |w|
        invariant 0 <= i <= |w|
        invariant Consistent()
        invariant Grown(Nodes, old(Nodes), w, i) && SpellsUpTo(Kids, w, i)
        invariant fresh(Paths.Keys - old(Paths.Keys))
        invariant w[..i] in Nodes && node == Nodes[w[..i]]
      {
        assert InverseAt(Nodes, Paths, w[..i]);
        node := Step(old(Nodes), node, w, i);
        i := i + 1;
      }
      assert w[..i] == w;
    }

    /**
     * One round of `insert`'s loop: the child of the node for `w[..i]` along
     * `w[i]`, created blank if missing.
     */
    method Step(ghost start: map<string, TrieNode>, node: TrieNode, w: string, i: nat) returns (next: TrieNode)
      requires Consistent() && Covered(start, Words)
      requires i < |w| && w[..i] in Nodes && node == Nodes[w[..i]]
      requires Grown(Nodes, start, w, i) && SpellsUpTo(Kids, w, i)
      modifies this`Nodes, this`Paths, this`Kids, node`children
      ensures Consistent() && fresh(Paths.Keys - old(Paths.Keys))
      ensures Grown(Nodes, start, w, i + 1) && SpellsUpTo(Kids, w, i + 1)
      ensures w[..i + 1] in Nodes && next == Nodes[w[..i + 1]]
    {
      var c := w[i];
      ghost var nodes := Nodes;
      assert MirroredAt(w[..i]);
      if c !in node.children {
        FreshStep(start, Nodes, Kids, Words, w, i);
        assert w[..i] + [c] == w[..i + 1];
        ghost var kids := Kids;
        var child := AddChild(w[..i], node, c);
        LeafGrows(kids, w[..i], c, child, w[..i + 1]);
        SpellsUpToGrow(kids, Kids, w, i);
        assert MirroredAt(w[..i]);
      }
      Descend(Nodes, Kids, w, i);
      SpellsUpToStep(Kids, w, i);
      PathStep(start, nodes, Nodes, w, i);
      next := node.children[c];
    }

    /** The end of `insert`: mark the node for `w` as a word, add `frequency`, store the word, count it if new. */
    method MarkEnd(node: TrieNode, w: string, frequency: nat)
      requires Consistent() && w != [] && w in Nodes && node == Nodes[w] && SpellsUpTo(Kids, w, |w|)
      modifies this`Words, this`totalWords, node`isEndOfWord, node`frequency, node`word
      ensures Consistent()
      ensures Words == AddWord(old(Words), w, frequency)
      ensures totalWords == old(totalWords) + if w in old(Words) then 0 else 1
    {
      MarkWord(Nodes, Paths, Kids, Words, w, frequency);
      AddWordEffect(Words, w, frequency);
      assert MirroredAt(w);
      forall r | r in Nodes && r != w ensures Nodes[r] != node {
        assert InverseAt(Nodes, Paths, r) && InverseAt(Nodes, Paths, w);
      }
      totalWords, Words, node.isEndOfWord, node.frequency, node.word
        := totalWords + (if node.isEndOfWord then 0 else 1), AddWord(Words, w, frequency), true, node.frequency + frequency, Some(w);
      forall r ensures MirroredAt(r) {
        MarkForAdd(old(Words), w, frequency, r);
        if r != w {
          assert old(MirroredAt(r));
        }
      }
    }

    /** `incrementFrequency`: one more use of the word, if it is stored; otherwise nothing changes. */
    method IncrementFrequency(word: string)
      requires Valid()
      modifies this`Words, Paths.Keys`frequency
      ensures Valid()
      ensures Words == Bump(old(Words), Normalize(word))
    {
      if word == [] {
        assert NormalizedAt(Words.Keys, Normalize(word));
        return;
      }
      var w := Normalize(word);
      var node := Walk(w);
      if node == null {
        return;
      }
      assert MirroredAt(w);
      if node.isEndOfWord {
        Learn(node, w);
        BumpEffect(old(Words), w);
      }
    }

    /** `node.frequency++` on the node of the stored word `w`. */
    method Learn(node: TrieNode, w: string)
      requires Consistent() && w in Words && w in Nodes && node == Nodes[w]
      modifies this`Words, node`frequency
      ensures Consistent()
      ensures Words == Bump(old(Words), w)
    {
      BumpEffect(Words, w);
      assert MirroredAt(w);
      forall r | r in Nodes && r != w ensures Nodes[r] != node {
        assert InverseAt(Nodes, Paths, r) && InverseAt(Nodes, Paths, w);
      }
      Words := Bump(Words, w);
      node.frequency := node.frequency + 1;
      forall r ensures MirroredAt(r) {
        if r != w {
          assert old(MirroredAt(r));
        }
      }
    }

    /**
     * `_collectWords`: appends to `results` one suggestion for every stored
     * word in the subtree of the node for `p`, children visited in an
     * unspecified order.
     */
    method CollectWords(node: TrieNode, ghost p: string, results: seq<Suggestion>) returns (out: seq<Suggestion>)
      requires Consistent() && p in Nodes && node == Nodes[p]
      ensures |results| <= |out| && out[..|results|] == results
      ensures Lists(out[|results|..], Matches(Words, p))
      decreases Subtree(p)
    {
      out := results;
      assert MirroredAt(p);
      if node.isEndOfWord {
        out := out + [Suggestion(node.word.value, node.frequency)];
      }
      CollectStart(Words, p, results, out);
      var keys := node.children.Keys;
      ghost var done: set<char> := {};
      while keys != {}
        invariant node.children == Kids[p]
        invariant done <= Kids[p].Keys && keys == Kids[p].Keys - done
        invariant |results| <= |out| && out[..|results|] == results
        invariant Lists(out[|results|..], Own(Words, p) + MatchesVia(Words, p, done))
        decreases |keys|
      {
        var c :| c in keys;
        ChildOf(Nodes, Kids, p, c);
        ExtensionsShrink(Nodes.Keys, p, c);
        var before := out;
        out := CollectWords(node.children[c], p + [c], out);
        CollectStep(Words, p, done, c, results, before, out);
        Drain(Kids[p].Keys, keys, done, c);
        keys := keys - {c};
        done := done + {c};
      }
      Drained(Kids[p].Keys, keys, done);
      ChildrenCover(Kids, Words, p);
      MatchesSplit(Words, p, done);
    }

    /**
     * `getSuggestions`: the stored words that start with the normalised
     * prefix, sorted by `sortBy` and cut to `limit`; nothing for a blank
     * prefix.
     */
    method GetSuggestions(prefix: string, limit: nat, sortBy: string) returns (r: seq<Suggestion>)
      requires Valid()
      ensures Normalize(prefix) == [] ==> r == []
      ensures Normalize(prefix) != [] ==> IsTopRanked(r, Matches(Words, Normalize(prefix)), ModeOf(sortBy), limit)
    {
      if prefix == [] {
        return [];
      }
      var p := Normalize(prefix);
      if |p| == 0 {
        return [];
      }
      var node := Walk(p);
      var suggestions: seq<Suggestion> := [];
      if node == null {
        ListsEmpty(Matches(Words, p));
      } else {
        suggestions := CollectWords(node, p, []);
      }
      var mode := ModeOf(sortBy);
      TakeSortedIsTopRanked(mode, suggestions, Matches(Words, p), limit);
      r := Take(Sort(mode, suggestions), limit);
    }

    /** `getWordCount`: the number of distinct stored words. */
    method GetWordCount() returns (n: nat)
      requires Valid()
      ensures n == |Words| && n == |TerminalPaths()|
    {
      TerminalsAreWords();
      return totalWords;
    }

    /** The recursive `countNodes` of `getStats`: visits the subtree of the node for `p`, counting nodes and the deepest level. */
    method CountNodes(stats: Stats, node: TrieNode, depth: nat, ghost p: string)
      requires Consistent() && Covered(Nodes, Words) && p in Nodes && node == Nodes[p] && depth == |p|
      modifies stats
      ensures Consistent()
      ensures stats.totalWords == old(stats.totalWords)
      ensures stats.totalNodes == old(stats.totalNodes) + |Subtree(p)|
      ensures Deepest(Subtree(p), old(stats.maxDepth), stats.maxDepth)
      decreases Subtree(p)
    {
      assert MirroredAt(p);
      stats.totalNodes := stats.totalNodes + 1;
      stats.maxDepth := if stats.maxDepth >= depth then stats.maxDepth else depth;
      ghost var base := stats.maxDepth;
      var keys := node.children.Keys;
      ghost var done: set<char> := {};
      assert ExtensionsVia(Nodes.Keys, p, done) == {};
      while keys != {}
        invariant Consistent() && Covered(Nodes, Words) && node.children == Kids[p]
        invariant done <= Kids[p].Keys && keys == Kids[p].Keys - done
        invariant stats.totalWords == old(stats.totalWords)
        invariant stats.totalNodes == old(stats.totalNodes) + 1 + |ExtensionsVia(Nodes.Keys, p, done)|
        invariant Deepest(ExtensionsVia(Nodes.Keys, p, done), base, stats.maxDepth)
        decreases |keys|
      {
        var c :| c in keys;
        ChildOf(Nodes, Kids, p, c);
        ExtensionsShrink(Nodes.Keys, p, c);
        ghost var d := stats.maxDepth;
        CountNodes(stats, node.children[c], depth + 1, p + [c]);
        ExtensionsViaAdd(Nodes.Keys, p, done, c);
        DeepestUnion(ExtensionsVia(Nodes.Keys, p, done), Extensions(Nodes.Keys, p + [c]), base, d, stats.maxDepth);
        Drain(Kids[p].Keys, keys, done, c);
        keys := keys - {c};
        done := done + {c};
      }
      Drained(Kids[p].Keys, keys, done);
      ChildrenCoverPaths(Nodes, Kids, Words, p);
      ExtensionsSplit(Nodes.Keys, p, done);
      DeepestTop(p, ExtensionsVia(Nodes.Keys, p, done), old(stats.maxDepth), stats.maxDepth);
    }

    /** `getStats`: the word count, the node count and the depth of the deepest node. */
    method GetStats() returns (stats: Stats)
      requires Valid()
      ensures fresh(stats)
      ensures stats.totalWords == |Words|
      ensures stats.totalNodes == 1 + |Prefixes(Words.Keys)|
      ensures IsLongest(Words.Keys, stats.maxDepth)
    {
      stats := new Stats(totalWords);
      CountNodes(stats, root, 0, []);
      ExtensionsOfRoot(Nodes.Keys);
      NodeCount(Nodes, Words);
      DeepestNode(Nodes, Words, stats.maxDepth);
    }

    /** `clear`: a fresh root and no words. */
    method Clear()
      modifies this
      ensures Valid() && fresh(root)
      ensures Words == map[] && Nodes == map["" := root]
    {
      var r := new TrieNode();
      root, totalWords := r, 0;
      Nodes, Paths, Kids, Words := map["" := r], map[r := ""], map["" := map[]], map[];
      EmptyTree(r);
    }
  }

  /** Appending in two steps: what follows `results` is what the first step added, then what the second added. */
  lemma AppendedTwice<T>(results: seq<T>, before: seq<T>, out: seq<T>)
    requires |results| <= |before| <= |out| && before[..|results|] == results && out[..|before|] == before
    ensures out[..|results|] == results
    ensures out[|results|..] == before[|results|..] + out[|before|..]
  {
    assert out[..|results|] == out[..|before|][..|results|];
  }

  /** Taking `c` from the keys still to visit and adding it to those visited keeps the two apart and together complete. */
  lemma Drain<T>(all: set<T>, keys: set<T>, done: set<T>, c: T)
    requires done <= all && keys == all - done && c in keys
    ensures done + {c} <= all && keys - {c} == all - (done + {c}) && |keys - {c}| < |keys|
  {
  }

  /** All keys visited: the visited ones are all of them. */
  lemma Drained<T>(all: set<T>, keys: set<T>, done: set<T>)
    requires done <= all && keys == all - done && keys == {}
    ensures done == all
  {
    forall x | x in all ensures x in done {
      assert x !in keys;
    }
  }

  /** `_collectWords` before its loop: `results` followed by the node's own entry, if it ends a word. */
  lemma CollectStart(words: map<string, nat>, p: string, results: seq<Suggestion>, out: seq<Suggestion>)
    requires out == results + if p in words then [Suggestion(p, words[p])] else []
    ensures |results| <= |out| && out[..|results|] == results
    ensures Lists(out[|results|..], Own(words, p) + MatchesVia(words, p, {}))
  {
    assert MatchesVia(words, p, {}) == map[];
    assert out[..|results|] == results;
    if p in words {
      assert out[|results|..] == [Suggestion(p, words[p])];
      ListsSingle(Suggestion(p, words[p]));
    } else {
      assert out[|results|..] == [];
      ListsEmpty(Own(words, p));
    }
  }

  /** One more child `c` collected: its completions follow the entries gathered so far. */
  lemma CollectStep(words: map<string, nat>, p: string, done: set<char>, c: char,
                    results: seq<Suggestion>, before: seq<Suggestion>, out: seq<Suggestion>)
    requires c !in done
    requires |results| <= |before| && before[..|results|] == results
    requires Lists(before[|results|..], Own(words, p) + MatchesVia(words, p, done))
    requires |before| <= |out| && out[..|before|] == before
    requires Lists(out[|before|..], Matches(words, p + [c]))
    ensures |results| <= |out| && out[..|results|] == results
    ensures Lists(out[|results|..], Own(words, p) + MatchesVia(words, p, done + {c}))
  {
    MatchesViaAdd(words, p, done, c);
    AppendedTwice(results, before, out);
    ListsConcat(before[|results|..], Own(words, p) + MatchesVia(words, p, done), out[|before|..], Matches(words, p + [c]));
  }
}
