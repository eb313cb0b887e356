/**
 * The shape of a trie, stated on values.
 *
 * A trie is seen through maps indexed by the path from the root: `nodes`
 * gives the node object for each path, `paths` takes each node back to its
 * path and `kids` gives the node's child map. The predicates below say when
 * those maps form the prefix tree of a dictionary `words`, and the lemmas
 * say how each in-place step of the trie (a new leaf, a marked end node)
 * keeps them so. Nothing here reads the heap: the class in module `PrefixTrie` takes
 * snapshots of its nodes and hands them to these lemmas.
 *
 * Each predicate that quantifies over paths names its body as a separate
 * `...At` predicate; a proof states the instance it needs, path by path.
 */
module TrieLayout {
  import opened Dictionary

  datatype Option<T> = None | Some(value: T)

  /** The per-node fields `isEndOfWord`, `frequency` and `word`. */
  datatype Mark = Mark(isEndOfWord: bool, frequency: nat, word: Option<string>)

  /** A freshly constructed node: not the end of a word, frequency 0, no word. */
  const Blank := Mark(false, 0, None)

  /** The fields the node for path `p` carries when the dictionary is `words`. */
  function MarkFor(words: map<string, nat>, p: string): Mark
  {
    if p in words then Mark(true, words[p], Some(p)) else Blank
  }

  /** Storing `w` changes the mark of `w` alone: it becomes a word with the added frequency. */
  lemma MarkForAdd(words: map<string, nat>, w: string, frequency: nat, p: string)
    requires w != []
    ensures MarkFor(AddWord(words, w, frequency), p)
         == if p == w then Mark(true, FrequencyOf(words, w) + frequency, Some(w)) else MarkFor(words, p)
  {
    AddWordEffect(words, w, frequency);
  }

  /** `paths` maps every node back to its path, so no object stands for two paths. */
  ghost predicate Inverse<N>(nodes: map<string, N>, paths: map<N, string>)
  {
    forall p :: InverseAt(nodes, paths, p)
  }

  ghost predicate InverseAt<N>(nodes: map<string, N>, paths: map<N, string>, p: string)
  {
    p in nodes ==> nodes[p] in paths && paths[nodes[p]] == p
  }

  /** Each child entry `c` of the node for `p` is the node for `p + [c]`. */
  ghost predicate Linked<N>(nodes: map<string, N>, kids: map<string, map<char, N>>)
  {
    && kids.Keys == nodes.Keys
    && forall p, c :: LinkedAt(nodes, kids, p, c)
  }

  ghost predicate LinkedAt<N>(nodes: map<string, N>, kids: map<string, map<char, N>>, p: string, c: char)
  {
    p in kids && c in kids[p] ==> p + [c] in nodes && kids[p][c] == nodes[p + [c]]
  }

  /** The edge for `w[i]` leaves the node for `w[..i]`. */
  ghost predicate StepAt<N>(kids: map<string, map<char, N>>, w: string, i: int)
  {
    0 <= i < |w| ==> w[..i] in kids && w[i] in kids[w[..i]]
  }

  /** The edges along every word in `ws` exist. */
  ghost predicate Spells<N>(kids: map<string, map<char, N>>, ws: set<string>)
  {
    forall w, i :: w in ws ==> StepAt(kids, w, i)
  }

  /** The edges along the first `n` characters of `w` exist. */
  ghost predicate SpellsUpTo<N>(kids: map<string, map<char, N>>, w: string, n: nat)
  {
    forall k :: 0 <= k < n ==> StepAt(kids, w, k)
  }

  /** The maps form a tree rooted at the empty path that spells every word of `words`. */
  ghost predicate Tree<N>(nodes: map<string, N>, paths: map<N, string>, kids: map<string, map<char, N>>, words: map<string, nat>)
  {
    && "" in nodes
    && Inverse(nodes, paths)
    && Linked(nodes, kids)
    && words.Keys <= nodes.Keys
    && Spells(kids, words.Keys)
  }

  /** Every node other than the root lies on the path of a stored word. */
  ghost predicate Covered<N>(nodes: map<string, N>, words: map<string, nat>)
  {
    forall q :: CoveredAt(nodes, words.Keys, q)
  }

  ghost predicate CoveredAt<N>(nodes: map<string, N>, ws: set<string>, q: string)
  {
    q in nodes <==> q == [] || q in Prefixes(ws)
  }

  /** The trie of the empty dictionary: the root alone. */
  lemma EmptyTree<N>(n: N)
    ensures Tree(map["" := n], map[n := ""], map["" := map[]], map[])
    ensures Covered(map["" := n], map[])
  {
  }

  /** Stepping down the edge `w[i]` from the node for `w[..i]` reaches the node for `w[..i + 1]`. */
  lemma Descend<N>(nodes: map<string, N>, kids: map<string, map<char, N>>, w: string, i: nat)
    requires Linked(nodes, kids) && i < |w| && w[..i] in kids && w[i] in kids[w[..i]]
    ensures w[..i + 1] in nodes && kids[w[..i]][w[i]] == nodes[w[..i + 1]]
  {
    assert LinkedAt(nodes, kids, w[..i], w[i]);
    assert w[..i] + [w[i]] == w[..i + 1];
  }

  /** The child of the node for `p` along `c` is the node for `p + [c]`. */
  lemma ChildOf<N>(nodes: map<string, N>, kids: map<string, map<char, N>>, p: string, c: char)
    requires Linked(nodes, kids) && p in kids && c in kids[p]
    ensures p + [c] in nodes && kids[p][c] == nodes[p + [c]]
  {
    assert LinkedAt(nodes, kids, p, c);
  }

  /** Along any non-empty prefix of a stored word, every edge exists. */
  lemma OnWordPath<N>(kids: map<string, map<char, N>>, words: map<string, nat>, q: string, j: nat)
    requires Spells(kids, words.Keys) && j < |q|
    ensures q in Prefixes(words.Keys) ==> q[..j] in kids && q[j] in kids[q[..j]]
  {
    if q in Prefixes(words.Keys) {
      var w := PrefixBelongs(words.Keys, q);
      assert q == w[..|q|];
      assert q[..j] == w[..j] && q[j] == w[j];
      assert StepAt(kids, w, j);
    }
  }

  /** A walk that finds no child for `w[i]` proves that `w` names no node, hence no stored word starts with `w`. */
  lemma Blocked<N>(nodes: map<string, N>, kids: map<string, map<char, N>>, words: map<string, nat>, w: string, i: nat)
    requires Spells(kids, words.Keys) && Covered(nodes, words)
    requires i < |w| && w[..i] in kids && w[i] !in kids[w[..i]]
    ensures w !in nodes && Matches(words, w) == map[]
  {
    forall u | u in words && IsPrefix(w, u) ensures w in Prefixes(words.Keys) {
      assert u[..|w|] == w;
    }
    OnWordPath(kids, words, w, i);
    assert CoveredAt(nodes, words.Keys, w);
  }

  /** The words below the node for `p` all continue with the character of one of its children. */
  lemma ChildrenCover<N>(kids: map<string, map<char, N>>, words: map<string, nat>, p: string)
    requires Spells(kids, words.Keys) && p in kids
    ensures forall w :: w in words && |w| > |p| && w[..|p|] == p ==> w[|p|] in kids[p]
  {
    forall w | w in words && |w| > |p| && w[..|p|] == p ensures w[|p|] in kids[p] {
      assert StepAt(kids, w, |p|);
    }
  }

  /** The node paths below `p` all continue with the character of one of its children. */
  lemma ChildrenCoverPaths<N>(nodes: map<string, N>, kids: map<string, map<char, N>>, words: map<string, nat>, p: string)
    requires Spells(kids, words.Keys) && Covered(nodes, words) && p in kids
    ensures forall q :: q in nodes && |q| > |p| && q[..|p|] == p ==> q[|p|] in kids[p]
  {
    forall q | q in nodes && |q| > |p| && q[..|p|] == p ensures q[|p|] in kids[p] {
      assert CoveredAt(nodes, words.Keys, q);
      OnWordPath(kids, words, q, |p|);
    }
  }

  /** The nodes are those of `start` plus the first `i` non-empty prefixes of `w`. */
  ghost predicate Grown<N>(nodes: map<string, N>, start: map<string, N>, w: string, i: nat)
  {
    forall q :: GrownAt(nodes, start, w, i, q)
  }

  ghost predicate GrownAt<N>(nodes: map<string, N>, start: map<string, N>, w: string, i: nat, q: string)
  {
    q in nodes <==> q in start || (0 < |q| <= i && IsPrefix(q, w))
  }

  /**
   * While `insert` walks down `w`, the nodes are the old ones plus the
   * first `i` prefixes of `w`; a missing child at step `i` then means that
   * the node for `w[..i + 1]` does not exist yet.
   */
  lemma FreshStep<N>(start: map<string, N>, nodes: map<string, N>, kids: map<string, map<char, N>>,
                     words: map<string, nat>, w: string, i: nat)
    requires Spells(kids, words.Keys) && Covered(start, words) && Grown(nodes, start, w, i)
    requires i < |w| && w[..i] in kids && w[i] !in kids[w[..i]]
    ensures w[..i + 1] !in nodes
  {
    var q := w[..i + 1];
    assert q[..i] == w[..i] && q[i] == w[i];
    OnWordPath(kids, words, q, i);
    assert CoveredAt(start, words.Keys, q);
    assert GrownAt(nodes, start, w, i, q);
  }

  /** The nodes after `insert` has walked one step further down `w`, with or without a new node. */
  lemma PathStep<N>(start: map<string, N>, nodes: map<string, N>, nodes': map<string, N>, w: string, i: nat)
    requires Grown(nodes, start, w, i) && i < |w|
    requires nodes'.Keys == nodes.Keys + {w[..i + 1]} || (nodes' == nodes && w[..i + 1] in nodes)
    ensures Grown(nodes', start, w, i + 1)
  {
    var j := i + 1;
    forall q ensures GrownAt(nodes', start, w, j, q) {
      assert GrownAt(nodes, start, w, i, q);
      if |q| == i + 1 && IsPrefix(q, w) {
        assert q == w[..i + 1];
      }
    }
  }

  /** Once `insert` has created the nodes along `w`, every node lies on the path of a word again. */
  lemma CoverWord<N>(start: map<string, N>, nodes: map<string, N>, words: map<string, nat>, w: string, frequency: nat)
    requires Covered(start, words) && Grown(nodes, start, w, |w|) && w != []
    ensures Covered(nodes, AddWord(words, w, frequency))
  {
    AddWordEffect(words, w, frequency);
    PrefixesAdd(words.Keys, w);
    var ws := AddWord(words, w, frequency).Keys;
    forall q ensures CoveredAt(nodes, ws, q) {
      assert CoveredAt(start, words.Keys, q);
      assert GrownAt(nodes, start, w, |w|, q);
      if 0 < |q| <= |w| && IsPrefix(q, w) {
        assert q in PathOf(w, |w|);
      }
    }
  }

  /** A new object under a new path keeps the paths apart. */
  lemma InverseAdd<N>(nodes: map<string, N>, paths: map<N, string>, q: string, n: N)
    requires Inverse(nodes, paths) && n !in paths
    ensures Inverse(nodes[q := n], paths[n := q])
  {
    var nodes', paths' := nodes[q := n], paths[n := q];
    forall p ensures InverseAt(nodes', paths', p) {
      assert InverseAt(nodes, paths, p);
    }
  }

  /** A new leaf `n` under the node for `p`, reached by `c`, keeps every child entry pointing at the right node. */
  lemma LinkedAdd<N>(nodes: map<string, N>, kids: map<string, map<char, N>>, p: string, c: char, n: N)
    requires Linked(nodes, kids) && p in nodes && p + [c] !in nodes
    ensures Linked(nodes[p + [c] := n], kids[p := kids[p][c := n]][p + [c] := map[]])
  {
    var q := p + [c];
    var nodes' := nodes[q := n];
    var kids' := kids[p := kids[p][c := n]][q := map[]];
    assert q != p;
    forall a, d ensures LinkedAt(nodes', kids', a, d) {
      if a != q && !(a == p && d == c) {
        assert LinkedAt(nodes, kids, a, d);
      }
    }
  }

  /** Every node of `kids` is still there in `kids'`, with at least the same children. */
  ghost predicate Grows<N>(kids: map<string, map<char, N>>, kids': map<string, map<char, N>>)
  {
    forall p :: GrowsAt(kids, kids', p)
  }

  ghost predicate GrowsAt<N>(kids: map<string, map<char, N>>, kids': map<string, map<char, N>>, p: string)
  {
    p in kids ==> p in kids' && kids[p].Keys <= kids'[p].Keys
  }

  /** A new leaf `n` for the path `q`, hung from the node for `p`, only adds. */
  lemma LeafGrows<N>(kids: map<string, map<char, N>>, p: string, c: char, n: N, q: string)
    requires p in kids && q !in kids
    ensures Grows(kids, kids[p := kids[p][c := n]][q := map[]])
  {
  }

  /** Child entries only ever get added, so a path spelled before is still spelled. */
  lemma SpellsUpToGrow<N>(kids: map<string, map<char, N>>, kids': map<string, map<char, N>>, w: string, n: nat)
    requires SpellsUpTo(kids, w, n) && Grows(kids, kids')
    ensures SpellsUpTo(kids', w, n)
  {
    forall k | 0 <= k < n ensures StepAt(kids', w, k) {
      assert StepAt(kids, w, k);
      if k < |w| {
        assert GrowsAt(kids, kids', w[..k]);
      }
    }
  }

  /** One more edge along `w` extends the spelled part by one character. */
  lemma SpellsUpToStep<N>(kids: map<string, map<char, N>>, w: string, i: nat)
    requires SpellsUpTo(kids, w, i) && i < |w| && w[..i] in kids && w[i] in kids[w[..i]]
    ensures SpellsUpTo(kids, w, i + 1)
  {
    forall k | 0 <= k < i + 1 ensures StepAt(kids, w, k) {
      if k < i {
        assert StepAt(kids, w, k);
      }
    }
  }

  /** Child entries only ever get added, so the words spelled before are still spelled. */
  lemma SpellsGrow<N>(kids: map<string, map<char, N>>, kids': map<string, map<char, N>>, ws: set<string>)
    requires Spells(kids, ws) && Grows(kids, kids')
    ensures Spells(kids', ws)
  {
    forall w, i | w in ws ensures StepAt(kids', w, i) {
      assert StepAt(kids, w, i);
      if 0 <= i < |w| {
        assert GrowsAt(kids, kids', w[..i]);
      }
    }
  }

  /** `node.children[c] = new TrieNode()`: a blank leaf under the node for `p` keeps the tree a tree. */
  lemma AddLeaf<N>(nodes: map<string, N>, paths: map<N, string>, kids: map<string, map<char, N>>,
                   words: map<string, nat>, p: string, c: char, n: N)
    requires Tree(nodes, paths, kids, words)
    requires p in nodes && c !in kids[p] && p + [c] !in nodes && n !in paths
    ensures Tree(nodes[p + [c] := n], paths[n := p + [c]], kids[p := kids[p][c := n]][p + [c] := map[]], words)
  {
    var q := p + [c];
    var kids' := kids[p := kids[p][c := n]][q := map[]];
    InverseAdd(nodes, paths, q, n);
    LinkedAdd(nodes, kids, p, c, n);
    LeafGrows(kids, p, c, n, q);
    SpellsGrow(kids, kids', words.Keys);
  }

  /** Storing the fully spelled word `w` keeps the tree a tree of the grown dictionary. */
  lemma MarkWord<N>(nodes: map<string, N>, paths: map<N, string>, kids: map<string, map<char, N>>,
                    words: map<string, nat>, w: string, frequency: nat)
    requires Tree(nodes, paths, kids, words) && w != [] && w in nodes && SpellsUpTo(kids, w, |w|)
    ensures Tree(nodes, paths, kids, AddWord(words, w, frequency))
  {
    AddWordEffect(words, w, frequency);
    var ws := AddWord(words, w, frequency).Keys;
    forall u, i | u in ws ensures StepAt(kids, u, i) {
      if u != w {
        assert StepAt(kids, u, i);
      } else if 0 <= i < |w| {
        assert StepAt(kids, w, i);
      }
    }
  }

  /** The root is on no word's path, so the non-root nodes are counted by the prefixes of the words. */
  lemma NodeCount<N>(nodes: map<string, N>, words: map<string, nat>)
    requires Covered(nodes, words)
    ensures |nodes| == 1 + |Prefixes(words.Keys)|
  {
    assert "" !in Prefixes(words.Keys);
    forall q ensures q in nodes <==> q in {""} + Prefixes(words.Keys) {
      assert CoveredAt(nodes, words.Keys, q);
    }
    assert nodes.Keys == {""} + Prefixes(words.Keys);
  }

  /** The deepest node of a covered tree is as deep as the longest stored word. */
  lemma DeepestNode<N>(nodes: map<string, N>, words: map<string, nat>, d: nat)
    requires Covered(nodes, words) && words.Keys <= nodes.Keys
    requires Deepest(nodes.Keys, 0, d)
    ensures IsLongest(words.Keys, d)
  {
    forall w | w in words ensures |w| <= d {
    }
    if d != 0 {
      var q :| q in nodes && |q| == d;
      assert CoveredAt(nodes, words.Keys, q);
      var w := PrefixBelongs(words.Keys, q);
      assert w in words && |w| >= d;
    } else if words != map[] {
      var w :| w in words;
      assert w in nodes;
    }
  }
}
