# Prefix-trie autocomplete dictionary, modelled and verified in Dafny

This project models the autocomplete dictionary of `src/utils/TrieDataStructure.js`. The dictionary is a prefix tree (trie) of `TrieNode` objects.
- Each node has a `children` map from characters to nodes, plus the fields `isEndOfWord`, `frequency` and `word`.
- A `Trie` owns the `root` node and the counter `totalWords`.

The model covers the trie's operations: `insert`, `search`, `getSuggestions` with its helper `_collectWords`, `incrementFrequency`, `getWordCount`, `getStats` and `clear`. It also covers the way the application seeds a trie from `DEFAULT_DICTIONARY` (`src/App.js`) and the way it rebuilds one (`copyTrie`).

The model is imperative, like the source.
- `TrieNode`, `Trie` and the statistics object are Dafny classes, and the methods update their fields in place.
- The walks down the tree are `while` loops.
- `_collectWords` and `getStats`' `countNodes` are recursive methods. They visit the children in an unspecified order.

Every method is proved against a ghost view of the trie:
- `Words` maps each stored word to its frequency;
- `Nodes` maps each path from the root to its node.

The trie invariant `Valid()` ties the heap to that view:
- the nodes form exactly the tree of the stored words;
- each node's child map and fields mirror its path's entry;
- every node lies on the path of a stored word;
- stored words are normalised and non-empty;
- `totalWords` counts them.

Each operation's contract states its effect on `Words`. Lemmas on the pure view functions then state what the dictionary promises:
- insert sums frequencies and counts each distinct word once;
- search finds any case or padding variant of an inserted word;
- learning raises one word's frequency by one;
- suggestions are exactly the best `limit` completions in comparator order;
- the statistics count the prefixes of the stored words and measure the longest one.

Modules:
- `Text` (`text.dfy`): `toLowerCase().trim()` as `Normalize`, with ECMAScript white space and ASCII case mapping.
- `Dictionary` (`dictionary.dfy`): the word-to-frequency view and the lemmas about it, including rebuilding a dictionary from its entries.
- `Ranking` (`ranking.dfy`):
  - the two comparators;
  - the stable sort, as an insertion sort;
  - `slice(0, limit)`;
  - `IsTopRanked`, which says what a suggestion list promises.
- `TrieLayout` (`layout.dfy`): the shape of a trie stated on path-indexed maps, and how each in-place step keeps that shape.
- `PrefixTrie` (`trie.dfy`): the `TrieNode`, `Stats` and `Trie` classes and their methods.
- `Scenarios` (`scenarios.dfy`): seeding from a list of entries, and concrete runs on `DEFAULT_DICTIONARY` words.

## Model

| member | source | states |
|---|---|---|
| PrefixTrie.TrieNode.constructor | src/utils/TrieDataStructure.js:6-11 | a new node has no children, is not the end of a word, has frequency 0 and stores no word |
| PrefixTrie.Trie.constructor | src/utils/TrieDataStructure.js:19-22 | a new trie is valid, holds no word and consists of a fresh root alone |
| PrefixTrie.Trie.NodeFields | src/utils/TrieDataStructure.js:46-51 | a node is marked as the end of a word exactly when its path is a stored word; it then stores that path (normalised, non-empty) as `word` and the word's frequency; an unmarked node stores no word and frequency 0 |
| PrefixTrie.Trie.TerminalsAreWords | src/utils/TrieDataStructure.js:46-49 | the paths of the nodes marked as the end of a word are exactly the stored words |
| PrefixTrie.Trie.Walk | src/utils/TrieDataStructure.js:88-95 | the walk down `w` returns the node for `w` when it exists; it returns null exactly when there is no such node, and then no stored word starts with `w` |
| PrefixTrie.Trie.Search | src/utils/TrieDataStructure.js:59-73 | `search` returns true exactly when the normalised word is stored; it changes nothing |
| PrefixTrie.Trie.Insert | src/utils/TrieDataStructure.js:29-52 | `insert` keeps the trie valid and turns the dictionary into `AddWord` of the normalised word: a blank word changes nothing, otherwise the frequency is added to the stored one; `totalWords` rises by one exactly when the word is new |
| PrefixTrie.Trie.Store | src/utils/TrieDataStructure.js:35-51 | storing a normalised non-empty word grows the tree along it and adds its frequency; every node stays on the path of a stored word |
| PrefixTrie.Trie.Reach | src/utils/TrieDataStructure.js:38-43 | the loop of `insert` reaches the node for the whole word; it only adds fresh nodes, on the word's own path, and every character of the word becomes an edge |
| PrefixTrie.Trie.Step | src/utils/TrieDataStructure.js:39-42 | one round of that loop moves to the child along the next character, creating it when it is missing |
| PrefixTrie.Trie.AddChild | src/utils/TrieDataStructure.js:39-41 | a missing child becomes a fresh blank leaf under exactly one new path; no other path or child map changes |
| PrefixTrie.Trie.MarkEnd | src/utils/TrieDataStructure.js:46-51 | marking the end node stores the word, adds the frequency and counts the word once if it is new |
| PrefixTrie.Trie.IncrementFrequency | src/utils/TrieDataStructure.js:136-150 | learning raises the normalised word's frequency by one if it is stored and changes nothing otherwise; it touches only `frequency` fields, so it creates no node, marks no word and leaves `totalWords` alone |
| PrefixTrie.Trie.Learn | src/utils/TrieDataStructure.js:147-149 | `node.frequency++` on a stored word's node is `Bump` of that word |
| PrefixTrie.Trie.CollectWords | src/utils/TrieDataStructure.js:118-130 | `_collectWords` keeps what `results` held and appends each stored word below the node for `p` exactly once, with its frequency; `p` itself is included when it is a word |
| PrefixTrie.Trie.GetSuggestions | src/utils/TrieDataStructure.js:82-110 | a blank prefix gives `[]`; otherwise the result is a best-`limit` ranking of the stored words that start with the normalised prefix, in `sortBy` order; nothing changes |
| PrefixTrie.Trie.GetWordCount | src/utils/TrieDataStructure.js:156-158 | the count is the number of distinct stored words and the number of nodes marked as the end of a word |
| PrefixTrie.Trie.CountNodes | src/utils/TrieDataStructure.js:171-178 | `countNodes` adds the size of the visited subtree to `totalNodes` and raises `maxDepth` to the deepest path in it |
| PrefixTrie.Trie.GetStats | src/utils/TrieDataStructure.js:164-182 | the statistics give the word count, one node per non-empty prefix of a stored word plus the root, and the length of the longest stored word as depth (0 for none) |
| PrefixTrie.Trie.Clear | src/utils/TrieDataStructure.js:187-190 | after `clear` the trie is valid, holds no word and consists of a fresh root alone |
| PrefixTrie.Stats.constructor | src/utils/TrieDataStructure.js:165-169 | a new statistics object has the given word count and zero nodes and depth |
| PrefixTrie.CollectStart | src/utils/TrieDataStructure.js:119-124 | pushing the node's own word starts a listing of the words that are `p` itself |
| PrefixTrie.CollectStep | src/utils/TrieDataStructure.js:127-129 | collecting one more child adds the completions of that child's path to the listing |
| Text.ToLower | src/utils/TrieDataStructure.js:32 | lower-casing a character leaves no upper-case ASCII letter and keeps white space white space |
| Text.TrimShape | src/utils/TrieDataStructure.js:32 | a trimmed string has no white space at either end, and it is empty exactly when the input is all white space |
| Text.TrimIgnoresPadding | src/utils/TrieDataStructure.js:32 | white space around a string does not change its trim |
| Text.TrimOfUnpadded | src/utils/TrieDataStructure.js:32 | a string without surrounding white space is its own trim |
| Text.LowerIsLower | src/utils/TrieDataStructure.js:32 | lower-casing keeps the length, leaves no upper-case letter and keeps white space |
| Text.LowerOfUpper | src/utils/TrieDataStructure.js:32 | upper-casing first does not change the lower-case form |
| Text.LowerOfLower | src/utils/TrieDataStructure.js:32 | a string without upper-case letters is its own lower-case form |
| Text.NormalizeShape | src/utils/TrieDataStructure.js:32-33 | a normalised word is lower-case, unpadded and no longer than its input; it is empty exactly when the input is all white space |
| Text.NormalizeIdempotent | src/utils/TrieDataStructure.js:32 | normalising twice is normalising once |
| Text.NormalizeIgnoresCaseAndPadding | src/utils/TrieDataStructure.js:62 | a word padded with white space and differing only in case normalises to the same key |
| Dictionary.AddWordEffect | src/utils/TrieDataStructure.js:46-51 | inserting a non-empty word stores it with the old frequency plus the new one, leaves every other word alone and grows the word count by one exactly when the word is new |
| Dictionary.InsertTwiceCountsOnce | src/utils/TrieDataStructure.js:46-50 | inserting the same word twice counts it once and sums both frequencies |
| Dictionary.InsertThenSearch | src/utils/TrieDataStructure.js:59-73 | after inserting a word that is not blank, every case and padding variant of it is stored under the key that `search` looks up |
| Dictionary.InsertRejectsBlank | src/utils/TrieDataStructure.js:30-33 | inserting an empty or all-white-space word changes nothing |
| Dictionary.AddWordNormalized | src/utils/TrieDataStructure.js:32-51 | insertion keeps every stored word normalised and non-empty |
| Dictionary.BumpEffect | src/utils/TrieDataStructure.js:136-150 | learning keeps the set of words, raises the learned word by exactly one and changes no other frequency; an unknown word changes nothing |
| Dictionary.PrefixesAdd | src/utils/TrieDataStructure.js:38-43 | the paths after inserting a word are the old paths plus the word's non-empty prefixes |
| Dictionary.PrefixOfPrefix | src/utils/TrieDataStructure.js:38-43 | every prefix of a path is a path |
| Dictionary.PrefixBelongs | src/utils/TrieDataStructure.js:38-43 | every path is a non-empty prefix of some stored word |
| Dictionary.MatchesSplit | src/utils/TrieDataStructure.js:118-130 | the completions of `p` are `p` itself, if stored, plus the completions below `p`'s children, and those two parts are disjoint |
| Dictionary.MatchesViaAdd | src/utils/TrieDataStructure.js:127-129 | visiting one more child adds exactly the completions of that child's path, none of them seen before |
| Dictionary.ExtensionsSplit | src/utils/TrieDataStructure.js:171-177 | the subtree of `p` is `p` plus the subtrees of its children, so its size is one more than theirs |
| Dictionary.ExtensionsViaAdd | src/utils/TrieDataStructure.js:175-177 | visiting one more child adds its whole subtree, disjoint from what was counted |
| Dictionary.DeepestUnion | src/utils/TrieDataStructure.js:173-176 | the running maximum over two visits in turn is the running maximum over both |
| Dictionary.DeepestTop | src/utils/TrieDataStructure.js:173 | raising the maximum to the current depth first, then visiting the children, covers the node and its children |
| Dictionary.ExtensionsOfRoot | src/utils/TrieDataStructure.js:180 | the subtree of the root is the whole tree |
| Dictionary.ExtensionsShrink | src/utils/TrieDataStructure.js:127-128 | a child's subtree is strictly smaller than its parent's, so the recursions over children terminate |
| Dictionary.InsertAllStep | src/App.js:26-28 | inserting the entries from position `i` on means inserting entry `i` and then the rest |
| Dictionary.RebuildKeepsWords | src/App.js:71-83 | re-inserting the missing entries of a dictionary, each once, into a part of it gives back the whole dictionary |
| Dictionary.RebuildFromEmpty | src/App.js:71-83 | re-inserting every (word, frequency) pair of a dictionary, in any order, into an empty trie gives back the same dictionary |
| Dictionary.EnumeratedCard | src/App.js:71-83 | as many distinct entries as the dictionary has words name all of its words |
| Ranking.LexLessIrreflexive | src/utils/TrieDataStructure.js:105 | no word sorts before itself |
| Ranking.LexLessTransitive | src/utils/TrieDataStructure.js:105 | the word order is transitive |
| Ranking.LexLessTotal | src/utils/TrieDataStructure.js:105 | any two different words are ordered one way round |
| Ranking.LexLessAsymmetric | src/utils/TrieDataStructure.js:105 | no two words each sort before the other |
| Ranking.PrecedesTotal | src/utils/TrieDataStructure.js:102-106 | under either comparator, of any two suggestions one may come first |
| Ranking.PrecedesTransitive | src/utils/TrieDataStructure.js:102-106 | both comparators are transitive |
| Ranking.InsertSortedPermutes | src/utils/TrieDataStructure.js:102-106 | one insertion step of the sort adds exactly the inserted entry |
| Ranking.InsertSortedSorted | src/utils/TrieDataStructure.js:102-106 | one insertion step into a sorted list leaves it sorted |
| Ranking.SortSorted | src/utils/TrieDataStructure.js:102-106 | the sort returns its input in comparator order |
| Ranking.SortPermutes | src/utils/TrieDataStructure.js:102-106 | the sort returns a permutation of its input |
| Ranking.ListsConcat | src/utils/TrieDataStructure.js:118-130 | two listings of dictionaries with disjoint words, appended, list their union |
| Ranking.ListsSingle | src/utils/TrieDataStructure.js:120-123 | the pushed object `{word, frequency}` lists the one-word dictionary |
| Ranking.ListsLength | src/utils/TrieDataStructure.js:118-130 | a listing has one entry per word |
| Ranking.InsertSortedDistinct | src/utils/TrieDataStructure.js:102-106 | one insertion step keeps the words distinct and adds exactly the inserted word |
| Ranking.SortLists | src/utils/TrieDataStructure.js:102-106 | sorting a listing of a dictionary gives a listing of the same dictionary |
| Ranking.SortKeepsWords | src/utils/TrieDataStructure.js:102-106 | sorting keeps the words distinct and keeps the same set of words |
| Ranking.TakeSortedIsTopRanked | src/utils/TrieDataStructure.js:102-109 | sorting a listing and keeping the first `limit` entries gives at most `limit` distinct completions with their frequencies, in comparator order, with no omitted completion ranking strictly above a returned one |
| Ranking.TopRankedIsComplete | src/utils/TrieDataStructure.js:109 | when `limit` is at least the number of completions, a best-`limit` answer lists all of them |
| Ranking.WordsOfCard | src/utils/TrieDataStructure.js:118-130 | a list with distinct words has as many words as entries |
| Ranking.AlphabeticalIsStrict | src/utils/TrieDataStructure.js:105 | in alphabetical mode, a result with distinct words is strictly increasing |
| TrieLayout.MarkForAdd | src/utils/TrieDataStructure.js:49-51 | storing a word changes the fields of that word's node alone: it becomes marked, with the summed frequency and the word itself |
| TrieLayout.EmptyTree | src/utils/TrieDataStructure.js:19-22 | the root alone is the tree of the empty dictionary |
| TrieLayout.Descend | src/utils/TrieDataStructure.js:42 | following the edge `w[i]` from the node for `w[..i]` reaches the node for `w[..i + 1]` |
| TrieLayout.ChildOf | src/utils/TrieDataStructure.js:128 | the child along `c` of the node for `p` is the node for `p + [c]` |
| TrieLayout.OnWordPath | src/utils/TrieDataStructure.js:38-43 | every edge along a non-empty prefix of a stored word exists |
| TrieLayout.Blocked | src/utils/TrieDataStructure.js:66-67 | when a walk finds no child for the next character, the word names no node and no stored word starts with it |
| TrieLayout.ChildrenCover | src/utils/TrieDataStructure.js:127 | every stored word below a node continues with the character of one of its children |
| TrieLayout.ChildrenCoverPaths | src/utils/TrieDataStructure.js:175 | every node below a node continues with the character of one of its children |
| TrieLayout.FreshStep | src/utils/TrieDataStructure.js:39-40 | a child that is missing during `insert` belongs to a path that has no node yet |
| TrieLayout.PathStep | src/utils/TrieDataStructure.js:38-43 | each step of `insert` adds at most the next prefix of the word to the nodes |
| TrieLayout.CoverWord | src/utils/TrieDataStructure.js:35-51 | after `insert`, every node lies on the path of a stored word again |
| TrieLayout.InverseAdd | src/utils/TrieDataStructure.js:40 | a new node object under a new path keeps paths and nodes one-to-one |
| TrieLayout.LinkedAdd | src/utils/TrieDataStructure.js:40 | a new leaf keeps every child entry pointing at the node for the extended path |
| TrieLayout.LeafGrows | src/utils/TrieDataStructure.js:40 | a new leaf only adds child entries |
| TrieLayout.SpellsUpToGrow | src/utils/TrieDataStructure.js:40 | adding child entries keeps every path spelled so far |
| TrieLayout.SpellsUpToStep | src/utils/TrieDataStructure.js:42 | one more edge along the word extends the spelled part by one character |
| TrieLayout.SpellsGrow | src/utils/TrieDataStructure.js:40 | adding child entries keeps every stored word spelled |
| TrieLayout.AddLeaf | src/utils/TrieDataStructure.js:39-41 | hanging a blank leaf under a node keeps the tree a tree of the same dictionary |
| TrieLayout.MarkWord | src/utils/TrieDataStructure.js:46-51 | marking the node of a fully spelled word makes the tree the tree of the grown dictionary |
| TrieLayout.NodeCount | src/utils/TrieDataStructure.js:171-172 | a tree whose nodes all lie on word paths has one node per non-empty prefix of a word, plus the root |
| TrieLayout.DeepestNode | src/utils/TrieDataStructure.js:173 | the deepest node of such a tree is as deep as the longest stored word |
| Scenarios.Seed | src/App.js:24-29 | seeding a new trie with a list of entries, in order, gives a valid trie whose dictionary is the entries inserted one after another |
| Scenarios.DuplicateSeedEntry | src/utils/TrieDataStructure.js:264 | 'algorithm' seeded with 90 and again with 76 (lines 199 and 264) is counted once and suggested once, with frequency 166 |
| Scenarios.SearchPadded | src/utils/TrieDataStructure.js:59-73 | with 'java' stored, searching " Java " finds it and searching 'javas' does not |
| Scenarios.JavaSuggestions | src/utils/TrieDataStructure.js:195-196 | with 'javascript' (150) and 'java' (120) stored, the prefix "Ja" suggests both, 'javascript' first |
| Scenarios.JavaTopSuggestion | src/utils/TrieDataStructure.js:109 | with the same two words and a limit of 1, only 'javascript' is suggested |
| Scenarios.LearnMissing | src/utils/TrieDataStructure.js:142-143 | learning a word that is not stored leaves 'java' at 120 |
| Scenarios.LearnAnyCase | src/utils/TrieDataStructure.js:139-149 | learning "JAVA" raises the stored 'java' from 120 to 121 |
| Scenarios.StatsOfTwoWords | src/utils/TrieDataStructure.js:164-182 | 'at' and 'as' (lines 666 and 671) give 2 words, 4 nodes and depth 2, because they share the node for "a" |
| Scenarios.ClearedStats | src/utils/TrieDataStructure.js:187-190 | after `clear`, the statistics are 0 words, 1 node and depth 0 |

## Left out

- JavaScript's full Unicode `toLowerCase` is not modelled. Lower-casing covers the ASCII letters only; other characters are kept as they are. `trim` is modelled with ECMAScript's exact white-space and line-terminator set.
- Characters are Unicode scalar values, which is what `for...of` iterates. Lone surrogates in JavaScript strings are not representable.
- `localeCompare` (src/utils/TrieDataStructure.js:105) is modelled as plain lexicographic order on code points. Locale collation depends on the runtime.
- The visiting order of `for...in` over `children` (src/utils/TrieDataStructure.js:127, 175) is left unspecified. The children are visited in an arbitrary order. So among suggestions of equal rank, the model does not fix which comes first, only that the set and the ranking are right.
- `Array.prototype.sort` is a library call. It is modelled as a stable insertion sort on values, not as an in-place algorithm.
- PrefixTrie.Trie.GetSuggestions: `limit` is a natural number. A negative `limit` (where `slice(0, limit)` drops entries from the end) and a non-integer `limit` are not modelled.
- PrefixTrie.Trie.Insert: `frequency` is a natural number. Negative or fractional frequencies, which the code accepts unchecked, are not modelled.
- Default arguments (`frequency = 1`, `limit = 5`, `sortBy = 'frequency'`) are not modelled. Callers pass every argument explicitly.
- Non-string arguments are not representable in the typed model. These are the `typeof` guards of `insert` and `getSuggestions`, and the exceptions `search` and `incrementFrequency` would throw. The `!word` guards are modelled as the empty-string case.
- The `maxDepth` comparison uses `Math.max` on numbers, modelled on naturals. The 53-bit precision of JavaScript numbers is irrelevant at trie sizes and is not modelled.
- The full 478-entry `DEFAULT_DICTIONARY` (src/utils/TrieDataStructure.js:194-673) is not transcribed. The scenarios use a handful of its entries.
- `src/App.js` is modelled only in two places: the seeding loop (`Scenarios.Seed`) and the `copyTrie` rebuild, as a statement on dictionaries (`Dictionary.RebuildFromEmpty`). Its React state, toasts, routing and activity log are not modelled. Neither are the React components and the input widget's keyboard and timer handling.
