# treecheck tree core in Dafny

This project models the tree-algorithm layer of `treecheck`. The program reads integers into an
unbalanced binary search tree. It computes every node's balance factor and reports them. It says
whether the tree is AVL and gives the minimum, maximum and average key; the model stops at the
four accumulators (minimum, maximum, sum, count) the average is computed from. Given a second input, it
either looks up the root-to-node path of a single key or decides whether a pattern tree occurs
inside the main tree.

The tree is the immutable datatype `Trees.Tree = Leaf | Node(key, left, right, bf)`. `Leaf`
stands for a null child, and `bf` is the cached `balanceFactor` field. Each C++ routine that
mutates nodes or writes through reference parameters becomes a pure function:

- `height` is `Metrics.Height` and `isAVL` is `Avl.IsAvl`, both pure recursive functions as in the source.
- `calculateBalanceFactors` returns the updated tree.
- `statistics` returns the four accumulators as a `Stats` record.
- `findNodePath` returns the pair (path, found flag), with the path as a sequence of keys.
- `printBalanceFactors` returns the lines it would print as `(key, bf, violation)` records; `Avl.LineOf` builds one line and its violation flag.

Modules follow the program's components:

- `Trees` (trees.dfy): the node type, insertion, building a tree from an input sequence, and the search-tree order.
- `Metrics` (metrics.dfy): height, the balance-factor pass, and the statistics fold.
- `Avl` (avl.dfy): the AVL check and the balance report.
- `Patterns` (patterns.dfy): structural matching, subtree search, path lookup, and worked examples.

The model follows the code as written, including these behaviours that are easy to misread:

- The balance report visits the right subtree, then the left subtree, then the node (main.cpp:187-189). This is not in-order. The contract of `Avl.Report` states that it is the pre-order listing read backwards.
- Path lookup does not descend by key comparison. It searches the whole tree, left before right (main.cpp:256-266). `Patterns.FindNodePathFollowsSearchOrder` proves that on a search tree it still returns the path an ordered descent would take.
- Structural matching is loose (main.cpp:224-238). An empty pattern child matches anything, and a failed comparison at a node retries the whole pattern on that node's children. It is therefore not exact shape-and-key equality; see "## Findings".
- New nodes carry the balance factor -1 until the balance pass runs (main.cpp:133). There is no separate "not computed" state. `Avl.UnsetTreePassesAvlCheck` shows the consequence: an uncomputed tree always passes the AVL check.

## Model

| member | source | states |
|---|---|---|
| `Trees.Insert` | main.cpp:129-144 | The key set grows by exactly the inserted key. The result is the old tree or the old tree with one fresh node (balance -1) in an empty slot; every old node is kept. Search order is preserved. A key already present in a search tree leaves the tree unchanged, and a new key always adds a node. |
| `Trees.AddsLeafGrowsByOne` | main.cpp:131-134 | Attaching the fresh node adds exactly one node and exactly the new key. |
| `Trees.InsertNewKeyAddsOneNode` | main.cpp:129-144 | Inserting an absent key increases the node count by one. |
| `Trees.InsertAll` | main.cpp:56-59 | Inserting a sequence of keys one after another adds exactly the keys of the sequence and keeps search order. |
| `Trees.Build` | main.cpp:53-59 | The tree read from any input is a search tree whose key set is the set of input values, and every balance factor still holds the sentinel. |
| `Trees.InOrderHasKeys` | main.cpp:205-210 | The in-order key sequence holds exactly the tree's keys and has one entry per node. |
| `Trees.BstIffInOrderAscending` | main.cpp:135-142 | The search-tree order holds if and only if the in-order key sequence is strictly ascending. |
| `Trees.BstSizeIsKeyCount` | main.cpp:139-142 | In a search tree no key is stored twice: the node count equals the number of distinct keys. |
| `Trees.BuildIsSortedDistinct` | main.cpp:54-59 | For any input, the built tree lists each distinct input value exactly once, in ascending order, and has one node per distinct value. |
| `Metrics.Height` | main.cpp:147-154 | The height is 0 exactly for the empty tree and never exceeds the node count. |
| `Metrics.HeightBounds` | main.cpp:147-154 | A tree of height h has fewer than 2^h nodes. |
| `Metrics.LongestPath` | main.cpp:147-154 | Some root-to-leaf walk has exactly as many keys as the height. |
| `Metrics.HeightIsLongestPath` | main.cpp:147-154 | No downward walk from the root has more keys than the height. |
| `Metrics.HeightIgnoresBalance` | main.cpp:147-154 | The height depends only on shape and keys, not on cached balance factors. |
| `Metrics.ComputeBalanceFactors` | main.cpp:157-168 | The pass keeps keys and shape, and afterwards every node caches height(right) - height(left). |
| `Metrics.BalanceFactorsCorrectAtEveryNode` | main.cpp:164-167 | The recursive correctness condition is the same as the per-node equation holding at every node. |
| `Metrics.CorrectBalanceFactorsAreUnique` | main.cpp:167 | Two trees with equal shape and keys and correct balance factors are identical, so the cached values are determined by the shape. |
| `Metrics.ComputeBalanceFactorsFixesCorrectTree` | main.cpp:157-168 | The pass returns a tree with already-correct balance factors unchanged. |
| `Metrics.ComputeBalanceFactorsIdempotent` | main.cpp:157-168 | Running the pass twice gives the same tree as running it once. |
| `Trees.EraseKeepsKeysAndOrder` | main.cpp:167 | Changing only balance factors keeps the keys, the in-order sequence, the node count and the search order. |
| `Metrics.ComputeBalanceFactorsKeepsKeys` | main.cpp:157-168 | The pass keeps the key set, the in-order sequence and the search order. |
| `Metrics.Statistics` | main.cpp:199-211 | The count grows by the node count and the sum by the sum of the keys. The minimum ends at or below the old minimum and every key, and is either the old minimum or a key. The maximum is the mirror image. |
| `Metrics.StatisticsVisitsInOrder` | main.cpp:205-210 | The pass folds the keys into the accumulators in in-order sequence (left subtree, node, right subtree). |
| `Metrics.StatisticsOfEmptyTree` | main.cpp:201-204 | On an empty tree all four accumulators come back unchanged. |
| `Metrics.StatisticsFromSentinels` | main.cpp:73-77 | Started from INT_MAX, INT_MIN, 0, 0 on a non-empty tree of 32-bit keys, the pass returns the smallest key, the largest key and the node count. |
| `Avl.IsAvl` | main.cpp:171-178 | The AVL check passes if and only if every node's cached balance factor lies in [-1, 1]. |
| `Avl.IsAvlOfCorrectFactors` | main.cpp:171-178 | With correct balance factors, the check passes if and only if at every node the subtree heights differ by at most one. |
| `Avl.HeightBalancedIgnoresBalance` | main.cpp:147-154 | Height balance depends only on shape and keys. |
| `Avl.IsAvlAfterComputeIffHeightBalanced` | main.cpp:62-69 | After the balance pass, the verdict is "yes" exactly when the tree is height-balanced. |
| `Avl.UnsetTreePassesAvlCheck` | main.cpp:133 | A tree whose factors still hold the insertion sentinel -1 passes the AVL check, whatever its shape. |
| `Avl.LineOf` | main.cpp:189-194 | A report line carries the node's key and balance factor, and is flagged as a violation exactly when the factor lies outside [-1, 1]. |
| `Avl.Report` | main.cpp:181-196 | The report has one line per node and lists the nodes right subtree first, then left subtree, then the node itself: the pre-order listing read backwards. |
| `Avl.ReportFlagsIffNotAvl` | main.cpp:171-196 | The report flags no line if and only if the AVL check passes. |
| `Patterns.IsSameStructure` | main.cpp:222-239 | An empty pattern always matches. A match of a non-empty pattern needs a non-empty tree that holds every pattern key and has at least as many nodes. |
| `Patterns.SameStructureIffEmbeds` | main.cpp:222-239 | A pattern matches exactly when it embeds in the tree. Each pattern node goes to a tree node with the same key, and its left and right children go anywhere inside that node's left and right subtrees. |
| `Patterns.SingleNodePatternMatchesKey` | main.cpp:224-238 | A one-node pattern with key k matches a tree exactly when the tree holds k. |
| `Patterns.CopyMatches` | main.cpp:232-236 | Every tree matches a copy of itself, whatever the balance factors. |
| `Patterns.IsSubtree` | main.cpp:214-219 | For a non-empty pattern, subtree search agrees with the match at the root, because a match in a child already is a match at the parent. For the empty pattern it holds exactly on a non-empty tree. |
| `Patterns.FindNodePath` | main.cpp:243-269 | Called with the flag false, the flag comes back true exactly when the key occurs. The path then starts at the root, follows parent-to-child edges and ends at the key; otherwise the path is empty. A flag passed in as true stays true. |
| `Patterns.FindNodePathPrefersLeft` | main.cpp:256-266 | When the key occurs in the left subtree, the path goes through the left child, even if the key also occurs on the right. |
| `Patterns.FindNodePathFollowsSearchOrder` | main.cpp:243-269 | On a search tree, the exhaustive search returns the path an ordered descent by key comparison would take. |
| `Patterns.ExampleTree` | main.cpp:54-59 | The input 5 3 8 1 4 7 9 builds root 5 with children 3 (children 1, 4) and 8 (children 7, 9). |
| `Patterns.ExamplePaths` | main.cpp:102-113 | Looking up 1 in the tree read from 5 3 8 1 4 7 9 gives path 5, 3, 1, and looking up 6 gives "not found". |
| `Patterns.ExampleSubtrees` | main.cpp:115-119 | The pattern read from 3 1 4 is found in the tree read from 5 3 8 1 4 7 9; the pattern read from 3 1 5 is not. |
| `Patterns.EqualStructure` | main.cpp:216 | Exact structural equality holds exactly when the two trees have the same shape and keys, whatever their balance factors. |
| `Patterns.ContainsExact` | main.cpp:214-219 | Exact containment needs a non-empty pattern whose keys all occur in the tree and whose node count does not exceed the tree's. |
| `Patterns.ContainsExactIffCopyOccurs` | main.cpp:214-219 | Exact containment holds exactly when some node's subtree is a copy of the pattern. |
| `Patterns.ExactOccurrenceIsMatched` | main.cpp:214-239 | Every exact occurrence of a non-empty pattern is also reported by the loose search. |
| `Patterns.LooseMatchAcceptsNonCopy` | main.cpp:238 | The pattern read from 5 1 is reported found in the tree read from 5 3 8 1 4 7 9, although no subtree there has that shape. |

## Left out

- Command-line handling, file reading, the token loop, error messages and all output formatting (main.cpp:29-126) are not modelled. `Trees.Build` stands for the read loop, and the model's results stand for the printed lines.
- `deleteTree` (main.cpp:272-282) only frees memory; an immutable datatype has nothing to free.
- The floating-point average and its division by zero on an empty tree (main.cpp:78) are left out. The model stops at the four accumulators.
- The dispatch on `subtreeCounter` (main.cpp:93-119) is left out. It counts tokens, not distinct keys, and an empty pattern file reaches `isSubtree` with a null pattern. Both belong to the I/O layer.
- `Metrics.Statistics`: keys and the sum are unbounded integers. The source's 32-bit `sum` can overflow on large inputs, and the model does not show that wrap-around.
- `Patterns.FindNodePath`: the path is a sequence of keys, not the joined `", "` string. When the flag comes in as true, the source would append a dangling `", "` for an empty sub-path, which the sequence form does not show. The program always passes false (main.cpp:104).
- `Avl.IsAvl`: `std::abs` on the smallest 32-bit `int` is undefined in C++. The model uses the mathematical absolute value. Balance factors computed by the pass are height differences and never reach that value.
- The balance pass recomputes heights from scratch at every node (quadratic on a degenerate tree). The model describes the values, not the running time.

## Findings

| source | as written | input that shows it | evidently intended | confidence | as-written member | corrected member |
|---|---|---|---|---|---|---|
| main.cpp:222-239 | `isSameStructure` treats an empty pattern child as "match anything". When the node does not match (different keys, or a child that fails to match), it retries the whole pattern on the tree's children, so pattern nodes can skip over tree nodes. | Main tree read from 5 3 8 1 4 7 9, pattern read from 5 1 (node 5 with left child 1): the program prints "Subtree found", but 1 is a grandchild of 5 and no subtree has that shape. | The comments at main.cpp:216 and main.cpp:221 say the main tree and the pattern "have the same structure and values": a pattern is found only where some node's subtree is an exact copy of it. | medium (the loose match may be deliberate); not executed | `Patterns.LooseMatchAcceptsNonCopy` | `Patterns.ContainsExact`, `Patterns.ContainsExactIffCopyOccurs` |

`Patterns.IsSubtree` stays the model of the program as written. `Patterns.ContainsExact` is the
exact version: `Patterns.ContainsExactIffCopyOccurs` proves that it holds exactly when a copy of
the pattern occurs, and `Patterns.ExactOccurrenceIsMatched` proves that the loose search accepts
at least those inputs.
