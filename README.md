# tuna-interpreter analysis engine, modelled in Dafny

The analysis engine reads a Python import-time profile, stored as a tree, and answers questions about it.
Each node of the tree has:

- a list of display labels; the first one is the node's name;
- an optional self-time, `value`;
- an optional list of children;
- once aggregated, a cumulative `total_time`.

The engine has four operations, all in `src/tuna_interpreter/core.py`:

- **`calculate_total_time`**: a post-order walk that annotates every node with its own value plus its children's totals, and returns the root's total.
- **`sort_nodes_by_total_time`**: recursively reorders every child list by descending total. The sort is stable.
- **`find_path_by_string`**: splits a path string on `->`. For each segment it runs a breadth-first search below the current anchor. The first child with that name becomes the next anchor. It returns the list of matched nodes, or `None`.
- **`get_paths_above_threshold`**: a depth-bounded pre-order walk. It reports `(label path, total)` for every internal node whose total exceeds the threshold.

Files:

| file | modules | content |
|---|---|---|
| `tree.dfy` | `Wrappers`, `ProfileTree` | the node datatype and its measures |
| `aggregator.dfy` | `Aggregator` | `calculate_total_time` |
| `sorter.dfy` | `Sorter` | `sort_nodes_by_total_time` |
| `locator.dfy` | `ArrowSplit`, `PathLocator` | `str.split("->")` and `find_path_by_string` |
| `threshold.dfy` | `ThresholdFilter` | `get_paths_above_threshold` |
| `scenario.dfy` | `ExampleSession` | a worked session on a three-level tree |

**Node model.** A node with a `children` key, even an empty one, is `Internal`. A node without one is a `Leaf`.

**Value semantics for the mutating operations.** The Python functions mutate an unshared dictionary tree in place. In the model:

- `CalculateTotalTime` returns the annotated tree.
- `SortNodesByTotalTime` returns the reordered tree.

Their `ensures` state the whole new tree:

- for aggregation, through `Strip` (every total erased) and the `Aggregated` invariant;
- for sorting, through the specification function `SortedTree`.

**Loops.** `find_path_by_string` is written with loops and a queue, so its model is a method with loops. It is proved equal to the recursive specification `FindPath`. The walk in `calculate_total_time` also loops over the children, and that loop is kept too.

## Model

| member | source | states |
|---|---|---|
| `Aggregator.CalculateTotalTime` | src/tuna_interpreter/core.py:4-24 | The result differs from the input only in its totals (`Strip` is unchanged). Every node's total is its value (0 when absent) plus its children's totals. The returned number is the root's total, and it equals the sum of all self-times in the tree. |
| `Aggregator.AggregatedTotalIsSubtreeValue` | src/tuna_interpreter/core.py:14-21 | In an aggregated tree, every node's total is the sum of the self-times of all nodes in its subtree (an independent reference definition). |
| `Aggregator.AggregationIsUnique` | src/tuna_interpreter/core.py:14-21 | Two aggregated trees with the same raw profile are equal: the annotation is determined by the raw tree. |
| `Aggregator.TotalDominatesChildren` | src/tuna_interpreter/core.py:16-18 | Assume non-negative self-times. Then an aggregated node's total is non-negative and at least the total of each child. |
| `Aggregator.AggregateTwice` | src/tuna_interpreter/core.py:4-24 | Running the aggregator on its own output gives back the same tree and the same total (idempotence). |
| `Sorter.Insert` | src/tuna_interpreter/core.py:37-39 | Inserting a node into a list adds exactly that node (as a multiset and by membership). The result starts with the node or with the list's old head. |
| `Sorter.StableSortDesc` | src/tuna_interpreter/core.py:37-39 | The sorted child list has the same length and only members of the input, and its totals are non-increasing. |
| `Sorter.InsertKeepsOrder` | src/tuna_interpreter/core.py:37-39 | Inserting into a non-increasing list keeps it non-increasing. |
| `Sorter.SortIsPermutation` | src/tuna_interpreter/core.py:37-39 | The sorted list is a permutation of the input (multiset equality). |
| `Sorter.InsertIsStable` | src/tuna_interpreter/core.py:37-39 | Inserting into a sorted list keeps the relative order of equal-total nodes. |
| `Sorter.SortIsStable` | src/tuna_interpreter/core.py:37-39 | For every total `t`, the nodes with total `t` appear in the same relative order before and after sorting (the sort is stable). |
| `Sorter.SortedTree` | src/tuna_interpreter/core.py:35-41 | Sorting keeps a node's labels, value and total, and keeps it a leaf or internal node. |
| `Sorter.InsertCommutes` | src/tuna_interpreter/core.py:37-41 | Sorting the children before inserting and sorting them after inserting give the same list. |
| `Sorter.SortCommutes` | src/tuna_interpreter/core.py:37-41 | Ordering the children and recursively sorting inside them commute. So the source's order (sort a list, then recurse) yields the specification's tree. |
| `Sorter.SortNodesByTotalTime` | src/tuna_interpreter/core.py:27-44 | Requires a total on every node whose total the sort key reads. The result is exactly `SortedTree(node)`: every child list is recursively ordered by descending total. |
| `Sorter.SortedTreeIsSortedEverywhere` | src/tuna_interpreter/core.py:35-41 | In the sorted tree, every child list at every depth is non-increasing in total. |
| `Sorter.SortedChildrenArePermutation` | src/tuna_interpreter/core.py:37-41 | The root's sorted child list is a permutation of its recursively sorted children. Its first child has the largest total among the original children. |
| `Sorter.SortedHeadIsLargest` | src/tuna_interpreter/core.py:37-39 | After the descending sort, no element of the input has a larger total than the first element. |
| `Sorter.SumTotalsPermutation` | src/tuna_interpreter/core.py:17-18 | Reordering siblings does not change the sum of their totals. |
| `Sorter.SortingKeepsAggregation` | src/tuna_interpreter/core.py:35-41 | Sorting an aggregated tree leaves it aggregated, so every total stays correct after the reordering. |
| `ArrowSplit.SplitOnArrow` | src/tuna_interpreter/core.py:69 | `str.split("->")` yields at least one segment, and the first segment is a prefix of the string. |
| `ArrowSplit.JoinAfterSplit` | src/tuna_interpreter/core.py:69 | Splitting loses nothing: joining the segments with `->` gives back the path string. |
| `ArrowSplit.SplitSegmentsAreArrowFree` | src/tuna_interpreter/core.py:69 | No segment contains `->`. |
| `ArrowSplit.SplitOfArrowFree` | src/tuna_interpreter/core.py:69 | A string without `->` splits into itself alone: a single node name is a valid path string. |
| `ArrowSplit.SplitAfterSegment` | src/tuna_interpreter/core.py:69 | Splitting `a->t`, where `a` has no delimiter, gives `a` followed by the split of `t`. |
| `ArrowSplit.SplitAfterJoin` | src/tuna_interpreter/core.py:69 | Delimiter-free segments survive a join followed by a split unchanged. |
| `PathLocator.FirstNamed` | src/tuna_interpreter/core.py:83-88 | Returns the index of the first child whose name is the segment: no earlier child has that name. It returns the list's length when no child has the name. |
| `PathLocator.Bfs` | src/tuna_interpreter/core.py:78-92 | The breadth-first search for one segment: a match it reports carries the segment's name. |
| `PathLocator.FindPath` | src/tuna_interpreter/core.py:69-96 | The recursive lookup of a whole path: a found path has exactly one node per segment. |
| `PathLocator.FindPathByString` | src/tuna_interpreter/core.py:47-96 | The loop-and-queue lookup returns exactly `FindPath(root, split(pathString))`. It returns None when an anchor has no children, when the queue dequeues a leaf, or when the queue runs dry. |
| `PathLocator.BfsFindsNamedDescendant` | src/tuna_interpreter/core.py:78-92 | A match carries the segment's name and lies strictly below a queued node. |
| `PathLocator.BfsExhaustedMeansAbsent` | src/tuna_interpreter/core.py:78-94 | When some node below the queue has the name, the search does not run dry: it finds a match or stops at a leaf. |
| `PathLocator.LevelMatchIsShallowest` | src/tuna_interpreter/core.py:79-88 | While the queue holds the rest of level `j` followed by the start of level `j + 1`, and no node at levels 1 to `j` has the name, a match among the head's children is a shallowest match. |
| `PathLocator.BfsLevelOrder` | src/tuna_interpreter/core.py:79-92 | From any such level-ordered queue, the match the search reports is a shallowest match below the anchor. |
| `PathLocator.Expand` | src/tuna_interpreter/core.py:79-92 | The next level, in the order the search enqueues it: the children of a queue's internal nodes, queue order first and then child order. It holds fewer nodes than the subtrees of the queue. |
| `PathLocator.FirstInLevelOrderIsUnique` | src/tuna_interpreter/core.py:79-88 | At most one node is the first match in level order, so that description fixes the search's answer. |
| `PathLocator.BfsThroughLevel` | src/tuna_interpreter/core.py:79-92 | A successful search works through a queue before anything queued behind it. If some child of the queue's nodes has the name, the match is the first such child in queue order, then child order. Otherwise the search continues on the rest followed by all those children. |
| `PathLocator.BfsByLevels` | src/tuna_interpreter/core.py:79-92 | If levels 1 to `j` have no node with the name, a search started on level `j` returns the first match in level order. |
| `PathLocator.BfsFindsShallowestMatch` | src/tuna_interpreter/core.py:76-92 | The match found for a segment lies some `k >= 1` levels below the anchor, and no node fewer levels down has the segment's name. On level `k` it is the first node with the name, in the order the search enqueues that level. Ties between parents are broken by enqueue order, and ties under one parent by child order. |
| `PathLocator.FindPathTakesShallowestMatches` | src/tuna_interpreter/core.py:69-96 | Each node of a found path is, for its segment, both a shallowest match and the first match in level order. It lies below the previous node, or below the root for the first segment. |
| `PathLocator.TieSearchTakesFirstParent` | src/tuna_interpreter/core.py:79-92 | On a root whose children `p` and `q` each have a child named "s", the search returns `p`'s child. |
| `PathLocator.TieSecondIsShallowest` | src/tuna_interpreter/core.py:79-92 | On the same tree, `q`'s child is a shallowest match too. |
| `PathLocator.LevelOrderBreaksTies` | src/tuna_interpreter/core.py:79-92 | On the same tree, both children named "s" are shallowest matches. Only `p`'s child, which the search returns, is first in level order. |
| `PathLocator.FindPathMatchesSegments` | src/tuna_interpreter/core.py:69-96 | A found path has one node per segment, each named by its segment. Each node lies strictly below the previous one, and the first lies strictly below the root. |
| `PathLocator.LeafAbortsSearch` | src/tuna_interpreter/core.py:80-82 | On the example tree, "C" lies below the root, yet the lookup of "C" returns None. The corrected lookup finds it. |
| `PathLocator.ExampleSearchHitsLeaf` | src/tuna_interpreter/core.py:79-82 | On the example tree, the search for "C" dequeues the leaf `A` before `B` and the lookup returns None. |
| `PathLocator.ExampleCorrectedSearchFindsC` | src/tuna_interpreter/core.py:79-92 | On the example tree, the corrected search passes over `A`, expands `B` and returns the path `[C]`. |
| `PathLocator.SkippingLeavesFindsIffPresent` | src/tuna_interpreter/core.py:78-94 | The corrected search (leaves passed over) finds a segment exactly when some node below the queue has that name, and the match has that name. |
| `PathLocator.BelowAnyAfterExpanding` | src/tuna_interpreter/core.py:80-92 | Dequeuing a node none of whose children matches, then enqueuing its children, keeps the same set of candidates below the queue. |
| `PathLocator.SkippingLeavesAgreesUnlessAborted` | src/tuna_interpreter/core.py:78-94 | Whenever the search as written does not stop at a leaf, the corrected search returns the same answer. |
| `PathLocator.SkippingLeavesMatchesSegments` | src/tuna_interpreter/core.py:69-96 | A corrected lookup that succeeds has one node per segment, each named by its segment. |
| `ThresholdFilter.PathsAbove` | src/tuna_interpreter/core.py:99-136 | Every entry's total exceeds the threshold. Its path extends the path above the node by the node's own name. It has at most `max_depth - current_depth + 1` labels beyond that path. |
| `ThresholdFilter.PathsAboveAll` | src/tuna_interpreter/core.py:129-134 | Every entry from the children exceeds the threshold and extends the current path, within the depth bound. |
| `ThresholdFilter.GetPathsAboveThreshold` | src/tuna_interpreter/core.py:99-136 | From the root, every entry exceeds the threshold, starts with the root's name and has between 1 and `max_depth + 1` labels. |
| `ThresholdFilter.ReachesViaEndsAtName` | src/tuna_interpreter/core.py:123 | A chain of labels that leads from a node down to `d` ends with `d`'s name. |
| `ThresholdFilter.Visited` | src/tuna_interpreter/core.py:120-134 | Every frame the walk yields is for an internal node within the depth bound. Its path is the path above plus the current node's name, followed by at most `max_depth - current_depth` further labels. |
| `ThresholdFilter.VisitedAll` | src/tuna_interpreter/core.py:129-134 | The same for the walk over a child list: every frame is for an internal node, and its path extends the current path within the bound. |
| `ThresholdFilter.VisitedFollowsLabels` | src/tuna_interpreter/core.py:123-134 | The labels a frame adds to the path are the names on the chain from the walked node down to the frame's node, one per level. |
| `ThresholdFilter.VisitedAllFollowsLabels` | src/tuna_interpreter/core.py:129-134 | For a child list, those labels are the names on a chain from one of the children down to the frame's node. |
| `ThresholdFilter.RootFrameFollowsLabels` | src/tuna_interpreter/core.py:120-134 | From the root, a frame's whole path is the chain of names from the root down to its node, ending with that node's name. |
| `ThresholdFilter.SelectAppend` | src/tuna_interpreter/core.py:129-134 | Filtering distributes over concatenation, matching the `extend` of the children's results. |
| `ThresholdFilter.PathsAboveSelectsVisited` | src/tuna_interpreter/core.py:120-136 | The filter is exactly "walk the internal nodes in pre-order within the depth bound, keep those above the threshold": same entries, same order. |
| `ThresholdFilter.PathsAboveAllSelectsVisited` | src/tuna_interpreter/core.py:129-134 | The same characterisation for a child list. |
| `ThresholdFilter.SelectKeeps` | src/tuna_interpreter/core.py:126-127 | A reached node whose total exceeds the threshold yields an entry. |
| `ThresholdFilter.SelectSource` | src/tuna_interpreter/core.py:126-127 | Every entry comes from a reached node whose total exceeds the threshold. |
| `ThresholdFilter.VisitedIsComplete` | src/tuna_interpreter/core.py:120-134 | Every internal node that a chain of labels reaches within the depth bound is visited, with the path above plus exactly that chain, whatever its ancestors' totals: the walk prunes on depth and leaves only. |
| `ThresholdFilter.VisitedAllContains` | src/tuna_interpreter/core.py:129-134 | Whatever the walk reaches under one child is part of the walk over the child list. |
| `ThresholdFilter.ThresholdReportsEveryHeavyNode` | src/tuna_interpreter/core.py:120-136 | Completeness: let `p` be the chain of names from the root down to an internal node, with at most `max_depth + 1` labels. If the node's total exceeds the threshold, the entry `(p, total)` is reported. Nested reports are included. |
| `ThresholdFilter.ThresholdReportsOnlyHeavyNodes` | src/tuna_interpreter/core.py:120-136 | Soundness: every entry's path is the chain of names from the root down to an internal node, ending with its name. The entry's total is that node's total, and it exceeds the threshold. |
| `ThresholdFilter.FrameHitIsHeavy` | src/tuna_interpreter/core.py:123-127 | The entry made from a reached frame above the threshold names the internal node at the end of its label chain, with that node's total. |
| `ExampleSession.AnnotatedExampleIsAggregated` | src/tuna_interpreter/core.py:14-21 | The annotated example tree (A 0.1, C 0.2, B 0.7, root 0.8) is the aggregation of the raw example tree. |
| `ExampleSession.SortedExampleLeadsWithB` | src/tuna_interpreter/core.py:35-41 | After sorting, the heaviest child `B` leads the root's children. |
| `ExampleSession.PathExampleResolves` | src/tuna_interpreter/core.py:69-96 | "B->C" resolves to the nodes B and C. |
| `ExampleSession.ThresholdExampleSkipsLeaf` | src/tuna_interpreter/core.py:120-127 | With threshold 0.15 the entries are the root (0.8) and `B` (0.7). The leaf `C` (0.2) is not reported. |
| `ExampleSession.AnalyseExample` | tests/test_core.py:20-43 | The whole session, through the modelled operations: total 0.8, heaviest child `B`, path "B->C" found, and the two threshold entries above. |

## Left out

- Loading a profile from a log file (`read_import_profile`, file I/O) is not part of this model. Trees are given as values.
- Times are exact `real`s, not IEEE doubles. Rounding in the sums is not modelled.
- `value` may hold an int or a float in the source. Both are `real` here. A missing `value` counts as 0, as in the source.
- In-place mutation, object identity and aliasing are not modelled.
  - The aggregator and the sorter return the updated tree.
  - Callers that keep other references into the dictionary tree would see the updates in the source, but not here.
  - Matched nodes in a found path are values, not references into the tree.
- Sorter.SortNodesByTotalTime: a missing `total_time` on a node whose key is read raises `KeyError` in the source. The model excludes it with the precondition `KeysPresent` instead of modelling the exception.
- ThresholdFilter.PathsAbove: a missing `total_time` on a reached internal node raises `KeyError` in the source. The model excludes it with the precondition `TotalsWithin`.
- The labels list is non-empty by type (`Labels`). The source's `IndexError` on an empty `text` list is not modelled.
- The `path=[]` mutable default of `get_paths_above_threshold` is harmless, since the function only builds new lists from it. `current_depth` is a natural number here. A caller passing a negative depth is not modelled.
- The docstrings and the code differ in three places. The model follows the code:
  - `calculate_total_time` returns the root's total, not the node.
  - `get_paths_above_threshold` keeps totals strictly *above* the threshold, not below. It does not treat a float threshold as a fraction of the total.
  - Leaves are never reported by `get_paths_above_threshold`, even when their total exceeds the threshold. `ExampleSession.ThresholdExampleSkipsLeaf` shows this on a concrete tree.
- The path lookup is greedy. Each segment commits to the first breadth-first match, and a later segment that fails there is not retried at another match of the earlier segment. `FindPath` keeps this behaviour.

## Findings

| source | as written | input that shows it | evidently intended | confidence | as-written member | corrected member |
|---|---|---|---|---|---|---|
| src/tuna_interpreter/core.py:80-82 | The breadth-first search returns `None` for the whole lookup as soon as it dequeues a node without children. | The tree root[A (leaf), B[C (leaf)]] with path string "C". Leaf A is enqueued before B and dequeued first, so the lookup gives up although C lies below the root. | The docstring (lines 53-57) promises that a single node name finds that node. A leaf has nothing to expand and should be passed over, so a segment is found exactly when some node below the anchor has that name. | not executed | `PathLocator.LeafAbortsSearch` | `PathLocator.SkippingLeavesFindsIffPresent` |
