# Binomial heap (libhl `binheap.c`) in Dafny

This project models the binomial heap of libhl's `src/binheap.c`: a mergeable
priority queue held as a forest of binomial trees over byte-string keys. A
comparator and a mode (MAX or MIN) decide which key has *precedence*. The model
covers the key ordering, the tree-node primitives and every heap operation:
create, insert, delete by key, maximum/minimum, delete-maximum/minimum, count
and merge.

Encoding:

- **Nodes live in an arena.** `Trees.Arena` maps node identities (`NodeRef`,
  standing for node addresses) to `Node` records. A record holds the key, the
  value, the parent link and the ordered children. Each node primitive takes
  an arena and returns the arena it leaves, so the link rewiring of the C
  code becomes record updates. The mode and the comparator are passed as
  parameters. They are not read through a node's back-link to the heap.
- **The forest invariant** is `Trees.Forest`:
  - every child lists its parent back, and every live parent lists the child;
  - children are distinct;
  - the heap order holds: every parent has precedence over each of its children;
  - a ghost rank grows from parent to child, which shows the links are acyclic.

  `Trees.RootsExact` says the root list holds every parentless node exactly
  once.
- **The heap object.** `Heap.BinomialHeap` is a class. Its field `st` holds the
  arena, the `trees` root list, `count` and the allocator's next identity. Its
  methods modify `st`, keep `Valid()`, and state their effect on the stored
  entries (`Contents()`), the key multiset (`StoredKeys()`), the count and the
  root list.
- **Loops.** The source's loops are methods with loop invariants, each proved
  against a ghost function:
  - the child scans and the root scan;
  - the insertion carry;
  - the descents;
  - the delete-by-key search;
  - the merge passes.

## Model

| member | source | states |
|---|---|---|
| Keys.DefaultCompareMeaning | src/binheap.c:26-31 | The default comparator orders keys of different length by length and keys of equal length lexicographically by unsigned byte. It is zero exactly on equal keys. |
| Keys.MemcmpLexicographic | src/binheap.c:30 | memcmp on equal-length keys is negative exactly when the first key is lexicographically smaller. |
| Keys.DefaultCompareLaws | src/binheap.c:26-31 | The default comparator is a total preorder: the sign flips when the arguments are swapped, and `<= 0` is transitive. |
| Keys.PrecedenceReflexive | src/binheap.c:22-24 | HAS_PRECEDENCE (`cmp >= 0` in MAX mode, `cmp <= 0` in MIN mode) holds of a key against itself. |
| Keys.PrecedenceTotal | src/binheap.c:22-24 | Of any two keys, one has precedence over the other. |
| Keys.PrecedenceTransitive | src/binheap.c:22-24 | Precedence is transitive. |
| Keys.PrecedenceFlip | src/binheap.c:22-24 | Precedence in one mode is precedence the other way round in the opposite mode. |
| Scans.ExtremeIndexMeaning | src/binheap.c:46-78 | The extreme-child fold returns a key with precedence in the scan direction over every key, and no later key has precedence over it, so ties go to the highest index. |
| Scans.ExtremeUpToMeaning | src/binheap.c:46-78 | After its first n steps the extreme-child fold holds a key with precedence over each of the first n keys, and no later one of them has precedence over it. |
| Scans.ScanIndexMeaning | src/binheap.c:246-269 | The root scan returns a root with precedence over every root. The maximum scan lets the last of equal keys win. The minimum scan returns a key strictly smaller than every earlier key, so the first of equal keys wins. |
| Scans.ScanMaxMeaning | src/binheap.c:246-269 | After n steps the maximum scan holds a key comparing >= 0 to each of the first n keys, and every later one of them compares < 0 to it. |
| Scans.ScanMinMeaning | src/binheap.c:246-269 | After n steps the minimum scan holds a key comparing <= 0 to each of the first n keys, and strictly below every earlier one. |
| Scans.ClosestMeaning | src/binheap.c:198-209 | The delete selection finds nothing exactly when no key has precedence over the sought key. Otherwise it picks a key with that precedence over which every other such key has precedence. |
| TreeNodes.FindExtremeChild | src/binheap.c:46-78 | find_min_child/find_max_child return -1 exactly for a childless node. Otherwise they return an in-range index whose child has precedence over every sibling, with no later sibling having precedence over it. |
| TreeNodes.ScanChildren | src/binheap.c:46-78 | The loop over the children returns the index that the extreme-child fold gives for the children's keys. |
| TreeNodes.ChildScanMeaning | src/binheap.c:46-78 | The index the fold gives names a child with precedence over every sibling, and no later sibling has precedence over it. |
| TreeNodes.Link | src/binheap.c:155-161 | Linking two roots makes the one with precedence the parent (the first on a tie) and appends the other to its children. The forest invariant and every entry are kept. |
| TreeNodes.SpliceChild | src/binheap.c:86-106 | Finds the node among its parent's children and removes it, keeping the other children in order, and drops the node. |
| TreeNodes.AdoptAll | src/binheap.c:125-130 | The re-homing loop appends every child, in order, under the new parent with binomial_tree_node_add and sets each child's parent link. |
| TreeNodes.Destroy | src/binheap.c:80-135 | Removes exactly one node and keeps every other entry and the forest invariant. The parent case keeps the set of roots. The root case adds only the promoted child to the roots. |
| Trees.AttachForest | src/binheap.c:33-44 | Attaching a parentless node under a node with precedence over it keeps the forest invariant. |
| Trees.LinkForest | src/binheap.c:155-161 | Linking one root under another root with precedence over it keeps the forest and leaves no dangling link. |
| Trees.DestroyParentCase | src/binheap.c:86-106 | Splicing a node out of its parent and appending its children to that parent keeps the forest. Exactly the same nodes stay parentless. |
| Trees.PromotedPrecedes | src/binheap.c:107-123 | The promoted mode-extreme child has precedence over each of its siblings, which can then be attached under it. |
| Trees.DestroyRootCase | src/binheap.c:107-123 | Destroying a root with children keeps the forest. The promoted child is the only new parentless node. |
| Trees.DestroyLeafRoot | src/binheap.c:80-135 | Destroying a childless root only drops it and keeps the forest. |
| Trees.DestroyedEntries | src/binheap.c:80-135 | Destroying a node drops exactly its entry and leaves every other key and value unchanged. |
| Trees.DestroyedForest | src/binheap.c:80-135 | Destroying any node, buried or a root, keeps the forest invariant and leaves no dangling link. |
| Trees.DestroyedParents | src/binheap.c:80-135 | After destroying a buried node exactly the same nodes are parentless. After destroying a root, the parentless nodes are the old ones plus the promoted child. |
| Trees.RootsAfterRootDestroy | src/binheap.c:355-361 | Putting the promoted child, if any, at the destroyed root's index keeps the root list exact. |
| Trees.RootsAfterBuriedDestroy | src/binheap.c:235-243 | Destroying a node with a parent leaves the unchanged root list exact. |
| Trees.DominatingRoot | src/binheap.c:277-286 | Under the heap order every node lies below a root with precedence over it. |
| Trees.RootDominatesAll | src/binheap.c:277-286 | A root with precedence over every root has precedence over every stored key. |
| Trees.EmptyIffNoRoots | src/binheap.c:274-276 | The root list is empty exactly when the heap holds no node. |
| Trees.DescendMonotone | src/binheap.c:288-291 | Descending against the heap's mode only moves towards the requested direction. The leaf reached has precedence over the start in that direction. |
| Trees.CarryAscending | src/binheap.c:185-187 | Putting the carry of order k in front of the roots after the first k keeps the root orders strictly ascending. |
| Carry.CarryStep | src/binheap.c:175-184 | One carry link consumes the next root, which has the carry's order, and leaves a parentless carry one order higher. The untouched roots still form an exact root list with it. |
| Carry.CarryLinked | src/binheap.c:175-184 | The link that binomial_tree_merge performs on the carry and the next tree keeps the carry state, one order higher, with the winner as carry. |
| Carry.CarryOnce | src/binheap.c:175-184 | One pass of the carry loop links the carry with the next tree: the new arena is exactly that link and the new carry is the root of higher precedence. It keeps the forest and the carry state, moves the order on by one and shifts the next tree off the remaining roots. |
| Carry.CarryDone | src/binheap.c:185-187 | When the carry stops, it has consumed exactly the leading roots whose order equals their index. If the root orders were ascending, they still are. |
| Carry.CarryLoop | src/binheap.c:173-184 | The carry loop keeps the forest and the carry state. It stops at a root whose order differs from the carry's, or at the end of the list. |
| Carry.InsertLeaf | src/binheap.c:163-191 | Insert adds exactly one entry. The new root list is the carry followed by the roots it did not consume, and the carry's order is their number. Strictly ascending root orders stay strictly ascending. |
| Search.MaxMin | src/binheap.c:246-269 | __binheap_maxmin returns nothing exactly for an empty root list. Otherwise it returns the root at the index the scan picks, with precedence over every root, and the tie rules of each direction. |
| Search.DescendTo | src/binheap.c:288-291 | The descent ends at a childless node, which is the start or lies below it. Against the heap's mode, the leaf has precedence over the start. |
| Search.ExtremeNodeMeaning | src/binheap.c:271-338 | Maximum/minimum report nothing exactly for an empty heap. In the heap's own mode the answer is a global extreme. In the opposite mode it is a childless node with precedence over every root. |
| Search.ClosestAmong | src/binheap.c:198-209 | The candidate loop of binheap_delete returns the node the selection fold picks, or nothing. |
| Search.SearchDown | src/binheap.c:211-233 | The descent of binheap_delete follows parent-to-child links, visits only nodes with precedence over the key, and returns the node the search function names. |
| Search.FindTarget | src/binheap.c:193-233 | The node found compares equal to the key, and the path to it starts at a root. Finding no starting root means that no stored key compares equal to the key. |
| Search.MatchHasCandidate | src/binheap.c:198-209 | When some stored key compares equal to the sought key, the root selection finds a candidate. |
| Removal.Remove | src/binheap.c:355-361 | The arena left is the one destroy gives: still a forest with no dangling link, one node fewer, every other entry unchanged, and exactly the node's key gone from the key multiset. A destroyed root is taken out of the root list at its index and its promoted child, if any, is inserted at that index. A buried node leaves the list unchanged. The result is an exact root list. |
| Removal.ReplaceRoot | src/binheap.c:355-361 | fetch_value then insert_value: the root list with the root at index i replaced by its promoted child, or just without it when the root is childless. The index is the root's first occurrence. |
| Removal.ShrunkIntro | src/binheap.c:80-135 | The arena that destroy leaves is a forest with no dangling link and one node fewer. It holds every entry but the destroyed one, and its key multiset has lost exactly that key. |
| Removal.RootsRepairedIntro | src/binheap.c:355-361 | Replacing a destroyed root at its index by its promoted child, or keeping the list when the node was buried, gives an exact root list. |
| Removal.PickExtreme | src/binheap.c:343-353 | The extraction target is the scanned root. In the opposite mode, when that root has children, the target is the leaf reached below it. |
| Removal.ExtractExtreme | src/binheap.c:340-405 | An empty heap is left unchanged. Otherwise the target is destroyed, the key multiset loses exactly its key and the root list is repaired. In the heap's mode, the extracted key has precedence over every key left. |
| Removal.RemoveKey | src/binheap.c:193-244 | When nothing is found the heap is unchanged. Otherwise the node found compares equal to the key and is destroyed, and exactly its key leaves the multiset. |
| Cursors.LinkedCarryInv | src/binheap.c:453-463 | Linking the carry with a head of its order, the winner taking the head's place, keeps the forest and every root held once. |
| Cursors.LinkedHeads | src/binheap.c:494-495 | Linking the two heads, the winner taking the first head's place, keeps every root held once. |
| Cursors.LinkedHeadsInv | src/binheap.c:494-495 | Linking the two heads, the winner at the head of the first list and the second list moving on, keeps the forest, the heap order and every root held once. |
| Merging.LinkCarryFirst | src/binheap.c:453-464 | The carry and the first head are linked by precedence (the head wins ties), and the winner takes the head's place. |
| Merging.LinkCarrySecond | src/binheap.c:453-464 | The same link with the second head. |
| Merging.LinkHeadsFirst | src/binheap.c:494-495 | The two heads are linked by precedence (the first wins ties). The winner becomes the first head and the second list moves on. |
| Merging.EmitCarry | src/binheap.c:437-440 | The carry is pushed onto the new list, and every root is still held once. |
| Merging.EmitFirst | src/binheap.c:467-470 | The first head is pushed onto the new list and the next tree is shifted off the first list. |
| Merging.EmitSecond | src/binheap.c:471-474 | The same for the second list. |
| Merging.SwapFirst | src/binheap.c:442-445 | The carry and a higher-order first head trade places. |
| Merging.SwapSecond | src/binheap.c:446-450 | The carry and a higher-order second head trade places. |
| Merging.CarryFirst | src/binheap.c:504 | The first head becomes the carry and the first list moves on. |
| Merging.AbsorbCarry | src/binheap.c:430-465 | The carry block links the carry with a head of equal order, emits the carry when both lists are empty, or swaps it with a higher-order head. The number of trees not yet emitted does not grow. |
| Merging.LinkHeads | src/binheap.c:494-521 | Equal-order heads are linked, then the winner is linked with any carry. The result is the new carry and both lists move on. |
| Merging.EmitOrLink | src/binheap.c:467-521 | A lone head or a lone carry is emitted. Of two heads of different orders, the lower-order one is emitted first. Equal-order heads are linked. The number of trees not yet emitted drops. |
| Merging.MergeLoop | src/binheap.c:428-522 | The merge loop terminates, drains both lists and the carry, and leaves a new root list that holds every root exactly once. No entry changes. |
| Merging.MergeStart | src/binheap.c:424-426 | Shifting the first tree off both lists starts the loop with both heaps' roots held once each. |
| Merging.MergeRoots | src/binheap.c:421-531 | Merging the root lists gives a forest whose entries are the union of both heaps'. The key multisets add, the node counts add, and the new root list is exact. |
| Merging.CarryLinkAsWrittenBreaksOrder | src/binheap.c:496-502 | The carry link as written (raw `cmp >= 0`) puts 9 above 5 in a MIN heap and breaks the heap order. The precedence link keeps it. |
| Merging.HeadAndCarryOrdered | src/binheap.c:494-495 | Before the second link of that pass, the arena of the two heaps is heap-ordered for MIN. |
| Merging.AsWrittenLinkDisordered | src/binheap.c:496-502 | The raw `cmp >= 0` link makes 9 the parent of 5, which breaks the MIN heap order. |
| Merging.PrecedenceLinkOrdered | src/binheap.c:509 | Linking by precedence makes 5 the parent of 9 and keeps the MIN heap order. |
| Removal.DeleteRootAsWrittenDangles | src/binheap.c:235-243 | Deleting a root by key and leaving the root list as it is names a destroyed node. Replacing the node in the list gives an exact list. |
| Heap.BinomialHeap.constructor | src/binheap.c:137-146 | binheap_create gives an empty heap with the given mode and the caller's comparator, or the default one when none is given. |
| Heap.BinomialHeap.Count | src/binheap.c:408-412 | binheap_count is the number of stored entries and the size of the key multiset. |
| Heap.RemovalKeepsState | src/binheap.c:340-405 | A removal that leaves one entry fewer keeps the heap invariant. Exactly the removed entry leaves, and exactly its key leaves the key multiset. |
| Heap.MergeStates | src/binheap.c:414-532 | Merging two valid heap states of one mode gives a valid state holding the entries of both. The counts and the key multisets add. |
| Heap.BinomialHeap.Insert | src/binheap.c:163-191 | `count` grows by one and the multiset gains exactly the new key. The carry consumes exactly the leading trees whose order equals their index. Ascending root orders stay ascending. |
| Heap.BinomialHeap.Extreme | src/binheap.c:271-338 | binheap_maximum/binheap_minimum report nothing exactly on an empty heap and leave the heap unchanged. In the heap's mode the answer has precedence over every stored key. Otherwise it has precedence over every root. |
| Heap.BinomialHeap.DeleteExtreme | src/binheap.c:340-405 | On an empty heap nothing changes. Otherwise `count` drops by one and the value returned is the destroyed node's. A root is replaced at its index by its promoted child, and a buried leaf leaves the root list unchanged. In the heap's mode the key has precedence over every key left, so draining yields keys in precedence order. |
| Heap.BinomialHeap.Delete | src/binheap.c:193-244 | When nothing is found the heap is unchanged. Otherwise the destroyed key compares equal to the requested key, `count` drops by one and exactly that key leaves the multiset. |
| Heap.BinomialHeap.Merge | src/binheap.c:414-532 | Heaps of different modes are refused and both are unchanged. Otherwise this heap holds its own entries plus the other heap's entries under identities moved above its own, the counts add, the key multisets add, and the other heap is drained. |
| States.MovedGood | src/binheap.c:421-531 | Moving every node identity of a valid heap state by one offset, its roots, ranks and allocator with it, gives a valid heap state. |
| Relabel.MovedForest | src/binheap.c:421-531 | Moving the identities of a heap-ordered, ranked forest keeps it a heap-ordered, ranked forest with the same links. |
| Relabel.MovedRoots | src/binheap.c:421-531 | The moved root list is the exact root list of the moved arena. |
| Relabel.EntriesMoved | src/binheap.c:421-531 | The entries of the moved arena are the original entries under the moved identities. |
| Relabel.KeysMoved | src/binheap.c:421-531 | Moving the identities keeps the multiset of stored keys. |

## Findings

| source | as written | input that shows it | evidently intended | confidence | as-written member | corrected member |
|---|---|---|---|---|---|---|
| src/binheap.c:497 | The second link of an equal-order merge pass uses raw `cmp >= 0` when the first head won. In MIN mode the larger key becomes the parent. | Two MIN heaps: insert 9, 1, 5, then delete_minimum, giving roots [5, 9]. Insert 10, 2, 6, then delete_minimum, giving roots [6, 10]. Merging them puts 5 under 9, and minimum() then reports 9. | HAS_PRECEDENCE, as in the mirrored branch at line 509. | high (not executed) | Merging.CarryLinkAsWrittenBreaksOrder | Merging.LinkCarryFirst |
| src/binheap.c:235-243 | binheap_delete destroys the node it finds but never updates the root list. When that node is a root, the list keeps a reference to freed memory, and a promoted child is left out of the list. | A MIN heap holding the single key [1], then delete([1]). | Do what extraction does (lines 355-361): remove the root at its index and insert the promoted child there. | high (not executed) | Removal.DeleteRootAsWrittenDangles | Removal.RemoveKey |

## Left out

- Memory management is not modelled: `malloc`/`calloc`/`realloc`/`free`, key-byte copying, `binheap_destroy` and the root list's free-value callback. Node identities stand for addresses, and a fresh one is taken from a counter.
- The value/vlen payload is an opaque `int`. It is stored and returned but never inspected.
- The root-list container (`linklist.h`) is not part of this model. Its shift/unshift/push/fetch/insert operations are plain sequence operations.
- The user comparator is an arbitrary function that the constructor requires to be a total preorder (`Keys.ComparatorLaws`).
- The default comparator's `kl1 - kl2` is exact here. The C conversion of that `size_t` difference to `int` is not modelled.
- `count` and the `uint32_t` indices are unbounded integers.
- `count--` after `free(node)` (line 134) is modelled as its evident intent: the count drops by one.
- The overlapping `memcpy` (lines 98-100) and the off-by-one copy length `num_children - child_index + 1` (line 117) are modelled as order-preserving removal of one child.
- The unfinished branch of `binomial_tree_node_add` for a child that already has a parent (lines 39-41) is not reproduced. The model attaches only nodes with no live parent.
- Heap.BinomialHeap.Delete: destroying a root replaces it at its index with the promoted child, as extraction does, instead of leaving a dangling list entry (see Findings).
- Heap.BinomialHeap.Delete: does not promise to find a key that is present. The guided descent can miss one, so only the local facts are proved: the match compares equal, and the visited nodes have precedence over the key.
- Heap.BinomialHeap.Extreme: in the mode opposite to the heap's, the answer is only proved childless and to have precedence over every root. The greedy descent need not reach the true extreme.
- Heap.BinomialHeap.DeleteExtreme: the same limit applies to extraction in the opposite mode.
- Heap.BinomialHeap.Merge: models the precedence link at line 497 rather than the raw comparison (see Findings).
- Heap.BinomialHeap.Merge: takes the other heap's nodes over under identities offset by this heap's allocator count, because each modelled heap numbers its nodes from 0. In C the nodes keep their addresses.
- Heap.BinomialHeap.Merge: requires the two comparators to agree when the modes agree. The C code merges any two heaps and keeps the first heap's comparator.
- Heap.BinomialHeap.Merge: does not model merging a heap with itself (binheap_merge(bh, bh)), where the C loop shifts both heads off the same list. The model requires other != this.
- Heap.BinomialHeap.Merge: the second heap is freed in C. The model leaves it as an empty heap.
- Binomial shape is not proved: that a node's child count equals its order, that the root list has at most one tree per order, or that merge output is ordered. Deletions re-home children and break that shape. Ascending root orders are proved only for insertion.

Where the source's documentation and its code disagree, the model follows the code:

- Ties in find_min_child go to the highest index, not the lowest, because of `<=`.
- The root list can hold two trees of one order after deletions.
- Mismatched modes in merge return NULL. No error kind is reported.
