# A verified model of the index-db B+tree

index-db is an ordered in-memory map, kept as a B+tree whose nodes live in a slab and refer to each other
by numeric ids. This project models the whole engine (the node store, the insert, remove, lookup and
bulk-load algorithms, the cursors and double-ended iterators, and the public `BPlusTree` type) and proves
that it is a sorted finite map for every tree order from 3 up, every input and every run.

## How the proof is laid out

| file | what it holds |
|---|---|
| `Wrappers.dfy`, `SortedEntries.dfy` | the reference semantics: ascending sequences with `Put`, `Del`, `Find`, and the finite map they stand for |
| `Nodes.dfy` | nodes and the searches inside one node |
| `Store.dfy`, `Multisets.dfy` | the slab with its free list behind a map of live nodes; id bookkeeping |
| `Trees.dfy` | the tree below an id (`Rep`), the slots it occupies (`IdBag`), and the two halves of the invariant, `Balanced` and `Ordered` |
| `TreeInsert.dfy`, `Grafting.dfy`, `Insertion.dfy` | insertion on trees, and the methods that carry it out in the store |
| `TreeRemove.dfy`, `Removal.dfy` | removal on trees, and the methods that carry it out in the store |
| `Shapes.dfy` | trees without their ids: what insertions and removals make of a tree does not depend on the slots |
| `BulkLoad.dfy`, `Determinism.dfy`, `Lookups.dfy` | bottom-up loading, the uniqueness of what it builds, and point lookup |
| `Bounds.dfy`, `Checks.dfy` | height, size and node-count bounds; the test suite's structural check |
| `Paths.dfy`, `Steps.dfy`, `Seeks.dfy`, `Cursors.dfy`, `Iters.dfy`, `Scans.dfy` | positions in key order, cursors, range bounds, double-ended iterators |
| `Visits.dfy`, `Walks.dfy` | how often a walk enters one given node, and what whole scans cost |
| `PublicIndex.dfy`, `Runs.dfy` | the public type, and whole runs against a finite map and a tree shape kept in lockstep |

`IsIndex(nodes, t, h, order)` is the invariant of an index: `t` is what the store holds under the root id, its
nodes occupy exactly the live slots and each slot once (so nothing is shared, cyclic or leaked), all leaves are
at depth `h`, every node is within its occupancy limits, and separators bound their subtrees by half-open
ranges. Every writer is a method on the store that is proved to keep it and to turn the in-order sequence into
`Put` or `Del` of the old one. The arms that the source calls unreachable (a node of the wrong kind, a pop from
an empty node, siblings of different kinds in a merge) are `assert false` in the model, so they are proved dead.

`Ins` and `Rem` give the tree after an insertion or a removal. Where a split cuts, which neighbour lends, which
node is freed and how a load shares out its nodes is also stated without them, in numbers of keys and in nodes of
the store: `Insertion.InsertLeaf`, `Removal.Rebalance`, `Removal.BorrowFromLeft`, `BulkLoad.Load`. As a
consequence order, origin and operations determine every reply of a run, heights included, whatever slots the
store hands out (`Runs.OneHistory`).

Ids are 32 bits wide and the source truncates the slab length to them without a check. The model keeps the
truncation: `Store.InMemoryStore.Alloc` says exactly when an id names its slot, and that a wrapped id names a
live node; `Store.FullSlab` is a full slab in which that happens. What an index needs to stay clear of it is
stated exactly. An insertion adds `Splits + Grows` nodes, no more and no less; with that many ids left it keeps
the invariant (`Insertion.Insert`), and without them no store with 32-bit ids can hold the resulting tree at all
(`Insertion.RoomIsNeeded`). A bulk load makes exactly `BulkLoad.LoadedNodes` nodes. `Bounds.Population` turns
node counts into entry counts, by order: `NodeBound(n, order)` nodes suffice for any tree of `n` entries, which
for orders 3 and 4 is `2n - 1` and for the public order 64 about `n / 30`, so that no id wraps before
128,983,236,609 entries (`PublicIndex.DefaultCapacity`).

The documentation says that a lookup visits at most `log_b(n)` levels (docs/API.md:698-699). The code visits
`height()` levels, and `Bounds.MoreLevelsThanLogarithm` shows that this exceeds `log_b(n)` for every tree with
`n >= 1` entries (the logarithm of 0 is undefined); the bounds that do hold are `Bounds.HeightBounds`. The
amortised constant cost per scanned entry (docs/API.md:701-702) does hold: see `Walks` and the push budgets in
`Iters`.

## Model

| member | source | states |
|---|---|---|
| Nodes.BinarySearch | src/node.rs:81-86 | finds the key's index in strictly sorted keys, or the only index where it can be inserted (the contract of the standard search) |
| Nodes.LocatesUnique | src/node.rs:81-86 | that contract determines the result, so any search that meets it gives the same tree |
| Nodes.ChildIndex | src/node.rs:106-111 | the child that owns a key: separators before it are at most the key, later ones above it |
| Nodes.LeafGet | src/node.rs:81-86 | a leaf lookup is `Find` on the leaf's entries |
| Nodes.LeafPut | src/ops.rs:110-114 | overwriting or inserting at the searched index is `Put` on the leaf's entries |
| Nodes.LeafDel | src/node.rs:89-97 | removing at the searched index is `Del` on the leaf's entries, and a missing key changes nothing |
| Store.InMemoryStore.constructor | src/store.rs:63-68 | a new store has no nodes and an empty slab |
| Store.InMemoryStore.Alloc | src/store.rs:72-81 | the node goes to a slot that was not live, the last freed one first; the id names that slot iff the free list was not empty or the slab had fewer than 2^32 slots, and otherwise names a live node |
| Store.InMemoryStore.Reclaim | src/store.rs:83-89 | hands back the node, leaves an empty leaf in the slot and puts it on the free list |
| Store.InMemoryStore.Get | src/store.rs:92-94 | resolves a live id to its node |
| Store.InMemoryStore.Set | src/store.rs:97-99 | an edit through a mutable borrow changes that node and nothing else |
| Store.InMemoryStore.Reset | src/store.rs:101-105 | leaves one empty leaf in a slab of one slot |
| Store.Census | src/store.rs:48-58 | live and free slots add up to the slab: nothing leaks |
| Store.FullSlab | src/store.rs:72-81 | slabs of every length can be all live, and in one of 2^32 or more slots the truncated next id names a live node instead of the new slot |
| Trees.SeparatorPromise | src/node.rs:36-46 | every key left of a separator is below it, every key right of it is at least it |
| Trees.OrderedEntries | src/tree.rs:434-521 | under the separator invariant the in-order sequence ascends strictly and stays in the inherited range |
| Trees.StoredIsFind | src/ops.rs:31-43 | the search from the root finds exactly what the in-order sequence holds under the key |
| Trees.RepFrame | src/ops.rs:1-12 | a tree survives every change of the store outside its own ids |
| Trees.MinKeys | src/tree.rs:402-404 | the minimum `m` satisfies `1 <= m` and `2m + 1 <= order <= 2m + 2` for every order from 3 up |
| TreeInsert.CutEntries | src/ops.rs:115-125 | splitting a leaf or a branch keeps every entry and every child in order and only adds one node |
| TreeInsert.CutFits | src/ops.rs:166-180 | both halves of an overfull node hold between `min_keys` and `order - 1` keys and keep to their side of the separator |
| TreeInsert.InsShape | src/ops.rs:70-91 | a subtree splits exactly when the whole path below it overflows, and its left half keeps its id |
| TreeInsert.CutHalves | src/ops.rs:117-125 | of `n` keys, `n / 2` stay left; a leaf copies the key at `n / 2` up as the separator, which stays the first key on the right, and a branch gives it away |
| TreeInsert.InsHalves | src/ops.rs:117-194 | wherever an insertion splits a node, that node has exactly `order` keys, of which `order / 2` stay left and the others, less a branch's median, go right |
| TreeInsert.InsFits | src/ops.rs:70-196 | insertion keeps depth, occupancy and separator bounds through the whole cascade of splits |
| TreeInsert.InsEntries | src/ops.rs:70-196 | the in-order sequence after an insertion is `Put` of the one before |
| TreeInsert.InsCount | src/ops.rs:70-196 | an insertion adds exactly one node for every node that splits |
| Insertion.InsertLeaf | src/ops.rs:94-141 | overwrites, inserts, or splits exactly when the key is new and the leaf already has `order - 1` keys; then the old node holds `order / 2` keys, the new one the other `order - order / 2`, and the separator is the first of these; reports the displaced value or the split |
| Insertion.SplitInternal | src/ops.rs:168-194 | of `n` keys the left `n / 2` stay at the id, the median is given away, and the rest goes to a new node |
| Insertion.AbsorbSplit | src/ops.rs:146-196 | puts the separator and the new child in place and splits the node, in the middle, exactly if it then has `order` keys or more |
| Insertion.InsertInto | src/ops.rs:70-91 | the store holds the inserted tree, changes only ids on the search path, and allocates as many nodes as there are splits |
| Insertion.GrowRoot | src/ops.rs:55-65 | a new root above the halves of a split one makes an index one level taller |
| Insertion.Insert | src/ops.rs:47-67 | keeps the invariant, puts the entry into the sequence, returns the displaced value, grows by a level exactly when the root overflows, adds exactly one node per split and one per new root, touches only the search path, without a split changes one leaf only, and leaves a shape that depends on the shape before alone |
| Insertion.RoomIsNeeded | src/store.rs:77-79 | if some store whose ids all fit 32 bits holds the tree after an insertion as an index, then the nodes before and those the insertion adds are at most 2^32: the precondition of `Insert` is necessary |
| Insertion.NodesAfter | src/ops.rs:47-67 | those nodes are never more than `NodeBound` of the entries afterwards, so a number of entries decides that there is room |
| Insertion.OneLeafChanges | src/ops.rs:109-116 | an insertion that splits nothing, as every overwrite, changes exactly the leaf where the search ends |
| TreeRemove.RepairedEntries | src/ops.rs:267-308 | borrowing and merging lose no entry, and free exactly the merged-away node |
| TreeRemove.RepairedOrdered | src/ops.rs:312-463 | borrowing and merging keep key order and separator bounds |
| TreeRemove.RepairedBalanced | src/ops.rs:267-308 | one repair makes every child of the level a full member again and costs the parent at most one separator |
| TreeRemove.ShiftRightBalanced | src/ops.rs:312-359 | a sibling borrowed from stays at or above its minimum and the borrower reaches it |
| TreeRemove.JoinBalanced | src/ops.rs:435-463 | merging a short child with a sibling at its minimum never exceeds `order - 1` keys |
| TreeRemove.RemBalanced | src/ops.rs:217-246 | after the cascade every leaf is at its old depth and only the root of the subtree may be short, by one key |
| TreeRemove.RemOrdered | src/ops.rs:217-246 | removal keeps key order and separator bounds |
| TreeRemove.RemEntries | src/ops.rs:217-246 | the in-order sequence after a removal is `Del` of the one before |
| TreeRemove.RemCount | src/ops.rs:236-244 | a node loses a key exactly if it is a leaf that had the entry, or a branch whose child on the path loses one, was at the minimum, and has no neighbour above it; every such branch costs one node |
| Removal.BorrowFromLeft | src/ops.rs:312-359 | the left sibling loses its last key; that key becomes the separator; the child gets in front what was there before: a leaf that key itself, a branch the old separator; nothing else changes |
| Removal.BorrowFromRight | src/ops.rs:363-430 | the right sibling loses its first key; the separator becomes that key between branches and the sibling's next one between leaves; the child gets at the end the old separator or the key itself; nothing else changes |
| Removal.Merge | src/ops.rs:435-463 | the left sibling holds its keys, between branches the separator, and the right one's keys; the parent loses separator and child; the right slot is the next to be reused |
| Removal.Rebalance | src/ops.rs:267-308 | a neighbour with more than `min_keys` keys lends one, the left one before the right, and the other neighbour stays as it is; exactly when neither has one to spare a node is freed, the child, or its right neighbour if it is the first; nothing outside these and the parent changes |
| Removal.RemoveFrom | src/ops.rs:217-246 | returns the stored value; the store holds the tree after removal and changes only ids on the path or next to it; an absent key leaves slab, free list and live nodes unchanged |
| Removal.CollapseRoot | src/ops.rs:251-263 | a root hands over to its child and is reclaimed, and a level is lost, if and only if it is a branch with a single child; the entries stay |
| Removal.Remove | src/ops.rs:200-213 | keeps the invariant, deletes the entry from the sequence, returns its value, loses a level exactly when the root has one separator and a merge takes it, frees exactly one node per merge and one per shed root, changes a single leaf if that has a key to spare, touches otherwise only the path and its neighbours, never raises the high-water mark, leaves the whole store and the root alone for an absent key, and leaves a shape that depends on the shape before alone |
| Shapes.InsertedShape | src/ops.rs:47-196 | inserting into two trees that differ in ids only, with whatever new slots, gives trees that differ in ids only |
| Shapes.RemovedShape | src/ops.rs:200-463 | the same for removing |
| BulkLoad.EvenChunks | src/ops.rs:535-547 | the fewest chunks within the maximum, none empty, adding up to the total; chunk `i` of `k` has `total / k` items, and one more if `i < total % k` |
| BulkLoad.LeafOccupancy | src/ops.rs:483-495 | with two or more chunks of at most `order - 1`, every leaf meets the minimum |
| BulkLoad.BranchOccupancy | src/ops.rs:502-524 | with two or more chunks of at most `order`, every branch meets the minimum |
| BulkLoad.LoadLeaves | src/ops.rs:480-495 | the leaf level holds the entries in order, in as few leaves as possible; leaf `i` of `k` holds `n / k` entries, and one more if `i < n % k` |
| BulkLoad.LoadLevel | src/ops.rs:498-527 | the nodes of the level become the children of the next one in order, parent `i` of `k` having `n / k` of them, and one more if `i < n % k`; separators are the least keys of children, and the level is strictly shorter |
| BulkLoad.ExactOrdered | src/ops.rs:510-518 | least keys as separators over an ascending sequence satisfy the separator invariant |
| BulkLoad.Load | src/ops.rs:470-530 | ascending entries give an index with exactly these entries, separators equal to the minimum of their right subtree, exactly `LoadedNodes` nodes, more entries than any lower tree could hold, and on every level the number of nodes of `LevelCount` and the even shares of `EvenChunks`, larger ones first |
| BulkLoad.LevelCapacity | src/ops.rs:480-527 | on every level a load makes the fewest nodes that could hold the entries if all below were full, although each level only counts the one below it |
| BulkLoad.LoadedIsLowest | src/ops.rs:498-529 | no tree of the same order with as many entries is lower than the loaded one |
| Determinism.LoadUnique | src/ops.rs:470-530 | any two trees that meet this contract for the same entries and order have the same height and differ in ids only |
| Lookups.Get | src/ops.rs:31-43 | a lookup finds what the sequence holds under the key, reading exactly one node per level |
| Bounds.HeightBounds | src/tree.rs:210-218 | with `t = ceil(order/2)`, height `h >= 2` means `2 (t-1) t^(h-2) <= n <= (order-1) order^(h-1)` |
| Bounds.EveryPathHasHeight | src/tree.rs:190-209 | every walk from the root to a leaf visits exactly `height` nodes |
| Bounds.MillionKeys | src/tree.rs:15-18 | a tree of order 64 with a million keys is exactly four levels tall, however it was built |
| Bounds.MoreLevelsThanLogarithm | docs/API.md:698-699 | a tree of `h` levels holds fewer than `order^h` entries, so for every `n >= 1` the documented bound of `log_b(n)` levels fails |
| Bounds.Population | src/store.rs:72-81 | an index of `n` entries has at most `NodeBound(n, order)` nodes, which shrinks with the minimum occupancy of the order, and never more than `max(1, 2n - 1)` |
| Checks.CheckIsInvariant | src/tree.rs:434-521 | the test suite's check accepts exactly the non-empty trees that satisfy `Balanced` and `Ordered`, and reports their height |
| Paths.Part | src/iter.rs:19-22 | the subtree at the end of a path is a contiguous part of the in-order sequence, at the offset the path determines |
| Paths.PositionUnique | src/iter.rs:46-50 | two positions have the same rank iff they are in the same leaf at the same index, and then their paths agree |
| Steps.PositionWalk | src/iter.rs:106-125 | between two positions a walk enters at most one internal node per entry and one per level |
| Seeks.RangeBetweenCuts | src/iter.rs:327-342 | for any two bounds, the entries that satisfy both are those between the two cuts, none if the cuts cross |
| Seeks.RangeByEnds | src/iter.rs:337-339 | comparing the two end keys tells exactly whether the range is empty |
| Seeks.InRangeMember | src/iter.rs:327-342 | an entry is in range iff it is in the index and meets both bounds, with `<=` for an included one, `<` for an excluded one, and no condition for an unbounded one |
| Seeks.InRangeAscending | src/iter.rs:327-342 | the range ascends, so that its members determine it |
| Seeks.InRangeOfAll | src/iter.rs:327-342 | without bounds the range is the whole sequence |
| Seeks.LowerCutMeans | src/iter.rs:191-206 | the lower cut separates exactly the entries at or above, or above, the bound, and is 0 for an unbounded one |
| Seeks.UpperCutMeans | src/iter.rs:224-239 | the upper cut separates exactly the entries at or below, or below, the bound, and is the end for an unbounded one |
| Seeks.StepTo | src/iter.rs:266-271 | each step of the descent keeps all entries left of the path below the probe and all right of it above |
| Cursors.DescendTo | src/iter.rs:259-276 | ends in the leaf that all smaller entries precede and all larger entries follow |
| Cursors.LeftEdge | src/iter.rs:151-166 | going down the first children reaches a leaf without passing an entry, one frame per internal node |
| Cursors.RightEdge | src/iter.rs:170-186 | going down the last children reaches a leaf that ends where the start node ends |
| Cursors.TurnRight | src/iter.rs:111-124 | climbing to the next frame with a child further right leads to the subtree that begins where the current one ends, and finds none only at the end of the sequence |
| Cursors.TurnLeft | src/iter.rs:133-146 | climbing to the next frame with a child further left leads to the subtree that ends where the current one begins, and finds none only at its beginning |
| Cursors.Cursor.Current | src/iter.rs:34-36 | the current entry is the one at the cursor's rank |
| Cursors.Cursor.SamePosition | src/iter.rs:48-50 | comparing leaf and index is comparing ranks |
| Cursors.Cursor.First | src/iter.rs:53-76 | rank 0, or nothing iff the index is empty |
| Cursors.Cursor.Last | src/iter.rs:79-103 | the last rank, or nothing iff the index is empty |
| Cursors.Cursor.StepForward | src/iter.rs:106-125 | moves the rank by one and stays on a genuine path, or reports false exactly at the last entry; pushes as many frames as there are internal nodes newly entered |
| Cursors.Cursor.StepBackward | src/iter.rs:128-147 | moves the rank back by one, or reports false exactly at the first entry; same cost |
| Cursors.Cursor.DescendLeftmost | src/iter.rs:151-166 | lands on the first entry below the node |
| Cursors.Cursor.DescendRightmost | src/iter.rs:170-186 | lands on the last entry below the node |
| Cursors.Cursor.LowerBound | src/iter.rs:191-221 | the first entry that satisfies the bound, or nothing iff none does, also when a separator lies below its right subtree's minimum; the very first entry for an unbounded one |
| Cursors.Cursor.UpperBound | src/iter.rs:224-254 | the last entry that satisfies the bound, or nothing iff none does; the very last entry for an unbounded one |
| Cursors.Cursor.AtOrAfter | src/iter.rs:207-220 | a cursor at a leaf index, or past the leaf's end at the next entry in key order, iff there is one |
| Cursors.Cursor.JustBefore | src/iter.rs:240-253 | a cursor just before a leaf index, or before the leaf's start at the previous entry in key order, iff there is one |
| Walks.ForthAndBack | src/iter.rs:106-147 | a step forward and one back lead to the same path, leaf and index |
| Walks.BackAndForth | src/iter.rs:106-147 | a step back and one forward lead to the same path, leaf and index |
| Walks.ScanForward | src/iter.rs:106-125 | a full scan yields all entries in order, pushes and pops the frame of each internal node exactly once and no other, at most one per entry |
| Walks.ScanBackward | src/iter.rs:128-147 | the same in reverse |
| Visits.TimesOnce | src/iter.rs:19-22 | in an index an id stands for an internal node exactly once if the store holds one under it, and never otherwise |
| Iters.Iter.Full | src/iter.rs:315-322 | all entries remain; however it is driven, at most `height` more frames are pushed than there are internal nodes |
| Iters.Iter.Range | src/iter.rs:327-342 | exactly the entries within both bounds remain, for included, excluded, unbounded, inverted and empty bounds; however it is driven, it pushes at most one frame per entry and five per level |
| Iters.Iter.Next | src/iter.rs:348-357 | takes the first remaining entry off, or yields nothing and stays exhausted |
| Iters.Iter.NextBack | src/iter.rs:361-370 | takes the last remaining entry off, or yields nothing and stays exhausted |
| Iters.Iter.GapBound | docs/API.md:701-702 | at any time at most one frame per remaining entry and one per level is still to be pushed |
| Scans.Interleaving | src/iter.rs:345-371 | under every interleaving, front yields, remaining entries and reversed back yields make up the range, each entry once |
| Scans.Exhaustion | src/iter.rs:345-371 | the k-th draw yields nothing iff k is at least the number of entries, from either end |
| Scans.Drive | src/iter.rs:345-371 | an iterator driven by any schedule is that deque, within its budget of pushes |
| PublicIndex.IsAscending | src/tree.rs:133 | comparing neighbours tells exactly whether all keys ascend strictly |
| PublicIndex.BPlusTree.WithOrder | src/tree.rs:86-95 | an empty index whose order is the given one from 3 up, and 3 below that |
| PublicIndex.BPlusTree.New | src/tree.rs:76-78 | an empty index of order 64 |
| PublicIndex.BPlusTree.FromEntries | src/tree.rs:121-123 | an index of order 64 over the map of the entries |
| PublicIndex.BPlusTree.FromSorted | src/tree.rs:127-150 | on both branches the order is the given one from 3 up and 3 below, and the map is the input stored one by one, a later duplicate winning; ascending input gives its own sequence, in the tree of `BulkLoad.Load`, and other input the tree that inserting in the given order builds |
| PublicIndex.BPlusTree.InsertAll | src/tree.rs:143-147 | inserting entries one by one, the first one first, builds their map, and the tree of exactly these insertions |
| PublicIndex.SameMapSameListing | src/tree.rs:127-150 | indexes of the same map have the same in-order sequence, so bulk-loaded and insert-built ones agree |
| PublicIndex.BPlusTree.Facts | src/tree.rs:60-66 | in every state `len` is the size of the map, the height bounds hold, live nodes are bounded by `len` as in `Population`, live and free slots make up the slab, and the slab is bounded in the same way by the greatest number of entries since the index was last empty |
| PublicIndex.BPlusTree.Len | src/tree.rs:167-169 | `len` is the cardinality of the map |
| PublicIndex.BPlusTree.IsEmpty | src/tree.rs:185-187 | empty iff the map is empty |
| PublicIndex.BPlusTree.Height | src/tree.rs:210-218 | the walk down the first children counts the levels |
| PublicIndex.BPlusTree.Clear | src/tree.rs:233-236 | leaves the empty map, in a slab of one slot |
| PublicIndex.BPlusTree.Get | src/tree.rs:281-283 | map lookup |
| PublicIndex.BPlusTree.ContainsKey | src/tree.rs:299-301 | map membership |
| PublicIndex.BPlusTree.Iterate | src/tree.rs:261-263 | an iterator over the whole sequence |
| PublicIndex.BPlusTree.Range | src/tree.rs:334-341 | an iterator over the entries within two bounds |
| PublicIndex.BPlusTree.Insert | src/tree.rs:359-366 | updates the map at the key, returns the previous value, keeps the invariant, grows by a level exactly when the whole search path overflows, and leaves the shape that `Ins` makes of the old one |
| PublicIndex.BPlusTree.Remove | src/tree.rs:389-397 | removes the key from the map, returns its value, keeps the invariant, loses a level exactly when a merge takes the last separator of the root, never lengthens the slab (docs/API.md:693), leaves the shape that `Rem` makes of the old one, and changes nothing at all for an absent key; the decrement of `len` never underflows |
| PublicIndex.BPlusTree.RoomToGrow | src/store.rs:72-81 | a present key always has room, and a new one as long as no tree of one entry more can exceed 2^32 nodes |
| PublicIndex.DefaultCapacity | src/tree.rs:15-18 | with order 64, `NodeBound` stays within 2^32 exactly up to 128,983,236,609 entries |
| Runs.Run | src/tree.rs:68-404 | over any run from an empty or loaded index, every reply (values, membership, length, height, and every schedule of draws from full and range iterators) is the one that a finite map and a tree shape kept in lockstep give |
| Runs.OneHistory | src/store.rs:1-14 | two runs of the same operations on the same origin and order give the same replies, heights included: ids, slots and the free list never show |

## Left out

- PublicIndex.BPlusTree.Insert: requires `HasRoom`, that the nodes it adds still get ids within 32 bits; past that point the source hands out an id that already names a live node, and `Insertion.RoomIsNeeded` shows that no index can result.
- PublicIndex.BPlusTree.FromSorted: requires, for ascending input, that the nodes it makes fit 32-bit ids (exact); for other input, as in PublicIndex.BPlusTree.InsertAll, that no tree over the distinct keys can exceed them, which is decided by their number and the order.
- BulkLoad.Load: requires that the nodes it makes, `LoadedNodes(n, order)` and no fewer, fit 32-bit ids.
- Runs.Run: requires that, wherever an operation adds an entry, no tree of that many entries can exceed 32-bit ids; this depends on the map alone and suffices, while the exact condition of one insertion, `HasRoom`, depends on the tree.
- Insertion.Insert: requires that the live nodes and the ones the insertion adds fit the id width; this is necessary, by Insertion.RoomIsNeeded.
- Keys are integers. The code only compares keys, so any totally ordered keys behave the same; a key type with an inconsistent `Ord` is not modelled.
- The saturation of `len` at the largest `usize` (src/tree.rs:363) cannot be reached, because that many distinct keys do not fit the address space, and is not modelled.
- The standard library's `binary_search` is replaced by a verified search with the same contract.
- A mutable borrow of a node is modelled as reading the node and writing it back; nodes are values in the slab, so two borrows of one slot do not arise.
- Cursor frames hold node ids instead of references, and leaf addresses are compared as ids; that a tree does not change while it is iterated is a condition of the iterator's validity here, where the source has the borrow checker.
- The way down to the first leaf is written out in `first` and again in `descend_leftmost`; the model has it once, as `Cursors.LeftEdge`, and likewise `Cursors.RightEdge`. Steps pop a copy of the path and write it back, where the source pops in place.
- The `NodeStore` trait has one implementation and is modelled by it; the algorithms use only the contracts of its methods.
- `EmptyLeaf`, `keys_len`, `as_leaf`, `Default`, `IntoIterator`, the conversion of range expressions into two bounds, and `key` of a cursor have no content of their own.
- Vector capacities, `no_std`, timing figures, benches, examples and thread-safety markers have no functional content.
- The page-backed store, concurrency control and leaf sibling links that the planning documents mention do not exist in the code.
