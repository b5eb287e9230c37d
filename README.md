# Double-ended priority queue: a verified model

This project models the two queues of the C# library gusxo/Double-Ended-Priority-Queue and
proves their behaviour.

- **`PriorityQueue<T>`** is a single-ended priority queue. It is a pointer-linked binary heap.
  Each node records the sizes of its left and right subtrees (`LeftCount`, `RightCount`).
  - Insertion walks from the root towards the smaller side, hangs the new node on the first free
    child slot (left first) and sifts it up.
  - Deletion walks right-first to a leaf below the target and swaps the leaf's element with the
    target's. It then decrements the counters above the leaf, detaches the leaf and sifts the moved
    element down.
  - All reordering swaps elements; no sift ever relinks nodes.
- **`DEPriorityQueue<T>`** is a double-ended priority queue. It keeps two such trees:
  - a max tree that ranks with the caller's comparator;
  - a min tree that ranks with its negation.

  Every element is held by one node in each tree, and the two nodes ("twins") point at each
  other through `Another`. `SwapValue` moves an element together with its twin link and repairs
  the twins' back links. `Dequeue(select)` deletes the root of the selected tree and then the
  root's twin, an arbitrary node, from the other tree.

Modelling choices:

- **Elements and comparator.** The element type is `int`. Two comparators are modelled,
  selected by a `Priority` value:
  - `a < b`, read as "b has strictly higher priority than a" (`Priorities.MaxCompare`, for
    `Highest`);
  - its negation (`Priorities.MinCompare`, for `Lowest`).

  The single-ended queue is modelled for both: its constructor takes the `Priority` that
  fixes its comparator. The double-ended queue's max tree uses `MaxCompare` and its min tree
  `MinCompare`, exactly as the C# constructor builds `minCompare`.
- **Nodes are arena handles.** Each tree is held in parallel columns indexed by an integer
  handle, with `Nil = -1` for a null reference. The columns are value, parent, left, right,
  left count and right count, plus `another` in the double-ended queue. Allocating a node
  appends to every column. The reference `node.Left` becomes `left[node]`, and so on.
- **One arena per tree.** In the double-ended queue each tree has its own `Arena` object, and
  a twin link is a handle into the other arena. The C# nodes of the two trees are distinct
  objects, so this loses nothing.
- **Ghost subtree sets.** A ghost column `sub` gives the set of handles in the subtree of
  every node. The live nodes of a tree are `sub[root]`, and the queue's contents are the
  multiset of their values.
- **State invariant.** Every operation keeps the invariant `Valid()`:
  - `Shaped`: the links form a tree whose subtree sets match.
  - `Counted`: every counter equals the size of the subtree on its side.
  - `HeapOrdered`: no child outranks its parent under the tree's order.
  - `LeftFirst`, single-ended queue only: no node has a right child without a left child.
  - Size at most `int.MaxValue`.
  - Double-ended queue only: the live nodes of the two trees are matched one to one as twins
    holding the same element (`Twins.Paired`).
- **Methods proved against functions.** Every loop of the source is a `while` loop in a
  method, proved against a pure function of module `Sifting`:
  - `AddParentCount` against `Raised`;
  - `UpHeap` against `Risen`;
  - `DownHeap` against `Sunk`;
  - the insertion walk (`Insert`, in both queues) against `InsertionPoint`;
  - the right-first walk of `DeleteNode` (`LeafBelow`, in both queues) against `LeafOf`.

  The properties of these functions are lemmas: they keep the multiset, restore heap order,
  and move the right counters. The two walks are described by where they end: `InsertionPoint`
  at a node of the tree with a free child slot, `LeafOf` at a leaf below the start.
- **Errors as values.** Exceptions become `Result` / `Outcome` values.

Files:

- `outcomes.dfy`: error values and the `int.MaxValue` capacity.
- `priorities.dfy`: the comparator and heap order.
- `bags.dfy`: the multiset of values over a handle set.
- `shape.dfy`: tree shape and linking and unlinking a leaf.
- `sifting.dfy`: the specification functions and the compound delete and link lemmas.
- `twins.dfy`: twin matching.
- `priority_queue.dfy`: the single-ended queue.
- `de_priority_queue.dfy`: the double-ended queue.
- `drain.dfy`: a client that empties a queue.
- `scenarios.dfy`: clients that build a queue and run fixed enqueue and dequeue sequences.

## Model

| member | source | states |
|---|---|---|
| SingleEndedQueue.PriorityQueue.NewNode | PriorityQueue.cs:16-24 | a fresh node holding the element with no links and zero counters is appended; the live tree, its elements and `Valid` are unchanged |
| SingleEndedQueue.PriorityQueue.AddParentCount | PriorityQueue.cs:30-45 | the counters become `Raised` of the old ones; only the counters change |
| Sifting.RaisedCounts | PriorityQueue.cs:30-45 | after `AddParentCount(start, delta)` exactly the counter facing `start` on each strict ancestor of `start` has moved by `delta`; every other counter is unchanged |
| SingleEndedQueue.PriorityQueue.SwapValue | PriorityQueue.cs:46-51 | the two nodes exchange their elements and nothing else changes |
| Bags.ValsSwap | PriorityQueue.cs:46-51 | exchanging the elements of two live nodes keeps the multiset of the tree |
| SingleEndedQueue.PriorityQueue.UpHeap | PriorityQueue.cs:52-64 | the value column becomes `Risen` of the old one; links and counters are untouched |
| Sifting.RiseKeeps | PriorityQueue.cs:52-64 | climbing keeps the tree's multiset and changes no element outside the tree |
| Sifting.RiseOrders | PriorityQueue.cs:52-64 | climbing the one element whose parent edge may be out of order gives a heap-ordered tree |
| SingleEndedQueue.PriorityQueue.DownHeap | PriorityQueue.cs:88-106 | the value column becomes `Sunk` of the old one, where the selected child is the only child, or of two children the right one exactly when it outranks the left |
| Sifting.SinkKeeps | PriorityQueue.cs:88-106 | sinking keeps the tree's multiset and changes no element outside the tree |
| Sifting.SinkOrders | PriorityQueue.cs:88-106 | sinking the one element whose child edges may be out of order gives a heap-ordered tree |
| Sifting.LeafOf | PriorityQueue.cs:67-71 | the right-first walk from a live node ends at a leaf of that node's subtree, and stays put exactly when the node is a leaf |
| SingleEndedQueue.PriorityQueue.LeafBelow | PriorityQueue.cs:67-71 | the walk returns `LeafOf` the target: a live leaf in the target's subtree, which is a right child or an only child; it stays at the target exactly when the target is a leaf |
| SingleEndedQueue.PriorityQueue.SwapWithLeaf | PriorityQueue.cs:67-73 | the leaf is `LeafOf` the target; the target and the leaf exchange elements and the counters above the leaf become `Raised` by -1 |
| SingleEndedQueue.PriorityQueue.DetachLeaf | PriorityQueue.cs:74-85 | the tree becomes empty when the leaf is the root; otherwise the parent slot holding the leaf is cleared |
| SingleEndedQueue.PriorityQueue.Settle | PriorityQueue.cs:86 | after sinking the moved element the tree is again a counted heap without the leaf and without the target's old element |
| Sifting.DeleteRestores | PriorityQueue.cs:65-87 | the whole deletion yields a counted heap over the old nodes minus the leaf, holding the old multiset minus the target's element; nothing outside the old tree changes |
| Shape.UnlinkOrder | PriorityQueue.cs:65-87 | because the leaf comes from the target's own subtree, after the swap only the target's child edges can be out of order |
| Shape.UnlinkLeftFirst | PriorityQueue.cs:68-85 | detaching a leaf reached by the right-first walk keeps "no right child without a left child" |
| SingleEndedQueue.PriorityQueue.DeleteNode | PriorityQueue.cs:65-87 | `Wf` is kept, the live set loses the leaf `LeafOf` the target in the old tree, the contents lose exactly the target's element, and `LeftFirst` is kept when the walk started at the root or an inner node |
| SingleEndedQueue.PriorityQueue.constructor | PriorityQueue.cs:111-115 | a new queue is valid and empty, with the given comparator |
| SingleEndedQueue.PriorityQueue.LinkLeaf | PriorityQueue.cs:131-146 | the node becomes the child of `p` on the chosen side and nothing else is relinked; raising the counters and sifting up give a counted heap with the node and its element added; `LeftFirst` is kept when the left slot is filled first |
| SingleEndedQueue.PriorityQueue.Insert | PriorityQueue.cs:129-147 | the node's parent becomes `InsertionPoint` of the old tree, in its left slot when that was free and otherwise its right slot, with no other link changed; the tree stays a counted heap with the node and its element added, and `LeftFirst` is kept |
| Sifting.LinkRestores | PriorityQueue.cs:131-146 | linking, counting and climbing together give a counted heap over the old nodes plus the new one, with its element added |
| Shape.LinkLeftFirst | PriorityQueue.cs:131-146 | filling the left slot first keeps "no right child without a left child" |
| SingleEndedQueue.PriorityQueue.Enqueue | PriorityQueue.cs:119-157 | Overflow exactly when the count is already `int.MaxValue` and then the contents and live nodes are unchanged; otherwise one occurrence of the element is added, the new node becoming the root of an empty queue or the child of the old tree's `InsertionPoint` (left slot first); `Valid` is kept |
| SingleEndedQueue.PriorityQueue.Dequeue | PriorityQueue.cs:162-168 | the result equals what `Front` reported before the call; on success exactly one occurrence of it is removed, on EmptyQueue nothing changes |
| SingleEndedQueue.PriorityQueue.Count | PriorityQueue.cs:172 | the root's counters plus one, or 0 when empty, equal the number of stored elements |
| Shape.TreeSize | PriorityQueue.cs:172 | a tree's size is the sizes of the root's two subtrees plus one |
| SingleEndedQueue.PriorityQueue.Front | PriorityQueue.cs:176-179 | succeeds exactly when the queue is non-empty, with an element of the queue that no element outranks; otherwise EmptyQueue |
| Shape.RootOrdered | PriorityQueue.cs:176-179 | in a heap-ordered tree the root's element is in order before every element of the tree |
| Sifting.Extend | PriorityQueue.cs:121 | appending a fresh node leaves the counted heap, its handles, its multiset and `LeftFirst` as they were |
| Draining.DrainStep | PriorityQueue.cs:162-168 | taking a front element out of the remaining multiset and appending it to the output keeps the output in priority order and accounts for every element |
| Draining.Drain | PriorityQueue.cs:162-168 | dequeuing until empty returns exactly the queue's multiset in non-increasing priority |
| DoubleEndedQueue.Arena.NewNode | DEPriorityQueue.cs:17-26 | a fresh node with no links, no twin and zero counters is appended to every column |
| DoubleEndedQueue.Arena.Planted | DEPriorityQueue.cs:166-170 | a lone node is a counted heap holding just its element |
| DoubleEndedQueue.DEPriorityQueue.AddParentCount | DEPriorityQueue.cs:34-49 | the counters of the given tree become `Raised` of the old ones |
| DoubleEndedQueue.DEPriorityQueue.SwapValue | DEPriorityQueue.cs:50-60 | the twins of b and then a are pointed at a and b; the two nodes exchange elements and twin links; nothing else changes; the twins stay matched |
| Twins.PairedSwap | DEPriorityQueue.cs:50-60 | the twin-aware swap of two matched nodes, including a node with itself, keeps the one-to-one matching |
| DoubleEndedQueue.DEPriorityQueue.UpHeap | DEPriorityQueue.cs:61-73 | the value column becomes `Risen` under the tree's comparator and the twins stay matched |
| DoubleEndedQueue.DEPriorityQueue.DownHeap | DEPriorityQueue.cs:101-119 | the value column becomes `Sunk` under the tree's comparator, the twins stay matched, and a detached node keeps its twin link |
| DoubleEndedQueue.DEPriorityQueue.LeafBelow | DEPriorityQueue.cs:76-80 | the walk returns `LeafOf` the target: a live leaf in the target's subtree |
| DoubleEndedQueue.DEPriorityQueue.SwapWithLeaf | DEPriorityQueue.cs:76-82 | the walk ends at `LeafOf` the target, a leaf below it; the target and the leaf exchange elements and twin links, the two twins' back links are pointed at the leaf and the target, the counters above the leaf drop by one, and the twins stay matched |
| DoubleEndedQueue.DEPriorityQueue.DetachLeaf | DEPriorityQueue.cs:83-98 | the selected tree's root is cleared when the leaf is that tree's root, otherwise the parent slot holding the leaf is cleared; the other tree's root is unchanged |
| DoubleEndedQueue.DEPriorityQueue.Settle | DEPriorityQueue.cs:99 | sinking with the tree's own comparator gives a counted heap without the leaf and without the target's element; the detached leaf keeps that element and its twin |
| DoubleEndedQueue.DEPriorityQueue.DeleteNode | DEPriorityQueue.cs:74-100 | the tree stays a counted heap, loses the leaf `LeafOf` the target in the old tree and exactly the target's element; the leaf keeps the element and the twin and stays matched |
| Twins.PairedRemove | DEPriorityQueue.cs:189-192 | dropping a matched pair of twins keeps the rest matched |
| DoubleEndedQueue.DEPriorityQueue.Unpair | DEPriorityQueue.cs:189-192 | after both deletions the two detached twins drop out and the live nodes are matched again, read from either tree |
| DoubleEndedQueue.DEPriorityQueue.constructor | DEPriorityQueue.cs:151-156 | a new queue is valid and empty, over two newly allocated arenas |
| DoubleEndedQueue.DEPriorityQueue.LinkLeaf | DEPriorityQueue.cs:125-140 | the node becomes the child of `p` on the chosen side and nothing else is relinked; raising the counters and sifting up give a counted heap with the node and its element added, and the twins stay matched |
| Sifting.InsertionPoint | DEPriorityQueue.cs:120-146 | the counter-guided walk from a live node ends at a node of its subtree that has a free child slot |
| DoubleEndedQueue.DEPriorityQueue.Insert | DEPriorityQueue.cs:120-146 | the node's parent becomes `InsertionPoint` of the old tree from `root`, in its left slot when that was free and otherwise its right slot, with no other link changed; the tree becomes a counted heap with the node and its element added, and the twins stay matched |
| DoubleEndedQueue.DEPriorityQueue.NewTwins | DEPriorityQueue.cs:162-165 | two fresh nodes holding the element are allocated, each one's `another` pointing at the other, and the matching extends to them; the trees are unchanged |
| Twins.PairedAdd | DEPriorityQueue.cs:162-165 | adding a fresh pair of twins holding the same element keeps the matching |
| Twins.PairedFrame | DEPriorityQueue.cs:162-163 | appending nodes to the columns does not disturb the matching |
| DoubleEndedQueue.DEPriorityQueue.EmptyTwin | DEPriorityQueue.cs:166-170 | when the max tree is empty so is the min tree, so checking `maxRoot` alone is enough |
| DoubleEndedQueue.DEPriorityQueue.Plant | DEPriorityQueue.cs:166-170 | into an empty queue the twins become `maxRoot` and `minRoot` and the queue holds just the element |
| DoubleEndedQueue.DEPriorityQueue.InsertTwins | DEPriorityQueue.cs:171-175 | inserting into the max tree and then the min tree adds exactly one occurrence and keeps `Valid` |
| DoubleEndedQueue.DEPriorityQueue.Enqueue | DEPriorityQueue.cs:160-180 | Overflow exactly when the count is already `int.MaxValue` and then the contents, both roots and both live sets are unchanged; otherwise one occurrence is added; `Valid` is kept |
| Twins.PairedVals | DEPriorityQueue.cs:198 | matched handle sets have the same size and hold the same multiset |
| DoubleEndedQueue.DEPriorityQueue.SameElements | DEPriorityQueue.cs:198 | the min tree holds the same multiset as the max tree, and both trees have as many nodes as the queue has elements |
| DoubleEndedQueue.DEPriorityQueue.Count | DEPriorityQueue.cs:198 | the max root's counters plus one, or 0 when empty, equal the number of elements and the size of each tree |
| DoubleEndedQueue.DEPriorityQueue.EmptyRoots | DEPriorityQueue.cs:83-90 | the queue is empty exactly when both roots are null |
| DoubleEndedQueue.DEPriorityQueue.TopOf | DEPriorityQueue.cs:202-206 | the root of a non-empty tree holds one of its elements, in order before all of them |
| DoubleEndedQueue.DEPriorityQueue.Front | DEPriorityQueue.cs:202-206 | succeeds exactly when non-empty: for Highest an element no element outranks, for Lowest an element that outranks no element; otherwise EmptyQueue |
| DoubleEndedQueue.DEPriorityQueue.Dequeue | DEPriorityQueue.cs:185-194 | the result equals what `Front(select)` reported before the call; on success exactly one occurrence is removed from both trees, on EmptyQueue nothing changes; `Valid` is kept |
| Draining.DrainEnd | DEPriorityQueue.cs:185-194 | dequeuing one end until empty returns the queue's multiset, largest first for Highest and smallest first for Lowest |
| Scenarios.SingleEnded | PriorityQueue.cs:111-168 | a newly built queue filled with 5, 3, 8 and 1 gives back 8, 5, 3, 1 and then EmptyQueue |
| Scenarios.DoubleEnded | DEPriorityQueue.cs:151-206 | a newly built double-ended queue filled with 5, 3, 8 and 1 gives 8, 1, 5, 3 when dequeued from the Highest, Lowest, Highest and Lowest ends, and is then empty at both ends |
| Scenarios.Single | DEPriorityQueue.cs:151-206 | a double-ended queue holding only 42 has 42 at both ends, and is empty after one Dequeue |

## Left out

- The generic element type and the `Compare<T>` delegate are left out. The element type is
  `int` and the comparator is `a < b`. So the null-comparator check of both constructors
  (PriorityQueue.cs:113, DEPriorityQueue.cs:153) has nothing to reject and is not modelled.
- Each exception is replaced by the error value it stands for: `EmptyQueue` for the empty-queue
  exceptions and `Overflow` for the `OverflowException`. The message texts are not modelled.
- C# `int` wrap-around is not modelled. `int.MaxValue` is only the capacity that `Enqueue`
  checks. Counters are unbounded integers that never exceed the size.
- The parameterless `Node()` constructors (PriorityQueue.cs:15, DEPriorityQueue.cs:16) are
  never called and are not modelled.
- Balance and height are not claimed. The counter-guided insertion does not keep the tree
  complete, and right-first deletion can unbalance it.
- The double-ended queue does not keep "no right child without a left child". Deleting a
  twin can remove a left leaf that has a right sibling, and `Insert` tolerates the gap. Only
  the single-ended `Valid` includes `LeftFirst`.
- The twin links of detached nodes are not constrained. The second deletion of `Dequeue`
  rewrites the `Another` link of the leaf already detached from the first tree. The model
  performs that write, but the invariant speaks of live nodes only.
- Some source methods are split across several Dafny members:
  - `DeleteNode` becomes `LeafBelow`, `SwapWithLeaf`, `DetachLeaf` and `Settle`.
  - The insertion branch of the single-ended `Enqueue` becomes `Insert` and `LinkLeaf`.
  - The double-ended `Enqueue` becomes `NewTwins`, `Plant` and `InsertTwins`.

  Each part runs the source's statements in the source's order.
- An `Enqueue` that reports Overflow has still allocated its nodes in the arena. Like the
  unreachable C# objects, they belong to no tree.
- DoubleEndedQueue.DEPriorityQueue.UpHeap: the `another` columns are described by the
  matching they keep, not by their exact new contents.
- DoubleEndedQueue.DEPriorityQueue.DownHeap: the `another` columns are described by the
  matching they keep and by one named detached node keeping its link, not by their exact new
  contents.
