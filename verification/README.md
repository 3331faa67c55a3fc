# Simplicity-STL core in Dafny

A model of the core of Simplicity-STL, a small hand-written C++ standard library. It models the red-black tree engine that backs its set, multiset and map. It also models the sorting routines and six containers:

- the binary-heap priority queue;
- the doubly linked list;
- the growable vector;
- the character string with its KMP search;
- the block-indexed deque.

Every container is an immutable value and every operation is a pure function or a method returning the new value. The behaviour the C++ code promises is proved about the model.

The modules follow the source files:

| module | file | models |
|---|---|---|
| `RbTree` | rbtree.dfy | The tree as `Leaf \| Node(color, left, key, val, right)`. Its abstraction is the in-order sequence of entries. The red-black invariants: ordering, no red node with a red child, one black height, black root. Also the rotations and `S_minimum`/`S_maximum`. |
| `RbInsert` | rbinsert.dfy | `Rb_tree_insert_and_rebalance`: a red leaf linked at a gap of the in-order sequence, then the recolour/rotate fix-up. |
| `RbErase` | rberase.dfy | `Rb_tree_rebalance_for_erase` as its comment describes it: splice out, then the four-case fix-up when a black node left. |
| `RbPointer` | rbpointer.dfy | The same erase transliterated over a heap of node records. It reproduces the code as written and exhibits two defects on concrete trees (see Findings). |
| `RbIter` | rbiter.dfy | `Rb_tree_increment` / `Rb_tree_decrement` as a zipper (a focus subtree and the path back to the root). The header stands for `end()`. |
| `RbLookup` | rblookup.dfy | `lower_bound`, `upper_bound`, `find`, `equal_range`, `count`, and their transparent-key variants. |
| `RbPolicy` | rbpolicy.dfy | The insert-position finders (`M_get_insert_unique_pos`, `M_get_insert_equal_pos` and the hinted ones). A leaf slot is the gap of the in-order sequence it stands for. |
| `RbContainer` | rbcontainer.dfy | `Rb_tree` with its header (root, leftmost, rightmost, node_count). Insert, emplace, erase (by position, range and key), clear, swap, extract and reinsert. |
| `RbMerge` | rbmerge.dfy | `M_merge_unique` / `M_merge_equal`. |
| `RbRange` | rbrange.dfy | `M_insert_range_unique` / `M_insert_range_equal`. |
| `NodeHandle` | rbhandle.dfy | `Node_handle_common`: a handle is the optional node it owns. |
| `Heap` | heap.dfy | The binary heap shared by `heapify` and `Priority_Queue`. |
| `Algorithm` | algorithm.dfy | `swap`, `insertionSort`, `heapify`, `heapSort`, `partition`, `log2`, `introSort`, `sort` on `int` sequences under `std::less` or `std::greater`. |
| `PriorityQueue` | queue.dfy | `Priority_Queue`: `sift_up`, `sift_down`, `push`, `pop`, `top`, `size`, `empty`, `swap`. |
| `LinkedList` | list.dfy | `List`: the node chain as a sequence plus the separately kept `size_`. |
| `Vectors` | vector.dfy | `Vector`: elements plus capacity. |
| `BasicString` | basic_string.dfy | `Basic_string`: characters plus capacity, with `npos`. |
| `Kmp` | kmp.dfy | `compute_lps` and `find_impl`. |
| `Deques` | deque.dfy | `DequeIterator` arithmetic on (block, offset) pairs and the `Deque` end operations. |
| `Wrappers` | wrappers.dfy | `Option`, `Result`, the `out_of_range` error and the bounds-checked `at` shared by vector and string. |

Positions work the same way throughout:

- A tree iterator is an index 0..n into the in-order sequence, and n is `end()`.
- A list iterator is a node index, the head sentinel or null.
- A deque iterator is a (block, offset) pair. Its linear position is block * buf + offset.

Exceptions (`std::out_of_range`) and null-pointer dereferences become `Failure` values of `Result`. Keys of the tree are `int` compared with `<`, the default comparator. The payload next to each key keeps equivalent entries apart, so the order among equal keys can be observed.

## Model

| member | source | states |
|---|---|---|
| RbTree.Blacken | rb_tree.h:463 | Painting the root black keeps the in-order sequence and makes the root black. |
| RbTree.RbHeightIsBlackHeight | rb_tree.h:397-464 | A tree that satisfies the red-black shape for height h has black height h along its leftmost path. |
| RbTree.OrderedNode | rb_tree.h:1121-1143 | A node is a search tree exactly when both subtrees are and its key separates them. |
| RbTree.Minimum | rb_tree.h:274-277 | S_minimum is the first entry of the in-order sequence. |
| RbTree.Maximum | rb_tree.h:285-288 | S_maximum is the last entry of the in-order sequence. |
| RbTree.RotateLeft | rb_tree.h:358-375 | Rotating left keeps the in-order sequence. The right child is promoted, x becomes its left child and takes over its old left subtree. |
| RbTree.RotateRight | rb_tree.h:377-394 | Rotating right keeps the in-order sequence, with the mirror-image relinking. |
| RbTree.RotateRoundTrip | rb_tree.h:358-394 | A right rotation undoes a left rotation. |
| RbPointer.RotateLeftLinks | rb_tree.h:358-375 | On the pointer heap, the promoted child takes x's place under x's old parent, or as root under the header. x becomes its left child and x's right link takes the child's old left subtree. |
| RbInsert.BalanceLeft | rb_tree.h:429-444 | The fix-up cases for a parent that is a left child (recolour, or one or two rotations) keep the in-order sequence. |
| RbInsert.BalanceRight | rb_tree.h:445-461 | The mirror cases for a parent that is a right child keep the in-order sequence. |
| RbInsert.Ins | rb_tree.h:406-462 | Linking a red node at gap g and repairing upward puts the new entry at position g with every other entry kept in order. |
| RbInsert.InsertAt | rb_tree.h:397-464 | Insert and rebalance: the entry lands at gap g, the size grows by one and the root ends black. |
| RbInsert.BalanceLeftRb | rb_tree.h:429-444 | Repairing at a black grandparent restores the red-black shape at the same black height. At a red one it leaves at most a red-red pair at the top. |
| RbInsert.BalanceRightRb | rb_tree.h:445-461 | The same for the mirror cases. |
| RbInsert.InsRb | rb_tree.h:397-464 | Insertion below a black node keeps a valid red-black subtree of the same black height. Below a red node the only possible violation is at its top. |
| RbInsert.InsertAtValid | rb_tree.h:397-464 | Inserting at a gap that keeps the keys ordered yields a valid red-black tree: ordered, no red-red pair, one black height, black root. |
| RbInsert.BlackenHeight | rb_tree.h:463 | Blackening a red root raises the black height by one and keeps the tree balanced. |
| RbErase.Splice | rb_tree.h:511-520 | Splicing a node with at most one child in place of the removed one keeps the remaining in-order sequence. |
| RbErase.FixLeftBlack | rb_tree.h:538-557 | The fix-up cases with a black sibling on the right keep the in-order sequence. |
| RbErase.FixLeft | rb_tree.h:530-557 | The left-hand fix-up step, red sibling rotated first, keeps the in-order sequence. |
| RbErase.FixRightBlack | rb_tree.h:567-586 | The mirror cases with a black sibling on the left keep the in-order sequence. |
| RbErase.FixRight | rb_tree.h:559-588 | The right-hand fix-up step keeps the in-order sequence. |
| RbErase.DelAt | rb_tree.h:476-525 | Removing the entry at position i, via the in-order successor when there are two children, leaves exactly the other entries in order. |
| RbErase.EraseAt | rb_tree.h:467-595 | Erase and rebalance: the entry at i is gone, the size drops by one and the root ends black. |
| RbErase.FixLeftBlackRb | rb_tree.h:538-557 | A black sibling's cases either repair the lost black level or pass the shortage up one level under a black parent. |
| RbErase.FixRightBlackRb | rb_tree.h:567-586 | The same for the mirror cases. |
| RbErase.FixLeftRb | rb_tree.h:530-557 | The whole left-hand step repairs the shortage or reports it one level up. |
| RbErase.FixRightRb | rb_tree.h:559-588 | The whole right-hand step repairs the shortage or reports it one level up. |
| RbErase.DelAtRb | rb_tree.h:476-592 | Removing any position leaves a red-black subtree of the same black height, or one level short and marked so. |
| RbErase.EraseAtValid | rb_tree.h:467-595 | Erasing any position of a valid red-black tree yields a valid red-black tree. |
| RbErase.SortedRemove | rb_tree.h:1687-1693 | Removing one entry keeps the keys ordered. |
| RbIter.PlugElems | rb_tree.h:598-632 | The tree rebuilt from a focus and its path reads the entries before the path, then the focus, then the entries after. |
| RbIter.Deref | rb_tree.h:662-664 | Dereferencing an iterator yields the entry at its in-order index. |
| RbIter.DescendLeft | rb_tree.h:599-601 | Walking left from a right child reaches the first entry of that subtree. |
| RbIter.DescendRight | rb_tree.h:620-622 | Walking right from a left child reaches the last entry of that subtree. |
| RbIter.ClimbRight | rb_tree.h:602-608 | Climbing while coming from a right child reaches the entry just after the subtree, or the header (`end()`). |
| RbIter.ClimbLeft | rb_tree.h:623-630 | Climbing while coming from a left child reaches the entry just before the subtree. |
| RbIter.Begin | rb_tree.h:1485-1487 | begin() is at index 0: the leftmost node, or end() for an empty tree. |
| RbIter.IncrementNext | rb_tree.h:598-611 | Rb_tree_increment moves to the in-order successor, the header after the rightmost node. The tree is unchanged. |
| RbIter.DecrementPrevious | rb_tree.h:617-632 | Rb_tree_decrement moves to the in-order predecessor, from the header to the rightmost node. |
| RbLookup.LowerBoundAbove | rb_tree.h:1373-1383 | The position M_lower_bound returns holds a key not below k. |
| RbLookup.LowerBoundCorrect | rb_tree.h:1373-1383 | In a search tree, M_lower_bound is the first position whose key is not less than k (end() if none). |
| RbLookup.UpperBoundCorrect | rb_tree.h:1396-1406 | In a search tree, M_upper_bound is the first position whose key is greater than k (end() if none). |
| RbLookup.Find | rb_tree.h:1737-1745 | find returns end() or a position holding exactly k. |
| RbLookup.FindCorrect | rb_tree.h:1737-1745 | find returns end() exactly when no key equals k, and otherwise the first position with k. |
| RbLookup.EqualRange | rb_tree.h:1770-1789 | equal_range yields an ordered pair of positions. |
| RbLookup.EqualRangeBounds | rb_tree.h:1770-1789 | equal_range(k) equals (lower_bound(k), upper_bound(k)). |
| RbLookup.CountIn | rb_tree.h:1747-1751 | The number of entries whose key lies in a range never exceeds the length. |
| RbLookup.CountInBetween | rb_tree.h:1747-1751 | When exactly the positions a..b-1 hold keys in range, the count is b - a. |
| RbLookup.CountCorrect | rb_tree.h:1747-1751 | count(k), the width of equal_range, is the number of entries with key k. |
| RbLookup.BoundsTrAtEnds | rb_tree.h:1848-1883 | The transparent lower and upper bounds equal the plain ones for the probe's low and high ends. |
| RbLookup.FindTrCorrect | rb_tree.h:1827-1833 | The transparent find returns end() exactly when no key is equivalent to the probe, and otherwise the first position past all keys below it. |
| RbLookup.EqualRangeTr | rb_tree.h:1893-1902 | The transparent equal_range starts at the lower bound and covers exactly the run of equivalent keys. |
| RbLookup.CountTr | rb_tree.h:1835-1839 | The transparent count is the number of keys equivalent to the probe. |
| RbPolicy.SortedInsert | rb_tree.h:1121-1155 | Inserting at a gap that fits the key keeps the entries sorted. |
| RbPolicy.UniqueInsert | rb_tree.h:1553-1564 | Inserting a fresh key at a fitting gap keeps keys strictly increasing. |
| RbPolicy.GetInsertUniquePos | rb_tree.h:1121-1143 | The unique finder offers a gap, or a position whose key is not less than k. |
| RbPolicy.UniquePosFree | rb_tree.h:1121-1143 | The unique finder offers a gap exactly when no stored key equals k. |
| RbPolicy.UniquePosFits | rb_tree.h:1121-1143 | The offered gap fits k in the order, and a refusal points at the entry with key k. |
| RbPolicy.GapAfterUpperBound | rb_tree.h:1130-1142 | The check of the predecessor of the upper-bound gap decides freshness correctly. |
| RbPolicy.HintUniqueAgrees | rb_tree.h:1157-1207 | In a unique-key container, every hint leads to the same answer as the unhinted unique finder. A hint equivalent to k is refused. |
| RbPolicy.HintUniqueCheckAgrees | rb_tree.h:1157-1207 | The hint tests (before/after the hint, leftmost, rightmost) agree with the finder's answer. |
| RbPolicy.UpperBoundAt | rb_tree.h:1145-1155 | The upper bound is the only gap with keys not above k before it and keys above k after it. |
| RbPolicy.GetInsertHintEqualPos | rb_tree.h:1209-1257 | The hinted equal finder returns a gap within the tree, or none. |
| RbPolicy.HintEqualFits | rb_tree.h:1209-1257 | The hinted equal finder's gap keeps the order, and a hint that already fits k is used as is. |
| RbPolicy.HintEqualCheckFits | rb_tree.h:1209-1257 | The hint tests of the equal policy yield a gap that fits k. |
| RbContainer.Reset | rb_tree.h:331-336 | M_reset gives an empty tree whose header satisfies the container invariant. |
| RbContainer.FirstParent | rb_tree.h:521-522 | When the leftmost node has no right child, its parent (the new leftmost after erasure) is the second entry. |
| RbContainer.LastParent | rb_tree.h:523-524 | When the rightmost node has no left child, its parent is the second-to-last entry. |
| RbContainer.LinkAt | rb_tree.h:1262-1268 | M_insert links the new entry at its gap, moves leftmost/rightmost when it extends an end, and counts one more node. |
| RbContainer.LinkAtInv | rb_tree.h:1270-1276 | Linking at a fitting gap keeps the whole container invariant: valid tree, cached ends, node_count equal to the size. |
| RbContainer.EraseAux | rb_tree.h:1687-1693 | M_erase_aux removes exactly the entry at the position. |
| RbContainer.EraseAuxInv | rb_tree.h:1687-1693 | Erasing keeps the container invariant, node_count included. |
| RbContainer.EraseAuxLeftmost | rb_tree.h:521-522 | The leftmost cache after erasure is the first remaining entry. |
| RbContainer.EraseAuxRightmost | rb_tree.h:523-524 | The rightmost cache after erasure is the last remaining entry. |
| RbContainer.Erase | rb_tree.h:1707-1721 | erase(pos) shrinks the container by one and returns the position of the entry that followed, or end(). |
| RbContainer.EraseRun | rb_tree.h:1695-1704 | Erasing n entries one at a time from position i leaves exactly the entries outside [i, i+n). |
| RbContainer.Clear | rb_tree.h:1812-1815 | clear leaves an empty container satisfying the invariant. |
| RbContainer.EraseRange | rb_tree.h:1732-1735 | erase(first, last) removes exactly [first, last) and returns first. |
| RbContainer.ClearRange | rb_tree.h:1695-1704 | The begin()..end() range erases everything, as clear does. |
| RbContainer.RunRange | rb_tree.h:1695-1704 | The element-by-element loop of the range erase removes exactly the range. |
| RbContainer.EraseKey | rb_tree.h:1724-1729 | erase(key) keeps the container invariant. |
| RbContainer.EraseKeyDrops | rb_tree.h:1724-1729 | erase(key) removes exactly the entries with that key, keeping the others in order. |
| RbContainer.DropRange | rb_tree.h:1724-1729 | Removing the entries with key k is cutting out [lower_bound, upper_bound). |
| RbContainer.EraseKeyCounts | rb_tree.h:1724-1729 | erase(key) returns how many entries had that key. |
| RbContainer.SwapExchanges | rb_tree.h:1529-1549 | swap exchanges the two containers whole, empty ones included. |
| RbContainer.InsertUnique | rb_tree.h:1553-1564 | _M_insert_unique answers with a position inside the result. |
| RbContainer.InsertUniqueCorrect | rb_tree.h:1553-1564 | Insertion happens exactly when no entry has the key, at the returned position, with the rest kept in order. A refusal leaves the container unchanged and points at the entry with that key. |
| RbContainer.InsertEqual | rb_tree.h:1568-1572 | _M_insert_equal returns the position of the new entry. |
| RbContainer.InsertEqualCorrect | rb_tree.h:1568-1572 | Equal insertion always inserts, after every entry with an equivalent key, and keeps the invariant. |
| RbContainer.InsertHintUnique | rb_tree.h:1576-1584 | The hinted unique insert answers with a position inside the result. |
| RbContainer.InsertHintUniqueAgrees | rb_tree.h:1576-1584 | In a unique-key container, the hinted unique insert gives the same container and position as the unhinted one. |
| RbContainer.InsertHintEqual | rb_tree.h:1594-1602 | The hinted equal insert returns the position of the new entry. |
| RbContainer.InsertHintEqualCorrect | rb_tree.h:1594-1602 | The hinted equal insert always inserts, keeps the invariant, and uses the hint when the key fits there. |
| RbContainer.ExtractAsWrittenMiscounts | rb_tree.h:2059-2062 | extract(pos) as written leaves node_count one above the number of nodes. |
| RbContainer.Extract | rb_tree.h:2059-2062 | extract(pos) corrected: the handle owns the entry, the container loses exactly that entry and keeps its invariant, and the node passes from the container to the handle with nothing gained or lost. |
| RbContainer.ExtractKey | rb_tree.h:2065-2072 | extract(key) yields an entry with that key, or an empty handle and an unchanged container; the container and the handle together own what the container owned. |
| RbContainer.ExtractKeyFinds | rb_tree.h:2065-2072 | extract(key) yields an empty handle exactly when no entry has the key. |
| RbContainer.ReinsertUnique | rb_tree.h:1976-1996 | Reinsertion empties the handle whenever it inserts. |
| RbContainer.ReinsertUniqueIsInsert | rb_tree.h:1976-1996 | Reinserting a node acts as _M_insert_unique. The handle is released exactly on success and still owns the node on a duplicate, so each entry keeps exactly one owner. |
| RbContainer.ReinsertEqualAsWrittenDoubleOwns | rb_tree.h:1999-2016 | M_reinsert_node_equal as written links the node and still leaves it owned by the handle: the tree and the handle own it twice. |
| RbContainer.ReinsertEqual | rb_tree.h:1999-2016 | The corrected equal reinsertion links the handle's node, releases the handle, and leaves every entry with exactly one owner. |
| RbContainer.ReinsertHintUniqueAgrees | rb_tree.h:2019-2036 | The hinted unique reinsertion agrees with the unhinted one. |
| RbMerge.Sift | rb_tree.h:2082-2095 | Sorting the source entries into moved and kept loses none of them. |
| RbMerge.SiftPartitions | rb_tree.h:2082-2095 | The moved and kept entries together are exactly the source's entries. |
| RbMerge.SiftKeys | rb_tree.h:2082-2095 | Every kept entry's key is already in the destination or among the moved keys. |
| RbMerge.SiftFresh | rb_tree.h:2082-2095 | Moved entries have keys new to the destination and pairwise distinct. |
| RbMerge.MergeUnique | rb_tree.h:2082-2095 | M_merge_unique moves exactly the entries with keys new to the destination. The rest stay in the source in order, both containers keep their invariants, and the keys of the destination become the union. |
| RbMerge.MergeEqual | rb_tree.h:2099-2112 | M_merge_equal moves every entry: the source ends empty and the destination holds both multisets, counts added. |
| RbMerge.SiftExample | rb_tree.h:2082-2095 | An example only: merging {3,4} into {1,3,5} moves 4 and leaves 3 in the source. |
| RbRange.InsertRangeUnique | rb_tree.h:1656-1668 | The unique range insert keeps unique keys, and its keys become the old keys together with the range's keys. No old entry is lost, and the entries added are exactly those the reference RbMerge.Sift moves: the first value in the range for each key the container lacked. |
| RbRange.InsertRangeEqual | rb_tree.h:1671-1683 | The equal range insert adds every value of the range, and the count grows by the range's length. |
| NodeHandle.MoveConstruct | rb_tree.h:39-44 | The move constructor takes over the node and leaves the source empty. |
| NodeHandle.MoveAssign | rb_tree.h:46-67 | Move assignment frees the destination's old node, takes over the source's and empties the source. |
| NodeHandle.Swap | rb_tree.h:219-228 | swap exchanges the owned nodes. |
| NodeHandle.Destroy | rb_tree.h:33-37 | The destructor frees exactly the owned node. |
| NodeHandle.SwapInvolutive | rb_tree.h:219-228 | Swapping twice restores both handles. |
| NodeHandle.MoveAssignConserves | rb_tree.h:46-67 | Move assignment neither loses nor duplicates a node: the nodes owned afterwards plus the node freed are the nodes owned before. |
| Heap.Parent | queue.h:150-160 | The parent (j-1)/2 is the slot whose child j is. |
| Heap.SwapAt | algorithm.h:4-9 | Swapping two slots exchanges them, keeps every other slot and the multiset. |
| Heap.Largest | queue.h:166-175 | The largest of a slot and its children within the first n slots compares no lower than each of them. |
| Heap.SiftStop | queue.h:176-181 | When the slot already outranks its children, the heap property holds. |
| Heap.SiftSwap | queue.h:176-178 | Swapping with the largest child moves the only possible violation one level down. |
| Heap.RootFirst | queue.h:256-258 | In a heap the root is outranked by no element. |
| Algorithm.InsertionSort | algorithm.h:12-19 | insertionSort yields a sorted permutation of its range. |
| Algorithm.SinkInto | algorithm.h:15-17 | The inner loop sinks element i into the sorted prefix, so the first i+1 elements are sorted, by swaps only. |
| Algorithm.Heapify | algorithm.h:22-40 | heapify rearranges only the first n slots and keeps the multiset. |
| Algorithm.HeapifyRestores | algorithm.h:22-40 | heapify at i turns the subtree at i into a heap when only i may be out of place. |
| Algorithm.PrefixPermBounded | algorithm.h:50-53 | Rearranging the heap part keeps every element of it outranked by the sorted tail. |
| Algorithm.SortPhaseStep | algorithm.h:50-53 | One step of the sort phase moves the maximum to the end of the heap part and restores the heap. |
| Algorithm.SortPhaseDone | algorithm.h:50-53 | When the heap part is down to one element, the whole range is sorted. |
| Algorithm.HeapFromHalf | algorithm.h:46-48 | Slots from n/2 on are leaves, so the build phase starts with a heap below them. |
| Algorithm.HeapSort | algorithm.h:43-54 | heapSort yields a sorted permutation. |
| Algorithm.Partition | algorithm.h:57-73 | partition keeps the multiset. Every element before the cut does not compare after the middle pivot, and every element from the cut on does not compare before it. For three or more elements both sides are non-empty. |
| Algorithm.PartitionSides | algorithm.h:57-73 | After partition, the left side comes wholly before the right side. |
| Algorithm.SortedAppend | algorithm.h:85-109 | Two sorted pieces in order make a sorted whole. |
| Algorithm.IntroFinish | algorithm.h:85-109 | Sorting the remaining window in place completes a sorted permutation of the whole range. |
| Algorithm.IntroSort | algorithm.h:85-109 | introSort yields a sorted permutation, via heapSort at the depth limit and insertionSort for 16 or fewer elements. |
| Algorithm.Log2 | algorithm.h:76-82 | For n >= 1, log2 is the r with 2^r <= n < 2^(r+1), and 0 for 0. |
| Algorithm.Sort | algorithm.h:112-117 | sort yields a sorted permutation and leaves an empty range alone. |
| PriorityQueue.UpSwap | queue.h:150-160 | Swapping a slot with a parent it outranks moves the only possible violation up one level. |
| PriorityQueue.SiftUp | queue.h:150-160 | sift_up restores the heap property and keeps the multiset. |
| PriorityQueue.SiftDown | queue.h:163-183 | sift_down from the root restores the heap property when only the root may be out of place. |
| PriorityQueue.AppendUp | queue.h:271-287 | Appending to a heap leaves at most the new slot out of place. |
| PriorityQueue.Push | queue.h:271-287 | push adds exactly the value, grows the size by one and keeps the heap property. |
| PriorityQueue.PopDown | queue.h:290-295 | Moving the last element to the root and dropping the old root leaves only the root out of place, one copy of the top fewer. |
| PriorityQueue.Pop | queue.h:290-295 | pop does nothing on an empty queue. Otherwise it removes exactly one copy of the top, shrinks by one and keeps the heap property. |
| PriorityQueue.Top | queue.h:256-258 | top is an element of the queue that no element outranks. |
| PriorityQueue.TopFirst | queue.h:256-258 | The front of a heap is outranked by no element. |
| PriorityQueue.Size | queue.h:266-268 | size is the number of elements held. |
| PriorityQueue.Empty | queue.h:261-263 | empty holds exactly when no element is held. |
| PriorityQueue.SwapInvolutive | queue.h:298-301 | Swapping twice restores both queues, and the heap property travels with them. |
| LinkedList.PushBack | list.h:215-223 | push_back appends the value and counts one more node. |
| LinkedList.PushFront | list.h:226-243 | push_front prepends the value and counts one more node. |
| LinkedList.PopBack | list.h:246-254 | pop_back does nothing on an empty list and otherwise removes the last element. |
| LinkedList.PopFront | list.h:257-265 | pop_front does nothing on an empty list and otherwise removes the first element. |
| LinkedList.PushPop | list.h:215-265 | Popping what was just pushed, at either end, gives the list back. |
| LinkedList.Insert | list.h:423-435 | insert places the value just before the position, returns an iterator to it and counts one more node. |
| LinkedList.EraseAsWrittenLosesEnd | list.h:385-406 | Erasing the last node returns a null iterator instead of end(). |
| LinkedList.Erase | list.h:385-406 | erase removes exactly the element at a real node and returns the position of the one after it. Sentinels and null change nothing. |
| LinkedList.EraseInsert | list.h:385-435 | Erasing the node just inserted gives the list back. |
| LinkedList.EraseRange | list.h:408-415 | erase(first, last) removes exactly that range, counts that many fewer nodes and returns first. |
| LinkedList.Reverse | list.h:613-624 | reverse reverses the order of the elements and keeps the count. |
| LinkedList.ReversedInvolutive | list.h:613-624 | Reversing twice gives the original order. |
| LinkedList.Splice | list.h:628-646 | Whole-list splice inserts the source's elements in order before the position. The source ends empty and the counts transfer. An empty source changes nothing. |
| LinkedList.SpliceConserves | list.h:628-646 | Splicing neither loses nor duplicates an element. |
| LinkedList.SpliceOne | list.h:655-673 | Single-node splice moves exactly that node. |
| LinkedList.SpliceOneConserves | list.h:655-673 | Single-node splice neither loses nor duplicates an element. |
| LinkedList.Resize | list.h:603-610 | resize gives n elements, keeps the old prefix and fills new slots with the value. |
| LinkedList.Merge | list.h:477-539 | Merging two sequences keeps every element of both. |
| LinkedList.MergeSorted | list.h:477-539 | Merging two sorted lists gives a sorted list. |
| LinkedList.MergeStable | list.h:477-539 | The merge is stable: among equal keys, this list's elements come first, each side in its own order. |
| LinkedList.ListMerge | list.h:477-539 | merge yields a sorted, stable union. The other list ends empty and the counts add. |
| LinkedList.PassSorts | list.h:772-797 | One bottom-up pass merges sorted runs of width w into sorted runs of width 2w. |
| LinkedList.PassStable | list.h:772-797 | A pass keeps the relative order of equal keys. |
| LinkedList.Sort | list.h:541-572 | sort yields a sorted, stable permutation. |
| LinkedList.UniqueFromNoAdjacent | list.h:723-738 | The scan of unique leaves no two equal neighbours. |
| LinkedList.UniqueFromKeeps | list.h:723-738 | The scan of unique keeps every value that occurs. |
| LinkedList.UniqueFromFixes | list.h:723-738 | A list without equal neighbours passes through unique unchanged. |
| LinkedList.UniqueAsWrittenMiscounts | list.h:723-738 | unique as written removes nodes but leaves size_ as it was. |
| LinkedList.Unique | list.h:723-738 | unique corrected: no equal neighbours, the same values, a list without equal neighbours unchanged, and size_ equal to the number of nodes. |
| Vectors.GrownCapacity | vector.h:19-23 | expand_capacity asks for more than the current capacity: at least twice it and at least the minimum requested. |
| Vectors.Reserve | vector.h:446-457 | reserve changes nothing when the request fits. Otherwise the capacity becomes exactly n with the elements unchanged. |
| Vectors.ExpandCapacity | vector.h:19-23 | expand_capacity always grows the capacity and keeps the elements. |
| Vectors.PushBack | vector.h:217-223 | push_back appends. The capacity changes only when the vector is full, to max(2 * capacity, 1). |
| Vectors.PopBack | vector.h:232-237 | pop_back does nothing when empty and otherwise drops the last element. The capacity stays. |
| Vectors.Emplace | vector.h:373-387 | emplace yields old[..off] + [v] + old[off..] and returns off. It grows when full. |
| Vectors.EraseRange | vector.h:326-343 | erase(first, last) removes exactly [first, last), keeps the rest in order, returns first and keeps the capacity. |
| Vectors.Resize | vector.h:476-490 | resize gives size n and capacity max(capacity, n), keeps the old prefix and fills new slots with the value. |
| Vectors.Clear | vector.h:300-305 | clear empties the vector and keeps the capacity. |
| Vectors.ClearIsEraseAll | vector.h:300-305 | clear leaves the same vector as erase(begin(), end()), and afterwards at reports out of range for every position. |
| Vectors.ShrinkToFit | vector.h:493-504 | shrink_to_fit keeps the elements and makes the capacity equal to the size. |
| Vectors.SwapInvolutive | vector.h:507-511 | Swapping twice restores both vectors. |
| Wrappers.CheckedAt | vector.h:257-263 | at (vector and string alike) fails with out_of_range exactly when the index is not below size, and otherwise yields the element there. |
| Vectors.AtAgrees | vector.h:257-263 | After appending, at finds the new element at the end, the old ones where they were, and nothing past the end. |
| Kmp.BorderExtend | basic_string.h:1015-1016 | A border followed by a matching character extends to a border one longer. |
| Kmp.BorderTrans | basic_string.h:1017-1018 | A border of a border is a border, so falling back along the table stays within borders. |
| Kmp.LpsMatch | basic_string.h:1015-1016 | On a match, the table entry is the previous border plus one. |
| Kmp.LpsFallback | basic_string.h:1017-1018 | On a mismatch, the fall back to lps[prev-1] skips no candidate border. |
| Kmp.ComputeLps | basic_string.h:1010-1023 | compute_lps fills each entry with the length of the longest proper border of that prefix. |
| Kmp.SearchFallback | basic_string.h:1001-1002 | On a mismatch, falling back along the table skips no occurrence. |
| Kmp.SearchStep | basic_string.h:998-1000 | On a match, the window grows, and a full window is an occurrence. |
| Kmp.SearchDone | basic_string.h:1006-1007 | When the text is exhausted there is no occurrence at or after the start. |
| Kmp.Find | basic_string.h:990-1008 | find_impl returns the first occurrence at or after pos, and npos exactly when there is none. |
| BasicString.CutSpliced | basic_string.h:556-575 | Erasing what was just inserted gives the string back. |
| BasicString.SplicedCut | basic_string.h:728-746 | Inserting back what was erased gives the string back. |
| BasicString.Grown | basic_string.h:28-40 | expand_capacity doubles the capacity, and starts at 1 from 0. |
| BasicString.Reserve | basic_string.h:321-333 | reserve changes nothing when the request fits and otherwise sets the capacity to exactly n with the characters kept. |
| BasicString.GrowTo | basic_string.h:28-40 | Growing for a need reaches the need and stays below twice it. |
| BasicString.AppendPtr | basic_string.h:340-348 | append(ptr, count) appends the first count characters, reallocating to exactly the new size when they do not fit. |
| BasicString.AppendFill | basic_string.h:367-376 | append(count, ch) appends count copies of ch. |
| BasicString.PushBack | basic_string.h:812-816 | push_back appends the character, doubling a full capacity. |
| BasicString.InsertChars | basic_string.h:728-746 | Shifting the tail back and writing the new characters splices them in at pos. |
| BasicString.InsertPtr | basic_string.h:728-746 | insert(pos, ptr, count) does nothing when pos > size. Otherwise it splices the first count characters in at pos. |
| BasicString.InsertFill | basic_string.h:759-781 | insert(pos, count, ch) does nothing when pos > size and otherwise splices in count copies of ch. |
| BasicString.EraseCount | basic_string.h:556-575 | The count erased is clamped to what is left after the offset, npos meaning to the end. |
| BasicString.Erase | basic_string.h:556-575 | erase fails with out_of_range exactly when offset >= size, and otherwise cuts out the clamped count. The capacity stays. |
| BasicString.EraseAppended | basic_string.h:556-575 | Erasing from the old end with npos undoes an append. |
| BasicString.Compare | basic_string.h:440-472 | The corrected compare is the lexicographic order of the two clamped substrings. |
| BasicString.AtSpliced | basic_string.h:251-263 | After an insertion at pos, at finds the characters before pos in place, the inserted ones from pos on, the old tail shifted by their number, and fails past the new end. |
| BasicString.LexCmpOrder | basic_string.h:440-472 | The comparison is three-way, zero exactly on equal strings, and antisymmetric. |
| BasicString.LexCmpPrefix | basic_string.h:462-464 | A proper prefix compares less. |
| BasicString.CompareWhole | basic_string.h:440-442 | compare(str) on whole strings is already right as written. |
| BasicString.CompareAsWrittenMisorders | basic_string.h:462-471 | "abc".compare(1, 5, "bc") as written answers 1 for two equal substrings. |
| BasicString.FindChar | basic_string.h:578-585 | find(ch, off) returns the first index at or after off holding ch, or npos. |
| BasicString.FindFirstNotOfChar | basic_string.h:601-608 | find_first_not_of(ch, off) returns the first index at or after off not holding ch, or npos. |
| BasicString.CharSet | basic_string.h:614-630 | The character set is the first count characters of ptr. |
| BasicString.FindFirstOf | basic_string.h:650-666 | find_first_of returns the first index at or after off whose character is in the set, or npos. |
| BasicString.FindFirstNotOf | basic_string.h:614-630 | find_first_not_of returns the first index at or after off whose character is outside the set, or npos. |
| BasicString.FindLastOfBase | basic_string.h:1026-1059 | find_last_of_base returns npos on an empty string. Otherwise it returns the last index at or below min(off, size-1) passing the membership test, or npos. |
| BasicString.StartsWithChar | basic_string.h:966-969 | starts_with(c) is false on an empty string and otherwise tells whether c is first. |
| BasicString.StartsWith | basic_string.h:971-980 | starts_with(x) is false when x is longer than the string and otherwise tells whether x is a prefix. |
| BasicString.Find | basic_string.h:588-594 | find(str, off, count) returns the first occurrence of the first count characters at or after off, or npos. |
| BasicString.StartsWithIsMatchAtZero | basic_string.h:971-980 | A string starts with x exactly when x occurs at position 0. |
| Deques.BufSize | deque.h:31-33 | deque_buf_size is block_size / sizeof(T), and 1 when an element is larger than a block. |
| Deques.BlockStep | deque.h:83 | The corrected block step lands on the block that contains the offset. |
| Deques.AdvanceAsWritten | deque.h:76-90 | operator+= as written moves the linear position by exactly n. |
| Deques.Advance | deque.h:76-90 | operator+= corrected moves the linear position by n and leaves the offset inside its block. |
| Deques.AdvanceAsWrittenLeavesBlock | deque.h:83 | Stepping back one from the start of block 1 as written leaves the offset at -1. |
| Deques.AdvanceAgrees | deque.h:76-90 | As written and corrected agree whenever the target offset is not negative. |
| Deques.LinInjective | deque.h:152-154 | Two positions inside their blocks are equal exactly when their linear positions are. |
| Deques.DistanceLinear | deque.h:103-105 | operator- between iterators is the difference of linear positions. |
| Deques.DistanceAdvance | deque.h:70-105 | (it + n) - it == n and it - (it + n) == -n. |
| Deques.LessLinear | deque.h:162-164 | For positions inside their blocks, operator< orders by linear position. |
| Deques.DerivedLinear | deque.h:167-179 | operator>, <= and >= are the matching orders on linear positions. |
| Deques.Tail | deque.h:501-503 | end() is size positions past head. |
| Deques.Slot | deque.h:459-464 | Element k lives k positions past head, inside its block. |
| Deques.Size | deque.h:449-451 | size is the number of elements. |
| Deques.Empty | deque.h:453-455 | empty holds exactly when there are no elements. |
| Deques.PushBack | deque.h:597-619 | push_back appends: back() is the value, head stays, and the new element sits at the old end(). |
| Deques.PushFront | deque.h:569-594 | push_front prepends: front() is the value, head moves back one, end() stays. |
| Deques.PopFront | deque.h:403-420 | pop_front does nothing when empty and otherwise removes the first element, moving head forward one. |
| Deques.PopBack | deque.h:433-446 | pop_back does nothing when empty and otherwise removes the last element. |
| Deques.PushPop | deque.h:393-446 | Popping what was just pushed, at either end, gives the deque back. |
| Deques.Front | deque.h:384-386 | front is the element at index 0. |
| Deques.Back | deque.h:376-378 | back is the element at index size - 1. |
| Deques.BackSlot | deque.h:376-378 | With the corrected +=, end() - 1 is the slot of the last element. |
| Deques.BackAsWrittenAfterPushFronts | deque.h:376-378 | After any non-empty run of push_front on a fresh deque, tail is still on the first slot of its block, and back() as written reads offset -1 there, which is not the slot of the last element. |
| Deques.BackAsWrittenMisses | deque.h:376-378 | After one push_front onto an empty deque, back() as written reads offset -1 of the block after the element. |
| Deques.Index | deque.h:474-479 | at fails with out_of_range exactly when index >= size, and otherwise yields the index-th element. |
| Deques.EraseAsWritten | deque.h:654-672 | erase removes exactly the element, and erase(end()) returns end() unchanged. |
| Deques.EraseAsWrittenPointsBack | deque.h:663-666 | Erasing in the front half as written returns an iterator at the element before the erased one. |
| Deques.Erase | deque.h:654-672 | erase corrected returns the position of the element that followed the erased one, or end(). |
| RbPointer.Load | rb_tree.h:467-595 | Reading a node faults exactly on a null or dangling pointer. |
| RbPointer.ThreeNodesTree | rb_tree.h:467-595 | The three-node heap reads as the tree 20 over 10 and 30. |
| RbPointer.ColourInversionUnbalances | rb_tree.h:527-591 | Erasing red leaf 10 from black 20 over red 10 and red 30, as written, repaints 30 black and leaves unequal black heights. The intended code keeps a valid tree. |
| RbPointer.ColourInversionFaults | rb_tree.h:527-591 | Erasing red leaf 5 from black 10 over red 5, as written, dereferences a null pointer. The intended code leaves 10 alone. |
| RbPointer.StaleParentFaults | rb_tree.h:499-501 | With the colours right but x_parent taken from y when y is z's right child, erasing black root 20 of three black nodes dereferences a null pointer. |
| RbPointer.AsWrittenRootEraseFaults | rb_tree.h:467-595 | The code as written faults on erasing the root of black 20 over red 10 and red 30. |
| RbPointer.StaleParentFixed | rb_tree.h:499-501 | With x_parent set to y, the same erase gives black 30 over red 10, the functional EraseAt's answer. |
| RbPointer.IntendedMatchesFunctionalLeaf | rb_tree.h:467-595 | The intended pointer code and the functional EraseAt agree on erasing a red leaf. |

## Left out

- The thin wrappers set.h, multiset.h and map.h, which pick the key extraction and policy and forward to `Rb_tree`.
- The `Queue` and stack adapters, which forward to `Deque`.
- node_hand.h: an unused duplicate of the handle in rb_tree.h. Its include is commented out.
- string.h: an older, incomplete deque under the same include guard.
- Allocators, construction and destruction, and memory reuse (`Reuse_or_alloc_node`, `M_copy`, assignment operators, the copy constructors).
- Exceptions are `Failure` values, not unwinding.
- Self-aliasing arguments are not modelled. The value or character pointer passed in is taken as a standalone value, never a reference into the container's own buffer. For each member below, the source behaves differently when it does alias:
- Vectors.Emplace: with spare capacity, `v.insert(v.begin(), v[1])` on [1,2,3] yields [1,1,2,3]. `std::move_backward` (vector.h:381) shifts the elements before `construct` (vector.h:384) reads the reference, while the model yields [2,1,2,3].
- Vectors.PushBack: on a full vector, `v.push_back(v[0])` reads storage that `reserve` has already freed (vector.h:454) before the copy (vector.h:221); that is undefined behaviour, while the model appends the old value.
- PriorityQueue.Push: inherits the same read of freed storage through `c.push_back(value)` (queue.h:272), e.g. `pq.push(pq.top())` on a full container.
- BasicString.InsertPtr: with spare capacity, `s.insert(1, s.data(), 2)` on "ab" runs the shift loop (basic_string.h:734-737) before the copy loop (basic_string.h:740-742) and yields "aaab", while the model's splice yields "aabb".
- BasicString.AppendPtr: `s.append(s.data(), n)` that reallocates reads the buffer freed at basic_string.h:330.
- BasicString: `CharType` is Dafny's `char`, and `compare` (basic_string.h:454-461) orders characters by code point. That matches unsigned `char`, `char16_t` and `char32_t`, but not a signed `char`, under which bytes 0x80-0xFF compare below ASCII. BasicString.LexCmp, BasicString.Compare and BasicString.CompareAsWritten therefore do not model signed-`char` ordering of non-ASCII bytes.
- The comparator of the tree is `<` on `int` keys. Algorithm and PriorityQueue take `std::less` or `std::greater` on `int` elements. Arbitrary functors and key types are not modelled.
- `size_t` wrap-around is not modelled: sizes, capacities and counts are unbounded naturals. The string's `npos` is the constant 2^64 - 1 where it is passed in as a count, and `None` where it is returned.
- `M_reinsert_node_hint_equal` (rb_tree.h:2039-2056) calls `_M_get_insert_hint_equal_pos` at line 2046, a name that is declared nowhere; the finder it means is `M_get_insert_hint_equal_pos` (rb_tree.h:1210), so the member does not compile. It is not modelled beyond the hinted equal insert it intends (RbContainer.InsertHintEqual).
- `operator==` / `operator<` between containers, `assign`, and the iterator-range and initializer-list constructors.
- Algorithm.InsertionSort, Algorithm.Partition and Algorithm.IntroSort: require a non-empty range, because the source reads `first + 1` and `last - 1` unguarded. `sort` checks for the empty range first.
- Algorithm.Log2: requires n >= 0. On a negative int the shift loop of the source never reaches 0.
- PriorityQueue.Top: requires a non-empty queue, as `c.front()` does.
- The priority queue's constructors that build a heap from a range (queue.h:205-253). `emplace` is `push` of the constructed value.
- List: self-splice and self-merge guards are not modelled, since a value cannot alias itself. The `unique(pred)` overload and the predicate-taking `remove_if` are out.
- LinkedList.Unique: requires a non-empty list. On an empty list the source sets `node = head->next->next`, which is the tail sentinel's `next`, left null by the ListNode constructor (list.h:16). It reads the sentinel's value, and the loop `while(node != tail)` (list.h:724-727) then dereferences that null pointer.
- The list's count and initializer-list `insert` overloads, which repeat the single insert.
- Vector's count and range `insert` overloads and `assign`.
- The string overload `append(str, off, count)` reads past the source string when `off + count` exceeds its size; only the pointer and fill forms are modelled.
- The C-string overloads of `compare`, and `find_last_of(char)`, `rfind`, `c_str`, `ends_with`.
- Deque: `++`/`--` are modelled as `+= 1` / `-= 1`, and iterator positions are kept normalised inside their block. Also out: `emplace` in the middle, range `erase`, `insert`, `resize`, `shrink_to_fit`, the block map's reallocation, and the copy constructor.
- Deques.PopFront: the source tests `head.cur == head.last` (deque.h:408), which is one past the last slot of head's block; head gets there when `++` (deque.h:110) meets a null next block. In that branch the source destroys that past-the-block slot, frees head's block and moves head to the first slot of tail's block (deque.h:409-414): it removes no element and leaves the size unchanged. The model's head never sits past its block (see Deques.Tail below), so its pop_front always removes the first element.
- Deques.Tail: end() is kept normalised, so a tail one past the last slot of its block is represented as the first slot of the next block. The source's tail does stop at `cur == last` when `++` (deque.h:110) or `++tail` in emplace_back (deque.h:618) meets a null next block, and from there back() as written (deque.h:377) reads the right slot. The as-written back() defect is therefore claimed only for tails the source holds on the first slot of a block, as after push_front on a fresh deque (Deques.BackAsWrittenAfterPushFronts); Deques.BackAsWrittenOffBlock is the model-level step behind it, not a claim about every source state.
- Algorithm.Pow2 is the reference power of two that states Log2's result; it models no source line.
- NodeHandle.Reset and NodeHandle.Release carry no row of their own: what they mean is stated by NodeHandle.MoveAssignConserves, NodeHandle.Destroy and the ownership clauses of RbContainer.Extract, ReinsertUniqueIsInsert and ReinsertEqual. Likewise the three value swaps (Algorithm.Swap, PriorityQueue.Swap, Vectors.Swap) are stated by Heap.SwapAt and the SwapInvolutive lemmas.
- RbPointer: the pointer-level walks `ToTree`, `MinimumP` and `MaximumP` run on a fuel of 8 levels, enough for the concrete trees examined. RbPointer states facts about concrete heaps only; the general erase is RbErase.

## Findings

| source | as written | input that shows it | evidently intended | confidence | as-written member | corrected member |
|---|---|---|---|---|---|---|
| rb_tree.h:527-591 | The fix-up runs on `!y->M_color`, i.e. when the removed colour is S_red (false). Every later colour test and store is inverted the same way. | Erase red leaf 10 from black 20 with red children 10 and 30: 30 is painted black, so the black heights differ. Erase red 5 from black 10 over red 5: null dereference. | The fix-up runs when a black node was removed, as the comment at line 527 says. | not executed | RbPointer.ColourInversionUnbalances | RbErase.EraseAtValid |
| rb_tree.h:499-501 | When the successor y is z's right child, `x_parent = y->M_parent` is z, the node being removed. | Erase black root 20 of three black nodes 10, 20, 30, with the colour tests fixed: the loop walks z's stale links and dereferences null. | x_parent = y. | not executed | RbPointer.StaleParentFaults | RbPointer.StaleParentFixed |
| rb_tree.h:2059-2062 | extract(pos) unlinks the node without decrementing node_count. | Extract any element: size() stays one too large. | --node_count, as M_erase_aux does at line 1692. | not executed | RbContainer.ExtractAsWrittenMiscounts | RbContainer.Extract |
| rb_tree.h:1999-2016 | M_reinsert_node_equal releases the handle only in a branch that cannot be reached. After insertion the handle still owns the linked node. | Reinsert any non-empty handle. | Release the handle after inserting. | not executed | RbContainer.ReinsertEqualAsWrittenDoubleOwns | RbContainer.ReinsertEqual |
| list.h:723-738 | unique unlinks duplicate nodes but never decrements size_. | The list [4, 4]: one node remains, size() says 2. | --size_ per removed node. | not executed | LinkedList.UniqueAsWrittenMiscounts | LinkedList.Unique |
| list.h:389-392 | erase of the last node returns `iterator(nullptr)`. | Erase the only element of [7]: the result is null, not end(). | Return end(). | not executed | LinkedList.EraseAsWrittenLosesEnd | LinkedList.Erase |
| deque.h:83 | For a negative offset, the block step is `-((-offset - 1) / buf)` without the `- 1`. | Offset -1 with buf 4 stays in the same block at offset -1. `back()` after one `push_front` on an empty deque reads outside the block. | `-((-offset - 1) / buf) - 1`. | not executed | Deques.AdvanceAsWrittenLeavesBlock | Deques.Advance |
| deque.h:376-378 | back() is `*(tail - 1)`, which goes through the faulty `+=` when tail is on the first slot of a block, as it is after push_front on a fresh deque (a tail stopped at `cur == last` is read correctly). | push_front(7) on an empty deque with buf 4, then back(). | The slot of the last element. | not executed | Deques.BackAsWrittenMisses | Deques.BackSlot |
| deque.h:663-666 | In the front-half case, erase shifts [head, where) back by one and returns `where`, which now holds the element before the erased one. | Erase index 1 of a deque of 4 or more elements: the result points at the old element 0. | Return where + 1, the element after the erased one. | not executed | Deques.EraseAsWrittenPointsBack | Deques.Erase |
| basic_string.h:462-471 | compare(pos1, n1, str, pos2, n2) clamps n1 to size() and n2 to str.size(), not to what is left after pos1 and pos2. | "abc".compare(1, 5, "bc") answers 1 for "bc" against "bc". | Clamp to size() - pos1 and str.size() - pos2. | not executed | BasicString.CompareAsWrittenMisorders | BasicString.Compare |
