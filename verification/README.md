# Data structures: a verified Dafny model

This project models the container classes of a Java data-structures
library and proves what their operations do. The containers are:

- **TreeMap**: an unbalanced binary search tree map with sentinel leaves,
  built on **LinkedBinaryTree**.
- **HeapPriorityQueue**: a binary min-heap kept in an array list.
- **ArrayQueue** and **ArrayStack**: fixed-capacity containers over an array.
- **SinglyLinkedList**, **DoublyLinkedList** (with header and trailer
  sentinels) and **CircularlyLinkedList**.
- The adapters **LinkedStack**, **LinkedQueue**, **LinkedDeque** (over the
  singly linked list) and **LinkedCircularQueue** (over the circular list).
- **UnsortedTableMap**: an association list.
- The bucket layer of **ChainHashMap**: a table of unsorted table maps.

Everything is modelled as immutable values and pure functions, except the
heap's operations (`upheap`, `downheap`, `heapify`, `insert`, `removeMin`
and the array constructor) and the hash map's `entrySet`, which are
methods; the loops among them carry their invariants.

- **Binary tree.** `LinkedBinaryTree` is a tree of nodes. A Position is
  the path from the root, a `seq<bool>` where `true` means "go right". A
  position the tree no longer reaches is stale, which is how a removed
  node's tombstone shows up.
- **Tree map.** `TreeMap` works on a map tree whose `Leaf` is the
  sentinel. Each map operation is related to the engine's node
  operations by `Embed`, which turns sentinels into `null`-element nodes.
- **Linked lists.** The lists are modelled with a node store: parallel
  `data`/`next` (and `prev`) sequences indexed by node reference, with
  `-1` as `null`. So aliasing, re-linking and the cyclic tail link of the
  circular list behave as they do in Java. `Links` holds the walk along
  `next` that the lists share.
- **Java errors.** A Java `null` result is `None`. A thrown exception is
  `Failure(kind)`, with the kind named after the Java exception class:
  `NullPointer` is a dereferenced `null` in the list code, and `Runtime`
  is only an explicit `throw new RuntimeException`.
- **Integers.** Keys are `int` with the usual order. Integers are
  unbounded. Java `int` arithmetic stays in range in the modelled code
  for heaps of fewer than 2^30 entries and for sizes below 2^31. The
  heap's `left(j)` and `right(j)` overflow beyond that (see "Left out").
  The truncating division in `parent(j)` is written out.

## Model

| member | source | states |
|---|---|---|
| LinkedBinaryTree.Validate | src/LinkedBinaryTree.java:102-109 | succeeds exactly when the position still addresses a node, returning that node; otherwise IllegalArgumentException |
| LinkedBinaryTree.Size | src/LinkedBinaryTree.java:119-121 | on a valid tree the counter is the number of linked nodes and the length of the in-order walk |
| LinkedBinaryTree.Root | src/LinkedBinaryTree.java:129-131 | the root position exactly when the tree is non-empty, none otherwise |
| LinkedBinaryTree.Parent | src/LinkedBinaryTree.java:141-143 | none at the root; otherwise the position one step up, which addresses a node whose child on the last step is the given node |
| LinkedBinaryTree.Left | src/LinkedBinaryTree.java:153-155 | the left child's position exactly when that link is non-null |
| LinkedBinaryTree.Right | src/LinkedBinaryTree.java:165-167 | the right child's position exactly when that link is non-null |
| LinkedBinaryTree.AddRoot | src/LinkedBinaryTree.java:178-183 | IllegalStateException when a root exists; otherwise the tree is one node holding e and the counter grows by one |
| LinkedBinaryTree.AddLeft | src/LinkedBinaryTree.java:195-199 | into an empty left slot of a node: a fresh childless node holding e is the left child, everything else is unchanged, the counter grows by one |
| LinkedBinaryTree.AddRight | src/LinkedBinaryTree.java:210-215 | into an empty right slot of a node: a fresh childless node holding e is the right child, everything else is unchanged, the counter grows by one |
| LinkedBinaryTree.AddChildAsWritten | src/LinkedBinaryTree.java:195-199 | addLeft/addRight as the code runs them on any live node: the new childless node sits at p + [side], the counter grows by one, while the linked node count grows by one minus the size of any subtree that was in the slot |
| LinkedBinaryTree.AddIntoOccupiedSlot | src/LinkedBinaryTree.java:193-199 | on an occupied slot the code leaves fewer linked nodes than its size counter, so the tree is no longer consistent |
| LinkedBinaryTree.AddIntoOccupiedSlotExample | src/LinkedBinaryTree.java:195-199 | addLeft at the root of a two-node tree with a left child leaves 2 linked nodes and size 3 |
| LinkedBinaryTree.AddChildChecked | src/LinkedBinaryTree.java:186-215 | the documented addLeft/addRight: IllegalArgumentException exactly when p is not a live node or already has that child; otherwise a new node at p + [side], one more node, and a consistent tree |
| LinkedBinaryTree.AddChildCheckedAgrees | src/LinkedBinaryTree.java:186-215 | on an empty slot the documented version gives the same tree and position as AddLeft or AddRight |
| LinkedBinaryTree.Set | src/LinkedBinaryTree.java:225-229 | the node's element becomes e and the previous one is returned; shape, counter and all other elements are unchanged |
| LinkedBinaryTree.Remove | src/LinkedBinaryTree.java:239-259 | IllegalArgumentException for a stale position or a node with two children; otherwise its only child (or nothing) takes its slot, the counter drops by one and its element is returned |
| LinkedBinaryTree.RemovedLeafIsStale | src/LinkedBinaryTree.java:239-259 | after removing a childless node, validating its position fails |
| LinkedBinaryTree.CreateLevelOrder | src/LinkedBinaryTree.java:261-265 | the level-order tree of the array, valid, with the counter equal to the array length |
| LinkedBinaryTree.LevelOrderChildren | src/LinkedBinaryTree.java:267-277 | the node for array index i holds arr[i] and has children for 2i+1 and 2i+2 exactly when those indices are inside the array |
| LinkedBinaryTree.ShapeCountIsLength | src/LinkedBinaryTree.java:267-277 | the level-order tree of n elements has exactly n nodes |
| TreeMap.MapSize | src/TreeMap.java:34-36 | (tree.size() - 1) / 2 on a full engine tree is the number of entries of the map |
| TreeMap.EmbedIsFull | src/TreeMap.java:41-45 | every map tree is a full engine tree with 2n + 1 nodes for n entries, and reading it back gives the map tree |
| TreeMap.FullIsEmbed | src/TreeMap.java:41-45 | every full engine tree with entries exactly at internal nodes is the embedding of a map tree |
| TreeMap.ExpandExternal | src/TreeMap.java:41-45 | the sentinel at p becomes an internal node holding the entry with two sentinel children; the entry count grows by one |
| TreeMap.ExpandExternalByEngine | src/TreeMap.java:41-45 | set, addLeft(null) and addRight(null) on the engine produce the embedding of the expanded map tree and add two nodes |
| TreeMap.TreeSearch | src/TreeMap.java:96-107 | the position reached is a node or a sentinel; on a search tree it is a node exactly when the key is present, with the key's value, else the sentinel where the key belongs |
| TreeMap.TreeMin | src/TreeMap.java:115-121 | on a non-empty subtree, a node without left child holding the least key |
| TreeMap.TreeMax | src/TreeMap.java:129-135 | on a non-empty subtree, a node without right child holding the greatest key |
| TreeMap.Get | src/TreeMap.java:145-150 | on a search tree, the key's value when present, none exactly when absent |
| TreeMap.Put | src/TreeMap.java:163-183 | keeps search order; afterwards the map is the old one updated at k; returns the old value; a new key adds one entry, a present key keeps size and shape |
| TreeMap.InsertSpec | src/TreeMap.java:163-183 | the recursive insertion put performs keeps search order, updates exactly k and grows only for a new key |
| TreeMap.SetEntryByEngine | src/TreeMap.java:163-183 | replacing an entry in place is the engine's set, returning the old entry and keeping the node count |
| TreeMap.Remove | src/TreeMap.java:194-221 | keeps search order; an absent key changes nothing and returns none; a present key is removed, every other key keeps its value, size drops by one and the value is returned |
| TreeMap.DeleteSpec | src/TreeMap.java:194-221 | the recursive deletion, including promotion of the predecessor, keeps search order and removes exactly k |
| TreeMap.EraseByEngine | src/TreeMap.java:194-221 | the engine's two removals (a sentinel, then the node) promote the other child, return the entry and drop two nodes |
| TreeMapNavigation.FirstEntry | src/TreeMap.java:231-235 | none exactly for an empty map; otherwise an entry of the map whose key is least |
| TreeMapNavigation.LastEntry | src/TreeMap.java:243-248 | none exactly for an empty map; otherwise an entry of the map whose key is greatest |
| TreeMapNavigation.CeilingEntrySpec | src/TreeMap.java:259-271 | the search followed by the climb to the first ancestor entered from the left returns the least key at or above k, none exactly when there is none |
| TreeMapNavigation.FloorEntrySpec | src/TreeMap.java:282-295 | the greatest key at or below k, none exactly when there is none |
| TreeMapNavigation.LowerEntrySpec | src/TreeMap.java:306-319 | the greatest key strictly below k (also through a found node's left subtree), none exactly when there is none |
| TreeMapNavigation.HigherEntrySpec | src/TreeMap.java:330-343 | the least key strictly above k (also through a found node's right subtree), none exactly when there is none |
| TreeMapNavigation.EntrySetIsInorder | src/TreeMap.java:353-361 | the engine's in-order walk with sentinels skipped is the map tree's in-order walk |
| TreeMapNavigation.EntrySetSpec | src/TreeMap.java:353-361 | entrySet holds one entry per key with its value, in strictly ascending key order |
| TreeMapNavigation.SubMapFromIsRange | src/TreeMap.java:384-397 | the pruned recursion yields exactly the in-range part of the in-order walk |
| TreeMapNavigation.SubMapSpec | src/TreeMap.java:373-382 | subMap(a, b) holds exactly the entries with a <= key < b, in strictly ascending order; empty when a >= b |
| HeapPriorityQueue.Parent | src/HeapPriorityQueue.java:51-54 | parent(0) is 0, every other index's parent is a smaller index of which it is the left or right child, and parent(-1) truncates to -1 |
| HeapPriorityQueue.ChildrenOfParent | src/HeapPriorityQueue.java:51-62 | an index's parent is j exactly when it is left(j) or right(j) |
| HeapPriorityQueue.HeapOrderIsSanityCheck | src/HeapPriorityQueue.java:175-184 | no child below its parent (the checked condition) is equivalent to every non-root entry being at least its parent |
| HeapPriorityQueue.RootIsMin | src/HeapPriorityQueue.java:137-139 | in heap order the entry at index 0 has a least key |
| HeapPriorityQueue.Swap | src/HeapPriorityQueue.java:75-79 | exchanges two entries, leaves the others in place, and is a permutation |
| HeapPriorityQueue.Upheap | src/HeapPriorityQueue.java:84-89 | from heap order broken only at i, a permutation of the list in heap order |
| HeapPriorityQueue.SmallerChild | src/HeapPriorityQueue.java:94-108 | the child downheap compares with: a child of i whose key is least among i's children |
| HeapPriorityQueue.Downheap | src/HeapPriorityQueue.java:94-108 | from order below i, a permutation ordered from i on that changes nothing outside i's subtree |
| HeapPriorityQueue.Heapify | src/HeapPriorityQueue.java:113-117 | any list becomes a permutation of itself in heap order |
| HeapPriorityQueue.Min | src/HeapPriorityQueue.java:137-139 | IndexOutOfBoundsException exactly on an empty heap; otherwise an entry of the heap with a least key |
| HeapPriorityQueue.Insert | src/HeapPriorityQueue.java:150-155 | returns the new entry; the heap gains exactly it and stays in heap order |
| HeapPriorityQueue.RemoveMin | src/HeapPriorityQueue.java:163-170 | IndexOutOfBoundsException exactly on an empty heap; otherwise an entry with a least key, removed exactly once, leaving a heap one smaller |
| HeapPriorityQueue.PairAsWritten | src/HeapPriorityQueue.java:42-45 | the constructor loop succeeds exactly when there are at least as many values as keys, pairing keys[i] with values[i] |
| HeapPriorityQueue.ShorterValuesThrow | src/HeapPriorityQueue.java:42-45 | two keys and one value: the loop fails where the documentation promises one entry |
| HeapPriorityQueue.PairUpToShorter | src/HeapPriorityQueue.java:32-38 | entries pair keys[i] with values[i] up to the length of the shorter array |
| HeapPriorityQueue.PairAgreesWhenLongEnough | src/HeapPriorityQueue.java:42-45 | wherever the loop as written succeeds it gives the documented pairing |
| HeapPriorityQueue.FromArrays | src/HeapPriorityQueue.java:42-48 | the constructor's result is a heap-ordered permutation of the documented pairing |
| ArrayQueue.NewSpec | src/ArrayQueue.java:8-14 | NegativeArraySizeException exactly for a negative capacity; otherwise an empty valid queue of that capacity |
| ArrayQueue.Enqueue | src/ArrayQueue.java:31-38 | IllegalStateException exactly when full; otherwise e joins the back and the queue stays valid |
| ArrayQueue.First | src/ArrayQueue.java:41-44 | none exactly when empty, else the front element |
| ArrayQueue.Dequeue | src/ArrayQueue.java:47-54 | none and no change when empty; otherwise the front element, removed |
| ArrayQueue.RunIsFifo | src/ArrayQueue.java:56-96 | every run of calls prints and fails exactly as a bounded FIFO sequence of the same capacity |
| ArrayQueue.MainTrace | src/ArrayQueue.java:81-94 | main's printed output 1 2 3 1 4 4 5 6 null 7 and the "queue is full" exception |
| ArrayStack.NewSpec | src/ArrayStack.java:18-21 | NegativeArraySizeException exactly for a negative capacity; otherwise an empty valid stack |
| ArrayStack.Push | src/ArrayStack.java:38-41 | IllegalStateException exactly when full; otherwise e is the new top |
| ArrayStack.Top | src/ArrayStack.java:44-47 | none exactly when empty, else the last pushed element |
| ArrayStack.Pop | src/ArrayStack.java:50-58 | none and no change when empty; otherwise the top element, with the vacated slot cleared |
| ArrayStack.PushThenPop | src/ArrayStack.java:38-58 | pop after push gives the element back and exactly the stack before the push |
| ArrayStack.ElementsDetermine | src/ArrayStack.java:50-58 | because pop clears its slot, two valid stacks with the same capacity and elements are equal |
| ArrayStack.MainTrace | src/ArrayStack.java:7-16 | main prints 3, 3, 2 and 1 |
| Links.FollowChain | src/SinglyLinkedList.java:23-30 | following i links from the start of a walk reaches its i-th node |
| Links.ChainIff | src/CircularlyLinkedList.java:8-15 | the walk Chain computes is exactly a walk of k non-null nodes along next |
| SinglyLinkedList.EmptySpec | src/SinglyLinkedList.java:18-20 | a valid list with no elements |
| SinglyLinkedList.Get | src/SinglyLinkedList.java:23-30 | the i-th element for 0 <= i < size, none otherwise |
| SinglyLinkedList.First | src/SinglyLinkedList.java:32-34 | the first element, or null exactly when the list is empty |
| SinglyLinkedList.Last | src/SinglyLinkedList.java:36-38 | the last element, or null exactly when the list is empty |
| SinglyLinkedList.Add | src/SinglyLinkedList.java:40-58 | IllegalArgumentException exactly unless 0 <= i <= size; otherwise e is inserted at position i |
| SinglyLinkedList.InsertAfter | src/SinglyLinkedList.java:51-57 | a fresh node linked after the (i-1)-th node inserts at position i |
| SinglyLinkedList.Remove | src/SinglyLinkedList.java:60-82 | RuntimeException on an empty list, IllegalArgumentException for i out of range; otherwise the i-th element, removed |
| SinglyLinkedList.Unlink | src/SinglyLinkedList.java:72-81 | skipping the i-th node removes exactly the i-th element |
| SinglyLinkedList.RemoveFirst | src/SinglyLinkedList.java:92-104 | RuntimeException on an empty list; otherwise the first element, removed |
| SinglyLinkedList.SeekBeforeLast | src/SinglyLinkedList.java:106-122 | the search for the node before the tail finds the second-last node |
| SinglyLinkedList.RemoveLast | src/SinglyLinkedList.java:106-122 | RuntimeException on an empty list; otherwise the last element, removed |
| SinglyLinkedList.AddFirst | src/SinglyLinkedList.java:124-132 | e in front, size one more; the tail is the new node when the list was empty |
| SinglyLinkedList.AddLast | src/SinglyLinkedList.java:134-142 | e at the back, size one more |
| SinglyLinkedList.IteratorYieldsElements | src/SinglyLinkedList.java:164-178 | iteration yields the elements head to tail and then has no next |
| DoublyLinkedList.EmptySpec | src/DoublyLinkedList.java:26-32 | header and trailer linked to each other: a valid empty list |
| DoublyLinkedList.AddBetween | src/DoublyLinkedList.java:34-39 | a new node between two neighbours, linked both ways; the element is inserted there and size grows by one |
| DoublyLinkedList.BackwardWalk | src/DoublyLinkedList.java:34-39 | in a valid list, walking prev from the trailer meets the nodes walking next meets, reversed |
| DoublyLinkedList.GetNode | src/DoublyLinkedList.java:41-50 | the node holding the i-th element for 0 <= i < size, none otherwise |
| DoublyLinkedList.Get | src/DoublyLinkedList.java:71-74 | the i-th element for 0 <= i < size, none otherwise |
| DoublyLinkedList.First | src/DoublyLinkedList.java:52-54 | the first element, or null exactly when the list is empty |
| DoublyLinkedList.Last | src/DoublyLinkedList.java:56-58 | the last element, or null exactly when the list is empty |
| DoublyLinkedList.Add | src/DoublyLinkedList.java:77-90 | IndexOutOfBoundsException exactly unless 0 <= i <= size; otherwise e is inserted at position i |
| DoublyLinkedList.Remove | src/DoublyLinkedList.java:93-100 | fails exactly outside 0 <= i < size; otherwise the i-th element, removed, with both directions re-linked |
| DoublyLinkedList.Unlink | src/DoublyLinkedList.java:93-100 | linking the neighbours to each other removes exactly the i-th element |
| DoublyLinkedList.RemoveFirst | src/DoublyLinkedList.java:108-110 | fails on an empty list; otherwise the first element, removed |
| DoublyLinkedList.RemoveLast | src/DoublyLinkedList.java:113-115 | fails on an empty list; otherwise the last element, removed |
| DoublyLinkedList.AddFirst | src/DoublyLinkedList.java:118-120 | e in front |
| DoublyLinkedList.AddLast | src/DoublyLinkedList.java:123-125 | e at the back |
| CircularlyLinkedList.EmptySpec | src/CircularlyLinkedList.java:5-6 | a list with a null head and size 0 is valid, cyclic and has no elements |
| CircularlyLinkedList.GetNode | src/CircularlyLinkedList.java:8-15 | the node i links after head for 0 <= i < size, none otherwise |
| CircularlyLinkedList.GetNodeSpec | src/CircularlyLinkedList.java:8-15 | on a valid list it is the i-th node |
| CircularlyLinkedList.Get | src/CircularlyLinkedList.java:25-32 | none exactly outside 0 <= i < size |
| CircularlyLinkedList.GetSpec | src/CircularlyLinkedList.java:25-32 | on a valid list it is the i-th element |
| CircularlyLinkedList.Add | src/CircularlyLinkedList.java:34-48 | IndexOutOfBoundsException exactly unless 0 <= i <= size |
| CircularlyLinkedList.AddSpec | src/CircularlyLinkedList.java:34-48 | on a valid list e is inserted at position i; inserting strictly inside keeps a cyclic list cyclic |
| CircularlyLinkedList.InsertSpec | src/CircularlyLinkedList.java:41-47 | the middle case: the new node goes after the (i-1)-th node |
| CircularlyLinkedList.RemoveFirst | src/CircularlyLinkedList.java:67-79 | none exactly on an empty list |
| CircularlyLinkedList.RemoveFirstSpec | src/CircularlyLinkedList.java:67-79 | on a valid list, the first element, removed; what remains is cyclic |
| CircularlyLinkedList.DropFirst | src/CircularlyLinkedList.java:67-79 | with two nodes or more, the old second node is head and the last node links to it |
| CircularlyLinkedList.RemoveLast | src/CircularlyLinkedList.java:81-91 | none exactly on an empty list |
| CircularlyLinkedList.RemoveLastSpec | src/CircularlyLinkedList.java:81-91 | on a valid list, the last element, removed; what remains is cyclic |
| CircularlyLinkedList.AddFirst | src/CircularlyLinkedList.java:93-96 | a new head linking to the old one; the store only grows |
| CircularlyLinkedList.AddFirstSpec | src/CircularlyLinkedList.java:93-96 | on a valid list e is in front |
| CircularlyLinkedList.AddLast | src/CircularlyLinkedList.java:98-109 | a new last node linking back to head |
| CircularlyLinkedList.AddLastSpec | src/CircularlyLinkedList.java:98-109 | on a valid list e is appended, and a list of two nodes or more is cyclic |
| CircularlyLinkedList.Rotate | src/CircularlyLinkedList.java:111-114 | nothing for fewer than two nodes; otherwise head moves one link on |
| CircularlyLinkedList.RotateSpec | src/CircularlyLinkedList.java:111-114 | on a valid cyclic list the first element moves to the end, and the list stays cyclic |
| CircularlyLinkedList.AddFirstThenRotate | src/CircularlyLinkedList.java:93-96 | after addFirst on a cyclic list of two or more, rotate loses the new element |
| CircularlyLinkedList.AddFirstLinked | src/CircularlyLinkedList.java:93-96 | addFirst that also re-links the last node to the new head |
| CircularlyLinkedList.AddFirstLinkedSpec | src/CircularlyLinkedList.java:93-96 | e in front, and a non-empty result is cyclic |
| CircularlyLinkedList.AddFirstLinkedThenRotate | src/CircularlyLinkedList.java:111-114 | with the re-linking addFirst, rotate moves the new element to the end |
| CircularlyLinkedList.Remove | src/CircularlyLinkedList.java:50-65 | remove(i) as written: none for i < 0 or i > size |
| CircularlyLinkedList.RemoveReturnsSuccessor | src/CircularlyLinkedList.java:57-63 | for a middle index the i-th element is unlinked but the element after it is returned |
| CircularlyLinkedList.RemoveAtSize | src/CircularlyLinkedList.java:51 | on a cyclic list of two or more, remove(size) is accepted, returns the second element and drops the last one from view |
| CircularlyLinkedList.RemoveAt | src/CircularlyLinkedList.java:50-65 | remove(i) with the documented bound and result: none exactly outside 0 <= i < size |
| CircularlyLinkedList.RemoveAtSpec | src/CircularlyLinkedList.java:50-65 | on a valid list, the i-th element, removed, keeping a cyclic list cyclic |
| CircularlyLinkedList.UnlinkSpec | src/CircularlyLinkedList.java:57-63 | the middle case: the (i-1)-th node skips the i-th |
| LinkedStack.NewSpec | src/LinkedStack.java:3 | a valid stack with no elements |
| LinkedStack.Size | src/LinkedStack.java:17-19 | the number of elements |
| LinkedStack.IsEmpty | src/LinkedStack.java:22-24 | true exactly when there are no elements |
| LinkedStack.Push | src/LinkedStack.java:27-29 | e on top of the old elements |
| LinkedStack.Top | src/LinkedStack.java:32-35 | none exactly when empty, else the last pushed element |
| LinkedStack.Pop | src/LinkedStack.java:38-41 | none and no change when empty; otherwise the top element, removed |
| LinkedStack.PushThenPop | src/LinkedStack.java:27-41 | pop after push(e) gives e and the elements before |
| LinkedStack.MainTrace | src/LinkedStack.java:5-14 | main prints 3, 3, 2 and 1 |
| LinkedQueue.NewSpec | src/LinkedQueue.java:3 | a valid queue with no elements |
| LinkedQueue.Size | src/LinkedQueue.java:6-8 | the number of elements |
| LinkedQueue.IsEmpty | src/LinkedQueue.java:11-13 | true exactly when there are no elements |
| LinkedQueue.Enqueue | src/LinkedQueue.java:16-18 | e at the back |
| LinkedQueue.First | src/LinkedQueue.java:21-23 | none exactly when empty, else the front element |
| LinkedQueue.Dequeue | src/LinkedQueue.java:26-28 | RuntimeException exactly when empty; otherwise the front element, removed |
| LinkedQueue.EnqueueThenDequeue | src/LinkedQueue.java:16-28 | first in, first out: dequeue after enqueue returns the old front, or e on an empty queue |
| LinkedQueue.Drain | src/LinkedQueue.java:26-28 | dequeuing until empty yields the elements front first |
| LinkedDeque.NewSpec | src/LinkedDeque.java:3 | a valid deque with no elements |
| LinkedDeque.Size | src/LinkedDeque.java:6-8 | the number of elements |
| LinkedDeque.IsEmpty | src/LinkedDeque.java:11-13 | true exactly when there are no elements |
| LinkedDeque.First | src/LinkedDeque.java:16-18 | none exactly when empty, else the front element |
| LinkedDeque.Last | src/LinkedDeque.java:21-23 | none exactly when empty, else the back element |
| LinkedDeque.AddFirst | src/LinkedDeque.java:26-28 | e in front |
| LinkedDeque.AddLast | src/LinkedDeque.java:31-33 | e at the back |
| LinkedDeque.RemoveFirst | src/LinkedDeque.java:36-38 | RuntimeException exactly when empty; otherwise the front element, removed |
| LinkedDeque.RemoveLast | src/LinkedDeque.java:41-43 | RuntimeException exactly when empty; otherwise the back element, removed |
| LinkedDeque.AddThenRemove | src/LinkedDeque.java:26-43 | each end undoes its own insertion |
| LinkedDeque.Drain | src/LinkedDeque.java:53-56 | removing from the front until empty yields the elements front first |
| LinkedDeque.MainTrace | src/LinkedDeque.java:45-59 | main prints 3, 0, then 0 1 2 3 |
| LinkedCircularQueue.NewSpec | src/LinkedCircularQueue.java:11 | a valid queue with no elements |
| LinkedCircularQueue.Size | src/LinkedCircularQueue.java:14-16 | the number of elements |
| LinkedCircularQueue.IsEmpty | src/LinkedCircularQueue.java:19-21 | true exactly when there are no elements |
| LinkedCircularQueue.Enqueue | src/LinkedCircularQueue.java:24-26 | e at the back, the list still cyclic |
| LinkedCircularQueue.First | src/LinkedCircularQueue.java:29-31 | none exactly when empty, else the front element |
| LinkedCircularQueue.Dequeue | src/LinkedCircularQueue.java:34-36 | none and no change when empty; otherwise the front element, removed |
| LinkedCircularQueue.Rotate | src/LinkedCircularQueue.java:38-40 | the front element moves to the back |
| LinkedCircularQueue.RotateIsRequeue | src/LinkedCircularQueue.java:1-7 | rotate does to the elements what enqueue(dequeue()) does |
| LinkedCircularQueue.EnqueueThenDequeue | src/LinkedCircularQueue.java:24-36 | first in, first out |
| LinkedCircularQueue.Drain | src/LinkedCircularQueue.java:54-60 | dequeuing until empty yields the elements front first and leaves an empty queue |
| LinkedCircularQueue.MainFirstHalf | src/LinkedCircularQueue.java:42-53 | main prints 1 2 3, then size 1 and first 4 |
| LinkedCircularQueue.MainSecondHalf | src/LinkedCircularQueue.java:54-66 | after rotating 1 2 3 4 once, main prints 2 3 4 1 |
| LinkedCircularQueue.MainTrace | src/LinkedCircularQueue.java:42-67 | the whole of main from a new queue |
| UnsortedTableMap.EmptySpec | src/UnsortedTableMap.java:30-32 | a valid map with no entries |
| UnsortedTableMap.FindIndexFrom | src/UnsortedTableMap.java:36-41 | the first index at or after i whose key matches, -1 exactly when there is none |
| UnsortedTableMap.FindIndex | src/UnsortedTableMap.java:36-41 | the first index whose key matches, -1 exactly when there is none |
| UnsortedTableMap.Get | src/UnsortedTableMap.java:62-67 | none exactly when no entry has the key; otherwise an entry of the table carries the key and the value |
| UnsortedTableMap.GetIff | src/UnsortedTableMap.java:62-67 | in a valid map, get(key) is v exactly when the entry (key, v) is in the table |
| UnsortedTableMap.Put | src/UnsortedTableMap.java:80-88 | returns the old get(key); afterwards get(key) is the new value and every other key is unchanged; the table grows by one exactly for a new key; distinct keys are kept |
| UnsortedTableMap.Remove | src/UnsortedTableMap.java:99-108 | returns the old get(key); absent key: nothing changes; present key: one entry fewer, the key is gone and every other key is unchanged |
| UnsortedTableMap.Next | src/UnsortedTableMap.java:118-122 | NoSuchElementException at the end of the table; otherwise the entry at the cursor and the cursor moved on |
| UnsortedTableMap.IteratorYieldsTable | src/UnsortedTableMap.java:111-122 | iteration yields the table in order, and one step past the end fails with NoSuchElementException |
| UnsortedTableMap.MainTrace | src/UnsortedTableMap.java:10-24 | main's gets give 1 2 3, and after removing "two" they give 1 null 3 |
| ChainHashMap.CreateTableSpec | src/ChainHashMap.java:29-34 | capacity empty valid buckets holding no entries; a negative capacity fails |
| ChainHashMap.BucketGet | src/ChainHashMap.java:45-47 | none exactly when bucket h has no entry with k; otherwise bucket h holds (k, value) |
| ChainHashMap.BucketPut | src/ChainHashMap.java:59-66 | returns bucketGet; present key: nothing changes; absent key: it now maps to v and size grows by one; other keys and buckets unchanged; the invariant is kept |
| ChainHashMap.BucketRemove | src/ChainHashMap.java:77-84 | returns bucketGet; absent key: nothing changes; present key: removed, size drops by one; other keys and buckets unchanged; the invariant is kept |
| ChainHashMap.EntrySet | src/ChainHashMap.java:92-100 | the buckets' entries, bucket 0 first, each in its own order |
| ChainHashMap.FlattenHolds | src/ChainHashMap.java:92-100 | the entry set has size entries, and holds an entry exactly when some bucket does |
| ChainHashMap.BucketPutKeepsOldValue | src/ChainHashMap.java:59-66 | putting a new value for a key already present leaves the old value |
| ChainHashMap.BucketPutKeepsOldValueExample | src/ChainHashMap.java:59-66 | put(1, "One") then put(1, "Uno") into bucket 1 still gives "One" |
| ChainHashMap.BucketPutReplacing | src/ChainHashMap.java:49-57 | as documented: afterwards k maps to v, the previous value is returned, size grows only for a new key |
| ChainHashMap.BucketPutAgreesOnNewKey | src/ChainHashMap.java:59-66 | for a key new to its bucket, the code and the documented behaviour agree |

## Left out

- Printing: every `toString`, `dump`/`dumpRecurse`, and the printing side of `sanityCheck`. The `main` methods appear only as the traces named in the table.
- Rebalancing: `rebalanceInsert`, `rebalanceDelete`, `rebalanceAccess` and `rotate` of the tree map have empty bodies, and their calls are commented out. The model is the plain unbalanced search tree.
- Comparators: keys are `int` in their usual order. `checkKey` and `compare` come from `AbstractSortedMap`, which is not part of this model. A key the comparator rejects is not modelled.
- Hashing: the hash function, capacity choice and resizing of `AbstractHashMap` are not part of this model. Each bucket operation takes its bucket index h as given, with 0 <= h < capacity.
- Java object identity: the `instanceof` tests of `validate`, reference equality, garbage collection and the parent-to-self tombstone. Positions are paths, so a removed position is one that no longer addresses a node.
- Null values: elements, keys and values are never null. So `UnsortedTableMap.put` of a null value, and a null value seen as "absent" by `bucketPut`/`bucketRemove`, are not modelled.
- Iterators: the iterators of `DoublyLinkedList` and `CircularlyLinkedList` are not modelled. Those of `SinglyLinkedList` and `UnsortedTableMap` are.
- `first()`/`last()` of the circular list: `CircularlyLinkedList` has neither. Those of the singly and doubly linked lists are `get(0)` and `get(size - 1)`, and they are modelled as `First` and `Last`.
- TreeMap.TreeMin: stated only for a non-empty subtree. On a sentinel the source returns the sentinel's parent, which is null at the root. `firstEntry` and `lastEntry` never reach that case.
- TreeMap.TreeMax: stated only for a non-empty subtree, for the same reason.
- LinkedBinaryTree.AddLeft: requires a live node with an empty left slot. The documentation at src/LinkedBinaryTree.java:193 promises an IllegalArgumentException when p already has a left child. The code does no such check: `setLeft` drops the old subtree and `size++` still runs. That unchecked behaviour is `LinkedBinaryTree.AddChildAsWritten`, and the documented one is `LinkedBinaryTree.AddChildChecked` (see "Findings"). `TreeMap` only calls `addLeft` on a childless sentinel leaf (src/TreeMap.java:41-45), where the two agree.
- LinkedBinaryTree.AddRight: requires a live node with an empty right slot. The same holds for `addRight` and the documentation at src/LinkedBinaryTree.java:208.
- HeapPriorityQueue.Downheap: uses unbounded integers. In Java, `right(j)` = 2j + 2 overflows from j = 2^30 - 1 and `left(j)` = 2j + 1 from j = 2^30 (src/HeapPriorityQueue.java:56-62). A wrapped index is negative, so `hasRight` (and from j = 2^30 also `hasLeft`) answers true. At j = 2^30 - 1, `downheap` then reads `heap.get(left(j))` at index `Integer.MAX_VALUE` and throws IndexOutOfBoundsException. So `downheap` can throw on heaps of 2^30 or more entries, once a sift reaches index 2^30 - 1. Upheap and the parent computation are unaffected.
- LinkedBinaryTree.Set: requires a live position. The code does not validate it.
- LinkedBinaryTree.Parent: requires a live position. The code does not validate it.
- LinkedBinaryTree.Left: requires a live position. The code does not validate it.
- LinkedBinaryTree.Right: requires a live position. The code does not validate it.
- LinkedBinaryTree.Remove: positions below a removed node shift. When a node with one child is removed, that child and its whole subtree move up one level in path space. A path held for the child or for any node below it then addresses a different node, or none. In Java those nodes keep their identity and their positions stay valid, since `remove` only relinks the parent and the child. `TreeMap.remove` never uses a position below a removed node afterwards: it removes the sentinel leaf first, then its parent, and it does not use the promoted sibling again, because the `rebalanceDelete` call is commented out. So the map's results are unaffected; see TreeMap.EraseByEngine.
- LinkedBinaryTree.RemovedLeafIsStale: proved for a removed childless node. When a node with one child is removed, that child takes over its path, so a path cannot say the old node is gone.
- HeapPriorityQueue.Min: throws IndexOutOfBoundsException on an empty heap, as the code does. The documentation says it returns null.
- HeapPriorityQueue.RemoveMin: throws IndexOutOfBoundsException on an empty heap, as the code does. The documentation says it returns null.
- UnsortedTableMap.entrySet: modelled through its iterator (`Start`, `HasNext`, `Next`) rather than as a separate collection.

## Findings

| source | as written | input that shows it | evidently intended | confidence | as-written member | corrected member |
|---|---|---|---|---|---|---|
| src/HeapPriorityQueue.java:42-45 | the constructor reads `values[i]` for every key index | keys [1, 2] and values [true] throw ArrayIndexOutOfBoundsException | entries up to the length of the shorter array, as the comment at lines 32-38 says | not executed | HeapPriorityQueue.PairAsWritten, HeapPriorityQueue.ShorterValuesThrow | HeapPriorityQueue.PairUpToShorter, HeapPriorityQueue.FromArrays |
| src/CircularlyLinkedList.java:57-63 | after unlinking the i-th node, remove(i) returns `prev.next.data`, the data of the node after it | remove(1) on [a, b, c] removes b and returns c | return the removed node's element | not executed | CircularlyLinkedList.Remove, CircularlyLinkedList.RemoveReturnsSuccessor | CircularlyLinkedList.RemoveAt, CircularlyLinkedList.RemoveAtSpec |
| src/CircularlyLinkedList.java:51 | the guard `i > size` lets i == size through | remove(size) on cyclic [a, b, c] is accepted, returns b and drops c from view | reject i >= size | not executed | CircularlyLinkedList.RemoveAtSize | CircularlyLinkedList.RemoveAt, CircularlyLinkedList.RemoveAtSpec |
| src/CircularlyLinkedList.java:93-96 | addFirst on a non-empty list does not re-link the last node to the new head | addFirst(x) on cyclic [a, b], then rotate: the new element x is no longer reachable | the last node links to the new head | not executed | CircularlyLinkedList.AddFirst, CircularlyLinkedList.AddFirstThenRotate | CircularlyLinkedList.AddFirstLinked, CircularlyLinkedList.AddFirstLinkedThenRotate |
| src/LinkedBinaryTree.java:195-215 | addLeft/addRight overwrite an occupied child link and still increment size | addLeft at the root of a two-node tree (root 0 with left child 1, size 2) with element 5 leaves 2 linked nodes but size 3 | throw IllegalArgumentException when p already has that child, as the documentation at lines 193 and 208 says | not executed | LinkedBinaryTree.AddChildAsWritten, LinkedBinaryTree.AddIntoOccupiedSlot | LinkedBinaryTree.AddChildChecked, LinkedBinaryTree.AddChildCheckedAgrees |
| src/ChainHashMap.java:59-66 | bucketPut leaves an existing key's value unchanged | put(1, "One") then put(1, "Uno") in bucket 1: the value stays "One" | replace the value and return the previous one, as the comment at lines 49-57 says | not executed | ChainHashMap.BucketPut, ChainHashMap.BucketPutKeepsOldValue | ChainHashMap.BucketPutReplacing, ChainHashMap.BucketPutAgreesOnNewKey |
