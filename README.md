# HEU data-structures course code, modelled in Dafny

This project models the hand-written container library `MyDS` and the seven exercise programs built on it, and proves what each of them promises.

The centre is the ordered `Set<T>` of MyDS/set.h, a red-black tree with a shared sentinel and parent links, modelled with `int` elements.
- It is modelled as a tree value plus a zipper of frames standing for the parent links (module `RbSet`).
- `insert_fix` and `erase_fix` are loops over that zipper, taking the same branches as the source.
- `RbSet.RbSet` is a class with the `root` and `_size` fields.
- Its methods are proved to keep the red-black invariants and to add or remove exactly one value.

The other containers are classes, each with a ghost sequence or multiset as its abstract contents:
- `ArrayList`, `ArrayStack` and `CircularQueue` over arrays, with the same growth rules as the source;
- `LinkedList` and `CircularList` over linked nodes;
- `Heap`, `Map` and `Graph` over sequences, since the header for their `ArrayList` storage lacks members they use;
- `Pair` and the `LinearList` guards as values and functions.

The exercises are modelled with their console input turned into parameters and their printing dropped:
- the Josephus ring (ex1);
- expression conversion and evaluation (ex2);
- the odd-order magic square and the tutor's graduate removal (ex3);
- Huffman coding over byte sequences (ex4);
- the missionaries-and-cannibals search (ex5);
- three ways to find the two highest scores (ex6);
- greedy exam scheduling (ex7).

Errors the source throws (`out_of_range`, `runtime_error`, `logic_error`) become `Err`/`Fail` values carrying the same message (module `Errors`).

Where the source has a defect, the model keeps a member that does what the code as written does, with a lemma exhibiting the defect. A corrected member carries the intended property; see "## Findings".

## Model

| member | source | states |
|---|---|---|
| LinearList.CheckIndex | MyDS/linearlist.h:27-31 | passes if and only if `index < size`, or `index == size` when `end` is set; otherwise `out_of_range("out of range")` |
| LinearList.CheckEmpty | MyDS/linearlist.h:33-37 | throws `runtime_error` exactly when the size is 0 |
| LinearList.CheckIndexModes | MyDS/linearlist.h:27-31 | `size` itself is rejected for access and accepted for insertion; any larger index is rejected in both modes |
| Pairs.LessIsLexicographic | MyDS/pair.h:43-54 | `<` is the lexicographic order on (first, second); `==` and `!=` are equality and inequality of pairs |
| Pairs.LessIsStrictTotalOrder | MyDS/pair.h:51-66 | `<` is irreflexive, transitive and total on distinct pairs; `>`, `<=`, `>=` are its converse and non-strict forms |
| RbSet.PlugInorder | MyDS/set.h:182-191 | hanging a subtree back at a position gives the values before the position, then the subtree's, then those after it |
| RbSet.PlugInorderLeft | MyDS/set.h:182-191 | the same in-order decomposition one frame deeper, for a left child |
| RbSet.PlugInorderRight | MyDS/set.h:182-191 | the same in-order decomposition one frame deeper, for a right child |
| RbSet.SameInorder | MyDS/set.h:182-191 | replacing a subtree by one with the same in-order sequence keeps the whole tree's in-order sequence |
| RbSet.PlugRootColor | MyDS/set.h:117 | below the root, the colour of the whole tree's root does not depend on the subtree at the position |
| RbSet.PlugRedBlack | MyDS/set.h:81-118 | a subtree with no RED-RED edge and equal black heights, hung where the path has the same properties, gives a whole tree with both properties |
| RbSet.AscendingParts | MyDS/set.h:283-291 | the parts of a strictly ascending concatenation are ascending and every value of an earlier part is below every value of a later part |
| RbSet.AscendingJoin | MyDS/set.h:283-291 | two ascending sequences whose values are ordered across them join into an ascending sequence |
| RbSet.ValidDown | MyDS/set.h:283-291 | stepping down to a child keeps the red and black invariants at the new position |
| RbSet.StraddlesDown | MyDS/set.h:283-291 | stepping down on the side where `v` belongs keeps every value on the path on its correct side of `v` |
| RbSet.Descend | MyDS/set.h:283-293 | the binary-search walk stops at the node holding `v` or at the sentinel where `v` would hang, with the whole tree unchanged around it and `v` between the path's values |
| RbSet.MemberAtFocus | MyDS/set.h:363-375 | when the walk stops, `v` is stored if and only if it stopped at a node rather than at the sentinel |
| RbSet.RotateLeft | MyDS/set.h:45-61 | left rotation keeps the in-order sequence, keeps each node's colour, and makes the right child the new subtree root |
| RbSet.RotateRight | MyDS/set.h:63-79 | right rotation keeps the in-order sequence, keeps each node's colour, and makes the left child the new subtree root |
| RbSet.RotationsKeepInorder | MyDS/set.h:45-79 | rotating at any position keeps the whole tree's in-order sequence; at the root the rotated subtree becomes the new root |
| RbSet.Replace | MyDS/set.h:182-191 | replacing the subtree at a position by one with the same values and root colour keeps the whole in-order sequence and the root's colour |
| RbSet.GrandparentExists | MyDS/set.h:82-84 | a RED parent is not the root, so the grandparent exists and is BLACK |
| RbSet.InsertRecolor | MyDS/set.h:85-89 | uncle RED: after recolouring, the cursor at the grandparent satisfies the loop invariant and the in-order sequence is unchanged |
| RbSet.InsertInner | MyDS/set.h:91-94 | uncle BLACK with an inner cursor: after the rotation at the parent the cursor is an outer child and the invariant and in-order sequence hold |
| RbSet.InsertOuterLeft | MyDS/set.h:95-97 | uncle BLACK with an outer left cursor: recolour and rotate right give a red-black tree with the same in-order sequence |
| RbSet.InsertOuterRight | MyDS/set.h:111-113 | the mirror case: recolour and rotate left give a red-black tree with the same in-order sequence |
| RbSet.InsertFix | MyDS/set.h:81-118 | `insert_fix` ends with a BLACK root, no RED node with a RED child, equal black heights on all paths, and the same in-order sequence |
| RbSet.InsertLeaf | MyDS/set.h:293-308 | hanging a RED leaf where the walk ended and fixing up gives a red-black tree whose in-order sequence has `v` added in its place |
| RbSet.PlugAppend | MyDS/set.h:182-191 | hanging a subtree along a path extended by another path is hanging it twice |
| RbSet.FindMin | MyDS/set.h:175-180 | `find_min` returns the node holding the first in-order value of the subtree, reached by left steps only |
| RbSet.Revalue | MyDS/set.h:342 | copying a value into one node of a path changes neither colours nor black heights |
| RbSet.Splice | MyDS/set.h:327-356 | the splice removes exactly the value of `z` from the in-order sequence and reports the removed colour and where the fix-up starts |
| RbSet.SpliceOneChild | MyDS/set.h:182-191 | with at most one child, `transplant` puts that child in `z`'s place and the in-order sequence loses exactly `z`'s value |
| RbSet.SpliceSuccessor | MyDS/set.h:336-356 | with two children, the successor's right child takes the successor's place and the successor takes `z`'s, removing exactly `z`'s value |
| RbSet.SuccessorShape | MyDS/set.h:336-356 | the values of the tree after the successor splice |
| RbSet.SuccessorRoot | MyDS/set.h:336-356 | the root's colour after the successor splice |
| RbSet.SuccessorColors | MyDS/set.h:336-356 | colours and black heights after the successor splice, with one BLACK node missing on the cursor's side when the successor was BLACK |
| RbSet.BlackenRedOk | MyDS/set.h:172 | making a node BLACK keeps the RED rule, black balance and the in-order sequence |
| RbSet.EraseSiblingRedLeft | MyDS/set.h:124-129 | sibling RED, cursor on the left: after the recolour and left rotation the cursor has a BLACK sibling and the invariant and in-order sequence hold |
| RbSet.EraseSiblingRedRight | MyDS/set.h:148-153 | the mirror case on the right |
| RbSet.EraseRecolor | MyDS/set.h:130-132 | sibling BLACK with two BLACK children: the sibling turns RED and the cursor moves up with the invariant kept |
| RbSet.EraseNearRedLeft | MyDS/set.h:134-139 | near child RED, cursor on the left: after the rotation the sibling is BLACK with a RED far child, same in-order sequence |
| RbSet.EraseNearRedRight | MyDS/set.h:158-163 | the mirror case on the right |
| RbSet.EraseFarRedLeft | MyDS/set.h:140-144 | far child RED, cursor on the left: after recolouring and the left rotation the whole tree is a red-black tree with the same in-order sequence |
| RbSet.EraseFarRedRight | MyDS/set.h:164-168 | the mirror case on the right |
| RbSet.SiblingExists | MyDS/set.h:123 | the sibling of a cursor with a BLACK deficit is never the sentinel |
| RbSet.BlackenBalanced | MyDS/set.h:172 | making the cursor BLACK keeps black balance and the in-order sequence |
| RbSet.EraseFixDone | MyDS/set.h:121-172 | when the loop exits at the root or at a RED cursor, making it BLACK restores every red-black invariant |
| RbSet.EraseFix | MyDS/set.h:120-173 | `erase_fix` ends with a red-black tree that has the same in-order sequence |
| RbSet.EraseFixLeft | MyDS/set.h:122-145 | one round on the left side keeps the loop invariant and the in-order sequence, and the termination measure drops |
| RbSet.EraseFixRight | MyDS/set.h:146-169 | one round on the right side keeps the loop invariant and the in-order sequence, and the termination measure drops |
| RbSet.EraseNode | MyDS/set.h:327-360 | removing the found node leaves a red-black tree whose in-order sequence lacks exactly that value |
| RbSet.AscendingCount | MyDS/set.h:381-383 | a strictly ascending sequence has as many elements as distinct values, so `_size` is the number of stored values |
| RbSet.InsertValues | MyDS/set.h:293-309 | adding a value at the empty position the walk found keeps the sequence ascending and adds exactly that value |
| RbSet.EraseValues | MyDS/set.h:327-360 | dropping one value from an ascending sequence keeps it ascending and removes exactly that value |
| RbSet.RbSet.constructor | MyDS/set.h:224-227 | a new set is empty: the root is the sentinel and the count is 0 |
| RbSet.RbSet.FromList | MyDS/set.h:229-233 | a set built from a list holds exactly the listed values, duplicates collapsed |
| RbSet.RbSet.Copy | MyDS/set.h:235-238 | the copy has the same tree (values, colours, shape) and the same count |
| RbSet.RbSet.Insert | MyDS/set.h:278-310 | afterwards the set is a valid red-black tree holding the old values plus `v`; a present value changes neither the tree nor the count; a new one raises the count by one |
| RbSet.RbSet.Erase | MyDS/set.h:312-361 | afterwards the set is a valid red-black tree holding the old values minus `v`; an absent value changes nothing, including on an empty set; a present one lowers the count by one |
| RbSet.RbSet.Contains | MyDS/set.h:363-375 | returns true if and only if `v` is stored |
| RbSet.RbSet.Size | MyDS/set.h:381-383 | returns the number of stored values |
| RbSet.RbSet.Empty | MyDS/set.h:377-379 | returns true if and only if no value is stored |
| RbSet.RbSet.Clear | MyDS/set.h:385-389 | afterwards the root is the sentinel, the count is 0 and no value is stored |
| RbSet.RbSet.Enumerate | MyDS/set.h:212-221 | the in-order walk lists every stored value exactly once, strictly ascending, `size` of them |
| RbSet.CopyTree | MyDS/set.h:201-210 | the copy has every node's value and colour and the same shape as the original |
| ArrayLists.Grown | MyDS/arraylist.h:82 | the grown capacity exceeds the old one: 1 from 0, otherwise exactly double |
| ArrayLists.ArrayList.constructor | MyDS/arraylist.h:15-18 | a new list of the requested capacity is empty |
| ArrayLists.ArrayList.Default | MyDS/arraylist.h:13 | the default list is empty with capacity 16 |
| ArrayLists.ArrayList.Copy | MyDS/arraylist.h:20-27 | the copy owns a new buffer of the same capacity holding the same elements |
| ArrayLists.ArrayList.Move | MyDS/arraylist.h:29-36 | the new list takes over the other's buffer, elements and capacity; the other is left empty with capacity 0 |
| ArrayLists.ArrayList.Empty | MyDS/arraylist.h:57-59 | true if and only if the list holds no element |
| ArrayLists.ArrayList.Clear | MyDS/arraylist.h:65-67 | the list becomes empty while the buffer and capacity stay |
| ArrayLists.ArrayList.At | MyDS/arraylist.h:69-77 | the element at `index`, or `out_of_range` when `index >= size` |
| ArrayLists.ArrayList.Reserve | MyDS/arraylist.h:138-148 | the elements are kept; a larger request moves them to a new buffer of that capacity, a smaller or equal one changes nothing |
| ArrayLists.ArrayList.Insert | MyDS/arraylist.h:79-90 | positions `0..size` are accepted and `value` lands at `index` with the rest shifted right, growing a full buffer first; any other position throws `out_of_range` and changes nothing |
| ArrayLists.ArrayList.Replace | MyDS/arraylist.h:92-95 | only the element at a valid `index` changes; an invalid one throws and changes nothing |
| ArrayLists.ArrayList.Erase | MyDS/arraylist.h:97-103 | the element at a valid `index` is removed with the rest shifted left; an invalid one throws and changes nothing |
| ArrayLists.ArrayList.PushBack | MyDS/arraylist.h:105-107 | `value` is appended, growing a full buffer first |
| ArrayLists.ArrayList.PopBack | MyDS/arraylist.h:109-112 | the last element is removed; an empty list throws `runtime_error` and changes nothing |
| ArrayLists.ArrayList.Front | MyDS/arraylist.h:114-122 | the first element, or `runtime_error` on an empty list |
| ArrayLists.ArrayList.Back | MyDS/arraylist.h:124-132 | the last element, or `runtime_error` on an empty list |
| ArrayLists.ShiftRight | MyDS/arraylist.h:85-87 | slots `lo+1..hi` receive their left neighbours and every other slot is unchanged |
| ArrayLists.ShiftLeft | MyDS/arraylist.h:99-101 | slots `lo..hi-1` receive their right neighbours and every other slot is unchanged |
| ArrayLists.OpenSlot | MyDS/arraylist.h:85-88 | the first `n+1` slots hold the old `n` elements with `value` inserted at `index` |
| ArrayLists.CloseSlot | MyDS/arraylist.h:99-101 | the first `n-1` slots hold the old `n` elements without the one at `index` |
| ArrayLists.BasicOperationsScenario | MyDS/test.cpp:15-42 | a default list is empty; after pushing 10, 20, 30 it holds them, `front` is 10, `back` is 30 and `at` reads 10, 20, 30; after `pop_back` it holds 10, 20 and `back` is 20 |
| ArrayLists.InsertEraseScenario | MyDS/test.cpp:44-62 | on [1, 2, 3], `insert(1, 10)` gives [1, 10, 2, 3] with `at(1)` 10, and `erase(1)` gives [1, 2, 3] back with `at(1)` 2 |
| ArrayLists.CopyMoveScenario | MyDS/test.cpp:64-84 | the copy of [1, 2] holds [1, 2]; moving leaves the source empty and the new list holding [1, 2] |
| ArrayLists.ExceptionScenario | MyDS/test.cpp:86-105 | `front` on an empty list throws `runtime_error`; `at(5)` on a one-element list throws `out_of_range` |
| ArrayLists.ReplaceScenario | MyDS/test.cpp:107-118 | `replace(1, 20)` on [1, 2, 3] makes `at(1)` 20 |
| ArrayStacks.ArrayStack.constructor | MyDS/arraystack.h:13-16 | a new stack of the requested capacity is empty |
| ArrayStacks.ArrayStack.Default | MyDS/arraystack.h:11 | the default stack is empty with capacity 16 |
| ArrayStacks.ArrayStack.Copy | MyDS/arraystack.h:18-25 | the copy owns a new buffer of the same capacity holding the same elements |
| ArrayStacks.ArrayStack.Move | MyDS/arraystack.h:27-34 | the new stack takes over the buffer, elements and capacity; the other is left empty with capacity 0 |
| ArrayStacks.ArrayStack.Empty | MyDS/arraystack.h:55-57 | true if and only if the stack holds no element |
| ArrayStacks.ArrayStack.Clear | MyDS/arraystack.h:63-65 | the stack becomes empty while the buffer and capacity stay |
| ArrayStacks.ArrayStack.Reserve | MyDS/arraystack.h:90-100 | the elements are kept; only a larger request moves them to a new buffer of that capacity |
| ArrayStacks.ArrayStack.Push | MyDS/arraystack.h:67-73 | `value` goes on top, a full buffer growing first as in `ArrayList` |
| ArrayStacks.ArrayStack.Pop | MyDS/arraystack.h:75-78 | the top is removed; an empty stack throws `runtime_error("empty stack!")` and changes nothing |
| ArrayStacks.ArrayStack.Top | MyDS/arraystack.h:80-88 | the most recently pushed element still present, or `runtime_error("empty stack!")` |
| ArrayStacks.PushPopScenario | MyDS/arraystack.h:67-88 | on any stack, `push(v)` then `top()` gives v, and `pop()` then succeeds and leaves the stack as it was |
| ArrayStacks.ArrayStack.CheckEmpty | MyDS/arraystack.h:121-125 | fails with `runtime_error("empty stack!")` exactly when the stack is empty |
| CircularQueues.SlotIs | MyDS/circularqueue.h:81 | the slot `k` places after `front` wraps past the end of the buffer at most once |
| CircularQueues.RingLength | MyDS/circularqueue.h:67-69 | the queue's length is `(back - front + capacity) % capacity`, below the capacity |
| CircularQueues.RingAt | MyDS/circularqueue.h:89-97 | the `k`-th queued element sits in slot `(front + k) % capacity` |
| CircularQueues.RingLengthIs | MyDS/circularqueue.h:67-69 | the queue has `m` elements if and only if `back` is `m` slots after `front` |
| CircularQueues.FullIs | MyDS/circularqueue.h:63-65 | `(back + 1) % capacity == front` if and only if the queue holds `capacity - 1` elements |
| CircularQueues.Step | MyDS/circularqueue.h:101 | stepping a slot forward and back with the wrap-around formulas of the source lands on the next and previous slots |
| CircularQueues.RingPush | MyDS/circularqueue.h:80-81 | writing slot `back` and advancing it appends the value to the queue |
| CircularQueues.RingPop | MyDS/circularqueue.h:86 | advancing `front` drops the oldest element |
| CircularQueues.SlotDistinct | MyDS/circularqueue.h:113-115 | distinct positions of the queue occupy distinct slots |
| CircularQueues.CircularQueue.constructor | MyDS/circularqueue.h:13-17 | a new queue is empty with `capacity + 1` slots |
| CircularQueues.CircularQueue.Default | MyDS/circularqueue.h:11 | the default queue is empty with 17 slots |
| CircularQueues.CircularQueue.Copy | MyDS/circularqueue.h:19-27 | the copy has the same slots count, the same `front`/`back` and the same queued elements |
| CircularQueues.CircularQueue.Empty | MyDS/circularqueue.h:59-61 | true if and only if nothing is queued |
| CircularQueues.CircularQueue.Full | MyDS/circularqueue.h:63-65 | true if and only if `capacity - 1` elements are queued |
| CircularQueues.CircularQueue.Size | MyDS/circularqueue.h:67-69 | the number of queued elements, always below the capacity |
| CircularQueues.CircularQueue.Clear | MyDS/circularqueue.h:71-73 | the queue becomes empty with the same buffer |
| CircularQueues.CircularQueue.Reserve | MyDS/circularqueue.h:109-122 | the queued elements are kept; a request for more usable slots moves them to the start of a new buffer of `new_capacity + 1` slots |
| CircularQueues.CircularQueue.Enqueue | MyDS/circularqueue.h:75-82 | `value` joins the back; a full queue first doubles its slots |
| CircularQueues.CircularQueue.Dequeue | MyDS/circularqueue.h:84-87 | the oldest element leaves; an empty queue throws `runtime_error("empty queue!")` and changes nothing |
| CircularQueues.CircularQueue.Front | MyDS/circularqueue.h:89-97 | the oldest element, or `runtime_error("empty queue!")` |
| CircularQueues.CircularQueue.Back | MyDS/circularqueue.h:99-107 | the newest element, or `runtime_error("empty queue!")` |
| CircularQueues.CircularQueue.CheckEmpty | MyDS/circularqueue.h:146-150 | fails with `runtime_error("empty queue!")` exactly when nothing is queued |
| LinkedLists.LinkedList.constructor | MyDS/linkedlist.h:48 | a new list is well formed and empty |
| LinkedLists.LinkedList.Copy | MyDS/linkedlist.h:50-59 | the copy is a well-formed list of fresh cells holding the other list's values in the same order |
| LinkedLists.LinkedList.Move | MyDS/linkedlist.h:61-68 | the new list takes over the other's cells and values; the other is left well formed and empty |
| LinkedLists.LinkedList.Empty | MyDS/linkedlist.h:89-91 | true if and only if the list holds no value |
| LinkedLists.LinkedList.Size | MyDS/linkedlist.h:93-95 | the size field equals the number of values reachable from the head |
| LinkedLists.LinkedList.Clear | MyDS/linkedlist.h:97-105 | after the walk that deletes every cell, the list is well formed and empty |
| LinkedLists.LinkedList.Locate | MyDS/linkedlist.h:25-39 | walking from the nearer end reaches the cell at `index`, which holds the index-th value |
| LinkedLists.LinkedList.At | MyDS/linkedlist.h:107-115 | the index-th value when the index is below the size, otherwise `out_of_range` |
| LinkedLists.LinkedList.InsertAsWritten | MyDS/linkedlist.h:117-141 | the insert as written: the index check as in the base class; in the middle the value lands at `index`; at index 0 or `size_` the head or tail is left on the old cell while the size grows, so the list stops being well formed |
| LinkedLists.LinkedList.Insert | MyDS/linkedlist.h:117-141 | the corrected insert: after a passed index check the value lands at `index` and the list stays well formed; a failed check changes nothing |
| LinkedLists.LinkedList.InsertMiddle | MyDS/linkedlist.h:134-139 | linking a new cell before the cell at an inner index puts the value at that index |
| LinkedLists.InsertFrontScenario | MyDS/linkedlist.h:117-141 | the as-written `insert(0, 7)` on an empty list leaves `head_` null with `size_` 1; the corrected insert makes 7 the front |
| LinkedLists.LinkedList.Front | MyDS/linkedlist.h:143-151 | the first value, or `runtime_error` on an empty list |
| LinkedLists.LinkedList.Back | MyDS/linkedlist.h:153-161 | the last value, or `runtime_error` on an empty list |
| LinkedLists.LinkedList.Replace | MyDS/linkedlist.h:163-166 | after a passed index check only the value at `index` changes and no cell is relinked; a failed check changes nothing |
| LinkedLists.LinkedList.PushBack | MyDS/linkedlist.h:168-177 | the value is appended; on an empty list the new cell is both head and tail |
| LinkedLists.LinkedList.PopBack | MyDS/linkedlist.h:179-182 | the last value is removed, or `runtime_error` on an empty list with nothing changed |
| LinkedLists.LinkedList.Erase | MyDS/linkedlist.h:184-206 | after a passed index check the value at `index` is removed and the list stays well formed; removing the only cell leaves head and tail null |
| LinkedLists.LinkedList.EraseHead | MyDS/linkedlist.h:187-194 | removing the head drops the first value; the only cell leaves head and tail null |
| LinkedLists.LinkedList.EraseTail | MyDS/linkedlist.h:195-198 | removing the tail drops the last value |
| LinkedLists.LinkedList.EraseMiddle | MyDS/linkedlist.h:199-203 | unlinking an inner cell drops exactly the value at `index` |
| CircularLists.CircularList.constructor | MyDS/circularlist.h:37 | a new ring is well formed and empty |
| CircularLists.CircularList.CopyAsWritten | MyDS/circularlist.h:39-49 | the copy constructor as written: with two or more values the copy lacks the last one; with at most one it is exact |
| CircularLists.CircularList.OnlyLastLinksHead | MyDS/circularlist.h:44 | in a well-formed ring only the last cell links forward to the head, which is what ends the copy loop one cell early |
| CircularLists.CircularList.Copy | MyDS/circularlist.h:39-49 | the corrected copy holds the other ring's values in the same order, in fresh cells |
| CircularLists.CopyScenario | MyDS/circularlist.h:39-49 | the as-written copy of [1, 2] has size 1, holding 1 and failing `at(1)` with `out_of_range`; the corrected copy has size 2 and holds 1, 2 |
| CircularLists.CircularList.Move | MyDS/circularlist.h:51-56 | the new ring takes over the other's cells and values; the other is left well formed and empty |
| CircularLists.CircularList.Empty | MyDS/circularlist.h:77-79 | true if and only if the ring holds no value |
| CircularLists.CircularList.Size | MyDS/circularlist.h:81-83 | the size field equals the number of cells in the ring |
| CircularLists.CircularList.Clear | MyDS/circularlist.h:85-97 | after deleting every cell the ring is empty with a null head |
| CircularLists.CircularList.Locate | MyDS/circularlist.h:23-29 | walking `index` steps from the head reaches the index-th cell (the head again when `index` is the size) |
| CircularLists.CircularList.At | MyDS/circularlist.h:99-107 | the index-th value when the index is below the size, otherwise `out_of_range` |
| CircularLists.CircularList.Insert | MyDS/circularlist.h:109-127 | after a passed index check the value lands at `index`; into an empty ring it is a cell linked to itself; a failed check changes nothing |
| CircularLists.CircularList.InsertBefore | MyDS/circularlist.h:117-125 | in a non-empty ring the new cell goes before the located cell and the value lands at `index` |
| CircularLists.CircularList.LinkFront | MyDS/circularlist.h:117-124 | linking before the head at index 0 makes the new value the first one |
| CircularLists.CircularList.LinkBack | MyDS/circularlist.h:117-121 | linking before the head at index `size_` makes the new value the last one |
| CircularLists.CircularList.LinkBefore | MyDS/circularlist.h:117-121 | linking before an inner cell puts the value at that index |
| CircularLists.CircularList.Erase | MyDS/circularlist.h:129-144 | after a passed index check the value at `index` is removed; the only cell leaves a null head; removing the head moves it to the next cell |
| CircularLists.CircularList.UnlinkHead | MyDS/circularlist.h:134-142 | unlinking the head drops the first value and the next cell becomes the head |
| CircularLists.CircularList.Unlink | MyDS/circularlist.h:134-142 | unlinking an inner cell drops exactly the value at `index` and keeps the head |
| CircularLists.CircularList.PushBack | MyDS/circularlist.h:146-155 | the value is appended behind the last cell |
| CircularLists.CircularList.PopBack | MyDS/circularlist.h:157-160 | the last value is removed, or `runtime_error` on an empty ring with nothing changed |
| CircularLists.CircularList.Front | MyDS/circularlist.h:162-170 | the first value, or `runtime_error` on an empty ring |
| CircularLists.CircularList.Back | MyDS/circularlist.h:172-180 | the last value, or `runtime_error` on an empty ring |
| CircularLists.CircularList.Replace | MyDS/circularlist.h:182-185 | after a passed index check only the value at `index` changes; a failed check changes nothing |
| Heaps.Parent | MyDS/heap.h:106-108 | for a slot above 0, the parent slot is smaller and has that slot as its left or right child |
| Heaps.LeftChild | MyDS/heap.h:110-112 | the left child is a later slot whose parent is the given one |
| Heaps.RightChild | MyDS/heap.h:114-116 | the right child is the slot after the left child and has the same parent |
| Heaps.Swap | MyDS/heap.h:122 | exchanging two slots keeps the length and the multiset and changes no other slot |
| Heaps.TopPrecedesAt | MyDS/heap.h:83-88 | in a heap, no element at any slot precedes the top under the comparator |
| Heaps.TopPrecedesAll | MyDS/heap.h:83-88 | in a heap, no element of the heap's multiset precedes the top |
| Heaps.UpStep | MyDS/heap.h:121-123 | one swap of `up` with the parent leaves the heap order broken only at the parent's slot |
| Heaps.DownStep | MyDS/heap.h:140-142 | one swap of `down` with the child that comes first leaves the heap order broken only at that child's slot |
| Heaps.Heap.constructor | MyDS/heap.h:16-18 | a new heap is empty, valid and keeps the given comparator |
| Heaps.Heap.FromList | MyDS/heap.h:20-30 | building from a list gives a valid heap with exactly the list's elements |
| Heaps.Heap.Copy | MyDS/heap.h:32 | the copy has the same slots and comparator |
| Heaps.Heap.Empty | MyDS/heap.h:55-57 | true if and only if the heap holds no element |
| Heaps.Heap.Size | MyDS/heap.h:59-61 | the number of elements held |
| Heaps.Heap.Clear | MyDS/heap.h:63-65 | the heap becomes empty and stays valid |
| Heaps.Heap.Push | MyDS/heap.h:67-70 | the value joins the heap's elements and the heap stays valid |
| Heaps.Heap.Pop | MyDS/heap.h:72-81 | on an empty heap `out_of_range` with nothing changed; otherwise exactly the old top leaves and the heap stays valid |
| Heaps.Heap.Top | MyDS/heap.h:83-88 | `out_of_range` on an empty heap; otherwise the first slot, which no element precedes |
| Heaps.Heap.DropTop | MyDS/heap.h:76-77 | moving the last slot onto the top removes exactly the old top and leaves the order broken only at slot 0 |
| Heaps.Heap.Up | MyDS/heap.h:118-128 | after pushing at the end, rising restores the heap order without changing the elements |
| Heaps.Heap.Down | MyDS/heap.h:130-144 | sinking from a slot restores the heap order below it without changing the elements |
| Heaps.Heap.BuildHeap | MyDS/heap.h:146-153 | sinking from the last slot with a child back to the root turns any arrangement into a valid heap of the same elements |
| Heaps.MakeMaxHeapAsWritten | MyDS/heap.h:156-159 | `make_max_heap` as written passes `std::less`, so it builds the min-heap: a heap of the list's elements whose top is the smallest, not the largest |
| Heaps.MakeMaxHeap | MyDS/heap.h:156-159 | corrected with `std::greater`: a heap of the list's elements whose top is the largest |
| Heaps.MakeMinHeap | MyDS/heap.h:161-164 | what `make_min_heap` intends, with `std::less`: a heap of the list's elements whose top is the smallest |
| Maps.Keys | MyDS/map.h:126-140 | iteration visits the keys in storage order, which is insertion order since `insert` appends new keys at the end (Maps.PutSpec) |
| Maps.Find | MyDS/map.h:50-55 | the linear scan stops at the first pair with the key, or at the end when no pair has it |
| Maps.Lookup | MyDS/map.h:89-105 | a value is found if and only if the key is stored, and then the pair (key, value) is in the map; otherwise `out_of_range("Key not found")` |
| Maps.FindUnique | MyDS/map.h:50-55 | with unique keys the scan for a stored pair's key finds that pair |
| Maps.PutSpec | MyDS/map.h:49-57 | `insert` keeps keys unique, makes the key look up to the new value, overwrites in place when the key is present and appends it at the end otherwise |
| Maps.PutOthers | MyDS/map.h:49-57 | `insert` leaves the lookup of every other key unchanged |
| Maps.RemoveSpec | MyDS/map.h:63-70 | `erase` keeps keys unique, makes the key absent, removes one pair when the key is present and changes nothing otherwise |
| Maps.FindAt | MyDS/map.h:64-65 | the scan stops at the first position holding the key |
| Maps.RemoveOthers | MyDS/map.h:63-70 | `erase` leaves the lookup of every other key unchanged and removes at most one pair, the one holding the key |
| Maps.IndexThenAssign | MyDS/map.h:107-115 | `map[key] = value` (append a default pair if missing, then overwrite its value) has the same effect as `insert(key, value)` |
| Maps.Map.constructor | MyDS/map.h:14 | a new map is empty |
| Maps.Map.Copy | MyDS/map.h:16 | the copy holds the same pairs in the same order |
| Maps.Map.Move | MyDS/map.h:18 | the new map takes the other's pairs and the other is left empty |
| Maps.Map.Empty | MyDS/map.h:37-39 | true if and only if no key is stored |
| Maps.Map.Size | MyDS/map.h:41-43 | the number of distinct keys stored |
| Maps.Map.Clear | MyDS/map.h:45-47 | the map becomes empty |
| Maps.Map.Insert | MyDS/map.h:49-57 | the scan loop's result is the `insert` of the specification (see Maps.PutSpec and Maps.PutOthers) and keys stay unique |
| Maps.Map.InsertPair | MyDS/map.h:59-61 | inserting a pair is inserting its key and value |
| Maps.Map.Erase | MyDS/map.h:63-70 | the scan loop's result is the `erase` of the specification (see Maps.RemoveSpec and Maps.RemoveOthers) |
| Maps.Map.Contains | MyDS/map.h:72-87 | true if and only if some stored pair has the key |
| Maps.Map.At | MyDS/map.h:89-105 | the stored value of the key, or `out_of_range("Key not found")` exactly when the key is absent |
| Maps.InsertionOrderScenario | MyDS/map.h:49-96 | inserting 3, 1, then 3 again stores [(3, 31), (1, 10)]; erasing 3 leaves [(1, 10)], and `at(3)` then throws `out_of_range("Key not found")` |
| Maps.Map.Index | MyDS/map.h:107-115 | a present key yields its value and changes nothing; a missing key is appended with the default value, which is returned |
| GraphDefs.CountToDelete | MyDS/graph.h:72-73 | erasing one edge from a list lowers the count of its end point by one and no other count |
| GraphDefs.CountToPositive | MyDS/graph.h:183-187 | a list counts an end point exactly when one of its edges ends there |
| GraphDefs.UndirectedInEqualsOut | MyDS/graph.h:190-195 | in a symmetric (undirected) graph the edges ending at a vertex are as many as the edges leaving it |
| GraphDefs.ReachableStep | MyDS/graph.h:106-110 | a vertex reachable from the start extends by any stored edge leaving it |
| GraphDefs.ClosedHoldsReachable | MyDS/graph.h:101-139 | a vertex set that holds the start and is closed under stored edges holds every reachable vertex |
| GraphDefs.WeightedPathReachable | MyDS/graph.h:141-168 | a chain of stored edges from the source witnesses reachability |
| GraphDefs.WeightNonNegative | MyDS/graph.h:141-168 | with no negative weight, no chain of edges weighs less than 0 |
| GraphDefs.InFromMark | MyDS/graph.h:232-240 | listing a vertex takes its out-edges off every remaining in-count |
| GraphDefs.InFromZero | MyDS/graph.h:225-230 | an in-count is zero exactly when no vertex still unlisted has an edge into the vertex |
| GraphDefs.CoreHasNoOrder | MyDS/graph.h:242-244 | a non-empty set of vertices each with an in-edge from the set (a cycle's core) admits no topological order, so reporting a cycle is right |
| GraphDefs.AllListed | MyDS/graph.h:242 | a duplicate-free list of `count` vertices below `count` lists every vertex |
| Graphs.FirstTo | MyDS/graph.h:70-75 | the scan of `remove_edge` stops at the first edge ending at the target, or at the end |
| Graphs.AddedCounts | MyDS/graph.h:58-65 | `add_edge` adds one edge from -> to and, undirected and not a loop, one edge to -> from, and changes no other edge count |
| Graphs.AddedKeeps | MyDS/graph.h:58-65 | `add_edge` keeps every list well formed and an undirected graph symmetric |
| Graphs.DropCounts | MyDS/graph.h:70-75 | dropping the first edge ending at `to` lowers that count by one when there is such an edge and changes no other count |
| Graphs.RemovedCounts | MyDS/graph.h:67-84 | `remove_edge` takes out only the first matching edge in each stored direction |
| Graphs.RemovedKeeps | MyDS/graph.h:67-84 | `remove_edge` keeps every list well formed and an undirected graph symmetric |
| Graphs.AddVertexKeeps | MyDS/graph.h:53-56 | a new vertex with no edges keeps the graph well formed and symmetric |
| Graphs.UnvisitedMark | MyDS/graph.h:103 | marking an unmarked vertex takes exactly it out of the unvisited ones |
| Graphs.ExploredTrans | MyDS/graph.h:106-110 | two successive recursive visits compose into one visit |
| Graphs.ExploredStep | MyDS/graph.h:106-110 | visiting one more neighbour extends the visit and leaves that neighbour marked |
| Graphs.ExploredCons | MyDS/graph.h:101-111 | marking and listing the vertex, then exploring its neighbours, explores from the vertex |
| Graphs.Discover | MyDS/graph.h:131-135 | marking and listing an unmarked neighbour keeps the breadth-first state |
| Graphs.ScannedNext | MyDS/graph.h:127-137 | once every edge of the next queued vertex ends at a marked vertex, that vertex is settled |
| Graphs.ScanDiscover | MyDS/graph.h:131-135 | an unmarked neighbour gets marked, listed and queued |
| Graphs.ScanSkip | MyDS/graph.h:131 | a marked neighbour is passed over |
| Graphs.ScannedAll | MyDS/graph.h:127-138 | when every listed vertex is settled, the list holds exactly the vertices reachable from the start |
| Graphs.CoversStep | MyDS/graph.h:159-164 | relaxing the next edge of the new vertex keeps every covered edge covered |
| Graphs.CoversAll | MyDS/graph.h:159-164 | once every edge of the new vertex is covered, every edge out of a visited vertex ends at a finite distance |
| Graphs.TentativeInit | MyDS/graph.h:143-146 | before the first round only the source has a distance, 0, nothing is visited and no predecessor is set |
| Graphs.TentativeVisit | MyDS/graph.h:159 | marking the nearest vertex visited keeps the round invariant |
| Graphs.RelaxStep | MyDS/graph.h:159-164 | relaxing one edge out of a vertex of finite distance keeps the round invariant and lowers no distance that was finite |
| Graphs.TentativeFinal | MyDS/graph.h:147-167 | when the rounds end, the distances and predecessors form a tree of real paths from the source |
| Graphs.KahnDequeue | MyDS/graph.h:232-234 | taking the front of the queue lists a vertex all of whose predecessors are already listed |
| Graphs.KahnPending | MyDS/graph.h:235-237 | the target of an edge still to be taken off has a positive count and is neither listed nor queued |
| Graphs.KahnDecrement | MyDS/graph.h:236-239 | decrementing a count and queueing the vertex when it reaches zero keeps the counts and the queue right |
| Graphs.KahnCycle | MyDS/graph.h:242-244 | when the queue runs dry with fewer vertices listed than there are, the unlisted ones form a core with no order |
| Graphs.KahnStuck | MyDS/graph.h:242-244 | with the queue empty, every unlisted vertex has an edge from another unlisted vertex |
| Graphs.KahnSorted | MyDS/graph.h:242-245 | when every vertex got listed, the list is a topological order |
| Graphs.FlattenMembers | MyDS/graph.h:86-94 | the flattened lists hold exactly the stored edges |
| Graphs.Graph.constructor | MyDS/graph.h:51 | a new graph has no vertices and the given direction flag |
| Graphs.Graph.CheckVertex | MyDS/graph.h:253-257 | fails with `out_of_range("vertex out of range")` exactly for a vertex at or above the count |
| Graphs.Graph.AddVertex | MyDS/graph.h:53-56 | returns the old count, the index of the new vertex, which has no edges |
| Graphs.Graph.AddEdge | MyDS/graph.h:58-65 | fails exactly when an end point is out of range, changing nothing; otherwise adds the edge (both directions when undirected) |
| Graphs.Graph.RemoveEdge | MyDS/graph.h:67-84 | fails exactly when an end point is out of range, changing nothing; otherwise removes the first matching edge in each stored direction |
| Graphs.Graph.Edges | MyDS/graph.h:86-94 | every stored edge, list by list, and nothing else |
| Graphs.Graph.Adjacent | MyDS/graph.h:96-99 | the vertex's edge list, each edge leaving it and ending at a vertex, or `out_of_range` |
| Graphs.Graph.OutDegree | MyDS/graph.h:200-203 | the number of edges leaving the vertex, or `out_of_range` |
| Graphs.Graph.InDegree | MyDS/graph.h:178-198 | directed: the number of edges of all lists ending at the vertex; undirected: the length of its list minus its self-loops; `out_of_range` for a bad vertex |
| Graphs.Graph.Degree | MyDS/graph.h:205-211 | directed: in-degree plus out-degree; undirected: the length of the vertex's list |
| Graphs.Graph.DfsVisit | MyDS/graph.h:101-111 | the recursive visit lists the vertex after what was listed and explores everything newly reachable from it |
| Graphs.Graph.DfsNeighbours | MyDS/graph.h:106-110 | after the loop every neighbour of the vertex is marked and the list only grows |
| Graphs.Graph.DfsChild | MyDS/graph.h:107-109 | one round visits the j-th neighbour if it is unmarked and only adds marks |
| Graphs.Graph.Dfs | MyDS/graph.h:113-117 | starts with the vertex, lists no vertex twice and lists exactly the vertices reachable from it |
| Graphs.Graph.Bfs | MyDS/graph.h:119-139 | `out_of_range` exactly for a bad vertex; otherwise starts with the vertex, lists no vertex twice and lists exactly the vertices reachable from it |
| Graphs.Graph.BfsQueue | MyDS/graph.h:127-137 | when the queue empties, every listed vertex is settled |
| Graphs.Graph.ScanNeighbours | MyDS/graph.h:130-136 | scanning one vertex settles it, and the queue is the listed vertices not yet scanned |
| Graphs.Graph.Dijkstra | MyDS/graph.h:141-168 | `out_of_range` for a bad vertex; otherwise a distance is finite exactly for the reachable vertices, each finite distance is the weight of a real path, each predecessor starts a stored edge into its vertex, and with non-negative weights the source has distance 0 and no predecessor |
| Graphs.Graph.Rounds | MyDS/graph.h:143-166 | the rounds end with distances and predecessors forming a tree of real paths |
| Graphs.Graph.Nearest | MyDS/graph.h:148-155 | the first unvisited vertex of smallest finite distance, or the count when no unvisited vertex has one |
| Graphs.Graph.RelaxEdges | MyDS/graph.h:159-164 | relaxing every edge of the new vertex keeps the round invariant and leaves every edge out of a visited vertex at a finite distance |
| Graphs.Graph.TopologicalSort | MyDS/graph.h:213-246 | undirected: `logic_error`; directed: either a topological order of all vertices or `logic_error("graph has a cycle")` when the graph indeed has a cycle |
| Graphs.Graph.InitialQueue | MyDS/graph.h:225-230 | queues the vertices of count zero in increasing order |
| Graphs.Graph.TakeOffEdges | MyDS/graph.h:235-240 | taking off every edge of the listed vertex keeps the counts and the queue right |
| Graphs.Graph.CountInDegrees | MyDS/graph.h:219-224 | each vertex's count is the number of edges ending at it |
| Expressions.Priority | ex2/expression.cpp:10-19 | 1 exactly for `+` and `-`, 2 exactly for `*`, `/` and `%`, 0 for anything else |
| Expressions.OperatorsHavePriority | ex2/expression.cpp:10-23 | exactly the characters `is_op` accepts have a positive priority, and one operator binds tighter than another exactly when it is multiplicative and the other additive |
| Expressions.TruncDivision | ex2/expression.cpp:34-39 | C++ `/` and `%` truncate toward zero: quotient times divisor plus remainder is the dividend, the remainder is smaller than the divisor in magnitude and has the dividend's sign |
| Expressions.TruncModValue | ex2/expression.cpp:39 | the truncated remainder is the remainder of the magnitudes with the dividend's sign |
| Expressions.Calc | ex2/expression.cpp:25-42 | fails exactly for an unknown operator (`unknown operator`) or for `/` and `%` by zero (`divided by 0!!!!!!`) |
| Expressions.CalcDivMod | ex2/expression.cpp:30-39 | for a non-zero divisor, `calc`'s `/` and `%` fit together as C++ division does |
| Basics.Reverse | ex2/expression.cpp:88 | `std::reverse`: the k-th character is the k-th from the end |
| Basics.ReverseReverse | ex2/expression.cpp:88-97 | reversing twice gives the text back |
| Expressions.DigitRun | ex2/expression.cpp:52-54 | the inner loop copies the leading run of digits, stopping at a non-digit or the end |
| Expressions.ToSuffix | ex2/expression.cpp:44-85 | the loop computes the postfix conversion `Suffix` of the input |
| Expressions.CopyNumber | ex2/expression.cpp:51-56 | a number is copied whole, followed by one blank, and the scan resumes after it |
| Expressions.PopToParen | ex2/expression.cpp:59-67 | on `)` the operators above the nearest `(` are printed and the `(` is dropped |
| Expressions.PopNotLower | ex2/expression.cpp:68-75 | before an operator is stacked, every stacked operator above `(` that binds at least as tightly is printed |
| Expressions.FlushStack | ex2/expression.cpp:78-82 | the remaining operators are printed from the top of the stack down |
| Expressions.ScanKeeps | ex2/expression.cpp:47-77 | the scan keeps the digits of its input in order and never prints `)` |
| Expressions.SuffixKeepsNumbers | ex2/expression.cpp:44-85 | `to_suffix` copies the digits of its input in order and never prints `)` |
| Expressions.Mirror | ex2/expression.cpp:88-95 | the text reversed with `(` and `)` swapped |
| Expressions.ToPrefix | ex2/expression.cpp:87-99 | the prefix text is the reversed postfix conversion of the mirrored input |
| Expressions.WordEnd | ex2/expression.cpp:105 | `>>` reads the leading run of non-blank characters as one token |
| Expressions.WordsAppend | ex2/expression.cpp:105 | text ending in a blank, or followed by a blank, splits into tokens on its own |
| Expressions.EvalSuffix | ex2/expression.cpp:101-120 | the token loop computes the postfix run `RunSuffix` over the tokens |
| Expressions.EvalPrefixAsWritten | ex2/expression.cpp:122-146 | as written the tokens are read left to right, which is the run `RunPrefix` over them in that order |
| Expressions.PrefixAsWrittenRejects | ex2/expression.cpp:122-146 | as written `eval_prefix` fails with `Invalid expression` on the prefix text of every expression with an operator |
| Expressions.EvalPrefix | ex2/expression.cpp:122-146 | corrected: the tokens are read right to left, as the pop order calls for |
| Expressions.PrefixValue | ex2/expression.cpp:122-146 | read right to left, the prefix text of a well-formed expression evaluates to its value |
| Expressions.Eval | ex2/expression.cpp:148-150 | `eval` is `eval_suffix` of `to_suffix` |
| Expressions.ValueError | ex2/expression.cpp:25-42 | the only error a well-formed expression raises is division by zero |
| Expressions.ScanShow | ex2/expression.cpp:47-77 | the scan turns the fully parenthesized text of an expression into its postfix text |
| Expressions.SuffixOfShow | ex2/expression.cpp:44-85 | `to_suffix` of a fully parenthesized expression is its postfix text |
| Expressions.WordsPost | ex2/expression.cpp:105 | postfix text reads back as the postfix tokens |
| Expressions.WordsPre | ex2/expression.cpp:126 | prefix text reads back as the prefix tokens |
| Expressions.RunPost | ex2/expression.cpp:105-118 | running the postfix tokens of an expression pushes its value, or stops at its error |
| Expressions.RunOperator | ex2/expression.cpp:108-117 | both runs pop two numbers and push `calc` of them in their own operand order, or stop at its error |
| Expressions.EvalOfShow | ex2/expression.cpp:148-150 | `eval` of the fully parenthesized text of an expression is its value |
| Expressions.MirrorShow | ex2/expression.cpp:88-95 | mirroring the text of an expression gives the text of the expression with every operation's operands swapped |
| Expressions.ReversePostFlip | ex2/expression.cpp:96-97 | the reversed postfix text of the swapped expression is the prefix text |
| Expressions.PrefixOfShow | ex2/expression.cpp:87-99 | `to_prefix` of a fully parenthesized expression is its prefix text |
| Expressions.RunPre | ex2/expression.cpp:131-145 | running the reversed prefix tokens of an expression pushes its value, or stops at its error |
| Huffman.Distinct | ex4/hufftree.cpp:127-137 | the distinct bytes of the input in the order they first occur, which is the key order of the frequency map |
| Huffman.TallyStep | ex4/hufftree.cpp:132 | one `freq[ch]++` on a map that counts the bytes read so far makes it count them plus `ch` |
| Huffman.CountFreq | ex4/hufftree.cpp:127-137 | the map's keys are the input's distinct bytes in first-occurrence order and each maps to its number of occurrences |
| Huffman.Increment | ex4/hufftree.cpp:132 | `freq[ch]++` through `operator[]` keeps the map counting every byte read, now including `ch` |
| Huffman.ConsistentWeight | ex4/hufftree.cpp:58 | in a tree built by merging, every node's frequency is the total frequency of its leaves |
| Huffman.LeafBagPerm | ex4/hufftree.cpp:49-62 | two forests that are rearrangements of each other hold the same leaves |
| Huffman.LighterIsStrictWeakOrder | ex4/hufftree.cpp:45-47 | comparing frequencies with `<` is a strict weak order, so the heap's guarantees apply |
| Huffman.PopLightest | ex4/hufftree.cpp:54-57 | `top` then `pop` takes off a node of least frequency and exactly that node |
| Huffman.MergeTwoLowest | ex4/hufftree.cpp:54-61 | the two lightest nodes leave the heap and their parent, weighing their sum, joins it |
| Huffman.MergeKeepsBag | ex4/hufftree.cpp:58-61 | replacing two trees of the forest by their parent keeps the bag of leaves |
| Huffman.PushLeaves | ex4/hufftree.cpp:49-51 | after the push loop the heap holds exactly one leaf per (byte, count) pair |
| Huffman.MergeAll | ex4/hufftree.cpp:45-63 | an empty frequency map makes `top` fail with `out_of_range("Heap is empty")`; otherwise one consistent tree whose leaves are exactly the (byte, count) pairs; two pairs of different counts give their parent with the lighter leaf on the left |
| Huffman.MergeRounds | ex4/hufftree.cpp:53-62 | the merge loop leaves at most one consistent tree holding every leaf, and none exactly when there were no pairs |
| Huffman.PendingStep | ex4/hufftree.cpp:54-61 | one merge round takes two leaves of different counts to their parent, lighter leaf on the left |
| Huffman.MergeTwoLeaves | ex4/hufftree.cpp:54-61 | the lighter leaf is popped first and becomes the left child, so the heap holds only their parent |
| Huffman.LeavesCount | ex4/hufftree.cpp:43-63 | the tree's bytes are exactly the input's bytes and each leaf weighs its byte's number of occurrences |
| Huffman.Codes | ex4/hufftree.cpp:139-149 | `generate_codes` gives a code to exactly the bytes at the leaves |
| Huffman.CodesReach | ex4/hufftree.cpp:139-149 | each code extends the code of the subtree it was made in and leads from that subtree to the byte's leaf |
| Huffman.CodesPrefixFree | ex4/hufftree.cpp:139-149 | no code of one byte is a prefix of the code of another |
| Huffman.ValueZeros | ex4/hufftree.cpp:95 | `buf <<= 8 - count` is appending that many zero bits |
| Huffman.ByteBits | ex4/hufftree.cpp:108-109 | the eight bits of a byte in the order `decompress` reads them, bit 7 first |
| Huffman.ByteBitsValue | ex4/hufftree.cpp:85 | eight bits shifted into `buf` read back, bit 7 first, as the same eight bits |
| Huffman.Pad | ex4/hufftree.cpp:94-97 | fewer than eight zero bits complete the last byte |
| Huffman.BitsOfPack | ex4/hufftree.cpp:79-97 | unpacking the packed bits gives them back followed by the padding zeros |
| Huffman.PackAppend | ex4/hufftree.cpp:84-92 | packing whole bytes and then the rest is packing the lot |
| Huffman.ShiftIn | ex4/hufftree.cpp:85-91 | one code bit joins the pending bits, and a full byte is written out |
| Huffman.Flush | ex4/hufftree.cpp:94-97 | writing the shifted last partial byte completes the packing of all bits |
| Huffman.PackPartial | ex4/hufftree.cpp:95 | a last partial byte packs to its value shifted up to the top bits |
| Huffman.ShiftCode | ex4/hufftree.cpp:84-92 | shifting in every bit of one code appends the code to the bits written and pending |
| Huffman.CompressBytes | ex4/hufftree.cpp:79-97 | the output is the concatenated codes of the input packed eight bits to a byte, zero-padded |
| Huffman.WalkPath | ex4/hufftree.cpp:110-115 | following a path to a leaf writes that leaf's byte and returns the walk to the root |
| Huffman.CodeReaches | ex4/hufftree.cpp:139-149 | the code of a byte leads from the root to its leaf |
| Huffman.WalkEncode | ex4/hufftree.cpp:108-116 | walking the codes of an input from the root writes the input and ends at the root |
| Huffman.CodesDecodable | ex4/hufftree.cpp:139-149 | the codes of a tree decode every input made of the tree's bytes |
| Huffman.DecompressBytes | ex4/hufftree.cpp:105-117 | the output is the walk over every bit of every byte, bit 7 first |
| Huffman.DecompressPrefix | ex4/hufftree.cpp:105-117 | corrected: the walk stops after the given number of bits, so padding is not decoded |
| Huffman.BitsIndex | ex4/hufftree.cpp:108-109 | bit j of byte k sits at position 8k + j of the stream |
| Huffman.RoundTrip | ex4/hufftree.cpp:75-120 | decoding the first (total code length) bits of the packed codes gives the input back, for a tree of two or more leaves holding every input byte |
| Huffman.DecompressAsWritten | ex4/hufftree.cpp:102-120 | as written the walk over the whole packed stream is the input followed by whatever the zero padding spells from the root |
| Huffman.DecompressPaddingCounterexample | ex4/hufftree.cpp:102-120 | for the input "aab" the whole-stream walk gives "aabbbbbb" |
| Huffman.AabEncode | ex4/hufftree.cpp:139-149 | "aab" encodes to 1, 1, 0 |
| Huffman.AabWalk | ex4/hufftree.cpp:108-116 | walking 1, 1, 0 then five padding zeros writes "aabbbbbb" |
| Huffman.Build | ex4/hufftree.cpp:43-63 | empty input: `out_of_range("Heap is empty")`; otherwise a consistent tree whose bytes are the input's and whose leaves carry their counts; for two distinct bytes of different counts, the rarer byte's leaf is the left child |
| Huffman.FreqAt | ex4/hufftree.cpp:127-137 | the i-th pair `count_freq` produces is the i-th distinct byte of the input with its number of occurrences |
| Huffman.AabTally | ex4/hufftree.cpp:127-137 | "aab" has the distinct bytes 'a' then 'b', counted twice and once |
| Huffman.BuildsAabTree | ex4/hufftree.cpp:43-63 | `build_tree` on "aab" gives the tree with 'b' on the left and 'a' on the right, the tree the counterexample decodes with |
| Huffman.HuffmanTree.constructor | ex4/hufftree.cpp:37 | no root and no codes |
| Huffman.HuffmanTree.BuildTree | ex4/hufftree.cpp:43-65 | on empty input the error with nothing changed; otherwise the root is set to the built tree and its codes are added to the code map |
| Huffman.HuffmanTree.Compress | ex4/hufftree.cpp:75-100 | the output packs the codes of the input bytes; `codes[ch]` adds an empty code for each byte that had none |
| Huffman.HuffmanTree.Decompress | ex4/hufftree.cpp:102-120 | the output is the walk from the root over every bit of the packed bytes |
| RiverCrossing.Greater | ex5/graph_alg.cpp:26-28 | `a > b` holds exactly when `b < a` |
| RiverCrossing.Equal | ex5/graph_alg.cpp:30-32 | field-by-field comparison holds exactly for equal states |
| RiverCrossing.LessIsLexicographic | ex5/graph_alg.cpp:16-24 | `<` is lexicographic on (lm, lc, pos): a strict total order whose incomparable pairs are exactly the equal states, as the `Set` and `Map` keyed by states need |
| RiverCrossing.ValidMeans | ex5/graph_alg.cpp:34-46 | a state is valid exactly when both counts lie in 0..n and on each bank with missionaries they are not outnumbered |
| RiverCrossing.ValidMirror | ex5/graph_alg.cpp:34-46 | validity is the same whichever bank is called left |
| RiverCrossing.Flip | ex5/graph_alg.cpp:94 | `pos ^= 1` swaps 0 and 1 |
| RiverCrossing.Apply | ex5/graph_alg.cpp:86-94 | the load leaves the bank the boat is on and the boat changes bank |
| RiverCrossing.ApplyUndo | ex5/graph_alg.cpp:86-94 | rowing the same load back undoes a crossing |
| RiverCrossing.ApplyMoves | ex5/graph_alg.cpp:80-94 | a non-empty load from the left bank lowers the left-bank count, and from the right bank raises it |
| RiverCrossing.PlanStaysIn | ex5/graph_alg.cpp:63-105 | a plan that starts in a set closed under valid crossings never leaves it |
| RiverCrossing.PlanCons | ex5/graph_alg.cpp:109-110 | prefixing a plan with the crossing from its predecessor gives a plan from the predecessor |
| RiverCrossing.VisitKeeps | ex5/graph_alg.cpp:98-102 | marking, linking and queueing a new valid state keeps the search's invariant |
| RiverCrossing.TryBoat | ex5/graph_alg.cpp:80-102 | trying one load keeps the invariant and leaves the resulting state visited when the load and the state are valid |
| RiverCrossing.ReachedRow | ex5/graph_alg.cpp:79-104 | past the last load with m missionaries, every such load has been tried |
| RiverCrossing.ExpandWith | ex5/graph_alg.cpp:79-104 | the inner loop tries every load with m missionaries |
| RiverCrossing.Expand | ex5/graph_alg.cpp:78-104 | after the two loops every valid crossing from the state ends at a visited state |
| RiverCrossing.SettleStep | ex5/graph_alg.cpp:72-104 | dequeuing a state and expanding it keeps the dequeued part settled |
| RiverCrossing.Step | ex5/graph_alg.cpp:72-104 | one round either stops at a goal state that was visited or settles the dequeued state; it visits more states or shortens the queue |
| RiverCrossing.SettledAll | ex5/graph_alg.cpp:71 | with the queue used up, every visited state is settled and none is a goal |
| RiverCrossing.Bfs | ex5/graph_alg.cpp:63-105 | either a visited goal, or a visited set closed under valid crossings with no goal in it |
| RiverCrossing.ReconstructNeverEnds | ex5/graph_alg.cpp:106-111 | when the search found no goal, the reconstruction as written never reaches the start, so its loop never ends |
| RiverCrossing.NoDefaultEntry | ex5/graph_alg.cpp:100 | every state reached with the boat on the left bank has somebody there, so the default state (0, 0, 0) has no predecessor |
| RiverCrossing.GoalOnRightBank | ex5/graph_alg.cpp:74-76 | a goal found with n > 0 is (0, 0, 1), the state the reconstruction starts from |
| RiverCrossing.NegativeNeverEnds | ex5/graph_alg.cpp:56-116 | for a negative n (input "-1 2") only the start is visited and the reconstruction as written never ends |
| RiverCrossing.StepBack | ex5/graph_alg.cpp:109-110 | one step back along `prev` gains the crossing into the state in front of the plan and moves nearer the start |
| RiverCrossing.Reconstruct | ex5/graph_alg.cpp:106-112 | from a found goal the reversed path is a plan from the start to the goal |
| RiverCrossing.Solve | ex5/graph_alg.cpp:56-116 | with fewer than two seats no search; otherwise a plan from the start to a goal, or "no solution" exactly when no plan reaches a goal |
| Josephus.Circle | ex1/joseph_ring.cpp:27-30 | persons 1..n in order, person i holding the i-th password |
| Josephus.Reach | ex1/joseph_ring.cpp:34 | the position reached lies in the circle, and is `(current + m - 1) % size` whenever that sum is a non-negative machine word |
| Josephus.EliminateStep | ex1/joseph_ring.cpp:33-39 | one round: the person reached leaves first and the count resumes at the same position, or at 0 past the end |
| Josephus.EliminatePermutes | ex1/joseph_ring.cpp:32-40 | every person leaves exactly once: the order of leaving is a rearrangement of the circle |
| Josephus.LeavingOrder | ex1/joseph_ring.cpp:17-42 | the output lists each person 1..n exactly once, each with their own password |
| Josephus.FillCircle | ex1/joseph_ring.cpp:27-30 | the new circular list holds the circle of persons |
| Josephus.Leave | ex1/joseph_ring.cpp:33-39 | one round removes the reached person from the list and returns the resumption point inside the smaller circle, consistent with the order of leaving |
| Josephus.JosephRing | ex1/joseph_ring.cpp:17-42 | the loop's output is the order of leaving from the full circle starting at 0 |
| MagicSquares.Wrap | ex3/cube_teacher.cpp:222-225 | an index at most one turn outside the square is brought back into it, as the `% n` steps do |
| MagicSquares.CellThenIndex | ex3/cube_teacher.cpp:219-230 | step r of round q lands in a cell inside the square whose closed-form round and step are q and r |
| MagicSquares.IndexThenCell | ex3/cube_teacher.cpp:219-230 | every cell is the one some round and step land in |
| MagicSquares.Neighbours | ex3/cube_teacher.cpp:222-225 | `(row - 1 + n) % n`, `(col + 1) % n` and `(row + 1) % n` are the up, right and down neighbours with wrap-around |
| MagicSquares.UpRight | ex3/cube_teacher.cpp:222-223 | within a round the next number goes up and to the right |
| MagicSquares.DownAfterRound | ex3/cube_teacher.cpp:224-227 | after the last step of a round the next number goes straight down |
| MagicSquares.ValueBounds | ex3/cube_teacher.cpp:220-221 | every number written lies in 1 .. n*n |
| MagicSquares.ValuesDistinct | ex3/cube_teacher.cpp:220-221 | no two cells hold the same number |
| MagicSquares.EveryValueOnce | ex3/cube_teacher.cpp:219-221 | the number of step r of round q is written in exactly one cell, and the walk starts at row 0, column n/2 |
| MagicSquares.MagicSquare | ex3/cube_teacher.cpp:212-230 | an even order is refused with "must be an odd number"; an odd order gives an n by n square holding in every cell the number the walk writes there |
| MagicSquares.NextNumber | ex3/cube_teacher.cpp:220 | the number after q*n + r + 1 belongs to the next step, or the first step of the next round |
| MagicSquares.UpRightTaken | ex3/cube_teacher.cpp:224 | the cell up and to the right is already filled exactly at the last step of a round |
| MagicSquares.Fill | ex3/cube_teacher.cpp:219-230 | the loop leaves every cell holding its closed-form number |
| MagicSquares.Place | ex3/cube_teacher.cpp:221-229 | one round of the loop writes the next number and moves to the next cell |
| Tutors.Graduate.constructor | ex3/cube_teacher.cpp:39 | a new graduate has the given name and class and no undergraduates |
| Tutors.Graduate.AddGrad | ex3/cube_teacher.cpp:47-49 | the undergraduate is appended to the graduate's list |
| Tutors.FindGrad | ex3/cube_teacher.cpp:100-101 | the scan stops at the first graduate with the name, or at the end |
| Tutors.FindUndergrad | ex3/cube_teacher.cpp:128-129 | the scan stops at the first undergraduate with the name, or at the end |
| Tutors.RemoveFirst | ex3/cube_teacher.cpp:127-135 | without a match the list is unchanged; otherwise exactly the first match is removed |
| Tutors.RemoveFirstKeepsOthers | ex3/cube_teacher.cpp:127-135 | the undergraduates before the match keep their places and those after move up by one |
| Tutors.Target | ex3/cube_teacher.cpp:108-117 | the graduate the k-th undergraduate of the removed graduate goes to is another graduate |
| Tutors.DealtStep | ex3/cube_teacher.cpp:109-117 | dealing one more undergraduate extends exactly the target's share |
| Tutors.DealtNoneToRemoved | ex3/cube_teacher.cpp:111-114 | the removed graduate gets none of its own undergraduates back |
| Tutors.RoundRobin | ex3/cube_teacher.cpp:108-117 | consecutive undergraduates go to different graduates and the deal repeats every (graduates - 1) undergraduates |
| Tutors.DealtTotal | ex3/cube_teacher.cpp:109-117 | the deal hands out every undergraduate exactly once |
| Tutors.Deal | ex3/cube_teacher.cpp:109-117 | every graduate's list is extended by its share of the deal |
| Tutors.SumLengthsDeal | ex3/cube_teacher.cpp:109-117 | the deal adds exactly the dealt undergraduates to the lists' total length |
| Tutors.Redistribute | ex3/cube_teacher.cpp:108-121 | one list fewer; every remaining graduate's list is extended by its share of the removed graduate's undergraduates |
| Tutors.RedistributeKeepsCount | ex3/cube_teacher.cpp:108-121 | redistributing loses and duplicates nobody: the total number of undergraduates stays the same |
| Tutors.Lists | ex3/cube_teacher.cpp:61-63 | the undergraduate lists of the graduates, in order |
| Tutors.DistinctDrop | ex3/cube_teacher.cpp:121 | erasing a graduate keeps the others distinct and leaves it out |
| Tutors.ListsDrop | ex3/cube_teacher.cpp:121 | the lists after erasing a graduate are the old lists without its list |
| Tutors.DealNext | ex3/cube_teacher.cpp:110-116 | dealing one more undergraduate extends the target's list and no other |
| Tutors.DealNone | ex3/cube_teacher.cpp:109 | dealing nobody changes no list |
| Tutors.DropAfterDeal | ex3/cube_teacher.cpp:119-121 | erasing the removed graduate's list from the dealt lists gives the redistribution |
| Tutors.SkipStep | ex3/cube_teacher.cpp:110-116 | the `index` of the loop, stepped past the removed graduate, reaches the deal's target for each undergraduate |
| Tutors.FirstTarget | ex3/cube_teacher.cpp:108-110 | the first undergraduate goes to position 0, stepped over the removed graduate |
| Tutors.NextTarget | ex3/cube_teacher.cpp:110-116 | the next target follows the previous one, stepped over the removed graduate |
| Tutors.Tutor.constructor | ex3/cube_teacher.cpp:80 | a new tutor supervises nobody |
| Tutors.Tutor.AddGrad | ex3/cube_teacher.cpp:91-93 | the graduate is appended and the undergraduates are unchanged |
| Tutors.Tutor.AddUndergrad | ex3/cube_teacher.cpp:95-97 | the undergraduate is appended and the graduates are unchanged |
| Tutors.Tutor.RemoveUndergrad | ex3/cube_teacher.cpp:127-135 | the first undergraduate with the name is removed from the tutor's own list, if any |
| Tutors.Tutor.Statistics | ex3/cube_teacher.cpp:149-158 | the number of graduates, and the undergraduates supervised directly or through a graduate |
| Tutors.Tutor.RemoveGrad | ex3/cube_teacher.cpp:99-125 | no match: nothing changes; the only graduate: its undergraduates move to the tutor; one of several: it is erased and its undergraduates are dealt round-robin to the others |
| Tutors.Tutor.IndexOfGrad | ex3/cube_teacher.cpp:100-101 | the position of the first graduate with the name, or the count |
| Tutors.Tutor.RemoveOnlyGrad | ex3/cube_teacher.cpp:103-106 | the only graduate's undergraduates are appended to the tutor's and the graduate is erased |
| Tutors.Tutor.RemoveGradAmong | ex3/cube_teacher.cpp:107-121 | with two or more graduates, the lists become the redistribution and the tutor's own list is unchanged |
| Tutors.Tutor.EraseGrad | ex3/cube_teacher.cpp:119-121 | the graduate at the position is erased with its list and the others keep theirs |
| Tutors.Tutor.RemoveGradKeepsTotal | ex3/cube_teacher.cpp:99-125 | `remove_grad` keeps the number of undergraduates under the tutor |
| Tutors.Tutor.MoveToTutor | ex3/cube_teacher.cpp:103-106 | the graduate's undergraduates are appended to the tutor's own list |
| Tutors.Tutor.GiveTo | ex3/cube_teacher.cpp:115 | one undergraduate is appended to the target graduate's list and no other list changes |
| Tutors.Tutor.DealAround | ex3/cube_teacher.cpp:108-118 | the loop leaves the lists as the deal of the removed graduate's undergraduates |
| Tutors.Tutor.DealOne | ex3/cube_teacher.cpp:110-116 | one round gives the next undergraduate to its target and leaves `index` at the next target |
| Tutors.Tutor.RemovePerson | ex3/cube_teacher.cpp:319-329 | `remove_grad` then `remove_undergrad` with one name drop at most one undergraduate from the count |
| Search.BestIsFirstBest | ex6/search.cpp:44-48 | the scan with strict `>` ends on the first entry of greatest score when some entry beats the start value, and otherwise keeps the start value, which nothing beats |
| Search.ScanMax | ex6/search.cpp:44-55 | the loop computes the scan of the table from a position on |
| Search.EraseAt | ex6/search.cpp:50 | `erase` leaves one entry fewer: every other entry, and nothing else |
| Search.EntriesAtIds | ex6/search.cpp:28-31 | in the numbered table each entry sits at the index its id names |
| Search.RunnerUp | ex6/search.cpp:49-55 | the second scan over the table without max1 gives another entry of greatest score among the rest, or the start value when none scores above 0 |
| Search.SequentialTopTwo | ex6/search.cpp:38-55 | as written: when every score is 0 max1 stays `(0, 0)` and the erase at `begin() - 1` has no defined effect (an error here); otherwise max1 is the first entry of greatest score and (max1, max2) are the top two |
| Search.AllZeroEraseBeforeBegin | ex6/search.cpp:50 | with every score 0 the scan keeps id 0, so the erase position is -1 |
| Search.SequentialTopTwoFromFirst | ex6/search.cpp:38-55 | corrected, starting the scan from the first entry: max1 is the first entry of greatest score and (max1, max2) are the top two on every non-empty table |
| Search.UnderRoot | ex6/search.cpp:76-82 | every node from 1 on lies under the root |
| Search.UnderChild | ex6/search.cpp:76-82 | a node strictly under another lies under one of its two children |
| Search.SiblingsDisjoint | ex6/search.cpp:76-82 | the subtrees of two siblings share no node |
| Search.WinnerBeats | ex6/search.cpp:76-82 | every node's score is at least that of everything in its subtree |
| Search.WinnerIsEntry | ex6/search.cpp:76-82 | every node holds one of the entries of its subtree |
| Search.RootIsBest | ex6/search.cpp:85 | node 1 holds an entry with the greatest score |
| Search.WinnerInner | ex6/search.cpp:77-81 | an inner node holds the higher of its children, the left one on a tie |
| Search.FillLeaves | ex6/search.cpp:71-73 | leaves n .. 2n-1 hold the entries in order |
| Search.FillInner | ex6/search.cpp:76-82 | the loop from n - 1 down to 1 leaves every node holding the winner of its subtree |
| Search.DescendKeeps | ex6/search.cpp:94-109 | one step down the winner's path keeps max2 the best of everything off the path so far |
| Search.FromLeft | ex6/search.cpp:95 | a node equals its left child exactly when the left child's score is at least the right's |
| Search.WalkRunnerUp | ex6/search.cpp:88-110 | the walk ends at the winner's leaf with max2 the best of everything off the winner's path |
| Search.TournamentTopTwo | ex6/search.cpp:67-110 | max1 is the root's entry and (max1, max2) are the top two |
| Search.WalkFindsTopTwo | ex6/search.cpp:88-110 | the best entry off the winner's path is the runner-up of the whole table |
| Search.GreaterIsStrictWeakOrder | ex6/search.cpp:122-123 | `std::greater` on pairs is a strict weak order, so it is a valid heap comparator |
| Search.HeapTopTwo | ex6/search.cpp:122-130 | with fewer than two entries `top` fails with `out_of_range("Heap is empty")`; otherwise the two pops give the greatest pair and the greatest of the rest, which are the top two |
| Search.TopOfBag | ex6/search.cpp:126 | no pair in the heap is greater than its top |
| Search.HeapPicksTopTwo | ex6/search.cpp:126-130 | the greatest pair of the table and the greatest pair of the rest are its top two |
| Search.TopTwoScoresAgree | ex6/search.cpp:58-136 | any two answers with the top-two property report the same two scores, so the three methods print the same scores |
| Exams.NextClass | ex7/schedule.cpp:114-115 | finishing the courses of class c is starting class c + 1 |
| Exams.BuildConflicts | ex7/schedule.cpp:110-122 | two different courses conflict exactly when some class takes both; no course conflicts with itself |
| Exams.MarkClass | ex7/schedule.cpp:115-121 | after the loops for class c, every pair of courses it takes is marked |
| Exams.Slots | ex7/schedule.cpp:30-32 | the time slots of the courses, in order |
| Exams.CanTake | ex7/schedule.cpp:128-134 | `can` holds exactly when no earlier course conflicting with course i has slot t |
| Exams.FreeSlotExists | ex7/schedule.cpp:127-139 | course i always finds a free slot among 0..i, because only i earlier courses can block slots |
| Exams.FirstOpenSlot | ex7/schedule.cpp:127-139 | the slot loop stops at the smallest free slot, which is at most i |
| Exams.GreedySnoc | ex7/schedule.cpp:125-140 | a course added with the smallest free slot keeps the assignment greedy |
| Exams.AssignSlots | ex7/schedule.cpp:125-140 | every course gets its own index as id and the smallest slot no earlier conflicting course holds |
| Exams.ScheduleExams | ex7/schedule.cpp:109-141 | the conflict matrix marks exactly the pairs some class shares, and the slots are the greedy assignment |
| Exams.SlotBound | ex7/schedule.cpp:127 | course i of a greedy assignment holds a slot in 0..i |
| Exams.SlotsBelowCount | ex7/schedule.cpp:127 | every slot lies below `n_course`, so the loop over t always assigns one |
| Exams.NoSharedSlot | ex7/schedule.cpp:125-140 | two conflicting courses of a greedy assignment never share a slot |
| Exams.CheckSchedule | ex7/schedule.cpp:210-225 | `has_conflict` is set exactly when some class takes two courses in one slot |
| Exams.ClassClash | ex7/schedule.cpp:212-224 | the check for class c finds a clash exactly when it takes two courses in one slot |
| Exams.ScheduleHasNoClash | ex7/schedule.cpp:109-141 | the timetable `schedule_exams` builds passes the check: no class has two courses in one slot |

## Left out

- Console input and output, menus, screen handling and every `operator<<` formatter: the algorithms take their inputs as parameters and return their results.
- Random data and timing (`mt19937`, `shuffle`, `chrono`, sleeps): random scores, passwords and class-course maps are parameters.
- Floating point: the `Student` scores, totals, sorting and statistics of ex7/schedule.cpp are not part of this model.
- File streams of ex4/hufftree.cpp and `save_codes`: compression and decompression work on byte sequences.
- Memory management: `new`/`delete`, destructors and dangling pointers. Nodes are Dafny objects or tree values, and a cleared list's cells are simply dropped.
- RbSet.RbSet: the sentinel's parent field, which `transplant` and `erase_fix` write, and pointer aliasing between nodes are not modelled. The zipper records each node's parent and side exactly.
- RbSet.RbSet: values are `int` rather than a type parameter `T`. MyDS/set.h compares values only with `<` and `>` (MyDS/set.h:285-287, 366-368), and the proofs use `int`'s `<` as the strict total order it needs. The one element type the program stores, `state` of ex5/graph_alg.cpp, has such an order: RiverCrossing.LessIsLexicographic proves its `<` lexicographic on (lm, lc, pos).
- The move constructor of `Set` is not modelled: a moved-from set has a null `nil` that no operation can use.
- Copy and move assignment operators of all containers are not modelled. They are built on `swap`, and `ArrayList`'s public `swap` calls itself without end (MyDS/arraylist.h:134-136).
- `Pair` copy assignment is value copy of a datatype, so self-assignment is trivially a no-op. The `Heap` move constructor is not modelled either.
- `CircularQueue` declares no `public:` (MyDS/circularqueue.h:10), so no other code could call its members. The model treats them as callable.
- `CircularQueue::operator<<` with `_back == 0` compares against `_back - 1`, which wraps around to the largest `size_t` (MyDS/circularqueue.h:129). It is left out with the other formatters.
- The `ArrayList` members that consumers use but MyDS/arraylist.h does not define (`operator[]`, `begin`/`end`, the `(count, value)` and list constructors, iterator `erase`): `Heap`, `Map`, `Graph` and the exercises hold plain sequences instead.
- MyDS/binarytree.h (a node struct only) is not part of this model.
- MyDS/test.cpp: its five test functions are replayed, one method each (ArrayLists.BasicOperationsScenario, InsertEraseScenario, CopyMoveScenario, ExceptionScenario and ReplaceScenario). Its printing, its `try`/`catch` reporting and `main` are left out.
- Pairs: `<`, `>`, `<=` and `>=` are modelled for `int` components only, although the datatype `Pair<T, U>` is generic. MyDS/pair.h:43-66 compares any component types by their own `<`; the lexicographic and strict-total-order lemmas are proved for `int`.
- `make_min_heap` (MyDS/heap.h:161-164) as written does not compile once instantiated. It returns `Heap<T>`, whose comparator type is `std::less<T>`, and passes it a `std::greater<T>`. No code in the repository instantiates it. Heaps.MakeMinHeap models what it intends.
- Integer width: `int` and `size_t` arithmetic is unbounded. Overflow in `calc`, in `stoi`, in Huffman frequencies and in Dijkstra's `dist[u] + weight` is not modelled.
- Expressions.Stoi: reads the leading digits of a token and has no range limit.
- Graphs.Graph.Dijkstra: the distance of an unreached vertex is an explicit `Infinite` instead of `numeric_limits<T>::max()`.
- Graphs.Graph.Dijkstra: minimality of the distances is not proved. What is proved: finite exactly when reachable, each finite distance is the weight of a real path, predecessors are real edges, and the source is at 0 when no weight is negative.
- Graphs.Graph.Dfs: requires a vertex below the count, because `dfs` (MyDS/graph.h:113-117) never calls `check_vertex` and indexes out of range otherwise.
- Graphs.Graph.Degree: requires a vertex below the count for an undirected graph, because that branch (MyDS/graph.h:205-211) skips `check_vertex`.
- `Graph::size()` and `is_directed()` are read as the fields `count` and `directed`.
- Huffman.HuffmanTree.Decompress: requires a root with two or more leaves. With no root the source dereferences null. With a single distinct byte that byte's code is empty: `compress` writes nothing and `decompress` reads a null child.
- Huffman.RoundTrip: is stated for trees of two or more leaves, for the same reason.
- Huffman.Build: an empty input, where `heap.top()` throws, is modelled as the `out_of_range("Heap is empty")` error.
- RiverCrossing.Solve: for n = 0 it returns the empty plan. The program instead prints one crossing out of (0, 0, 1), a state it never reached.
- RiverCrossing.Solve: it checks `flag` before reconstructing the path, which is the corrected order (see Findings).
- Josephus.Reach: `current + m - 1` is an `int` converted to 64-bit `size_t`. The model applies that conversion but not 32-bit `int` overflow of the sum.
- MagicSquares.MagicSquare: takes a natural order n. A negative n, which `matrix(n, ...)` would turn into a huge `size_t`, is not modelled.
- MagicSquares.MagicSquare: that every row, column and diagonal has the same sum is not proved. What is proved: the cells hold exactly the numbers 1..n*n, each once, placed as the walk places them.
- `TutorSystem` (add, remove and find tutor), `Graduate::remove_grad`, the `show` methods and the `Person` hierarchy of ex3/cube_teacher.cpp are not part of this model. Only the tutor's own operations are.
- Tutors.Tutor.RemovePerson: states only that the count drops by at most one. The exact lists are stated by Tutors.Tutor.RemoveGrad and Tutors.Tutor.RemoveUndergrad, which it runs in turn.
- Search: the table size is any n instead of 512; the tournament method takes any non-empty table, using the same array layout of 2n slots.
- Exams.ScheduleExams: returns fresh `conflict` and `courses` arrays instead of resizing the global `courses` vector.
- Exams.ScheduleExams: takes `course_map` as a parameter of the sizes `n_class` by `n_course`.

## Findings

| source | as written | input that shows it | evidently intended | confidence | as-written member | corrected member |
|---|---|---|---|---|---|---|
| MyDS/linkedlist.h:117-141 | `insert` at index 0 or `size_` links the new cell but leaves `head_`/`tail_` on the old end while `size_` grows | `insert(0, x)` on a list of one element | the new cell becomes the head (index 0) or the tail (index `size_`) | high; not executed | LinkedLists.LinkedList.InsertAsWritten | LinkedLists.LinkedList.Insert |
| MyDS/circularlist.h:39-49 | the copy loop stops once `current->next` is the head, so the last element is never copied | copying the list [1, 2] gives [1] | the copy holds every element | high; not executed | CircularLists.CircularList.CopyAsWritten | CircularLists.CircularList.Copy |
| MyDS/heap.h:156-159 | `make_max_heap` passes `std::less`, so the smallest element is on top | `make_max_heap({1, 2})` has top 1 | `std::greater`, largest on top | high; not executed | Heaps.MakeMaxHeapAsWritten | Heaps.MakeMaxHeap |
| ex2/expression.cpp:122-146 | `eval_prefix` reads the tokens left to right, so the leading operator finds an empty stack | `eval_prefix("+ 1 2")` throws `Invalid expression` | read right to left; the prefix text of an expression evaluates to its value | high; not executed | Expressions.PrefixAsWrittenRejects | Expressions.PrefixValue |
| ex4/hufftree.cpp:102-120 | `decompress` also decodes the zero bits that pad the last byte | "aab" compresses to one byte, which decompresses to "aabbbbbb" | stop after the total code length, giving "aab" back | high; not executed | Huffman.DecompressPaddingCounterexample | Huffman.RoundTrip |
| ex5/graph_alg.cpp:106-116 | the path is reconstructed before `flag` is checked; with no solution `prev[cur]` yields the default state and the loop never reaches the start | input "-1 2" never ends | check `flag` first and report no solution | high; not executed | RiverCrossing.NegativeNeverEnds | RiverCrossing.Solve |
| ex6/search.cpp:38-50 | when every score is 0, `max1` keeps id 0 and `erase` is called at `begin() - 1` | 512 scores all 0 | start the scan from the first entry | medium (random scores are 0 only with tiny probability); not executed | Search.AllZeroEraseBeforeBegin | Search.SequentialTopTwoFromFirst |
