# gdata containers in Dafny

gdata is a C library of type-erased containers. Each container stores
elements of a width the caller chooses, and moves them with byte copies.
The repository keeps several generations of the same ideas side by side:

- the current sources under `src/`;
- an older set at the top level;
- a `gdata/` set;
- a `C/` set.

This project models the container core of all of them. Each module has
the name of the file it models:

| module | source file | what it is |
|---|---|---|
| `SrcVector`, `RootVector` | src/vector.c, vector.c | the double-ended growable vector. One buffer holds a live window at `offset`, and each end grows or is trimmed on its own |
| `SrcList`, `RootList`, `CList`, `CListH` | src/list.c, list.c, C/List.c, C/List.h | doubly linked lists with signed indices. Some keep a `list_for_each` cursor |
| `SrcStack`, `RootStack`, `GdataStack` | src/stack.c, stack.c, gdata/stack.c | linked LIFO stacks. Indexed access counts from the bottom |
| `SrcHeap` | src/heap.c | the 1-based binary heap, MIN or MAX, with sift-up and sift-down |
| `SrcArray`, `RootArray`, `GdataArray`, `CArray` | src/array.c, array.c, gdata/array.c, C/Array.c | fixed-size arrays that carry a size header |
| `SrcDict` | src/dict.c | the chained hash dictionary with the djb2 hash |
| `CString` | C/String.c | the growable C string |
| `SortH` | src/utils/sort.h | insertion sort and bubble sort over `int` arrays |

Some modules are shared by the ones above:

- `Common`: `Option`, the 32-bit `unsigned int`/`int` conversion, sequence helpers with their lemmas, and `Kept`, the values a run of pushes keeps when some of their mallocs fail.
- `Mem`: `realloc`, `memmove`, `memcpy` and `memset` on Dafny arrays.
- `DLink`: the doubly linked node and its chain invariant.
- `SLink`: the singly linked node.
- `SizeHeader`: the header-plus-elements block used by array.c and gdata/array.c.

A few conventions hold across the model:

- Containers the source updates in place are classes. Their methods state
  the new state against ghost `contents`. Linked structures keep a ghost
  sequence of their nodes and a `repr` set.
- Element bytes become values of a type parameter `T`. The zero-filled
  element that `calloc` or `memset` gives is the container's `zero` value.
- Pointers into a buffer become indices.
- Allocation success is a parameter (`ok`) of the operations whose code
  tests malloc's result and returns early: list_push of src/list.c,
  List_push of C/List.c, stack_push of src/stack.c and of stack.c (and so the pushes of
  stack_create, stack_copy and stack_reverse, given as a sequence of
  outcomes), the
  node allocation and pushes of C/List.h, array_create and array_slice of
  src/array.c, _array_alloc of array.c and dict_set of src/dict.c. It is
  also a parameter where it changes the outcome, as with realloc that
  grows in place or moves the block. Everywhere else allocation is
  assumed to succeed, including list_push of list.c, which tests the new
  node but then still copies into it and counts it (see "Left out").

## Model

| member | source | states |
|---|---|---|
| `SrcVector.Increment` | src/vector.c:53 | the growth step (n/32 + 1) * 32 is a multiple of 32 strictly larger than the number of pushed elements, so a push always fits after growing |
| `SrcVector.Vector.constructor` | src/vector.c:31-46 | vector_create: exactly `initial_size` live slots, offset 0, holding the initial values or calloc's zeros |
| `SrcVector.Vector.ResizeRight` | src/vector.c:8-13 | resize_right changes the allocation at the right end by `change` and keeps offset, size and the live elements |
| `SrcVector.Vector.ResizeLeft` | src/vector.c:15-29 | resize_left changes the allocation at the left end; the window moves by `change` and its contents are kept |
| `SrcVector.Vector.PushBack` | src/vector.c:48-59 | vector_pushback appends the elements in order; the allocation grows by the increment exactly when size + n reaches the right headroom |
| `SrcVector.Vector.PushFront` | src/vector.c:61-73 | vector_pushfront prepends the elements in their order; the left side grows by the increment exactly when n reaches the offset |
| `SrcVector.Vector.PopBack` | src/vector.c:75-84 | vector_popback returns the last element and removes it; 32 slots are given back on the right exactly when the headroom exceeds 64 |
| `SrcVector.Vector.PopFront` | src/vector.c:86-97 | vector_popfront returns the first element and removes it; the window slides 32 slots left exactly when the offset exceeds 64 |
| `SrcVector.Vector.Remove` | src/vector.c:104-117 | vector_remove deletes exactly the element at `index`; the offset advances only when the left part is shifted (index <= size/2) |
| `SrcVector.Vector.Window` | src/vector.c:119-121 | the live window read through `at` is exactly the abstract contents |
| `SrcVector.Vector.At` | src/vector.c:119-121 | vector_at returns the element at logical position `index` |
| `SrcVector.CreateScenario` | tests/test_vector.c:6-15 | a vector created from 1,2,3,4 has length 4 and holds 1,2,3,4 |
| `SrcVector.PushBackScenario` | tests/test_vector.c:17-27 | two values pushed onto an empty vector come back in order |
| `SrcVector.RemoveScenario` | tests/test_vector.c:69-80 | removing index 3 and then index 1 from 1..5 leaves 1,2,3,5 and then 1,3,5 |
| `SrcVector.PushFrontScenario` | tests/test_vector.c:82-93 | 1,2,3 pushed in front of 1,2 keep their order |
| `SrcVector.PopBackScenario` | tests/test_vector.c:95-106 | popping the back of 1,2,3,4 yields 4 and then 3 |
| `SrcVector.PopFrontScenario` | tests/test_vector.c:108-119 | popping the front of 1,2,3,4 yields 1 and then 2 |
| `RootVector.Limit` | vector.c:85 | the idle-side threshold MAX_LATERAL_SIZE / dsize is the largest element count whose bytes fit in 512 |
| `RootVector.Shrink` | vector.c:88 | the trim limit*2/3 is the integer part of two thirds of the threshold |
| `RootVector.Vector.constructor` | vector.c:8-23 | _vec_create: exactly `size` live slots, offset 0, holding the values or zeros |
| `RootVector.Vector.ResizeRight` | vector.c:30-35 | resize_right changes the allocation at the right end and keeps the live elements |
| `RootVector.Vector.ResizeLeft` | vector.c:37-51 | resize_left changes the allocation at the left end; the window moves by `change` and its contents are kept |
| `RootVector.Vector.PushBack` | vector.c:53-66 | _vec_pushback appends the elements in order, growing the right side by the increment exactly when size + n reaches the headroom |
| `RootVector.Vector.PushFront` | vector.c:68-80 | _vec_pushfront prepends the elements in order; stepping `at` back by n lands on the new first element |
| `RootVector.Vector.PopBack` | vector.c:82-92 | _vec_popback returns and removes the last element; the right side is trimmed by Shrink(dsize) exactly when its headroom exceeds Limit(dsize) |
| `RootVector.Vector.PopFront` | vector.c:94-106 | _vec_popfront returns and removes the first element; the left side is trimmed by Shrink(dsize) exactly when the offset exceeds Limit(dsize) |
| `RootVector.Vector.Window` | vector.c:62 | the live window read through `at` is exactly the abstract contents |
| `RootVector.PopBackTrimScenario` | vector.c:82-92 | with 4-byte elements the threshold is 128 and the trim 85: a pop with 200 slots of headroom gives 85 back |
| `RootVector.PushFrontPopFrontScenario` | vector.c:68-106 | pushing in front with no left headroom and popping again returns the pushed values and leaves the old contents |
| `SrcList.List.constructor` | src/list.c:42-50 | list_create: an empty list with no popped node, then the initial values pushed at the back, or `initial_size` modulo 2^32 zeros, since list_resize takes an `unsigned int` |
| `SrcList.TruncatedCreateScenario` | src/list.c:42-50 | list_create with no values and size 2^32 + 2 gives a list of two zeros |
| `SrcList.List.NodeAt` | src/list.c:16-34 | _list_node_at walks from the head for index >= 0 and from the tail for index < 0, and gives NULL exactly when the index names no element |
| `SrcList.List.At` | src/list.c:37-39 | list_at returns the element the signed index names (-1 is the tail) |
| `SrcList.List.PushOneBack` | src/list.c:56-68 | one iteration of list_pushback: the new node becomes the tail and holds the element |
| `SrcList.List.PushOneFront` | src/list.c:76-88 | one iteration of list_pushfront: the new node becomes the head and holds the element |
| `SrcList.List.PushBack` | src/list.c:53-70 | list_pushback appends the n elements in order, or n zeros when data is NULL |
| `SrcList.List.PushFront` | src/list.c:73-90 | list_pushfront prepends the n elements in their order (the last one is linked first) |
| `SrcList.List.Push` | src/list.c:93-123 | list_push inserts before the element a non-negative index names, after the one a negative index names, and changes nothing when the index is out of range or the new node's malloc fails; NULL item gives a zero element |
| `SrcList.List.InsertBefore` | src/list.c:102-110 | the splice for index >= 0 inserts the new element at the old node's position |
| `SrcList.List.InsertAfter` | src/list.c:112-120 | the splice for index < 0 inserts the new element just after the old node |
| `SrcList.List.PopNode` | src/list.c:126-144 | list_pop_node removes exactly that node's element, moves head/tail past it when it is an end, returns its data and keeps the node as `pop` |
| `SrcList.List.Pop` | src/list.c:146-148 | list_pop removes and returns the element the signed index names |
| `SrcList.List.Resize` | src/list.c:151-161 | list_resize grows with zeros at the back or pops from the tail; the length becomes exactly new_size, the kept elements are the first new_size, and after a shrink the kept popped node is the one that was at position new_size |
| `SrcList.List.Clear` | src/list.c:174-186 | list_clear leaves an empty list with null ends and no popped node |
| `SrcList.List.Walk` | src/list.c:210-211 | the first loop of list_slice, `begin` steps from the head, lands on the node at position `begin` (null at the end) |
| `SrcList.List.ToArray` | src/list.c:189-197 | list_to_array writes the elements head first into the first `length` slots and nothing else |
| `SrcList.Copy` | src/list.c:163-172 | list_copy returns a new list with the same width and the same elements in order, sharing no node |
| `SrcList.Slice` | src/list.c:204-218 | list_slice returns the elements from `begin`, at most end - begin of them, with `end -= begin` wrapping as unsigned arithmetic |
| `SrcList.PushRange` | src/list.c:213-216 | the second loop of list_slice appends at most `count` elements from the start node on, stopping at the tail |
| `SrcList.Equals` | src/list.c:220-232 | list_equals is true exactly when the widths and the element sequences are equal |
| `SrcList.CreateScenario` | tests/test_list.c:6-18 | a new list is empty, has null ends and no popped node |
| `SrcList.PushBackScenario` | tests/test_list.c:20-34 | pushing 9 and 3 gives length 2, head 9 and tail 3 |
| `SrcList.ClearScenario` | tests/test_list.c:36-46 | clearing a five-element list leaves length 0 and null ends |
| `SrcList.EqualsScenario` | tests/test_list.c:48-59 | [1, 2, 3] and [1, 2] differ until 3 is pushed onto the second |
| `SrcList.CopyScenario` | tests/test_list.c:61-68 | a copy of [1, 2, 3] is equal to it |
| `SrcList.ResizeScenario` | tests/test_list.c:70-77 | [1, 2, 3] resized to 5 has length 5 and ends in a zero |
| `SrcList.PushFrontScenario` | tests/test_list.c:79-91 | pushing 1, 2, 3 in front of [1, 2] gives [1, 2, 3, 1, 2] |
| `SrcList.AtScenario` | tests/test_list.c:94-103 | in [1, 2, 3] index 2 is 3, index 0 is 1 and index -2 is 2 |
| `SrcList.PopScenario` | tests/test_list.c:105-114 | from [1..5] popping -1, then 0, then -2 yields 5, 1 and 3 |
| `SrcList.PushScenario` | tests/test_list.c:116-132 | push(-2, 3) turns [1, 2] into [1, 3, 2], then push(0, 0) gives [0, 1, 3, 2] |
| `SrcList.SliceScenario` | tests/test_list.c:134-149 | slicing [1, 2, 3, 4] from 2 to 4 gives two elements equal to [3, 4] and not to [2, 3] |
| `DLink.Pos` | list.c:43-52 | a signed index in range names position index from the head, or length + index from the tail |
| `DLink.Find` | list.c:43-52 | _list_find walks index links forward, or -index-1 links back for a negative index, and returns the node at the target position or NULL once the walk leaves the list |
| `DLink.InsertChain` | src/list.c:102-120 | relinking the two neighbours to a new node and the new node to them yields the chain with the node inserted at that position |
| `DLink.RemoveChain` | list.c:35-38 | making both neighbours skip a node yields the chain with that position removed |
| `DLink.Detach` | list.c:35-38 | _list_detach_node makes the neighbours point past the node and leaves the node's own links as they were |
| `DLink.PopKeepsCursor` | list.c:150-167 | a pop that moves a cursor standing on the popped node to its successor keeps every cursor on the list at the matching position |
| `DLink.PopStrandsCursor` | list.c:150-167 | a pop that leaves the cursor where it was strands a cursor on the popped node: it is no node of the remaining list and not the end |
| `RootList.List.constructor` | list.c:72-80 | _list_create: the values pushed as an array, or zeros through list_resize, which takes initial_size modulo 2^32 and adds nothing when that is 2^31 or more; the cursor on the head, no popped node |
| `RootList.List.NodeAt` | list.c:59-65 | _list_node_at returns the node the signed index names, NULL exactly when it names none |
| `RootList.List.At` | list.c:67-69 | list_at returns the element the signed index names |
| `RootList.List.PushBack` | list.c:86-97 | list_push_back appends the item (zero without one); the first node of an empty list becomes the cursor, otherwise the cursor keeps its node |
| `RootList.List.PushFront` | list.c:100-111 | list_push_front prepends the item and puts the cursor on the new head |
| `RootList.List.Push` | list.c:114-147 | list_push inserts before (index >= 0) or after (index < 0) the named element, takes over head and cursor only when inserting before the head, and changes nothing out of range |
| `RootList.List.InsertBefore` | list.c:120-128 | the splice for index >= 0 inserts at the named position and moves the cursor only when that is the head |
| `RootList.List.InsertAfter` | list.c:130-138 | the splice for index < 0 inserts just after the named position and leaves the cursor |
| `RootList.List.PopAsWritten` | list.c:150-167 | list_pop as written removes and returns the named element, moves the cursor to the new head only when the head is popped, and otherwise leaves it even on the popped node; NULL out of range |
| `RootList.List.Pop` | list.c:150-167 | list_pop with the cursor moved off the popped node: same elements and result, and the cursor stays on the list |
| `RootList.List.PopBack` | list.c:170-172 | list_pop_back, through list_pop as written, removes and returns the tail, NULL on an empty list; the cursor stays where it was (even on the detached tail) unless the list had one element |
| `RootList.List.PopFront` | list.c:175-177 | list_pop_front, through list_pop as written, removes and returns the head and puts the cursor on the new head, NULL on an empty list |
| `RootList.List.Remove` | list.c:214-216 | list_remove, through list_pop as written, removes the named element and nothing when out of range; removing the head puts the cursor on the new head, any other removal leaves it where it was, even on the removed node |
| `RootList.List.Resize` | list.c:180-193 | list_resize grows with zeros or trims from the tail, through list_pop as written, by the difference taken as a 32-bit int, so a difference of 2^31 or more does nothing; trimming leaves the cursor where it was unless the list empties, and growing a non-empty list leaves it on the same node at the same position |
| `RootList.List.ForEach` | list.c:196-204 | list_for_each hands out the element under the cursor and steps on; past the tail it rewinds to the head and hands out NULL; the list is unchanged |
| `RootList.List.Rewind` | list.c:202 | the cursor goes back to the head and nothing else changes |
| `RootList.List.RemoveIter` | list.c:218-235 | list_remove_iter removes the element handed out last (the tail when past the end, nothing when the cursor is on the head) and the cursor keeps its node |
| `RootList.List.DetachInner` | list.c:231-233 | the inner branch of list_remove_iter removes a node that is neither end and keeps the cursor on the same node |
| `RootList.List.Clear` | list.c:237-242 | list_clear empties the list and leaves no popped node, no cursor and null ends |
| `RootList.List.PushArray` | list.c:247-253 | list_push_array appends the values in order |
| `RootList.List.ToArray` | list.c:256-263 | list_to_array writes the elements head first into the first `size` slots and nothing else |
| `RootList.List.Unlink` | list.c:152-164 | the unlinking of list_pop removes exactly position i, returns its data and keeps the node as `pop` |
| `RootList.Copy` | list.c:207-212 | list_copy as written copies the elements from the cursor on (not the whole list) and leaves the source's cursor rewound, the source otherwise unchanged |
| `RootList.CopyFrom` | list.c:207-211 | list_copy's new list, created empty and filled from node k on, holds exactly the elements from position k to the tail, with the source's width |
| `RootList.PushFrom` | list.c:209-210 | the copy loop appends every element from position k to the tail |
| `RootList.CopyNext` | list.c:209-210 | one round of the copy loop appends the element at the cursor and steps to the next node |
| `RootList.CopyAll` | list.c:207-212 | list_copy with the cursor rewound first copies every element |
| `RootList.Sublist` | list.c:270-278 | list_sublist copies as list_copy does, from the cursor on, then pops `begin` elements from the front and size - end (wrapped to unsigned, with the original size) from the back; with the cursor on the head and begin <= end <= size < 2^32 it holds exactly positions begin to end |
| `RootList.DropEnds` | list.c:273-276 | the two trimming loops drop min(front, n) elements at the head and then min(back, rest) at the tail |
| `RootList.DropFront` | list.c:273-274 | the first loop pops the head `front` times: the list becomes its suffix from position min(front, n) and stays well formed |
| `RootList.DropBack` | list.c:275-276 | the second loop pops the tail `back` times: the list becomes its prefix of length n - min(back, n) and stays well formed |
| `RootList.StaleCursorScenario` | list.c:150-167 | in [1, 2, 3] after one list_for_each, popping position 1 removes 2, yet the next list_for_each still hands out 2 |
| `RootList.CursorScenario` | list.c:150-167 | the same steps with the corrected pop hand out 3 next |
| `RootList.CopyFromCursorScenario` | list.c:207-212 | after one list_for_each over [1, 2, 3], list_copy as written gives [2, 3]; the corrected copy gives [1, 2, 3] |
| `RootList.SublistScenario` | list.c:270-278 | list_sublist of [1, 2, 3, 4] from 1 to 3 is [2, 3] |
| `RootList.SublistFromCursorScenario` | list.c:270-278 | after one list_for_each over [1, 2, 3, 4], list_sublist from 1 to 3 is [3] |
| `CList.NodeFind` | C/List.c:46-53 | _list_node_find returns the start node for index 0 or -1 and otherwise follows one link per step towards zero, ending on position j + index forward or j + index + 1 backward, which is null one step past either end |
| `CList.List.constructor` | C/List.c:76-82 | _list_create: an empty list, then the first `size` values pushed with List_pushArray when values are given; the cursor on the head |
| `CList.List.NodeAt` | C/List.c:60-69 | _list_node_at finds the node a signed index names, from the head for index >= 0 and from the tail otherwise, and NULL for size and -(size + 1) |
| `CList.List.At` | C/List.c:71-73 | _list_at returns the element the signed index names |
| `CList.List.PushBack` | C/List.c:88-100 | List_pushBack appends a copy of the item; the first node of an empty list also becomes the cursor |
| `CList.List.PushFront` | C/List.c:103-115 | List_pushFront prepends a copy of the item and puts the cursor on it |
| `CList.List.Push` | C/List.c:118-157 | List_push on an empty list is List_pushFront whatever the index; otherwise it inserts before (index >= 0) or after (index < 0) the named element, and changes nothing when the index is size or -(size + 1) or when the new node's malloc fails |
| `CList.List.InsertBefore` | C/List.c:130-137 | the splice for index >= 0 inserts at the named position and takes over head and cursor only at the head |
| `CList.List.InsertAfter` | C/List.c:140-148 | the splice for index < 0 inserts just after the named position |
| `CList.List.PopAsWritten` | C/List.c:160-184 | List_pop as written: NULL and no change on an empty list or for index size or -(size + 1); otherwise the element is removed and returned and the remaining nodes stay linked, but only index 0 moves the head and only index -1 moves the tail |
| `CList.List.Release` | C/List.c:173-178 | the common end of List_pop removes position p and returns its data, leaving the remaining nodes linked and the ends and the cursor as they were |
| `CList.List.Pop` | C/List.c:160-184 | List_pop corrected: NULL and no change where List_pop finds no node; otherwise the element is removed and returned, and whichever end it was moves past it, so the list stays well formed |
| `CList.List.PopBack` | C/List.c:187-189 | List_popBack, through List_pop as written, removes and returns the tail, NULL on an empty list; `head` and the cursor stay, so popping the only element leaves `head` on the freed node and the list invalid |
| `CList.List.PopFront` | C/List.c:192-194 | List_popFront, through List_pop as written, removes and returns the head and puts `head` and the cursor on its successor, NULL on an empty list; `tail` stays, so popping the only element leaves it on the freed node and the list invalid |
| `CList.List.Resize` | C/List.c:197-210 | List_resize grows with zeros or trims from the tail by the difference taken as a 32-bit int; trimming pops as List_pop(-1) as written, so the cursor stays and trimming to empty leaves `head` on the freed first node; growing a non-empty list leaves the cursor on the same node at the same position |
| `CList.List.ForEach` | C/List.c:213-221 | List_forEach hands out the elements in order, then NULL once while rewinding to the head; the list is unchanged |
| `CList.List.PushArray` | C/List.c:247-254 | List_pushArray appends the values in order |
| `CList.List.ToArray` | C/List.c:257-266 | List_toArray returns a new array holding the elements head first |
| `CList.List.Unlink` | C/List.c:160-184 | the unlinking of the corrected List_pop removes exactly position i and returns its data |
| `CList.EndOnPoppedNode` | C/List.c:160-184 | a list whose head or tail is left on a popped node breaks the chain invariant, whatever the other fields |
| `CList.TailPopScenario` | C/List.c:171 | List_pop(2) on [1, 2, 3] removes 3, but `tail` stays on the freed node and the list is no longer valid |
| `CList.SinglePopBackScenario` | C/List.c:167-170 | List_pop(-1) on [7] empties the list, yet `head` and the cursor stay on the freed node |
| `CList.TailPopCorrected` | C/List.c:160-184 | the corrected pop of index 2 from [1, 2, 3] leaves a valid list [1, 2] |
| `CList.SinglePopBackCorrected` | C/List.c:160-184 | the corrected pop of index -1 from [7] leaves a valid empty list with null ends and cursor |
| `CList.ArrayRoundTrip` | C/List.c:247-266 | List_toArray after List_pushArray onto an empty list returns exactly the pushed values |
| `CList.ForEachScenario` | C/List.c:213-221 | List_forEach over [1, 2] yields 1, 2, NULL and then 1 again |
| `CList.PushScenario` | C/List.c:118-157 | pushing at index 1 and at index -1 of [1, 3] builds [1, 2, 3, 4] |
| `CList.PushEmptyScenario` | C/List.c:122-123 | List_push on an empty list is List_pushFront, whatever the index |
| `CList.BoundaryScenario` | C/List.c:124-126 | on [1, 2], List_push at 2 and at -3 inserts nothing and List_pop at 2 and at -3 returns NULL, leaving [1, 2] |
| `CListH.NewNode` | C/List.h:21-29 | new_node returns a detached node, or NULL when malloc fails |
| `CListH.List.constructor` | C/List.h:60 | ListCreate: an empty list with null ends and the element width |
| `CListH.List.InternalPushBack` | C/List.h:67-79 | internal_push_back links a new tail (the head of an empty list too) and returns it; on malloc failure NULL and nothing changes |
| `CListH.List.InternalPushFront` | C/List.h:88-100 | internal_push_front links a new head and returns it; on malloc failure NULL and nothing changes |
| `CListH.List.InternalPopBack` | C/List.h:112-129 | internal_pop_back: NULL on an empty list, otherwise a detached node carrying the tail's data with the tail removed, both ends null when it was the only node |
| `CListH.List.InternalPopFront` | C/List.h:142-159 | internal_pop_front: the mirror image at the head |
| `CListH.List.Unlink` | C/List.h:30-37 | del_node on node i with the ends moved past it removes exactly position i |
| `CListH.List.Store` | C/List.h:84 | the macro's store through the returned pointer changes only that element |
| `CListH.List.PushBack` | C/List.h:81-85 | push_back appends the value, or changes nothing when malloc fails |
| `CListH.List.PushFront` | C/List.h:102-106 | push_front prepends the value, or changes nothing when malloc fails |
| `CListH.List.PopBack` | C/List.h:131-139 | pop_back returns the tail's value and removes it, or the zero value on an empty list |
| `CListH.List.PopFront` | C/List.h:161-169 | pop_front returns the head's value and removes it, or the zero value on an empty list |
| `CListH.EndsScenario` | C/List.h:81-169 | pushes at both ends build [0, 1, 2]; pop_back gives 2, pop_front 0, and an empty list gives 0 |
| `CListH.FailedPushScenario` | C/List.h:67-85 | a push whose malloc fails leaves the list as it was |
| `SLink.StackedPush` | src/stack.c:23-32 | a new node linked in front of a well-formed chain stacks its element on top |
| `SLink.StackedPop` | src/stack.c:35-44 | without its top node, a chain starts at the top's `next` and holds the rest |
| `SLink.StackedReversed` | src/stack.c:104-108 | nodes whose links all point the other way, with the old top ending the chain, form the stack of the reversed contents topped by the old bottom |
| `SrcStack.Stack.constructor` | src/stack.c:5-15 | stack_create pushes the first initial_size values in order, so the last value kept is on top; a value whose push's malloc fails is dropped, and when every push succeeds the stack holds all of them |
| `SrcStack.Stack.PushValues` | src/stack.c:11-13 | the loop of stack_create pushes the values in order onto the empty stack; it ends holding, top first, the values whose push succeeded, last one on top |
| `SrcStack.Stack.Push` | src/stack.c:23-32 | stack_push puts the element on top and leaves everything below unchanged; when malloc fails the stack is left as it was |
| `SrcStack.Stack.Pop` | src/stack.c:35-44 | stack_pop returns the top element, removes it and keeps the node in `pop` |
| `SrcStack.Stack.At` | src/stack.c:46-53 | stack_at returns the element `index` places up from the bottom |
| `SrcStack.Stack.Value` | src/stack.c:55-57 | stack_value is the bottom element |
| `SrcStack.Stack.ToArray` | src/stack.c:59-68 | stack_to_array writes the elements bottom first |
| `SrcStack.Stack.Copy` | src/stack.c:70-75 | stack_copy returns a new stack of the same width holding, bottom first, the elements whose push succeeded; when every push succeeds it has the same elements and size |
| `SrcStack.Stack.Clear` | src/stack.c:77-83 | stack_clear leaves an empty stack with no head and no kept node |
| `SrcStack.Stack.Reverse` | src/stack.c:96-109 | stack_reverse leaves the same nodes holding the reversed contents |
| `SrcStack.Stack.Install` | src/stack.c:108 | the new head installs a chain built from the stack's own nodes |
| `SrcStack.Stack.Collect` | src/stack.c:98-103 | the first loop of stack_reverse collects the nodes top first |
| `SrcStack.PointBack` | src/stack.c:104-107 | the second loop points every node but the first at the one before it, and the old top at nothing |
| `SrcStack.Stack.Equals` | src/stack.c:111-123 | stack_equals is true exactly when sizes, widths and contents agree |
| `SrcStack.CreateRoundTrip` | tests/test_stack.c:49-59 | creating from values puts the last one on top, and stack_to_array gives the values back in order |
| `SrcStack.AtScenario` | tests/test_stack.c:83-103 | in [1, 2, 3, 4] stack_at(0) is 1, stack_at(3) is 4 and stack_value is 1 |
| `SrcStack.CopyScenario` | tests/test_stack.c:73-81 | a copy made while every push succeeds equals its source |
| `SrcStack.CopyThenPopScenario` | tests/test_stack.c:73-81 | after the source is popped, the copy no longer equals it |
| `SrcStack.ReverseScenario` | tests/test_stack.c:61-71 | reversing the stack created from [1, 2, 3, 4] makes stack_to_array give [4, 3, 2, 1] |
| `SrcStack.ReversedStack` | src/stack.c:96-109 | for any values, stack_create with every push succeeding and then stack_reverse give a stack whose elements, bottom first, are the values back to front |
| `SrcStack.FailedPushScenario` | src/stack.c:5-15 | creating from [1, 2, 3] when the second push's malloc fails gives [1, 3], 3 on top |
| `SrcStack.ClearScenario` | tests/test_stack.c:24-31 | stack_clear leaves size 0, no head and no kept node |
| `RootStack.Stack.constructor` | stack.c:5-12 | _stack_create pushes the first `size` values in order, so the last kept is on top; a value whose push's malloc fails is dropped, and when every push succeeds the stack holds all of them |
| `RootStack.Stack.Push` | stack.c:20-28 | stack_push puts the element on top and leaves everything below unchanged; when malloc fails the stack is left as it was |
| `RootStack.Stack.Pop` | stack.c:31-39 | stack_pop returns the top element, removes it and keeps the node in `pop` |
| `RootStack.Stack.Clear` | stack.c:41-46 | stack_clear leaves an empty stack with no kept node |
| `RootStack.Stack.Reverse` | stack.c:48-53 | stack_reverse returns a new stack holding the values whose push succeeded in the opposite order (all of them reversed when every push succeeds), leaves this one empty with `pop` on its old bottom node |
| `RootStack.Stack.MoveAll` | stack.c:50-51 | the loop of stack_reverse pops every value and pushes it onto the result, which ends holding the values whose push succeeded in the opposite order |
| `RootStack.Stack.MoveTop` | stack.c:50-51 | one step of stack_reverse pops the top of this stack and pushes it onto the result, where it lands only when that push succeeds |
| `RootStack.ReverseScenario` | stack.c:48-53 | reversing a stack built from 1, 2, 3 (3 on top) gives 1 on top, then 2, and empties the source |
| `RootStack.PopScenario` | stack.c:31-46 | values come off in the opposite order to creation, and stack_clear leaves nothing |
| `RootStack.CreateReversed` | stack.c:48-53 | for any values, _stack_create with every push succeeding and then stack_reverse give a new stack with the first value on top and empty the source |
| `RootStack.LostInReverseScenario` | stack.c:48-53 | reversing 1, 2, 3 (3 on top) when the push of 2 fails gives a stack of two, 1 on top of 3 |
| `RootStack.LostInReverse` | stack.c:48-53 | pushing 3, 2, 1 in turn with the push of 2 failing keeps 3 under 1 |
| `GdataStack.Stack.constructor` | gdata/stack.c:4-11 | _stack_create pushes the first `size` values in order, so the last is on top |
| `GdataStack.Stack.Push` | gdata/stack.c:16-25 | _stack_push puts a copy of the element on top and leaves everything below unchanged |
| `GdataStack.Stack.Pop` | gdata/stack.c:30-35 | _stack_pop hands over the top node itself, off the stack, with the rest unchanged |
| `GdataStack.Stack.Find` | gdata/stack.c:43-53 | _stack_find returns -1 exactly when the value is absent, otherwise the bottom-based position of its topmost occurrence |
| `GdataStack.Depth` | gdata/stack.c:46-51 | the depth of the first match from the top: no match above it, a match at it, and the length exactly when there is none |
| `GdataStack.ReversedPalindrome` | gdata/stack.c:4-11 | [1, 2, 1] pushed in order reads 1, 2, 1 from the top |
| `GdataStack.FindScenario` | gdata/stack.c:43-53 | finding 1 in [1, 2, 1] reports the topmost match, position 2 |
| `GdataStack.FindPopScenario` | gdata/stack.c:30-53 | in [1, 2, 1] 2 is at position 1 and 3 is absent; _stack_pop hands over the top node holding 1 |
| `SrcHeap.RootExtreme` | src/heap.c:7-8 | in a heap the root may sit above every stored slot: it is the maximum of a MAX_HEAP and the minimum of a MIN_HEAP |
| `SrcHeap.RootExtremeAll` | src/heap.c:79-92 | the same for every stored element, so heap_pop returns the most relevant value |
| `SrcHeap.UpStep` | src/heap.c:14-20 | one swap of heap_upheapify moves the only disorder up to the parent |
| `SrcHeap.DownStep` | src/heap.c:53-54 | one move of heap_downheapify lets the chosen child fill the hole, which moves down to it |
| `SrcHeap.UpDone` | src/heap.c:9-23 | heap_upheapify stops with a heap, at the root or where the parent may sit above the slot |
| `SrcHeap.DownDone` | src/heap.c:49-56 | once the carried element may sit above the hole's children, storing it completes the heap |
| `SrcHeap.UpdateStored` | src/heap.c:75 | overwriting a stored slot trades its element for the new one |
| `SrcHeap.SwapStored` | src/heap.c:16-19 | exchanging two stored slots keeps the elements |
| `SrcHeap.HoleStored` | src/heap.c:53-56 | moving a child into the hole and the carried element with it keeps the elements |
| `SrcHeap.Heap.constructor` | src/heap.c:59-70 | heap_create: an empty heap with `size` slots of room, the first `size` slots zeroed, and the comparator, width and order stored |
| `SrcHeap.Heap.Insert` | src/heap.c:72-77 | heap_insert adds exactly the element, keeps the heap order and leaves slot 0 alone |
| `SrcHeap.Heap.Put` | src/heap.c:75 | the store of heap_insert changes only slot i |
| `SrcHeap.Heap.UpHeapify` | src/heap.c:3-24 | heap_upheapify restores heap order from a new last element and keeps the elements |
| `SrcHeap.Heap.SwapUp` | src/heap.c:16-19 | one swap exchanges slot k and its parent and nothing else |
| `SrcHeap.Heap.Pop` | src/heap.c:80-92 | heap_pop returns the old root, which may sit above every element, leaves it in slot 0, removes exactly it, zeroes the old last slot and keeps the heap order |
| `SrcHeap.Heap.MoveRoot` | src/heap.c:85-87 | the three stores of heap_pop: root to slot 0, last to the root, zero to the last slot |
| `SrcHeap.Heap.DownHeapify` | src/heap.c:26-57 | heap_downheapify restores heap order from a misplaced root, keeps the elements and leaves slot 0 and the slots past the heap alone |
| `SrcHeap.Heap.Child` | src/heap.c:38-48 | the child compared is the right one exactly when it exists and must sit above the left |
| `SrcHeap.Heap.MoveUp` | src/heap.c:53 | one move copies the child into the hole and changes nothing else |
| `SrcHeap.InsertHole` | src/heap.c:74-75 | a new element after the last slot is out of place only against its parent, and the stored elements gain it |
| `SrcHeap.PopSlots` | src/heap.c:85-89 | after the moves of heap_pop, the stored slots hold the old elements minus the root |
| `SrcHeap.PopHole` | src/heap.c:85-89 | after the same moves the stored slots are a heap except at the root |
| `SrcHeap.MaxHeapScenario` | tests/test_heap.c:29-51 | three values pushed into a MAX_HEAP come back largest first |
| `SrcHeap.MinHeapScenario` | src/heap.c:80-92 | in a MIN_HEAP they come back smallest first, and each pop leaves its value in slot 0 |
| `SrcArray.Array.constructor` | src/array.c:6-9 | the block malloc returns, with the header's size and width set over a buffer |
| `SrcArray.Create` | src/array.c:5-16 | array_create: NULL exactly when malloc fails; otherwise `initial_size` elements holding the first initial values, or zeros when they are NULL |
| `SrcArray.ResizeAsWritten` | src/array.c:18-23 | array_resize as written: grown in place the block reports the new size; moved, the size lands in the released block and the returned block keeps the old size over the new room |
| `SrcArray.Resize` | src/array.c:18-23 | array_resize with the size stored in the returned block: new_size elements, the first min(old, new) kept |
| `SrcArray.Join` | src/array.c:25-35 | array_join returns a new block of A.size + B.size elements, A's followed by B's |
| `SrcArray.Slice` | src/array.c:37-42 | array_slice returns a new block holding exactly elements [begin, end), NULL when malloc fails |
| `SrcArray.Equals` | src/array.c:44-50 | array_equals is true exactly when sizes, widths and elements agree |
| `SrcArray.JoinSliceRoundTrip` | src/array.c:25-42 | slicing a join at the length of its left part gives both parts back |
| `SrcArray.JoinScenario` | tests/test_array.c:28-40 | [1, 2, 3] joined with [4, 5, 6] equals [1, 2, 3, 4, 5, 6], and no longer once one element changes |
| `SrcArray.SliceScenario` | tests/test_array.c:42-56 | the slice [2, 4) of [1, 2, 3, 4] has two elements and equals [3, 4], not [2, 3] |
| `SrcArray.ResizeMovedScenario` | src/array.c:18-23 | growing [1, 2, 3, 4] to six: in place the header reads 6, moved it still reads 4 over six slots |
| `SrcArray.ResizeScenario` | tests/test_array.c:17-26 | with the store fixed, growing [1, 2, 3, 4] to six keeps the four values and counts six |
| `SizeHeader.ReallocBlock` | array.c:22 | realloc of a size-prefixed block gives a new block whose header is copied and whose first min(old, new) elements are kept |
| `RootArray.Alloc` | array.c:8-18 | _array_alloc: NULL exactly when malloc fails, otherwise header `size` and the first `size` values, or zeros |
| `RootArray.Realloc` | array.c:20-25 | _array_realloc reallocates the caller's block to new_size elements, sets the header, keeps the first min(old, new) elements and repoints the caller's variable |
| `RootArray.Join` | array.c:27-44 | _array_join returns a new block with header a_size + b_size holding a's elements followed by b's |
| `RootArray.AppendAsWritten` | array.c:47-58 | _array_append as written reads the length from the caller's pointer, so the header becomes that address + b_size and b's elements land at that position |
| `RootArray.Append` | array.c:47-58 | _array_append with the length read from the header: the caller's array becomes its old elements followed by b's |
| `RootArray.AppendScenario` | array.c:47-58 | [1, 2] at address 4096 appended with [3]: as written the header becomes 4097; corrected it is 3 and the elements equal _array_join's |
| `RootArray.ReallocScenario` | array.c:20-25 | growing [1, 2, 3] to five through the caller's variable keeps the three and counts five |
| `GdataArray.Alloc` | gdata/array.c:11-17 | _array_alloc: header `size` and the first `size` values, or the zeros calloc leaves |
| `GdataArray.Realloc` | gdata/array.c:19-23 | _array_realloc returns a block with header new_size whose first min(old, new) elements are kept |
| `GdataArray.ReallocScenario` | gdata/array.c:19-23 | [1, 2, 3] grown to five keeps its three; cut to two it keeps [1, 2] |
| `GdataArray.ZeroScenario` | gdata/array.c:11-17 | without values every element is zero |
| `CArray.ElementsDisjoint` | C/Array.c:13-15 | _array_at addresses: consecutive elements occupy disjoint ranges of data_size bytes |
| `CArray.ElementAddress` | C/Array.c:13-15 | _array_at: element 0 is at the data pointer and each next element data_size bytes further |
| `CArray.DataOffsetAsWritten` | C/Array.c:24 | as written, the data pointer lies 39 structs past where the elements begin |
| `CArray.DataOffset` | C/Array.c:21-24 | the elements begin right after the header calloc allocates |
| `CArray.LastElementOutsideAsWritten` | C/Array.c:24 | with the data pointer set as written, the last element ends past the block calloc returned, for every size and width |
| `CArray.ElementsInside` | C/Array.c:21-24 | with the data one struct past the header, every element lies inside the block after the header |
| `CArray.Indices` | C/Array.c:40-45 | the positions lo .. hi - 1 in order |
| `CArray.Array.constructor` | C/Array.c:20-30 | _array_create: `size` elements, each copied from the values when given, else zero; iterator 0 and no destructor |
| `CArray.Array.Realloc` | C/Array.c:7-10 | _array_realloc sets the size; the model gives the array a new element buffer of new_size slots whose first min(old, new) are the old elements (the source's discarded realloc is under "Left out") |
| `CArray.Array.Resize` | C/Array.c:32-37 | Array_resize sets the size either way and reallocates exactly when growing or shrinking below a fifth |
| `CArray.Array.ForEach` | C/Array.c:40-45 | Array_forEach returns the position under the iterator and advances; past the end NULL and the iterator returns to 0 |
| `CArray.Array.Clear` | C/Array.c:48-53 | Array_clear hands every remaining position to the destructor when one is set (leaving the iterator at 0), then zeroes the elements |
| `CArray.Array.Walk` | C/Array.c:49-51 | the destructor loop visits the positions from the iterator to the end, in order, and leaves the iterator at 0 |
| `CArray.IndicesSnoc` | C/Array.c:50-51 | one more visited position extends the walk by one |
| `CArray.ForEachScenario` | C/Array.c:40-45 | walking [1, 2, 3] gives positions 0, 1, 2, then NULL, then 0 again |
| `CArray.ClearScenario` | C/Array.c:48-53 | clearing after one step destroys positions 1 and 2 and zeroes all three |
| `CArray.ResizeScenario` | C/Array.c:32-37 | from ten elements, three keeps the buffer; one and then five reallocate |
| `SrcDict.Djb2` | src/dict.c:19-28 | djb2 of a key is a `size_t` value, below 2^64 |
| `SrcDict.Djb2Wraps` | src/dict.c:19-28 | reducing after every step of the recurrence gives the exact djb2 value (5381, then 33 * h + c) taken modulo 2^64 |
| `SrcDict.ModShift` | src/dict.c:24-25 | adding a multiple of 2^64 does not change a `size_t` result |
| `SrcDict.WrapStep` | src/dict.c:25 | `((h << 5) + h) + c` in wrapping `size_t` arithmetic is 33 * h + c modulo 2^64 |
| `SrcDict.Hash` | src/dict.c:19-28 | the hash loop over the bytes of any C string computes djb2 of it |
| `SrcDict.Djb2Small` | src/dict.c:19-28 | the hash of "" is the seed 5381 and of "a" is 5381 * 33 + 97 |
| `SrcDict.Bucket` | src/dict.c:49 | `hash(key) % max_size` names one of the `max_size` buckets |
| `SrcDict.Placed` | src/dict.c:48-79 | under the bucket invariant every key of the map sits, once, in the chain of its bucket at its recorded position |
| `SrcDict.Found` | src/dict.c:54-62 | a key met while walking its bucket's chain is in the map, with the value and destructor of that pair |
| `SrcDict.Absent` | src/dict.c:89-98 | a key its bucket's chain does not hold is not in the map |
| `SrcDict.Append` | src/dict.c:64-74 | appending a new key's pair at the end of its bucket keeps the bucket invariant and adds exactly that key to the map |
| `SrcDict.Replace` | src/dict.c:55-58 | replacing the value and destructor of a found pair keeps the bucket invariant and updates that key alone |
| `SrcDict.ChainCallsHas` | src/dict.c:115-120 | walking a chain calls the destructor of every pair that has one |
| `SrcDict.TableCallsHas` | src/dict.c:112-122 | every call of a bucket's walk is a call of dict_clear |
| `SrcDict.AllReleased` | src/dict.c:112-122 | dict_delete calls each key's destructor, when it has one, on the value set last for it |
| `SrcDict.ChainCallsFrom` | src/dict.c:115-120 | every call of a chain's walk is the destructor and value of one of its pairs |
| `SrcDict.TableCallsFrom` | src/dict.c:112-122 | every call of dict_clear is the destructor and value of a pair of some bucket |
| `SrcDict.OnlyReleased` | src/dict.c:112-122 | dict_delete calls destructors only on values the map holds, each with the destructor set for it |
| `SrcDict.Dict.constructor` | src/dict.c:30-36 | dict_create gives `hashtable_size` empty buckets, length 0 and an empty map |
| `SrcDict.Dict.Size` | src/dict.c:44-46 | dict_size is the number of distinct keys set |
| `SrcDict.Dict.Set` | src/dict.c:48-79 | dict_set on a key present replaces its value and destructor, length unchanged; on a new key appends a pair at the end of bucket `hash % max_size` and adds one to length; when malloc fails nothing changes; other buckets are untouched and the bucket invariant is kept |
| `SrcDict.Dict.Update` | src/dict.c:54-58 | the found pair takes the new value and destructor; map updated at that key, length unchanged |
| `SrcDict.Dict.Insert` | src/dict.c:64-74 | a new pair at the end of the key's chain; map extended with the key, length one more |
| `SrcDict.Dict.SetObj` | src/dict.c:81-83 | dict_set with `free` as destructor |
| `SrcDict.Dict.SetRef` | src/dict.c:85-87 | dict_set with no destructor |
| `SrcDict.Dict.Get` | src/dict.c:89-98 | dict_get of any C string: the value last set for the key, or NULL when it was never set, and always NULL for a key of DICT_MAX_KEY_SIZE bytes or more, since no stored key is that long |
| `SrcDict.Dict.Delete` | src/dict.c:112-122 | the destructor calls dict_delete makes through dict_clear, bucket by bucket and head first; every key with a destructor is released and nothing else is |
| `SrcDict.Search` | src/dict.c:54-62 | the walk of a chain finds the first pair holding the key, or reports that no pair does |
| `SrcDict.Release` | src/dict.c:115-120 | walking a chain from its head calls each pair's destructor in chain order |
| `SrcDict.AppendedAsWritten` | src/dict.c:64-73 | dict_set's append as written: the chain's pairs gain the new pair at the end, the old last pair's `next` is assigned and the new pair's is left uninitialised, so a chain built from empty always ends on an uninitialised link |
| `SrcDict.AppendedCorrected` | src/dict.c:64-73 | the append with the new pair's `next` set to NULL: same pairs, and a chain with every link assigned keeps every link assigned |
| `SrcDict.WalkReads` | src/dict.c:54-61 | the walks of dict_set and dict_get read the `next` of exactly the pairs before the first one holding the key, or of every pair when none does |
| `SrcDict.MissingKeyReadsUninitialised` | src/dict.c:54-73 | as written, looking for a key missing from a non-empty bucket reads the uninitialised `next` of its last pair |
| `SrcDict.ClearReadsUninitialised` | src/dict.c:112-122 | as written, dict_clear of any non-empty bucket reads an uninitialised link |
| `SrcDict.SecondKeyScenario` | src/dict.c:54-73 | after the first dict_set into an empty bucket, looking for any other key in that bucket reads the new pair's unwritten `next` and nothing else |
| `SrcDict.CorrectedReadsAssigned` | src/dict.c:54-73 | with every link assigned, neither walk nor dict_clear reads an uninitialised link |
| `SrcDict.AddingScenario` | tests/test_dict.c:38-47 | three distinct keys set in turn give length 3 |
| `SrcDict.ReadBackScenario` | tests/test_dict.c:80-96 | each of two keys reads back the value set for it |
| `SrcDict.UpdatingScenario` | tests/test_dict.c:63-77 | setting a key again replaces its value and keeps length 1; a key never set reads as NULL |
| `SrcDict.LostScenario` | src/dict.c:64-65 | a new key whose pair malloc cannot allocate is not added |
| `SrcDict.DeleteScenario` | tests/test_dict.c:50-60 | dict_delete frees the value set with dict_setobj and leaves the one set with dict_setref alone |
| `CString.Renamed` | C/String.c:4-15 | String_rename, also reallocating when the text and its terminator do not fit the buffer: the text becomes the new one with size its length, the buffer is kept when the text fits and is not under a fifth of alloc_size, a new one of len + 1 bytes is taken when it is longer than alloc_size or does not fit, and a sound string stays sound |
| `CString.RenameOverflows` | C/String.c:7-14 | as written, a non-empty text exactly alloc_size long keeps the buffer and strcpy writes its terminator past it |
| `CString.RenameAgrees` | C/String.c:4-15 | wherever String_rename as written stays inside the buffer it gives the same string as the corrected one |
| `CString.RenamedAsWritten` | C/String.c:4-15 | String_rename as written holds the text with size its length when it stays in the buffer, and writes past it exactly when the text is not longer than alloc_size, not under a fifth of it, and does not fit the buffer |
| `CString.CreateEmpty` | C/String.c:34-39 | StringCreate("") keeps the one-byte buffer with alloc_size 0, as written and corrected, and that string is sound |
| `CString.Appended` | C/String.c:17-32 | String_append with size kept up to date: the text is the old text followed by the new one, and a sound string stays sound |
| `CString.AppendLeavesSize` | C/String.c:17-32 | as written, String_append extends the text but never changes `size` |
| `CString.AppendedAsWritten` | C/String.c:17-32 | String_append as written, when it stays in the buffer, holds the concatenation with `size` unchanged |
| `CString.AppendTwiceOverflows` | C/String.c:17-32 | as written, "ab" appended with "c" then "d" decides from the stale size that the 4-byte buffer has room and writes past it |
| `CString.AppendTwiceFixed` | C/String.c:17-32 | with size kept, the same two appends give "abcd" |
| `CString.Copied` | C/String.c:62-67 | String_copy that also copies size and alloc_size into a buffer as long as the original's: same text, and from a sound string the identical layout |
| `CString.CopiedAsWritten` | C/String.c:62-67 | String_copy as written has the same text with size and alloc_size 0 in a buffer of the old alloc_size bytes, and writes past it exactly when the text does not fit in alloc_size bytes |
| `CString.CopyEmptyOverflows` | C/String.c:62-67 | as written, copying StringCreate("") writes the terminator past a 0-byte buffer; the corrected copy is the same one-byte string |
| `CString.Joined` | C/String.c:69-73 | String_join with the corrected copy and append: the concatenation of the two texts, sound when the first string is |
| `CString.JoinedAsWritten` | C/String.c:69-73 | String_join as written, when it stays in the buffer, holds the concatenation with size 0 |
| `CString.JoinOverflows` | C/String.c:62-73 | as written, the copy has size and alloc_size 0, so joining any non-empty string writes the first text into a buffer of len + 1 bytes, past its end |
| `CString.String.constructor` | C/String.c:34-39 | StringCreate holds the text, size its length, in the layout String_rename gives a blank one-byte string: a buffer of len + 1 bytes and alloc_size len + 1, except that the empty text keeps the one byte with alloc_size 0 |
| `CString.String.Of` | C/String.c:62-66 | the struct String_copy fills in, with the given buffer, size and alloc_size |
| `CString.String.Rename` | C/String.c:4-15 | the text becomes `t`, in the layout of the corrected String_rename, with a fresh buffer whenever it moves |
| `CString.String.Append` | C/String.c:17-32 | the text becomes the old text followed by `t`, in the layout of the corrected String_append |
| `CString.String.CatInPlace` | C/String.c:19-20 | strcat into a buffer with room leaves the old text followed by `t` and its terminator |
| `CString.String.CatMoved` | C/String.c:22-27 | a new buffer of size + len + 1 bytes holding the old text followed by `t` and its terminator |
| `CString.String.Copy` | C/String.c:62-67 | a new string, with a new buffer as long as this one's, holding the same text, size and alloc_size (the corrected String_copy) |
| `CString.StrLen` | C/String.c:5 | strlen is the position of the terminator, the text's length |
| `CString.StrCpy` | C/String.c:14 | strcpy puts the text and its terminator at the start of the destination and leaves the rest of it alone |
| `CString.Join` | C/String.c:69-73 | a new string whose text is a's followed by b's, in the layout of the corrected String_join |
| `CString.Equals` | C/String.c:75-77 | String_equals holds exactly when the two texts are equal |
| `CString.AppendScenario` | C/String.c:17-32 | "ab" appended with "c" and "d" reads "abcd", with size 4 |
| `CString.RenameScenario` | C/String.c:4-15 | "ab" renamed to "abc" reallocates to 4 bytes and reads "abc" |
| `CString.JoinScenario` | C/String.c:69-77 | "ab" joined with "cd" equals "abcd" but not "abdc" |
| `SortH.SwapKeeps` | src/utils/sort.h:9 | the swap macro keeps the multiset of values |
| `SortH.NewMinimumReadsBelow` | src/utils/sort.h:15-19 | as written, when every value of the sorted prefix exceeds the new one, the last position the inner loop reads is -1 |
| `SortH.InnerReadsAsWritten` | src/utils/sort.h:15-19 | as written, the inner loop reads consecutive positions down from i, passing only values greater than `curr`, and stops at the first value not greater or at position -1 |
| `SortH.InsertionReadsBelowExample` | src/utils/sort.h:12-20 | sorting [2, 1], the loop at j = 1 reads positions 0 and then -1 |
| `SortH.InsertionSort` | src/utils/sort.h:12-23 | insertion_sort with `i >= 0 && array[i] > curr` leaves the array sorted and a permutation of its old contents |
| `SortH.Insert` | src/utils/sort.h:14-20 | iteration j places array[j] into the sorted prefix: [0, j] sorted, the multiset unchanged |
| `SortH.Gap` | src/utils/sort.h:16-20 | the inner loop's exit state, with `curr` stored at i + 1, is the insertion: sorted through j and the same multiset |
| `SortH.InsertKeeps` | src/utils/sort.h:17-20 | taking a value out of position j and putting it back after position i keeps the multiset |
| `SortH.InsertSorts` | src/utils/sort.h:16-20 | the value placed after the last prefix value not greater than it leaves [0, j] sorted |
| `SortH.Put` | src/utils/sort.h:20 | one store changes that position only |
| `SortH.PassFrom` | src/utils/sort.h:28-31 | one pass of bubble_sort over memory keeps its length and leaves the memory after `last` alone |
| `SortH.BubbleAsWritten` | src/utils/sort.h:25-35 | bubble_sort as written over memory keeps its length and leaves the memory after position `last` alone |
| `SortH.PassFromSettles` | src/utils/sort.h:28-31 | a pass as written carries the largest value of [0, last] to `last`, leaving the positions from there on settled and the multiset unchanged |
| `SortH.BubbleAsWrittenSorts` | src/utils/sort.h:25-35 | bubble_sort as written sorts the memory [0, last] it walks and only moves values among it |
| `SortH.SortsWithCell` | src/utils/sort.h:25-35 | on an array followed by one more cell, bubble_sort as written sorts all n + 1 values, so the array keeps the smallest n of them |
| `SortH.BubbleLosesValue` | src/utils/sort.h:25-35 | as written, sorting [3] when the cell after it holds 1 leaves [1] in the array and moves 3 outside it |
| `SortH.BubbleSort` | src/utils/sort.h:25-35 | bubble_sort with the comparisons bounded by i + 1 < last_sorted_index leaves the array sorted and a permutation of its old contents |
| `SortH.Pass` | src/utils/sort.h:28-33 | one pass carries the largest value of [0, last) to last - 1, keeping the multiset and the settled suffix |
| `SortH.SettleOne` | src/utils/sort.h:33 | a prefix ending with its largest value lets last_sorted_index drop by one |
| `SortH.Compare` | src/utils/sort.h:29-30 | one comparison leaves at i + 1 the largest value of [0, i + 1], keeping the multiset and the settled suffix |
| `SortH.PassStep` | src/utils/sort.h:29-30 | the same comparison on values |
| `SortH.SwapNext` | src/utils/sort.h:30 | swap(array[i], array[i + 1]) exchanges those two positions only |
| `SortH.InsertionScenario` | src/utils/sort.h:12-23 | insertion_sort puts [3, 1, 2] in order |
| `SortH.BubbleScenario` | src/utils/sort.h:25-35 | bubble_sort, bounds corrected, puts [3, 1, 2] in order |
| `SortH.SortedOf312` | src/utils/sort.h:12-35 | [1, 2, 3] is the only sorted permutation of [3, 1, 2] |

## Left out

General:

- Element widths become whole elements. Byte copies of a given width become copies of one value of `T`.
- Raw pointer aliasing between containers is not modelled. Element pointers the caller keeps after a mutating call are not modelled either.
- Where the source calls `malloc`/`calloc`/`realloc` without checking the result, the model assumes the call succeeds. A NULL result in those places is a crash in the source. The reallocations of array_resize (src/array.c:20), _array_realloc (array.c:22 and gdata/array.c:20), _array_realloc of C/Array.c, String_rename and the vector growth and shrinking are among them: a failed realloc there loses the block.
- Deletion functions only release memory, so they are not modelled. These are `vector_delete`, `list_delete`, `stack_delete`, `StackDelete`, `heap_delete`, `array_delete`, `ListDelete`, `StringDelete` and `ArrayDelete`. `dict_delete` is the exception: it is modelled through the destructor calls it makes.
- The source does not check the range of an index that it dereferences. In those places the model requires the index to name an element.

Vectors:

- SrcVector.Vector.PopBack: requires a non-empty vector. vector_popback does not check, and on an empty vector `size_t` size wraps around.
- SrcVector.Vector.PopFront: requires a non-empty vector, for the same reason.
- SrcVector.Vector.Remove: requires `index < size`. vector_remove does not check it.
- SrcVector.Vector.At: requires `index < size`. vector_at is plain pointer arithmetic.
- RootVector.Vector.PopBack: requires a non-empty vector. _vec_popback does not check.
- RootVector.Vector.PopFront: requires a non-empty vector, for the same reason.
- RootVector.Vector.constructor: requires `dataSize > 0`. The trim limit 512 / dsize divides by it.

Lists:

- SrcList.List.At: requires an index in range. Out of range, list_at dereferences the NULL that _list_find returns.
- SrcList.List.Pop: requires an index in range, for the same reason. Out of range, list_pop_node dereferences NULL.
- SrcList.List.constructor: the truncation of `initial_size` to list_resize's `unsigned int` is modelled. A truncated size of 2^31 or more then meets the `int count` wrap of list_resize, which the next line leaves out.
- SrcList.List.Resize: the difference `new_size - length` goes to an `int count`. The wrap for a difference of 2^31 or more is not modelled here. The list.c and C/List.c versions do model it.
- RootList.Copy: the walk that list_copy does through list_for_each is done on a local node pointer from the cursor. The cursor is rewound once at the end. The elements copied and the cursor left behind are the same.
- RootList.List.RemoveIter: requires the cursor to stand on the list. list_pop as written (also through list_remove, list_pop_back and the trimming of list_resize) can leave it on a freed node, and list_remove_iter then reads that node's stale `back` (list.c:218-235). For example, [1, 2, 3], two list_for_each and then list_pop(-1) leave the cursor on the freed 3; list_remove_iter then detaches and frees 2 and leaves `tail` on it. This use of freed memory follows from the list.c:150-167 finding and is not modelled.
- RootList.List.Push: list_push of list.c tests the new node only around the splice (list.c:118). When malloc fails it still copies the item through the NULL pointer and increments `size`. The model assumes the allocation succeeds.
- RootList.Sublist: requires the cursor to stand on a node of the list or past its tail (`CursorAt(k)`). A cursor that list_pop as written left on a detached node is not followed by the copy.
- RootList.Copy: requires the cursor on the list in the same way.
- C/List.c List_copy, List_remove, List_clear and ListDelete are not part of this model. Their list.c counterparts are. The trimming loop of List_resize calls List_remove(-1); the model keeps its List_pop(-1) and leaves out the free or destructor call on the element.
- CListH.NewNode: the second malloc, of the node's data buffer, is assumed to succeed. Only the node's own malloc is a parameter.
- CList.NodeFind: requires the walk to end at most one step past the list. _list_node_find follows `next`/`back` without checking for NULL, so any index further out dereferences NULL; `CList.List.NodeAt`, `CList.List.Push`, `CList.List.PopAsWritten` and `CList.List.Pop` require -(size + 1) <= index <= size on a non-empty list for that reason.
- CListH.List.PopBack: internal_pop_back copies the tail's `data` pointer and then frees it in del_node. The pop_back macro therefore reads freed memory and frees that buffer a second time. The model returns the value the node held. The use after free, the double free and the leaked buffer of the new node are not modelled.
- CListH.List.PopFront: the same holds for internal_pop_front and the pop_front macro.

Stacks:

- RootStack.Stack.constructor: _stack_create of stack.c takes the struct from `malloc`, so `head`, `size` and `pop` start uninitialised. The model starts from an empty stack.
- GdataStack.Stack.constructor: the same holds for gdata/stack.c.
- GdataStack.Stack.Find: the position is an `int` that starts at size - 1. Stacks of 2^31 elements or more, where that conversion wraps, are not modelled.
- GdataStack.Stack.Push: _stack_push does not check calloc's result, so the model assumes it succeeds.
- SrcStack.Stack.Pop: requires a non-empty stack. stack_pop dereferences `head` without checking.
- RootStack.Stack.Pop: requires a non-empty stack, for the same reason.
- GdataStack.Stack.Pop: requires a non-empty stack, for the same reason.
- SrcStack.Stack.Reverse: requires at least one element. stack_reverse writes `nodes[0]` of a variable-length array of `size` entries and then dereferences it.
- The unused recursive helper _stack_reverse of src/stack.c is not modelled. stack_reverse does not call it.

Heap:

- The comparator is modelled as a comparison of integer keys, which is a total preorder. The floating-point comparators of heap.h are left out. So is the overflow of an integer comparator that subtracts.
- SrcHeap.Heap.Insert: requires `size < alloc`. heap_insert writes past the slots when the heap is full.
- SrcHeap.Heap.Pop: requires `size >= 1`. heap_pop on an empty heap wraps `size`.
- SrcHeap.Heap.constructor: the slots after the first `size` that memset leaves unset hold `zero` in the model, and the contract says nothing about them.
- The test suite calls heap_create with the size and element-width arguments swapped. The model follows heap.c's own parameter order.

Arrays:

- SrcArray.Slice: requires `begin <= end <= size`. array_slice does not check.
- SrcArray.Join: requires the two element widths to be equal. array_join of arrays with different widths is not modelled.
- CArray.Array.Realloc: _array_realloc reallocates the block of the struct itself, which holds the elements behind the header, and discards realloc's result. After a move, the caller's `Array` and its `data` pointer refer to freed memory. The model instead gives the array a new element buffer of new_size slots that keeps the first min(old, new) elements, which is what a realloc in place would leave.
- CArray.Array.Resize: Array_resize goes through _array_realloc, so the same holds for it when it reallocates.
- CArray.Array.Resize: the threshold `new_size < size * 0.2` is taken as the exact fifth, `5 * new_size < size`. The double-precision rounding of `size * 0.2` is not modelled.
- In C/Array.c, addresses are byte offsets from the start of the block. The pointer types that _array_at casts through are not modelled.

Dictionary:

- Chains are sequences of pairs, not linked nodes.
- SrcDict.Dict.Set: dict_set never writes the new pair's `next` (src/dict.c:64-73). The Dict class takes that link as NULL, the corrected behaviour under "Findings", and so do `SrcDict.Dict.Insert`, `SrcDict.Dict.Get` and `SrcDict.Dict.Delete`. As written, the walk through the uninitialised link is undefined behaviour and is not modelled.
- SrcDict.Dict.Set: requires keys shorter than DICT_MAX_KEY_SIZE (64) bytes. strncpy would store a longer key truncated and without its terminator.
- SrcDict.Dict.Set: requires `max_size > 0`. `% max_size` divides by it.
- SrcDict.Dict.Get: requires `max_size > 0`, for the same reason.
- The flag that dict_set writes into bucket 0's key (src/dict.c:75-77) is not modelled. The same goes for dict_keys, which reads that flag. Both belong to the key-listing feature.
- dict_remove is not modelled. It is not declared in dict.h, and its search loop never advances, so it does not terminate when the first key differs.
- dict_clear is modelled only as the part of dict_delete that calls the destructors.
- A destructor is a tag (none, `free`, or an opaque one). What it does to the value is outside the model.

Strings:

- String_split is not modelled, because it relies on strtok and ArrayCreateEmpty.
- The `int len` that String_append computes is taken as exact, so texts of 2^31 bytes or more are not modelled.
- CString.Renamed: String_rename's test `size < alloc_size * 0.2` is taken as the exact fifth, `5 * size < alloc_size`, here and in `CString.RenamedAsWritten` and `CString.String.Rename`. The double-precision rounding of `alloc_size * 0.2` is not modelled.
- realloc and calloc are assumed to succeed.

Sorts:

- Values are mathematical integers. The sorts only compare and move them, so `int` overflow does not arise.

## Findings

| source | as written | input that shows it | evidently intended | confidence | as-written member | corrected member |
|---|---|---|---|---|---|---|
| list.c:150-167 | list_pop moves the cursor only when the popped node is the head | [1, 2, 3], one list_for_each, then list_pop(1): the next list_for_each hands out the removed 2 | the cursor moves past the popped node | not executed | `RootList.StaleCursorScenario`, `RootList.List.PopAsWritten`, `DLink.PopStrandsCursor` | `RootList.List.Pop`, `DLink.PopKeepsCursor`, `RootList.CursorScenario` |
| list.c:207-212 | list_copy copies through list_for_each, which starts at the cursor | [1, 2, 3] after one list_for_each: the copy is [2, 3] | a copy of the whole list | not executed | `RootList.CopyFromCursorScenario`, `RootList.Copy` | `RootList.CopyAll` |
| C/List.c:160-184 | List_pop moves `head` only for index 0 and `tail` only for index -1, and never both | [1, 2, 3] with index 2 leaves `tail` on the freed node; [7] with index -1 leaves `head` and the iterator on it | both ends and the iterator leave the popped node | not executed | `CList.TailPopScenario`, `CList.SinglePopBackScenario`, `CList.EndOnPoppedNode`, `CList.List.PopAsWritten` | `CList.List.Pop`, `CList.TailPopCorrected`, `CList.SinglePopBackCorrected` |
| src/array.c:18-23 | array_resize stores the new size through the pointer it passed to realloc | [1, 2, 3, 4] grown to 6 when realloc moves the block: the returned header still reads 4 | the size stored in the block realloc returns | not executed | `SrcArray.ResizeMovedScenario`, `SrcArray.ResizeAsWritten` | `SrcArray.Resize` |
| array.c:49 | _array_append reads `a_size` from the reference, which holds the caller's pointer, not from the header | [1, 2] at address 4096 appended with [3]: the header becomes 4097 | `a_size` read from the array's header, giving [1, 2, 3] | not executed | `RootArray.AppendScenario`, `RootArray.AppendAsWritten` | `RootArray.Append` |
| C/Array.c:24 | `array + sizeof(struct array)` advances a `struct array *` by 40 structs, not 40 bytes | any array of at least one element of non-zero width: its last element ends past the calloc'd block | the data one struct past the header | not executed | `CArray.LastElementOutsideAsWritten` | `CArray.ElementsInside` |
| src/dict.c:64-73 | dict_set mallocs the new pair and links it after the chain's last pair, but never sets its `next` | an empty bucket, one dict_set, then dict_get or dict_set of another key hashing to that bucket, or dict_delete: the walk reads the new pair's unwritten `next` | the new pair's `next` set to NULL | not executed | `SrcDict.AppendedAsWritten`, `SrcDict.MissingKeyReadsUninitialised`, `SrcDict.ClearReadsUninitialised`, `SrcDict.SecondKeyScenario` | `SrcDict.AppendedCorrected`, `SrcDict.CorrectedReadsAssigned`, `SrcDict.Dict.Insert` |
| C/String.c:7-14 | String_rename keeps the buffer when the text is exactly `alloc_size` long | a string with alloc_size 3 renamed to a 3-character text: the terminator lands past the buffer | reallocate whenever the text and its terminator do not fit | not executed | `CString.RenameOverflows` | `CString.Renamed`, `CString.String.Rename` |
| C/String.c:17-32 | String_append never updates `size` | "ab" appended with "c" and then "d": the second append sees room that is not there and writes past the 4-byte buffer | `size` grows by the appended length | not executed | `CString.AppendTwiceOverflows`, `CString.AppendLeavesSize` | `CString.Appended`, `CString.String.Append`, `CString.AppendTwiceFixed` |
| C/String.c:62-73 | String_copy takes a calloc'd struct and never sets `size` or `alloc_size`, so String_join appends into a buffer sized for the second text alone | joining any non-empty string: its text is copied into a buffer of len + 1 bytes | the copy carries `size` and `alloc_size` | not executed | `CString.JoinOverflows` | `CString.Copied`, `CString.Joined`, `CString.Join` |
| C/String.c:62-67 | String_copy mallocs `alloc_size` bytes, and StringCreate("") leaves alloc_size 0 | StringCreate("") then String_copy: strcpy writes the terminator into a 0-byte buffer | a buffer that holds at least the text and its terminator | not executed | `CString.CopyEmptyOverflows`, `CString.CopiedAsWritten` | `CString.Copied`, `CString.String.Copy` |
| src/utils/sort.h:16 | `i >= 0, array[i] > curr` evaluates the bound and discards it | [2, 1]: at j = 1 the inner loop reads array[0] and then array[-1] | `i >= 0 && array[i] > curr` | not executed | `SortH.InsertionReadsBelowExample`, `SortH.NewMinimumReadsBelow` | `SortH.InsertionSort` |
| src/utils/sort.h:28-29 | the inner loop runs `i < last_sorted_index` and reads `array[i + 1]`, one past the unsorted part and, in the first pass, past the array | [3] followed in memory by 1: the array ends as [1], and 3 is written outside it | comparisons bounded by `i + 1 < last_sorted_index` | not executed | `SortH.BubbleLosesValue` | `SortH.BubbleSort` |
