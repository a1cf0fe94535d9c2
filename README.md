# Generic singly linked list, modelled in Dafny

This project models `list.c`, a generic singly linked list. Each node owns a
private copy of the caller's bytes: `data`, a buffer of `data_size` bytes. A
list handle is a pointer to the head node, and `NULL` stands for the empty
list. Positions are 1-based. The library can:

- insert at a position, at the front, at the back or in comparator order;
- read an element, as a fresh copy or through the node's own buffer;
- count the elements;
- remove an element by position, by value or by a predicate;
- find an element;
- duplicate and destroy a list.

`default_compare` is the comparator it uses when the caller passes `NULL`.

## Files

- `buffers.dfy` (module `Buffers`) holds the shared vocabulary:
  - `Buffer` is a payload (`seq<bv8>`);
  - `Option` is a pointer that may be `NULL`;
  - `Comparator` is a three-way comparison of two payloads.
- `list_spec.dfy` (module `ListSpec`) gives the meaning of every list operation on the abstract contents, a `seq<Buffer>`:
  - `Insert` and `RemoveAt` splice at a 1-based position;
  - `FirstMatch` is the result of `list_find`;
  - `OrderedIndex` is the position `list_push_ordered` chooses;
  - `Without` is the filter `list_remove_if` applies;
  - `Survivors` gives the nodes that survive it, in order.

  Lemmas relate these functions to one another.
- `compare.dfy` (module `ByteCompare`) holds `default_compare`:
  - a `memcmp`-style lexicographic order;
  - a proof that the default comparator is a total preorder;
  - the as-written version with its size arithmetic, used under Findings.
- `list.dfy` (module `GenericList`) is the imperative list:
  - `Node` has a `data` array and a mutable `next` pointer.
  - `List` is the handle (`head`) with the ghost fields `Nodes` (the chain in order), `Contents` (the payloads) and `Repr` (the footprint).
  - `Valid` ties the ghost fields to the real pointers.
  - Every list function is a method; `list_push_ordered` and `list_find` are each split into a scan and a wrapper, and `default_compare` is the function `DefaultCompare` in `compare.dfy`.
  - Each method's loops carry the cursor and index invariants of the C code. Its `ensures` states the new `Contents` through the `ListSpec` functions. It also states which nodes the chain holds (`Nodes`), and every other node stays in the chain in its old order.
  - Each insert and remove states exactly which node and buffer enter or leave the footprint (`Repr`). `RemoveIf` is the exception: it states only that the footprint shrinks (see Left out).

Representation choices:

- A copy made by the library (`malloc` plus `memcpy`) is a fresh `array<bv8>`.
- A pointer into the list (the result of `list_get_pointer_index`, of `list_insert_index` and of the remove functions) is the node's own array.
- A `NULL` data pointer or a `NULL` comparator is `None`.
- The size written through `size_t* data_size` is the returned array's `Length`.

The order of insertion follows the code. `list_push_ordered` advances only while `compare(new, e) > 0`, so a new element goes *before* the existing elements that compare equal to it (`OrderedIndexBeforeEquals`).

## Model

| member | source | states |
|---|---|---|
| ListSpec.Insert | list.c:53-91 | the contents after an insert at position index: one longer, x at position index, the elements before it unchanged, the elements after it shifted by one |
| ListSpec.RemoveAt | list.c:204-233 | the contents after removing position index: one shorter, the elements before it unchanged, the elements after it shifted down by one |
| ListSpec.InsertThenRemove | list.c:53-91 | removing the element just inserted at index gives back the old contents |
| ListSpec.RemoveThenInsert | list.c:204-233 | re-inserting a removed payload at its old position restores the contents |
| ListSpec.RemoveAtMembers | list.c:220-227 | an element was in the sequence exactly when it is still there after removing position index or is the element that stood there |
| ListSpec.FirstMatch | list.c:348-362 | -1 exactly when no element compares equal to the target; otherwise a position in range whose element compares equal, and no earlier element does |
| ListSpec.OrderedIndex | list.c:106-127 | a position in 1..length+1: every earlier element e has compare(x, e) > 0, and the element at that position (if any) has compare(x, e) <= 0 |
| ListSpec.OrderedIndexBeforeEquals | list.c:120-126 | an existing element equal to the new one stays after it once it is inserted |
| ListSpec.OrderedInsertPair | list.c:106-127 | one pair of positions of a sorted list after an ordered insert is still in order |
| ListSpec.OrderedInsertKeepsSorted | list.c:106-127 | with a total-preorder comparator, an ordered insert into sorted contents leaves them sorted |
| ListSpec.Without | list.c:305-329 | the filtered contents are no longer than the input and hold no element the predicate is true of |
| ListSpec.WithoutMembers | list.c:305-329 | an element survives the filter exactly when it was in the contents and the predicate is false of it |
| ListSpec.WithoutSubMultiset | list.c:305-329 | the filtered contents are a sub-multiset of the input: the filter adds nothing and duplicates nothing |
| ListSpec.WithoutShrinks | list.c:305-329 | the filter removes something exactly when some element satisfies the predicate; it changes nothing exactly when none does |
| ListSpec.WithoutRemoveAt | list.c:319-321 | removing one element the predicate holds of does not change the filtered contents |
| ListSpec.WithoutAll | list.c:305-329 | a predicate true of every element empties the list |
| ListSpec.Survivors | list.c:317-326 | the items whose payloads the filter keeps, in order; as many as the filtered payloads |
| ListSpec.SurvivorsMembers | list.c:317-326 | an item survives exactly when it sits at some position whose payload the predicate is false of |
| ListSpec.SurvivorsOfPayloads | list.c:305-329 | the surviving payloads are exactly the filtered contents |
| ListSpec.SurvivorsRemoveAt | list.c:319-321 | unlinking an item whose payload the predicate holds of does not change which items survive |
| ListSpec.SurvivorsAllKept | list.c:322-324 | when the predicate is false of every payload, every item survives |
| ListSpec.FilterFinished | list.c:317-328 | once every remaining payload is kept and the filter results are unchanged, the remaining payloads and items are the filter's results, and they are shorter exactly when some payload satisfied the predicate |
| ByteCompare.Sign | list.c:425 | the sign of an integer: -1, 0 or 1, negative and zero exactly when the integer is |
| ByteCompare.LexCompare | list.c:425 | memcmp on equal-size buffers: -1, 0 or 1, and 0 exactly when the buffers are equal |
| ByteCompare.LexCompareFirstDifference | list.c:425 | the first differing byte, compared unsigned, decides the sign |
| ByteCompare.LexCompareAntisymmetric | list.c:425 | swapping the operands flips the sign |
| ByteCompare.LexCompareTransitive | list.c:425 | "not greater" is transitive |
| ByteCompare.DefaultComparator | list.c:111 | `&default_compare` as a comparator, in the form of DefaultCompare (the corrected default_compare): 0 exactly for equal buffers, and buffers of different sizes are ordered by size |
| ByteCompare.DefaultCompare | list.c:420-426 | -1 for a NULL first operand; 1 for a NULL second operand only; 0 exactly for equal buffers; buffers of different sizes are ordered by size |
| ByteCompare.DefaultComparatorIsTotalPreorder | list.c:420-426 | the default comparator is antisymmetric in sign and transitive, so ordered inserts with it keep a list sorted |
| ByteCompare.Int32Of | list.c:425 | conversion to a 32-bit int keeps the value modulo 2^32 and lands in the int range |
| ByteCompare.SizeDifferenceAsWritten | list.c:425 | the size_t difference returned as int is in the 32-bit range |
| ByteCompare.DefaultCompareAsWritten | list.c:420-426 | agrees with DefaultCompare on NULL operands and on buffers of equal size |
| ByteCompare.SizeDifferenceAsWrittenSmall | list.c:425 | when the sizes differ by less than 2^31 the returned difference is the true difference |
| ByteCompare.DefaultCompareAsWrittenConflates | list.c:425 | two different buffers whose sizes differ by 2^32 compare as equal |
| ByteCompare.SizeDifferenceAsWrittenMisorders | list.c:425 | a 2^31-byte buffer compares as smaller than an empty one |
| GenericList.Node.constructor | list.c:63-64 | the new node holds the given buffer and next pointer |
| GenericList.CopyOf | list.c:86-88 | the malloc plus memcpy of data_size bytes: a fresh buffer holding exactly the source bytes |
| GenericList.CompareOrDefault | list.c:111 | the caller's comparator when it is not NULL; otherwise one that agrees with DefaultCompare (the corrected default_compare) on every pair of buffers |
| GenericList.List.constructor | list.c:23 | the new list is empty and valid |
| GenericList.List.SplicedValid | list.c:63-79 | linking a fresh node into the chain at one position, with no other link changed, keeps the list valid |
| GenericList.List.UnlinkedValid | list.c:220-227 | unlinking one node and giving it up, with no other link changed, keeps the list valid |
| GenericList.List.LinkFront | list.c:61-66 | a fresh node holding a fresh copy of x becomes the head; the contents become Insert at 1 |
| GenericList.List.LinkAfter | list.c:75-80 | a fresh node holding a fresh copy of x follows node k+1; the contents become Insert at k+2 |
| GenericList.List.UnlinkFront | list.c:224-227 | the head node is unlinked; its buffer is returned and leaves the footprint |
| GenericList.List.UnlinkAfter | list.c:220-223 | the node after prev is unlinked; its buffer is returned and leaves the footprint |
| GenericList.List.InsertIndex | list.c:53-91 | succeeds exactly when data is not NULL and 1 <= index <= length+1. On success the contents become Insert(old, index, data), the old nodes keep their order around one new node at position index, the result is that node's own fresh buffer, and the footprint grows by exactly that node and buffer. Otherwise it returns NULL and changes nothing, allocating nothing |
| GenericList.List.PushFront | list.c:97-100 | succeeds exactly when data is not NULL; the contents become [data] + old, the old nodes follow the new head node, and the footprint grows by exactly that node and its buffer |
| GenericList.List.Length | list.c:188-198 | the number of elements, 0 for the empty list |
| GenericList.List.PushBack | list.c:133-136 | succeeds exactly when data is not NULL; the contents become old + [data], the old nodes are followed by one new node, the result is that node's buffer, and the footprint grows by exactly that node and buffer |
| GenericList.List.Append | list.c:142-145 | the same as PushBack |
| GenericList.List.PushOrderedBy | list.c:113-126 | succeeds exactly when data is not NULL; inserts at OrderedIndex under the given comparator, with the old nodes in order around the one new node and the footprint grown by exactly that node and its buffer |
| GenericList.List.OrderedPosition | list.c:120-124 | the scan stops at OrderedIndex: the first position whose element does not compare greater than the new one |
| GenericList.List.PushOrdered | list.c:106-127 | as PushOrderedBy, with DefaultCompare (the corrected default_compare) when compare is NULL |
| GenericList.List.GetValueIndex | list.c:151-166 | non-NULL exactly when 1 <= index <= length; the result is a fresh copy of element index |
| GenericList.List.GetPointerIndex | list.c:171-183 | non-NULL exactly when 1 <= index <= length; the result is the node's own buffer, holding element index |
| GenericList.List.RemoveIndexGetPointer | list.c:204-233 | non-NULL exactly when 1 <= index <= length. On success the contents become RemoveAt(old, index) and the nodes lose exactly the one at index. The removed node's buffer, holding the old element, is handed over, and the node and buffer leave the footprint. Otherwise nothing changes |
| GenericList.List.PopFront | list.c:239-242 | on a non-empty list removes the first element, unlinking only the head node, and hands over that node's own buffer; on an empty list returns NULL and changes nothing |
| GenericList.List.PopBack | list.c:248-251 | on a non-empty list removes the last element, unlinking only the last node, and hands over that node's own buffer; on an empty list returns NULL and changes nothing |
| GenericList.List.RemoveIndex | list.c:256-261 | the contents and the nodes become RemoveAt(old, index) when index is in range, and that node and its buffer leave the footprint; otherwise nothing changes |
| GenericList.List.RemoveFirst | list.c:266-269 | drops the first element and its node, if any; the other nodes stay in order, and the node and its buffer leave the footprint |
| GenericList.List.RemoveLast | list.c:274-277 | drops the last element and its node, if any; the other nodes stay in order, and the node and its buffer leave the footprint |
| GenericList.List.FindBy | list.c:350-361 | the result is FirstMatch of the contents under the given comparator |
| GenericList.List.Find | list.c:348-362 | -1 for NULL data; otherwise FirstMatch under the caller's comparator or DefaultCompare (the corrected default_compare) |
| GenericList.List.RemoveData | list.c:285-299 | true exactly when find succeeds; then exactly that element and its node are removed, and the node and its buffer leave the footprint; otherwise nothing changes, the footprint included |
| GenericList.List.RemoveMatch | list.c:319-321 | removing one node whose payload the predicate holds of leaves the filtered contents and the surviving nodes unchanged |
| GenericList.List.RemoveIf | list.c:305-329 | the contents become Without(old, isToRemove), with the order kept; the remaining nodes are the old nodes whose payloads were kept, in their old order; the result is true exactly when some old element satisfied the predicate |
| GenericList.List.ForEach | list.c:335-341 | visits every element in order: the i-th result is the action applied to element i; a NULL action visits nothing |
| GenericList.List.GetPointerData | list.c:367-385 | NULL exactly when find fails; otherwise the own buffer of the first matching element |
| GenericList.List.GetValueData | list.c:391-409 | NULL exactly when find fails; otherwise a fresh copy of the first matching element |
| GenericList.List.Duplicate | list.c:21-30 | a new valid list, disjoint from the old one, with the same contents in the same order |
| GenericList.List.Destroy | list.c:35-47 | every node is unlinked; the handle becomes the empty list, every old node and its buffer leave the footprint, and an empty list's footprint is left as it is |

## Left out

- A `NULL` `List*` handle is not modelled. A Dafny reference to `List` is never null, so the guards `list == NULL` of the mutating functions have no counterpart.
- `malloc` failure is not modelled; the code does not check for it either.
- `free` is not modelled. A node or buffer the code frees leaves `Repr` and is no longer reachable; deallocation itself is not tracked.
- GenericList.List.RemoveIf: states only that the footprint shrinks, not that exactly the unlinked nodes and their buffers leave it. `list_remove_index` frees them (list.c:231, 260), and the remaining nodes are stated exactly. Carrying the freed set through the filter loop makes that loop's proof too expensive for the verifier.
- Writes through the `size_t* data_size` out-pointer are not modelled. The size is the `Length` of the returned array.
- The `data_to_search_size < 0` guards at list.c:352, 372 and 396 are left out: a `size_t` is never negative.
- `list.h` is not part of this model. It holds only the node type, the `empty_list` macro and prototypes.
- Comparators and predicates are pure Dafny functions. Side effects of a caller's callback, and writes through the pointers the list hands out, are not modelled.
- GenericList.List.PushOrderedBy: with NULL data on a non-empty list, the code still scans with the comparator before the insert fails. The model fails at once, because a pure comparator makes the scan unobservable.
- GenericList.List.ForEach: returns the sequence of the callback's results instead of performing the callback's side effects.
- GenericList.List.GetValueIndex: `requires` a non-empty list when index >= 1. On the empty list the code dereferences NULL. The same holds for GetPointerIndex.
- GenericList.List.Length: the count is an unbounded integer, and so are the other 32-bit `int` positions: the index of Find (list.c:350, 359), of PushOrdered (list.c:108, 122) and of RemoveIf (list.c:309, 323), and `list_length(*list) + 1` in PushBack (list.c:135). They could overflow only on lists of 2^31 - 1 nodes or more (PushBack's sum at exactly 2^31 - 1).
- GenericList.List.GetValueIndex: reuses the walk of GetPointerIndex instead of repeating it as list.c does. The two walks are identical.
- GenericList.CompareOrDefault: when the caller passes NULL, the fallback is the corrected DefaultCompare, not the as-written default_compare (see Findings). Find, RemoveData, PushOrdered, GetPointerData and GetValueData with a NULL comparator therefore differ from the code on buffers whose sizes differ by 2^31 or more.
- ByteCompare.DefaultCompare: states only the sign of default_compare. The shortcut at list.c:424 for the same buffer and size returns 0, which byte-wise comparison gives anyway. Buffers are values here, so pointer identity is not modelled.

## Findings

| source | as written | input that shows it | evidently intended | confidence | as-written member | corrected member |
|---|---|---|---|---|---|---|
| list.c:425 | for different sizes, returns `data1_size - data2_size` computed in `size_t` and converted to a 32-bit `int` | sizes 2^32 + n and n compare as equal (0); a 2^31-byte buffer compares as smaller than an empty one | the sign of the size difference, so shorter sorts first and different sizes never compare equal | not executed | ByteCompare.DefaultCompareAsWrittenConflates | ByteCompare.DefaultCompare |
