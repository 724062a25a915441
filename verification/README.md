# go-util collections and string helpers, modelled in Dafny

This project models the core of the Go library go-util and proves properties of the model. The core has four parts:

- **Linked list.** A doubly linked list that is also a queue, a deque and a stack (`list.LinkedList`).
- **Slice-backed lists.** Two lists stored in a slice (`backend/list.SliceList` and its error-less twin `collection/list.SliceList`), with their cursor iterators.
- **Ring-buffer deque.** A deque with power-of-two capacity (`queue.SliceDeQueue`).
- **Other helpers:**
  - a singly linked stack (`stack.Stack`);
  - the index-out-of-bounds error values;
  - the rune-based string helpers of `strs` and `str`;
  - grouping by key (`group`);
  - integer min/max (`math`);
  - the `sort.Interface` adapters.

Every container is an immutable Dafny value, and an operation returns the new value. Each container has a validity predicate and an abstract sequence of its elements. Every contract is stated against that sequence and the reference definitions in `SeqSpec`: insert at, insert all at, remove at, first and last occurrence, and "keep where".

The modules are as follows.

**`List`** (list/linked_list.go)
- Nodes live in an arena `seq<Node<T>>`, and a pointer is an `Option<nat>` arena index.
- A spine parameter, the arena indices of the linked nodes from first to last, is passed to every operation; the predicates over it are ghost.
- `Chain` says the `first`/`last`/`next`/`prev` pointers follow the spine.
- `Valid` adds `size == |spine|`.

**`BackendSliceList`, `CollectionSliceList`** (backend/list/slice_list.go, collection/list/slice_list.go)
- The list is its `data` slice with a `size` counter.
- The collection twin is defined through the backend one, with its own error values.

**`BackendListIterator`, `CollectionListIterator`**
- The `cursor`/`lastRet` iterators. The list is passed in and comes back from `Remove`.

**`SliceDeque`** (queue/slice_dequeue.go)
- Slots are `Option<T>`, with `None` for nil.
- `x & (cap-1)` is written `Mask(x, cap)`, that is `x % cap`.
- `Valid` is the ring invariant: the slots in the circular range [head, tail) are occupied and all others are nil. As a consequence `size < cap`.

**`Stack`** (stack/stack.go)
- A chain of nodes with a length counter.

**`Strs`, `Str`** (strs/str.go, str/str.go)
- Strings are rune sequences (`seq<char>`). The index computations in the Go code work on `[]rune`; the strings are taken to be valid UTF-8, so the byte-level tests and comparisons some helpers use agree with the rune-level ones (see "## Left out").

**Shared modules**
- **`Group`:** grouping into `map<K, seq<T>>` and into counts.
- **`GoMath`:** min/max over Go's integer widths, which are `newtype` ranges in `GoInts`.
- **`SortTypes`:** the `sort.Interface` adapters.
- **`CollectionErrs`, `CollectionListErr`:** the index-out-of-bounds error values.
- **`Errors`:** the sentinel errors.
- **`Fmt`:** `%d` rendering, used in error texts.
- **`GoSlices`:** Go's `copy`.
- **`Wrappers`:** `Option`, `Result` and `Outcome`.

Argument collections (`c collection.Collection`) are modelled as the sequence of their elements:
- `c.Size()` is their length and `c.Contains(x)` is membership.
- Whether `c` is the receiver itself is a boolean `same`.
- Go `==` on `interface{}` values is Dafny equality on a type parameter `T(==)`.

## Model

| member | source | states |
|---|---|---|
| List.NewLinkedListEmpty | list/linked_list.go:42-44 | a new list has size 0 and nil first and last, and the empty spine is the only one it is valid over, so it holds no elements |
| List.EmptyIffNil | list/linked_list.go:30-34 | for every valid list, size 0 holds exactly when first is nil and exactly when last is nil |
| List.AddFirst | list/linked_list.go:47-63 | the new node heads the spine, the list stays valid, e is prepended to the elements, and the error result is nil |
| List.AddLast | list/linked_list.go:67-70 | the list stays valid with the new node at the spine's end, and e is appended |
| List.LinkLast | list/linked_list.go:328-342 | linkLast keeps the list valid with the new node as the last, and its element appended |
| List.LinkBefore | list/linked_list.go:311-325 | linking before the node at spine position k inserts the fresh node into the spine at k and e into the elements at k |
| List.UnLink | list/linked_list.go:144-164 | unlinking the node at spine position k removes position k from the spine and from the elements, keeps the list valid, and returns that element |
| List.RemoveFirst | list/linked_list.go:73-89 | NoSuchElement and no change on an empty list; otherwise the first element is returned and the list is valid over the rest of the spine |
| List.RemoveLastAsWritten | list/linked_list.go:92-105 | the last element is returned and the chain drops the last node, but size is not decremented |
| List.RemoveLast | list/linked_list.go:92-105 | corrected: as written, plus the size decrement, so the list stays valid over the spine without its last node |
| List.RemoveLastKeepsSize | list/linked_list.go:92-105 | after AddLast on an empty list, the Go RemoveLast leaves size 1 with first and last nil, which is never a valid list |
| List.GetFirst | list/linked_list.go:108-113 | the first element, or NoSuchElement when the list is empty |
| List.GetLast | list/linked_list.go:116-121 | the last element, or NoSuchElement when the list is empty |
| List.Element | list/linked_list.go:545-547 | Element is GetFirst: the head, or NoSuchElement |
| List.Peek | list/linked_list.go:550-556 | the head, or nil (None) when the list is empty |
| List.Poll | list/linked_list.go:534-542 | nil and no change when empty; otherwise it removes and returns the head, and the list stays valid over the rest of the spine |
| List.UnLinkFirst | list/linked_list.go:534-542 | unlinking the node first points at drops exactly spine position 0 |
| List.Delete | list/linked_list.go:559-561 | Delete is RemoveFirst: the head is removed and returned, or NoSuchElement |
| List.Push | list/linked_list.go:169-171 | Push is AddFirst: e becomes the first element |
| List.PopAsWritten | list/linked_list.go:176-178 | the Go Pop returns the last element, not the first, and leaves size unchanged |
| List.Pop | list/linked_list.go:172-178 | corrected: removes and returns the first element, and the list stays valid |
| List.PushPopRoundTrip | list/linked_list.go:169-178 | Push then Pop returns the pushed element and gives back the original elements |
| List.PopTakesBottom | list/linked_list.go:176-178 | after Push a and Push b, the Go Pop returns a where the documented stack Pop returns b |
| List.Add | list/linked_list.go:397-400 | Add appends e at the back, keeps the list valid and reports true |
| List.Offer | list/linked_list.go:529-531 | Offer is Add: e appended at the back and true |
| List.AddRemoveLastRoundTrip | list/linked_list.go:92-105 | Add then the corrected RemoveLast returns the added element and restores the elements |
| List.Size | list/linked_list.go:382-384 | on a valid list the counter is the number of elements |
| List.IsEmpty | list/linked_list.go:387-389 | on a valid list, IsEmpty holds exactly when there are no elements |
| List.Clear | list/linked_list.go:476-488 | the list becomes valid and empty with a nil error; of the old nodes, only the last one's links change |
| List.IsPositionIndex | list/linked_list.go:236-238 | true exactly for 0 <= index <= size |
| List.CheckElementIndex | list/linked_list.go:241-246 | nil exactly for 0 <= index < size, else IndexOutOfBound |
| List.CheckPositionIndex | list/linked_list.go:249-254 | nil exactly for 0 <= index <= size, else IndexOutOfBound |
| List.GetNode | list/linked_list.go:268-282 | whichever half the index is in, and so whichever end the walk starts from, the node returned is spine position index |
| List.Get | list/linked_list.go:257-265 | the element at index for 0 <= index < size, IndexOutOfBound otherwise |
| List.Set | list/linked_list.go:285-295 | in range, the old element is returned and only position index changes, to e; out of range, IndexOutOfBound and no change |
| List.AddIndex | list/linked_list.go:298-308 | in [0, size], e is inserted at index and the list stays valid; otherwise IndexOutOfBound and no change |
| List.RemoveIndex | list/linked_list.go:348-353 | in [0, size), the element at index is returned and removed from the elements; otherwise IndexOutOfBound and no change |
| List.Index | list/linked_list.go:357-366 | the forward walk returns the first position holding e, or -1 |
| List.LastIndex | list/linked_list.go:370-379 | the backward walk returns the last position holding e, or -1 |
| List.Contains | list/linked_list.go:392-394 | true exactly when e is among the elements |
| List.Remove | list/linked_list.go:405-413 | reports whether e occurs; deletes exactly its first occurrence; no change when it is absent |
| List.RemoveFirstOccurrence | list/linked_list.go:126-128 | the same as Remove |
| List.RemoveLastOccurrence | list/linked_list.go:133-141 | reports whether e occurs; deletes exactly its last occurrence; no change when it is absent |
| List.ContainsAll | list/linked_list.go:416-430 | true exactly when every element of c is in the list |
| List.AddAll | list/linked_list.go:433-442 | c's elements are appended in order, with c read before anything is added; the result is true exactly when c is non-empty |
| List.LinkRun | list/linked_list.go:205-219 | the loop appends one node per element of c, each chained behind the one before and the first behind prev |
| List.RunSplice | list/linked_list.go:220-232 | closing the gap after the loop splices c into the elements at index and keeps the chain well formed |
| List.SpliceNothing | list/linked_list.go:195-197 | an empty c leaves the list and its elements as they are |
| List.SpliceChain | list/linked_list.go:189-233 | a run linked in between spine positions index-1 and index gives a well-formed chain whose elements are InsertAllAt(elements, index, c) |
| List.AddAllIndex | list/linked_list.go:189-233 | outside [0, size]: IndexOutOfBound, false and no change; an empty c gives false with no error; otherwise c is spliced in at index, size grows by \|c\|, and the result is true |
| List.Slice | list/linked_list.go:512-518 | the elements from first to last, in order |
| List.Iterator | list/linked_list.go:521-526 | a fresh iterator is at position 0 with nothing returned |
| List.HasNext | list/linked_list.go:572-574 | in a reachable state, true exactly when a next node exists |
| List.Next | list/linked_list.go:577-585 | past the end, IndexOutOfBound (not NoSuchElement) and nothing moves; otherwise the element at nextIndex, which the iterator then passes |
| List.ItrRemove | list/linked_list.go:591-604 | IllegalState when nothing was returned since the last Remove; otherwise unlinks the node Next last returned, and the walk keeps its place |
| List.NextRemoveSkipsNothing | list/linked_list.go:591-604 | Next then Remove deletes the element just returned, the walk continues with the element after it, and a second Remove fails with IllegalState |
| List.Equals | list/linked_list.go:492-509 | true for the list itself; otherwise true exactly when the elements equal c in order, so false on a size mismatch |
| List.BatchRemove | list/linked_list.go:448-467 | keeps, in order, exactly the elements whose membership in c differs from complement, and reports modified exactly when it removed one |
| List.RemoveAll | list/linked_list.go:445-447 | drops exactly the elements in c, keeps order, and reports modified iff some element was in c |
| List.RetainAll | list/linked_list.go:470-472 | keeps exactly the elements in c, keeps order, and reports modified iff some element was not in c |
| BackendSliceList.NewSliceListDefault | backend/list/slice_list.go:36-38 | an empty valid list |
| BackendSliceList.NewSliceList | backend/list/slice_list.go:53-58 | an empty list whose reserved capacity is the request, or 10 for a negative request |
| BackendSliceList.NewSliceListWithCollection | backend/list/slice_list.go:41-48 | a valid list holding c's elements in order |
| BackendSliceList.Slice | backend/list/slice_list.go:70-75 | exactly the first size elements, in order |
| BackendSliceList.IsEmpty | backend/list/slice_list.go:83-85 | true iff size is 0, which on a valid list means no elements |
| BackendSliceList.Size | backend/list/slice_list.go:78-80 | on a valid list the counter is the number of elements |
| BackendSliceList.Index | backend/list/slice_list.go:301-309 | the first position holding e, or -1 |
| BackendSliceList.LastIndex | backend/list/slice_list.go:312-320 | the last position holding e, or -1 |
| BackendSliceList.Contains | backend/list/slice_list.go:90-92 | true exactly when e is an element |
| BackendSliceList.Add | backend/list/slice_list.go:99-103 | e, whatever it is, is appended, the list stays valid and the result is true |
| BackendSliceList.Remove | backend/list/slice_list.go:109-118 | reports whether e occurs and deletes exactly its first occurrence |
| BackendSliceList.FastRemove | backend/list/slice_list.go:121-123 | the slice without position index, the rest shifted left |
| BackendSliceList.ContainsAll | backend/list/slice_list.go:127-138 | true exactly when every element of c is in the list |
| BackendSliceList.AddAll | backend/list/slice_list.go:144-152 | c's elements are appended in order; true exactly when c is non-empty |
| BackendSliceList.Compact | backend/list/slice_list.go:165-178 | the in-place compaction leaves, in the first w slots and in order, exactly the kept elements |
| BackendSliceList.BatchRemove | backend/list/slice_list.go:165-184 | keeps, in order, exactly the elements whose membership in c equals complement, and reports modified whenever the list was non-empty |
| BackendSliceList.BatchRemoveIntended | backend/list/slice_list.go:165-184 | corrected: the same compaction, with modified true exactly when some element was dropped |
| BackendSliceList.BatchRemoveReportsUnchanged | backend/list/slice_list.go:176-182 | retaining every element of a one-element list reports modified as written, where the corrected version does not |
| BackendSliceList.RemoveAll | backend/list/slice_list.go:157-159 | drops exactly the elements in c, keeps order, and reports modified iff the list was non-empty |
| BackendSliceList.RetainAll | backend/list/slice_list.go:189-191 | keeps exactly the elements in c, keeps order, and reports modified iff the list was non-empty |
| BackendSliceList.Clear | backend/list/slice_list.go:197-201 | the list is valid and empty |
| BackendSliceList.Equals | backend/list/slice_list.go:204-222 | true for the list itself; otherwise true exactly when both iterators yield equal elements pairwise and end together |
| BackendSliceList.RangeCheckForAdd | backend/list/slice_list.go:225-230 | passes exactly for 0 <= index <= size, else IndexOutOfBound |
| BackendSliceList.AddAllIndex | backend/list/slice_list.go:237-249 | in [0, size], c is spliced in at index; otherwise IndexOutOfBound and no change |
| BackendSliceList.Get | backend/list/slice_list.go:252-260 | the element at index in [0, size), IndexOutOfBound otherwise |
| BackendSliceList.Set | backend/list/slice_list.go:263-271 | for a non-negative index: index >= size fails with no change; 0 <= index < size changes only position index, to e |
| BackendSliceList.AddIndex | backend/list/slice_list.go:276-285 | in [0, size], e is inserted at index and the tail shifts right; otherwise IndexOutOfBound and no change |
| BackendSliceList.RemoveIndex | backend/list/slice_list.go:290-298 | for a non-negative index: index >= size fails with no change; 0 <= index < size returns the element and removes position index |
| BackendSliceList.SubListRangeCheck | backend/list/slice_list.go:323-336 | passes exactly for 0 <= from <= to <= size; otherwise it fails with a message naming the first violated bound, checked in source order |
| BackendSliceList.SubList | backend/list/slice_list.go:340-349 | succeeds exactly for 0 <= from <= to <= size, with the elements data[from:to]; otherwise it returns the range check's error |
| BackendSliceList.SubListErrorNamesIndex | backend/list/slice_list.go:323-328 | the detail of a negative-from error reads back as "fromIndex = " and the index |
| BackendSliceList.AddIndexRemoveIndex | backend/list/slice_list.go:276-298 | RemoveIndex at the position AddIndex used returns the added element and restores the list |
| BackendSliceList.AddIsAddIndexAtEnd | backend/list/slice_list.go:99-103 | Add is AddIndex at position size |
| BackendListIterator.Iterator | backend/list/slice_list.go:354-360 | a fresh iterator is in a reachable state at cursor 0 with nothing returned |
| BackendListIterator.HasNext | backend/list/list_iterator.go:33-35 | in a reachable state, true exactly when the cursor is below the list's size |
| BackendListIterator.Next | backend/list/list_iterator.go:38-45 | past the end, NoSuchElement and nothing moves; otherwise the element at cursor, lastRet becomes the cursor, and the cursor advances |
| BackendListIterator.Remove | backend/list/list_iterator.go:50-60 | IllegalState without a pending lastRet; otherwise it deletes element lastRet, sets cursor to lastRet and clears lastRet |
| BackendListIterator.DrainYieldsSuffix | backend/list/list_iterator.go:33-45 | from any reachable state, the iterator yields the rest of the list in index order |
| BackendListIterator.FreshIteratorYieldsList | backend/list/list_iterator.go:33-45 | a fresh iterator yields the whole list in index order |
| BackendListIterator.NextRemoveSkipsNothing | backend/list/list_iterator.go:50-60 | Next then Remove deletes the returned element without skipping the next one, and a second Remove fails with IllegalState |
| CollectionSliceList.NewSliceList | collection/list/slice_list.go:51-56 | an empty list; a negative capacity falls back to 10 |
| CollectionSliceList.NewSliceListDefault | collection/list/slice_list.go:39-41 | an empty valid list |
| CollectionSliceList.NewSliceListWithCollection | collection/list/slice_list.go:42-49 | a valid list holding c's elements in order |
| CollectionSliceList.Slice | collection/list/slice_list.go:63-68 | a copy of exactly the first size elements |
| CollectionSliceList.IsEmpty | collection/list/slice_list.go:74-76 | true iff size is 0 |
| CollectionSliceList.Contains | collection/list/slice_list.go:78-80 | true exactly when e is an element |
| CollectionSliceList.Add | collection/list/slice_list.go:82-86 | any element, "" and nil included, is appended, and the result is true |
| CollectionSliceList.Remove | collection/list/slice_list.go:88-97 | deletes the first equal element and returns true, or returns false with no change |
| CollectionSliceList.ContainsAll | collection/list/slice_list.go:102-112 | true exactly when every element of c is in the list |
| CollectionSliceList.AddAll | collection/list/slice_list.go:114-122 | false and no change for an empty c; otherwise c's elements are appended in order, also when c is the list itself |
| CollectionSliceList.RemoveAll | collection/list/slice_list.go:124-126 | drops exactly the elements in c and keeps order |
| CollectionSliceList.RetainAll | collection/list/slice_list.go:146-148 | keeps exactly the elements in c and keeps order |
| CollectionSliceList.Clear | collection/list/slice_list.go:149-152 | the list is valid and empty |
| CollectionSliceList.Equals | collection/list/slice_list.go:154-172 | true exactly when the elements equal c's in order |
| CollectionSliceList.AddAllIndex | collection/list/slice_list.go:179-191 | outside [0, size], IndexOutOfBound and no change; otherwise c is spliced in at index |
| CollectionSliceList.Get | collection/list/slice_list.go:193-201 | succeeds exactly for 0 <= index < size, with the element there |
| CollectionSliceList.Set | collection/list/slice_list.go:203-211 | for a non-negative index: index >= size fails with no change; 0 <= index < size makes position index e |
| CollectionSliceList.AddIndex | collection/list/slice_list.go:213-222 | in [0, size], e is inserted at index; otherwise IndexOutOfBound and no change |
| CollectionSliceList.RemoveIndex | collection/list/slice_list.go:224-232 | for a non-negative index: index >= size fails; 0 <= index < size returns the element and removes it |
| CollectionSliceList.Index | collection/list/slice_list.go:234-242 | the first position holding e, with no e before it, or -1 exactly when e is absent |
| CollectionSliceList.LastIndex | collection/list/slice_list.go:244-252 | the last position holding e, with no e after it, or -1 exactly when e is absent |
| CollectionSliceList.SubList | collection/list/slice_list.go:254-277 | succeeds exactly for 0 <= from <= to <= size, giving to-from elements data[from:to]; otherwise an exception naming the first violated bound |
| CollectionSliceList.SubListErrorsMatchBackend | collection/list/slice_list.go:254-267 | both packages report a bad range with the same detail; the same text too, given the assumed backend error format (see "## Left out") |
| CollectionListIterator.Iterator | collection/list/slice_list.go:279-285 | a fresh iterator is reachable, at cursor 0 with nothing returned |
| CollectionListIterator.HasNext | collection/list/list_iterator.go:28-30 | true exactly when the cursor differs from the size |
| CollectionListIterator.Next | collection/list/list_iterator.go:32-39 | past the end, NoSuchElement without moving; otherwise the element at cursor, recorded in lastRet, and the cursor advances |
| CollectionListIterator.Remove | collection/list/list_iterator.go:41-51 | IllegalState without a pending lastRet; otherwise it deletes element lastRet, rewinds the cursor to it and resets lastRet |
| CollectionListIterator.StepsAsBackend | collection/list/list_iterator.go:28-51 | Next, Remove and HasNext agree with the backend iterator, so its walk properties carry over |
| CollectionListIterator.SecondRemoveFails | collection/list/list_iterator.go:41-51 | a second Remove right after a successful one fails with IllegalState |
| CollectionErrs.Error | collection/errs/err.go:36-43 | the bare prefix for an empty detail, otherwise prefix, comma and detail; the detail always reads back from the text |
| CollectionErrs.NewIndexOutOfBoundsErrorDefault | collection/errs/err.go:26-28 | the error text is the bare prefix |
| CollectionErrs.NewIndexOutOfBoundsError | collection/errs/err.go:31-33 | the detail reads back from the error text unchanged |
| CollectionErrs.ErrorInjective | collection/errs/err.go:36-43 | two errors with the same text have the same detail |
| CollectionListErr.Error | collection/list/err.go:33-40 | the bare prefix for an empty detail, otherwise prefix, comma and detail, which reads back |
| CollectionListErr.NewIndexOutOfBoundsExceptionDefault | collection/list/err.go:24-26 | the error text is the bare prefix |
| CollectionListErr.NewIndexOutOfBoundsException | collection/list/err.go:28-30 | the detail reads back from the error text unchanged |
| CollectionListErr.SameTextAsErrs | collection/list/err.go:33-40 | the same detail renders the same text in both packages |
| SliceDeque.Mask | queue/slice_dequeue.go:142 | the masked index is always in [0, cap) |
| SliceDeque.MaskStep | queue/slice_dequeue.go:172 | one step back from 0 wraps to cap-1, and one step forward from cap-1 wraps to 0 |
| SliceDeque.Size | queue/slice_dequeue.go:32-34 | corrected: the circular distance from head to tail, which is below cap and equals the number of occupied slots |
| SliceDeque.Elems | queue/slice_dequeue.go:40-54 | the deque's elements: Size of them, element k in the k-th slot after head |
| SliceDeque.SizeAsWritten | queue/slice_dequeue.go:32-34 | as written, ((tail-head) & cap) - 1 is cap-1 when tail < head and -1 otherwise |
| SliceDeque.IsEmptyAsWritten | queue/slice_dequeue.go:36-38 | as written, IsEmpty is false for every valid deque |
| SliceDeque.IsEmpty | queue/slice_dequeue.go:36-38 | corrected: true exactly when there are no elements |
| SliceDeque.SizeAsWrittenWrong | queue/slice_dequeue.go:32-34 | one element in a two-slot ring: the written Size is -1, the intended Size is 1 |
| SliceDeque.Contains | queue/slice_dequeue.go:40-54 | the scan from head stops at a nil slot and is true exactly for a non-nil e among the elements |
| SliceDeque.DoubleCapacity | queue/slice_dequeue.go:231-246 | the doubled buffer holds the old slots from head, then those before head; head becomes 0 and tail the old length; it fails exactly when the doubled length exceeds Go's int |
| SliceDeque.DoubledValid | queue/slice_dequeue.go:231-246 | the doubled buffer is a valid deque with the same elements |
| SliceDeque.AddFirst | queue/slice_dequeue.go:138-150 | nil is rejected with NilPointer and no change; otherwise e becomes the first element and the deque stays valid, doubling when full |
| SliceDeque.AddLast | queue/slice_dequeue.go:152-164 | nil is rejected with NilPointer and no change; otherwise e becomes the last element and the deque stays valid, doubling when full |
| SliceDeque.RemoveFirst | queue/slice_dequeue.go:166-174 | NoSuchElement when empty; otherwise the first element is returned and the rest stays valid |
| SliceDeque.RemoveLast | queue/slice_dequeue.go:176-185 | NoSuchElement when empty; otherwise the last element is returned and the rest stays valid |
| SliceDeque.GetFirst | queue/slice_dequeue.go:187-193 | the first element, or NoSuchElement when empty |
| SliceDeque.GetLast | queue/slice_dequeue.go:195-201 | the last element, or NoSuchElement when empty |
| SliceDeque.Peek | queue/slice_dequeue.go:134-136 | the first element, or nil when empty |
| SliceDeque.Poll | queue/slice_dequeue.go:121-124 | nil and no change when empty; otherwise the first element, removed |
| SliceDeque.Delete | queue/slice_dequeue.go:126-128 | Delete is RemoveFirst |
| SliceDeque.Pop | queue/slice_dequeue.go:223-225 | Pop is RemoveFirst |
| SliceDeque.Element | queue/slice_dequeue.go:130-132 | Element is GetFirst |
| SliceDeque.Push | queue/slice_dequeue.go:219-221 | as AddFirst: NilPointer for nil; a non-nil e is prepended and succeeds whenever the doubled buffer fits in int64, and the only failure is DequeTooBig past that |
| SliceDeque.Add | queue/slice_dequeue.go:56-58 | reports true whatever the outcome; NilPointer for nil; a non-nil e is appended and succeeds whenever the doubled buffer fits in int64, and the only failure is DequeTooBig past that |
| SliceDeque.Offer | queue/slice_dequeue.go:113-119 | true exactly when AddLast succeeded: false with NilPointer for nil; true with e appended whenever the doubled buffer fits in int64; false with DequeTooBig only past that |
| SliceDeque.Slice | queue/slice_dequeue.go:99-107 | cap slots: the elements in order from head, then nil |
| SliceDeque.PushPopRoundTrip | queue/slice_dequeue.go:219-225 | Push then Pop returns the pushed value and the same elements |
| SliceDeque.OfferRemoveLastRoundTrip | queue/slice_dequeue.go:113-119 | Offer then RemoveLast returns the offered value and the same elements |
| Stack.NewStack | stack/stack.go:32-34 | a valid stack with no items |
| Stack.Len | stack/stack.go:52-54 | on a valid stack, the counter is the number of items |
| Stack.IsEmpty | stack/stack.go:47-49 | true iff Len is 0, which on a valid stack means no items |
| Stack.Push | stack/stack.go:79-86 | v becomes the top over the old items, and the length grows by one |
| Stack.Peek | stack/stack.go:58-63 | NotExist on an empty stack, otherwise the top item |
| Stack.PopAsWritten | stack/stack.go:67-76 | NotExist when empty; with two or more items it returns the new top's value; with one item it dereferences nil |
| Stack.Pop | stack/stack.go:65-76 | corrected: NotExist when empty, otherwise the removed top, with the rest below staying valid |
| Stack.Clean | stack/stack.go:89-92 | the stack is valid and empty |
| Stack.PushPopRoundTrip | stack/stack.go:58-86 | Pop undoes Push and returns the pushed value, and Peek after Push sees it |
| Stack.PopAllYieldsItems | stack/stack.go:65-76 | popping until NotExist yields the items top first |
| Stack.PopReturnsNewTop | stack/stack.go:74-75 | after pushing 1, 2, 3 the written Pop returns 2, not 3, and popping a lone item dereferences nil |
| Strs.IsAnyEmpty | strs/str.go:46-56 | true for no arguments or when some argument is "" |
| Strs.IsNoneEmpty | strs/str.go:59-61 | true exactly when there is an argument and none is "" |
| Strs.Clamp | strs/str.go:145-172 | a normalised index is at most the length and leaves an in-range index alone |
| Strs.SubstringStart | strs/str.go:130-144 | the runes from the normalised start; "" past the end |
| Strs.Substring | strs/str.go:145-172 | the runes between the normalised start and end, or "" when start > end |
| Strs.Left | strs/str.go:173-185 | "" for n < 0, otherwise the first min(n, len) runes |
| Strs.Right | strs/str.go:186-198 | "" for n <= 0, otherwise the last min(n, len) runes |
| Strs.LeftIsSubstring | strs/str.go:173-185 | Left(s, n) is Substring(s, 0, n) for n >= 0 |
| Strs.RightIsSubstringStart | strs/str.go:186-198 | Right(s, n) is SubstringStart(s, -n) for n > 0 |
| Strs.LeftSubstringStartSplit | strs/str.go:130-185 | Left(s, n) followed by SubstringStart(s, n) is s |
| Strs.IndexOfDifference | strs/str.go:213-257 | -1 for fewer than two strings; otherwise at most the shortest length |
| Strs.IndexOfDifferenceIsFirstDifference | strs/str.go:213-257 | -1 exactly when all strings are equal; otherwise the strings agree below the result and disagree at it |
| Strs.IndexOfDifferenceWithTwoStr | strs/str.go:258-275 | -1 exactly when a == b; otherwise the length of their common prefix |
| Strs.TwoStrAgreesWithGeneral | strs/str.go:258-275 | the two-string version equals the general one on [a, b] |
| Strs.Difference | strs/str.go:278-286 | "" for equal strings; otherwise b from the first index where the two differ |
| Strs.CommonPrefix | strs/str.go:288-305 | "" for no arguments; otherwise a prefix of the first string |
| Strs.CommonPrefixIsLongest | strs/str.go:288-305 | the result is a prefix of every argument, and no longer common prefix exists |
| Strs.Abbreviate | strs/str.go:456-494 | as written: the marker-less and empty cases, both error texts with their widths and exactly when each fires, the short-string case and the leading branch |
| Strs.AbbreviateIntended | strs/str.go:456-494 | corrected: the same marker-less, empty, short-string and error cases as written, with both error texts; every successful result is at most maxWidth runes, and exactly maxWidth when the string was longer |
| Strs.AbbreviateIntendedWindow | strs/str.go:478-494 | corrected offset branches, for all inputs: the window of maxWidth - 2 * markerLen runes from the adjusted offset between two markers when runes remain after it, otherwise the marker and the last maxWidth - markerLen runes; exactly maxWidth runes |
| Strs.AbbreviateOffsetZero | strs/str.go:480-482 | with offset 0, the first maxWidth-markerLen runes and then the marker, exactly maxWidth runes |
| Strs.AbbreviateOffsetZeroIntended | strs/str.go:480-482 | the corrected version gives the same leading-branch result for offset 0 |
| Strs.AbbreviateAgreesOnLeadingBranch | strs/str.go:480-482 | as written and corrected agree whenever the adjusted offset selects the leading branch |
| Strs.AbbreviateTailExceedsWidth | strs/str.go:493 | as written, the last branch returns 11 runes for width 7 |
| Strs.AbbreviateMiddleWrongWindow | strs/str.go:486-492 | as written, the middle branch shows the runes before the offset |
| Strs.AbbreviateMiddleWindow | strs/str.go:486-492 | corrected: the middle branch abbreviates the window from the offset on, "...ghij..." for offset 6 and width 10 |
| Str.IsAnyEmpty | str/str.go:38-48 | true for no arguments or when some argument is "" |
| Str.IsNoneEmpty | str/str.go:51-53 | true exactly when there is an argument and none is "" |
| Str.IsBlank | str/str.go:56-64 | true exactly when every rune is white space, so "" is blank |
| Str.SubstringStart | str/str.go:122-134 | as written: a start past the end returns the whole string; otherwise the runes from the normalised start |
| Str.SubstringStartAgreesWithStrs | str/str.go:122-134 | agrees with strs' SubstringStart except past the end, where strs returns "" |
| Str.SubstringStartPastEnd | str/str.go:129-130 | SubstringStart("abc", 5) is "abc" here and "" in strs |
| Str.Substring | str/str.go:135-160 | the runes between the normalised start and end |
| Str.Left | str/str.go:161-172 | "" for n < 0, otherwise the first min(n, len) runes |
| Str.Right | str/str.go:173-184 | "" for n <= 0, otherwise the last min(n, len) runes |
| Str.LeftRightSplit | str/str.go:161-184 | Left(s, n) followed by Right(s, len - n) is s |
| Group.By | group/group.go:28-44 | the keys are exactly the image of functionBy, and each key maps to its elements in source order |
| Group.ByCount | group/group.go:71-83 | the keys are exactly the image, and each key maps to its positive number of elements |
| Group.BySlice | group/group.go:47-56 | one grouping per grouper, in input order |
| Group.BySliceCount | group/group.go:59-68 | one count map per grouper, in input order |
| Group.CountsSum | group/group.go:71-83 | the counts add up to the number of elements |
| Group.CountIsGroupSize | group/group.go:28-83 | ByCount's keys are By's keys, each count is its group's size, and the counts sum to the length |
| Group.FilterKeyNonEmpty | group/group.go:28-44 | a key has a non-empty group exactly when it is in the image |
| GoMath.MaxInt | math/math.go:22-27 | the result is one of the arguments and at least both |
| GoMath.MinInt | math/math.go:30-35 | the result is one of the arguments and at most both |
| GoMath.MaxInt64 | math/math.go:38-43 | int64: one of the arguments, and at least both |
| GoMath.MinInt64 | math/math.go:46-51 | int64: one of the arguments, and at most both |
| GoMath.MaxInt32 | math/math.go:53-58 | int32: one of the arguments, and at least both |
| GoMath.MinInt32 | math/math.go:60-65 | int32: one of the arguments, and at most both |
| GoMath.MaxInt16 | math/math.go:67-72 | int16: one of the arguments, and at least both |
| GoMath.MinInt16 | math/math.go:74-79 | int16: one of the arguments, and at most both |
| GoMath.MaxInt8 | math/math.go:81-86 | int8: one of the arguments, and at least both |
| GoMath.MinInt8 | math/math.go:88-93 | int8: one of the arguments, and at most both |
| GoMath.MaxUint64 | math/math.go:95-100 | uint64: one of the arguments, and at least both |
| GoMath.MinUint64 | math/math.go:102-107 | uint64: one of the arguments, and at most both |
| GoMath.MaxUint32 | math/math.go:108-113 | uint32: one of the arguments, and at least both |
| GoMath.MinUint32 | math/math.go:115-120 | uint32: one of the arguments, and at most both |
| GoMath.MaxUint16 | math/math.go:121-126 | uint16: one of the arguments, and at least both |
| GoMath.MinUint16 | math/math.go:128-133 | uint16: one of the arguments, and at most both |
| GoMath.MaxUint8 | math/math.go:134-139 | uint8: one of the arguments, and at least both |
| GoMath.MinUint8 | math/math.go:141-146 | uint8: one of the arguments, and at most both |
| GoMath.MinMaxPair | math/math.go:22-35 | min <= max, min + max == a + b, and both are a when a == b |
| SortTypes.Len | sort/type.go:24 | the number of elements, 0 exactly for the empty slice |
| SortTypes.Less | sort/type.go:27 | true exactly when element i is smaller than element j |
| SortTypes.Swap | sort/type.go:30 | positions i and j trade elements, nothing else moves, and the multiset of elements and their type are kept |
| SortTypes.LessIsStrictOrder | sort/type.go:27 | Less is irreflexive, transitive and asymmetric, and incomparable positions hold equal values |
| SortTypes.SwapInvolution | sort/type.go:30 | swapping the same pair twice restores the slice |
| Fmt.DecimalRoundTrip | backend/list/slice_list.go:323-336 | the %d text of a number reads back as the number |
| Fmt.DecimalInjective | backend/list/slice_list.go:323-336 | distinct numbers render to distinct text, so an error text names one index |
| GoSlices.CopyAt | backend/list/slice_list.go:237-249 | copy(dst[at:], src) overwrites as many slots as fit and leaves the rest of dst alone |
| SeqSpec.RemoveInsertRoundTrip | backend/list/slice_list.go:276-298 | putting back the removed element at the same index restores the sequence |
| SeqSpec.InsertRemoveRoundTrip | backend/list/slice_list.go:276-298 | removing at the index just inserted at restores the sequence |
| SeqSpec.KeepMembers | backend/list/slice_list.go:165-184 | the kept elements are exactly the elements whose membership in c equals the flag |
| SeqSpec.KeepAll | backend/list/slice_list.go:165-184 | Keep drops nothing exactly when every element passes |
| SeqSpec.KeepAppend | backend/list/slice_list.go:165-184 | Keep is a single left-to-right pass: it distributes over concatenation |

## Left out

- Go slice capacity, growth and aliasing are not modelled. Only `NewSliceList`'s reserved capacity is returned, as a number. A slice is its sequence of elements.
- Reference identity is not modelled. Whether an argument collection is the receiver is a boolean `same`, which the caller asserts.
- The interfaces in backend/collection are not part of this model; an argument collection is the sequence of its elements.
- BackendSliceList.OutOfBounds / SubListRangeCheck / SubListErrorNamesIndex: the backend list builds its SubList errors with `errs.NewIndexOutOfBoundsError` of backend/errs, which is not part of this model. Its `Error()` text is assumed to be the collection/errs format (prefix, then "," and the detail, with no space). Only the detail strings (`fromIndex = %d`, `toIndex = %d`, `fromIndex(%d) > toIndex(%d)`) come from the backend source; `CollectionSliceList.SubListErrorsMatchBackend`'s text equality rests on that assumption.
- BackendSliceList.Set / RemoveIndex, CollectionSliceList.Set / RemoveIndex: a negative index panics in Go on the slice access, since only `index >= size` is checked; a precondition `index >= 0` excludes that case.
- Strs, Str: strings are assumed to be valid UTF-8. `IsAnyEmpty`/`IsNoneEmpty` test the byte length, `IndexOfDifferenceWithTwoStr`/`Difference` compare bytewise, and `Left`/`Right` return the original bytes in their early branches; on valid UTF-8 these agree with the rune-level model. `Abbreviate` calls `convert.StringToRunes`/`RunesToString` of an external package that is not part of this model; they are assumed to be `[]rune(s)` and `string(r)`.
- `c.Contains` errors are not modelled. The Go code discards them in batchRemove and the error-less package never returns them. The backend batchRemove paths that return an error cannot be reached with a membership test that cannot fail.
- The linked list's arena never reclaims nodes; unlinked nodes stay in `nodes`, unreachable from the spine.
- List.UnLink: setting the unlinked node's `elem` to nil is not modelled. The node is unreachable afterwards, so no element sequence can see it.
- List.Clear: per the Go loop, which starts at the last node, only that node is cleared, and only its links: the Go loop also sets its `elem` to nil, which the model does not (a node's element has no nil). The other nodes keep their old links and elements and are unreachable.
- `LinkedList.DescendingIterator` (list/linked_list.go:181-183) panics unconditionally and is left out.
- The deque's `Remove(nil)` returns `NilPointer` (queue/slice_dequeue.go:60-62); any other `Remove` panics through `Iterator()`. Remove is left out.
- The deque's `ContainsAll`, `AddAll`, `RemoveAll`, `RetainAll`, `Clear`, `Equals`, `Iterator`, `RemoveLastOccurrence` and `DescendingIterator` panic unconditionally, and are left out. `RemoveFirstOccurrence` never advances its index and loops forever whenever the head slot is occupied by another element; it is left out too.
- The deque has no constructor. The model requires a power-of-two buffer of length at least 1.
- `unicode.IsSpace` is a parameter of `Str.IsBlank` (an uninterpreted predicate on runes).
- Strs.IndexOfDifference: its shortest-length scan starts from Go's 2<<32-1. The properties of `IndexOfDifferenceIsFirstDifference` and `CommonPrefixIsLongest` assume some argument is no longer than that (`FitsScan`).
- Go's fixed-width arithmetic: `int` is unbounded except where the Go code checks it. `doubleCapacity` fails when the doubled length exceeds Go's `int`. The `math` functions never overflow.
- The float min/max functions of math/math.go (lines 147-172) are left out, since floating point is out of scope.
- The `sort` adapters are modelled once over `seq<int>`. A predicate records that every element fits the chosen width. The six types differ only in that width.
- The other string helpers of strs/str.go and str/str.go (trimming, case-insensitive comparison, number tests) are outside the modelled core, as are the rest of the repository's packages (task, captcha, time, file, logging, convert).

## Findings

| source | as written | input that shows it | evidently intended | confidence | as-written member | corrected member |
|---|---|---|---|---|---|---|
| list/linked_list.go:92-105 | RemoveLast unlinks the last node but never decrements `size` | AddLast(e) on an empty list, then RemoveLast: size stays 1 with first and last nil | size decremented as in RemoveFirst | high; not executed | List.RemoveLastKeepsSize | List.RemoveLast |
| list/linked_list.go:172-178 | Pop calls RemoveLast, although its comment says it removes the first element | Push a, Push b, Pop returns a | Pop removes and returns the first element, the inverse of Push | high; not executed | List.PopTakesBottom | List.Pop |
| backend/list/slice_list.go:176-182 | batchRemove reports `modified` whenever the list was non-empty | RetainAll([x]) on the list [x] reports true, though nothing was removed | modified exactly when an element was dropped (`w != size`) | medium; not executed | BackendSliceList.BatchRemoveReportsUnchanged | BackendSliceList.BatchRemoveIntended |
| collection/list/slice_list.go:137-143 | the same `modified` flag as the backend batchRemove | RetainAll([x]) on the list [x] reports true | modified exactly when an element was dropped | medium; not executed | BackendSliceList.BatchRemoveReportsUnchanged | BackendSliceList.BatchRemoveIntended |
| queue/slice_dequeue.go:32-34 | `(tail-head)&len(elements) - 1` parses as `((tail-head) & cap) - 1` | a two-slot ring holding one element (head 0, tail 1): Size is -1 | `(tail-head) & (cap-1)` | high; not executed | SliceDeque.SizeAsWrittenWrong | SliceDeque.Size |
| queue/slice_dequeue.go:36-38 | IsEmpty compares the mis-parsed Size with 0, so it is never true | an empty deque: Size is -1, IsEmpty is false | IsEmpty exactly when there are no elements | high; not executed | SliceDeque.IsEmptyAsWritten | SliceDeque.IsEmpty |
| stack/stack.go:74-75 | Pop returns the new top's data, and dereferences nil when the last item is popped | Push 1, 2, 3, then Pop returns 2; Push 1, then Pop panics | Pop returns the removed top | high; not executed | Stack.PopReturnsNewTop | Stack.Pop |
| strs/str.go:493 | the last branch keeps the first strLen-(maxWidth-markerLen) runes | Abbreviate("abcdefghijkl", "...", 10, 7) gives "...abcdefgh", 11 runes | the marker and the last maxWidth-markerLen runes, "...ijkl" | medium; not executed | Strs.AbbreviateTailExceedsWidth | Strs.AbbreviateIntended |
| strs/str.go:486-487 | the middle branch abbreviates the runes before the offset | Abbreviate("abcdefghijklmno", "...", 6, 10) gives "...abcdef" | abbreviate the runes from the offset on: "...ghij..." | medium; not executed | Strs.AbbreviateMiddleWrongWindow | Strs.AbbreviateIntended |
| str/str.go:129-130 | a start past the end returns the whole string | SubstringStart("abc", 5) is "abc" | "" as in strs/str.go:139-140 | medium; not executed | Str.SubstringStartPastEnd | Strs.SubstringStart |
