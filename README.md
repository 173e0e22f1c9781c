# Compact list

A Dafny model of `compact_list`: a doubly-linked list kept inside one resizable array of slots.
Slot 0 is a sentinel whose `next` and `prev` name the first and the last element. Slots in use
are linked through `next`/`prev`; unused slots form a singly-linked free chain headed by `free`,
with `prev` 0 and the poison value. An iterator is a slot index. Inserting takes the head of the
free chain and doubles the array once the last free slot is gone; erasing pushes the slot back
on the chain and may shrink the array; `linearize` permutes the slots in place so that the
elements occupy consecutive slots in list order; `list_check` walks both chains.

The model is split as follows.

- `Slots` (slots.dfy): the slot datatype `Node`, the constants 16 (default capacity) and 2
  (growth factor), and the representation invariant `Layout`. `Layout` relates the array to two
  abstract sequences: `order`, the slots of the elements in list order, and `fo`, the free chain
  in chain order. It also says every non-sentinel slot is on exactly one of them.
- `Arena` (arena.dfy): the slot writes of insertion (`Link`) and erasure (`Unlink`) as functions
  on the slot sequence, with lemmas that they keep `Layout` and insert or remove exactly one value.
- `Resizing` (resize.dfy): the array left by growing (`FreeRun`) and by shrinking (`Shrunk`,
  `FreeFrom`), the shrink guard `ShrinkFires` and the shrink target `ShrinkTarget`.
- `Linearization` (linearize.dfy): the three loops of `linearize` as specification functions
  (`Stamped`, `Swapped`, `Relinked`), plus the ranking invariant (`Ranked`, `Settled`) that
  the cycle-following swap loop keeps.
- `Integrity` (integrity.dfy): what `list_check` accepts (`CheckPasses`).
- `ListImpl` (list_impl.dfy): the class `CompactList<T>`. Its fields are the array `nodes`,
  `free`, `size`, `capacity` and `isLinear`, plus the ghost `order` and `freeOrder`. Each operation
  of list_impl.h is a method or function on it. `Valid()` is the invariant every public
  operation keeps.
- `Findings` (findings.dfy): the parts of the code that do not do what is evidently intended,
  modelled as written, with the inputs that show it.

The element type is the type parameter `T`; the poison value is the constant `poison` given
to the constructor.

Two points where the intended meaning and the code part ways, and the model follows the code:

- `linearize` is meant to put each element at the slot of its rank (list.h:190-195). The flag it
  sets survives `pop_front` (list_impl.h:176-177), though, after which the elements sit in
  consecutive slots starting after slot 1; `element_by_number` allows for that by adding
  `list_begin` (list_impl.h:242). The model's flag is therefore one-sided: when it is set,
  `Contiguous(order)` holds (consecutive slots in list order, not necessarily starting at 1); a
  cleared flag says nothing, since an insertion clears it even where the slots stay consecutive
  (list_impl.h:88-89).
- `list_check` has no test of its own on the sentinel's free flag (list_impl.h:249-251). Neither
  does `CheckPasses`; the sentinel's flag is only looked at when a walk steps onto slot 0, as the
  active walk does at once when it starts at 0.

## Model

| member | source | states |
|---|---|---|
| ListImpl.CompactList.constructor | list_impl.h:16-41 | A new list has 16 slots, no elements, free head 1 and slots 1..15 chained free in index order; it is valid and linear. |
| ListImpl.CompactList.Begin | list_impl.h:51-56 | On a consistent list the result is the first element's slot, and it is 0 exactly when the list is empty. |
| ListImpl.CompactList.End | list_impl.h:58-63 | On a consistent list the result is the last element's slot, and it is 0 exactly when the list is empty. |
| ListImpl.CompactList.Next | list_impl.h:65-70 | The successor of the element at position k is the slot at position k+1, or 0 after the last; from the sentinel it is the first element. |
| ListImpl.CompactList.Prev | list_impl.h:72-77 | The predecessor of the element at position k is the slot at position k-1, or 0 before the first; from the sentinel it is the last element. |
| ListImpl.CompactList.GetElement | list_impl.h:146-153 | Iterator 0 yields the poison value; the slot of the k-th element yields the k-th element; any other slot yields the poison value. |
| ListImpl.CompactList.ElementByNumber | list_impl.h:235-243 | The result is 0 on a non-linear list or when `num >= size`; otherwise it is the slot of element `num`, and reading that slot gives element `num`. |
| ListImpl.CompactList.InsertAfter | list_impl.h:79-105 | The value is inserted just after `it` (at the front for 0) into the old free head. Size grows by one. Linearity survives only if the new slot lies between `it` and its successor. The capacity doubles exactly when the last free slot was taken. The array is the linked one plus the new free run. |
| ListImpl.CompactList.SpliceAfter | list_impl.h:84-100 | The slot writes of `insert_after` before the growth check. They keep the layout, insert the value at the right position and advance the free head; the free head becomes 0 exactly when no spare slot is left. |
| ListImpl.CompactList.InsertBefore | list_impl.h:107-134 | The value is inserted just before `it` (at the back for 0) into the old free head. Linearity survives only if the new slot lies between the predecessor and `it`. Capacity and array are as for `InsertAfter`. |
| ListImpl.CompactList.SpliceBefore | list_impl.h:113-129 | The slot writes of `insert_before` before the growth check, with the same guarantees as `SpliceAfter`. |
| ListImpl.CompactList.PushBack | list_impl.h:136-139 | The value is appended in the old free head, and the list is no longer linear. The capacity doubles exactly when the last free slot was taken; the free head becomes the old capacity then, and the old head's successor otherwise. The new array is the old one with the slot linked between the last element and the sentinel, plus the new free run. |
| ListImpl.CompactList.PushFront | list_impl.h:141-144 | The value is prepended in the old free head. The list stays linear only if the new slot is 1 and the old first element was in slot 2. Capacity and free head are as for `PushBack`; the new array is the old one with the slot linked between the sentinel and the first element, plus the new free run. |
| ListImpl.CompactList.EraseElement | list_impl.h:155-181 | Iterator 0 changes nothing. Otherwise the element is removed from the list, and linearity survives only at either end of the list. The array shrinks exactly when the shrink guard holds and the corrected target is below the capacity, and then to that target. The result is the shrunk image of the unlinked array, whose free chain is its free slots from 1 upwards in index order, headed by the lowest. Without a shrink, the array is the unlinked one and the erased slot is pushed on the free chain as its new head (LIFO reuse). |
| ListImpl.CompactList.SpliceOut | list_impl.h:161-178 | The slot writes of `erase_element` before the shrink check. They keep the layout, remove exactly that element, and push its slot on the front of the free chain. |
| ListImpl.CompactList.PopBack | list_impl.h:183-186 | An empty list keeps its array, free head, capacity and flag. Otherwise the last element is removed and linearity is kept. The array shrinks exactly when the guard holds and the target is below the capacity, and then to that target, giving the shrunk image of the unlinked array, with its free slots chained in index order from the lowest. Otherwise the array is the unlinked one and the popped slot is pushed on the front of the free chain. |
| ListImpl.CompactList.PopFront | list_impl.h:188-191 | An empty list keeps its array, free head, capacity and flag. Otherwise the first element is removed and linearity is kept. The shrink, its target, the resulting array and the free chain are as for `PopBack`. |
| ListImpl.PushBackThree | list_impl.h:136-139 | Three `push_back`s on a new list return slots 1, 2 and 3, and the list holds the three values in order. The list is a fresh object with a fresh array, still at the default capacity. |
| ListImpl.CompactList.SwapSlots | list_impl.h:330-340 | Two distinct slots exchange their whole contents. |
| ListImpl.CompactList.StampRanks | list_impl.h:196-202 | The walk along the active chain leaves the k-th element's `prev` holding k+1 and changes nothing else. |
| ListImpl.CompactList.PlaceByRank | list_impl.h:203-210 | After the swap loop, slot r holds the element of rank r, every other non-sentinel slot is free and poisoned, and the sentinel is untouched. |
| ListImpl.CompactList.SwapToRank | list_impl.h:205-209 | One swap keeps the ranking invariant and places at least one more element at its rank. |
| ListImpl.CompactList.Relink | list_impl.h:212-227 | The relinking loop leaves exactly the array given by `Linearization.Relinked` (with the corrected sentinel link). |
| ListImpl.CompactList.RelinkAt | list_impl.h:217-226 | One relinking step rewrites slot i as `Relinked` prescribes and no other slot. |
| ListImpl.CompactList.Rearrange | list_impl.h:196-227 | After the three loops the elements occupy slots 1..size in list order with the same values, and slots size+1..capacity-1 form the free chain in index order. |
| ListImpl.CompactList.Linearize | list_impl.h:193-233 | A linear list is untouched. Any other list keeps its elements and becomes linear with its elements in slots 1..size and the free chain size+1..capacity-1 in index order, whether or not it shrinks. Its capacity drops exactly when the shrink guard holds and the target for elements from slot 1 is below the capacity, and then to that target. |
| ListImpl.CompactList.Straighten | list_impl.h:196-231 | The rearrangement plus the header writes give a valid linear list with the same contents in slots 1..size. |
| ListImpl.CompactList.ShrinkLinear | list_impl.h:232 | Shrinking a freshly linearized list keeps its elements in slots 1..size and its free chain at size+1..capacity-1 in index order. It shrinks exactly when the guard holds and the target is below the capacity. |
| ListImpl.CompactList.TryGrow | list_impl.h:297-303 | A list with a free slot is unchanged; otherwise the capacity doubles, the old slots are kept at their indices and the new ones are chained free from the old capacity. Contents are unchanged in both cases. |
| ListImpl.CompactList.Grow | list_impl.h:305-327 | Growing keeps every old slot at its index, appends a run of free slots chained in index order, makes the old capacity the free head, and keeps the list valid with unchanged contents. |
| ListImpl.CompactList.Extended | list_impl.h:307-317 | The new array copies the old slots and fills the rest with free poisoned slots, each linked to its successor modulo the new size. |
| ListImpl.CompactList.CloseChain | list_impl.h:319-327 | After a growth the closing walk follows the active chain to the last element; its write leaves the array as it was. |
| ListImpl.CompactList.TryShrink | list_impl.h:280-295 | The capacity changes exactly when the shrink guard holds and the corrected target is below the capacity. Otherwise nothing changes. When the array shrinks, it shrinks to that target, keeps the elements, and re-chains the retained free slots in index order. |
| ListImpl.CompactList.ShrinkTo | list_impl.h:305-327 | Shrinking to a target that holds the element block keeps the list valid, linear and with the same contents. The free chain becomes the retained free slots in index order. |
| ListImpl.CompactList.Truncated | list_impl.h:307-327 | The reallocation plus a top-down walk produces exactly the `Shrunk` array, and the head is the lowest retained free slot. |
| ListImpl.CompactList.Rechain | list_impl.h:319-327 | One walk step rewrites only slot j and moves the head to the lowest free slot at or above j. |
| ListImpl.CompactList.CheckFrom | list_impl.h:245-278 | The result equals `CheckPasses` from the given start: header bounds, a `size`-step active walk and a `capacity - size - 1`-step free walk, both ending at 0. |
| ListImpl.CompactList.Check | list_impl.h:245-278 | `list_check` started from the first element accepts every valid list. |
| ListImpl.CompactList.CheckAsWritten | list_impl.h:254 | `list_check` started from `list_begin(0)`, which is 0, rejects every valid non-empty list. |
| ListImpl.CompactList.LinkAfter | list_impl.h:93-100 | The three slot writes of `insert_after` leave exactly `Link` of the old array. |
| ListImpl.CompactList.LinkBefore | list_impl.h:122-129 | The three slot writes of `insert_before` leave exactly `Link` of the old array. |
| ListImpl.CompactList.UnlinkSlot | list_impl.h:164-172 | The three slot writes of `erase_element` leave exactly `Unlink` of the old array. |
| ListImpl.CompactList.Prefix | list_impl.h:307-308 | The shrinking reallocation gives a fresh array holding exactly the first `t` slots. |
| ListImpl.CompactList.Gather | list_impl.h:196-210 | The first two loops of `linearize` leave the element of rank r in slot r, every later slot free and poisoned, and the sentinel in use. |
| ListImpl.CompactList.Adopt | list_impl.h:229-230 | The header writes that end each update install the array, free head, size and flag; the list is then consistent with the given chains and their values. |
| ListImpl.AfterNeighbours | list_impl.h:84-86 | The neighbours `insert_after` reads are the chain's neighbours at the insert position. |
| ListImpl.BeforeNeighbours | list_impl.h:113-115 | The neighbours `insert_before` reads are the chain's neighbours at the insert position. |
| ListImpl.LinearFreeFrom | list_impl.h:215-232 | After `linearize`, with the elements in slots 1..size and the free chain size+1..capacity-1, rebuilding the free chain of a shrunk prefix gives size+1..t-1. |
| ListImpl.TailSlot | list_impl.h:183-186 | The slot `pop_back` erases is the last element on the chain, and its successor is the sentinel. |
| ListImpl.HeadSlot | list_impl.h:188-191 | The slot `pop_front` erases is the first element on the chain, and its predecessor is the sentinel. |
| ListImpl.PoisonedUnlessActive | list_impl.h:146-153 | A non-sentinel slot that holds no element is free and holds the poison value. |
| Arena.LinkLayout | list_impl.h:93-100 | Linking the free head between two chain neighbours keeps the layout, with the new slot in the active chain and the free chain's tail as the free chain. |
| Arena.LinkContents | list_impl.h:93-100 | Linking inserts exactly the new value at the chosen position of the contents. |
| Arena.UnlinkLayout | list_impl.h:164-174 | Unlinking an element keeps the layout, removing the slot from the active chain and pushing it on the free chain. |
| Arena.UnlinkContents | list_impl.h:164-172 | Unlinking removes exactly that element's value from the contents. |
| Arena.LinearInsert | list_impl.h:88-89 | An insertion that passes the linearity test on a contiguous list can only happen at the front into slot 1, and it keeps the list contiguous. |
| Arena.LinearErase | list_impl.h:176-177 | Erasing the first or the last element of a contiguous list keeps it contiguous. |
| Resizing.GrownLayout | list_impl.h:305-327 | Appending the free run to a full layout gives a layout whose free chain is the new slots in index order, with the contents unchanged. |
| Resizing.FreeRunLinks | list_impl.h:311-317 | The new slots of a growth link to one another in index order and end at 0. |
| Resizing.ShrunkLayout | list_impl.h:305-327 | Keeping the first t slots of a contiguous layout whose elements all lie below t, and re-chaining the free ones, gives a layout with the same contents. |
| Resizing.FreeFromIota | list_impl.h:319-327 | When the slots below the new capacity are free exactly above some index n, the rebuilt free chain is the run of free slots in index order. |
| Resizing.ShrunkFree | list_impl.h:319-327 | The re-chained free slots of the shrunk array form a free chain in index order, and with the elements they cover every retained slot. |
| Resizing.ShrinkFires | list_impl.h:282-287 | The guard fires only for a linear list of at least 7 elements, where twice the needed room is above 16 and at most half the capacity. |
| Resizing.ShrinkTarget | list_impl.h:289-292 | The corrected target is at least twice the room the elements need and past the last element; it is one of those two values. |
| Integrity.LayoutPassesCheck | list_impl.h:245-278 | A consistent layout with a spare slot and at least 16 slots passes both walks when the active walk starts at the first element. |
| Integrity.WalkFromSentinelFails | list_impl.h:253-264 | An active walk starting at the sentinel fails on every consistent non-empty layout. |
| Integrity.CheckAcceptsTangled | list_impl.h:245-278 | The check accepts 16 slots that no consistent three-element layout describes: the sentinel and slot 1 point at each other, and slots 2 and 3 are on no chain. |
| Integrity.ActiveChainWalks | list_impl.h:253-262 | The active chain of a consistent layout passes the active walk from any position to its end. |
| Integrity.FreeChainWalks | list_impl.h:266-273 | The free chain of a consistent layout passes the free walk from any position to its end. |
| Linearization.StampedRanked | list_impl.h:196-202 | After rank stamping, every element knows its rank, every free slot holds the poison value, and the settled prefix starts empty. |
| Linearization.SwapStep | list_impl.h:205-209 | Swapping slot i with the slot of its rank keeps the ranking invariant and strictly shrinks the set of unplaced ranks. |
| Linearization.RankedPlaced | list_impl.h:203-210 | Once every slot is settled, slot r holds the element of rank r and the remaining slots are free. |
| Linearization.RelinkedLayout | list_impl.h:212-227 | Relinking a placed array gives the linear layout: elements in slots 1..n in list order, free chain n+1..capacity-1, contents unchanged. |
| Linearization.RelinkedValues | list_impl.h:215-227 | Relinking keeps the values of slots 1..n, which are the elements in order. |
| Findings.ShrinkTargetAsWritten | list_impl.h:289-292 | The target as written is the smaller of twice the needed room and one past the last element. |
| Findings.ShrinkBelowDefaultAsWritten | list_impl.h:280-292 | With 7 elements in a linear 64-slot list the guard fires and the target as written is 9, below 16, which no check accepts. The corrected target is 18. |
| Findings.ShrinkCutsElementsAsWritten | list_impl.h:280-292 | With 14 contiguous elements starting at slot 27 the target as written is 32, which cuts off elements. The corrected target 42 keeps them all. |
| Findings.TruncationAsWritten | list_impl.h:305-327 | Truncating a linearized list of 14 in 64 slots to 16 slots, as written, leaves free slot 15 (the free head) linked to slot 16, past the end. The closing walk from the head leaves the array, and no layout results. |
| Findings.LastLink | list_impl.h:319-327 | The closing walk of `resize_list` as written: when it stops, it stops inside the array at a slot whose `next` is 0; it yields None when it reads past the end. |
| Findings.FreeWalkEnds | list_impl.h:319-327 | On a consistent layout the walk from any free slot stops at the last slot of the free chain. |
| Findings.ShrunkWalkEnds | list_impl.h:319-327 | After the corrected shrink, the walk from the new free head stays inside the array and stops at the last retained free slot. |
| Findings.LinkPastEnd | list_impl.h:319-327 | A free slot linking past the end of the array rules out every consistent layout. |
| Findings.RelinkEmptyAsWritten | list_impl.h:212-213 | On an empty non-linear list the sentinel's `next` as written is 1, a free slot, so no layout results. The corrected first slot for an empty list is 0. |

## Left out

- Diagnostics: each `LOG_ASSERT` on a null list or a null array is left out, and so is the logger it calls. The model's list always exists.
- `list_dtor` is left out: releasing the array has no counterpart here.
- Allocation failure in `resize_list` is not modelled: an unchecked `reallocarray` result becomes a fresh Dafny array.
- `list.h` (the `element_t` typedef and `POISON`, lines 17-20) is not modelled as such: the element type is the type parameter `T` and the poison value is a constructor argument.
- `size_t` wrap-around is not modelled; indices and counts are unbounded naturals, and capacities stay far below any overflow in the code's own arithmetic.
- ListImpl.CompactList.SwapSlots: `memswap` exchanges bytes by XOR. The model swaps whole slots and requires the two slots to be distinct. `linearize` only calls it on distinct slots, where XOR swapping is an exchange.
- ListImpl.CompactList.InsertAfter, InsertBefore, EraseElement: iterators must be 0 or name an element. A free or out-of-range iterator corrupts the C list, and such inputs are excluded because `list.h` makes them the caller's error.
- ListImpl.CompactList.EraseElement: iterator 0 stops at the `LOG_ASSERT`, as in the code. Only the diagnostic message is left out.
- ListImpl.CompactList.CheckFrom: an index outside the array fails the walk, where the C code would read out of bounds.
- ListImpl.CompactList.TryShrink: shrinking uses the corrected target (see Findings) instead of the one as written. Because the corrected target can reach the current capacity, the model skips the resize when the target is not below it; the target as written never reaches it.
- ListImpl.CompactList.Linearize, Relink: the corrected sentinel link (0 for an empty list) is used; the written link 1 is in Findings.
- ListImpl.CompactList.ShrinkTo, Truncated: the shrinking walk re-chains the retained free slots in index order instead of following the old free chain. The written walk is `Findings.LastLink`, shown to leave the array on the truncated slots in `Findings.TruncationAsWritten`.
- ListImpl.CompactList.Check: walks from the first element, as `list_check` intends; the written start 0 is in `CheckAsWritten`.
- Integrity.CheckPasses: the walks of `list_check` are a necessary condition for a list, not a sufficient one. They never test that a walk visits distinct slots or covers every slot, and `Integrity.CheckAcceptsTangled` exhibits slots they accept that are not a list. A check that rejects every inconsistent list is not modelled.
- Concurrency: none in the code, none modelled.

## Findings

| source | as written | input that shows it | evidently intended | confidence | as-written member | corrected member |
|---|---|---|---|---|---|---|
| list_impl.h:289-292 | The shrink target is lowered to `list_begin + size + 1` when that is smaller than `(size+2)*2`, which can fall below the default capacity of 16. | 7 elements in slots 1..7 of a linear 64-slot list: the target is 9. | The capacity never drops below 16; the target is the larger of the two bounds. | high, not executed | Findings.ShrinkBelowDefaultAsWritten | Resizing.ShrinkTarget |
| list_impl.h:289-292 | The same lowering can cut off elements when the element block starts late. | 40 elements linearized into 64 slots, then 26 `pop_front`s: 14 elements in slots 27..40 and a target of 32. | The shrunk array holds every element: target at least `list_begin + size + 1`. | high, not executed | Findings.ShrinkCutsElementsAsWritten | ListImpl.CompactList.ShrinkTo |
| list_impl.h:319-327 | When shrinking, the closing walk follows the old free chain from its head and never unlinks slots beyond the new capacity. | A linearized list of 14 in 64 slots shrunk to 16 (the target as written): the free head 15 still links to 16, and the walk reads slot 16, past the end. | The retained free slots form a chain that stays inside the array. | high, not executed | Findings.TruncationAsWritten | Findings.ShrunkWalkEnds |
| list_impl.h:212 | `linearize` always points the sentinel's `next` at slot 1. | `push_back`, then `pop_back`, then `linearize`: the list is empty and slot 1 is free. | An empty list's sentinel points at itself (0). | high, not executed | Findings.RelinkEmptyAsWritten | Linearization.RelinkedLayout |
| list_impl.h:254 | `list_check` starts its active walk at `list_begin(0)`: with a null list that call returns 0, the sentinel. | Any list after one `push_back`: the sentinel's `prev` is 1, not 0. | The walk starts at the first element, `list_begin(list)`. | high, not executed | ListImpl.CompactList.CheckAsWritten | ListImpl.CompactList.Check |
