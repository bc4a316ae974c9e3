# list: a ring-buffer list, its ordered view and its heap

This project models the Go package `list`: a generic, growable,
double-ended list kept in one slice that is used as a ring. The slice `s`
holds the elements in a window. The window starts at slot `back` and is
`len` elements long, and it may wrap past the end of the slice. Element 0
is the back of the list and element `len-1` its front. `Push` and `Pop`
work at the front.

The model has six modules, one per layer of the package:

- `Ring` (ring.dfy) is the pure arithmetic.
  - `fix`, with Go's truncating `%` written out as `GoRem`.
  - The `view` record: `elBound`, `rngBound`, `xBound`, `abs`, `fixAbs` and `wraps`.
  - The sizing rules `FixAllocSize` and `AllocDefault`, and `alloc`'s size check.
- `RingOps` (ringops.dfy) holds the slice primitives `wrapCopy`, `selfWrapCopy` and `wrapClear`.
  - They are methods over `array`s, with the loops of the source.
  - Each is specified by a slot-wise effect predicate (`Written`) and by a pure reference function (`CopiedInto`, `Shifted`, `Cleared`).
- `Windows` (window.dfy) relates the slice to the list it holds.
  - `Window(s, back, len)` is the list.
  - `ReplaceEdit` is the sequence edit that `Replace` promises.
  - Lemmas prove that each branch of `Replace` and the copy in `grow` and `CopyTo` leave the window that edit asks for.
- `Lists` (list.dfy) has the class `List` with the fields `buf`, `back` and `len`. `Elements()` is the list it holds.
  - Every method that changes the list states its new `Elements()` as an edit of the old one.
  - `Replace` is proved against `ReplaceEdit`.
  - `Insert`, `Append`, `Delete`, `Push` and `Pop` are proved against the sequence operations they amount to.
- `Ordering` (ordered.dfy) covers `CompareFunc`, the `Ordered` view and the algorithms behind its methods.
  - It has `Less`, `Compare` and `Invert`.
  - Sorting is an insertion sort through `Less` and `Swap`, proved against the reference `StableSorted`.
  - `IsSorted` decides the adjacent-pairs definition.
  - `Find` and `Contains` run a binary search proved against the reference `Search`.
- `Heaps` (heap.dfy) is the `Heap` adapter.
  - It models the `container/heap` algorithm that `Init`, `Push`, `Pop`, `Remove` and `Fix` delegate to: `up` and `down` over `Less` and `Swap`.
  - It uses the list's `Push` and `Pop` for `heapInterface.Push`/`Pop`.
  - Each operation is proved to keep the heap invariant and to add or remove exactly the right element.

Go's zero value of `T` is a `zero` held by each list, and clearing a slot writes it. An `AllocFunc` is an `AllocPolicy`: `Default` (nil) or a caller's function from `(min, max)` to a slice length or an error. A `FreeFunc` is a flag, plus a ghost log of the slices handed to it.

The package's doc-comments and its code disagree in several places (see "## Findings"). The mutation contracts here follow the doc-comments. Each place where the code does something else is modelled twice: once as written, with a lemma showing the difference on a concrete input, and once corrected. The rest of the model uses the corrected member. Where one operation stacks several of these faults (`CopyTo` and the in-place branches of `Replace`), a `...Position...AsWritten` function isolates the fault in its own code by taking the helpers as their doc-comments describe them, and an `...AsWritten` function runs the code in full, helpers as written included.

## Model

| member | source | states |
|---|---|---|
| Ring.GoRem | list/list.go:630 | Go's `%`: the remainder has the sign of the dividend and is smaller than the divisor in size |
| Ring.Fix | list/list.go:607-631 | `fix(length, i)` is 0 for length 0 and otherwise lies in [0, length); an index already in range is left as it is |
| Ring.FixIsEuclideanMod | list/list.go:607-631 | the fast paths and the fallback of `fix` all give the non-negative remainder `i mod length` |
| Ring.FixShift | list/list.go:607-631 | `fix` ignores whole multiples of the length, in either direction |
| Ring.FixAdd | list/list.go:607-631 | fixing, then moving by k, then fixing again is moving by k and fixing once |
| Ring.BoundsExact | list/list.go:123-132 | `elBound(i)` iff 0 <= i < len; `rngBound(i, j)` iff 0 <= i <= j <= len; `xBound(i, n)` iff elBound(i) and 0 <= n <= len |
| Ring.AbsInjective | list/list.go:134-142 | `abs` maps a valid position into [0, slen), to slot back+i around the slice, and distinct positions to distinct slots |
| Ring.FixAbsInRange | list/list.go:144-157 | the corrected `fixAbs(i)` is `abs(fix(len, i))`: slot back + (i mod len) around the slice |
| Ring.FixAbsAsWrittenIsWrong | list/list.go:145-157 | `fixAbs` as written answers slot 0 for position 0 of a list starting at slot 1, where the list's element 0 is in slot 1 |
| Ring.FixAbsAsWrittenAgreesAtZeroBack | list/list.go:145-157 | when back is 0 the written `fixAbs` gives the intended slot |
| Ring.WrapsIffLastBeforeBack | list/list.go:159-160 | `wraps` holds exactly when the front element's slot comes before the back's |
| Ring.FixAllocSize | list/list.go:30-37 | the size is the intended one or maxCap, never more than the intended one, never more than a bounded maxCap, and the intended one when maxCap < 0 |
| Ring.AllocDefaultMeetsContract | list/list.go:39-44 | `AllocDefault` gives min*3/2+1 elements (clamped to max), never fewer than min and never more than a non-negative max, and `alloc`'s check accepts it |
| Ring.AllocSizeOkExact | list/list.go:171-173 | `alloc` accepts a slice length exactly when min <= length and (max < 0 or length <= max) |
| RingOps.CopyCount | list/list.go:561-567 | `wrapCopy` copies 0 elements when either slice is empty or n < 1, and otherwise min(n, l1, l2) |
| RingOps.CopyPrefixIsCopiedInto | list/list.go:568-575 | the chunk-by-chunk loop of `wrapCopy` ends with the element-by-element copy of the reference `CopiedInto` |
| RingOps.CopiedIntoAt | list/list.go:556-576 | element k of the copy, at slot fix(i2)+k around s2, is element fix(i1)+k around s1 |
| RingOps.CopiedIntoElsewhere | list/list.go:556-576 | slots of s2 outside the copied run keep their values |
| RingOps.WrapCopy | list/list.go:556-576 | `wrapCopy` returns the count copied and writes exactly those elements of s1 into s2 from fix(i2), around both slices |
| RingOps.WrapCopyAsWrittenCopiesBackwards | list/list.go:570 | as written, `copy(s1[...], s2[...])` overwrites s1 with s2 and leaves s2 unchanged |
| RingOps.ShiftIsNopExactly | list/list.go:528-533 | for a run that fits, `selfWrapCopy` skips the move exactly when m == 0 |
| RingOps.ShiftedAt | list/list.go:526-554 | after a shift, slot fix(i)+m+k around the slice holds the old element at fix(i)+k |
| RingOps.SelfWrapCopy | list/list.go:526-554 | `selfWrapCopy` moves the n elements at i by m positions around the slice, each target slot getting the value its source slot held before, whenever n + abs(m) <= len(s); it is a no-op in the cases its comment lists. The model orders the moves by the sign of m, where the source tests `targetI < i` (see "## Findings") |
| RingOps.SelfWrapCopyAsWrittenStopsAtEnd | list/list.go:540-553 | as written, moving [5, 9) right by 3 in a slice of 10 holding 0..9 only sets slots 8 and 9 (to 5 and 6); slots 0 and 1 keep 0 and 1 where they should get 7 and 8 |
| RingOps.SelfWrapCopyAsWrittenCopiesBackwards | list/list.go:537-539 | as written, moving [5, 7) left by 2 in a slice of 10 holding 0..9 writes 3 and 4 into slots 5 and 6, where slots 3 and 4 should get 5 and 6 |
| RingOps.SelfWrapCopyAsWrittenPanicsWhenWrapping | list/list.go:540-553 | as written, moving [8, 12) right by 1 in a slice of length and capacity 10 slices `s[8:12]` and panics |
| RingOps.SelfWrapCopyAsWrittenAgreesWithoutWrap | list/list.go:540-553 | a right move whose target run ends inside the slice is done right as written |
| RingOps.ClearCount | list/list.go:578-595 | `wrapClear` clears 0 slots for an empty slice or n == 0, all of them when n covers the slice, and otherwise abs(n) |
| RingOps.ClearedExactly | list/list.go:578-606 | exactly the abs(n) slots from i (or before i when n < 0) around the slice become zero, and the others keep their values |
| RingOps.ClearedWritten | list/list.go:578-606 | the reference clear writes zeros over exactly the run starting at `ClearStart` |
| RingOps.WrapClear | list/list.go:578-606 | `wrapClear` returns the count cleared and zeroes exactly that run |
| RingOps.WrapClearAsWrittenPanicsWhenWrapping | list/list.go:596-603 | as written, clearing 3 slots from slot 4 of a 5-slot slice reaches `s[3:2]` and panics |
| RingOps.WrapClearAsWrittenAgreesWithoutWrap | list/list.go:596-603 | when the run does not wrap, the written loop clears exactly the intended slots |
| Windows.ReplaceEdit | list/list.go:380-434 | the edit exists exactly for 0 <= i <= j <= len and is old[0:i], then vs, then old[j:], element by element |
| Windows.ReplaceNothingIsIdentity | list/list.go:386-389 | replacing an empty range with nothing leaves the list as it was |
| Windows.ReplaceWithOwnRangeIsIdentity | list/list.go:380-381 | replacing a range with its own elements leaves the list as it was |
| Windows.ReplaceReallocCorrect | list/list.go:395-408 | the three copies into the new slice leave, from slot 0, old[0:i] + vs + old[j:] |
| Windows.ReplaceShiftBackCorrect | list/list.go:412-431 | moving the back part by the balloon, zeroing the freed slots and writing vs leaves the edited list starting at back+balloon |
| Windows.ReplaceShiftFrontCorrect | list/list.go:412-431 | moving the front part by minus the balloon, zeroing the freed slots and writing vs leaves the edited list at the same back |
| Windows.ShiftBackVacated | list/list.go:426-428 | in the back branch, every slot that was in the old window and is outside the new one ends up zero |
| Windows.ShiftFrontVacated | list/list.go:426-428 | in the front branch, every slot that was in the old window and is outside the new one ends up zero |
| Windows.WindowCopiedOut | list/list.go:226-228 | copying the window into a new slice from slot 0 keeps the list |
| Windows.CopyToSlots | list/list.go:237-249 | the copy of CopyTo puts element fix(len, i+k) of the list in slot k, and leaves the rest of the destination alone |
| Lists.AllocResult | list/list.go:162-176 | `alloc` returns a slice length in [min, max] (max < 0: unbounded), or the allocator's own error, or ErrInvalidAllocation |
| Lists.DefaultAllocSucceeds | list/list.go:162-176 | with no AllocFunc, `alloc` succeeds whenever min <= max or max < 0 |
| Lists.NewNError | list/list.go:100-115 | NewN fails with ErrInvalidPosition unless 0 <= back < len(s) (back 0 for an empty s), then with ErrInvalidAmount unless 0 <= length <= len(s); it succeeds exactly on a valid window |
| Lists.NewN | list/list.go:94-115 | NewN returns the error NewNError gives, or a list over the window (back, length) of s |
| Lists.List.New | list/list.go:69-92 | `New(s, true)` holds all of s in order and `New(s, false)` is empty, starting at slot 0 |
| Lists.List.Empty | list/list.go:50-67 | the zero List has no slice and no elements |
| Lists.List.Cap | list/list.go:187-188 | Cap is the slice length and at least Len |
| Lists.List.Len | list/list.go:190-191 | Len is the number of elements |
| Lists.List.Free | list/list.go:193-195 | Len + Free == Cap and Free is not negative |
| Lists.List.Val | list/list.go:317-324 | `Val(i)` is (element i, true) iff 0 <= i < Len, and otherwise (zero, false) |
| Lists.List.At | list/list.go:326-334 | `At(i)` is element i mod Len (so At(-1) is the front), and the zero value on an empty list |
| Lists.List.AtWraps | list/list.go:326-334 | At is periodic with period Len and agrees with Go's positions taken mod Len |
| Lists.List.Back | list/list.go:337-338 | Back is element 0, or zero on an empty list |
| Lists.List.Front | list/list.go:340-342 | Front is element Len-1, or zero on an empty list |
| Lists.List.SwapOK | list/list.go:258-272 | ErrInvalidPosition unless both positions are valid; false for i == j; otherwise true with the two elements exchanged and nothing else changed |
| Lists.List.Swap | list/list.go:251-256 | two valid positions are exchanged; anything else leaves the list unchanged |
| Lists.List.Clear | list/list.go:357-363 | Clear returns the old Len, zeroes exactly the old live slots, and leaves an empty list with back 0 |
| Lists.List.Alloc | list/list.go:162-176 | a new slice of the length `alloc` accepts, filled with the zero value, or `alloc`'s error and no slice |
| Lists.List.Release | list/list.go:178-185 | with a FreeFunc, the old live slots are zeroed before the old slice is handed over; the list then uses the new slice |
| Lists.List.EnsureFree | list/list.go:218-235 | `grow` leaves Free in [min, max] or returns the allocator's error with nothing changed; when Free is already in [min, max] it changes nothing; a new slice is fresh and the list starts at its slot 0; the elements are kept; after a move, a set FreeFunc has received the old slice with the list's slots zeroed, and without one the old slice is untouched |
| Lists.List.Grow | list/list.go:197-205 | Grow(n) fails with ErrInvalidAmount for n < 0, and otherwise leaves room for n more elements unless the allocator refuses; it changes nothing when n <= Free already, and a new slice holds the list from slot 0; the elements never change; after a move, a set FreeFunc has received the old slice with the list's slots zeroed |
| Lists.List.GrowRange | list/list.go:207-216 | GrowRange fails with ErrInvalidAmount unless 0 <= min <= max, and otherwise leaves Free in [min, max] unless the allocator refuses; it changes nothing when Free is in [min, max] already, and a new slice holds the list from slot 0; after a move, a set FreeFunc has received the old slice with the list's slots zeroed |
| Lists.List.CopyTo | list/list.go:237-249 | ErrInvalidRange unless xBound(i, n); otherwise dst[k] is element i+k around the list for k < min(n, len(dst)), and the rest of dst is untouched |
| Lists.List.Replace | list/list.go:380-434 | ErrInvalidRange (list unchanged) unless 0 <= i <= j <= Len; otherwise the list becomes old[0:i] + vs + old[j:]; only a refused allocation fails, and a result that fits never allocates; in place, every slot the list gives up is zeroed; after a move to a new slice, a set FreeFunc has received the old one with the list's slots zeroed |
| Lists.List.ReplaceInPlace | list/list.go:412-434 | when the result fits the slice, the list becomes old[0:i] + vs + old[j:] in the same slice, and every slot the list gives up is zeroed |
| Lists.List.Insert | list/list.go:365-372 | ErrInvalidPosition unless 0 <= i <= Len; otherwise vs is placed before element i; after a move, a set FreeFunc has received the old slice with the list's slots zeroed |
| Lists.List.Append | list/list.go:374-375 | vs is added at the front; only a refused allocation fails; after a move, a set FreeFunc has received the old slice with the list's slots zeroed |
| Lists.List.Delete | list/list.go:377-378 | ErrInvalidRange unless 0 <= i <= j <= Len; otherwise old[i:j] is removed, without allocating; the slots of the removed elements that the list no longer covers are zeroed |
| Lists.List.Push | list/list.go:344-345 | v is added at the front, unless the allocator refuses and the list is left as it was; after a move, a set FreeFunc has received the old slice with the list's slots zeroed |
| Lists.List.Pop | list/list.go:347-355 | the front element is removed and returned; an empty list returns zero and stays empty; the slot it leaves is zeroed; nothing is handed to FreeFunc |
| Lists.List.Rotate | list/list.go:314-315 | element n mod Len becomes the back and the order around the list is kept; the slice and Len do not change |
| Lists.RotateUndone | list/list.go:314-315 | rotating by n and then by -n gives the list back |
| Lists.List.StringRange | list/list.go:486-512 | ErrInvalidRange and "" unless xBound(i, n); otherwise "[" + the n elements from i around the list, rendered and separated by ", ", + "]" |
| Lists.SwapGuardAsWrittenIsInverted | list/list.go:260-263 | the written guard rejects every pair of valid positions and accepts every pair of invalid ones |
| Lists.GrowAsWrittenNeverGrows | list/list.go:218-235 | as written, Grow(n) never allocates, whatever Free is |
| Lists.GrowAsWrittenLosesElements | list/list.go:218-235 | as written, GrowRange on a list with more than max free slots never moves it to a smaller slice, and a full list of 10 asking for 1..5 free slots gets a slice of 2 |
| Lists.CopyToPositionReadsUnusedSlots | list/list.go:239-249 | with wrapCopy taken as its doc-comment describes it, the positions CopyTo uses as written wrap around the slice instead of the list: [1, 2] in [1, 2, 9] copied from element 1 gives [2, 9] |
| Lists.CopyToAsWrittenOverwritesList | list/list.go:239-249 | CopyTo in full as written, with the written wrapCopy: copying [1, 2] into [0, 0] leaves the destination [0, 0] and turns the list into [0, 0] |
| Lists.ReplaceFrontPositionsMisplace | list/list.go:412-434 | with wrapCopy, selfWrapCopy, wrapClear and fixAbs taken as their doc-comments describe them, the positions the front branch uses as written turn the deletion of element 2 of [1, 2, 3, 4] into [4, 2, 3] instead of [1, 2, 4] |
| Lists.ReplaceBackPositionsMisplace | list/list.go:412-434 | with the helpers taken as their doc-comments describe them, the positions the back branch uses as written turn inserting 9 at position 1 of [1, 2, 3, 4] in a slice of 5 into [4, 9, 1, 2, 3] instead of [1, 9, 2, 3, 4] |
| Lists.ReplaceDeleteAsWrittenKeepsElement | list/list.go:412-434 | the in-place branches in full as written, helpers included: deleting element 2 of a full [1, 2, 3, 4] leaves [1, 2, 3] |
| Lists.ReplaceInsertAsWrittenDropsValue | list/list.go:412-434 | the in-place branches in full as written: inserting 9 at position 1 of [1, 2, 3, 4] in a slice of 5 leaves [4, 1, 1, 2, 3], and 9 is never written |
| Lists.PopAsWrittenKeepsFront | list/list.go:347-355 | as written, Pop on [1, 2] or [1, 2, 3] returns the front element but keeps it |
| Lists.PopAsWrittenAgreesOnSingleton | list/list.go:347-355 | as written, Pop on a one-element list does remove the element |
| Lists.RotateAsWrittenReadsUnusedSlots | list/list.go:314-315 | as written, Rotate(1) on [1, 2, 3] in a slice of 4 gives [2, 3, 0] |
| Lists.RotateAsWrittenIgnoresBack | list/list.go:314-315 | as written, Rotate(0) on [1, 2, 3] stored from slot 1 of [3, 1, 2] gives [3, 1, 2]: the written `fixAbs` never adds back |
| Lists.RotateAsWrittenAgreesWhenFull | list/list.go:314-315 | on a list that fills its slice and starts at slot 0, moving back to the written `fixAbs(n)` is the rotation by n |
| Ordering.InverseIsValid | list/ordered.go:8-19 | the inverse of a strict weak ordering is one, and it reverses "less" and keeps "equivalent" |
| Ordering.InverseInverse | list/ordered.go:18-19 | inverting twice gives the original comparison |
| Ordering.CompareReflexive | list/ordered.go:8-16 | a strict weak ordering finds every element equivalent to itself |
| Ordering.SortedIffAscending | list/ordered.go:97-103 | the adjacent check of IsSorted holds iff every element is not greater than every later one |
| Ordering.StableSortedAscending | list/ordered.go:87-95 | the stable sort's result is ascending |
| Ordering.StableSortedIsStable | list/ordered.go:87-95 | equivalent elements keep their relative order through the stable sort |
| Ordering.StableSortedOfSorted | list/ordered.go:87-95 | a list that is already sorted is left as it is |
| Ordering.StableSortedIdempotent | list/ordered.go:87-95 | sorting twice is sorting once |
| Ordering.FindIn | list/ordered.go:105-111 | `sort.Find` answers a position in [0, n] and whether the probe is zero there |
| Ordering.SearchBoundary | list/ordered.go:105-111 | the binary search ends where the probe stops being positive |
| Ordering.FindInIsLowerBound | list/ordered.go:105-111 | on an ascending list Find returns the smallest position whose element is not less than v, and found iff that element is equivalent to v |
| Ordering.FindInDecidesMembership | list/ordered.go:113-119 | on an ascending list, Find's found holds iff an element equivalent to v is present |
| Ordering.FindAsWrittenMissesPresentValue | list/ordered.go:107-111 | as written, Find(3) on [1, 2, 3] answers (0, false), where (2, true) is intended |
| Ordering.ProbeAsWrittenIsInverted | list/ordered.go:107-111 | the written probe is positive exactly where the intended one is negative |
| Ordering.Ordered.Invert | list/ordered.go:43-59 | Invert keeps the same list and swaps the comparison's operands |
| Ordering.Ordered.LessInRange | list/ordered.go:61-65 | for positions in range, Less(i, j) iff element i compares below element j |
| Ordering.Ordered.LessIsCompareBelowZero | list/ordered.go:61-75 | Less(i, j) iff Compare(i, j) < 0, and the inverted view's Less(i, j) is Less(j, i) |
| Ordering.Ordered.CompareAntisymmetric | list/ordered.go:67-75 | Compare(i, j) < 0 iff Compare(j, i) > 0, Compare(i, i) is 0, and on an empty list Less is false and Compare is 0 |
| Ordering.Ordered.Sort | list/ordered.go:77-85 | the elements are permuted and, for a strict weak ordering, end ascending; Len and the slice do not change |
| Ordering.Ordered.SortStable | list/ordered.go:87-95 | the elements end as StableSorted of the old ones (ascending, a permutation, stable) |
| Ordering.Ordered.IsSorted | list/ordered.go:97-103 | IsSorted iff no element is less than the one before it |
| Ordering.Ordered.Find | list/ordered.go:105-111 | Find answers what `sort.Find` over the list answers with the target-versus-element probe |
| Ordering.Ordered.FindAsWritten | list/ordered.go:107-111 | the written Find answers what `sort.Find` answers with the element-versus-target probe |
| Ordering.Ordered.Contains | list/ordered.go:113-119 | Contains iff Find found an element equivalent to v; on an ascending list, iff such an element is present |
| Ordering.SortFind | list/ordered.go:107-111 | the halving loop of `sort.Find` over the list ends with the answer of the reference search |
| Ordering.NewOrdered | list/ordered.go:35-41 | a new Ordered has an empty list and the given comparison |
| Heaps.HeapRootMin | list/heap.go:59-63 | the root of a heap is not greater than any element |
| Heaps.HeapDocExample | list/ordered.go:44-51 | a heap of 5, 3, 8 and 9 has 3 at the root, and under the inverted order 9 |
| Heaps.Heap.Init | list/heap.go:38-43 | Init permutes the elements into a heap |
| Heaps.Heap.Fix | list/heap.go:45-51 | after one element changes, Fix restores the heap and keeps the elements |
| Heaps.Heap.Push | list/heap.go:53-57 | Push adds v and keeps the heap, unless the list's allocator refuses and nothing is added |
| Heaps.Heap.Pop | list/heap.go:59-63 | Pop removes and returns the root, which is a minimum, and keeps the heap; as Remove(0) does |
| Heaps.Heap.Remove | list/heap.go:65-68 | Remove(i) removes and returns the element at i and keeps the heap |
| Heaps.OrderedHeap | list/heap.go:13-22 | `Ordered.Heap` shares the list and leaves it a heap of the same elements |
| Heaps.ListHeap | list/heap.go:24-29 | `List.Heap(cmp)` leaves the list a heap of the same elements under cmp |
| Heaps.NewHeap | list/heap.go:31-36 | a new heap is empty, so it is a heap |

## Left out

- `MarshalJSON`, `UnmarshalJSON` and `Heap.UnmarshalJSON` (list/list.go:436-484, list/heap.go:70-78) are not modelled: they wrap `encoding/json`.
- `Shuffle`, `ShuffleRange` and `ShuffleRangeRand` (list/list.go:274-312) are not modelled: they depend on `math/rand`.
- `String` and `toString` (list/list.go:514-524) are not modelled: they are `fmt` formatting. `StringRange` takes the element renderer as a function `T -> string`.
- An `AllocFunc` is modelled by the length of the slice it returns, or by its failing. Its slices hold the zero value; reusing a slice that holds other values is not modelled.
- A `FreeFunc` is modelled by a ghost log of the slices handed to it; what it does with them is not modelled.
- `List.Ordered(cmp)` (list/ordered.go:29-33) is the `Ordered` datatype's constructor applied to the list and cmp; it has no member of its own.
- Go's `int` is unbounded here: overflow of positions and sizes is not modelled.
- Concurrency is not modelled; the package documents the type as not safe for concurrent use.
- `slices.SortFunc`, `sort.Sort`, `sort.Stable`, `sort.Find` and `container/heap` are not part of this model. They are replaced by an insertion sort, a halving search and the `up`/`down` algorithm, each proved against its documented contract.
- `Ordering.Ordered.Sort`: proved only to permute the elements into ascending order, which is all `Sort` promises; the order among equivalent elements that pdqsort would leave is not modelled.
- `Ordering.Ordered.Sort` and `Ordering.Ordered.SortStable`: the promise of an ascending result holds only for a strict weak ordering (`ValidCompare`), as the `CompareFunc` doc-comment demands.
- `Heaps.Heap.Init`, `Heaps.Heap.Push`, `Heaps.Heap.Pop`, `Heaps.Heap.Remove` and `Heaps.Heap.Fix`: they require a strict weak ordering, and all but `Init` require the list to be a heap already, as `container/heap` does.
- `Heaps.Heap.Remove` and `Heaps.Heap.Fix`: they require 0 <= i < Len, where `container/heap` panics or misbehaves.
- `Heaps.Heap.Fix` takes the heap before the change as a ghost argument. The change itself happens outside the heap, through the shared list.
- `Heaps.Heap.Push`: the list's `Push` drops the allocator's error, so the contract allows the element not to be added when the allocator refuses.
- `Heaps.Heap.Init`: only the heap invariant afterwards is stated, which is the sense of "idempotent with respect to the heap invariants"; that Init leaves an existing heap unchanged is not stated.
- `RingOps.SelfWrapCopy`: the effect is stated only for a run that fits, n + |m| <= len(s), which is how `Replace` uses it. A move that overlaps itself around the whole slice is not stated.
- `RingOps.SelfWrapCopyAsWritten`: slices are modelled with capacity equal to length, as `make` gives them. A slice with spare capacity (one a caller hands to `New` or `NewN`, say) lets `s[j-c:j]` reach into that capacity past len(s) instead of panicking; what the loop then reads and writes is not modelled.
- `Lists.List.Rotate`: on a list that does not fill its slice, the corrected Rotate moves the elements one at a time. The source has no such code (see "## Findings"), so the cost of this loop is the model's own.
- The doc-comment of `CopyTo` says it returns the number of elements copied; the code returns only an error, and the model follows the code.

## Findings

| source | as written | input that shows it | evidently intended | confidence | as-written member | corrected member |
|---|---|---|---|---|---|---|
| list/list.go:570 | `wrapCopy` calls `copy(s1[...], s2[...])`, which copies from s2 into s1 | wrapCopy([1], [2], 0, 0, 1) leaves s2 = [2] and turns s1 into [2] | copy from s1 into s2, as the doc-comment says | high, not executed | RingOps.WrapCopyAsWrittenCopiesBackwards | RingOps.WrapCopy |
| list/list.go:152-156 | `fixAbs` returns `fix(len, i)` (minus slen when it exceeds slen) without adding back | fixAbs(0) with slen 4, len 2, back 1 is slot 0, where element 0 is in slot 1 | `abs(fix(len, i))`, as the comment at list/list.go:148 says | high, not executed | Ring.FixAbsAsWrittenIsWrong | Ring.FixAbsInRange |
| list/list.go:261 | `SwapOK` returns ErrInvalidPosition when either position is valid | SwapOK(0, 1) on [1, 2] fails; SwapOK(5, 6) on [1, 2] passes the guard | fail when either position is out of range | high, not executed | Lists.SwapGuardAsWrittenIsInverted | Lists.List.SwapOK |
| list/list.go:352 | `Pop` calls `Replace(l.len-1, 1)` | Pop on [1, 2] returns 2 and the list stays [1, 2] | `Replace(l.len-1, l.len)`; the heap's `Pop` and `Remove` go through it | high, not executed | Lists.PopAsWrittenKeepsFront | Lists.List.Pop |
| list/list.go:223-224 | `grow` allocates only when slen < len + (max-min)/2, and asks `alloc` for min..max elements in all | Grow(5) on a full list of 10 never allocates; GrowRange(1, 5) on it would get a slice of 2 | allocate when Free is outside [min, max], for len+min..len+max elements | high, not executed | Lists.GrowAsWrittenNeverGrows | Lists.List.EnsureFree |
| list/list.go:416-423 | the in-place branches of `Replace` pass list positions where slice positions are needed, and the front branch moves by +balloon | with the helpers as their doc-comments describe them, Delete(2, 3) on a full [1, 2, 3, 4] gives [4, 2, 3] and Insert(1, 9) on [1, 2, 3, 4] in a slice of 5 gives [4, 9, 1, 2, 3]; with the helpers as written too, they give [1, 2, 3] and [4, 1, 1, 2, 3] | old[0:i] + vs + old[j:] | high, not executed | Lists.ReplaceFrontPositionsMisplace | Lists.List.ReplaceInPlace |
| list/list.go:537-553 | `selfWrapCopy` picks the order of the moves by `targetI < i`; its left-part-first branch copies the target run into the source run, and its right-part-first loop starts past the slice and counts cut rounds in full | moving [5, 9) right by 3 in 10 slots leaves slots 0 and 1 alone; moving [5, 7) left by 2 writes into slots 5 and 6; moving [8, 12) right by 1 in a slice of length and capacity 10 panics | every slot of the target run gets the old value of its source slot | high, not executed | RingOps.SelfWrapCopyAsWrittenStopsAtEnd | RingOps.SelfWrapCopy |
| list/list.go:597-603 | `wrapClear`'s loop adds the running total `cleared` to i and subtracts it from left on every round | wrapClear on 5 slots from slot 4 for 3 slots reaches `s[3:2]` and panics | clear slots 4, 0 and 1 | high, not executed | RingOps.WrapClearAsWrittenPanicsWhenWrapping | RingOps.WrapClear |
| list/ordered.go:108-110 | `Find` probes with `cmp(element, v)`, but `sort.Find` expects `cmp(v, element)` | Find(3) on [1, 2, 3] answers (0, false) and Contains(3) is false | (2, true) | high, not executed | Ordering.FindAsWrittenMissesPresentValue | Ordering.Ordered.Find |
| list/list.go:315 | `Rotate` only moves back, also on a list that does not fill its slice | Rotate(1) on [1, 2, 3] in a slice of 4 gives [2, 3, 0] | [2, 3, 1] | high, not executed | Lists.RotateAsWrittenReadsUnusedSlots | Lists.List.Rotate |
| list/list.go:246 | `CopyTo` copies from slot abs(i) wrapping around the slice, not around the list | with wrapCopy as its doc-comment describes it, CopyTo from element 1 of [1, 2] in the slice [1, 2, 9] gives [2, 9]; with wrapCopy as written, the destination is never written and the list is overwritten instead | [2, 1] | medium, not executed | Lists.CopyToPositionReadsUnusedSlots | Lists.List.CopyTo |
