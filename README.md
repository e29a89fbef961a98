# sequence — a verified Dafny model

This project models the `sequence` container of `Sequence.cpp`. The
container is an ordered list of items stored in a partially filled dynamic
array `data` of `capacity` slots. Its first `used` slots hold the items.
It also keeps a cursor `current_index`. The value `current_index == used`
means "no current item".

The container's operations are:

- the constructor and the copy constructor;
- `resize`;
- `start` and `advance`;
- `insert`, which puts the new item before the current one;
- `attach`, which puts the new item after the current one;
- `remove_current`;
- `operator=`;
- the queries `size`, `is_item` and `current`.

The project has four modules:

- `SequenceSpec` (`sequence_spec.dfy`) is the abstract value. A `State` is
  the list of items plus the cursor. Every operation is a function on it,
  and lemmas state the properties the operations promise:
  - where `insert` and `attach` put the entry, and that nothing else is
    lost or added;
  - that `remove_current` undoes `insert` and `attach`;
  - traversal with `start` and `advance`;
  - the capacity arithmetic of growth and `resize`;
  - the size after any run of calls.
- `SequenceAdt` (`sequence.dfy`) is the class `Sequence<T>`. Its fields are
  `data: array<T>`, `used`, `currentIndex` and `capacity`, plus a ghost
  field `contents` that `Valid()` ties to `data[0..used)`. Each method
  works in place, with the source's loops, and is proved to change
  `Model()` exactly as the matching `SequenceSpec` function says.
- `RemoveShift` (`remove_shift.dfy`) models the left-shift loop of
  `remove_current` as written, and proves the out-of-bounds read it makes
  when the array is full (see Findings).
- `SequenceClients` (`sequence_clients.dfy`) has client code:
  - a session of calls whose every observation is fixed by the contracts;
  - copy isolation for the copy constructor and for `operator=`;
  - twenty `attach` calls on a sequence of capacity 10.

The `assert(is_item())` checks of `advance`, `current` and
`remove_current` are preconditions of the class methods. The same calls in
a run of `SequenceSpec.Step` give `None`.

## Model

| member | source | states |
|---|---|---|
| SequenceSpec.Empty | Sequence.cpp:51-57 | a new sequence has no items and no current item |
| SequenceSpec.Start | Sequence.cpp:103-109 | items unchanged; a non-empty sequence gets index 0 as current, holding item 0; an empty one is left alone with no current item |
| SequenceSpec.Advance | Sequence.cpp:111-116 | items unchanged; there is a current item afterwards exactly when the old one was not the last, and it is the next item |
| SequenceSpec.Insert | Sequence.cpp:118-144 | one more item, the entry is current; the cursor stays where it was when there was a current item, else it is 0 |
| SequenceSpec.InsertContents | Sequence.cpp:138-143 | items before the insertion index are kept, the rest move one to the back, and the multiset gains exactly the entry |
| SequenceSpec.Attach | Sequence.cpp:146-165 | one more item, the entry is current; the cursor moves one on when there was a current item, else it is the old item count (the end) |
| SequenceSpec.AttachContents | Sequence.cpp:153-164 | items up to the old current one are kept (so the item before the entry is the old current, or the old last), the rest move one back, and the multiset gains exactly the entry |
| SequenceSpec.RemoveCurrent | Sequence.cpp:167-177 | one item fewer, cursor unchanged, so the follower becomes current, or there is none if the last item was removed |
| SequenceSpec.RemoveContents | Sequence.cpp:172-176 | items before the cursor are kept, those after it move one to the front, and only the old current item leaves the multiset |
| SequenceSpec.Spliced | Sequence.cpp:138-142 | the items with the entry placed at a position: one item longer, holding the entry there |
| SequenceSpec.SplicedAddsEntry | Sequence.cpp:138-143 | splicing adds exactly the entry to the multiset of items |
| SequenceSpec.Removed | Sequence.cpp:172-176 | the items without one position: one item shorter, the follower takes its place |
| SequenceSpec.RemovedTakesOne | Sequence.cpp:172-176 | removing a position takes exactly that item out of the multiset |
| SequenceSpec.RemovedSpliced | Sequence.cpp:138-143 | removing the position just spliced in gives back the items |
| SequenceSpec.GrownCapacity | Sequence.cpp:120-123 | the growth formula `(int)(capacity * 1.25 + 1)` in integers: strictly larger than the capacity, and one more than the floor of 5/4 of it |
| SequenceSpec.ResizedCapacity | Sequence.cpp:75-86 | the capacity after `resize`: at least the item count and at least 1, never the old capacity; the request, or the count when the request is below it, plus one when that equals the old capacity |
| SequenceSpec.GrowthMakesRoom | Sequence.cpp:148-151 | when the array is full, resizing to the grown capacity keeps it exactly, and it exceeds the item count |
| SequenceSpec.InsertThenRemove | Sequence.cpp:118-177 | `remove_current` right after `insert` restores the items; the cursor is back, or at the front when there was no current item |
| SequenceSpec.AttachThenRemove | Sequence.cpp:146-177 | `remove_current` right after `attach` restores the items; the cursor has advanced by one, or is unchanged when there was no current item |
| SequenceSpec.AdvanceTimes | Sequence.cpp:111-116 | repeated `advance` keeps the items and a well-formed state |
| SequenceSpec.AdvanceTimesMovesCursor | Sequence.cpp:111-116 | `n` advances move the cursor by exactly `n` |
| SequenceSpec.Traversal | Sequence.cpp:103-116 | after `i` advances from `start` the current item is item `i`; after `size()` advances there is no current item |
| SequenceSpec.Step | Sequence.cpp:111-177 | a call fails exactly when `advance` or `remove_current` is made without a current item; otherwise the state stays well formed |
| SequenceSpec.RunSize | Sequence.cpp:118-177 | after any run of calls that met their preconditions, size plus removals equals the initial size plus insertions and attachments |
| SequenceAdt.Sequence.constructor | Sequence.cpp:51-57 | requires a non-zero capacity; gives that capacity, no items, no current item, and a fresh array |
| SequenceAdt.Sequence.Copy | Sequence.cpp:59-67 | same counts, capacity and items as the source, in a fresh array |
| SequenceAdt.Sequence.Resize | Sequence.cpp:75-101 | requires a positive request; items and cursor kept, capacity as `ResizedCapacity` gives, fresh array |
| SequenceAdt.Sequence.Start | Sequence.cpp:103-109 | the new state is `Spec.Start` of the old |
| SequenceAdt.Sequence.Advance | Sequence.cpp:111-116 | requires a current item; the new state is `Spec.Advance` of the old |
| SequenceAdt.Sequence.GrowIfFull | Sequence.cpp:120-123 | a full array is resized to `GrownCapacity`; afterwards there is a free slot and the items are unchanged |
| SequenceAdt.Sequence.ShiftRight | Sequence.cpp:138-141 | the descending loop leaves the items with a copy of slot `k` spliced in at `k` (equally at `k + 1`) |
| SequenceAdt.Sequence.Insert | Sequence.cpp:118-144 | the new state is `Spec.Insert` of the old; the capacity grows by the growth formula exactly when the array was full |
| SequenceAdt.Sequence.InsertWithRoom | Sequence.cpp:125-143 | with a free slot, the new state is `Spec.Insert` of the old |
| SequenceAdt.Sequence.Attach | Sequence.cpp:146-165 | the new state is `Spec.Attach` of the old; the capacity grows by the growth formula exactly when the array was full |
| SequenceAdt.Sequence.AttachWithRoom | Sequence.cpp:153-164 | with a free slot, the new state is `Spec.Attach` of the old |
| SequenceAdt.Sequence.RemoveCurrent | Sequence.cpp:167-177 | requires a current item; the new state is `Spec.RemoveCurrent` of the old, in the same array |
| SequenceAdt.Sequence.Assign | Sequence.cpp:179-199 | a deep copy of the source into a fresh array; self-assignment changes nothing |
| SequenceAdt.Sequence.Size | Sequence.cpp:202-205 | the number of items |
| SequenceAdt.Sequence.IsItem | Sequence.cpp:207-215 | true exactly when there is a current item, i.e. `current_index != used` |
| SequenceAdt.Sequence.Current | Sequence.cpp:217-222 | requires a current item; returns the item under the cursor |
| RemoveShift.ShiftLeftAsWritten | Sequence.cpp:172-174 | the left shift as written; it fails when it reads past the array |
| RemoveShift.AsWrittenFailsWhenFull | Sequence.cpp:172-174 | with a full array the loop as written always reads past the end |
| RemoveShift.AsWrittenShiftsWhenRoom | Sequence.cpp:172-174 | with a free slot the loop as written stays in bounds and shifts the items after the cursor one to the front |
| RemoveShift.AsWrittenRemovesWhenRoom | Sequence.cpp:167-177 | with a free slot the loop as written leaves exactly what `Spec.RemoveCurrent` specifies |
| RemoveShift.FullSingleItemOverreads | Sequence.cpp:172-174 | capacity 1 after one `insert`: the loop reads `data[1]` |
| SequenceClients.Session | Sequence.cpp:103-165 | `insert(5)`, `attach(7)`, `start()`, `advance()`, `advance()` on capacity 10 observe sizes 1 and 2, current items 5, 7, 5, 7, then no current item |
| SequenceClients.CopyIsIndependent | Sequence.cpp:59-67 | changing a copy leaves the original unchanged |
| SequenceClients.AssignedIsIndependent | Sequence.cpp:179-199 | changing an assigned-to sequence leaves its source unchanged |
| SequenceClients.GrowPastCapacity | Sequence.cpp:146-165 | twenty `attach` calls on capacity 10 keep all items in order, leave the last current, and end with capacity 22 |

## Left out

- Allocation failure is not modelled: the `NULL` checks with the `cerr` message and `exit(0)` (Sequence.cpp:89-93, 187-191). Allocation in Dafny cannot fail, and the model has no I/O or process exit.
- The destructor and the `delete []` calls (Sequence.cpp:69-72, 99) are not modelled. Dafny has no manual deallocation, so the model keeps only the fresh-array and deep-copy part.
- SequenceAdt.Sequence.Assign: does not model the leak of the old array, because nothing is freed in Dafny. `operator=` allocates a new `data` without freeing the old one (Sequence.cpp:186).
- The growth factor is floating point in the source, `(int)((capacity * 1.25) + 1)`. The model uses the integer value `capacity + capacity / 4 + 1`. It is the same value whenever `capacity * 1.25` is computed exactly in double precision.
- Sizes are unbounded `nat`, so overflow in the growth formula is not modelled. The first overflow is the `(int)` conversion at Sequence.cpp:121 and 149, which is undefined once the value exceeds `INT_MAX`, well before `size_t` arithmetic would wrap.
- `Sequence.h` is not part of this model. The item type is a generic `T`, sizes are `nat`, and no default capacity is assumed.
- The `new_capacity < 1` test in `resize` (Sequence.cpp:80) is left out. It can never hold after `assert(new_capacity > 0)`, which is the precondition of `Resize`.
- SequenceAdt.Sequence.RemoveCurrent: its left shift stops at `used - 1` instead of `used`. This removes the out-of-bounds read described under Findings. The items it leaves are the same as the source's whenever the source stays in bounds (`RemoveShift.AsWrittenRemovesWhenRoom`).
- `insert` and `attach` are each split into the growth step `GrowIfFull` and a method for the rest (`InsertWithRoom`, `AttachWithRoom`). The statements and branches are the source's.
- The `return *this` of `operator=` is not modelled, so `Assign` returns nothing.

## Findings

| source | as written | input that shows it | evidently intended | confidence | as-written member | corrected member |
|---|---|---|---|---|---|---|
| Sequence.cpp:172-174 | `for (i = current_index; i < used; i++) data[i] = data[i+1];` reads `data[used]`, which is past the array when `used == capacity` | `sequence s(1); s.insert(5); s.remove_current();` reads `data[1]` of a 1-slot array | stop the shift at `used - 1`, so only live items are read | high (not executed) | RemoveShift.AsWrittenFailsWhenFull | SequenceAdt.Sequence.RemoveCurrent |
