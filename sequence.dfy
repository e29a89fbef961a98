/**
 The `sequence` container: a partially filled dynamic array `data` of size
 `capacity` whose first `used` slots hold the items, and a cursor
 `currentIndex`, equal to `used` when there is no current item. The ghost
 field `contents` names the items; `Valid()` ties it to `data[0..used)`.
 Every mutator is proved to act on the abstract value `Model()` exactly as
 the matching function of SequenceSpec says.
 */
module SequenceAdt {
  import Spec = SequenceSpec

  class Sequence<T(0)> {
    var data: array<T>
    var used: nat
    var currentIndex: nat
    var capacity: nat

    /** The items in order. */
    ghost var contents: seq<T>

    /** The class invariant: the array has `capacity` slots, at least one,
        `currentIndex <= used <= capacity`, and the first `used` slots hold
        `contents`. */
    ghost predicate Valid()
      reads this, data
    {
      && data.Length == capacity
      && 1 <= capacity
      && currentIndex <= used <= capacity
      && contents == data[..used]
    }

    /** The abstract value: the items and the cursor. */
    ghost function Model(): Spec.State<T>
      reads this
    {
      Spec.State(contents, currentIndex)
    }

    constructor (initialCapacity: nat)
      requires initialCapacity != 0
      ensures Valid() && fresh(data)
      ensures capacity == initialCapacity
      ensures Model() == Spec.Empty()
    {
      used, currentIndex, capacity := 0, 0, initialCapacity;
      data := new T[initialCapacity];
      contents := [];
    }

    /** The copy constructor: same counts and capacity, the items copied into
        an array of its own. */
    constructor Copy(source: Sequence<T>)
      requires source.Valid()
      ensures Valid() && fresh(data)
      ensures used == source.used && currentIndex == source.currentIndex
      ensures capacity == source.capacity
      ensures Model() == source.Model()
    {
      var d := new T[source.capacity];
      var i := 0;
      while i < source.used
        invariant i <= source.used
        invariant forall j :: 0 <= j < i ==> d[j] == source.data[j]
      {
        d[i] := source.data[i];
        i := i + 1;
      }
      assert d[..source.used] == source.contents;
      used, currentIndex, capacity := source.used, source.currentIndex, source.capacity;
      data := d;
      contents := source.contents;
    }

    /** `resize(new_capacity)`: moves the items into a fresh array of the
        capacity `Spec.ResizedCapacity` gives; items and cursor are kept. */
    method Resize(newCapacity: nat)
      requires Valid() && newCapacity > 0
      modifies this
      ensures Valid() && fresh(data)
      ensures used == old(used) && Model() == old(Model())
      ensures capacity == Spec.ResizedCapacity(old(capacity), old(used), newCapacity)
    {
      var requested := newCapacity;
      if requested < used {
        requested := if used > 0 then used else 1;
      }
      capacity := if requested == capacity then requested + 1 else requested;
      var temp := new T[capacity];
      var i := 0;
      while i < used
        modifies temp
        invariant i <= used
        invariant forall j :: 0 <= j < i ==> temp[j] == data[j]
      {
        temp[i] := data[i];
        i := i + 1;
      }
      assert temp[..used] == contents;
      data := temp;
    }

    /** `start()`. */
    method Start()
      requires Valid()
      modifies this`currentIndex
      ensures Valid()
      ensures Model() == Spec.Start(old(Model()))
    {
      if used > 0 {
        currentIndex := 0;
      }
    }

    /** `advance()`; its `is_item()` assertion is the precondition. */
    method Advance()
      requires Valid() && IsItem()
      modifies this`currentIndex
      ensures Valid()
      ensures Model() == Spec.Advance(old(Model()))
    {
      currentIndex := currentIndex + 1;
    }

    /** Moves `data[k..used)` one slot to the back, from the end downwards,
        leaving `data[0..k]` as it was (the loop of `insert` and `attach`):
        the first `used + 1` slots become the items with a copy of `data[k]`
        spliced in at `k`, which for `k < used` is the same as splicing the
        item `k` in at `k + 1`. */
    method ShiftRight(k: nat)
      requires Valid() && k <= used < capacity
      modifies data
      ensures data[..used + 1] == Spec.Spliced(contents, k, old(data[k]))
      ensures k < used ==> data[..used + 1] == Spec.Spliced(contents, k + 1, contents[k])
    {
      ghost var x := data[k];
      var i := used;
      while i > k
        invariant k <= i <= used
        invariant forall j :: 0 <= j <= i ==> data[j] == old(data[j])
        invariant forall j :: i < j <= used ==> data[j] == old(data[j - 1])
      {
        data[i] := data[i - 1];
        i := i - 1;
      }
      Spec.SplicedByPoints(contents, data[..used + 1], k, x);
      if k < used {
        Spec.SplicedDuplicate(contents, k);
      }
    }

    /** The growth step `insert` and `attach` both begin with: a full array
        is resized to `Spec.GrownCapacity(capacity)`, which leaves room for
        one more item. */
    method GrowIfFull()
      requires Valid()
      modifies this
      ensures Valid() && used < capacity
      ensures used == old(used) && Model() == old(Model())
      ensures capacity == if old(used) == old(capacity)
                          then Spec.GrownCapacity(old(capacity)) else old(capacity)
      ensures old(used) < old(capacity) ==> data == old(data)
      ensures old(used) == old(capacity) ==> fresh(data)
    {
      if used == capacity {
        Spec.GrowthMakesRoom(capacity, used);
        Resize(Spec.GrownCapacity(capacity));
      }
    }

    /** `insert(entry)`: grows a full array first, then puts the entry before
        the current item (at the front when there is none). */
    method Insert(entry: T)
      requires Valid()
      modifies this, data
      ensures Valid()
      ensures Model() == Spec.Insert(old(Model()), entry)
      ensures capacity == if old(used) == old(capacity)
                          then Spec.GrownCapacity(old(capacity)) else old(capacity)
      ensures old(used) < old(capacity) ==> data == old(data)
      ensures old(used) == old(capacity) ==> fresh(data)
    {
      GrowIfFull();
      InsertWithRoom(entry);
    }

    /** The part of `insert` after the growth step, when a slot is free. */
    method InsertWithRoom(entry: T)
      requires Valid() && used < capacity
      modifies this`used, this`currentIndex, this`contents, data
      ensures Valid()
      ensures Model() == Spec.Insert(old(Model()), entry)
    {
      if currentIndex == used && used == 0 {
        data[0] := entry;
        used := used + 1;
        contents := Spec.Spliced(contents, 0, entry);
        assert contents == data[..used];
        return;
      }
      if currentIndex == used && used > 0 {
        currentIndex := 0;
      }
      ghost var moved := data[currentIndex];
      ShiftRight(currentIndex);
      ghost var shifted := data[..used + 1];
      data[currentIndex] := entry;
      assert data[..used + 1] == shifted[currentIndex := entry];
      Spec.SplicedOverwrite(contents, currentIndex, moved, entry);
      used := used + 1;
      contents := Spec.Spliced(contents, currentIndex, entry);
    }

    /** `attach(entry)`: grows a full array first, then puts the entry after
        the current item (at the end when there is none). */
    method Attach(entry: T)
      requires Valid()
      modifies this, data
      ensures Valid()
      ensures Model() == Spec.Attach(old(Model()), entry)
      ensures capacity == if old(used) == old(capacity)
                          then Spec.GrownCapacity(old(capacity)) else old(capacity)
      ensures old(used) < old(capacity) ==> data == old(data)
      ensures old(used) == old(capacity) ==> fresh(data)
    {
      GrowIfFull();
      AttachWithRoom(entry);
    }

    /** The part of `attach` after the growth step, when a slot is free. */
    method AttachWithRoom(entry: T)
      requires Valid() && used < capacity
      modifies this`used, this`currentIndex, this`contents, data
      ensures Valid()
      ensures Model() == Spec.Attach(old(Model()), entry)
    {
      ghost var pre := Model();
      if currentIndex == used {
        data[currentIndex] := entry;
        Spec.SplicedAtEnd(contents, entry);
        used := used + 1;
        contents := Spec.Spliced(contents, currentIndex, entry);
        assert contents == data[..used];
        assert Spec.AttachIndex(pre) == currentIndex;
        return;
      }
      ShiftRight(currentIndex);
      ghost var shifted := data[..used + 1];
      data[currentIndex + 1] := entry;
      assert data[..used + 1] == shifted[currentIndex + 1 := entry];
      Spec.SplicedOverwrite(contents, currentIndex + 1, contents[currentIndex], entry);
      used, currentIndex := used + 1, currentIndex + 1;
      contents := Spec.Spliced(contents, currentIndex, entry);
      assert Spec.AttachIndex(pre) == currentIndex;
    }

    /** `remove_current()`; its `is_item()` assertion is the precondition.
        The left shift stops at `used - 1`, so it never reads past the items. */
    method RemoveCurrent()
      requires Valid() && IsItem()
      modifies this`used, this`contents, data
      ensures Valid() && data == old(data) && capacity == old(capacity)
      ensures Model() == Spec.RemoveCurrent(old(Model()))
    {
      var i := currentIndex;
      while i < used - 1
        modifies data
        invariant currentIndex <= i <= used - 1
        invariant forall j :: 0 <= j < currentIndex ==> data[j] == contents[j]
        invariant forall j :: currentIndex <= j < i ==> data[j] == contents[j + 1]
        invariant forall j :: i <= j < used ==> data[j] == contents[j]
      {
        data[i] := data[i + 1];
        i := i + 1;
      }
      Spec.RemovedByPoints(contents, data[..used - 1], currentIndex);
      used := used - 1;
      contents := Spec.Removed(contents, currentIndex);
    }

    /** `operator=`: a deep copy of `source` into a fresh array; assigning an
        object to itself changes nothing. */
    method Assign(source: Sequence<T>)
      requires Valid() && source.Valid()
      modifies this
      ensures Valid()
      ensures used == source.used && currentIndex == source.currentIndex
      ensures capacity == source.capacity
      ensures Model() == source.Model() == old(source.Model())
      ensures source == this ==> unchanged(this)
      ensures source != this ==> fresh(data)
    {
      if source != this {
        var d := new T[source.capacity];
        var i := 0;
        while i < source.used
          modifies d
          invariant i <= source.used
          invariant forall j :: 0 <= j < i ==> d[j] == source.data[j]
        {
          d[i] := source.data[i];
          i := i + 1;
        }
        assert d[..source.used] == source.contents;
        used, currentIndex, capacity := source.used, source.currentIndex, source.capacity;
        data := d;
        contents := source.contents;
      }
    }

    /** `size()`: the number of items. */
    function Size(): (n: nat)
      reads this, data
      requires Valid()
      ensures n == |Model().items|
    {
      used
    }

    /** `is_item()`: whether there is a current item. */
    function IsItem(): (b: bool)
      reads this, data
      requires Valid()
      ensures b <==> Spec.HasCurrent(Model())
      ensures b <==> currentIndex < used
    {
      currentIndex != used
    }

    /** `current()`; its `is_item()` assertion is the precondition. */
    function Current(): (x: T)
      reads this, data
      requires Valid() && IsItem()
      ensures x == Spec.Current(Model())
    {
      data[currentIndex]
    }
  }
}
