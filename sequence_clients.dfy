/**
 Client code of the `sequence` container: a session of calls whose every
 observation is fixed by the contracts, the independence of a copy from
 its original, and growth well past the initial capacity.
 */
module SequenceClients {
  import Spec = SequenceSpec
  import opened SequenceAdt

  /** A session on a sequence of capacity 10: `insert(5)`, `attach(7)`,
      `start()`, `advance()`, `advance()`, observing `size()`, `is_item()`
      and `current()` after each call. */
  method Session() returns (size1: nat, current1: int, size2: nat, current2: int,
                            current3: int, current4: int, more: bool)
    ensures size1 == 1 && current1 == 5
    ensures size2 == 2 && current2 == 7
    ensures current3 == 5 && current4 == 7
    ensures !more
  {
    var s := new Sequence<int>(10);
    s.Insert(5);
    size1, current1 := s.Size(), s.Current();
    s.Attach(7);
    size2, current2 := s.Size(), s.Current();
    assert s.Model().items == [5, 7];
    s.Start();
    current3 := s.Current();
    s.Advance();
    current4 := s.Current();
    s.Advance();
    more := s.IsItem();
  }

  /** Changing a copy made by the copy constructor leaves the original as
      it was. */
  method CopyIsIndependent(original: Sequence<int>)
    requires original.Valid()
    ensures original.Valid() && original.Model() == old(original.Model())
  {
    var copy := new Sequence<int>.Copy(original);
    copy.Insert(9);
    if copy.IsItem() {
      copy.RemoveCurrent();
    }
  }

  /** Changing a sequence that was assigned from another leaves the other as
      it was. */
  method AssignedIsIndependent(original: Sequence<int>, other: Sequence<int>)
    requires original.Valid() && other.Valid() && other != original
    modifies other
    ensures original.Valid() && original.Model() == old(original.Model())
    ensures other.Model() == Spec.Insert(old(original.Model()), 9)
  {
    other.Assign(original);
    other.Insert(9);
  }

  /** The capacity of a sequence created with capacity 10 after `n` calls of
      `attach`, for `n <= 20`. */
  function CapacityAfterAttaches(n: nat): nat
  {
    if n <= 10 then 10 else if n <= 13 then 13 else if n <= 17 then 17 else 22
  }

  /** Each `attach` grows the capacity exactly when the array is full. */
  lemma GrowthSchedule(n: nat)
    requires n < 20
    ensures CapacityAfterAttaches(n + 1) ==
      if n == CapacityAfterAttaches(n) then Spec.GrownCapacity(n)
      else CapacityAfterAttaches(n)
  {
  }

  /** Twenty calls of `attach(i)` on a sequence of capacity 10 keep every
      item in order, end with the last one current, and grow the capacity
      10, 13, 17, 22. */
  method GrowPastCapacity() returns (s: Sequence<int>)
    ensures fresh(s) && s.Valid()
    ensures s.Model() == Spec.State(seq(20, j => j), 19)
    ensures s.capacity == 22
  {
    s := new Sequence<int>(10);
    var i := 0;
    while i < 20
      invariant 0 <= i <= 20
      invariant fresh(s) && fresh(s.data) && s.Valid() && s.used == i
      invariant s.Model().items == seq(i, j => j)
      invariant i > 0 ==> s.Model().cursor == i - 1
      invariant i == 0 ==> s.Model().cursor == 0
      invariant s.capacity == CapacityAfterAttaches(i)
    {
      ghost var before := s.Model().items;
      GrowthSchedule(i);
      s.Attach(i);
      Spec.SplicedAtEnd(before, i);
      assert seq(i + 1, j => j) == before + [i];
      i := i + 1;
    }
  }
}
