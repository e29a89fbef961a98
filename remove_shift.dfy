/**
 The left shift of `remove_current()` as it is written: slot `i` takes the
 value of slot `i + 1` for every `i` from the cursor while `i < used`. The
 last step reads slot `used`, which is outside the array when it is full.
 Here the array is a sequence `buf` of `capacity` slots, and a read outside
 it makes the run fail (`None`). The class in SequenceAdt uses the corrected
 bound `i < used - 1`.
 */
module RemoveShift {
  import Spec = SequenceSpec

  /** The loop as written, from index `i` on, over the first `used` slots. */
  function ShiftLeftAsWritten<T>(buf: seq<T>, i: nat, used: nat): (r: Spec.Option<seq<T>>)
    requires i <= used <= |buf|
    ensures r.Some? ==> |r.value| == |buf|
    decreases used - i
  {
    if i == used then Spec.Some(buf)
    else if i + 1 >= |buf| then Spec.None
    else ShiftLeftAsWritten(buf[i := buf[i + 1]], i + 1, used)
  }

  /** With the array full, any run that starts before `used` reads past the
      end of the array. */
  lemma {:induction false} AsWrittenFailsWhenFull<T>(buf: seq<T>, i: nat, used: nat)
    requires i < used == |buf|
    ensures ShiftLeftAsWritten(buf, i, used).None?
    decreases used - i
  {
    if i + 1 < |buf| {
      AsWrittenFailsWhenFull(buf[i := buf[i + 1]], i + 1, used);
    }
  }

  /** With a free slot the run stays inside the array, and the slots before
      `i` keep their values while those from `i` to `used - 1` take the value
      one further back. */
  lemma {:induction false} AsWrittenShiftsWhenRoom<T>(buf: seq<T>, i: nat, used: nat)
    requires i <= used < |buf|
    ensures var r := ShiftLeftAsWritten(buf, i, used);
      && r.Some?
      && (forall j :: 0 <= j < i ==> r.value[j] == buf[j])
      && (forall j :: i <= j < used ==> r.value[j] == buf[j + 1])
    decreases used - i
  {
    if i < used {
      var next := buf[i := buf[i + 1]];
      AsWrittenShiftsWhenRoom(next, i + 1, used);
      var r := ShiftLeftAsWritten(next, i + 1, used);
      assert r.value[i] == next[i] == buf[i + 1];
    }
  }

  /** So when the array is not full, the first `used - 1` slots after the
      loop as written are what `remove_current()` is specified to leave. */
  lemma AsWrittenRemovesWhenRoom<T>(buf: seq<T>, cursor: nat, used: nat)
    requires cursor < used < |buf|
    ensures ShiftLeftAsWritten(buf, cursor, used).Some?
    ensures Spec.State(ShiftLeftAsWritten(buf, cursor, used).value[..used - 1], cursor)
         == Spec.RemoveCurrent(Spec.State(buf[..used], cursor))
  {
    AsWrittenShiftsWhenRoom(buf, cursor, used);
    var r := ShiftLeftAsWritten(buf, cursor, used).value;
    Spec.RemovedByPoints(buf[..used], r[..used - 1], cursor);
  }

  /** The smallest case: a sequence of capacity 1 after `insert(5)` holds one
      item, the cursor is on it and the array is full, so `remove_current()`
      reads `data[1]`, one past the end. */
  lemma FullSingleItemOverreads()
    ensures ShiftLeftAsWritten([5], 0, 1).None?
  {
    AsWrittenFailsWhenFull([5], 0, 1);
  }
}
