/** Callers of `Vector` that use nothing but its contracts. */
module Scenarios {
  import opened Memory
  import opened Sequences
  import opened Vectors

  /** Inserting `x` at `pos` and erasing at the position `Insert` returns
      gives back the vector's elements, whether the insert succeeded or
      raised. */
  method InsertThenErase<T(0)>(v: Vector<T>, pos: nat, x: T, faults: Faults) returns (ok: bool)
    requires v.Valid() && pos <= v.size
    modifies v, v.data, v.data.buffer
    ensures v.Valid() && v.Elements() == old(v.Elements())
  {
    ghost var before := v.Elements();
    var index;
    ok, index := v.Insert(pos, x, faults);
    if ok {
      EraseUndoesInsert(before, pos, x);
      index := v.Erase(index);
    }
  }

  /** A vector of three elements at capacity three; the append of a fourth
      must reallocate, and the element type raises on the third relocation.
      The append fails and leaves size, capacity and elements as they were. */
  method GrowthFailureLeavesVectorUnchanged() returns (v: Vector<int>)
    ensures v.Valid() && v.Size() == 3 && v.Capacity() == 3 && v.Elements() == [1, 2, 3]
  {
    v := new Vector<int>();
    var ok := v.Reserve(3, NeverThrows);
    ok := v.PushBack(1, NeverThrows);
    ok := v.PushBack(2, NeverThrows);
    ok := v.PushBack(3, NeverThrows);
    assert v.Elements() == [1, 2, 3] && v.Capacity() == 3;
    ok := v.PushBack(4, ThrowsAfter(3));
    assert !ok;
  }

  /** Moving a vector leaves the two with separate storage, so they can
      later be swapped: the elements moved out come back. */
  method MovedVectorsCanSwap() returns (v: Vector<int>, w: Vector<int>)
    ensures v.Valid() && v.Elements() == [7, 7] && v.Capacity() == 2
    ensures w.Valid() && w.Elements() == [] && w.Capacity() == 0
  {
    v := new Vector<int>.Sized(2, 7);
    w := new Vector<int>.Move(v);
    w.Swap(v);
  }

  /** Erasing the first element of [1, 2, 3] leaves [2, 3]; erasing the last
      leaves [1, 2]. */
  method EraseEnds() returns (front: Vector<int>, back: Vector<int>)
    ensures front.Valid() && front.Elements() == [2, 3] && front.Size() == 2
    ensures back.Valid() && back.Elements() == [1, 2] && back.Size() == 2
  {
    front := new Vector<int>.Sized(3, 0);
    front.Set(0, 1);
    front.Set(1, 2);
    front.Set(2, 3);
    back := new Vector<int>.Copy(front);
    assert front.Elements() == [1, 2, 3];
    var index := front.Erase(0);
    index := back.Erase(2);
  }
}
