/** `Vector<T>`: a growable contiguous sequence built on one RawMemory and
    a count `size` of live elements, which occupy slots `[0, size)`.
    Positions (C++ iterators) are indices: `begin()` is 0, `end()` is `size`. */
module Vectors {
  import opened Memory
  import opened Sequences
  import opened Growth

  class Vector<T(0)> {
    /** The storage the vector owns; C++ embeds it as `data_`, so it is the
        same object for the vector's whole life and only its block changes. */
    const data: RawMemory<T>
    var size: nat

    ghost predicate Valid()
      reads this, data
    {
      size <= data.buffer.Length
    }

    /** The live elements, in order. */
    ghost function Elements(): seq<T>
      reads this, data, data.buffer
      requires Valid()
    {
      data.buffer[..size]
    }

    /** Distinct vectors own distinct storage: C++ ownership, which no two
        `Vector` objects can share. */
    ghost predicate Separate(other: Vector<T>)
      reads this, data, other, other.data
    {
      this != other ==> data != other.data && data.buffer != other.data.buffer
    }

    /** `Vector()`: no elements, no storage. */
    constructor ()
      ensures Valid() && Elements() == [] && Capacity() == 0
      ensures fresh(data) && fresh(data.buffer)
    {
      data := new RawMemory<T>.Empty();
      size := 0;
    }

    /** `Vector(n)`: exactly `n` slots, all holding the value-constructed
        element `init` (the value `T()` yields). */
    constructor Sized(n: nat, init: T)
      ensures Valid() && Elements() == Filled(n, init) && Capacity() == n
      ensures fresh(data) && fresh(data.buffer)
    {
      var mem := new RawMemory<T>(n);
      var ok := ValueConstructN(mem.buffer, 0, n, init, NeverThrows);
      data := mem;
      size := n;
    }

    /** Copy construction: exactly `other.Size()` slots holding copies of the
        elements of `other`, which is left as it was. */
    constructor Copy(other: Vector<T>)
      requires other.Valid()
      ensures Valid() && Elements() == other.Elements() && Capacity() == other.size
      ensures fresh(data) && fresh(data.buffer)
    {
      var mem := new RawMemory<T>(other.size);
      var ok := RelocateN(other.data.buffer, 0, other.size, mem.buffer, 0, NeverThrows);
      data := mem;
      size := other.size;
    }

    /** Move construction: takes over the storage and elements of `other`,
        which is left with no elements and no storage. */
    constructor Move(other: Vector<T>)
      requires other.Valid()
      modifies other, other.data
      ensures Valid() && Elements() == old(other.Elements())
      ensures Capacity() == old(other.Capacity())
      ensures other.Valid() && other.size == 0 && other.Capacity() == 0
      ensures data.buffer == old(other.data.buffer) && fresh(other.data.buffer)
      ensures fresh(data) && Separate(other)
    {
      var mem := new RawMemory<T>.Empty();
      mem.MoveAssign(other.data);
      data := mem;
      size := other.size;
      new;
      other.size := 0;
    }

    function Size(): (r: nat)
      reads this, data
      requires Valid()
      ensures r <= Capacity()
    {
      size
    }

    /** The capacity is that of the block the vector owns; a valid vector's
        live elements fit in it. */
    function Capacity(): (c: nat)
      reads this, data
      ensures c == data.buffer.Length
      ensures Valid() ==> size <= c
    {
      data.Capacity()
    }

    /** `operator[]` used for reading: the element at `index`, which must be
        a live one. */
    function At(index: nat): (v: T)
      reads this, data, data.buffer
      requires Valid() && index < size
      ensures v == Elements()[index]
    {
      data.Get(index)
    }

    /** `operator[]` used for writing: replaces the element at `index`. */
    method Set(index: nat, value: T)
      requires Valid() && index < size
      modifies data.buffer
      ensures Valid() && Elements() == old(Elements())[index := value]
    {
      data.Set(index, value);
    }

    /** O(1) exchange of storage and elements with `other`. */
    method Swap(other: Vector<T>)
      requires Valid() && other.Valid() && Separate(other)
      modifies this, data, other, other.data
      ensures Valid() && other.Valid()
      ensures Elements() == old(other.Elements()) && Capacity() == old(other.Capacity())
      ensures other.Elements() == old(Elements()) && other.Capacity() == old(Capacity())
      ensures data.buffer == old(other.data.buffer) && other.data.buffer == old(data.buffer)
    {
      data.Swap(other.data);
      size, other.size := other.size, size;
    }

    /** Move assignment: exchanges storage and elements with a distinct
        `rhs`; assigning a vector to itself changes nothing. */
    method MoveAssign(rhs: Vector<T>)
      requires Valid() && rhs.Valid() && Separate(rhs)
      modifies this, data, rhs, rhs.data
      ensures Valid() && rhs.Valid()
      ensures Elements() == old(rhs.Elements()) && Capacity() == old(rhs.Capacity())
      ensures rhs.Elements() == old(Elements()) && rhs.Capacity() == old(Capacity())
      ensures this != rhs ==> data.buffer == old(rhs.data.buffer) && rhs.data.buffer == old(data.buffer)
      ensures this == rhs ==> data.buffer == old(data.buffer)
    {
      if this != rhs {
        data.Swap(rhs.data);
        size, rhs.size := rhs.size, size;
      }
    }

    /** Copy assignment. When `rhs` has more elements than this vector has
        capacity, a copy of `rhs` is built in a new block of exactly
        `rhs.Size()` slots and swapped in only once every copy succeeded;
        otherwise the elements are copied into the existing block. */
    method CopyAssign(rhs: Vector<T>, faults: Faults) returns (ok: bool)
      requires Valid() && rhs.Valid() && Separate(rhs)
      modifies this, data, data.buffer
      ensures Valid() && rhs.Valid()
      ensures rhs.Elements() == old(rhs.Elements()) && rhs.Capacity() == old(rhs.Capacity())
      ensures ok == (this == rhs || old(rhs.size) <= old(Capacity()) || faults.Allows(old(rhs.size)))
      ensures ok ==> Elements() == old(rhs.Elements())
      ensures ok ==> Capacity() == if old(rhs.size) > old(Capacity()) then old(rhs.size) else old(Capacity())
      ensures !ok ==> data.buffer == old(data.buffer) && size == old(size) && Elements() == old(Elements())
      ensures this == rhs || old(rhs.size) <= old(Capacity()) ==> data.buffer == old(data.buffer)
      ensures data.buffer == old(data.buffer) || fresh(data.buffer)
    {
      ok := true;
      if this != rhs {
        if rhs.size > data.Capacity() {
          var copy := new RawMemory<T>(rhs.size);
          ok := RelocateN(rhs.data.buffer, 0, rhs.size, copy.buffer, 0, faults);
          if !ok {
            return;
          }
          data.Swap(copy);
        } else {
          var copied := RelocateN(rhs.data.buffer, 0, rhs.size, data.buffer, 0, NeverThrows);
        }
        size := rhs.size;
      }
    }

    /** Ensures room for `newCapacity` elements. Nothing happens when the
        capacity already suffices; otherwise the elements are relocated into
        a new block of exactly `newCapacity` slots, which replaces the old
        one only once every relocation succeeded. */
    method Reserve(newCapacity: nat, faults: Faults) returns (ok: bool)
      requires Valid()
      modifies this, data, data.buffer
      ensures Valid() && size == old(size) && Elements() == old(Elements())
      ensures ok == (newCapacity <= old(Capacity()) || faults.Allows(old(size)))
      ensures Capacity() == if ok && newCapacity > old(Capacity()) then newCapacity else old(Capacity())
      ensures newCapacity <= old(Capacity()) || !ok ==>
                data.buffer == old(data.buffer) && data.buffer[..] == old(data.buffer[..])
      ensures data.buffer == old(data.buffer) || fresh(data.buffer)
    {
      if newCapacity <= data.Capacity() {
        return true;
      }
      var newData := new RawMemory<T>(newCapacity);
      ok := RelocateN(data.buffer, 0, size, newData.buffer, 0, faults);
      if !ok {
        return;
      }
      data.Swap(newData);
    }

    /** Brings the vector to `newSize` elements: growing reserves exactly
        `newSize` slots when the capacity is too small and value-constructs
        the new elements as `init`; shrinking drops the elements from
        `newSize` on and keeps the capacity. */
    method Resize(newSize: nat, init: T, faults: Faults) returns (ok: bool)
      requires Valid()
      modifies this, data, data.buffer
      ensures Valid()
      ensures ok == (newSize <= old(size) ||
                     faults.Allows((if old(Capacity()) < newSize then old(size) else 0) + (newSize - old(size))))
      ensures ok ==> Elements() == Resized(old(Elements()), newSize, init)
      ensures Capacity() ==
                if old(size) < newSize && old(Capacity()) < newSize && faults.Allows(old(size))
                then newSize else old(Capacity())
      ensures !ok ==> size == old(size) && Elements() == old(Elements())
      ensures newSize <= old(Capacity()) || !faults.Allows(old(size)) ==> data.buffer == old(data.buffer)
      ensures old(size) < newSize && old(Capacity()) < newSize && !faults.Allows(old(size)) ==>
                data.buffer[..] == old(data.buffer[..])
      ensures data.buffer == old(data.buffer) || fresh(data.buffer)
    {
      ok := true;
      if size < newSize {
        var rest := faults;
        if Capacity() < newSize {
          ok := Reserve(newSize, faults);
          if !ok {
            return;
          }
          rest := faults.Spend(size);
        }
        ghost var before := Elements();
        ok := ValueConstructN(data.buffer, size, newSize - size, init, rest);
        if !ok {
          assert Elements() == before;
          return;
        }
        size := newSize;
        assert Elements() == Resized(before, newSize, init) by {
          assert forall i :: 0 <= i < newSize ==> Elements()[i] == Resized(before, newSize, init)[i];
        }
      } else {
        size := newSize;
      }
    }

    /** Appends a copy of `value`. */
    method PushBack(value: T, faults: Faults) returns (ok: bool)
      requires Valid()
      modifies this, data, data.buffer
      ensures Valid()
      ensures ok == faults.Allows(if old(size) == old(Capacity()) then old(size) + 1 else 1)
      ensures ok ==> Elements() == old(Elements()) + [value]
      ensures Capacity() == if ok || old(size) == 0 then AppendCapacity(old(size), old(Capacity())) else old(Capacity())
      ensures !ok ==> size == old(size) && Elements() == old(Elements())
      ensures !ok && old(size) > 0 ==> data.buffer == old(data.buffer) && data.buffer[..] == old(data.buffer[..])
      ensures old(size) < old(Capacity()) ==> data.buffer == old(data.buffer)
      ensures data.buffer == old(data.buffer) || fresh(data.buffer)
    {
      var index;
      ok, index := EmplaceBack(value, faults);
    }

    /** Constructs `value` as a new last element and returns its index.
        An empty vector first reserves one slot; a full one builds a block
        of twice the capacity, constructs the new element in it, then
        relocates the old elements and swaps the block in only when all
        that succeeded; otherwise the element is constructed in place. */
    method EmplaceBack(value: T, faults: Faults) returns (ok: bool, index: nat)
      requires Valid()
      modifies this, data, data.buffer
      ensures Valid()
      ensures ok == faults.Allows(if old(size) == old(Capacity()) then old(size) + 1 else 1)
      ensures ok ==> Elements() == old(Elements()) + [value]
      ensures ok ==> index == size - 1
      ensures Capacity() == if ok || old(size) == 0 then AppendCapacity(old(size), old(Capacity())) else old(Capacity())
      ensures !ok ==> size == old(size) && Elements() == old(Elements())
      ensures !ok && old(size) > 0 ==> data.buffer == old(data.buffer) && data.buffer[..] == old(data.buffer[..])
      ensures old(size) < old(Capacity()) ==> data.buffer == old(data.buffer)
      ensures data.buffer == old(data.buffer) || fresh(data.buffer)
    {
      index := 0;
      if size == 0 {
        var reserved := Reserve(1, faults);
        ok := ConstructAt(data.buffer, 0, value, faults);
        if !ok {
          return;
        }
      } else if size == data.Capacity() {
        var grown := new RawMemory<T>(size * 2);
        ok := ConstructAt(grown.buffer, grown.Offset(size), value, faults);
        if !ok {
          return;
        }
        ok := RelocateN(data.buffer, 0, size, grown.buffer, 0, faults.Spend(1));
        if !ok {
          return;
        }
        data.Swap(grown);
      } else {
        ok := ConstructAt(data.buffer, data.Offset(size), value, faults);
        if !ok {
          return;
        }
      }
      size := size + 1;
      index := size - 1;
    }

    /** Removes the last element; the vector must not be empty. */
    method PopBack()
      requires Valid() && size != 0
      modifies this
      ensures Valid() && Elements() == old(Elements())[..old(size) - 1]
      ensures Capacity() == old(Capacity())
    {
      size := size - 1;
    }

    /** Constructs `value` at position `pos` (between 0 and `Size()`) and
        returns `pos`. At the end this is `EmplaceBack`. In a full vector a
        block of twice the capacity is built: the new element first, then
        the elements before and after it, and the block is swapped in only
        when all that succeeded. Otherwise the elements from `pos` on are
        shifted one slot towards the end, last first, and `value` is placed
        at `pos`. */
    method Emplace(pos: nat, value: T, faults: Faults) returns (ok: bool, index: nat)
      requires Valid() && pos <= size
      modifies this, data, data.buffer
      ensures Valid()
      ensures ok == ((pos < old(size) && old(size) < old(Capacity())) ||
                     faults.Allows(if old(size) == old(Capacity()) then old(size) + 1 else 1))
      ensures ok ==> Elements() == Inserted(old(Elements()), pos, value) && index == pos
      ensures Capacity() == if ok || old(size) == 0 then AppendCapacity(old(size), old(Capacity())) else old(Capacity())
      ensures !ok ==> size == old(size) && Elements() == old(Elements())
      ensures !ok && old(size) > 0 ==> data.buffer == old(data.buffer) && data.buffer[..] == old(data.buffer[..])
      ensures old(size) < old(Capacity()) ==> data.buffer == old(data.buffer)
      ensures data.buffer == old(data.buffer) || fresh(data.buffer)
    {
      if pos == size {
        InsertAtEndAppends(Elements(), value);
        ok, index := EmplaceBack(value, faults);
        return;
      }
      index := pos;
      if size >= data.Capacity() {
        var grown := new RawMemory<T>(size * 2);
        ok := BuildInserted(data.buffer, size, pos, value, grown.buffer, faults);
        if !ok {
          return;
        }
        data.Swap(grown);
        size := size + 1;
      } else {
        EmplaceInPlace(pos, value);
        ok := true;
      }
    }

    /** The in-place path of `Emplace`: the last element is copied into the
        first free slot, the elements from `pos` on are shifted one slot
        towards the end, last first, and `value` is placed at `pos`. */
    method EmplaceInPlace(pos: nat, value: T)
      requires Valid() && pos < size < Capacity()
      modifies this, data.buffer
      ensures Valid() && Elements() == Inserted(old(Elements()), pos, value)
    {
      ghost var before := Elements();
      data.buffer[size] := data.buffer[size - 1];
      var i := size - 1;
      while i > pos
        invariant pos <= i < size
        invariant Valid() && size == old(size)
        invariant forall k :: 0 <= k <= i ==> data.buffer[k] == before[k]
        invariant forall k :: i < k <= size ==> data.buffer[k] == before[k - 1]
      {
        data.buffer[i] := data.buffer[i - 1];
        i := i - 1;
      }
      data.buffer[pos] := value;
      assert data.buffer[..size + 1] == Inserted(before, pos, value) by {
        assert forall k :: 0 <= k < size + 1 ==> data.buffer[..size + 1][k] == Inserted(before, pos, value)[k];
      }
      size := size + 1;
    }

    /** `Insert`: `Emplace` with a copy of `value`. */
    method Insert(pos: nat, value: T, faults: Faults) returns (ok: bool, index: nat)
      requires Valid() && pos <= size
      modifies this, data, data.buffer
      ensures Valid()
      ensures ok == ((pos < old(size) && old(size) < old(Capacity())) ||
                     faults.Allows(if old(size) == old(Capacity()) then old(size) + 1 else 1))
      ensures ok ==> Elements() == Inserted(old(Elements()), pos, value) && index == pos
      ensures Capacity() == if ok || old(size) == 0 then AppendCapacity(old(size), old(Capacity())) else old(Capacity())
      ensures !ok ==> size == old(size) && Elements() == old(Elements())
      ensures !ok && old(size) > 0 ==> data.buffer == old(data.buffer) && data.buffer[..] == old(data.buffer[..])
      ensures old(size) < old(Capacity()) ==> data.buffer == old(data.buffer)
      ensures data.buffer == old(data.buffer) || fresh(data.buffer)
    {
      ok, index := Emplace(pos, value, faults);
    }

    /** Removes the element at `pos` (a live position): the elements after
        it are shifted one slot towards the front, first first, and the
        vector shrinks by one. Returns `pos`, now the position of the
        element that followed the removed one. */
    method Erase(pos: nat) returns (index: nat)
      requires Valid() && pos < size
      modifies this, data.buffer
      ensures Valid() && Elements() == Erased(old(Elements()), pos)
      ensures index == pos && Capacity() == old(Capacity())
    {
      ghost var before := Elements();
      var i := pos;
      while i + 1 < size
        invariant pos <= i < size
        invariant Valid() && size == old(size)
        invariant forall k :: 0 <= k < pos ==> data.buffer[k] == before[k]
        invariant forall k :: pos <= k < i ==> data.buffer[k] == before[k + 1]
        invariant forall k :: i <= k < size ==> data.buffer[k] == before[k]
      {
        data.buffer[i] := data.buffer[i + 1];
        i := i + 1;
      }
      size := size - 1;
      index := pos;
      assert Elements() == Erased(before, pos) by {
        assert forall k :: 0 <= k < size ==> Elements()[k] == Erased(before, pos)[k];
      }
    }
  }

  /** Fills the block `dst` of a reallocating `Emplace`: `value` is
      constructed at `pos` first, then the `pos` elements before it and the
      `size - pos` elements after it are relocated around it, in that
      order; the first construction `faults` does not allow raises. */
  method BuildInserted<T>(src: array<T>, size: nat, pos: nat, value: T, dst: array<T>, faults: Faults)
    returns (ok: bool)
    requires src != dst && pos < size <= src.Length && size < dst.Length
    modifies dst
    ensures ok == faults.Allows(size + 1)
    ensures ok ==> dst[..size + 1] == Inserted(src[..size], pos, value)
  {
    ok := ConstructAt(dst, pos, value, faults);
    if !ok {
      return;
    }
    assert dst[pos] == value;
    ok := RelocateN(src, 0, pos, dst, 0, faults.Spend(1));
    if !ok {
      return;
    }
    assert dst[pos] == value;
    ok := RelocateN(src, pos, size - pos, dst, pos + 1, faults.Spend(1 + pos));
    if !ok {
      return;
    }
    ghost var inserted := Inserted(src[..size], pos, value);
    assert dst[pos] == inserted[pos];
    assert forall k :: 0 <= k < pos ==> dst[k] == inserted[k];
    assert forall k :: pos < k < size + 1 ==> dst[k] == inserted[k];
    assert dst[..size + 1] == inserted;
  }
}
