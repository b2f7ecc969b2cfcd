/** Raw, fixed-capacity storage for elements of type T and the element-level
    operations that place values into it.

    A C++ `RawMemory<T>` owns an uninitialised block of `capacity_` slots.
    Here the block is a Dafny array whose `Length` is the capacity; the
    empty state (a null buffer with capacity 0) is an array of length 0.
    Slots that hold no live element simply carry whatever value the array
    has there: RawMemory does not know which slots are live. */
module Memory {

  /** How the element type's constructors behave during one call of a
      container operation. With `ThrowsAfter(successes)`, the first
      `successes` element constructions (copy, move or value construction)
      succeed and the next one raises; with `NeverThrows`, none raises. */
  datatype Faults = NeverThrows | ThrowsAfter(successes: nat) {

    /** True when `k` element constructions in a row all succeed. */
    predicate Allows(k: nat) {
      NeverThrows? || k <= successes
    }

    /** The behaviour of the constructions that follow `k` successful ones. */
    function Spend(k: nat): Faults
      requires Allows(k)
    {
      if NeverThrows? then this else ThrowsAfter(successes - k)
    }
  }

  class RawMemory<T(0)> {
    var buffer: array<T>

    /** The number of slots of the block: exactly the slots that exist. */
    function Capacity(): (c: nat)
      reads this
      ensures c == buffer.Length
    {
      buffer.Length
    }

    /** The default state: no block, capacity 0. */
    constructor Empty()
      ensures Capacity() == 0 && fresh(buffer)
    {
      buffer := new T[0];
    }

    /** Allocates a block of exactly `capacity` slots (none for capacity 0). */
    constructor (capacity: nat)
      ensures Capacity() == capacity && fresh(buffer)
    {
      buffer := new T[capacity];
    }

    /** Move construction: takes over the block of `other`, which is left
        in the empty state. */
    constructor Move(other: RawMemory<T>)
      modifies other
      ensures buffer == old(other.buffer)
      ensures other.Capacity() == 0 && fresh(other.buffer)
    {
      buffer := other.buffer;
      new;
      other.buffer := new T[0];
    }

    /** Move assignment: moves `rhs` into a temporary and swaps with it, so
        this object ends up with the block of `rhs` (also when `rhs` is this
        object) and a distinct `rhs` is left empty. The block this object
        held before is released with the temporary. */
    method MoveAssign(rhs: RawMemory<T>)
      modifies this, rhs
      ensures buffer == old(rhs.buffer)
      ensures rhs != this ==> rhs.Capacity() == 0 && fresh(rhs.buffer)
    {
      var tmp := new RawMemory<T>.Move(rhs);
      Swap(tmp);
    }

    /** `operator+`: the address of slot `offset`, modelled as its index.
        One past the last slot is a valid address; beyond it is not. */
    function Offset(offset: nat): (address: nat)
      reads this
      requires offset <= Capacity()
      ensures address == offset && address <= Capacity()
    {
      offset
    }

    /** `operator[]` used for reading: only slots below the capacity exist. */
    function Get(index: nat): (v: T)
      reads this, buffer
      requires index < Capacity()
      ensures v == buffer[..][index]
    {
      buffer[index]
    }

    /** `operator[]` used for writing: changes slot `index` and nothing else. */
    method Set(index: nat, value: T)
      requires index < Capacity()
      modifies buffer
      ensures buffer[..] == old(buffer[..])[index := value]
    {
      buffer[index] := value;
    }

    /** O(1) exchange of the blocks (and so of the capacities) of two
        RawMemory objects; never fails. */
    method Swap(other: RawMemory<T>)
      modifies this, other
      ensures buffer == old(other.buffer) && other.buffer == old(buffer)
    {
      var mine := buffer;
      buffer := other.buffer;
      other.buffer := mine;
    }
  }

  /** Placement construction of `value` into slot `index` of `dst`; the
      construction is one element construction and raises when `faults`
      does not allow it, leaving `dst` as it was. */
  method ConstructAt<T>(dst: array<T>, index: nat, value: T, faults: Faults) returns (ok: bool)
    requires index < dst.Length
    modifies dst
    ensures ok == faults.Allows(1)
    ensures dst[..] == if ok then old(dst[..])[index := value] else old(dst[..])
  {
    if !faults.Allows(1) {
      return false;
    }
    dst[index] := value;
    ok := true;
  }

  /** `uninitialized_move_n` / `uninitialized_copy_n`: constructs, slot by
      slot, `count` elements of `dst` from `count` elements of `src`. The
      operation raises at the first construction `faults` does not allow;
      the slots constructed so far are then destroyed, which leaves no
      value a caller may observe. Slots outside the target range are never
      touched. In a value model a move and a copy place the same value. */
  method RelocateN<T>(src: array<T>, from: nat, count: nat, dst: array<T>, to: nat, faults: Faults)
    returns (ok: bool)
    requires src != dst
    requires from + count <= src.Length && to + count <= dst.Length
    modifies dst
    ensures ok == faults.Allows(count)
    ensures ok ==> forall k :: to <= k < to + count ==> dst[k] == src[k - to + from]
    ensures forall k :: 0 <= k < dst.Length && !(to <= k < to + count) ==> dst[k] == old(dst[k])
  {
    var i := 0;
    while i < count
      invariant i <= count
      invariant faults.Allows(i)
      invariant forall k :: to <= k < to + i ==> dst[k] == src[k - to + from]
      invariant forall k :: 0 <= k < dst.Length && !(to <= k < to + count) ==> dst[k] == old(dst[k])
    {
      if !faults.Allows(i + 1) {
        return false;
      }
      dst[to + i] := src[from + i];
      i := i + 1;
    }
    ok := true;
  }

  /** `uninitialized_value_construct_n`: value-constructs `count` elements
      of `dst` from slot `from` on; `init` is the value `T()` yields. Raises
      at the first construction `faults` does not allow. */
  method ValueConstructN<T>(dst: array<T>, from: nat, count: nat, init: T, faults: Faults)
    returns (ok: bool)
    requires from + count <= dst.Length
    modifies dst
    ensures ok == faults.Allows(count)
    ensures ok ==> forall k :: from <= k < from + count ==> dst[k] == init
    ensures forall k :: 0 <= k < dst.Length && !(from <= k < from + count) ==> dst[k] == old(dst[k])
  {
    var i := 0;
    while i < count
      invariant i <= count
      invariant faults.Allows(i)
      invariant forall k :: from <= k < from + i ==> dst[k] == init
      invariant forall k :: 0 <= k < dst.Length && !(from <= k < from + count) ==> dst[k] == old(dst[k])
    {
      if !faults.Allows(i + 1) {
        return false;
      }
      dst[from + i] := init;
      i := i + 1;
    }
    ok := true;
  }
}
