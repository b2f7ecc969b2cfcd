# advanced-vector in Dafny

This project models `advanced-vector/vector.h`, a header-only C++ growable
contiguous array built in two layers, and proves what each operation does
to the container's state.

- `RawMemory<T>` owns a fixed-capacity block of uninitialised slots. It
  offers bounds-checked slot access, an O(1) `Swap`, and move-only
  transfer that leaves the source at capacity 0. It does not know which
  slots hold live elements. It is modelled as the class
  `Memory.RawMemory`, which holds an `array<T>` whose `Length` is the
  capacity.
- `Vector<T>` is a `RawMemory` plus a count `size_`. The live elements
  are slots `[0, size_)`. It is modelled as the class `Vectors.Vector`,
  with the const field `data` and the field `size`.
  - `Valid()` says `size <= capacity`.
  - The ghost function `Elements()` gives the live elements, in order.
  - Every operation states the new `Elements()` in terms of the old.
    The positional operations are proved against functions on `seq<T>`:
    `Sequences.Inserted`, `Sequences.Erased`, `Sequences.Resized` and
    `Sequences.Filled`. Appends use `old(Elements()) + [value]`, `PopBack`
    a prefix, and `CopyAssign` the elements of `rhs`.
  - The contracts also say which block the vector owns afterwards: an
    operation with room works in the same block, moves and swaps hand
    blocks over (a moved-from vector gets a fresh empty block), and a
    full block is replaced only by a reallocation.
  - The append capacity policy is the function `Growth.AppendCapacity`.
    It goes 0 → 1, doubles on a full buffer, and keeps the capacity
    otherwise. `Reserve`, `Resize` and the copy operations allocate
    exactly what they need.
- Element constructions can fail. The model states this with a
  `Memory.Faults` parameter: `ThrowsAfter(n)` means the first `n` element
  constructions of the call succeed and the next one raises. The
  reallocating operations are `Reserve`, `Resize`, `EmplaceBack`,
  `PushBack`, `Emplace`, `Insert` and `CopyAssign`. Each returns `ok`,
  and the contract says exactly when `ok` is true. On failure, the size
  and the elements are as before the call. Where the failure happens while
  a new block is being filled, the old block also stays in place,
  untouched: the new block is swapped in only after every relocation has
  succeeded (for element types that are copied, or moved without
  raising). `Resize` can fail after a successful `Reserve`, and an append
  into an empty vector can fail after `Reserve(1)`. In those two cases the
  larger capacity remains, and the contracts say so.
- Positions (C++ iterators) are indices: `begin()` is 0 and `end()` is
  `Size()`.
- Moves and copies place the same value. The module `MoveSemantics`
  studies the in-place path of `Emplace`, where a move that empties its
  source loses the last element (see Findings). A failed relocation is
  modelled for element types whose relocation leaves the old block intact:
  types that are copied, or moved without raising. For a type that cannot
  be copied and whose move can raise, the source moves anyway, and a
  failure leaves the originals already moved from (see Left out).
- `Insert` and `Emplace` take their argument by value, read before any
  slot changes. The module `Aliasing` studies what the source does when
  the argument refers to an element of the same vector (see Findings).
- The value that `T()` produces is passed in explicitly as `init` to
  `Vector.Sized` and `Vector.Resize`.
- Two behaviours of the code that a reader may not expect:
  - `Vector(n)` allocates exactly `n` slots.
  - `EmplaceBack` on an empty vector runs `Reserve(1)` before it
    constructs the element. So a failed construction into an empty vector
    of capacity 0 leaves it at capacity 1. The contracts of `EmplaceBack`,
    `PushBack`, `Emplace` and `Insert` state this.

## Model

| member | source | states |
|---|---|---|
| `Memory.RawMemory.Empty` | advanced-vector/vector.h:12 | the default state has capacity 0 |
| `Memory.RawMemory.constructor` | advanced-vector/vector.h:14-17 | a new block has exactly the requested capacity and is fresh |
| `Memory.RawMemory.Move` | advanced-vector/vector.h:22-27 | move construction takes over the source's block and leaves the source at capacity 0 |
| `Memory.RawMemory.MoveAssign` | advanced-vector/vector.h:28-32 | after move assignment this object holds the block `rhs` held, also when `rhs` is this object; a distinct `rhs` is left at capacity 0, with a fresh empty block |
| `Memory.RawMemory.Capacity` | advanced-vector/vector.h:70-72 | the capacity is the number of slots of the block |
| `Memory.RawMemory.Offset` | advanced-vector/vector.h:38-42 | a slot address may be one past the last slot and no further; the address of slot `offset` is `offset`, and `EmplaceBack` forms the address of slot `size` through it |
| `Memory.RawMemory.Get` | advanced-vector/vector.h:48-55 | reading a slot needs `index < capacity` and gives the value stored in that slot |
| `Memory.RawMemory.Set` | advanced-vector/vector.h:52-55 | slot access needs `index < capacity`; writing changes that slot only |
| `Memory.RawMemory.Swap` | advanced-vector/vector.h:57-60 | the two objects exchange their blocks, and so their capacities |
| `Memory.ConstructAt` | advanced-vector/vector.h:257 | placement construction succeeds exactly when the element type allows one construction; then it sets that slot only, and on failure the block is unchanged |
| `Memory.RelocateN` | advanced-vector/vector.h:203-207 | relocation succeeds exactly when the element type allows `count` constructions; on success the target range holds the source range; slots outside the target range are never touched |
| `Memory.ValueConstructN` | advanced-vector/vector.h:217 | value construction of `count` slots succeeds exactly when `count` constructions are allowed; then every slot in the range holds `init`; nothing outside the range changes |
| `Sequences.Filled` | advanced-vector/vector.h:98-103 | `n` value-constructed elements: length `n`, every element `init` |
| `Sequences.Inserted` | advanced-vector/vector.h:304-308 | insertion at `pos`: one longer, `v` at `pos`, elements before `pos` kept, elements from `pos` on moved up by one |
| `Sequences.Erased` | advanced-vector/vector.h:323-325 | erasure at `pos`: one shorter, elements before `pos` kept, later elements moved down by one |
| `Sequences.Resized` | advanced-vector/vector.h:212-222 | resizing to `n`: length `n`, the first `min(n, old size)` elements kept, every new element `init` |
| `Sequences.EraseUndoesInsert` | advanced-vector/vector.h:264-327 | erasing at the position just inserted at restores the exact sequence |
| `Sequences.InsertAtEndAppends` | advanced-vector/vector.h:269-270 | emplacing at `end()` is appending |
| `Sequences.EraseLastDrops` | advanced-vector/vector.h:229-233 | erasing the last element is what `PopBack` does: drop it |
| `Growth.AppendCapacity` | advanced-vector/vector.h:237-241 | after an append the capacity exceeds the old size; it is unchanged exactly when there was room; a full non-empty buffer doubles; an empty buffer of capacity 0 grows to 1 |
| `Growth.CapacityAfterAppends` | advanced-vector/vector.h:236-262 | `n` appends to an empty vector leave room for at least `n` elements |
| `Growth.AppendsGrowGeometrically` | advanced-vector/vector.h:236-262 | after `n >= 1` appends to an empty vector the capacity is `2^ceil(log2 n)`, and exactly `1 + ceil(log2 n)` of the appends reallocated |
| `Vectors.Vector.constructor` | advanced-vector/vector.h:96 | the default vector is empty, with capacity 0 |
| `Vectors.Vector.Sized` | advanced-vector/vector.h:98-103 | `Vector(n)` has size `n`, capacity exactly `n`, and every element value-constructed |
| `Vectors.Vector.Copy` | advanced-vector/vector.h:105-114 | the copy has the elements of `other` and capacity exactly `other.Size()`, in fresh storage |
| `Vectors.Vector.Move` | advanced-vector/vector.h:120-124 | the new vector takes over the elements, the capacity and the very block of `other`, constructing no element; `other` is left with size 0, capacity 0 and a fresh empty block, so the two vectors own separate storage |
| `Vectors.Vector.Size` | advanced-vector/vector.h:180-182 | the size never exceeds the capacity |
| `Vectors.Vector.Capacity` | advanced-vector/vector.h:184-186 | the vector's capacity is that of its block, and a valid vector's size never exceeds it |
| `Vectors.Vector.At` | advanced-vector/vector.h:192-195 | element access needs `index < size` and reads the `index`-th live element |
| `Vectors.Vector.Set` | advanced-vector/vector.h:192-195 | writing through `operator[]` replaces the `index`-th element only |
| `Vectors.Vector.Swap` | advanced-vector/vector.h:175-178 | two vectors exchange elements, capacities and blocks |
| `Vectors.Vector.MoveAssign` | advanced-vector/vector.h:148-154 | move assignment exchanges elements, capacity and blocks with a distinct `rhs`, constructing no element; self-assignment changes nothing and keeps the block |
| `Vectors.Vector.CopyAssign` | advanced-vector/vector.h:126-146 | on success the elements equal those of `rhs`; the capacity becomes `rhs.Size()` only if that exceeds the old capacity; self-assignment and a copy that fits the capacity keep the block; self-assignment is a no-op; a failed copy-and-swap leaves block, size and elements unchanged; `rhs` is never changed |
| `Vectors.Vector.Reserve` | advanced-vector/vector.h:197-210 | size and elements never change; with enough capacity nothing changes; otherwise the capacity becomes exactly `n` on success, and on failure the block and its contents are untouched |
| `Vectors.Vector.Resize` | advanced-vector/vector.h:212-222 | on success the elements are the resized sequence; the capacity becomes exactly `n` only when growing past it; shrinking keeps the capacity; on failure the size and elements are unchanged; when no new block is needed, or its relocation fails, the block stays the same, and a failed relocation leaves its contents untouched |
| `Vectors.Vector.PushBack` | advanced-vector/vector.h:223-228 | on success a copy of `value` is appended and earlier elements are unchanged; `ok` is true exactly when the needed constructions are allowed; the capacity follows the 0 → 1 / double-when-full policy; with room it constructs in the same block; on failure size and elements are unchanged, and on a non-empty vector the block and its contents are untouched |
| `Vectors.Vector.EmplaceBack` | advanced-vector/vector.h:235-262 | on success `value` is appended and earlier elements are unchanged; the capacity follows the 0 → 1 / double-when-full policy; it returns the index of the new last element; with room it constructs in the same block; on a full buffer, failure leaves block, size and elements untouched |
| `Vectors.Vector.PopBack` | advanced-vector/vector.h:229-233 | needs a non-empty vector; drops the last element and keeps the capacity |
| `Vectors.Vector.Emplace` | advanced-vector/vector.h:264-317 | needs `pos <= size`; on success the result is `old[..pos] + [v] + old[pos..]` and it returns `pos`; the capacity doubles only on a full buffer; at the end it is `EmplaceBack`; with room it works in the same block; the reallocating path leaves block, size and elements untouched on failure |
| `Vectors.Vector.EmplaceInPlace` | advanced-vector/vector.h:304-313 | the in-place shift, last first, produces the inserted sequence in the same block |
| `Vectors.BuildInserted` | advanced-vector/vector.h:273-302 | the new block of a reallocating `Emplace` holds the inserted sequence when `size + 1` constructions succeed, and the call fails otherwise |
| `Vectors.Vector.Insert` | advanced-vector/vector.h:328-333 | needs `pos <= size`; on success the result is `old[..pos] + [value] + old[pos..]` and it returns `pos`; `ok` is true exactly when the in-place path is taken or the needed constructions are allowed; the capacity doubles only on a full buffer; with room it works in the same block; on failure size and elements are unchanged, and on a non-empty vector the block and its contents are untouched |
| `Vectors.Vector.Erase` | advanced-vector/vector.h:319-327 | needs `pos < size`; the result is `old[..pos] + old[pos+1..]`; the capacity is unchanged; it returns `pos` |
| `MoveSemantics.ShiftedAsWritten` | advanced-vector/vector.h:305-308 | with moves that empty their source, the as-written path puts `v` at `pos` but leaves the moved-from value in the last slot |
| `MoveSemantics.EmplaceShiftAsWritten` | advanced-vector/vector.h:304-313 | lines 305-308 as written, executed on an array with emptying moves, produce `ShiftedAsWritten` |
| `MoveSemantics.EmplaceShiftCorrected` | advanced-vector/vector.h:305-308 | with `move_backward` over `[pos, end - 1)` the same moves produce the inserted sequence |
| `MoveSemantics.AsWrittenLosesLastElement` | advanced-vector/vector.h:305-306 | whenever the last element differs from the moved-from value, the as-written result is not the inserted sequence |
| `MoveSemantics.AsWrittenExample` | advanced-vector/vector.h:305-306 | emplacing "x" at the front of ["a", "b"] yields ["x", "a", ""] instead of ["x", "a", "b"] |
| `Aliasing.InsertedFromSlotAsWritten` | advanced-vector/vector.h:305-308 | when the argument refers to slot `k`, the as-written path inserts the value the shift left in slot `k` (old element `k - 1` when `k > pos`); every other slot is as in the inserted sequence |
| `Aliasing.EmplaceFromSlotAsWritten` | advanced-vector/vector.h:305-308 | lines 305-308 as written, executed on an array with the argument a reference to slot `k`, produce `InsertedFromSlotAsWritten` |
| `Aliasing.InsertOwnElement` | advanced-vector/vector.h:328-330 | inserting a copy of the vector's own element `k` through `Insert` inserts the old element `k` |
| `Aliasing.AsWrittenInsertsShiftedValue` | advanced-vector/vector.h:305-308 | whenever element `k - 1` differs from element `k` and `pos < k`, the as-written path does not insert element `k` |
| `Aliasing.AsWrittenAliasExample` | advanced-vector/vector.h:305-308 | `Insert(begin(), v[2])` on [1, 2, 3] with a spare slot gives [2, 1, 2, 3] instead of [3, 1, 2, 3] |
| `Scenarios.InsertThenErase` | advanced-vector/vector.h:264-327 | an `Insert` followed by `Erase` at the returned position leaves the vector's elements as they were |
| `Scenarios.GrowthFailureLeavesVectorUnchanged` | advanced-vector/vector.h:240-255 | three elements at capacity three, then an append whose relocation raises: size 3, capacity 3 and elements [1, 2, 3] remain |
| `Scenarios.MovedVectorsCanSwap` | advanced-vector/vector.h:120-124 | a vector moved from owns storage separate from the vector it was moved into, so the two can be swapped afterwards: [7, 7] moved out and swapped back |
| `Scenarios.EraseEnds` | advanced-vector/vector.h:319-327 | erasing the first element of [1, 2, 3] leaves [2, 3]; erasing the last leaves [1, 2] |

## Left out

- `Vectors.Vector.Emplace`: on the in-place path (lines 303-313), element constructions and assignments always succeed, so `ok` is true there whatever `faults` says. The source gives only a weak guarantee on that path, and its catch block at line 310 destroys slot `size_` even when the construction at line 305 failed.
- `Vectors.Vector.Insert`: the same in-place simplification as `Emplace`.
- `Vectors.Vector.Insert`: the argument is taken by value and read before the shift. The source takes `const T&`, and an argument that refers to an element of the same vector reads that slot after the shift; that case is modelled only in the module `Aliasing` (see Findings).
- `Vectors.Vector.Emplace`: the constructor arguments are one value `value`, read before the shift; arguments that refer to elements of the same vector are modelled only in the module `Aliasing`.
- `Vectors.Vector.EmplaceBack`: the variadic constructor arguments (line 236) are one value `value`, which is the element constructed.
- `Vectors.Vector.Reserve`: `faults` models only element types that are copied, or moved without raising. For a type that cannot be copied and whose move can raise, the source moves (line 203), and a failure leaves the originals moved from; the contract's "old block untouched" does not describe that case.
- `Vectors.Vector.Resize`: the same restriction on `faults` as `Reserve`, through its call to `Reserve`.
- `Vectors.Vector.EmplaceBack`: the same restriction on `faults` as `Reserve`, for the relocation at line 245.
- `Vectors.Vector.PushBack`: the same restriction on `faults` as `EmplaceBack`.
- `Vectors.Vector.Emplace`: the same restriction on `faults` as `Reserve`, for the relocation at line 277.
- `Vectors.Vector.Insert`: the same restriction on `faults` as `Emplace`.
- `Vectors.Vector.Erase`: the move assignments of the shift always succeed. The source gives only a weak guarantee there.
- `Vectors.Vector.CopyAssign`: on the in-place path (lines 133-141), element copies always succeed. The source gives only a weak guarantee there.
- `Vectors.Vector.Sized` and `Vectors.Vector.Copy` do not model construction failures. A C++ constructor that raises yields no object, so no state is left to describe.
- The double destruction of slot `dist` in the copy branch of `Emplace` (lines 293 and 300) is not modelled. It is an object-lifetime bug with no effect on element values.
- Allocation failure (`operator new` raising, lines 76-78) is not modelled, because Dafny's `new` cannot fail. In every operation allocation happens before any state changes, so it cannot break the strong guarantee.
- `Deallocate`, the destructors, `std::destroy_n` and `std::destroy_at` are not modelled. In a garbage-collected value model they change no element value. Slots outside `[0, size)` simply keep whatever value the array holds there.
- The `if constexpr` choice between moving and copying (lines 109, 203, 245, 277) is one branch in the model. At line 109 the source is `const`, so even the move branch copies there. The branches place the same values when every relocation succeeds. They differ when a relocation raises: copying leaves the originals intact, while moving (lines 203, 245, 277) leaves the already-moved originals in a moved-from state. The model describes the first case only (see the `faults` lines above).
- `size_t` is modelled as an unbounded `nat`. So the overflow of `size_ * 2` and of `n * sizeof(T)` is not modelled.
- Raw pointers and iterators are replaced by indices. `GetAddress`, `begin`, `end`, `cbegin` and `cend` are not modelled separately. The asserts on positions (lines 266 and 320) become `requires pos <= size` and `requires pos < size`.
- The const overloads (lines 44-50, 162-173 and 188-190) only forward to the non-const members, so they are not modelled.
- The private helpers `DestroyN`, `CopyConstruct` and `Destroy` (lines 338-353) are never called, so they are not modelled.
- Two-vector operations (`Swap`, `MoveAssign`, `CopyAssign`) require `Separate(other)`: distinct vectors own distinct storage. C++ ownership guarantees this, but Dafny references cannot express it.
- Element types are auto-initialisable (`T(0)`), because Dafny arrays need an initial value for slots that hold no live element.

## Findings

| source | as written | input that shows it | evidently intended | confidence | as-written member | corrected member |
|---|---|---|---|---|---|---|
| advanced-vector/vector.h:305-306 | `Emplace` without reallocation move-constructs slot `size_` from the last element. It then runs `move_backward(begin() + dist, end(), end() + 1)`, which assigns slot `size_` a second time, from the last slot that was already moved from. | `Vector<std::string>` holding ["a", "b"] with capacity 3, then `Emplace(begin(), "x")`: the result is ["x", "a", ""] (for strings that a move leaves empty) | `move_backward(begin() + dist, end() - 1, end())`, giving ["x", "a", "b"] | high; not executed | `MoveSemantics.EmplaceShiftAsWritten` with `MoveSemantics.AsWrittenLosesLastElement` | `MoveSemantics.EmplaceShiftCorrected` (the same ranges as `Vectors.Vector.EmplaceInPlace`) |
| advanced-vector/vector.h:305-308 | `Insert(pos, value)` takes `value` by reference. On the in-place path the shift at lines 305-306 runs first, and line 308 then copies from `value`, so a reference to an element of the same vector reads the value the shift left there. | `Vector<int>` holding [1, 2, 3] with capacity 4, then `Insert(begin(), v[2])`: the result is [2, 1, 2, 3] | the element passed, as `std::vector::insert` guarantees: [3, 1, 2, 3] | high; not executed | `Aliasing.EmplaceFromSlotAsWritten` with `Aliasing.AsWrittenInsertsShiftedValue` and `Aliasing.AsWrittenAliasExample` | `Aliasing.InsertOwnElement` (through `Vectors.Vector.Insert`, which reads its argument before the shift) |
