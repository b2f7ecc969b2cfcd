/** `Vector::Insert(pos, value)` takes `value` by reference, and a caller
    may pass one of the vector's own elements (`v.Insert(v.begin(), v[2])`).

    As written, the in-place path of `Emplace` shifts the elements from
    `pos` on up by one and only then constructs the new element from the
    argument, so a reference to slot `k` reads what the shift left there:
    the old element `k - 1` when `k > pos`. The reallocating paths construct
    the new element before relocating anything and are not affected.
    `Vector.Insert` takes its argument by value, read before any slot
    changes, which is the behaviour a caller expects. */
module Aliasing {
  import opened Memory
  import opened Sequences
  import opened Vectors

  /** What the as-written in-place path leaves when the argument refers to
      live slot `k`: the inserted sequence, but holding the value slot `k`
      has after the shift. For `k == pos` the source reads an element it
      has just destroyed; in this value model that slot still holds its
      old value. */
  function InsertedFromSlotAsWritten<T>(s: seq<T>, pos: nat, k: nat): (r: seq<T>)
    requires pos < |s| && k < |s|
    ensures |r| == |s| + 1
    ensures r[pos] == if pos < k then s[k - 1] else s[k]
    ensures forall i :: 0 <= i < |r| && i != pos ==> r[i] == Inserted(s, pos, s[k])[i]
  {
    Inserted(s, pos, if pos < k then s[k - 1] else s[k])
  }

  /** Lines 305-308 as written, with element copies, when the argument is a
      reference to slot `k` of the same array. */
  method EmplaceFromSlotAsWritten<T>(a: array<T>, size: nat, pos: nat, k: nat)
    requires pos < size < a.Length && k < size
    modifies a
    ensures a[..size + 1] == InsertedFromSlotAsWritten(old(a[..size]), pos, k)
  {
    ghost var s := a[..size];
    a[size] := a[size - 1];
    var i := size;
    while i > pos
      invariant pos <= i <= size
      invariant forall j :: 0 <= j <= i && j < size ==> a[j] == s[j]
      invariant i == size ==> a[size] == s[size - 1]
      invariant forall j :: i < j <= size ==> a[j] == s[j - 1]
    {
      a[i] := a[i - 1];
      i := i - 1;
    }
    a[pos] := a[k];
    ghost var r := InsertedFromSlotAsWritten(s, pos, k);
    assert forall j :: 0 <= j < size + 1 ==> a[j] == r[j];
    assert a[..size + 1] == r;
  }

  /** Inserting a copy of the vector's own element `k`: the argument is read
      before the shift, so the new element is the old element `k`. */
  method InsertOwnElement<T(0)>(v: Vector<T>, pos: nat, k: nat, faults: Faults) returns (ok: bool, index: nat)
    requires v.Valid() && pos <= v.size && k < v.size
    modifies v, v.data, v.data.buffer
    ensures v.Valid()
    ensures ok ==> v.Elements() == Inserted(old(v.Elements()), pos, old(v.Elements())[k]) && index == pos
    ensures !ok ==> v.Elements() == old(v.Elements())
  {
    var x := v.At(k);
    ok, index := v.Insert(pos, x, faults);
  }

  /** Whenever the element below slot `k` differs from it, the as-written
      path inserts the wrong value. */
  lemma AsWrittenInsertsShiftedValue<T>(s: seq<T>, pos: nat, k: nat)
    requires pos < k < |s| && s[k - 1] != s[k]
    ensures InsertedFromSlotAsWritten(s, pos, k) != Inserted(s, pos, s[k])
  {
    assert InsertedFromSlotAsWritten(s, pos, k)[pos] == s[k - 1];
  }

  /** `Insert(begin(), v[2])` on [1, 2, 3] with a spare slot yields
      [2, 1, 2, 3] instead of [3, 1, 2, 3]. */
  lemma AsWrittenAliasExample()
    ensures InsertedFromSlotAsWritten([1, 2, 3], 0, 2) == [2, 1, 2, 3]
    ensures Inserted([1, 2, 3], 0, 3) == [3, 1, 2, 3]
  {
  }
}
