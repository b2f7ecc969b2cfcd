/** The in-place path of `Vector::Emplace` under move semantics, where a
    move leaves its source holding a moved-from value `hollow` (an empty
    string, say) instead of the value it had.

    As written, the path move-constructs the first free slot from the last
    element and then calls `move_backward` over `[pos, end)` into a range
    ending at `end + 1`, so the free slot is assigned a second time, now
    from the already moved-from last slot: the old last element is lost.
    The shift the code intends stops one element earlier, at `end - 1`.
    Elements are copied values everywhere else in this model, and there the
    two shifts agree; `Vector.EmplaceInPlace` uses the intended range. */
module MoveSemantics {
  import opened Sequences

  /** The live slots `[0, |s|]` the as-written path leaves: `v` at `pos`,
      the old elements from `pos` on shifted up, except that the old last
      element is replaced by `hollow`. */
  function ShiftedAsWritten<T>(s: seq<T>, pos: nat, v: T, hollow: T): (r: seq<T>)
    requires pos < |s|
    ensures |r| == |s| + 1 && r[pos] == v && r[|s|] == hollow
  {
    s[..pos] + [v] + s[pos..|s| - 1] + [hollow]
  }

  /** Lines 305-308 as written, with moves that empty their source. */
  method EmplaceShiftAsWritten<T>(a: array<T>, size: nat, pos: nat, value: T, hollow: T)
    requires pos < size < a.Length
    modifies a
    ensures a[..size + 1] == ShiftedAsWritten(old(a[..size]), pos, value, hollow)
  {
    ghost var s := a[..size];
    a[size] := a[size - 1];
    a[size - 1] := hollow;
    var i := size;
    while i > pos
      invariant pos <= i <= size
      invariant forall k :: 0 <= k < i && k != size - 1 ==> a[k] == s[k]
      invariant i < size ==> a[i] == hollow
      invariant a[size - 1] == hollow || i < size - 1
      invariant forall k :: i < k < size ==> a[k] == s[k - 1]
      invariant a[size] == if i == size then s[size - 1] else hollow
    {
      a[i] := a[i - 1];
      a[i - 1] := hollow;
      i := i - 1;
    }
    a[pos] := value;
    ghost var r := ShiftedAsWritten(s, pos, value, hollow);
    assert forall k :: 0 <= k < size + 1 ==> a[k] == r[k];
    assert a[..size + 1] == r;
  }

  /** The intended shift: `move_backward` over `[pos, end - 1)` into a
      range ending at `end`. */
  method EmplaceShiftCorrected<T>(a: array<T>, size: nat, pos: nat, value: T, hollow: T)
    requires pos < size < a.Length
    modifies a
    ensures a[..size + 1] == Inserted(old(a[..size]), pos, value)
  {
    ghost var s := a[..size];
    a[size] := a[size - 1];
    a[size - 1] := hollow;
    var i := size - 1;
    while i > pos
      invariant pos <= i < size
      invariant forall k :: 0 <= k < i ==> a[k] == s[k]
      invariant a[i] == hollow
      invariant forall k :: i < k <= size ==> a[k] == s[k - 1]
    {
      a[i] := a[i - 1];
      a[i - 1] := hollow;
      i := i - 1;
    }
    a[pos] := value;
    ghost var r := Inserted(s, pos, value);
    assert forall k :: 0 <= k < size + 1 ==> a[k] == r[k];
    assert a[..size + 1] == r;
  }

  /** Whenever the last element differs from the moved-from value, the
      as-written shift does not produce the inserted sequence. */
  lemma AsWrittenLosesLastElement<T>(s: seq<T>, pos: nat, v: T, hollow: T)
    requires pos < |s| && s[|s| - 1] != hollow
    ensures ShiftedAsWritten(s, pos, v, hollow) != Inserted(s, pos, v)
  {
    assert Inserted(s, pos, v)[|s|] == s[|s| - 1];
  }

  /** Emplacing "x" at the front of ["a", "b"], with strings that moves
      leave empty, yields ["x", "a", ""] instead of ["x", "a", "b"]. */
  lemma AsWrittenExample()
    ensures ShiftedAsWritten(["a", "b"], 0, "x", "") == ["x", "a", ""]
    ensures Inserted(["a", "b"], 0, "x") == ["x", "a", "b"]
  {
  }
}
