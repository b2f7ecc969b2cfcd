/** The values a vector's live elements take after each operation, as
    functions on sequences. `Vector`'s methods are proved against these;
    the lemmas here relate the operations to one another. */
module Sequences {

  /** `n` copies of `v`: what value-constructing `n` elements produces. */
  function Filled<T>(n: nat, v: T): (r: seq<T>)
    ensures |r| == n
    ensures forall i :: 0 <= i < n ==> r[i] == v
  {
    if n == 0 then [] else Filled(n - 1, v) + [v]
  }

  /** `s` with `v` placed at position `pos`, the elements from `pos` on
      moving one place towards the end. */
  function Inserted<T>(s: seq<T>, pos: nat, v: T): (r: seq<T>)
    requires pos <= |s|
    ensures |r| == |s| + 1 && r[pos] == v
    ensures forall i :: 0 <= i < pos ==> r[i] == s[i]
    ensures forall i :: pos < i < |r| ==> r[i] == s[i - 1]
  {
    s[..pos] + [v] + s[pos..]
  }

  /** `s` without the element at position `pos`, the elements after it
      moving one place towards the front. */
  function Erased<T>(s: seq<T>, pos: nat): (r: seq<T>)
    requires pos < |s|
    ensures |r| == |s| - 1
    ensures forall i :: 0 <= i < pos ==> r[i] == s[i]
    ensures forall i :: pos <= i < |r| ==> r[i] == s[i + 1]
  {
    s[..pos] + s[pos + 1..]
  }

  /** `s` brought to length `n`: truncated when `n` is smaller, padded with
      value-constructed elements `init` when it is larger. */
  function Resized<T>(s: seq<T>, n: nat, init: T): (r: seq<T>)
    ensures |r| == n
    ensures forall i :: 0 <= i < n && i < |s| ==> r[i] == s[i]
    ensures forall i :: |s| <= i < n ==> r[i] == init
  {
    if n <= |s| then s[..n] else s + Filled(n - |s|, init)
  }

  /** Erasing at the position just inserted at restores the sequence. */
  lemma EraseUndoesInsert<T>(s: seq<T>, pos: nat, v: T)
    requires pos <= |s|
    ensures Erased(Inserted(s, pos, v), pos) == s
  {
    var r := Erased(Inserted(s, pos, v), pos);
    assert forall i :: 0 <= i < |s| ==> r[i] == s[i];
  }

  /** Inserting at the end is appending. */
  lemma InsertAtEndAppends<T>(s: seq<T>, v: T)
    ensures Inserted(s, |s|, v) == s + [v]
  {
    assert s[|s|..] == [];
  }

  /** Erasing the last element is dropping it. */
  lemma EraseLastDrops<T>(s: seq<T>)
    requires |s| > 0
    ensures Erased(s, |s| - 1) == s[..|s| - 1]
  {
  }
}
