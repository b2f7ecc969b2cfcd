/** The vector's capacity policy for appending and what it costs over a run
    of appends: the capacity after `n` appends to an empty vector is the
    least power of two that is at least `n`, and `n` appends reallocate
    exactly `1 + ceil(log2 n)` times. */
module Growth {

  /** The capacity after one successful append (`EmplaceBack`, and so
      `Emplace` too) to a vector of `size` elements and capacity `cap`:
      an empty vector reserves one slot, a full one doubles, any other
      keeps its capacity. */
  function AppendCapacity(size: nat, cap: nat): (r: nat)
    requires size <= cap
    ensures r > size
    ensures r == cap <==> size < cap
    ensures size == cap > 0 ==> r == 2 * cap
    ensures cap == 0 ==> r == 1
  {
    if size == 0 then (if 1 <= cap then cap else 1)
    else if size == cap then size * 2
    else cap
  }

  /** The capacity of an initially empty vector after `n` appends. */
  function CapacityAfterAppends(n: nat): (cap: nat)
    ensures n <= cap
  {
    if n == 0 then 0 else AppendCapacity(n - 1, CapacityAfterAppends(n - 1))
  }

  /** The number of those `n` appends that had to allocate a new buffer. */
  function ReallocationsAfterAppends(n: nat): nat {
    if n == 0 then 0
    else
      var before := CapacityAfterAppends(n - 1);
      ReallocationsAfterAppends(n - 1) + (if AppendCapacity(n - 1, before) != before then 1 else 0)
  }

  function Pow2(k: nat): (r: nat)
    ensures r >= 1
  {
    if k == 0 then 1 else 2 * Pow2(k - 1)
  }

  /** The least `k` with `n <= 2^k`. */
  function Log2Ceil(n: nat): (k: nat)
    ensures n <= Pow2(k)
    ensures k > 0 ==> Pow2(k - 1) < n
  {
    if n <= 1 then 0 else 1 + Log2Ceil((n + 1) / 2)
  }

  lemma {:induction false} Pow2Increasing(a: nat, b: nat)
    requires a < b
    ensures Pow2(a) < Pow2(b)
  {
    if a + 1 < b {
      Pow2Increasing(a, b - 1);
    }
  }

  /** `Log2Ceil(n)` is the only `k` with `2^(k-1) < n <= 2^k`. */
  lemma Log2CeilUnique(n: nat, k: nat)
    requires n <= Pow2(k)
    requires k > 0 ==> Pow2(k - 1) < n
    ensures Log2Ceil(n) == k
  {
    var j := Log2Ceil(n);
    if j < k {
      Pow2Increasing(j, k - 1);
    } else if k < j {
      Pow2Increasing(k, j - 1);
    }
  }

  /** Geometric growth: after `n >= 1` appends to an empty vector the
      capacity is `2^ceil(log2 n)`, and `1 + ceil(log2 n)` of the appends
      reallocated. */
  lemma {:induction false} AppendsGrowGeometrically(n: nat)
    requires n >= 1
    ensures CapacityAfterAppends(n) == Pow2(Log2Ceil(n))
    ensures ReallocationsAfterAppends(n) == Log2Ceil(n) + 1
  {
    if n > 1 {
      var m := n - 1;
      AppendsGrowGeometrically(m);
      var k := Log2Ceil(m);
      if m == Pow2(k) {
        Log2CeilUnique(n, k + 1);
      } else {
        Log2CeilUnique(n, k);
      }
    }
  }
}
