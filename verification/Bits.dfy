/** Powers of two and the bit-counting helpers of lfs_util.h on unbounded naturals. */
module Bits {

  function Pow2(k: nat): (p: nat)
    ensures p > 0
  {
    if k == 0 then 1 else 2 * Pow2(k - 1)
  }

  /** The number of one bits (lfs_popc). */
  function PopCount(n: nat): nat { if n == 0 then 0 else n % 2 + PopCount(n / 2) }

  /** The number of zero bits below the lowest one bit (lfs_ctz). */
  function TrailingZeros(n: nat): nat
    requires n > 0
  {
    if n % 2 == 1 then 0 else 1 + TrailingZeros(n / 2)
  }

  function FloorLog2(n: nat): nat
    requires n > 0
  {
    if n == 1 then 0 else 1 + FloorLog2(n / 2)
  }

  /** The exponent of the smallest power of two that is at least `a` (lfs_npw2). */
  function NextPow2(a: nat): nat
    requires a > 1
  {
    1 + FloorLog2(a - 1)
  }

  lemma {:induction false} FloorLog2Bounds(n: nat)
    requires n > 0
    ensures Pow2(FloorLog2(n)) <= n < Pow2(FloorLog2(n) + 1)
  {
    if n > 1 { FloorLog2Bounds(n / 2); }
  }

  lemma {:induction false} Pow2Monotone(j: nat, k: nat)
    requires j <= k
    ensures Pow2(j) <= Pow2(k)
    ensures j < k ==> 2 * Pow2(j) <= Pow2(k)
  {
    if j < k { Pow2Monotone(j, k - 1); }
  }

  lemma Pow2Next(k: nat)
    ensures Pow2(k + 1) == 2 * Pow2(k)
  {
  }

  /** NextPow2 is what its name says. */
  lemma NextPow2Exact(a: nat)
    requires a > 1
    ensures Pow2(NextPow2(a) - 1) < a <= Pow2(NextPow2(a))
  {
    FloorLog2Bounds(a - 1);
  }

  lemma {:induction false} Log2Monotone(m: nat, n: nat)
    requires 0 < m <= n
    ensures FloorLog2(m) <= FloorLog2(n)
  {
    FloorLog2Bounds(m);
    FloorLog2Bounds(n);
    if FloorLog2(n) < FloorLog2(m) { Pow2Monotone(FloorLog2(n) + 1, FloorLog2(m)); }
  }

  /** Incrementing a number flips its trailing ones: popcount drops by one less than
      the number of trailing zeros of the result. */
  lemma {:induction false} PopCountStep(n: nat)
    requires n > 0
    ensures PopCount(n) + TrailingZeros(n) == PopCount(n - 1) + 1
  {
    if n % 2 == 1 {
      assert (n - 1) / 2 == n / 2 && (n - 1) % 2 == 0;
    } else {
      PopCountStep(n / 2);
      assert (n - 1) / 2 == n / 2 - 1 && (n - 1) % 2 == 1;
    }
  }

  lemma {:induction false} PopCountBound(n: nat, k: nat)
    requires n < Pow2(k)
    ensures PopCount(n) <= k
  {
    if n == 0 {
    } else {
      PopCountBound(n / 2, k - 1);
    }
  }

  lemma {:induction false} PopCountAtMost(n: nat)
    ensures PopCount(n) <= n
  {
    if n == 0 {
    } else {
      PopCountAtMost(n / 2);
    }
  }

  lemma {:induction false} TrailingZerosDivides(n: nat)
    requires n > 0
    ensures Pow2(TrailingZeros(n)) <= n
    ensures TrailingZeros(n) <= FloorLog2(n)
  {
    if n % 2 == 0 { TrailingZerosDivides(n / 2); }
  }
}
