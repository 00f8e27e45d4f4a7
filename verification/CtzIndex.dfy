/** Where a byte of a file lies: the closed form that maps a position to a block of the
    skip list and an offset in it, and the layout it stands for. */
module CtzIndex {
  import opened Bits
  import opened Octets

  function Sub32(a: int, b: int): nat { (a - b) % WORD }

  /** How many pointers block n starts with: the first has none. */
  function Pointers(n: nat): nat { if n == 0 then 0 else TrailingZeros(n) + 1 }

  function Capacity(blockSize: nat, n: nat): int { blockSize - 4 * Pointers(n) }

  /** The position of the first byte of block n. */
  function Start(blockSize: nat, n: nat): int {
    if n == 0 then 0 else Start(blockSize, n - 1) + Capacity(blockSize, n - 1)
  }

  function Div(a: nat, b: nat): (q: nat)
    requires b > 0
    ensures q * b <= a < (q + 1) * b
  {
    a / b
  }

  /** lfs_ctz_index, in 32-bit unsigned arithmetic: an estimate from the average overhead of
      two pointers a block, then one correction. */
  function Index(blockSize: nat, pos: nat): (nat, nat)
    requires 8 < blockSize < WORD && pos < WORD
  {
    var b := blockSize - 8;
    var i := Div(pos, b);
    if i == 0 then (0, pos)
    else
      var i' := Div(Sub32(pos, 4 * (PopCount(i - 1) + 2)), b);
      (i', Sub32(Sub32(pos, (b * i') % WORD), 4 * PopCount(i')))
  }

  /** The layout summed up: n blocks hold n(B-8)+8 bytes and one more pointer for every one
      bit of n-1. */
  lemma {:induction false} StartClosedForm(blockSize: nat, n: nat)
    requires n > 0
    ensures Start(blockSize, n) == n * (blockSize - 8) + 8 + 4 * PopCount(n - 1)
  {
    if n > 1 {
      StartClosedForm(blockSize, n - 1);
      PopCountStep(n - 1);
      assert n * (blockSize - 8) == (n - 1) * (blockSize - 8) + (blockSize - 8);
    } else {
      assert Start(blockSize, 0) == 0 && Capacity(blockSize, 0) == blockSize;
    }
  }

  predicate Holds(blockSize: nat, n: nat, pos: nat) {
    Start(blockSize, n) <= pos < Start(blockSize, n + 1)
  }

  /** No 32-bit file needs more than 2^26 blocks, so that all pointers fit a block. */
  lemma IndexBound(blockSize: nat, pos: nat, i: nat)
    requires 128 <= blockSize && pos < WORD && i * (blockSize - 8) <= pos
    ensures i < Pow2(26)
    ensures PopCount(i) <= 26
  {
    Pow2Of26();
    assert i * 120 <= i * (blockSize - 8);
    PopCountBound(i, 26);
  }

  lemma Pow2Of26()
    ensures Pow2(26) == 0x400_0000
  {
    assert Pow2(13) == 0x2000;
    Pow2Add(13, 13);
  }

  lemma {:induction false} Pow2Add(j: nat, k: nat)
    ensures Pow2(j + k) == Pow2(j) * Pow2(k)
  {
    if k == 0 {
    } else {
      Pow2Add(j, k - 1);
    }
  }

  lemma DivUnique(a: nat, b: nat, q: nat)
    requires b > 0 && q * b <= a < (q + 1) * b
    ensures Div(a, b) == q
  {
    var r := Div(a, b);
    if r < q { MulLe(r + 1, q, b); }
    if q < r { MulLe(q + 1, r, b); }
  }

  lemma MulLe(m: nat, n: nat, b: nat)
    requires m <= n
    ensures m * b <= n * b
  {
  }

  /** How far a position is beyond the average overhead of the blocks before it. */
  lemma OverheadBounds(blockSize: nat, pos: nat, n: nat, b: nat)
    requires 128 <= blockSize < WORD && pos < WORD && n > 0 && Holds(blockSize, n, pos)
    requires b == blockSize - 8
    ensures n * b + 8 + 4 * PopCount(n - 1) <= pos < n * b + b + 8 + 4 * PopCount(n)
    ensures PopCount(n) <= 26 && PopCount(n - 1) <= PopCount(n) + TrailingZeros(n)
    ensures PopCount(n) <= PopCount(n - 1) + 1
  {
    StartClosedForm(blockSize, n);
    StartClosedForm(blockSize, n + 1);
    PopCountStep(n);
    assert (n + 1) * b == n * b + b;
    IndexBound(blockSize, pos, n);
  }

  /** Before the correction the estimate is right or one too large, and either way the
      corrected dividend lies in the range of the right block. */
  lemma Estimate(blockSize: nat, pos: nat, n: nat, b: nat)
    requires 128 <= blockSize < WORD && pos < WORD && n > 0 && Holds(blockSize, n, pos)
    requires b == blockSize - 8
    ensures Div(pos, b) == n || Div(pos, b) == n + 1
    ensures n * b <= pos - 4 * (PopCount(Div(pos, b) - 1) + 2) < n * b + b
  {
    hide Start, PopCount, TrailingZeros, Holds, Pointers, Capacity;
    OverheadBounds(blockSize, pos, n, b);
    if pos < n * b + b {
      DivUnique(pos, b, n);
    } else {
      assert (n + 2) * b == n * b + b + b;
      DivUnique(pos, b, n + 1);
    }
  }

  lemma FirstBlock(blockSize: nat, pos: nat, b: nat)
    requires 128 <= blockSize < WORD && pos < WORD && Holds(blockSize, 0, pos)
    requires b == blockSize - 8
    ensures Index(blockSize, pos) == (0, 4 * Pointers(0) + pos - Start(blockSize, 0))
    ensures Div(pos, b) > 0 ==> 4 * (PopCount(Div(pos, b) - 1) + 2) <= pos
  {
    assert Start(blockSize, 0) == 0 && Start(blockSize, 1) == blockSize;
    if pos < b {
      DivUnique(pos, b, 0);
    } else {
      DivUnique(pos, b, 1);
      DivUnique(pos - 8, b, 0);
      assert Sub32(pos, 4 * (PopCount(0) + 2)) == pos - 8;
    }
  }

  lemma SubExact(a: nat, b: nat)
    requires b <= a < WORD
    ensures Sub32(a, b) == a - b && a % WORD == a
  {
  }

  /** The offset that the last step computes, for the right block. */
  lemma OffsetExact(blockSize: nat, pos: nat, n: nat, b: nat)
    requires 128 <= blockSize < WORD && pos < WORD && n > 0 && Holds(blockSize, n, pos)
    requires b == blockSize - 8
    ensures b * n + 4 * PopCount(n) <= pos
    ensures pos - b * n - 4 * PopCount(n) == 4 * Pointers(n) + pos - Start(blockSize, n)
  {
    OverheadBounds(blockSize, pos, n, b);
    StartClosedForm(blockSize, n);
    PopCountStep(n);
    assert b * n == n * b;
  }

  /** The arithmetic of the last two steps, no operation of which wraps. */
  lemma IndexSteps(pos: nat, n: nat, b: nat, i: nat, before: nat, ones: nat, product: nat)
    requires pos < WORD && b > 0 && i > 0 && product == b * n
    requires product <= pos - 4 * (before + 2) < product + b
    requires product + 4 * ones <= pos
    ensures Div(Sub32(pos, 4 * (before + 2)), b) == n
    ensures Sub32(Sub32(pos, product % WORD), 4 * ones) == pos - product - 4 * ones
  {
    var dividend := pos - 4 * (before + 2);
    SubExact(pos, 4 * (before + 2));
    assert (n + 1) * b == product + b && n * b == product;
    DivUnique(dividend, b, n);
    SubExact(product, 0);
    SubExact(pos, product);
    SubExact(pos - product, 4 * ones);
  }

  /** The index a position maps to, and the offset behind the pointers of that block. */
  lemma IndexExact(blockSize: nat, pos: nat, n: nat)
    requires 128 <= blockSize < WORD && pos < WORD && Holds(blockSize, n, pos)
    ensures Index(blockSize, pos) == (n, 4 * Pointers(n) + pos - Start(blockSize, n))
  {
    hide Start, PopCount, Holds, Sub32;
    var b := blockSize - 8;
    if n == 0 {
      FirstBlock(blockSize, pos, b);
    } else {
      Estimate(blockSize, pos, n, b);
      OffsetExact(blockSize, pos, n, b);
      IndexSteps(pos, n, b, Div(pos, b), PopCount(Div(pos, b) - 1), PopCount(n), b * n);
    }
  }

  /** None of the unsigned subtractions of the closed form goes below zero, and its
      product does not overflow. */
  lemma NoUnderflow(blockSize: nat, pos: nat, n: nat, b: nat)
    requires 128 <= blockSize < WORD && pos < WORD && Holds(blockSize, n, pos)
    requires b == blockSize - 8
    ensures Div(pos, b) > 0 ==> 4 * (PopCount(Div(pos, b) - 1) + 2) <= pos
    ensures b * n + 4 * PopCount(n) <= pos
  {
    hide Start, PopCount, Holds, Index, Sub32, Capacity, Div;
    if n > 0 {
      Estimate(blockSize, pos, n, b);
      OffsetExact(blockSize, pos, n, b);
    } else {
      FirstBlock(blockSize, pos, b);
      NoOnes();
    }
  }

  lemma NoOnes()
    ensures PopCount(0) == 0
  {
  }

  /** Every block of a 32-bit file has room for data behind its pointers. */
  lemma CapacityPositive(blockSize: nat, n: nat)
    requires 128 <= blockSize && n < Pow2(26)
    ensures Capacity(blockSize, n) >= 24
  {
    if n > 0 {
      TrailingZerosDivides(n);
      FloorLog2Bounds(n);
      if FloorLog2(n) >= 26 { Pow2Monotone(26, FloorLog2(n)); }
    }
  }

  lemma {:induction false} Locate(blockSize: nat, pos: nat, from: nat) returns (n: nat)
    requires 128 <= blockSize < WORD && pos < WORD && Start(blockSize, from) <= pos
    ensures Holds(blockSize, n, pos)
    decreases pos - Start(blockSize, from)
  {
    if from > 0 { StartClosedForm(blockSize, from); }
    IndexBound(blockSize, pos, from);
    CapacityPositive(blockSize, from);
    if pos < Start(blockSize, from + 1) {
      n := from;
    } else {
      n := Locate(blockSize, pos, from + 1);
    }
  }

  /** The closed form is exact: it gives the one block that holds the position, and where
      in that block it lies. */
  lemma IndexIsTheBlock(blockSize: nat, pos: nat)
    requires 128 <= blockSize < WORD && pos < WORD
    ensures
      var (i, off) := Index(blockSize, pos);
      && Holds(blockSize, i, pos)
      && (forall n :: Holds(blockSize, n, pos) ==> n == i)
      && off == 4 * Pointers(i) + pos - Start(blockSize, i)
      && 4 * Pointers(i) <= off < blockSize
      && i < Pow2(26)
  {
    var n := Locate(blockSize, pos, 0);
    IndexExact(blockSize, pos, n);
    forall m | Holds(blockSize, m, pos) ensures m == n {
      IndexExact(blockSize, pos, m);
    }
    if n > 0 { StartClosedForm(blockSize, n); }
    IndexBound(blockSize, pos, n);
  }
}
