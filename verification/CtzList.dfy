/** The skip list of a file's blocks on flash: following pointers from the last block to any
    other, and visiting all of them. */
module CtzList {
  import opened Bits
  import opened CtzIndex
  import opened Octets

  // What has been programmed into each erased block so far, from its beginning.
  type Disk = map<nat, seq<Octet>>

  /** Block i of the list starts with pointers to the blocks 1, 2, 4, ... before it. */
  ghost predicate PointersOk(disk: Disk, blocks: seq<nat>, i: nat)
    requires i < |blocks|
  {
    && blocks[i] in disk
    && |disk[blocks[i]]| >= 4 * Pointers(i)
    && forall k :: 0 <= k < Pointers(i) && Pow2(k) <= i ==>
         LE32(disk[blocks[i]], 4 * k) == blocks[i - Pow2(k)]
  }

  ghost predicate IsList(disk: Disk, blocks: seq<nat>) {
    forall i :: 0 <= i < |blocks| ==> PointersOk(disk, blocks, i)
  }

  function LastIndex(blockSize: nat, size: nat): nat
    requires 8 < blockSize < WORD && 0 < size <= WORD
  {
    Index(blockSize, size - 1).0
  }

  // ---- Finding a block ----

  lemma {:induction false} ClearLowest(n: nat)
    requires n > 0 && n != Pow2(TrailingZeros(n))
    ensures Pow2(TrailingZeros(n)) < n
    ensures TrailingZeros(n - Pow2(TrailingZeros(n))) > TrailingZeros(n)
  {
    TrailingZerosDivides(n);
    if n % 2 == 0 {
      assert Pow2(TrailingZeros(n)) == 2 * Pow2(TrailingZeros(n / 2));
      ClearLowest(n / 2);
      assert (n - Pow2(TrailingZeros(n))) / 2 == n / 2 - Pow2(TrailingZeros(n / 2));
    }
  }

  lemma {:induction false} ClearBelow(n: nat, k: nat)
    requires n > 0 && k < TrailingZeros(n)
    ensures Pow2(k) < n && TrailingZeros(n - Pow2(k)) == k
  {
    TrailingZerosDivides(n);
    Pow2Monotone(k, TrailingZeros(n));
    if k == 0 {
    } else {
      ClearBelow(n / 2, k - 1);
      assert (n - Pow2(k)) / 2 == n / 2 - Pow2(k - 1);
    }
  }

  function Skip(current: nat, target: nat): nat
    requires target < current
  {
    var a, b := NextPow2(current - target + 1) - 1, TrailingZeros(current);
    if a < b then a else b
  }

  /** A bound on the hops left: first the lowest bits of the index are cleared one after the
      other, then the distance is halved again and again. */
  function HopBound(current: nat, target: nat, top: nat): int
    requires target <= current
  {
    if current == target then 0
    else
      var l := FloorLog2(current - target);
      if TrailingZeros(current) >= l then l + 1 else top - TrailingZeros(current) + top + 1
  }

  lemma HopShrinksBound(current: nat, target: nat, top: nat)
    requires target < current && FloorLog2(current) <= top
    ensures
      var next := current - Pow2(Skip(current, target));
      && target <= next && FloorLog2(current - target) <= top
      && (next > 0 ==> FloorLog2(next) <= top)
      && 0 <= HopBound(next, target, top) < HopBound(current, target, top)
  {
    hide Pow2, FloorLog2, TrailingZeros;
    var d, z := current - target, TrailingZeros(current);
    var l, s := FloorLog2(d), Skip(current, target);
    var next := current - Pow2(s);
    FloorLog2Bounds(d);
    Pow2Next(l);
    Pow2Monotone(s, l);
    Log2Monotone(d, current);
    if next > 0 { Log2Monotone(next, current); }
    if next > target {
      var l' := FloorLog2(next - target);
      FloorLog2Bounds(next - target);
      TrailingZerosDivides(next);
      Log2Monotone(next - target, current);
      if z >= l {
        if l <= l' { Pow2Monotone(l, l'); }
        if z > l { ClearBelow(current, l); } else { ClearLowest(current); }
      } else {
        ClearLowest(current);
      }
    }
  }

  /** Pointer k of a block. */
  function Pointer(disk: Disk, block: nat, k: nat): nat
    requires block in disk && 4 * k + 4 <= |disk[block]|
  {
    LE32(disk[block], 4 * k)
  }

  /** Some pointer of block `a` names block `b`. */
  ghost predicate Follows(disk: Disk, a: nat, b: nat) {
    a in disk && exists k: nat :: 4 * k + 4 <= |disk[a]| && Pointer(disk, a, k) == b
  }

  /** A way from one block to another along pointers. */
  ghost predicate IsPath(disk: Disk, path: seq<nat>, from: nat, to: nat) {
    && path != [] && path[0] == from && path[|path| - 1] == to
    && forall i :: 0 <= i < |path| - 1 ==> Follows(disk, path[i], path[i + 1])
  }

  /** Follows pointers from the last block to the one that holds `pos`. The sequence of
      blocks is what the list stands for; the method only reads what is on the disk. */
  method Find(disk: Disk, blockSize: nat, head: nat, size: nat, pos: nat, ghost blocks: seq<nat>)
    returns (block: nat, off: nat, ghost path: seq<nat>)
    requires 128 <= blockSize < WORD && pos < size <= WORD
    requires IsList(disk, blocks) && |blocks| == LastIndex(blockSize, size) + 1
    requires head == blocks[|blocks| - 1]
    ensures Index(blockSize, pos).0 < |blocks|
    ensures block == blocks[Index(blockSize, pos).0] && off == Index(blockSize, pos).1
    ensures IsPath(disk, path, head, block)
    ensures |path| - 1 <= if |blocks| == 1 then 0 else 2 * FloorLog2(|blocks| - 1) + 1
  {
    hide Index, IsList, PointersOk, LE32, HopBound, Skip, FloorLog2, TrailingZeros;
    var current: nat, target := LastIndex(blockSize, size), Index(blockSize, pos).0;
    IndexMonotone(blockSize, pos, size - 1);
    block, path := head, [head];
    ghost var top := if current == 0 then 0 else FloorLog2(current);
    HopBoundAtStart(current, target);
    while current > target
      invariant target <= current < |blocks| && block == blocks[current]
      invariant current > 0 ==> FloorLog2(current) <= top
      invariant 0 <= HopBound(current, target, top)
      invariant IsPath(disk, path, head, block)
      invariant |path| - 1 + HopBound(current, target, top)
             <= if |blocks| == 1 then 0 else 2 * top + 1
    {
      var skip := Skip(current, target);
      HopShrinksBound(current, target, top);
      SkipPointer(disk, blocks, current, target);
      ghost var before := block;
      block := Pointer(disk, block, skip);
      assert Follows(disk, before, block);
      current := current - Pow2(skip);
      path := path + [block];
    }
    off := Index(blockSize, pos).1;
  }

  lemma HopBoundAtStart(current: nat, target: nat)
    requires target <= current
    ensures
      var top := if current == 0 then 0 else FloorLog2(current);
      0 <= HopBound(current, target, top) <= if current == 0 then 0 else 2 * top + 1
  {
    if target < current {
      TrailingZerosDivides(current);
      Log2Monotone(current - target, current);
    }
  }

  lemma SkipPointer(disk: Disk, blocks: seq<nat>, current: nat, target: nat)
    requires IsList(disk, blocks) && target < current < |blocks|
    ensures
      var skip := Skip(current, target);
      && Pow2(skip) <= current - target
      && blocks[current] in disk && |disk[blocks[current]]| >= 4 * skip + 4
      && LE32(disk[blocks[current]], 4 * skip) == blocks[current - Pow2(skip)]
  {
    FloorLog2Bounds(current - target);
    Pow2Monotone(Skip(current, target), FloorLog2(current - target));
    assert PointersOk(disk, blocks, current);
  }

  lemma IndexMonotone(blockSize: nat, p: nat, q: nat)
    requires 128 <= blockSize < WORD && p <= q < WORD
    ensures Index(blockSize, p).0 <= Index(blockSize, q).0
  {
    hide Index, Start;
    IndexIsTheBlock(blockSize, p);
    IndexIsTheBlock(blockSize, q);
    var i, j := Index(blockSize, p).0, Index(blockSize, q).0;
    if j < i { StartMonotone(blockSize, j + 1, i); }
  }

  lemma {:induction false} StartMonotone(blockSize: nat, m: nat, n: nat)
    requires 128 <= blockSize && m <= n <= Pow2(26)
    ensures Start(blockSize, m) <= Start(blockSize, n)
  {
    if m < n {
      CapacityPositive(blockSize, n - 1);
      StartMonotone(blockSize, m, n - 1);
    }
  }

  // ---- Visiting every block ----

  function Reversed(s: seq<nat>): (r: seq<nat>)
    ensures |r| == |s| && forall i :: 0 <= i < |s| ==> r[i] == s[|s| - 1 - i]
  {
    if s == [] then [] else [s[|s| - 1]] + Reversed(s[..|s| - 1])
  }

  lemma FirstPointers(disk: Disk, blocks: seq<nat>, i: nat)
    requires IsList(disk, blocks) && 0 < i < |blocks|
    ensures blocks[i] in disk && |disk[blocks[i]]| >= 4
    ensures LE32(disk[blocks[i]], 0) == blocks[i - 1]
    ensures i % 2 == 0 ==>
              i >= 2 && |disk[blocks[i]]| >= 8 && LE32(disk[blocks[i]], 4) == blocks[i - 2]
  {
    assert PointersOk(disk, blocks, i);
    assert Pow2(0) == 1 && Pow2(1) == 2;
    if i % 2 == 0 { assert TrailingZeros(i) >= 1; }
  }

  lemma ReversedStep(s: seq<nat>, i: nat)
    requires i < |s|
    ensures Reversed(s[..i + 1]) == [s[i]] + Reversed(s[..i])
  {
    assert s[..i + 1][..i] == s[..i];
  }

  /** Every block is visited exactly once, the last one first; an even index knows the
      two blocks before it, an odd one only the one before. */
  method Traverse(disk: Disk, blockSize: nat, head: nat, size: nat, ghost blocks: seq<nat>)
    returns (visited: seq<nat>)
    requires 128 <= blockSize < WORD && size <= WORD && IsList(disk, blocks)
    requires size == 0 ==> blocks == []
    requires size > 0 ==> |blocks| == LastIndex(blockSize, size) + 1 && head == blocks[|blocks| - 1]
    ensures visited == Reversed(blocks)
  {
    hide Index, IsList, PointersOk, LE32, Reversed;
    visited := [];
    if size == 0 { return; }
    var index: nat, block := LastIndex(blockSize, size), head;
    assert blocks[..index + 1] == blocks;
    while true
      invariant index < |blocks| && block == blocks[index]
      invariant visited + Reversed(blocks[..index + 1]) == Reversed(blocks)
      decreases index
    {
      ReversedStep(blocks, index);
      visited := visited + [block];
      if index == 0 {
        assert blocks[..0] == [];
        return;
      }
      var count := 2 - index % 2;
      FirstPointers(disk, blocks, index);
      var next := LE32(disk[block], 0);
      if count == 2 {
        ReversedStep(blocks, index - 1);
        visited := visited + [next];
        next := LE32(disk[block], 4);
      }
      block := next;
      index := index - count;
    }
  }
}
