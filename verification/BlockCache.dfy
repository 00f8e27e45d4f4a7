/** The read cache and the program cache laid over the block device: what is read through them
    is what a flat array would hold after the same programs. */
module BlockCache {
  import opened Alignment
  import opened Bytes

  const ERASED: Byte := 0xff

  // ---- Pieces of a block ----

  lemma PatchInside(s: seq<Byte>, off: nat, bytes: seq<Byte>, i: nat, j: nat)
    requires off + |bytes| <= |s| && off <= i <= j <= off + |bytes|
    ensures Patch(s, off, bytes)[i..j] == bytes[i - off..j - off]
  {
  }

  lemma PatchOutside(s: seq<Byte>, off: nat, bytes: seq<Byte>, i: nat, j: nat)
    requires off + |bytes| <= |s| && i <= j <= |s| && (j <= off || off + |bytes| <= i)
    ensures Patch(s, off, bytes)[i..j] == s[i..j]
  {
  }

  predicate ErasedFrom(s: seq<Byte>, off: nat) { forall i :: off <= i < |s| ==> s[i] == ERASED }

  function Erased(n: nat): seq<Byte> { seq(n, _ => ERASED) }

  /** In a part of a block, nothing is written between two offsets. */
  predicate Unwritten(s: seq<Byte>, begin: nat, end: nat, off: nat, size: nat) {
    forall i :: begin <= i < end && off <= i < off + size && i < |s| ==> s[i] == ERASED
  }

  predicate Blank(s: seq<Byte>) { ErasedFrom(s, 0) }

  // ---- The caches ----

  const NULL := -1

  /** A place for a part of a block, or for nothing. */
  ghost predicate HasPlace(device: seq<seq<Byte>>, block: int, off: nat, size: nat, unit: nat, buffer: seq<Byte>)
    requires unit > 0
  {
    block != NULL ==>
      0 <= block < |device| && off % unit == 0 && size <= |buffer| && off + size <= |device[block]|
  }

  /** A copy of what is on the device in that place. */
  ghost predicate IsCopy(device: seq<seq<Byte>>, block: int, off: nat, size: nat, buffer: seq<Byte>)
    requires HasPlace(device, block, off, size, 1, buffer)
  {
    block != NULL ==> buffer[..size] == device[block][off..off + size]
  }

  /** What is to be programmed next into a part of a block that is erased, or nothing. */
  ghost predicate HoldsChange(device: seq<seq<Byte>>, block: int, off: nat, size: nat, unit: nat, buffer: seq<Byte>)
    requires unit > 0
  {
    && (block == NULL ==> Blank(buffer))
    && (block != NULL ==>
          && 0 <= block < |device| && off % unit == 0
          && size <= |buffer| && off + size <= |device[block]|
          && ErasedFrom(device[block], off) && ErasedFrom(buffer, size))
  }

  // ---- Copies of pieces ----

  lemma SliceOfSlice(s: seq<Byte>, off: nat, size: nat, at: nat, n: nat)
    requires off <= at && at + n <= off + size <= |s|
    ensures s[off..off + size][at - off..at - off + n] == s[at..at + n]
  {
    var t := s[off..off + size];
    assert forall i :: 0 <= i < size ==> t[i] == s[off + i];
    assert t[at - off..at - off + n] == s[at..at + n];
  }

  lemma SameParts(s: seq<Byte>, off: nat, bytes: seq<Byte>, i: nat, n: nat)
    requires off + |bytes| <= |s| && i + n <= |bytes| && s[off..off + i] == bytes[..i]
    ensures s[off + i..off + i + n] == bytes[i..i + n] ==> s[off..off + i + n] == bytes[..i + n]
    ensures s[off + i..off + i + n] != bytes[i..i + n] ==> s[off..off + |bytes|] != bytes
  {
    assert s[off..off + i + n] == s[off..off + i] + s[off + i..off + i + n];
    assert bytes[..i + n] == bytes[..i] + bytes[i..i + n];
    SliceOfSlice(s, off, |bytes|, off + i, n);
  }

  lemma KeptFront(s: seq<Byte>, off: nat, bytes: seq<Byte>)
    requires off + |bytes| <= |s|
    ensures Patch(s, off, bytes)[..off] == s[..off]
  {
  }

  /** Nothing has been written but behind `begin` in one block. */
  ghost predicate Behind(now: seq<seq<Byte>>, before: seq<seq<Byte>>, block: nat, begin: nat) {
    && |now| == |before| && block < |now| && begin <= |now[block]| == |before[block]|
    && (forall b :: 0 <= b < |now| && b != block ==> now[b] == before[b])
    && now[block][..begin] == before[block][..begin]
  }

  /** A copy stays one exactly if no byte of it is changed. */
  lemma CopyAfter(before: seq<seq<Byte>>, block: int, off: nat, size: nat, r: seq<Byte>,
                  pblock: nat, poff: nat, psize: nat, p: seq<Byte>, disturbs: bool)
    requires pblock < |before| && psize <= |p| && poff + psize <= |before[pblock]|
    requires HasPlace(before, block, off, size, 1, r) && IsCopy(before, block, off, size, r)
    requires ErasedFrom(before[pblock], poff)
    requires disturbs == (
               block == pblock
               && exists i :: 0 <= i < psize && off <= poff + i < off + size && p[i] != ERASED)
    ensures
      var after := before[pblock := Patch(before[pblock], poff, p[..psize])];
      && HasPlace(after, block, off, size, 1, r)
      && (IsCopy(after, block, off, size, r) <==> !disturbs)
  {
    if block == pblock {
      var a, b := before[block], Patch(before[block], poff, p[..psize]);
      CopyBytes(a, off, size, r);
      if disturbs {
        var i :| 0 <= i < psize && off <= poff + i < off + size && p[i] != ERASED;
        assert b[off..off + size][poff + i - off] == b[poff + i] == p[i];
        assert r[..size][poff + i - off] == a[poff + i] == ERASED;
      } else {
        assert forall i :: off <= i < off + size ==> b[i] == a[i];
        assert b[off..off + size] == a[off..off + size];
      }
    }
  }

  /** A copy of what was there is one of what is there now exactly if nothing that it holds was
      written: behind `begin` all was erased, and up to `end` it is as in `flat`. */
  lemma CopyIff(now: seq<Byte>, was: seq<Byte>, flat: seq<Byte>, begin: nat, end: nat,
                off: nat, size: nat, r: seq<Byte>)
    requires |now| == |was| == |flat| && begin <= end <= |now| && now[..begin] == was[..begin]
    requires ErasedFrom(was, begin)
    requires forall i :: begin <= i < |now| ==> now[i] == if i < end then flat[i] else ERASED
    requires off + size <= |now| && size <= |r| && r[..size] == was[off..off + size]
    ensures r[..size] == now[off..off + size]
       <==> Unwritten(flat, begin, end, off, size)
  {
    CopyBytes(was, off, size, r);
    forall i | 0 <= i < begin ensures now[i] == was[i] {
      assert now[i] == now[..begin][i] && was[i] == was[..begin][i];
    }
    if r[..size] == now[off..off + size] {
      CopyBytes(now, off, size, r);
    }
    if Unwritten(flat, begin, end, off, size) {
      assert forall i :: off <= i < off + size ==> now[i] == was[i];
      assert now[off..off + size] == was[off..off + size];
    }
  }

  /** What was read ahead of the programmed bytes, as the commit that announces erased space
      does, or behind them, is not in the way. */
  lemma NotInTheWay(s: seq<Byte>, begin: nat, end: nat, off: nat, size: nat)
    requires end <= off || off + size <= begin
    ensures Unwritten(s, begin, end, off, size)
  {
  }

  lemma CopyBytes(a: seq<Byte>, off: nat, size: nat, r: seq<Byte>)
    requires off + size <= |a| && size <= |r| && r[..size] == a[off..off + size]
    ensures forall i :: off <= i < off + size ==> r[i - off] == a[i]
  {
    forall i | off <= i < off + size ensures r[i - off] == a[i] {
      assert r[..size][i - off] == a[off..off + size][i - off];
    }
  }

  /** Programming erased bytes into erased space changes nothing. */
  lemma Padding(s: seq<Byte>, off: nat, buffer: seq<Byte>, n: nat, m: nat)
    requires n <= m <= |buffer| && off + m <= |s| && ErasedFrom(s, off) && ErasedFrom(buffer, n)
    ensures Patch(s, off, buffer[..m]) == Patch(s, off, buffer[..n])
    ensures ErasedFrom(Patch(s, off, buffer[..m]), off + n)
    ensures Patch(s, off, buffer[..m])[off..off + m] == buffer[..m]
  {
    var a, b := Patch(s, off, buffer[..m]), Patch(s, off, buffer[..n]);
    forall i | 0 <= i < |s| ensures a[i] == b[i] { }
  }

  /** A read in whole units past the caches moves on exactly if the cached bytes ahead, at
      which it must stop, are at least a unit away; units dividing one another ensure that. */
  lemma BypassMovesOn(at: nat, left: nat, until: nat, unit: nat)
    requires unit > 0 && at % unit == 0 && left >= unit && at < until
    ensures AlignDown(Min(left, until - at), unit) > 0 <==> at + unit <= until
    ensures until % unit == 0 ==> at + unit <= until
  {
    if until % unit == 0 { UnitLeft(at, until, unit); }
  }

  function Max(a: nat, b: nat): nat { if a < b then b else a }

  lemma Filled(s: seq<Byte>, poff: nat, before: seq<Byte>, n: nat, at: nat, bytes: seq<Byte>,
               after: seq<Byte>, m: nat)
    requires ErasedFrom(s, poff) && n <= |before| == |after| && ErasedFrom(before, n) && poff + n <= |s|
    requires poff <= at && at + |bytes| <= |s| && at + |bytes| - poff <= |before|
    requires m == Max(n, at + |bytes| - poff)
    requires after == Patch(before, at - poff, bytes)
    ensures poff + m <= |s| && ErasedFrom(after, m)
    ensures Patch(s, poff, after[..m]) == Patch(Patch(s, poff, before[..n]), at, bytes)
  {
    var a, b := Patch(s, poff, after[..m]), Patch(Patch(s, poff, before[..n]), at, bytes);
    forall i | 0 <= i < |s| ensures a[i] == b[i] { }
  }

  lemma NothingPatched(flat: seq<seq<Byte>>, block: nat, off: nat)
    requires block < |flat| && off <= |flat[block]|
    ensures flat[block := Patch(flat[block], off, [])] == flat
  {
    assert Patch(flat[block], off, []) == flat[block];
  }

  lemma MorePatched(flat: seq<seq<Byte>>, block: nat, off: nat, data: seq<Byte>, done: nat, diff: nat)
    requires block < |flat| && off + |data| <= |flat[block]| && done + diff <= |data|
    ensures
      var now := flat[block := Patch(flat[block], off, data[..done])];
      now[block := Patch(now[block], off + done, data[done..][..diff])]
      == flat[block := Patch(flat[block], off, data[..done + diff])]
  {
    var s := flat[block];
    assert data[..done + diff] == data[..done] + data[done..][..diff];
    assert Patch(Patch(s, off, data[..done]), off + done, data[done..][..diff]) == Patch(s, off, data[..done + diff]);
  }

  lemma Overwritten(before: seq<Byte>, at: nat, bytes: seq<Byte>, after: seq<Byte>)
    requires |after| == |before| && at + |bytes| <= |before|
    requires forall i :: 0 <= i < |before| ==> after[i] == if at <= i < at + |bytes| then bytes[i - at] else before[i]
    ensures after == Patch(before, at, bytes)
  {
  }

  // ---- The device under its caches ----

  class Cached {
    const readSize: nat
    const progSize: nat
    const cacheSize: nat
    const blockSize: nat
    var device: seq<seq<Byte>>

    // the read cache
    var rblock: int
    var roff: nat
    var rsize: nat
    const rbuffer: array<Byte>

    // the program cache
    var pblock: int
    var poff: nat
    var psize: nat
    const pbuffer: array<Byte>

    /** Starts with empty caches. The sizes are those that the initialisation asserts, and the
        read size divides the program size. */
    constructor (readSize: nat, progSize: nat, cacheSize: nat, blockSize: nat, device: seq<seq<Byte>>)
      requires readSize > 0 && progSize > 0 && cacheSize > 0
      requires cacheSize % readSize == 0 && cacheSize % progSize == 0 && blockSize % cacheSize == 0
      requires progSize % readSize == 0
      requires forall b :: 0 <= b < |device| ==> |device[b]| == blockSize
      ensures Valid() && Coherent() && Flat() == device && pblock == NULL && rblock == NULL
    {
      this.readSize, this.progSize, this.cacheSize, this.blockSize := readSize, progSize, cacheSize, blockSize;
      this.device := device;
      rblock, roff, rsize, rbuffer := NULL, 0, 0, new Byte[cacheSize];
      pblock, poff, psize, pbuffer := NULL, 0, 0, new Byte[cacheSize];
      new;
      Clear();
    }

    predicate Geometry() {
      && readSize > 0 && progSize > 0 && cacheSize > 0
      && cacheSize % readSize == 0 && cacheSize % progSize == 0 && blockSize % cacheSize == 0
      && progSize % readSize == 0
    }

    ghost predicate ReadCacheOk()
      requires Geometry()
      reads this, rbuffer
    {
      rbuffer.Length == cacheSize && HasPlace(device, rblock, roff, rsize, readSize, rbuffer[..])
    }

    ghost predicate ProgCacheOk()
      requires Geometry()
      reads this, pbuffer
    {
      pbuffer.Length == cacheSize && HoldsChange(device, pblock, poff, psize, progSize, pbuffer[..])
    }

    ghost predicate Valid()
      reads this, rbuffer, pbuffer
    {
      && Geometry() && rbuffer != pbuffer
      && (forall b :: 0 <= b < |device| ==> |device[b]| == blockSize)
      && ReadCacheOk() && ProgCacheOk()
    }

    /** What the read cache holds is what is on the device. */
    ghost predicate Coherent()
      requires Valid()
      reads this, rbuffer, pbuffer
    {
      IsCopy(device, rblock, roff, rsize, rbuffer[..])
    }

    /** What the caller has programmed, as if it had gone straight to the device. */
    ghost function Flat(): (r: seq<seq<Byte>>)
      requires Valid()
      reads this, rbuffer, pbuffer
      ensures |r| == |device| && forall b :: 0 <= b < |r| ==> |r[b]| == blockSize
    {
      if pblock == NULL then device
      else device[pblock := Patch(device[pblock], poff, pbuffer[..psize])]
    }

    ghost function Content(usePcache: bool, block: nat): (r: seq<Byte>)
      requires Valid() && block < |device|
      reads this, rbuffer, pbuffer
      ensures |r| == blockSize
    {
      if usePcache then Flat()[block] else device[block]
    }

    /** What can be taken from one of the caches or must stop in front of it. */
    ghost predicate Hit(block: nat, off: nat)
      reads this
    {
      rblock == block && roff <= off < roff + rsize
    }

    lemma ContentIsDevice(usePcache: bool, block: nat, at: nat, n: nat)
      requires Valid() && block < |device| && at + n <= blockSize
      requires usePcache && block == pblock ==> at + n <= poff || poff + psize <= at
      ensures Content(usePcache, block)[at..at + n] == device[block][at..at + n]
    {
      hide ErasedFrom, Patch, SamePrefix;
      if usePcache && block == pblock {
        PatchOutside(device[block], poff, pbuffer[..psize], at, at + n);
      }
    }

    lemma ContentIsCache(block: nat, at: nat, n: nat)
      requires Valid() && block < |device| && block == pblock && poff <= at && at + n <= poff + psize
      ensures Content(true, block)[at..at + n] == pbuffer[at - poff..at - poff + n]
    {
      hide ErasedFrom, Patch, SamePrefix;
      PatchInside(device[block], poff, pbuffer[..psize], at, at + n);
      assert pbuffer[..psize][at - poff..at - poff + n] == pbuffer[at - poff..at - poff + n];
    }

    /** Up to the next cached byte there is at least one unit. */
    lemma OneUnit(at: nat, until: nat)
      requires Geometry() && at % readSize == 0 && at < until && (until % progSize == 0 || until % readSize == 0)
      ensures at + readSize <= until
    {
      if until % readSize != 0 { DividesTrans(until, progSize, readSize); }
      UnitLeft(at, until, readSize);
    }

    lemma CachesAligned(block: nat, at: nat)
      requires Valid() && block < |device|
      ensures readSize > 0 && pbuffer.Length == cacheSize && rbuffer.Length == cacheSize
      ensures block == pblock ==> psize <= cacheSize && poff + psize <= blockSize
      ensures block == rblock ==> rsize <= cacheSize && roff + rsize <= blockSize
      ensures at % readSize == 0 && block == pblock && at < poff ==> at + readSize <= poff
      ensures at % readSize == 0 && block == rblock && at < roff ==> at + readSize <= roff
    {
      hide ErasedFrom;
      if at % readSize == 0 && block == pblock && at < poff { OneUnit(at, poff); }
      if at % readSize == 0 && block == rblock && at < roff { OneUnit(at, roff); }
    }

    method Load(block: nat, off: nat, hint: nat)
      requires Valid() && block < |device| && off < blockSize && hint > 0
      modifies this`rblock, this`roff, this`rsize, rbuffer
      ensures Valid() && Coherent() && Hit(block, off) && Flat() == old(Flat())
    {
      hide Patch, SamePrefix, ErasedFrom, AlignDown, AlignUp;
      UnitLeft(0, cacheSize, readSize);
      var start := AlignDown(off, readSize);
      var n := Min(Min(AlignUp(off + hint, readSize), blockSize) - start, cacheSize);
      assert start <= off < start + n && start + n <= blockSize;
      ghost var p := pbuffer[..];
      forall i | 0 <= i < n { rbuffer[i] := device[block][start + i]; }
      assert pbuffer[..] == p;
      rblock, roff, rsize := block, start, n;
    }

    method FromProgCache(block: nat, at: nat, n: nat) returns (data: seq<Byte>)
      requires Valid() && block < |device| && block == pblock && poff <= at && at + n <= poff + psize
      ensures |data| == n && data == Content(true, block)[at..at + n]
    {
      hide Patch, SamePrefix, ErasedFrom, Flat, ReadCacheOk;
      ContentIsCache(block, at, n);
      data := pbuffer[at - poff..at - poff + n];
    }

    method FromReadCache(usePcache: bool, block: nat, at: nat, n: nat) returns (data: seq<Byte>)
      requires Valid() && block < |device| && Hit(block, at) && at + n <= roff + rsize <= blockSize
      requires usePcache && block == pblock ==> at + n <= poff || poff + psize <= at
      ensures |data| == n && (n > 0 ==> data[0] == rbuffer[at - roff])
      ensures Coherent() ==> data == Content(usePcache, block)[at..at + n]
    {
      hide Patch, SamePrefix, ErasedFrom, Flat, ProgCacheOk;
      ContentIsDevice(usePcache, block, at, n);
      if Coherent() { CachedIsDevice(block, at, n); }
      data := rbuffer[at - roff..at - roff + n];
    }

    method FromDevice(usePcache: bool, block: nat, at: nat, n: nat) returns (data: seq<Byte>)
      requires Valid() && block < |device| && at + n <= blockSize
      requires usePcache && block == pblock ==> at + n <= poff || poff + psize <= at
      ensures |data| == n && data == Content(usePcache, block)[at..at + n]
    {
      hide Patch, SamePrefix, ErasedFrom, Flat, ReadCacheOk, ProgCacheOk;
      ContentIsDevice(usePcache, block, at, n);
      data := device[block][at..at + n];
    }

    /** The next bytes of a read, from whichever place has them: none if they had to be loaded
        into the read cache first. */
    method NextBytes(usePcache: bool, hint: nat, block: nat, at: nat, left: nat) returns (data: seq<Byte>)
      requires Valid() && block < |device| && 0 < left && at + left <= blockSize && hint > 0
      modifies this`rblock, this`roff, this`rsize, rbuffer
      ensures Valid() && Flat() == old(Flat()) && (old(Coherent()) ==> Coherent())
      ensures |data| <= left && (old(Coherent()) ==> data == Content(usePcache, block)[at..at + |data|])
      ensures data == [] ==> Hit(block, at) && !old(Hit(block, at))
      ensures !usePcache && old(Hit(block, at)) ==> data[0] == old(rbuffer[at - roff])
    {
      hide Patch, ErasedFrom, Flat, ReadCacheOk, ProgCacheOk, AlignDown, HasPlace, IsCopy, HoldsChange, Coherent,
        Content;
      CachesAligned(block, at);
      var diff := left;
      if usePcache && block == pblock && at < poff + psize {
        if at >= poff {
          data := FromProgCache(block, at, Min(diff, psize - (at - poff)));
          return;
        }
        // the program cache comes first: stop where it starts
        diff := Min(diff, poff - at);
      }
      if block == rblock && at < roff + rsize {
        if at >= roff {
          data := FromReadCache(usePcache, block, at, Min(diff, rsize - (at - roff)));
          return;
        }
        diff := Min(diff, roff - at);
      }
      if left >= hint && at % readSize == 0 && left >= readSize {
        // whole units need not go through the cache
        data := FromDevice(usePcache, block, at, AlignDown(diff, readSize));
        return;
      }
      Load(block, at, hint);
      data := [];
    }

    lemma CachedIsDevice(block: nat, at: nat, n: nat)
      requires Valid() && Coherent() && block < |device| && block == rblock
      requires roff <= at && at + n <= roff + rsize
      ensures rbuffer[at - roff..at - roff + n] == device[block][at..at + n]
    {
      hide ErasedFrom, Patch, SamePrefix;
      SliceOfSlice(device[block], roff, rsize, at, n);
      assert rbuffer[..rsize][at - roff..at - roff + n] == rbuffer[at - roff..at - roff + n];
    }

    /** Reads through the caches; the program cache, if asked for, comes first. */
    method Read(usePcache: bool, hint: nat, block: nat, off: nat, size: nat)
      returns (ok: bool, data: seq<Byte>)
      requires Valid() && Coherent() && (size > 0 ==> hint > 0)
      modifies this`rblock, this`roff, this`rsize, rbuffer
      ensures Valid() && Coherent()
      ensures ok <==> off + size <= blockSize && block < |device|
      ensures ok ==> data == Content(usePcache, block)[off..off + size]
      ensures Flat() == old(Flat())
    {
      hide Patch, SamePrefix, ErasedFrom, Flat, Geometry, ReadCacheOk, ProgCacheOk, IsCopy;
      data := [];
      if off + size > blockSize || block >= |device| {
        return false, data;
      }
      ghost var want := Content(usePcache, block);
      var at: nat, left: nat := off, size;
      while left > 0
        invariant Valid() && Coherent() && at + left == off + size && off <= at
        invariant Flat() == old(Flat()) && data == want[off..at]
        decreases left, if Hit(block, at) then 0 else 1
      {
        var next := NextBytes(usePcache, hint, block, at, left);
        assert want[off..at] + want[at..at + |next|] == want[off..at + |next|];
        data := data + next;
        at, left := at + |next|, left - |next|;
      }
      return true, data;
    }

    /** Whether a part of a block holds some bytes, read eight at a time. */
    method Cmp(hint: nat, block: nat, off: nat, bytes: seq<Byte>) returns (same: bool)
      requires Valid() && Coherent() && block < |device| && off + |bytes| <= blockSize && |bytes| <= hint
      modifies this`rblock, this`roff, this`rsize, rbuffer
      ensures Valid() && Coherent() && Flat() == old(Flat())
      ensures same <==> device[block][off..off + |bytes|] == bytes
    {
      hide Patch, SamePrefix, ErasedFrom, Geometry, ReadCacheOk, ProgCacheOk, Flat, IsCopy;
      ghost var flat := Flat();
      var i: nat := 0;
      while i < |bytes|
        invariant Valid() && Coherent() && i <= |bytes| && Flat() == flat
        invariant device[block][off..off + i] == bytes[..i]
      {
        var diff := Min(|bytes| - i, 8);
        var ok, dat := Read(false, hint - i, block, off + i, diff);
        SameParts(device[block], off, bytes, i, diff);
        if dat != bytes[i..i + diff] {
          return false;
        }
        i := i + diff;
      }
      return true;
    }

    /** A byte that reads stale: the read cache holds something else than the device does. */
    method ReadStale(at: nat) returns (b: Byte)
      requires Valid() && 0 <= rblock < |device| && roff <= at < roff + rsize
      requires rbuffer[at - roff] != device[rblock][at]
      modifies this`rblock, this`roff, this`rsize, rbuffer
      ensures b == old(rbuffer[at - roff]) && b != old(device[rblock][at])
    {
      hide Patch, SamePrefix, ErasedFrom, Flat, IsCopy;
      CachesAligned(rblock, at);
      var data := NextBytes(false, 1, rblock, at, 1);
      b := data[0];
    }

    /** A read cache that is out of date has such a byte. */
    lemma StaleByte() returns (at: nat)
      requires Valid() && !Coherent()
      ensures 0 <= rblock < |device| && roff <= at < roff + rsize && rsize <= rbuffer.Length
      ensures at < |device[rblock]| && rbuffer[at - roff] != device[rblock][at]
    {
      hide ErasedFrom;
      var part := device[rblock][roff..roff + rsize];
      var i :| 0 <= i < rsize && rbuffer[..rsize][i] != part[i];
      at := roff + i;
    }

    /** Whether the program cache would change, on the device, a byte that the read cache holds. */
    ghost predicate Disturbs()
      requires Valid()
      reads this, rbuffer, pbuffer
    {
      pblock != NULL && rblock == pblock
      && exists i :: 0 <= i < psize && roff <= poff + i < roff + rsize && pbuffer[i] != ERASED
    }

    /** Programs what the program cache holds, in whole units, and if asked to reads it back.
        Without that, the read cache stays, and is out of date exactly if it was in the way. */
    method Flush(validate: bool) returns (ok: bool)
      requires Valid()
      modifies this`device, this`rblock, this`roff, this`rsize, rbuffer, this`pblock, pbuffer
      ensures Valid() && ok && pblock == NULL && Flat() == old(Flat())
      ensures old(Coherent()) ==> (Coherent() <==> validate || !old(Disturbs()))
      ensures validate && old(pblock) != NULL ==> Coherent()
      ensures !validate ==> rblock == old(rblock) && roff == old(roff) && rsize == old(rsize)
      ensures !validate ==> rbuffer[..] == old(rbuffer[..])
      ensures old(pblock) != NULL ==> ErasedFrom(device[old(pblock)], poff + psize)
      ensures |device| == |old(device)|
      ensures forall b :: 0 <= b < |device| && b != old(pblock) ==> device[b] == old(device)[b]
      ensures old(pblock) != NULL ==> device[old(pblock)][..poff] == old(device[pblock])[..poff]
    {
      hide AlignUp, ErasedFrom, Patch, IsCopy, HasPlace, HoldsChange, Flat, Disturbs;
      ok := true;
      if pblock != NULL {
        Placed(pblock);
        var diff := AlignUp(psize, progSize);
        var block, at := pblock, poff;
        UnitsFit(block, diff);
        var bytes := pbuffer[..diff];
        Program(diff);
        if validate { ok := ReadBack(block, at, bytes); }
      } else {
        NoChange();
      }
    }

    lemma NoChange()
      requires Valid() && pblock == NULL
      ensures !Disturbs()
    {
    }

    /** Whether the device holds what was programmed. The read cache is dropped first: what it
        holds may be from before. */
    method ReadBack(block: nat, at: nat, bytes: seq<Byte>) returns (same: bool)
      requires Valid() && block < |device| && at + |bytes| <= blockSize
      modifies this`rblock, this`roff, this`rsize, rbuffer
      ensures Valid() && Coherent() && Flat() == old(Flat())
      ensures same <==> device[block][at..at + |bytes|] == bytes
    {
      hide Patch, SamePrefix, ErasedFrom, HoldsChange;
      rblock := NULL;
      same := Cmp(|bytes|, block, at, bytes);
    }

    lemma Placed(block: int)
      requires Valid() && block == pblock != NULL
      ensures 0 <= block < |device| && psize <= cacheSize && poff + psize <= blockSize
    {
      hide ErasedFrom;
    }

    /** The device's part of a flush: whole units are programmed, and the cache is empty again. */
    method Program(diff: nat)
      requires Valid() && pblock != NULL
      requires psize <= diff <= cacheSize && poff + diff <= blockSize
      modifies this`device, this`pblock, pbuffer
      ensures Valid() && pblock == NULL && |device| == |old(device)|
      ensures device == Flat() == old(Flat())
      ensures old(Coherent()) ==> (Coherent() <==> !old(Disturbs()))
      ensures ErasedFrom(device[old(pblock)], poff + psize)
      ensures device[old(pblock)][poff..poff + diff] == old(pbuffer[..diff])
      ensures device[old(pblock)][..poff] == old(device[pblock])[..poff]
      ensures forall b :: 0 <= b < |device| && b != old(pblock) ==> device[b] == old(device)[b]
    {
      hide Patch, SamePrefix, IsCopy, Disturbs, ErasedFrom, Flat;
      ghost var r, before, p, block, flat := rbuffer[..], device, pbuffer[..], pblock, Flat();
      ghost var wasCoherent, disturbs := Coherent(), Disturbs();
      ghost var after := before[block := Patch(before[block], poff, p[..diff])];
      ProgramFacts(diff, after);
      device := device[pblock := Patch(device[pblock], poff, pbuffer[..diff])];
      assert device == after;
      Clear();
      assert rbuffer[..] == r;
      pblock := NULL;
      EmptyFlat();
    }

    lemma EmptyFlat()
      requires Valid() && pblock == NULL
      ensures Flat() == device
    {
    }

    /** What programming whole units does to the device and to what the read cache is a copy of. */
    lemma ProgramFacts(diff: nat, after: seq<seq<Byte>>)
      requires Valid() && pblock != NULL && psize <= diff <= cacheSize && poff + diff <= blockSize
      requires after == device[pblock := Patch(device[pblock], poff, pbuffer[..][..diff])]
      ensures pbuffer[..][..diff] == pbuffer[..diff] && after == Flat()
      ensures HasPlace(after, rblock, roff, rsize, readSize, rbuffer[..])
      ensures Coherent() ==> (IsCopy(after, rblock, roff, rsize, rbuffer[..]) <==> !Disturbs())
      ensures ErasedFrom(after[pblock], poff + psize)
      ensures after[pblock][poff..poff + diff] == pbuffer[..diff]
      ensures after[pblock][..poff] == device[pblock][..poff]
    {
      hide Patch, SamePrefix, ErasedFrom;
      var p := pbuffer[..];
      assert p[..diff] == pbuffer[..diff] && p[..psize] == pbuffer[..psize];
      Padding(device[pblock], poff, p, psize, diff);
      KeptFront(device[pblock], poff, p[..diff]);
      if Coherent() { CopyAfter(device, rblock, roff, rsize, rbuffer[..], pblock, poff, psize, p, Disturbs()); }
    }

    /** Erases a block; the caches stay as they are. */
    method Erase(block: nat)
      requires Valid() && block < |device|
      modifies this`device
      ensures Valid() && device == old(device)[block := Erased(blockSize)]
      ensures old(Coherent()) ==>
        (Coherent() <==> (rblock == block ==> rbuffer[..rsize] == Erased(rsize)))
    {
      hide Patch, SamePrefix, Erased;
      ErasedBlock(block);
      device := device[block := Erased(blockSize)];
    }

    lemma ErasedBlock(block: nat)
      requires Valid() && block < |device|
      ensures |Erased(blockSize)| == blockSize
      ensures block == rblock ==> rsize <= rbuffer.Length && roff + rsize <= blockSize
      ensures block == rblock ==> Erased(blockSize)[roff..roff + rsize] == Erased(rsize)
      ensures block == rblock ==> rbuffer[..][..rsize] == rbuffer[..rsize]
      ensures block == pblock ==> ErasedFrom(Erased(blockSize), poff)
    {
    }

    method Clear()
      requires rbuffer != pbuffer
      modifies pbuffer
      ensures Blank(pbuffer[..])
    {
      forall i | 0 <= i < pbuffer.Length { pbuffer[i] := ERASED; }
    }

    lemma UnitsFit(block: nat, diff: nat)
      requires Valid() && block == pblock && diff == AlignUp(psize, progSize)
      ensures block < |device| && |device[block]| == blockSize && diff <= cacheSize && poff + diff <= blockSize
    {
      hide ErasedFrom, AlignUp;
      AlignUpAtMost(psize, cacheSize, progSize);
      DividesTrans(blockSize, cacheSize, progSize);
      SumDivides(poff, diff, progSize);
      if poff + diff > blockSize { UnitLeft(blockSize, poff + diff, progSize); }
    }

    /** A full cache ends at a unit. */
    lemma NextUnit(at: nat)
      requires Geometry() && poff % progSize == 0 && at == poff + cacheSize
      ensures AlignDown(at, progSize) == at
    {
      SumDivides(poff, cacheSize, progSize);
    }

    lemma FirstUnit(at: nat)
      requires Geometry()
      ensures AlignDown(at, progSize) <= at < AlignDown(at, progSize) + cacheSize
    {
      UnitLeft(0, cacheSize, progSize);
    }

    /** Chooses the units that the program cache is for, which holds nothing yet. */
    method Prepare(block: nat, at: nat)
      requires Valid() && pblock == NULL && block < |device| && at <= blockSize
      requires ErasedFrom(device[block], AlignDown(at, progSize))
      modifies this`pblock, this`poff, this`psize
      ensures Valid() && pblock == block && psize == 0 && poff <= at < poff + cacheSize && cacheSize > 0
      ensures poff == AlignDown(at, progSize)
      ensures Flat() == old(Flat())
    {
      hide AlignDown, Patch, HasPlace;
      FirstUnit(at);
      pblock, poff, psize := block, AlignDown(at, progSize), 0;
      NothingPatched(device, block, poff);
      assert pbuffer[..0] == [];
    }

    /** Puts bytes into the program cache, which takes them all. */
    method Fill(at: nat, bytes: seq<Byte>)
      requires Valid() && pblock != NULL && poff <= at && at + |bytes| <= blockSize
      requires at + |bytes| <= poff + cacheSize
      modifies this`psize, pbuffer
      ensures Valid() && psize == Max(old(psize), at + |bytes| - poff)
      ensures Flat() == old(Flat())[pblock := Patch(old(Flat())[pblock], at, bytes)]
    {
      hide Patch, SamePrefix, HasPlace;
      ghost var before, r := pbuffer[..], rbuffer[..];
      forall i | 0 <= i < |bytes| { pbuffer[at - poff + i] := bytes[i]; }
      assert pbuffer[..] == Patch(before, at - poff, bytes) by { Overwritten(before, at - poff, bytes, pbuffer[..]); }
      psize := Max(psize, at + |bytes| - poff);
      assert rbuffer[..] == r;
      Filled(device[pblock], poff, before, old(psize), at, bytes, pbuffer[..], psize);
      assert pbuffer[..][..psize] == pbuffer[..psize] && before[..old(psize)] == old(pbuffer[..psize]);
    }

    /** More bytes can go to `at`: they fit the program cache, or it is empty and the block is
        erased from there on. */
    ghost predicate Ready(block: nat, at: nat)
      requires Geometry()
      reads this
    {
      && block < |device|
      && (pblock == NULL ==> ErasedFrom(device[block], AlignDown(at, progSize)))
      && (pblock != NULL ==> pblock == block && poff <= at < poff + cacheSize && psize < cacheSize)
    }

    /** Takes as many bytes as fit, and writes out the cache when it is full. */
    method ProgSome(validate: bool, block: nat, at: nat, left: seq<Byte>) returns (ok: bool, diff: nat)
      requires Valid() && Ready(block, at) && pblock == block && left != [] && at + |left| <= blockSize
      modifies this`device, this`rblock, this`roff, this`rsize, rbuffer, this`pblock, this`psize, pbuffer
      ensures Valid() && ok && 0 < diff <= |left| && |device| == |old(device)|
      ensures Flat() == old(Flat())[block := Patch(old(Flat())[block], at, left[..diff])]
      ensures diff < |left| ==> pblock == NULL
      ensures pblock == NULL ==>
                && at + diff == poff + cacheSize && AlignDown(at + diff, progSize) == at + diff
                && ErasedFrom(device[block], at + diff) && (validate ==> Coherent())
                && device[block][..poff] == old(device)[block][..poff]
      ensures pblock != NULL ==>
                && pblock == block && psize < cacheSize && poff + psize >= at + diff
                && device == old(device)
      ensures pblock != NULL || !validate ==> rblock == old(rblock) && roff == old(roff) && rsize == old(rsize)
      ensures pblock != NULL || !validate ==> rbuffer[..] == old(rbuffer[..])
      ensures forall b :: 0 <= b < |device| && b != block ==> device[b] == old(device)[b]
    {
      hide Patch, SamePrefix, ErasedFrom, AlignDown, Flat, ReadCacheOk, HoldsChange, IsCopy, Disturbs;
      // the rest waits until this cache is written out
      ok, diff := true, Min(|left|, cacheSize - (at - poff));
      CachesAligned(block, at);
      UnitOf(block);
      ghost var r := rbuffer[..];
      Fill(at, left[..diff]);
      assert rbuffer[..] == r;
      if psize == cacheSize {
        // a full cache goes to the device at once
        NextUnit(at + diff);
        ok := Flush(validate);
      }
    }

    lemma UnitOf(block: nat)
      requires Valid() && pblock == block
      ensures progSize > 0 && poff % progSize == 0
    {
    }

    /** Where programming `off` on in a block starts: at the place of the program cache, or at
        the unit that it would be placed at. */
    function Begin(off: nat): nat
      requires Geometry()
      reads this
    {
      if pblock == NULL then AlignDown(off, progSize) else poff
    }

    /** How far programming up to `end` writes to the device: in full caches from `begin` on. */
    function Flushed(begin: nat, end: nat): (r: nat)
      requires Geometry() && begin <= end
      ensures begin <= r <= end
    {
      assert (end - begin) / cacheSize * cacheSize <= end - begin;
      begin + (end - begin) / cacheSize * cacheSize
    }

    lemma FlushedIs(begin: nat, end: nat, k: nat, at: nat)
      requires Geometry() && at == begin + k * cacheSize && at <= end < at + cacheSize
      ensures Flushed(begin, end) == at
    {
      var q := (end - begin) / cacheSize;
      if q < k { assert (q + 1) * cacheSize <= k * cacheSize; }
      if k < q { assert (k + 1) * cacheSize <= q * cacheSize; }
    }

    /** How programming has got to `at`: k full caches have been written to the device. */
    ghost predicate Programmed(before: seq<seq<Byte>>, block: nat, begin: nat, k: nat, at: nat)
      requires Geometry()
      reads this
    {
      ProgrammedAs(device, pblock, poff, before, block, begin, k, at)
    }

    ghost predicate ProgrammedAs(now: seq<seq<Byte>>, pblock: int, poff: nat,
                                 before: seq<seq<Byte>>, block: nat, begin: nat, k: nat, at: nat)
      requires Geometry()
    {
      var done := begin + k * cacheSize;
      && Behind(now, before, block, begin) && done <= at < done + cacheSize && done <= |now[block]|
      && (pblock != NULL ==> pblock == block && poff == done)
      && (pblock == NULL ==> AlignDown(at, progSize) == done && ErasedFrom(now[block], done))
    }

    lemma StartProgramming(block: nat, off: nat)
      requires Valid() && Ready(block, off) && off < blockSize
      ensures Programmed(device, block, Begin(off), 0, off) && ErasedFrom(device[block], Begin(off))
    {
      hide AlignDown, Patch, HasPlace, ErasedFrom;
      FirstUnit(off);
    }

    lemma SomeProgrammed(was: seq<seq<Byte>>, before: seq<seq<Byte>>, block: nat, begin: nat, k: nat, at: nat,
                         diff: nat) returns (k': nat)
      requires Geometry() && ProgrammedAs(was, block, poff, before, block, begin, k, at)
      requires |device| == |was| && |device[block]| == |was[block]| && at + diff <= |was[block]|
      requires forall b :: 0 <= b < |device| && b != block ==> device[b] == was[b]
      requires pblock == NULL ==>
                 && at + diff == poff + cacheSize && AlignDown(at + diff, progSize) == at + diff
                 && ErasedFrom(device[block], at + diff) && poff <= |device[block]|
                 && device[block][..poff] == was[block][..poff]
      requires pblock != NULL ==>
                 pblock == block && psize < cacheSize && poff + psize >= at + diff && device == was
      ensures Programmed(before, block, begin, k', at + diff)
    {
      hide AlignDown, ErasedFrom;
      k' := if pblock == NULL then k + 1 else k;
      assert (k + 1) * cacheSize == k * cacheSize + cacheSize;
      if pblock == NULL {
        assert device[block][..begin] == device[block][..poff][..begin];
        assert was[block][..begin] == was[block][..poff][..begin];
      }
    }

    lemma CopyNow()
      requires Valid()
      ensures HasPlace(device, rblock, roff, rsize, 1, rbuffer[..])
      ensures Coherent() ==> IsCopy(device, rblock, roff, rsize, rbuffer[..])
    {
    }

    lemma Prepared(before: seq<seq<Byte>>, block: nat, begin: nat, k: nat, at: nat)
      requires Geometry() && pblock == NULL && Programmed(before, block, begin, k, at)
      ensures ProgrammedAs(device, block, AlignDown(at, progSize), before, block, begin, k, at)
    {
    }

    /** Behind `begin`, the device holds what was programmed up to where full caches end. */
    lemma OnDevice(before: seq<seq<Byte>>, block: nat, begin: nat, k: nat, at: nat, flat: seq<Byte>)
      requires Valid() && Programmed(before, block, begin, k, at) && at <= blockSize
      requires block < |device| && flat == Flat()[block]
      ensures |flat| == |device[block]| == blockSize && Flushed(begin, at) <= blockSize
      ensures forall i :: begin <= i < blockSize ==>
                device[block][i] == if i < Flushed(begin, at) then flat[i] else ERASED
    {
      FlushedIs(begin, at, k, begin + k * cacheSize);
      hide Flushed, AlignDown;
    }

    /** A read cache that has not moved is up to date exactly if nothing it holds was written. */
    lemma UpToDate(before: seq<seq<Byte>>, block: nat, begin: nat, k: nat, at: nat, flat: seq<Byte>)
      requires Valid() && Programmed(before, block, begin, k, at) && at <= blockSize
      requires block < |before| == |device| && ErasedFrom(before[block], begin) && flat == Flat()[block]
      requires HasPlace(before, rblock, roff, rsize, 1, rbuffer[..]) && IsCopy(before, rblock, roff, rsize, rbuffer[..])
      ensures rblock != block ==> Coherent()
      ensures rblock == block ==> (Coherent() <==> Unwritten(flat, begin, Flushed(begin, at), roff, rsize))
    {
      hide Flushed, AlignDown, Flat, Patch, ErasedFrom, Unwritten, ProgCacheOk;
      if rblock == block {
        OnDevice(before, block, begin, k, at, flat);
        CopyIff(device[block], before[block], flat, begin, Flushed(begin, at), roff, rsize, rbuffer[..]);
      }
    }

    /** One step on: some bytes are taken, or the empty program cache is placed for them. */
    method ProgNext(validate: bool, block: nat, at: nat, left: seq<Byte>,
                    ghost before: seq<seq<Byte>>, ghost begin: nat, ghost k: nat)
      returns (ok: bool, diff: nat, ghost k': nat)
      requires Valid() && Ready(block, at) && left != [] && at + |left| <= blockSize
      requires Programmed(before, block, begin, k, at)
      modifies this`device, this`rblock, this`roff, this`rsize, rbuffer, this`pblock, this`poff, this`psize, pbuffer
      ensures Valid() && ok && diff <= |left| && |device| == |old(device)|
      ensures if old(pblock) == NULL then diff == 0 && pblock != NULL else diff > 0
      ensures Flat() == old(Flat())[block := Patch(old(Flat())[block], at, left[..diff])]
      ensures diff < |left| ==> Ready(block, at + diff)
      ensures Programmed(before, block, begin, k', at + diff)
      ensures pblock != NULL && diff > 0 ==> pblock == block && psize < cacheSize && poff + psize >= at + diff
      ensures validate && old(Coherent()) ==> Coherent()
      ensures !validate ==> rblock == old(rblock) && roff == old(roff) && rsize == old(rsize)
      ensures !validate ==> rbuffer[..] == old(rbuffer[..])
    {
      hide Patch, SamePrefix, ErasedFrom, AlignDown, Flat, ReadCacheOk, ProgCacheOk, IsCopy, ProgrammedAs;
      ghost var was := device;
      if pblock == block {
        ok, diff := ProgSome(validate, block, at, left);
        k' := SomeProgrammed(was, before, block, begin, k, at, diff);
      } else {
        Prepared(before, block, begin, k, at);
        NothingPatched(Flat(), block, at);
        Prepare(block, at);
        ok, diff, k' := true, 0, k;
        assert left[..0] == [];
      }
    }

    /** Programs bytes behind everything that was programmed in the block before. The read cache
        is left alone unless what is written is read back; it is out of date afterwards exactly
        if bytes that it holds were written to the device. */
    method Prog(validate: bool, block: nat, off: nat, data: seq<Byte>) returns (ok: bool)
      requires Valid() && block < |device| && off + |data| <= blockSize
      requires |data| > 0 ==> Ready(block, off)
      modifies this`device, this`rblock, this`roff, this`rsize, rbuffer, this`pblock, this`poff, this`psize, pbuffer
      ensures Valid() && ok
      ensures Flat() == old(Flat())[block := Patch(old(Flat())[block], off, data)]
      ensures |data| > 0 && pblock != NULL ==>
                pblock == block && psize < cacheSize && poff + psize >= off + |data|
      ensures validate && old(Coherent()) ==> Coherent()
      ensures !validate ==> rblock == old(rblock) && roff == old(roff) && rsize == old(rsize)
      ensures !validate && old(Coherent()) && (|data| == 0 || rblock != block) ==> Coherent()
      ensures !validate && old(Coherent()) && |data| > 0 && rblock == block ==>
                (Coherent() <==>
                   Unwritten(Flat()[block], old(Begin(off)), Flushed(old(Begin(off)), off + |data|), roff, rsize))
    {
      hide Patch, SamePrefix, ErasedFrom, AlignDown, Flat, ReadCacheOk, ProgCacheOk, Geometry, IsCopy, Programmed,
        Flushed;
      ghost var flat, before, r := Flat(), device, rbuffer[..];
      ok := true;
      if data == [] {
        NothingPatched(flat, block, off);
        return;
      }
      ghost var begin, k: nat := Begin(off), 0;
      var at: nat, left := off, data;
      NothingPatched(flat, block, off);
      StartProgramming(block, off);
      CopyNow();
      while left != []
        invariant Valid() && ok && |device| == |flat| && off <= at && at + |left| == off + |data|
        invariant left == data[at - off..]
        invariant Flat() == flat[block := Patch(flat[block], off, data[..at - off])]
        invariant left != [] ==> Ready(block, at)
        invariant Programmed(before, block, begin, k, at)
        invariant pblock != NULL && at > off && left == [] ==>
                    pblock == block && psize < cacheSize && poff + psize >= at
        invariant validate && old(Coherent()) ==> Coherent()
        invariant !validate ==> rblock == old(rblock) && roff == old(roff) && rsize == old(rsize)
        invariant !validate ==> rbuffer[..] == r
        decreases |left|, if pblock == NULL then 1 else 0
      {
        var diff;
        ok, diff, k := ProgNext(validate, block, at, left, before, begin, k);
        MorePatched(flat, block, off, data, at - off, diff);
        at, left := at + diff, left[diff..];
      }
      assert data[..at - off] == data;
      if !validate && old(Coherent()) { UpToDate(before, block, begin, k, at, Flat()[block]); }
    }

    method Sync(validate: bool) returns (ok: bool)
      requires Valid()
      modifies this`device, this`rblock, this`roff, this`rsize, rbuffer, this`pblock, pbuffer
      ensures Valid() && Coherent() && ok && pblock == NULL && Flat() == old(Flat()) && device == old(Flat())
    {
      hide ErasedFrom, Patch, SamePrefix;
      ghost var flat := Flat();
      rblock := NULL;
      assert Valid() && Flat() == flat;
      assert Coherent() && !Disturbs();
      ok := Flush(validate);
    }
  }
}
