/** Writing a file copy-on-write: every new byte goes to freshly allocated blocks, and the
    file that the directory names stays readable until the new list is committed. */
module FileWriter {
  import opened Wrappers
  import opened Bits
  import opened CtzIndex
  import opened CtzList
  import opened Octets
  import opened FileBlocks

  ghost predicate Small(blocks: seq<nat>, blockCount: nat) {
    forall b :: b in blocks ==> b < blockCount
  }

  /** `c` with `data` laid over it from position `p`. */
  function Overlay(c: seq<Octet>, p: nat, data: seq<Octet>): seq<Octet>
    requires p <= |c|
  {
    c[..p] + data + if p + |data| < |c| then c[p + |data|..] else []
  }

  /** `c` filled up with zeros to position `p`. */
  function Padded(c: seq<Octet>, p: nat): (r: seq<Octet>)
    ensures |r| >= p
  {
    if p <= |c| then c else c + seq(p - |c|, _ => 0)
  }

  datatype Result = Done | NoSpace | TooBig | Invalid

  // ---- What a file is to its user: a byte array and a position ----

  datatype Op = Write(data: seq<Octet>) | Flush | SeekTo(pos: nat)

  datatype View = View(bytes: seq<Octet>, pos: nat)

  /** Where a write goes: an appending handle never writes before the end. */
  function WritePos(v: View, append: bool): nat {
    if append && v.pos < |v.bytes| then |v.bytes| else v.pos
  }

  /** A write lays its data over the bytes, after zeros if it starts beyond the end. What
      does not fit the largest file is refused as a whole. */
  function Apply(v: View, op: Op, append: bool, fileMax: nat): View {
    match op
    case Write(data) =>
      var p := WritePos(v, append);
      if p + |data| > fileMax then v.(pos := p)
      else View(Overlay(Padded(v.bytes, p), p, data), p + |data|)
    case Flush => v
    case SeekTo(p) => if p > fileMax then v else v.(pos := p)
  }

  function ApplyAll(v: View, ops: seq<Op>, append: bool, fileMax: nat): View {
    if ops == [] then v
    else Apply(ApplyAll(v, ops[..|ops| - 1], append, fileMax), ops[|ops| - 1], append, fileMax)
  }

  lemma OverlayNothing(c: seq<Octet>, p: nat)
    requires p <= |c|
    ensures Overlay(c, p, []) == c
  {
  }

  lemma OverlayMore(c: seq<Octet>, p: nat, data: seq<Octet>, done: nat, n: nat)
    requires p <= |c| && done + n <= |data|
    ensures Overlay(Overlay(c, p, data[..done]), p + done, data[done..][..n])
         == Overlay(c, p, data[..done + n])
  {
    assert data[..done + n] == data[..done] + data[done..][..n];
  }

  // ---- What a power failure may find ----

  /** In `disk'`, these blocks are as they are in `disk`. */
  ghost predicate Spares(disk: Disk, disk': Disk, blocks: seq<nat>, others: set<nat>) {
    && Unchanged(disk, disk', blocks)
    && forall b :: b in others && b in disk ==> b in disk' && disk'[b] == disk[b]
  }

  /** Every state by which a trail grows spares these blocks of `disk`. */
  ghost predicate TrailSpares(trail: seq<Disk>, trail': seq<Disk>, disk: Disk, blocks: seq<nat>,
                              others: set<nat>)
  {
    && trail <= trail'
    && forall i :: |trail| <= i < |trail'| ==> Spares(disk, trail'[i], blocks, others)
  }

  ghost predicate DiffersAt(disk: Disk, disk': Disk, nb: nat) {
    nb in disk' && disk' == disk[nb := disk'[nb]]
  }

  /** Every state by which a trail grows is `disk` but for block `nb`. */
  ghost predicate OnlyAt(trail: seq<Disk>, trail': seq<Disk>, disk: Disk, nb: nat) {
    && trail <= trail'
    && forall i :: |trail| <= i < |trail'| ==> DiffersAt(disk, trail'[i], nb)
  }

  lemma OnlyAtSpares(trail: seq<Disk>, trail': seq<Disk>, disk: Disk, disk': Disk, nb: nat,
                     blocks: seq<nat>, others: set<nat>)
    requires OnlyAt(trail, trail', disk, nb) && DiffersAt(disk, disk', nb)
    requires nb !in blocks && nb !in others
    ensures TrailSpares(trail, trail', disk, blocks, others) && Spares(disk, disk', blocks, others)
  {
    forall i | |trail| <= i < |trail'| ensures Spares(disk, trail'[i], blocks, others) {
      assert DiffersAt(disk, trail'[i], nb);
    }
  }

  lemma SparedFile(disk: Disk, disk': Disk, blockSize: nat, blocks: seq<nat>, others: set<nat>,
                   head: nat, size: nat)
    requires Geometry(blockSize) && size <= WORD && IsFile(disk, blockSize, blocks, head, size)
    requires Spares(disk, disk', blocks, others)
    ensures IsFile(disk', blockSize, blocks, head, size)
    ensures Readable(disk, blockSize, blocks, size) && Readable(disk', blockSize, blocks, size)
    ensures Bytes(disk', blockSize, blocks, size) == Bytes(disk, blockSize, blocks, size)
  {
    hide Index, IsList, Readable, Bytes;
    UnchangedFile(disk, disk', blockSize, blocks, size);
  }

  lemma SparesNothing(trail: seq<Disk>, disk: Disk, blocks: seq<nat>, others: set<nat>)
    ensures TrailSpares(trail, trail, disk, blocks, others) && Spares(disk, disk, blocks, others)
  {
  }

  /** Writes that spare some blocks, one after the other, spare them throughout. */
  lemma SparesOn(t0: seq<Disk>, t1: seq<Disk>, t2: seq<Disk>, d0: Disk, d1: Disk, d2: Disk,
                 blocks: seq<nat>, others: set<nat>)
    requires TrailSpares(t0, t1, d0, blocks, others) && Spares(d0, d1, blocks, others)
    requires TrailSpares(t1, t2, d1, blocks, others) && Spares(d1, d2, blocks, others)
    ensures TrailSpares(t0, t2, d0, blocks, others) && Spares(d0, d2, blocks, others)
  {
  }

  class File {
    const blockSize: nat
    const blockCount: nat
    const fileMax: nat
    const others: set<nat>    // blocks of the rest of the filesystem
    var disk: Disk
    var ctzHead: nat          // the list this handle reads from
    var ctzSize: nat
    var committedHead: nat    // the list the directory names
    var committedSize: nat
    var writing: bool         // a branch that ends in `block` holds the bytes up to `pos`
    var dirty: bool
    var append: bool
    var pos: nat
    var block: nat
    var off: nat
    var erred: bool           // a write failed, and none has succeeded since
    ghost var trail: seq<Disk>   // every state the device has been in, the present one last
    ghost var list: seq<nat>
    ghost var committed: seq<nat>
    ghost var work: seq<nat>

    ghost predicate Recorded()
      reads this
    {
      trail != [] && trail[|trail| - 1] == disk
    }

    ghost predicate Valid()
      reads this
    {
      && Geometry(blockSize) && fileMax + 1 < WORD && blockCount < WORD && Recorded()
      && ctzSize <= fileMax && committedSize <= fileMax
      && IsFile(disk, blockSize, list, ctzHead, ctzSize) && Small(list, blockCount)
      && IsFile(disk, blockSize, committed, committedHead, committedSize)
      && Small(committed, blockCount)
      && (writing ==> Branch())
      && (writing && append ==> pos >= ctzSize)
      && (!dirty ==> list == committed && ctzHead == committedHead && ctzSize == committedSize)
    }

    ghost predicate Branch()
      requires Geometry(blockSize) && fileMax + 1 < WORD
      reads this
    {
      && 0 < pos <= fileMax
      && IsOpen(disk, blockSize, work, block, pos, off)
      && Index(blockSize, pos - 1) == (|work| - 1, off - 1)
      && Small(work, blockCount)
      && block !in list && block !in committed && block !in others
    }

    /** The bytes of the file as this handle sees it: the branch, then what the old list
        has beyond it. */
    ghost function Contents(): (r: seq<Octet>)
      requires Valid()
      reads this
    {
      var old' := Bytes(disk, blockSize, list, ctzSize);
      if writing then
        Bytes(disk, blockSize, work, pos) + if pos < ctzSize then old'[pos..] else []
      else old'
    }

    ghost function Committed(): (r: seq<Octet>)
      requires Valid()
      reads this
    {
      Bytes(disk, blockSize, committed, committedSize)
    }

    /** The committed file can be read from this state of the device, and holds `bytes`. */
    ghost predicate Reads(disk: Disk, bytes: seq<Octet>)
      reads this
    {
      && Geometry(blockSize) && committedSize <= WORD
      && IsFile(disk, blockSize, committed, committedHead, committedSize)
      && Bytes(disk, blockSize, committed, committedSize) == bytes
    }

    ghost predicate Reachable(trail: seq<Disk>, bytes: seq<Octet>)
      reads this
    {
      forall i :: |trail| <= i < |this.trail| ==> Reads(this.trail[i], bytes)
    }

    /** Nothing that is live outside this handle's own branch is erased or programmed, not even
        for a while: in every state that the device goes through, the blocks of the directory's
        list and of the rest of the filesystem are as they were. */
    twostate predicate Protected()
      reads this
    {
      && committed == old(committed) && committedHead == old(committedHead)
      && committedSize == old(committedSize)
      && Spares(old(disk), disk, committed, others)
      && TrailSpares(old(trail), trail, old(disk), committed, others)
    }

    constructor (blockSize: nat, blockCount: nat, fileMax: nat, others: set<nat>, disk: Disk,
                 head: nat, size: nat, append: bool, ghost blocks: seq<nat>)
      requires Geometry(blockSize) && fileMax + 1 < WORD && blockCount < WORD && size <= fileMax
      requires IsFile(disk, blockSize, blocks, head, size) && Small(blocks, blockCount)
      ensures Valid() && !writing && !erred && pos == 0 && this.append == append
      ensures this.disk == disk && trail == [disk]
      ensures this.blockSize == blockSize && this.fileMax == fileMax
      ensures Contents() == Committed() == Bytes(disk, blockSize, blocks, size)
    {
      this.blockSize, this.blockCount, this.fileMax := blockSize, blockCount, fileMax;
      this.others, this.disk, this.append := others, disk, append;
      ctzHead, ctzSize, committedHead, committedSize := head, size, head, size;
      writing, dirty, erred, pos, block, off := false, false, false, 0, 0, 0;
      trail := [disk];
      list, committed, work := blocks, blocks, [];
    }

    /** Every block of the device is in use. */
    ghost predicate Full()
      reads this
    {
      forall b: nat :: b < blockCount ==> !Free(b)
    }

    /** A block that no walk over the filesystem reaches: not the directory's, not the
        handle's own list, not the branch being written. */
    method Alloc() returns (r: Option<nat>)
      requires Valid()
      ensures if r.Some? then Free(r.value) else Full()
    {
      var used := Traverse(disk, blockSize, committedHead, committedSize, committed);
      var mine := Traverse(disk, blockSize, ctzHead, ctzSize, list);
      used := used + mine;
      if writing {
        var branch := Traverse(disk, blockSize, block, pos, work);
        AllReversed(work);
        used := used + branch;
      }
      AllReversed(committed);
      AllReversed(list);
      if exists b :: 0 <= b < blockCount && b !in used && b !in others {
        var b :| 0 <= b < blockCount && b !in used && b !in others;
        return Some(b);
      }
      return None;
    }

    ghost predicate Free(b: nat)
      reads this
    {
      && b < blockCount && b !in list && b !in committed && b !in others
      && (writing ==> b !in work)
    }

    static lemma AllReversed(s: seq<nat>)
      ensures forall b :: b in s <==> b in Reversed(s)
    {
      forall b | b in s ensures b in Reversed(s) {
        var i :| 0 <= i < |s| && s[i] == b;
        assert Reversed(s)[|s| - 1 - i] == b;
      }
      forall b | b in Reversed(s) ensures b in s {
        var i :| 0 <= i < |s| && Reversed(s)[i] == b;
        assert s[|s| - 1 - i] == b;
      }
    }

    /** One block was added or its copy put in place of the last one; the bytes are the same
        and the next one goes to offset `o` of the new block. */
    static ghost predicate ExtendsTo(disk: Disk, disk': Disk, blockSize: nat, from: seq<nat>,
                                     to: seq<nat>, size: nat, nb: nat, o: nat)
    {
      && Geometry(blockSize) && size < WORD && o < blockSize && nb !in from
      && DiffersAt(disk, disk', nb)
      && (forall b :: b in to ==> b == nb || b in from)
      && IsOpen(disk', blockSize, to, nb, size, o)
      && Readable(disk, blockSize, from, size)
      && Bytes(disk', blockSize, to, size) == Bytes(disk, blockSize, from, size)
    }

    /** lfs_bd_erase. */
    method Erase(b: nat)
      modifies this`disk, this`trail
      ensures disk == old(disk)[b := []] && trail == old(trail) + [disk]
    {
      disk := disk[b := []];
      trail := trail + [disk];
    }

    /** lfs_bd_prog: flash takes bytes only behind those that a block already holds. */
    method Program(b: nat, data: seq<Octet>)
      requires b in disk
      modifies this`disk, this`trail
      ensures disk == old(disk)[b := old(disk)[b] + data] && trail == old(trail) + [disk]
    {
      disk := disk[b := disk[b] + data];
      trail := trail + [disk];
    }

    /** Gets a fresh block ready to hold byte `size` of a list: a copy of the last block if
        that has room left, or else a new block with its pointers (lfs_ctz_extend). */
    method Extend(head: nat, size: nat, ghost from: seq<nat>)
      returns (nb: Option<nat>, o: nat, ghost to: seq<nat>)
      requires Valid() && size <= fileMax
      requires IsFile(disk, blockSize, from, head, size) && Small(from, blockCount)
      requires from <= list || (writing && from == work)
      modifies this`disk, this`trail
      ensures Recorded()
      ensures nb == None ==> disk == old(disk) && trail == old(trail) && Full()
      ensures nb.Some? ==> old(Free(nb.value))
      ensures nb.Some? ==> OnlyAt(old(trail), trail, old(disk), nb.value)
      ensures nb.Some? ==> ExtendsTo(old(disk), disk, blockSize, from, to, size, nb.value, o)
    {
      hide Index, IsList, Readable, PointersOk, Start, Holds, Pow2, Pointers, IsOpen, Bytes, LE32;
      nb := Alloc();
      o, to := 0, [];
      if nb == None { return; }
      var b := nb.value;
      assert forall x :: x in from ==> x in list || (writing && x in work);
      Erase(b);
      if size == 0 {
        FirstOpen(old(disk), disk, blockSize, b);
        to := [b];
        return;
      }
      var (index, noff) := Index(blockSize, size - 1);
      noff := noff + 1;
      if noff != blockSize {
        to := from[..|from| - 1] + [b];
        IndexIsTheBlock(blockSize, size - 1);
        UsedFits(old(disk), blockSize, from, head, size);
        CopyOpen(old(disk), old(disk)[b := old(disk)[head][..noff]], blockSize, from, head, b,
                 size, noff);
        CopyBlock(head, noff, b);
        assert disk == old(disk)[b := old(disk)[head][..noff]];
        o := noff;
        return;
      }
      ghost var erased := disk;
      assert Unchanged(old(disk), erased, from);
      UnchangedFile(old(disk), erased, blockSize, from, size);
      var header := ProgramPointers(head, index + 1, b, from);
      to := from + [b];
      o := |header|;
      AppendOpen(old(disk), disk, blockSize, from, head, b, size, header);
    }

    method CopyBlock(head: nat, noff: nat, nb: nat)
      requires head in disk && noff <= |disk[head]| && nb != head && nb in disk && disk[nb] == []
      requires Recorded()
      modifies this`disk, this`trail
      ensures Recorded() && OnlyAt(old(trail), trail, old(disk), nb)
      ensures disk == old(disk)[nb := old(disk)[head][..noff]]
    {
      for i := 0 to noff
        invariant disk == old(disk)[nb := old(disk)[head][..i]]
        invariant Recorded() && OnlyAt(old(trail), trail, old(disk), nb)
      {
        assert old(disk)[head][..i + 1] == old(disk)[head][..i] + [old(disk)[head][i]];
        Program(nb, [disk[head][i]]);
      }
    }

    /** Writes the pointers of block `index`: the first names the last block of the list,
        each further one is looked up in the block the one before it names. */
    method ProgramPointers(head: nat, index: nat, nb: nat, ghost from: seq<nat>)
      returns (header: seq<Octet>)
      requires index == |from| > 0 && head == from[|from| - 1] && nb !in from
      requires nb in disk && disk[nb] == [] && IsList(disk, from)
      requires Recorded() && forall b :: b in from ==> b < WORD
      modifies this`disk, this`trail
      ensures Recorded() && OnlyAt(old(trail), trail, old(disk), nb)
      ensures IsHeader(header, from) && disk == old(disk)[nb := header]
    {
      hide IsList, PointersOk, LE32, Pow2, TrailingZeros;
      var skips := TrailingZeros(index) + 1;
      var nhead := head;
      header := [];
      assert Pow2(0) == 1 by { FirstPower(); }
      for i := 0 to skips
        invariant |header| == 4 * i && disk == old(disk)[nb := header]
        invariant Recorded() && OnlyAt(old(trail), trail, old(disk), nb)
        invariant forall k :: 0 <= k < i ==>
          Pow2(k) <= index && LE32(header, 4 * k) == from[index - Pow2(k)]
        invariant i < skips ==> Pow2(i) <= index && nhead == from[index - Pow2(i)] && nhead in from
      {
        HeaderGrows(header, ToLE32(nhead));
        header := header + ToLE32(nhead);
        Program(nb, ToLE32(nhead));
        if i != skips - 1 {
          NextPointer(old(disk), from, index, i);
          nhead := LE32(disk[nhead], 4 * i);
        }
      }
    }

    static lemma FirstPower()
      ensures Pow2(0) == 1
    {
    }

    static lemma HeaderGrows(header: seq<Octet>, more: seq<Octet>)
      requires |header| % 4 == 0 && |more| == 4
      ensures forall k :: 0 <= k && 4 * k + 4 <= |header| ==>
                LE32(header + more, 4 * k) == LE32(header, 4 * k)
      ensures LE32(header + more, |header|) == LE32(more, 0)
    {
    }

    /** Pointer i of the block 2^i before names the block 2^(i+1) before. */
    static lemma NextPointer(disk: Disk, from: seq<nat>, index: nat, i: nat)
      requires IsList(disk, from) && index == |from| > 0 && i < TrailingZeros(index)
      ensures Pow2(i + 1) <= index
      ensures
        var b := from[index - Pow2(i)];
        && b in from && b in disk && |disk[b]| >= 4 * i + 4
        && LE32(disk[b], 4 * i) == from[index - Pow2(i + 1)]
    {
      ClearBelow(index, i);
      TrailingZerosDivides(index);
      Pow2Monotone(i + 1, TrailingZeros(index));
      assert PointersOk(disk, from, index - Pow2(i));
    }

    /** The list the next block continues: the branch, or the blocks of the old list up to
        the current position. */
    method Continued() returns (head: nat, ghost from: seq<nat>)
      requires Valid() && pos <= fileMax && (!writing ==> pos <= ctzSize)
      ensures IsFile(disk, blockSize, from, head, pos) && Small(from, blockCount)
      ensures from <= list || (writing && from == work)
      ensures Bytes(disk, blockSize, from, pos) == Contents()[..pos]
    {
      hide Index, IsList, Readable, Bytes;
      head := block;
      if writing {
        from := work;
        OpenIsFile(disk, blockSize, work, block, pos, off);
      } else if pos > 0 {
        ghost var path;
        var o;
        head, o, path := Find(disk, blockSize, ctzHead, ctzSize, pos - 1, list);
        PrefixFile(disk, blockSize, list, ctzHead, ctzSize, pos);
        from := list[..Index(blockSize, pos - 1).0 + 1];
        assert head == from[|from| - 1] && forall b :: b in from ==> b in list;
      } else {
        from := [];
        NoBytes(disk, blockSize, block);
      }
    }

    static lemma NoBytes(disk: Disk, blockSize: nat, head: nat)
      requires Geometry(blockSize)
      ensures IsFile(disk, blockSize, [], head, 0) && Bytes(disk, blockSize, [], 0) == []
    {
    }

    static lemma OpenFits(disk: Disk, blockSize: nat, blocks: seq<nat>, head: nat, size: nat, off: nat)
      requires Geometry(blockSize) && size < WORD && IsOpen(disk, blockSize, blocks, head, size, off)
      ensures off <= blockSize && Readable(disk, blockSize, blocks, size)
    {
      hide Index, IsList, Readable;
    }

    /** The branch is about to take byte `pos`: a block with room is at hand, and the branch
        holds the bytes before. */
    ghost predicate Ready(before: seq<Octet>)
      reads this
    {
      && Geometry(blockSize) && fileMax + 1 < WORD && blockCount < WORD && Recorded()
      && ctzSize <= fileMax && committedSize <= fileMax && pos <= fileMax
      && IsFile(disk, blockSize, list, ctzHead, ctzSize) && Small(list, blockCount)
      && IsFile(disk, blockSize, committed, committedHead, committedSize)
      && Small(committed, blockCount)
      && IsOpen(disk, blockSize, work, block, pos, off) && off < blockSize
      && Small(work, blockCount)
      && block !in list && block !in committed && block !in others
      && (!dirty ==> list == committed && ctzHead == committedHead && ctzSize == committedSize)
      && pos <= |before| && Bytes(disk, blockSize, work, pos) == before[..pos]
      && before[pos..] == if pos < ctzSize then Bytes(disk, blockSize, list, ctzSize)[pos..] else []
    }

    method PrepareBlock() returns (ok: bool)
      requires Valid() && pos < fileMax && (!writing ==> pos <= ctzSize)
      modifies this`disk, this`trail, this`off, this`block, this`work
      ensures Protected()
      ensures if ok then Ready(old(Contents())) else Valid() && Full() && Contents() == old(Contents())
    {
      hide Index, IsList, Readable, Bytes, PointersOk, IsFile, IsOpen, Spares, TrailSpares, OnlyAt, DiffersAt;
      SparesNothing(trail, disk, committed, others);
      if writing && off != blockSize {
        OpenFits(disk, blockSize, work, block, pos, off);
      } else {
        var head; ghost var from;
        head, from := Continued();
        var nb, o; ghost var to;
        nb, o, to := Extend(head, pos, from);
        if nb == None { return false; }
        OnlyAtSpares(old(trail), trail, old(disk), disk, nb.value, committed, others);
        OnlyAtSpares(old(trail), trail, old(disk), disk, nb.value, list, others);
        SparedFile(old(disk), disk, blockSize, list, others, ctzHead, ctzSize);
        SparedFile(old(disk), disk, blockSize, committed, others, committedHead, committedSize);
        block, off, work := nb.value, o, to;
      }
      return true;
    }

    /** Programs as much of the data as fits into the block at hand. */
    method ProgramChunk(data: seq<Octet>, ghost before: seq<Octet>) returns (n: nat)
      requires Ready(before) && data != [] && pos + |data| <= fileMax
      requires append ==> pos >= ctzSize
      modifies this`disk, this`trail, this`pos, this`off, this`writing
      ensures 0 < n <= |data| && pos == old(pos) + n && writing
      ensures Valid() && Protected()
      ensures Contents() == Overlay(before, old(pos), data[..n])
    {
      hide Index, IsList, Readable, Bytes, PointersOk, IsOpen, IsFile, Spares, TrailSpares, DiffersAt, OnlyAt, Overlay,
        Geometry, Small, Unchanged;
      n := ChunkSize(data);
      ghost var disk0 := disk;
      Program(block, data[..n]);
      ProgramOnly(old(trail), trail, disk0, disk, block, data[..n]);
      OnlyAtSpares(old(trail), trail, disk0, disk, block, committed, others);
      OnlyAtSpares(old(trail), trail, disk0, disk, block, list, others);
      ProgramOpen(disk0, disk, blockSize, work, block, pos, off, data[..n]);
      ProgramBytes(disk0, disk, blockSize, work, block, pos, off, data[..n]);
      SparedFile(disk0, disk, blockSize, list, others, ctzHead, ctzSize);
      SparedFile(disk0, disk, blockSize, committed, others, committedHead, committedSize);
      ChunkOver(before, pos, data[..n], Bytes(disk0, blockSize, list, ctzSize));
      pos, off, writing := pos + n, off + n, true;
    }

    static lemma ProgramOnly(trail: seq<Disk>, trail': seq<Disk>, disk: Disk, disk': Disk, nb: nat, data: seq<Octet>)
      requires nb in disk && disk' == disk[nb := disk[nb] + data] && trail' == trail + [disk']
      ensures OnlyAt(trail, trail', disk, nb) && DiffersAt(disk, disk', nb)
    {
    }

    /** Data laid over the bytes before and the rest of the old list. */
    static lemma ChunkOver(before: seq<Octet>, p: nat, data: seq<Octet>, old': seq<Octet>)
      requires p <= |before| && before[p..] == if p < |old'| then old'[p..] else []
      ensures Overlay(before, p, data)
           == before[..p] + data + if p + |data| < |old'| then old'[p + |data|..] else []
    {
      if p + |data| < |old'| {
        assert before[p + |data|..] == before[p..][|data|..] == old'[p..][|data|..] == old'[p + |data|..];
      }
    }

    method ChunkSize(data: seq<Octet>) returns (n: nat)
      requires Geometry(blockSize) && pos < WORD && data != []
      requires IsOpen(disk, blockSize, work, block, pos, off) && off < blockSize
      ensures 0 < n <= |data| && off + n <= blockSize && block in disk
    {
      n := if |data| < blockSize - off then |data| else blockSize - off;
    }

    /** Sets or clears the mark of a failed write. */
    method Mark(failed: bool)
      requires Valid()
      modifies this`erred
      ensures erred == failed && Valid() && Contents() == old(Contents())
      ensures old(Full()) ==> Full()
    {
      hide Index, IsList, Readable, Bytes, IsOpen, IsFile;
      erred := failed;
      forall b: nat | b < blockCount ensures old(Free(b)) == Free(b) { }
    }

    /** Writes at the current position; a full filesystem stops it early, with a prefix of
        the data written (lfs_file_flushedwrite). */
    method FlushedWrite(data: seq<Octet>) returns (ok: bool)
      requires Valid() && pos + |data| <= fileMax && (!writing ==> pos <= ctzSize)
      requires append ==> pos >= ctzSize
      modifies this`disk, this`trail, this`pos, this`off, this`block, this`writing, this`work, this`erred
      ensures Valid() && Protected()
      ensures old(pos) <= pos <= old(pos) + |data| && (ok <==> pos == old(pos) + |data|)
      ensures if ok then erred == old(erred) else erred && Full()
      ensures Contents() == Overlay(old(Contents()), old(pos), data[..pos - old(pos)])
      ensures pos > old(pos) ==> writing
      ensures pos == old(pos) ==> writing == old(writing)
    {
      hide Index, IsList, Readable, Bytes, IsOpen, IsFile, Contents, Valid, Ready, Overlay, Spares,
        TrailSpares;
      var done := 0;
      SparesNothing(trail, disk, committed, others);
      ghost var before := Contents();
      PosInContents();
      OverlayNothing(before, pos);
      while done < |data|
        invariant done <= |data| && pos == old(pos) + done
        invariant Valid() && Protected()
        invariant erred == old(erred)
        invariant done == 0 ==> writing == old(writing) && disk == old(disk)
        invariant done > 0 ==> writing
        invariant Contents() == Overlay(before, old(pos), data[..done])
      {
        ghost var c, t, d := Contents(), trail, disk;
        PosInContents();
        var ready := PrepareBlock();
        SparesOn(old(trail), t, trail, old(disk), d, disk, committed, others);
        if !ready {
          Mark(true);
          return false;
        }
        t, d := trail, disk;
        var n := ProgramChunk(data[done..], c);
        SparesOn(old(trail), t, trail, old(disk), d, disk, committed, others);
        OverlayMore(before, old(pos), data, done, n);
        done := done + n;
      }
      assert data[..|data|] == data;
      return true;
    }

    lemma PosInContents()
      requires Valid() && (!writing ==> pos <= ctzSize)
      ensures pos <= |Contents()|
    {
      hide Index;
    }

    /** Copies what the old list has beyond the branch into the branch, byte by byte. */
    method CopyTail() returns (ok: bool)
      requires Valid() && writing
      modifies this`disk, this`trail, this`pos, this`off, this`block, this`writing, this`work, this`erred
      ensures Valid() && Protected() && writing && pos >= old(pos)
      ensures Contents() == old(Contents())
      ensures if ok then pos >= ctzSize && erred == old(erred) else erred && Full()
    {
      hide Index, IsList, Readable, Bytes, IsOpen, IsFile, Contents, Branch, Overlay, Spares,
        TrailSpares;
      SparesNothing(trail, disk, committed, others);
      while pos < ctzSize
        invariant Valid() && Protected() && writing && pos >= old(pos) && erred == old(erred)
        invariant Contents() == old(Contents())
      {
        var b := ReadOriginal();
        OverlaySame(Contents(), pos, b);
        ghost var t, d := trail, disk;
        ok := FlushedWrite([b]);
        SparesOn(old(trail), t, trail, old(disk), d, disk, committed, others);
        if !ok { return; }
      }
      return true;
    }

    /** Completes the branch with what the old list has beyond it and makes it the list of
        this handle; the position is not moved by that (lfs_file_flush). */
    method Flush() returns (ok: bool)
      requires Valid()
      modifies this`disk, this`trail, this`pos, this`off, this`block, this`writing, this`work, this`erred
      modifies this`ctzHead, this`ctzSize, this`list, this`dirty
      ensures Valid() && Protected() && Contents() == old(Contents())
      ensures ok ==> !writing && pos == old(pos) && ctzSize == |Contents()|
      ensures ok && old(writing) ==> dirty
      ensures !old(writing) ==> ok && dirty == old(dirty)
      ensures if ok then erred == old(erred) else erred && Full()
    {
      hide Index, IsList, Readable, Bytes, PointersOk, IsOpen, IsFile, Overlay, Spares, TrailSpares,
        Contents;
      SparesNothing(trail, disk, committed, others);
      Sizes();
      if !writing { return true; }
      var start := pos;
      ok := CopyTail();
      if ok {
        Adopt(start);
      }
    }

    /** The complete branch becomes the list of this handle. */
    method Adopt(start: nat)
      requires Valid() && writing && pos >= ctzSize
      modifies this`pos, this`writing, this`ctzHead, this`ctzSize, this`list, this`dirty
      ensures Valid() && Contents() == old(Contents()) && ctzSize == |Contents()|
      ensures !writing && pos == start && dirty
    {
      hide Index, IsList, Readable, Bytes, PointersOk, IsOpen, IsFile;
      OpenIsFile(disk, blockSize, work, block, pos, off);
      WholeFile(disk, blockSize, work, block, pos, off);
      ctzHead, ctzSize, list := block, pos, work;
      writing, dirty, pos := false, true, start;
    }

    static lemma WholeFile(disk: Disk, blockSize: nat, work: seq<nat>, block: nat, size: nat, off: nat)
      requires Geometry(blockSize) && size < WORD && IsOpen(disk, blockSize, work, block, size, off)
      ensures |Bytes(disk, blockSize, work, size)| == size
    {
    }

    /** The byte of the old list at the current position, beyond the branch. */
    method ReadOriginal() returns (b: Octet)
      requires Valid() && writing && pos < ctzSize
      ensures pos < |Contents()| && b == Contents()[pos]
    {
      hide Index, IsList, PointersOk, IsOpen;
      var blk, o; ghost var path;
      blk, o, path := Find(disk, blockSize, ctzHead, ctzSize, pos, list);
      assert Present(disk, blockSize, list, pos);
      b := disk[blk][o];
    }

    static lemma OverlaySame(c: seq<Octet>, p: nat, b: Octet)
      requires p < |c| && c[p] == b
      ensures Overlay(c, p, [b]) == c && Overlay(c, p, [b][..1]) == c && Overlay(c, p, [b][..0]) == c
    {
    }

    ghost function Seen(): View
      requires Valid()
      reads this
    {
      View(Contents(), pos)
    }

    lemma Sizes()
      requires Valid()
      ensures |Contents()| == if writing && pos > ctzSize then pos else ctzSize
    {
      hide Index;
    }

    /** A handle that writes at or beyond its end never leaves the old list uncovered. */
    method FillZeros(target: nat) returns (ok: bool)
      requires Valid() && !writing && pos == ctzSize <= target <= fileMax
      modifies this`disk, this`trail, this`pos, this`off, this`block, this`writing, this`work, this`erred
      ensures Valid() && Protected()
      ensures if ok then pos == target && Contents() == Padded(old(Contents()), target)
              else erred && Full()
      ensures ok ==> (!writing ==> pos <= ctzSize)
    {
      hide Index, IsList, Readable, Bytes, IsOpen, IsFile, Contents, Branch, Overlay, Spares,
        TrailSpares;
      SparesNothing(trail, disk, committed, others);
      ghost var before := Contents();
      Sizes();
      assert before + seq(0, _ => 0) == before;
      while pos < target
        invariant Valid() && Protected() && ctzSize <= pos <= target
        invariant !writing ==> pos <= ctzSize
        invariant Contents() == before + seq(pos - ctzSize, _ => 0)
      {
        ghost var p, t, d := pos, trail, disk;
        PosInContents();
        ok := FlushedWrite([0]);
        SparesOn(old(trail), t, trail, old(disk), d, disk, committed, others);
        if !ok { return; }
        OverlayAtEnd(before + seq(p - ctzSize, _ => 0), p);
        assert before + seq(p - ctzSize, _ => 0) + [0] == before + seq(p + 1 - ctzSize, _ => 0);
      }
      return true;
    }

    static lemma OverlayAtEnd(c: seq<Octet>, p: nat)
      requires p == |c|
      ensures Overlay(c, p, [0][..1]) == c + [0]
    {
    }

    /** An appending handle moves to the end before it writes. */
    method ToWritePos()
      requires Valid()
      modifies this`pos
      ensures Valid() && Seen() == old(Seen()).(pos := WritePos(old(Seen()), append))
      ensures append ==> pos >= ctzSize
      ensures !writing ==> Contents() == old(Contents())
    {
      hide Index, IsList, Readable, Bytes, IsOpen, IsFile;
      Sizes();
      if append && pos < ctzSize {
        pos := ctzSize;
      }
    }

    /** A gap between the end and the position is filled before the data is written. */
    method FillGap() returns (ok: bool)
      requires Valid() && pos <= fileMax && (append ==> pos >= ctzSize)
      modifies this`disk, this`trail, this`pos, this`off, this`block, this`writing, this`work, this`erred
      ensures Valid() && Protected()
      ensures if ok then pos == old(pos) && Contents() == Padded(old(Contents()), pos)
              else erred && Full()
      ensures ok ==> (!writing ==> pos <= ctzSize)
    {
      hide Index, IsList, Readable, Bytes, IsOpen, IsFile, Branch, Spares, TrailSpares;
      SparesNothing(trail, disk, committed, others);
      Sizes();
      ok := true;
      if !writing && pos > ctzSize {
        var target := pos;
        pos := ctzSize;
        ok := FillZeros(target);
      }
    }

    /** lfs_file_rawwrite. */
    method RawWrite(data: seq<Octet>) returns (r: Result)
      requires Valid()
      modifies this`disk, this`trail, this`pos, this`off, this`block, this`writing, this`work, this`erred
      ensures Valid() && Protected()
      ensures r == TooBig <==> WritePos(old(Seen()), append) + |data| > fileMax
      ensures erred <==> r == NoSpace || (r == TooBig && old(erred))
      ensures if r == NoSpace then Full() else Seen() == Apply(old(Seen()), Write(data), append, fileMax)
      ensures r != Invalid
    {
      hide Index, IsList, Readable, Bytes, IsOpen, IsFile, Branch, Overlay, Spares, TrailSpares, Contents,
        Valid;
      SparesNothing(trail, disk, committed, others);
      assert data[..|data|] == data;
      ToWritePos();
      if pos + |data| > fileMax { return TooBig; }
      var ok := FillGap();
      if !ok { return NoSpace; }
      ghost var t, d := trail, disk;
      ok := FlushedWrite(data);
      SparesOn(old(trail), t, trail, old(disk), d, disk, committed, others);
      if !ok { return NoSpace; }
      Mark(false);
      return Done;
    }

    /** lfs_file_rawseek to an absolute position; a branch is completed first. */
    method RawSeek(npos: nat) returns (r: Result)
      requires Valid()
      modifies this`disk, this`trail, this`pos, this`off, this`block, this`writing, this`work, this`erred
      modifies this`ctzHead, this`ctzSize, this`list, this`dirty
      ensures Valid() && Protected()
      ensures r == Invalid <==> npos > fileMax
      ensures erred <==> r == NoSpace || old(erred)
      ensures if r == NoSpace then Full() else Seen() == Apply(old(Seen()), SeekTo(npos), append, fileMax)
      ensures r != TooBig
    {
      hide Index, IsList, Readable, Bytes, IsOpen, IsFile, Spares, TrailSpares;
      SparesNothing(trail, disk, committed, others);
      if npos > fileMax { return Invalid; }
      if npos == pos { return Done; }
      var ok := this.Flush();
      if !ok { return NoSpace; }
      pos := npos;
      return Done;
    }

    method Perform(op: Op) returns (ok: bool)
      requires Valid()
      modifies this`disk, this`trail, this`pos, this`off, this`block, this`writing, this`work, this`erred
      modifies this`ctzHead, this`ctzSize, this`list, this`dirty
      ensures Valid() && Protected()
      ensures if ok then Seen() == Apply(old(Seen()), op, append, fileMax) else erred && Full()
    {
      hide Index, IsList, Readable, Bytes, IsOpen, IsFile, Contents, Spares, TrailSpares;
      match op {
        case Write(data) =>
          var r := RawWrite(data);
          return r != NoSpace;
        case Flush =>
          ok := this.Flush();
        case SeekTo(p) =>
          var r := RawSeek(p);
          return r != NoSpace;
      }
    }

    /** Any run of writes, flushes and seeks leaves the handle seeing what a byte array
        would hold, unless the device fills up, and never touches a block that the directory's
        list uses. */
    method Run(ops: seq<Op>) returns (ok: bool)
      requires Valid()
      modifies this`disk, this`trail, this`pos, this`off, this`block, this`writing, this`work, this`erred
      modifies this`ctzHead, this`ctzSize, this`list, this`dirty
      ensures Valid() && Protected() && Committed() == old(Committed())
      ensures Reachable(old(trail), old(Committed()))
      ensures if ok then Seen() == ApplyAll(old(Seen()), ops, append, fileMax) else erred && Full()
    {
      hide Index, IsList, Readable, Bytes, IsOpen, IsFile, Contents, Branch, Overlay, Seen, Spares,
        TrailSpares, Valid, Apply, Reachable;
      assert ops[..0] == [];
      SparesNothing(trail, disk, committed, others);
      for i := 0 to |ops|
        invariant Valid() && Protected()
        invariant Seen() == ApplyAll(old(Seen()), ops[..i], append, fileMax)
      {
        assert ops[..i + 1][..i] == ops[..i];
        ghost var t, d := trail, disk;
        ok := Perform(ops[i]);
        SparesOn(old(trail), t, trail, old(disk), d, disk, committed, others);
        if !ok {
          CommittedKept();
          return;
        }
      }
      assert ops[..|ops|] == ops;
      CommittedKept();
      return true;
    }

    /** A reader of the directory finds the old file in every state of the device. */
    twostate lemma CommittedKept()
      requires old(Valid()) && Valid() && Protected()
      ensures Committed() == old(Committed()) && Reachable(old(trail), old(Committed()))
    {
      hide Index, Readable, IsList, Bytes, IsFile;
      SparedFile(old(disk), disk, blockSize, committed, others, committedHead, committedSize);
      forall i | |old(trail)| <= i < |trail| ensures Reads(trail[i], old(Committed())) {
        SparedFile(old(disk), trail[i], blockSize, committed, others, committedHead, committedSize);
      }
    }

    /** Completes the branch and makes the directory name the new list: only then does what
        a reader of the directory finds change, and all at once. After a failed write the code
        reports success and leaves the directory alone (lfs_file_rawsync). */
    method RawSync() returns (ok: bool)
      requires Valid()
      modifies this
      ensures Valid() && Seen().bytes == old(Contents())
      ensures TrailSpares(old(trail), trail, old(disk), old(committed), others)
      ensures old(erred) ==> ok && erred && Seen() == old(Seen()) && Committed() == old(Committed())
      ensures old(erred) ==> disk == old(disk) && trail == old(trail)
      ensures !old(erred) && ok ==> Committed() == Contents() && pos == old(pos) && !erred
      ensures !old(erred) && !ok ==> Committed() == old(Committed()) && Full() && erred
      ensures ok ==> (Committed() == Contents() <==> !old(erred) || old(Committed() == Contents()))
    {
      hide Index, IsList, Readable, IsOpen, Reachable, Spares, TrailSpares;
      SparesNothing(trail, disk, committed, others);
      if erred { return true; }
      ok := this.Flush();
      CommittedKept();
      if !ok {
        erred := true;
        return;
      }
      if dirty {
        committed, committedHead, committedSize, dirty := list, ctzHead, ctzSize, false;
      }
    }
  }
}
