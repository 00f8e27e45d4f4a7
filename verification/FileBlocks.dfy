/** The bytes of a file that is spread over a skip list of blocks, and what happens to them
    when the list is extended or its last block is programmed further. */
module FileBlocks {
  import opened Bits
  import opened CtzIndex
  import opened CtzList
  import opened Octets

  predicate Geometry(blockSize: nat) { 128 <= blockSize < WORD }

  /** Every position below `size` has its byte on the disk. */
  ghost predicate Readable(disk: Disk, blockSize: nat, blocks: seq<nat>, size: nat)
    requires Geometry(blockSize) && size <= WORD
  {
    forall p :: 0 <= p < size ==> Present(disk, blockSize, blocks, p)
  }

  ghost predicate Present(disk: Disk, blockSize: nat, blocks: seq<nat>, p: nat)
    requires Geometry(blockSize) && p < WORD
  {
    var (i, off) := Index(blockSize, p);
    i < |blocks| && blocks[i] in disk && off < |disk[blocks[i]]|
  }

  function ByteAt(disk: Disk, blockSize: nat, blocks: seq<nat>, p: nat): Octet
    requires Geometry(blockSize) && p < WORD && Present(disk, blockSize, blocks, p)
  {
    var (i, off) := Index(blockSize, p);
    disk[blocks[i]][off]
  }

  ghost function Bytes(disk: Disk, blockSize: nat, blocks: seq<nat>, size: nat): (r: seq<Octet>)
    requires Geometry(blockSize) && size <= WORD && Readable(disk, blockSize, blocks, size)
    ensures |r| == size
    ensures forall p :: 0 <= p < size ==> r[p] == ByteAt(disk, blockSize, blocks, p)
  {
    seq(size, p requires 0 <= p < size =>
      assert Present(disk, blockSize, blocks, p); ByteAt(disk, blockSize, blocks, p))
  }

  /** A complete list for a file of `size` bytes. */
  ghost predicate IsFile(disk: Disk, blockSize: nat, blocks: seq<nat>, head: nat, size: nat)
    requires Geometry(blockSize) && size <= WORD
  {
    && IsList(disk, blocks)
    && Readable(disk, blockSize, blocks, size)
    && if size == 0 then blocks == []
       else |blocks| == LastIndex(blockSize, size) + 1 && head == blocks[|blocks| - 1]
  }

  /** A list that ends in block `head`, programmed up to `off`, where byte `size` goes. */
  ghost predicate IsOpen(disk: Disk, blockSize: nat, blocks: seq<nat>, head: nat, size: nat,
                         off: nat)
    requires Geometry(blockSize) && size < WORD
  {
    && blocks != [] && head == blocks[|blocks| - 1] && head !in blocks[..|blocks| - 1]
    && head in disk
    && IsList(disk, blocks)
    && Readable(disk, blockSize, blocks, size)
    && |disk[head]| == off <= blockSize
    && if off < blockSize then Index(blockSize, size) == (|blocks| - 1, off)
       else size > 0 && Index(blockSize, size - 1) == (|blocks| - 1, blockSize - 1)
  }

  // ---- Neighbouring positions ----

  lemma SameBlock(blockSize: nat, p: nat, q: nat)
    requires Geometry(blockSize) && p <= q < WORD
    requires Index(blockSize, p).1 + (q - p) < blockSize
    ensures Index(blockSize, q) == (Index(blockSize, p).0, Index(blockSize, p).1 + (q - p))
  {
    hide Index;
    IndexIsTheBlock(blockSize, p);
    IndexExact(blockSize, q, Index(blockSize, p).0);
  }

  lemma SameBlockBack(blockSize: nat, p: nat, q: nat)
    requires Geometry(blockSize) && p <= q < WORD
    requires Index(blockSize, p).0 == Index(blockSize, q).0
    ensures Index(blockSize, q).1 == Index(blockSize, p).1 + (q - p)
  {
    hide Index;
    IndexIsTheBlock(blockSize, p);
    IndexIsTheBlock(blockSize, q);
  }

  lemma NextBlock(blockSize: nat, p: nat)
    requires Geometry(blockSize) && p + 1 < WORD && Index(blockSize, p).1 == blockSize - 1
    ensures Index(blockSize, p + 1) == (Index(blockSize, p).0 + 1, 4 * Pointers(Index(blockSize, p).0 + 1))
  {
    hide Index, Pow2, PopCount;
    IndexIsTheBlock(blockSize, p);
    var i := Index(blockSize, p).0;
    assert Start(blockSize, i + 1) == p + 1;
    StartClosedForm(blockSize, i + 1);
    IndexBound(blockSize, p + 1, i + 1);
    CapacityPositive(blockSize, i + 1);
    IndexExact(blockSize, p + 1, i + 1);
  }

  lemma FirstPosition(blockSize: nat)
    requires Geometry(blockSize)
    ensures Index(blockSize, 0) == (0, 0)
  {
    hide Index;
    assert Start(blockSize, 0) == 0 && Start(blockSize, 1) == blockSize;
    IndexExact(blockSize, 0, 0);
  }

  // ---- Lists on a disk that changes elsewhere ----

  ghost predicate Unchanged(disk: Disk, disk': Disk, blocks: seq<nat>) {
    forall b :: b in blocks && b in disk ==> b in disk' && disk'[b] == disk[b]
  }

  lemma UnchangedFile(disk: Disk, disk': Disk, blockSize: nat, blocks: seq<nat>, size: nat)
    requires Geometry(blockSize) && size <= WORD && Unchanged(disk, disk', blocks)
    ensures IsList(disk, blocks) ==> IsList(disk', blocks)
    ensures Readable(disk, blockSize, blocks, size) ==>
              && Readable(disk', blockSize, blocks, size)
              && Bytes(disk', blockSize, blocks, size) == Bytes(disk, blockSize, blocks, size)
  {
    hide Index;
    if IsList(disk, blocks) {
      forall i | 0 <= i < |blocks| ensures PointersOk(disk', blocks, i) {
        assert PointersOk(disk, blocks, i) && blocks[i] in blocks;
      }
    }
    if Readable(disk, blockSize, blocks, size) {
      forall p | 0 <= p < size
        ensures Present(disk', blockSize, blocks, p)
        ensures ByteAt(disk', blockSize, blocks, p) == ByteAt(disk, blockSize, blocks, p)
      {
        assert Present(disk, blockSize, blocks, p);
        assert blocks[Index(blockSize, p).0] in blocks;
      }
    }
  }

  // ---- Programming the open block ----

  /** Programming more bytes after those of the last block leaves the list as it is. */
  lemma ProgramKeepsList(disk: Disk, disk': Disk, blocks: seq<nat>, head: nat, data: seq<Octet>)
    requires IsList(disk, blocks) && head in disk && disk' == disk[head := disk[head] + data]
    ensures IsList(disk', blocks)
  {
    forall i | 0 <= i < |blocks| ensures PointersOk(disk', blocks, i) {
      assert PointersOk(disk, blocks, i);
    }
  }

  lemma ProgramBytes(disk: Disk, disk': Disk, blockSize: nat, blocks: seq<nat>, head: nat,
                     size: nat, off: nat, data: seq<Octet>)
    requires Geometry(blockSize) && size + |data| < WORD && off + |data| <= blockSize && data != []
    requires IsOpen(disk, blockSize, blocks, head, size, off)
    requires disk' == disk[head := disk[head] + data]
    ensures Readable(disk', blockSize, blocks, size + |data|)
    ensures Bytes(disk', blockSize, blocks, size + |data|)
         == Bytes(disk, blockSize, blocks, size) + data
  {
    hide Index, IsList;
    forall p | 0 <= p < size + |data|
      ensures Present(disk', blockSize, blocks, p)
      ensures ByteAt(disk', blockSize, blocks, p)
           == if p < size then ByteAt(disk, blockSize, blocks, p) else data[p - size]
    {
      if p < size {
        assert Present(disk, blockSize, blocks, p);
      } else {
        SameBlock(blockSize, size, p);
      }
    }
  }

  lemma ProgramOpen(disk: Disk, disk': Disk, blockSize: nat, blocks: seq<nat>, head: nat,
                    size: nat, off: nat, data: seq<Octet>)
    requires Geometry(blockSize) && size + |data| < WORD && off + |data| <= blockSize && data != []
    requires IsOpen(disk, blockSize, blocks, head, size, off)
    requires disk' == disk[head := disk[head] + data]
    ensures IsOpen(disk', blockSize, blocks, head, size + |data|, off + |data|)
    ensures Index(blockSize, size + |data| - 1) == (|blocks| - 1, off + |data| - 1)
  {
    hide Index, IsList, Readable;
    ProgramKeepsList(disk, disk', blocks, head, data);
    ProgramBytes(disk, disk', blockSize, blocks, head, size, off, data);
    if off + |data| < blockSize {
      SameBlock(blockSize, size, size + |data|);
    }
    SameBlock(blockSize, size, size + |data| - 1);
  }

  // ---- A new last block ----

  lemma FirstOpen(disk: Disk, disk': Disk, blockSize: nat, nb: nat)
    requires Geometry(blockSize) && disk' == disk[nb := []]
    ensures IsOpen(disk', blockSize, [nb], nb, 0, 0)
  {
    FirstPosition(blockSize);
    assert PointersOk(disk', [nb], 0);
  }

  lemma CopyByte(disk: Disk, disk': Disk, blockSize: nat, blocks: seq<nat>, nb: nat, size: nat,
                 p: nat)
    requires Geometry(blockSize) && p < size < WORD && nb !in blocks
    requires Present(disk, blockSize, blocks, p) && Present(disk, blockSize, blocks, size - 1)
    requires Index(blockSize, size - 1).0 == |blocks| - 1
    requires disk' == disk[nb := disk[blocks[|blocks| - 1]][..Index(blockSize, size - 1).1 + 1]]
    ensures
      var blocks' := blocks[..|blocks| - 1] + [nb];
      && Present(disk', blockSize, blocks', p)
      && ByteAt(disk', blockSize, blocks', p) == ByteAt(disk, blockSize, blocks, p)
  {
    hide Index;
    IndexMonotone(blockSize, p, size - 1);
    if Index(blockSize, p).0 == |blocks| - 1 { SameBlockBack(blockSize, p, size - 1); }
  }

  lemma CopyList(disk: Disk, disk': Disk, blocks: seq<nat>, nb: nat, used: nat)
    requires blocks != [] && IsList(disk, blocks) && nb !in blocks
    requires blocks[|blocks| - 1] in disk
    requires 4 * Pointers(|blocks| - 1) <= used <= |disk[blocks[|blocks| - 1]]|
    requires disk' == disk[nb := disk[blocks[|blocks| - 1]][..used]]
    ensures IsList(disk', blocks[..|blocks| - 1] + [nb])
  {
    var blocks' := blocks[..|blocks| - 1] + [nb];
    forall i | 0 <= i < |blocks'| ensures PointersOk(disk', blocks', i) {
      assert PointersOk(disk, blocks, i) && blocks[i] in blocks;
      assert forall k :: 0 <= k < Pointers(i) && Pow2(k) <= i ==>
        blocks'[i - Pow2(k)] == blocks[i - Pow2(k)];
    }
  }

  lemma UsedFits(disk: Disk, blockSize: nat, blocks: seq<nat>, head: nat, size: nat)
    requires Geometry(blockSize) && 0 < size < WORD && IsFile(disk, blockSize, blocks, head, size)
    ensures head in disk && Index(blockSize, size - 1).1 + 1 <= |disk[head]|
  {
    hide Index;
    assert Present(disk, blockSize, blocks, size - 1);
  }

  /** A last block that is not full is copied, pointers and all. */
  lemma CopyOpen(disk: Disk, disk': Disk, blockSize: nat, blocks: seq<nat>, head: nat, nb: nat,
                 size: nat, used: nat)
    requires Geometry(blockSize) && 0 < size && size + 1 < WORD && nb !in blocks
    requires IsFile(disk, blockSize, blocks, head, size)
    requires used == Index(blockSize, size - 1).1 + 1 < blockSize
    requires head in disk && used <= |disk[head]|
    ensures disk' == disk[nb := disk[head][..used]] ==>
              var blocks' := blocks[..|blocks| - 1] + [nb];
              && IsOpen(disk', blockSize, blocks', nb, size, used)
              && Bytes(disk', blockSize, blocks', size) == Bytes(disk, blockSize, blocks, size)
  {
    hide Index, IsList, Start, Holds;
    var blocks' := blocks[..|blocks| - 1] + [nb];
    assert Present(disk, blockSize, blocks, size - 1);
    IndexIsTheBlock(blockSize, size - 1);
    SameBlock(blockSize, size - 1, size);
    if disk' == disk[nb := disk[head][..used]] {
      CopyList(disk, disk', blocks, nb, used);
      forall p | 0 <= p < size
        ensures Present(disk', blockSize, blocks', p)
        ensures ByteAt(disk', blockSize, blocks', p) == ByteAt(disk, blockSize, blocks, p)
      {
        assert Present(disk, blockSize, blocks, p);
        CopyByte(disk, disk', blockSize, blocks, nb, size, p);
      }
    }
  }

  ghost predicate IsHeader(header: seq<Octet>, blocks: seq<nat>) {
    && |header| == 4 * Pointers(|blocks|)
    && forall k :: 0 <= k < Pointers(|blocks|) && Pow2(k) <= |blocks| ==>
         LE32(header, 4 * k) == blocks[|blocks| - Pow2(k)]
  }

  lemma AppendList(disk: Disk, disk': Disk, blocks: seq<nat>, nb: nat, header: seq<Octet>)
    requires IsList(disk, blocks) && nb !in blocks && IsHeader(header, blocks)
    requires disk' == disk[nb := header]
    ensures IsList(disk', blocks + [nb])
  {
    var blocks' := blocks + [nb];
    forall i | 0 <= i < |blocks'| ensures PointersOk(disk', blocks', i) {
      if i < |blocks| { assert PointersOk(disk, blocks, i) && blocks[i] in blocks; }
    }
  }

  lemma AppendBytes(disk: Disk, disk': Disk, blockSize: nat, blocks: seq<nat>, nb: nat, size: nat,
                    header: seq<Octet>)
    requires Geometry(blockSize) && size < WORD && nb !in blocks
    requires Readable(disk, blockSize, blocks, size) && disk' == disk[nb := header]
    ensures Readable(disk', blockSize, blocks + [nb], size)
    ensures Bytes(disk', blockSize, blocks + [nb], size) == Bytes(disk, blockSize, blocks, size)
  {
    hide Index;
    var blocks' := blocks + [nb];
    forall p | 0 <= p < size
      ensures Present(disk', blockSize, blocks', p)
      ensures ByteAt(disk', blockSize, blocks', p) == ByteAt(disk, blockSize, blocks, p)
    {
      assert Present(disk, blockSize, blocks, p);
      assert blocks[Index(blockSize, p).0] in blocks;
    }
  }

  /** Behind a full last block, a new one starts with pointers into the list. */
  lemma AppendOpen(disk: Disk, disk': Disk, blockSize: nat, blocks: seq<nat>, head: nat, nb: nat,
                   size: nat, header: seq<Octet>)
    requires Geometry(blockSize) && 0 < size && size + 1 < WORD && nb !in blocks
    requires IsFile(disk, blockSize, blocks, head, size) && IsHeader(header, blocks)
    requires Index(blockSize, size - 1).1 == blockSize - 1
    requires disk' == disk[nb := header]
    ensures IsOpen(disk', blockSize, blocks + [nb], nb, size, |header|) && |header| < blockSize
    ensures Bytes(disk', blockSize, blocks + [nb], size) == Bytes(disk, blockSize, blocks, size)
  {
    hide Index, IsList, Readable, Start, Holds;
    NextBlock(blockSize, size - 1);
    IndexIsTheBlock(blockSize, size);
    AppendList(disk, disk', blocks, nb, header);
    AppendBytes(disk, disk', blockSize, blocks, nb, size, header);
    assert (blocks + [nb])[..|blocks|] == blocks;
  }

  /** The blocks up to the one with byte p-1 are a complete list for the first p bytes. */
  lemma PrefixFile(disk: Disk, blockSize: nat, blocks: seq<nat>, head: nat, size: nat, p: nat)
    requires Geometry(blockSize) && 0 < p <= size < WORD
    requires IsFile(disk, blockSize, blocks, head, size)
    ensures Index(blockSize, p - 1).0 < |blocks|
    ensures
      var prefix := blocks[..Index(blockSize, p - 1).0 + 1];
      && IsFile(disk, blockSize, prefix, prefix[|prefix| - 1], p)
      && Bytes(disk, blockSize, prefix, p) == Bytes(disk, blockSize, blocks, size)[..p]
  {
    hide Index;
    IndexMonotone(blockSize, p - 1, size - 1);
    var prefix := blocks[..Index(blockSize, p - 1).0 + 1];
    forall i | 0 <= i < |prefix| ensures PointersOk(disk, prefix, i) {
      assert PointersOk(disk, blocks, i);
    }
    forall q | 0 <= q < p
      ensures Present(disk, blockSize, prefix, q)
      ensures ByteAt(disk, blockSize, prefix, q) == ByteAt(disk, blockSize, blocks, q)
    {
      assert Present(disk, blockSize, blocks, q);
      IndexMonotone(blockSize, q, p - 1);
    }
  }

  lemma OpenIsFile(disk: Disk, blockSize: nat, blocks: seq<nat>, head: nat, size: nat, off: nat)
    requires Geometry(blockSize) && 0 < size < WORD
    requires IsOpen(disk, blockSize, blocks, head, size, off)
    requires Index(blockSize, size - 1).0 == |blocks| - 1
    ensures IsFile(disk, blockSize, blocks, head, size)
  {
    hide Index;
  }
}
