/** Writing commits to a metadata block: tags chained to the ones before, closed by a CRC and
    padded to whole program units. What is written is what a later fetch reads. */
module CommitWriter {
  import opened Wrappers
  import opened Bytes
  import opened Crc32
  import opened MetaLog
  import opened TagWord
  import opened MetaBlock
  import opened MetaFetch
  import opened Alignment

  /** Where the reading of a commit starts: the first checksummed byte, the first tag, and
      the tag before it. */
  datatype Pos = Pos(begin: nat, off: nat, ptag: bv32)

  const FIRST := Pos(0, 4, START)

  function At(written: seq<Commit>, i: nat): Pos
    requires i <= |written|
  {
    if i == 0 then FIRST else Pos(written[i - 1].off, written[i - 1].off, written[i - 1].ptag)
  }

  /** The tag that closes the commit is long enough for its checksum. */
  predicate Sized(c: Commit) { c.tags != [] && SizedTag(c.tags[|c.tags| - 1], c.off) }

  predicate SizedTag(t: Stored, off: nat) { IsCcrc(t.word) && 4 <= SizeOf(t.word) <= 0x3fe && t.off + 8 <= off }

  ghost predicate Reads(block: seq<Byte>, p: Pos, c: Commit) {
    p.begin <= p.off && ReadCommit(block, p.begin, p.off, p.ptag) == Some(c) && Sized(c)
  }

  /** The block's first commits are `written`. */
  ghost predicate Written(block: seq<Byte>, written: seq<Commit>) {
    forall i :: 0 <= i < |written| ==> Reads(block, At(written, i), written[i])
  }

  /** The tags of a commit that is not closed yet, back to back from a position on. */
  ghost predicate Chain(block: seq<Byte>, p: Pos, cur: seq<Stored>) {
    cur != [] ==>
      var init := cur[..|cur| - 1];
      Chain(block, p, init) && Linked(block, NextAt(p, init), PtagAt(p, init), cur[|cur| - 1])
  }

  ghost predicate Linked(block: seq<Byte>, off: nat, ptag: bv32, s: Stored) {
    s.off == off && Readable(block, off, ptag) && s.word == TagAt(block, off, ptag) && !IsCcrc(s.word)
  }

  function NextAt(p: Pos, cur: seq<Stored>): nat {
    if cur == [] then p.off else cur[|cur| - 1].off + DSize(cur[|cur| - 1].word)
  }

  function PtagAt(p: Pos, cur: seq<Stored>): bv32 {
    if cur == [] then p.ptag else cur[|cur| - 1].word
  }

  /** What the fields of a commit in progress say about the block. */
  ghost predicate Progress(block: seq<Byte>, written: seq<Commit>, cur: seq<Stored>,
                           off: nat, ptag: bv32, crc: bv32) {
    var p := At(written, |written|);
    && Written(block, written) && Chain(block, p, cur)
    && p.begin <= p.off <= off <= |block| && off == NextAt(p, cur) && ptag == PtagAt(p, cur)
    && crc == Crc(0xffff_ffff, block[p.begin..off])
  }

  // ---- Writing further on leaves what was written ----

  lemma SameSlice(a: seq<Byte>, b: seq<Byte>, n: nat, i: nat, j: nat)
    requires SamePrefix(a, b, n) && i <= j <= n
    ensures a[i..j] == b[i..j]
  {
    assert a[..n][i..j] == a[i..j] && b[..n][i..j] == b[i..j];
  }

  lemma ReadableFrame(a: seq<Byte>, b: seq<Byte>, off: nat, ptag: bv32, n: nat)
    requires off + 4 <= n && SamePrefix(a, b, n)
    ensures TagAt(a, off, ptag) == TagAt(b, off, ptag)
    ensures Readable(a, off, ptag) == Readable(b, off, ptag)
  {
    hide IsValid, Xor, BE32, Extent;
    SameSlice(a, b, n, off, off + 4);
  }

  lemma CrcFrame(a: seq<Byte>, b: seq<Byte>, begin: nat, off: nat, n: nat)
    requires begin <= off && off + 8 <= n && SamePrefix(a, b, n)
    ensures CrcMatches(a, begin, off) == CrcMatches(b, begin, off)
  {
    hide Crc, Pack;
    SameSlice(a, b, n, begin, off + 4);
    SameSlice(a, b, n, off + 4, off + 8);
  }

  lemma {:induction false} ClosingTag(a: seq<Byte>, begin: nat, off: nat, ptag: bv32)
    requires begin <= off && ReadCommit(a, begin, off, ptag).Some?
    ensures
      var c := ReadCommit(a, begin, off, ptag).value;
      c.tags != [] && off <= c.tags[|c.tags| - 1].off
    decreases |a| - off
  {
    hide IsCcrc, DSize, CrcMatches, TagAt, Perturb, ReadCommit, IsValid;
    ReadStep(a, begin, off, ptag);
    var tag := TagAt(a, off, ptag);
    if !IsCcrc(tag) { ClosingTag(a, begin, off + DSize(tag), tag); }
  }

  lemma {:induction false} ReadFrame(a: seq<Byte>, b: seq<Byte>, begin: nat, off: nat, ptag: bv32, n: nat)
    requires begin <= off && ReadCommit(a, begin, off, ptag).Some? && SamePrefix(a, b, n)
    requires var c := ReadCommit(a, begin, off, ptag).value;
             c.tags != [] && c.tags[|c.tags| - 1].off + 8 <= n
    ensures ReadCommit(b, begin, off, ptag) == ReadCommit(a, begin, off, ptag)
    decreases |a| - off
  {
    hide IsCcrc, DSize, CrcMatches, TagAt, Perturb, SamePrefix, ReadCommit, IsValid;
    ClosingTag(a, begin, off, ptag);
    ReadableFrame(a, b, off, ptag, n);
    ReadStep(a, begin, off, ptag);
    ReadStep(b, begin, off, ptag);
    var tag := TagAt(a, off, ptag);
    if IsCcrc(tag) {
      CrcFrame(a, b, begin, off, n);
    } else {
      ClosingTag(a, begin, off + DSize(tag), tag);
      ReadFrame(a, b, begin, off + DSize(tag), tag, n);
    }
  }

  lemma WrittenFrame(a: seq<Byte>, b: seq<Byte>, written: seq<Commit>, n: nat)
    requires Written(a, written) && SamePrefix(a, b, n)
    requires forall i :: 0 <= i < |written| ==> written[i].off <= n
    ensures Written(b, written)
  {
    hide ReadCommit, IsCcrc, SizeOf, SamePrefix;
    forall i | 0 <= i < |written| ensures Reads(b, At(written, i), written[i]) {
      var p := At(written, i);
      assert Reads(a, p, written[i]);
      ReadFrame(a, b, p.begin, p.off, p.ptag, n);
    }
  }

  lemma LinkedFrame(a: seq<Byte>, b: seq<Byte>, off: nat, ptag: bv32, s: Stored, n: nat)
    requires Linked(a, off, ptag, s) && SamePrefix(a, b, n) && off + 4 <= n
    ensures Linked(b, off, ptag, s)
  {
    hide TagAt, IsCcrc, IsValid, Extent, SamePrefix;
    ReadableFrame(a, b, off, ptag, n);
  }

  lemma {:induction false} ChainFrame(a: seq<Byte>, b: seq<Byte>, p: Pos, cur: seq<Stored>, n: nat)
    requires Chain(a, p, cur) && SamePrefix(a, b, n) && NextAt(p, cur) <= n
    ensures Chain(b, p, cur)
    decreases |cur|
  {
    hide Linked, SamePrefix, DSize;
    if cur == [] {
    } else {
      var init, last := cur[..|cur| - 1], cur[|cur| - 1];
      assert DSize(last.word) >= 4;
      LinkedAt(a, NextAt(p, init), PtagAt(p, init), last);
      ChainFrame(a, b, p, init, n);
      LinkedFrame(a, b, NextAt(p, init), PtagAt(p, init), last, n);
    }
  }

  lemma LinkedAt(a: seq<Byte>, off: nat, ptag: bv32, s: Stored)
    requires Linked(a, off, ptag, s)
    ensures s.off == off
  {
  }

  lemma ReadsOff(block: seq<Byte>, p: Pos, c: Commit)
    requires Reads(block, p, c)
    ensures p.begin <= p.off && p.off + 4 <= c.off <= |block|
  {
    hide Sized;
  }

  // Commits end in order.
  lemma {:induction false} WrittenEnds(block: seq<Byte>, written: seq<Commit>, i: nat)
    requires Written(block, written) && i < |written|
    ensures written[i].off <= written[|written| - 1].off <= |block|
    decreases |written| - i
  {
    hide Reads;
    ReadsOff(block, At(written, i), written[i]);
    if i + 1 < |written| {
      ReadsOff(block, At(written, i + 1), written[i + 1]);
      WrittenEnds(block, written, i + 1);
    }
  }

  /** Bytes written at or after the commit's position do not disturb it. */
  lemma ProgressFrame(a: seq<Byte>, b: seq<Byte>, written: seq<Commit>, cur: seq<Stored>,
                      off: nat, ptag: bv32, crc: bv32)
    requires Progress(a, written, cur, off, ptag, crc) && SamePrefix(a, b, off)
    ensures Progress(b, written, cur, off, ptag, crc)
  {
    hide Reads, Linked, DSize, Crc;
    var p := At(written, |written|);
    forall i: nat | i < |written| ensures written[i].off <= off { WrittenEnds(a, written, i); }
    WrittenFrame(a, b, written, off);
    ChainFrame(a, b, p, cur, off);
    SameSlice(a, b, off, p.begin, off);
  }

  // ---- One more tag ----

  /** A tag as it is stored behind another. */
  function Stowed(tag: bv32, ptag: bv32): (r: seq<Byte>) ensures |r| == 4 { ToBE32(Xor(tag, ptag)) }

  lemma StowedReads(block: seq<Byte>, off: nat, tag: bv32, ptag: bv32)
    requires off + 4 <= |block| && block[off..off + 4] == Stowed(tag, ptag)
    ensures TagAt(block, off, ptag) == tag
  {
    hide BE32, ToBE32, Xor;
    BE32RoundTrip(Xor(tag, ptag));
    XorTwice(tag, ptag);
  }

  /** Tags that a fetch looks into are at least as long as what it reads. */
  predicate LongEnough(tag: bv32) { (IsTail(tag) || IsFcrc(tag)) ==> DSize(tag) >= 12 }

  lemma ExtentIsSize(tag: bv32)
    requires !IsCcrc(tag) && LongEnough(tag)
    ensures Extent(tag) == DSize(tag)
  {
    hide TypeOf, DSize;
  }

  lemma ProgressTag(block: seq<Byte>, written: seq<Commit>, cur: seq<Stored>,
                    off: nat, ptag: bv32, crc: bv32, tag: bv32)
    requires Progress(block, written, cur, off, ptag, crc)
    requires IsValid(tag) && !IsCcrc(tag) && LongEnough(tag) && off + DSize(tag) <= |block|
    requires block[off..off + 4] == Stowed(tag, ptag)
    ensures Progress(block, written, cur + [Stored(off, tag)], off + DSize(tag), tag,
                     Crc(crc, block[off..off + DSize(tag)]))
  {
    hide DSize, Crc, IsValid, IsCcrc, LongEnough, TagAt, Written, Stowed, Chain, Linked;
    LinkNew(block, off, ptag, tag);
    ChainTag(block, At(written, |written|), cur, Stored(off, tag));
    CrcGrows(block, At(written, |written|).begin, off, off + DSize(tag));
  }

  lemma LinkNew(block: seq<Byte>, off: nat, ptag: bv32, tag: bv32)
    requires IsValid(tag) && !IsCcrc(tag) && LongEnough(tag) && off + DSize(tag) <= |block|
    requires block[off..off + 4] == Stowed(tag, ptag)
    ensures Linked(block, off, ptag, Stored(off, tag))
  {
    hide DSize, IsValid, IsCcrc, LongEnough, Extent, TagAt, Stowed;
    ExtentIsSize(tag);
    StowedReads(block, off, tag, ptag);
  }

  lemma ChainTag(block: seq<Byte>, p: Pos, cur: seq<Stored>, s: Stored)
    requires Chain(block, p, cur) && Linked(block, NextAt(p, cur), PtagAt(p, cur), s)
    ensures Chain(block, p, cur + [s])
  {
    hide Linked, DSize;
    assert (cur + [s])[..|cur|] == cur;
  }

  // ---- Closing a commit ----

  /** Reading through a chain comes to whatever follows it. */
  lemma {:induction false} ChainReads(block: seq<Byte>, p: Pos, cur: seq<Stored>)
    requires Chain(block, p, cur) && p.begin <= p.off
    ensures p.off <= NextAt(p, cur)
    ensures ReadCommit(block, p.begin, p.off, p.ptag)
         == Prefixed(cur, ReadCommit(block, p.begin, NextAt(p, cur), PtagAt(p, cur)))
    decreases |cur|
  {
    hide DSize, ReadCommit, Linked;
    if cur == [] {
      var r := ReadCommit(block, p.begin, p.off, p.ptag);
      if r.Some? { assert [] + r.value.tags == r.value.tags; }
    } else {
      var init, last := cur[..|cur| - 1], cur[|cur| - 1];
      ChainReads(block, p, init);
      LinkedAt(block, NextAt(p, init), PtagAt(p, init), last);
      LinkReads(block, p.begin, NextAt(p, init), PtagAt(p, init), last);
      var r := ReadCommit(block, p.begin, NextAt(p, cur), PtagAt(p, cur));
      if r.Some? { assert init + ([last] + r.value.tags) == cur + r.value.tags; }
    }
  }

  lemma LinkReads(block: seq<Byte>, begin: nat, off: nat, ptag: bv32, s: Stored)
    requires begin <= off && Linked(block, off, ptag, s)
    ensures ReadCommit(block, begin, off, ptag)
         == Prefixed([s], ReadCommit(block, begin, off + DSize(s.word), s.word))
  {
    hide DSize, Readable, TagAt, IsCcrc, CrcMatches;
  }

  /** The tag that closes a commit, followed by the checksum of everything up to it. */
  lemma ClosedReads(block: seq<Byte>, written: seq<Commit>, cur: seq<Stored>,
                    off: nat, ptag: bv32, crc: bv32, tag: bv32)
    requires Progress(block, written, cur, off, ptag, crc)
    requires IsValid(tag) && IsCcrc(tag) && 4 <= SizeOf(tag) <= 0x3fe && off + DSize(tag) <= |block|
    requires DSize(tag) == 4 + SizeOf(tag) && off + 8 <= |block|
    requires block[off..off + 4] == Stowed(tag, ptag)
    requires block[off + 4..off + 8] == Bytes32(Crc(crc, block[off..off + 4]))
    ensures Reads(block, At(written, |written|),
                  Commit(cur + [Stored(off, tag)], off + DSize(tag), Perturb(tag)))
  {
    hide DSize, Crc, IsValid, IsCcrc, TagAt, Written, Stowed, Chain, Perturb, SizeOf, Pack, Bytes32;
    var p := At(written, |written|);
    StowedReads(block, off, tag, ptag);
    CrcGrows(block, p.begin, off, off + 4);
    PackBytes32(Crc(crc, block[off..off + 4]));
    ChainReads(block, p, cur);
    CcrcSize(tag);
    LastReads(block, p.begin, off, ptag);
    assert (cur + [Stored(off, tag)])[|cur|] == Stored(off, tag);
  }

  lemma CcrcSize(tag: bv32)
    requires IsCcrc(tag) && DSize(tag) >= 8
    ensures Extent(tag) == DSize(tag)
  {
    hide TypeOf, DSize;
    CcrcType(TypeOf(tag));
  }

  lemma LastReads(block: seq<Byte>, begin: nat, off: nat, ptag: bv32)
    requires begin <= off && Readable(block, off, ptag) && off + 8 <= |block|
    requires IsCcrc(TagAt(block, off, ptag)) && CrcMatches(block, begin, off)
    ensures var tag := TagAt(block, off, ptag);
            ReadCommit(block, begin, off, ptag) == Some(Commit([Stored(off, tag)], off + DSize(tag), Perturb(tag)))
  {
    hide DSize, Readable, TagAt, IsCcrc, CrcMatches, Perturb;
  }

  lemma ProgressClose(block: seq<Byte>, written: seq<Commit>, cur: seq<Stored>,
                      off: nat, ptag: bv32, crc: bv32, tag: bv32)
    requires Progress(block, written, cur, off, ptag, crc)
    requires Reads(block, At(written, |written|),
                   Commit(cur + [Stored(off, tag)], off + DSize(tag), Perturb(tag)))
    ensures Progress(block, written + [Commit(cur + [Stored(off, tag)], off + DSize(tag), Perturb(tag))],
                     [], off + DSize(tag), Perturb(tag), 0xffff_ffff)
  {
    hide Reads, DSize, Crc, Perturb, Chain;
    var c := Commit(cur + [Stored(off, tag)], off + DSize(tag), Perturb(tag));
    var more := written + [c];
    ReadsOff(block, At(written, |written|), c);
    forall i | 0 <= i < |more| ensures Reads(block, At(more, i), more[i]) {
      if i < |written| { assert Reads(block, At(written, i), written[i]); }
      assert At(more, i) == At(written, i);
    }
    CrcOfNothing(0xffff_ffff);
    assert block[c.off..c.off] == [];
    EmptyChain(block, At(more, |more|));
  }

  lemma EmptyChain(block: seq<Byte>, p: Pos)
    ensures Chain(block, p, [])
  {
  }

  // ---- What a fetch makes of it ----

  lemma ReadsNext(block: seq<Byte>, p: Pos, c: Commit)
    requires Reads(block, p, c)
    ensures ReadCommits(block, p.begin, p.off, p.ptag) == [c] + ReadCommits(block, c.off, c.off, c.ptag)
  {
    hide ReadCommit, Sized;
  }

  lemma WrittenInit(block: seq<Byte>, written: seq<Commit>)
    requires Written(block, written) && written != []
    ensures var init := written[..|written| - 1];
            && Written(block, init) && At(init, |init|) == At(written, |init|)
            && Reads(block, At(written, |init|), written[|init|])
  {
    hide Reads;
    var init := written[..|written| - 1];
    forall i | 0 <= i < |init| ensures Reads(block, At(init, i), init[i]) {
      assert At(init, i) == At(written, i);
      assert Reads(block, At(written, i), written[i]);
    }
  }

  lemma {:induction false} WrittenReads(block: seq<Byte>, written: seq<Commit>)
    requires Written(block, written)
    ensures var p := At(written, |written|);
            p.begin <= p.off && Commits(block) == written + ReadCommits(block, p.begin, p.off, p.ptag)
  {
    hide Reads, ReadCommits, Written;
    if written == [] {
      assert [] + Commits(block) == Commits(block);
    } else {
      var init, last := written[..|written| - 1], written[|written| - 1];
      WrittenInit(block, written);
      WrittenReads(block, init);
      ReadsNext(block, At(written, |init|), last);
      var rest := ReadCommits(block, last.off, last.off, last.ptag);
      assert init + ([last] + rest) == written + rest;
    }
  }

  /** Where no valid tag follows, the block holds the written commits and no others. */
  lemma WrittenIsAll(block: seq<Byte>, written: seq<Commit>)
    requires Written(block, written)
    requires var p := At(written, |written|);
             p.off + 4 > |block| || !IsValid(TagAt(block, p.off, p.ptag))
    ensures Commits(block) == written
  {
    hide Written, IsValid, TagAt, Commits, IsCcrc, Perturb, CrcMatches;
    WrittenReads(block, written);
    var p := At(written, |written|);
    assert ReadCommit(block, p.begin, p.off, p.ptag) == None;
  }

  // ---- The tag that closes a commit ----

  /** Inverted, the top bit of the byte that follows the commit. */
  function Flip(e: Byte): bv11 { ((!e) >> 7) as bv11 }

  lemma FlipBit(e: Byte)
    ensures Flip(e) == if e & 0x80 == 0 then 1 else 0
  {
  }

  lemma CcrcPlus(flip: bv11)
    requires flip == 0 || flip == 1
    ensures (CCRC + flip) & TYPE2 == CCRC && (CCRC + flip) & 1 == flip
  {
  }

  function CcrcTag(e: Byte, size: nat): (r: bv32)
    requires size < 0x3ff
    ensures IsValid(r) && IsCcrc(r) && SizeOf(r) == size && DSize(r) == 4 + size
    ensures TypeOf(r) & 1 == Flip(e)
  {
    FlipBit(e);
    CcrcPlus(Flip(e));
    MkTagFields(CCRC + Flip(e), NO_ID, ToBits(size));
    NotDelete(ToBits(size));
    MkTag(CCRC + Flip(e), NO_ID, ToBits(size))
  }

  lemma NotDelete(size: bv10)
    requires size as nat < 0x3ff
    ensures size != 0x3ff
  {
  }

  function PerturbBy(w: bv32, e: Byte): bv32 { Xor(w, ((0x80 & !e) as bv32) << 24) }

  lemma PerturbByIs(w: bv32, e: Byte)
    requires TypeOf(w) & 1 == Flip(e)
    ensures PerturbBy(w, e) == Perturb(w)
  {
    hide TypeOf;
    FlipBit(e);
    TopBitOf(e);
    hide Flip;
    NoFlip(w);
  }

  lemma TopBitOf(e: Byte)
    ensures ((0x80 & !e) as bv32) << 24 == if e & 0x80 == 0 then 0x8000_0000 else 0
  {
  }

  lemma NoFlip(w: bv32)
    ensures Xor(w, 0) == w
  {
  }

  // ---- The byte that keeps erased space invalid ----

  lemma TopByte(s: seq<Byte>)
    requires |s| == 4
    ensures IsValid(BE32(s)) == (s[0] & 0x80 == 0)
  {
    var r := Reverse4(s);
    PackOfFour(r);
    TopOfWord(r[0] as bv32, r[1] as bv32, r[2] as bv32, s[0]);
  }

  lemma TopOfWord(a: bv32, b: bv32, c: bv32, d: Byte)
    requires a < 0x100 && b < 0x100 && c < 0x100
    ensures IsValid(Word(a, b, c, d as bv32)) == (d & 0x80 == 0)
  {
  }

  lemma ValidXor(a: bv32, b: bv32)
    ensures IsValid(Xor(a, b)) == (IsValid(a) == IsValid(b))
  {
  }

  lemma PerturbValid(w: bv32)
    requires IsValid(w)
    ensures IsValid(Perturb(w)) == (TypeOf(w) & 1 == 0)
  {
    hide TypeOf;
    ValidXor(w, 0x8000_0000);
    BitIsOneOrNone(TypeOf(w));
  }

  lemma BitIsOneOrNone(ty: bv11)
    ensures ty & 1 == 0 || ty & 1 == 1
  {
  }

  /** What the block holds after a commit, while it is erased, reads as an invalid tag. */
  lemma ErasedIsInvalid(block: seq<Byte>, off: nat, w: bv32)
    requires off + 4 <= |block| && IsValid(w) && TypeOf(w) & 1 == Flip(block[off])
    ensures !IsValid(TagAt(block, off, Perturb(w)))
  {
    hide IsValid, TypeOf, Perturb, Xor, BE32, Flip;
    TopByte(block[off..off + 4]);
    ValidXor(WordAt(block, off), Perturb(w));
    PerturbValid(w);
    FlipBit(block[off]);
  }

  /** A tag programmed there reads as itself. */
  lemma NextIsValid(block: seq<Byte>, off: nat, ptag: bv32, tag: bv32)
    requires off + 4 <= |block| && IsValid(tag) && block[off..off + 4] == Stowed(tag, ptag)
    ensures TagAt(block, off, ptag) == tag && IsValid(TagAt(block, off, ptag))
  {
    StowedReads(block, off, tag, ptag);
  }

  // ---- The writer ----

  const CRC_TAGS_SIZE := 20  // a forward CRC and a CRC
  const FCRC_TAG := MkTag(FCRC, NO_ID, 8)

  /** Tags that only serve the log itself. */
  predicate Bookkeeping(tags: seq<Stored>) {
    forall i :: 0 <= i < |tags| ==> IsCcrc(tags[i].word) || IsFcrc(tags[i].word)
  }

  lemma FcrcTagFields()
    ensures IsValid(FCRC_TAG) && IsFcrc(FCRC_TAG) && !IsCcrc(FCRC_TAG) && DSize(FCRC_TAG) == 12
    ensures LongEnough(FCRC_TAG)
  {
    MkTagFields(FCRC, NO_ID, 8);
    assert FCRC & TYPE2 != CCRC;
  }

  /** The forward CRC at `f` describes one program unit at `off`. */
  predicate Announces(block: seq<Byte>, f: Stored, off: nat, progWord: bv32) {
    && f.word == FCRC_TAG && f.off + 12 <= off <= off + progWord as nat <= |block|
    && LE32At(block, f.off + 4) == progWord
    && LE32At(block, f.off + 8) == Crc(0xffff_ffff, block[off..off + progWord as nat])
  }

  lemma AnnouncesFrame(a: seq<Byte>, b: seq<Byte>, f: Stored, off: nat, progWord: bv32)
    requires Announces(a, f, off, progWord) && SamePrefix(a, b, f.off + 12) && a[off..] == b[off..]
    ensures Announces(b, f, off, progWord)
  {
    hide Crc, Pack, MkTag;
    SlicesFrame(a, b, f.off, off, progWord as nat);
  }

  lemma SlicesFrame(a: seq<Byte>, b: seq<Byte>, at: nat, off: nat, n: nat)
    requires at + 12 <= off <= off + n <= |a| && SamePrefix(a, b, at + 12) && a[off..] == b[off..]
    ensures LE32At(a, at + 4) == LE32At(b, at + 4) && LE32At(a, at + 8) == LE32At(b, at + 8)
    ensures a[off..off + n] == b[off..off + n]
  {
    hide Pack;
    SameSlice(a, b, at + 12, at + 4, at + 8);
    SameSlice(a, b, at + 12, at + 8, at + 12);
    assert a[off..off + n] == a[off..][..n] && b[off..off + n] == b[off..][..n];
  }

  /** A commit in the middle of a block: still erased behind it, and known to be. */
  ghost predicate OpenEnded(block: seq<Byte>, written: seq<Commit>, off: nat, ptag: bv32, progWord: bv32) {
    && off + 4 <= |block| && !IsValid(TagAt(block, off, ptag))
    && ForwardOf(block, AllTags(written))
       == Some((progWord as nat, Crc(0xffff_ffff, block[off..off + Min(progWord as nat, |block| - off)])))
    && off + progWord as nat <= |block|
  }

  lemma IsOpenEnded(block: seq<Byte>, written: seq<Commit>, before: seq<Stored>, f: Stored, c: Stored,
                    off: nat, ptag: bv32, progWord: bv32)
    requires Announces(block, f, off, progWord) && IsCcrc(c.word)
    requires AllTags(written) == before + [f] + [c]
    requires off + 4 <= |block| && !IsValid(TagAt(block, off, ptag))
    ensures OpenEnded(block, written, off, ptag, progWord)
  {
    hide Crc, Pack, IsValid, TagAt;
    FcrcTagFields();
    TypeTests(f.word);
    TypeTests(c.word);
    CcrcType(TypeOf(c.word));
    LastOfAppend(before + [f], c, ALL, FCRC);
    LastOfAppend(before, f, ALL, FCRC);
  }

  /** Where the next CRC tag reaches to: the end, or as far as its size allows, leaving room
      for the last tags. */
  function NextEnd(off: nat, end: nat): nat
    requires off + 8 <= end
  {
    var noff := Min(end - (off + 4), 0x3fe) + (off + 4);
    // one CRC tag does not reach the end: leave room for the last two tags
    if noff < end && end >= CRC_TAGS_SIZE then Min(noff, end - CRC_TAGS_SIZE) else noff
  }

  lemma NextEndFits(off: nat, end: nat, size: nat, progSize: nat)
    requires off + 8 <= end <= size && (off + CRC_TAGS_SIZE <= end || end == size)
    requires progSize >= 4 && end % progSize == 0 && size % progSize == 0
    ensures
      var noff := NextEnd(off, end);
      && off + 8 <= noff <= end && noff - off - 4 <= 0x3fe
      && (noff < end ==> noff + CRC_TAGS_SIZE <= end)
      && (noff == end && end < size ==> noff + progSize <= size && off + CRC_TAGS_SIZE <= noff)
      && (noff < end ==> !(noff >= end))
      && (noff == end == size ==> noff + progSize > size)
  {
    if end < size { UnitLeft(end, size, progSize); }
  }

  /** What closing a commit has done so far: only added to the commits and the block. */
  ghost predicate Grown(before: seq<Byte>, off0: nat, written0: seq<Commit>, cur0: seq<Stored>,
                        block: seq<Byte>, off: nat, written: seq<Commit>, cur: seq<Stored>, extra: seq<Stored>) {
    && |written0| <= |written| && written[..|written0|] == written0
    && AllTags(written) + cur == AllTags(written0) + cur0 + extra && Bookkeeping(extra)
    && off0 <= off <= |block| == |before| && SamePrefix(before, block, off0) && block[off..] == before[off..]
  }

  lemma StartGrown(before: seq<Byte>, off0: nat, written0: seq<Commit>, cur0: seq<Stored>)
    requires off0 <= |before|
    ensures Grown(before, off0, written0, cur0, before, off0, written0, cur0, [])
  {
    assert AllTags(written0) + cur0 + [] == AllTags(written0) + cur0;
  }

  lemma GrowOn(before: seq<Byte>, off0: nat, written0: seq<Commit>, cur0: seq<Stored>,
               now: seq<Byte>, off1: nat, written1: seq<Commit>, cur1: seq<Stored>, extra: seq<Stored>,
               block: seq<Byte>, off: nat, written: seq<Commit>, more: seq<Stored>)
    requires Grown(before, off0, written0, cur0, now, off1, written1, cur1, extra)
    requires |written| == |written1| + 1 && written[..|written1|] == written1
    requires AllTags(written) == AllTags(written1) + cur1 + more && Bookkeeping(more)
    requires SamePrefix(now, block, off1) && off1 <= off <= |block| && block[off..] == now[off..]
    ensures Grown(before, off0, written0, cur0, block, off, written, [], extra + more)
  {
    hide AllTags;
    PrefixTrans(before, now, block, off0, off1);
    assert before[off..] == before[off1..][off - off1..] && now[off..] == now[off1..][off - off1..];
    assert written[..|written0|] == written[..|written1|][..|written0|];
    TagsGrow(AllTags(written), AllTags(written1), AllTags(written0), cur0, cur1, extra, more);
    assert AllTags(written) + [] == AllTags(written);
  }

  lemma GrownMeans(before: seq<Byte>, off0: nat, written0: seq<Commit>, cur0: seq<Stored>,
                   block: seq<Byte>, off: nat, written: seq<Commit>, cur: seq<Stored>, extra: seq<Stored>)
    requires Grown(before, off0, written0, cur0, block, off, written, cur, extra)
    ensures |written0| <= |written| && written[..|written0|] == written0
    ensures cur == [] ==> AllTags(written) == AllTags(written0) + cur0 + extra
    ensures Bookkeeping(extra) && off0 <= off <= |block| == |before|
    ensures SamePrefix(before, block, off0) && block[off..] == before[off..]
  {
    assert AllTags(written) + [] == AllTags(written);
  }

  lemma FreshProgress(block: seq<Byte>, rev: bv32)
    requires |block| >= 4 && block[0..4] == Bytes32(rev)
    ensures Progress(block, [], [], 4, START, Crc(0xffff_ffff, Bytes32(rev))) && LE32At(block, 0) == rev
  {
    hide Crc, Pack, Bytes32, Reads, Linked;
    PackBytes32(rev);
    EmptyChain(block, FIRST);
  }

  lemma PatchTwice(s: seq<Byte>, off: nat, a: seq<Byte>, b: seq<Byte>)
    requires off + |a| + |b| <= |s|
    ensures Patch(Patch(s, off, a), off + |a|, b) == Patch(s, off, a + b)
    ensures Patch(s, off, a + b)[off..off + |a|] == a
  {
    var r := Patch(s, off, a + b);
    assert Patch(Patch(s, off, a), off + |a|, b) == r;
    assert r[off..off + |a|] == r[off..off + |a + b|][..|a|];
  }

  /** The checksum of the bytes from `begin` up to `off` is `sum`, stored at `off`. */
  predicate Checksummed(block: seq<Byte>, begin: nat, off: nat, sum: bv32) {
    && begin <= off && off + 4 <= |block|
    && Crc(0xffff_ffff, block[begin..off]) == sum && block[off..off + 4] == Bytes32(sum)
  }

  lemma PatchEnds(s: seq<Byte>, off: nat, a: seq<Byte>, b: seq<Byte>)
    requires off + |a| + |b| <= |s|
    ensures var r := Patch(s, off, a + b);
            && r[off + |a|..off + |a| + |b|] == b && r[off + |a| + |b|..] == s[off + |a| + |b|..]
  {
    var r := Patch(s, off, a + b);
    assert r[off + |a|..off + |a| + |b|] == r[off..off + |a + b|][|a|..];
  }

  lemma ClosedSum(block: seq<Byte>, written: seq<Commit>, cur: seq<Stored>,
                  off: nat, ptag: bv32, crc: bv32, sum: bv32)
    requires Progress(block, written, cur, off, ptag, crc) && off + 8 <= |block|
    requires sum == Crc(crc, block[off..off + 4]) && block[off + 4..off + 8] == Bytes32(sum)
    ensures Checksummed(block, At(written, |written|).begin, off + 4, sum)
  {
    hide Crc, Bytes32, Written, Chain;
    CrcGrows(block, At(written, |written|).begin, off, off + 4);
  }

  lemma PatchParts(s: seq<Byte>, off: nat, a: seq<Byte>, b: seq<Byte>, c: seq<Byte>)
    requires |a| == |b| == |c| == 4 && off + 12 <= |s|
    ensures
      var r := Patch(s, off, a + (b + c));
      && r[off + 4..off + 8] == b && r[off + 8..off + 12] == c && r[off + 12..] == s[off + 12..]
  {
    PatchTwice(s, off, a, b + c);
    PatchEnds(s, off, a, b + c);
    var r := Patch(s, off, a + (b + c));
    assert r[off + 4..off + 8] == r[off + 4..off + 12][..4];
    assert r[off + 8..off + 12] == r[off + 4..off + 12][4..];
    assert (b + c)[..4] == b && (b + c)[4..] == c;
  }

  lemma Later(a: seq<Byte>, b: seq<Byte>, from: nat, off: nat, n: nat)
    requires |a| == |b| && from <= off && off + n <= |a| && n > 0 && a[from..] == b[from..]
    ensures a[off..off + n] == b[off..off + n] && a[off] == b[off]
  {
    assert a[off..off + n] == a[from..][off - from..][..n] && b[off..off + n] == b[from..][off - from..][..n];
    assert a[off] == a[from..][off - from] && b[off] == b[from..][off - from];
  }

  lemma FcrcStored(before: seq<Byte>, off: nat, tag: seq<Byte>, progWord: bv32, fcrc: bv32, noff: nat, n: nat)
    requires off + CRC_TAGS_SIZE <= noff && noff + n <= |before| && |tag| == 4 && n == progWord as nat > 0
    requires fcrc == Crc(0xffff_ffff, before[noff..noff + n])
    ensures
      var after := Patch(before, off, tag + (Bytes32(progWord) + Bytes32(fcrc)));
      && Announces(after, Stored(off, FCRC_TAG), noff, progWord) && after[noff] == before[noff]
      && after[off + 12..] == before[off + 12..]
  {
    hide Crc, Pack, Bytes32, MkTag, Patch, SamePrefix;
    var after := Patch(before, off, tag + (Bytes32(progWord) + Bytes32(fcrc)));
    PatchParts(before, off, tag, Bytes32(progWord), Bytes32(fcrc));
    Later(before, after, off + 12, noff, n);
    PackBytes32(progWord);
    PackBytes32(fcrc);
  }

  lemma PrefixTrans(a: seq<Byte>, b: seq<Byte>, c: seq<Byte>, n: nat, m: nat)
    requires SamePrefix(a, b, n) && SamePrefix(b, c, m) && n <= m
    ensures SamePrefix(a, c, n)
  {
    assert b[..m][..n] == b[..n] && c[..m][..n] == c[..n];
  }

  lemma ExtraIsBookkeeping(announce: bool, f: Stored, c: Stored)
    requires IsCcrc(c.word) && f.word == FCRC_TAG
    ensures Bookkeeping((if announce then [f] else []) + [c])
  {
    hide IsCcrc, IsFcrc, MkTag;
    FcrcTagFields();
  }

  lemma RoundOpen(middle: seq<Byte>, after: seq<Byte>, written: seq<Commit>, tags: seq<Stored>,
                  cur: seq<Stored>, f: Stored, c: Stored, noff: nat, ptag: bv32, progWord: bv32, size: nat)
    requires Announces(middle, f, noff, progWord) && (progWord as nat) >= 4
    requires SamePrefix(middle, after, f.off + 12) && middle[noff..] == after[noff..]
    requires size < 0x3ff && c.word == CcrcTag(middle[noff], size) && ptag == Perturb(c.word)
    requires AllTags(written) == tags + (cur + [f] + [c])
    ensures OpenEnded(after, written, noff, ptag, progWord)
  {
    hide Crc, Perturb, AllTags, CcrcTag, IsCcrc, IsValid, TypeOf, Flip, OpenEnded, TagAt, LE32At, MkTag;
    AnnouncesFrame(middle, after, f, noff, progWord);
    assert after[noff] == middle[noff] by { assert after[noff..][0] == middle[noff..][0]; }
    ErasedIsInvalid(after, noff, c.word);
    assert AllTags(written) == tags + cur + [f] + [c];
    IsOpenEnded(after, written, tags + cur, f, c, noff, ptag, progWord);
  }

  lemma SumFrame(a: seq<Byte>, b: seq<Byte>, begin: nat, at: nat, sum: bv32, n: nat)
    requires Checksummed(a, begin, at, sum) && SamePrefix(a, b, n) && at + 4 <= n
    ensures Checksummed(b, begin, at, sum)
  {
    hide Crc, Bytes32;
    SameSlice(a, b, n, begin, at);
    SameSlice(a, b, n, at, at + 4);
  }

  lemma SumIsGood(block: seq<Byte>, begin: nat, at: nat, sum: bv32)
    requires Checksummed(block, begin, at, sum)
    ensures begin <= at && at + 4 <= |block|
    ensures Crc(0xffff_ffff, block[begin..at]) == sum && Crc(sum, block[at..at + 4]) == 0
  {
    hide Crc, Bytes32;
    Residue(0xffff_ffff, block[begin..at]);
    CrcConcat(0xffff_ffff, block[begin..at], Bytes32(sum));
  }

  lemma StopsHere(block: seq<Byte>, written: seq<Commit>, off: nat, ptag: bv32, crc: bv32, progWord: bv32)
    requires Progress(block, written, [], off, ptag, crc)
    requires off < |block| ==> OpenEnded(block, written, off, ptag, progWord)
    ensures Commits(block) == written
  {
    hide Written, Crc, Commits, IsValid, TagAt, ForwardOf;
    WrittenIsAll(block, written);
  }

  lemma TagsGrow(now: seq<Stored>, last: seq<Stored>, first: seq<Stored>, cur: seq<Stored>, curLast: seq<Stored>,
                 extra: seq<Stored>, more: seq<Stored>)
    requires last + curLast == first + cur + extra && now == last + curLast + more
    ensures now == first + cur + (extra + more)
  {
  }

  /** A commit in progress: where it is in the block, the tag before, and the checksum so far. */
  class Writer {
    const block: array<Byte>
    const progWord: bv32
    var begin: nat
    var off: nat
    var ptag: bv32
    var crc: bv32
    ghost var written: seq<Commit>
    ghost var cur: seq<Stored>

    function ProgSize(): nat { progWord as nat }

    ghost predicate Valid()
      reads this, block
    {
      && ProgSize() >= 4 && block.Length % ProgSize() == 0
      && Progress(block[..], written, cur, off, ptag, crc)
      && begin == At(written, |written|).begin
    }

    /** Continues a block behind its last commit. */
    constructor Append(block: array<Byte>, progWord: bv32, off: nat, etag: bv32, ghost done: seq<Commit>)
      requires (progWord as nat) >= 4 && block.Length % (progWord as nat) == 0
      requires Written(block[..], done) && done != [] && off == EndOff(done) && etag == EndTag(done)
      ensures Valid() && this.block == block && this.progWord == progWord
      ensures written == done && cur == [] && this.off == off && ptag == etag
    {
      this.block, this.progWord, this.off, ptag, crc := block, progWord, off, etag, 0xffff_ffff;
      written, cur, begin := done, [], off;
      new;
      hide Crc, Reads;
      WrittenEnds(block[..], done, |done| - 1);
      CrcOfNothing(0xffff_ffff);
      assert block[..][off..off] == [];
    }

    /** Erases a block and starts it with a revision count. */
    constructor Compact(block: array<Byte>, progWord: bv32, rev: bv32)
      requires (progWord as nat) >= 4 && block.Length % (progWord as nat) == 0 && block.Length >= 4
      modifies block
      ensures Valid() && this.block == block && this.progWord == progWord
      ensures written == [] && cur == [] && this.off == 4 && ptag == START
      ensures LE32At(block[..], 0) == rev && forall i :: 4 <= i < block.Length ==> block[i] == 0xff
    {
      this.block, this.progWord, off, ptag, crc := block, progWord, 0, START, 0xffff_ffff;
      written, cur, begin := [], [], 0;
      new;
      hide Crc, Bytes32, Progress, LE32At;
      forall i | 0 <= i < block.Length { block[i] := 0xff; }
      Prog(Bytes32(rev));
      assert forall i :: 4 <= i < block.Length ==> block[i] == block[..][4..][i - 4];
      FreshProgress(block[..], rev);
    }

    method Prog(bytes: seq<Byte>)
      requires off + |bytes| <= block.Length
      modifies this`off, this`crc, block
      ensures block[..] == Patch(old(block[..]), old(off), bytes)
      ensures off == old(off) + |bytes| && crc == Crc(old(crc), bytes)
    {
      hide Crc;
      forall i | 0 <= i < |bytes| { block[off + i] := bytes[i]; }
      crc := Compute(crc, bytes);
      off := off + |bytes|;
    }

    /** Writes one tag and its data, if there is room left for a CRC. */
    method CommitAttr(tag: bv32, data: seq<Byte>) returns (ok: bool)
      requires Valid() && IsValid(tag) && !IsCcrc(tag) && LongEnough(tag) && |data| == DSize(tag) - 4
      modifies this, block
      ensures Valid() && written == old(written)
      ensures ok <==> old(off) + DSize(tag) <= block.Length - 8
      ensures !ok ==> block[..] == old(block[..]) && off == old(off) && cur == old(cur) && ptag == old(ptag)
      ensures ok ==> cur == old(cur) + [Stored(old(off), tag)] && off == old(off) + DSize(tag) && ptag == tag
      ensures ok ==> block[..] == Patch(old(block[..]), old(off), Stowed(tag, old(ptag)) + data)
    {
      hide Progress, Crc, IsValid, IsCcrc, LongEnough, DSize, Stowed;
      if off + DSize(tag) > block.Length - 8 {
        return false;
      }
      ghost var before, off0, ptag0, crc0 := block[..], off, ptag, crc;
      Prog(Stowed(tag, ptag));
      ghost var middle := block[..];
      Prog(data);
      ptag := tag;
      ghost var after := block[..];
      PatchTwice(before, off0, Stowed(tag, ptag0), data);
      ProgressFrame(before, after, written, cur, off0, ptag0, crc0);
      CrcConcat(crc0, Stowed(tag, ptag0), data);
      ProgressTag(after, written, cur, off0, ptag0, crc0, tag);
      cur := cur + [Stored(off0, tag)];
      return true;
    }

    /** Commits, in front of the CRC, to what the erased space at `noff` looks like. */
    method AnnounceErased(noff: nat) returns (e: Byte, ghost f: Stored)
      requires Valid() && off + CRC_TAGS_SIZE <= noff && noff + ProgSize() <= block.Length
      modifies this, block
      ensures Valid() && written == old(written) && cur == old(cur) + [f] && off == old(off) + 12
      ensures e == block[noff] && Announces(block[..], f, noff, progWord) && f == Stored(old(off), FCRC_TAG)
      ensures SamePrefix(old(block[..]), block[..], old(off))
      ensures block[off..] == old(block[..])[old(off) + 12..]
    {
      hide Progress, Crc, MkTag, Stowed, Pack, Bytes32, Announces, DSize, IsValid, IsCcrc, LongEnough;
      ghost var before, off0, ptag0 := block[..], off, ptag;
      f := Stored(off, FCRC_TAG);
      // whatever it is, the next tag can start with its opposite valid bit
      e := block[noff];
      var fcrc := Compute(0xffff_ffff, block[noff..noff + ProgSize()]);
      FcrcTagFields();
      var data := Bytes32(progWord) + Bytes32(fcrc);
      var ok := CommitAttr(FCRC_TAG, data);
      FcrcStored(before, off0, Stowed(FCRC_TAG, ptag0), progWord, fcrc, noff, progWord as nat);
    }

    /** Writes the tag and checksum that close the commit and reach up to `noff`. */
    method Close(noff: nat, e: Byte) returns (sum: bv32)
      requires Valid() && off + 8 <= noff <= block.Length && noff - off - 4 <= 0x3fe
      modifies this, block
      ensures Valid() && cur == [] && off == noff
      ensures
        var tag := CcrcTag(e, noff - old(off) - 4);
        && ptag == Perturb(tag)
        && written == old(written) + [Commit(old(cur) + [Stored(old(off), tag)], noff, ptag)]
      ensures SamePrefix(old(block[..]), block[..], old(off))
      ensures block[noff..] == old(block[..])[noff..]
      ensures Checksummed(block[..], At(old(written), |old(written)|).begin, old(off) + 4, sum)
    {
      hide Progress, Crc, MkTag, Stowed, Pack, Bytes32, Perturb, Flip, PerturbBy, IsCcrc, IsValid, TypeOf, SizeOf,
        CcrcTag, Checksummed, Reads, DSize;
      ghost var before, off0, ptag0, crc0 := block[..], off, ptag, crc;
      var ntag := CcrcTag(e, noff - (off + 4));
      Prog(Stowed(ntag, ptag));
      sum := crc;
      Prog(Bytes32(sum));
      ghost var after := block[..];
      PatchTwice(before, off0, Stowed(ntag, ptag0), Bytes32(sum));
      PatchEnds(before, off0, Stowed(ntag, ptag0), Bytes32(sum));
      ProgressFrame(before, after, written, cur, off0, ptag0, crc0);
      ClosedReads(after, written, cur, off0, ptag0, crc0, ntag);
      ProgressClose(after, written, cur, off0, ptag0, crc0, ntag);
      ClosedSum(after, written, cur, off0, ptag0, crc0, sum);
      assert block[noff..] == after[off0 + 8..][noff - off0 - 8..];
      PerturbByIs(ntag, e);
      written := written + [Commit(cur + [Stored(off0, ntag)], noff, Perturb(ntag))];
      cur := [];
      off, begin := noff, noff;
      // the next tag is read with its valid bit inverted, if need be
      ptag := PerturbBy(ntag, e);
      // the next commit starts its own checksum
      crc := 0xffff_ffff;
    }

    /** One round of closing: a forward CRC if this is the last one and erased space follows,
        then the tag and checksum. */
    method CloseRound(noff: nat, announce: bool) returns (at: nat, sum: bv32, ghost extra: seq<Stored>)
      requires Valid() && off + 8 <= noff <= block.Length && noff - off - 4 <= 0x3fe
      requires announce ==> off + CRC_TAGS_SIZE <= noff && noff + ProgSize() <= block.Length
      modifies this, block
      ensures Valid() && cur == [] && off == noff
      ensures |written| == |old(written)| + 1 && written[..|old(written)|] == old(written)
      ensures AllTags(written) == AllTags(old(written)) + old(cur) + extra && Bookkeeping(extra)
      ensures old(cur) < written[|old(written)|].tags
      ensures SamePrefix(old(block[..]), block[..], old(off)) && block[noff..] == old(block[..])[noff..]
      ensures announce ==> OpenEnded(block[..], written, off, ptag, progWord)
      ensures old(off) + 4 <= at && at + 4 <= off
      ensures Checksummed(block[..], old(begin), at, sum)
    {
      hide Progress, Crc, OpenEnded, Announces, Perturb, AllTags, Checksummed, CcrcTag, DSize, IsCcrc, IsFcrc,
        IsValid, TypeOf, SizeOf, Flip, SamePrefix, Bookkeeping, MkTag;
      ghost var before, off0, written0, cur0 := block[..], off, written, cur;
      extra := [];
      var e: Byte := 0xff;
      ghost var f := Stored(0, FCRC_TAG);
      if announce {
        e, f := AnnounceErased(noff);
        extra := [f];
        assert block[noff..] == block[off..][noff - off..] == before[off0 + 12..][noff - off..];
      }
      assert cur == cur0 + extra;
      ghost var middle, at0 := block[..], off;
      at := off + 4;
      sum := Close(noff, e);
      ghost var c := Stored(at0, CcrcTag(e, noff - at0 - 4));
      AllTagsAppend(written0, Commit(cur0 + extra + [c], noff, ptag));
      PrefixTrans(before, middle, block[..], off0, at0);
      if announce {
        RoundOpen(middle, block[..], written, AllTags(written0), cur0, f, c, noff, ptag, progWord, noff - at0 - 4);
      }
      extra := extra + [c];
      ExtraIsBookkeeping(announce, f, c);
      assert cur0 + [f] + [c] == cur0 + ([f] + [c]) && cur0 + [] + [c] == cur0 + ([] + [c]);
      assert AllTags(written0) + (cur0 + extra) == AllTags(written0) + cur0 + extra;
    }

    /** One tag and checksum further towards the end; the first checksum is remembered. */
    method CloseNext(end: nat, begin0: nat, at: nat, sum: bv32, ghost before: seq<Byte>, ghost off0: nat,
                     ghost written0: seq<Commit>, ghost cur0: seq<Stored>, ghost extra: seq<Stored>)
      returns (at': nat, sum': bv32, ghost more: seq<Stored>)
      requires Valid() && off < end <= block.Length && end % ProgSize() == 0
      requires off + 8 <= end && (off + CRC_TAGS_SIZE <= end || end == block.Length)
      requires Grown(before, off0, written0, cur0, block[..], off, written, cur, extra)
      requires if at == 0 then begin == begin0 else at + 4 <= off && Checksummed(block[..], begin0, at, sum)
      modifies this, block
      ensures Valid() && cur == [] && old(off) < off <= end
      ensures |written| == |old(written)| + 1 && written[..|old(written)|] == old(written)
      ensures old(cur) < written[|old(written)|].tags
      ensures off < end ==> off + CRC_TAGS_SIZE <= end
      ensures Grown(before, off0, written0, cur0, block[..], off, written, cur, extra + more)
      ensures at' > 0 && at' + 4 <= off && Checksummed(block[..], begin0, at', sum')
      ensures off == end && off < block.Length ==> OpenEnded(block[..], written, off, ptag, progWord)
    {
      hide Progress, OpenEnded, AllTags, Checksummed, Grown, NextEnd, Bookkeeping, SamePrefix;
      var noff := NextEnd(off, end);
      // only the last round announces, and only if a unit follows
      var announce := noff >= end && noff + ProgSize() <= block.Length;
      NextEndFits(off, end, block.Length, ProgSize());
      ghost var now, off1, written1, cur1 := block[..], off, written, cur;
      at', sum', more := CloseRound(noff, announce);
      GrowOn(before, off0, written0, cur0, now, off1, written1, cur1, extra, block[..], off, written, more);
      // the first checksum is the one to check in the end
      if at != 0 {
        SumFrame(now, block[..], begin0, at, sum, off1);
        at', sum' := at, sum;
      }
    }

    /** Closes the commit, with commits of nothing but a CRC where one CRC tag cannot reach
        the next program unit, and reads it back to see that it is good. */
    method CommitCrc() returns (good: bool, ghost extra: seq<Stored>)
      requires Valid() && off + 8 <= block.Length
      modifies this, block
      ensures Valid() && cur == [] && good
      ensures off == AlignUp(Min(old(off) + CRC_TAGS_SIZE, block.Length), ProgSize())
      ensures |old(written)| < |written| && written[..|old(written)|] == old(written)
      ensures AllTags(written) == AllTags(old(written)) + old(cur) + extra && Bookkeeping(extra)
      ensures SamePrefix(old(block[..]), block[..], old(off)) && block[off..] == old(block[..])[off..]
      ensures old(cur) < written[|old(written)|].tags
      ensures Commits(block[..]) == written
      ensures off < block.Length ==> OpenEnded(block[..], written, off, ptag, progWord)
    {
      hide Progress, Crc, OpenEnded, AllTags, Checksummed, AlignUp, Commits, Grown, NextEnd, Bookkeeping, SamePrefix;
      ghost var before, off0, written0, cur0 := block[..], off, written, cur;
      var begin0 := begin;
      var end := AlignUp(Min(off + CRC_TAGS_SIZE, block.Length), ProgSize());
      AlignUpAtMost(Min(off + CRC_TAGS_SIZE, block.Length), block.Length, ProgSize());
      var at: nat, sum := 0, 0;
      extra := [];
      StartGrown(before, off0, written0, cur0);
      while off < end
        invariant Valid() && off0 <= off <= end <= block.Length && |written0| <= |written|
        invariant off < end ==> off + 8 <= end && (off + CRC_TAGS_SIZE <= end || end == block.Length)
        invariant Grown(before, off0, written0, cur0, block[..], off, written, cur, extra)
        invariant if at == 0 then off == off0 && begin == begin0 && cur == cur0 && written == written0
                  else cur == [] && |written0| < |written| && at + 4 <= off
                       && cur0 < written[|written0|].tags && Checksummed(block[..], begin0, at, sum)
        invariant off == end && off < block.Length ==> OpenEnded(block[..], written, off, ptag, progWord)
      {
        ghost var written1 := written;
        var at', sum', more := CloseNext(end, begin0, at, sum, before, off0, written0, cur0, extra);
        assert |written0| < |written1| ==> written[|written0|] == written[..|written1|][|written0|];
        at, sum := at', sum';
        extra := extra + more;
      }
      GrownMeans(before, off0, written0, cur0, block[..], off, written, cur, extra);
      StopsHere(block[..], written, off, ptag, crc, progWord);
      // the first checksum must still be what was computed, and what is stored behind the bytes
      SumIsGood(block[..], begin0, at, sum);
      var sum' := Compute(0xffff_ffff, block[begin0..at]);
      if sum' != sum {
        return false, extra;
      }
      sum' := Compute(sum', block[at..at + 4]);
      good := sum' == 0;
    }
  }
}
