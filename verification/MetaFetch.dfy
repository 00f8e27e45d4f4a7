/** Fetching one block of a metadata pair: a single pass over the tags that checks every
    commit, counts the entries, and finds out whether more can be appended. */
module MetaFetch {
  import opened Wrappers
  import opened Bytes
  import opened Crc32
  import opened MetaLog
  import opened TagWord
  import opened MetaBlock

  predicate OfType(w: bv32, mask: bv11, ty: bv11) { TypeOf(w) & mask == ty }

  /** The last tag whose type, under a mask, is `ty`. */
  function LastOf(tags: seq<Stored>, mask: bv11, ty: bv11): Option<Stored> {
    if tags == [] then None
    else if OfType(tags[|tags| - 1].word, mask, ty) then Some(tags[|tags| - 1])
    else LastOf(tags[..|tags| - 1], mask, ty)
  }

  lemma LastOfAppend(tags: seq<Stored>, t: Stored, mask: bv11, ty: bv11)
    ensures LastOf(tags + [t], mask, ty)
         == if OfType(t.word, mask, ty) then Some(t) else LastOf(tags, mask, ty)
  {
    hide OfType;
    assert (tags + [t])[..|tags|] == tags;
  }

  const ALL: bv11 := 0x7ff

  datatype Tail = Tail(split: bool, pair: seq<Byte>)

  const NULL_TAIL := Tail(false, [0xff, 0xff, 0xff, 0xff, 0xff, 0xff, 0xff, 0xff])

  /** The tail a log names last. */
  function TailOf(block: seq<Byte>, tags: seq<Stored>): Tail {
    match LastOf(tags, TYPE1, TAIL)
    case Some(t) =>
      if t.off + 12 <= |block| then Tail(SplitBit(t.word), block[t.off + 4..t.off + 12])
      else NULL_TAIL
    case None => NULL_TAIL
  }

  /** A directory as a fetch leaves it in memory. */
  datatype Mdir = Mdir(off: nat, etag: bv32, count: nat, tail: Tail, erased: bool)

  /** The checksum announced for what follows the commit: a size and a CRC. */
  function ForwardCrc(block: seq<Byte>, off: nat, size: nat): bv32
    requires off <= |block|
  {
    // reading stops at the end of the block
    var n := if off + size <= |block| then size else (|block| - off) / 8 * 8;
    Crc(0xffff_ffff, block[off..off + n])
  }

  /** The size and checksum that the last forward-CRC tag announces. */
  function ForwardOf(block: seq<Byte>, tags: seq<Stored>): Option<(nat, bv32)> {
    match LastOf(tags, ALL, FCRC)
    case Some(t) =>
      if t.off + 12 <= |block| then Some((LE32At(block, t.off + 4) as nat, LE32At(block, t.off + 8)))
      else None
    case None => None
  }

  predicate StillErased(block: seq<Byte>, off: nat, forward: Option<(nat, bv32)>) {
    forward.Some? && off <= |block| && ForwardCrc(block, off, forward.value.0) == forward.value.1
  }

  /** After the last commit there is no tag, at the start of a program unit, and the bytes
      there are what they were when the commit announced them. */
  ghost predicate CanAppend(block: seq<Byte>, progSize: nat, commits: seq<Commit>)
    requires progSize > 0
  {
    && commits != [] && EndOff(commits) + 4 <= |block|
    && !IsValid(TagAt(block, EndOff(commits), EndTag(commits)))
    && EndOff(commits) % progSize == 0
    && StillErased(block, EndOff(commits), ForwardOf(block, AllTags(commits)))
  }

  /** The number of entries, kept up to date tag by tag in sixteen bits. */
  function CountTag(count: nat, w: bv32): nat {
    if OfType(w, TYPE1, NAME) then
      if IdOf(w) >= count then (IdOf(w) + 1) % 0x1_0000 else count
    else if OfType(w, TYPE1, SPLICE) then (count + SpliceOf(TypeOf(w))) % 0x1_0000
    else count
  }

  /** One tag changes the number of entries as its type and id say. */
  lemma CountOfApply(log: seq<Tag>)
    requires log != [] && WellFormed(log)
    ensures
      var n, t := Replay(EMPTY_DIR, log[..|log| - 1]).count, log[|log| - 1];
      && 0 <= n <= MAX_ENTRIES
      && Replay(EMPTY_DIR, log).count ==
           (if t.ty & TYPE1 == NAME then (if t.id >= n then t.id + 1 else n)
            else if t.ty & TYPE1 == SPLICE then n + SpliceOf(t.ty) else n)
      && 0 <= Replay(EMPTY_DIR, log).count <= MAX_ENTRIES
  {
    hide IsAttr, SpliceOf;
    CountIsEntries(log[..|log| - 1]);
    CountIsEntries(log);
    Splices();
    Kinds(log[|log| - 1].ty);
  }

  lemma WellFormedInit(log: seq<Tag>)
    requires log != [] && WellFormed(log)
    ensures WellFormed(log[..|log| - 1])
  {
  }

  lemma CountTagIsApply(block: seq<Byte>, tags: seq<Stored>, t: Stored, count: nat)
    requires AllIn(block, tags + [t])
    requires AllIn(block, tags) && WellFormed(Log(block, tags + [t]))
    requires WellFormed(Log(block, tags)) ==> count == Replay(EMPTY_DIR, Log(block, tags)).count
    ensures CountTag(count, t.word) == Replay(EMPTY_DIR, Log(block, tags + [t])).count
  {
    hide Replay, WellFormed, SpliceOf, TypeOf, IdBits, DSize, SizeOf, IsDelete;
    var log := Log(block, tags + [t]);
    assert log[|log| - 1] == t.ToTag(block);
    assert log[..|log| - 1] == Log(block, tags);
    WellFormedInit(log);
    CountOfApply(log);
  }

  lemma Kinds(ty: bv11)
    ensures ty & TYPE1 == NAME ==> IsAttr(ty)
    ensures ty & TYPE1 == SPLICE ==> !IsAttr(ty)
    ensures ty == CREATE || ty == DELETE ==> ty & TYPE1 == SPLICE
  {
  }

  // ---- The pass over the tags ----

  /** What the pass has learnt from the tags so far. */
  datatype Notes = Notes(count: nat, tail: Tail, forward: Option<(nat, bv32)>)

  ghost predicate Learnt(block: seq<Byte>, tags: seq<Stored>, n: Notes) {
    && AllIn(block, tags)
    && (WellFormed(Log(block, tags)) ==> n.count == Replay(EMPTY_DIR, Log(block, tags)).count)
    && n.tail == TailOf(block, tags)
    && n.forward == ForwardOf(block, tags)
  }

  method Note(block: seq<Byte>, ghost tags: seq<Stored>, t: Stored, n: Notes) returns (m: Notes)
    requires Learnt(block, tags, n) && t.off + Extent(t.word) <= |block|
    ensures Learnt(block, tags + [t], m)
  {
    hide Replay, WellFormed, LastOf, TypeOf, DSize, OfType, CountTag, IsCcrc, LE32At;
    var w, off := t.word, t.off;
    TypeTests(w);
    m := n.(count := CountTag(n.count, w));
    if OfType(w, TYPE1, TAIL) {
      m := m.(tail := Tail(SplitBit(w), block[off + 4..off + 12]));
    } else if OfType(w, ALL, FCRC) {
      m := m.(forward := Some((LE32At(block, off + 4) as nat, LE32At(block, off + 8))));
    }
    assert t.In(block) by { assert Extent(w) >= DSize(w); }
    if WellFormed(Log(block, tags + [t])) { CountTagIsApply(block, tags, t, n.count); }
    LastOfAppend(tags, t, TYPE1, TAIL);
    LastOfAppend(tags, t, ALL, FCRC);
  }

  /** The tag that closes a commit changes nothing. */
  lemma CcrcTeachesNothing(block: seq<Byte>, tags: seq<Stored>, t: Stored, n: Notes)
    requires Learnt(block, tags, n) && t.off + Extent(t.word) <= |block| && IsCcrc(t.word)
    ensures Learnt(block, tags + [t], n)
  {
    hide Replay, WellFormed, LastOf, DSize, LE32At;
    var w := t.word;
    TypeTests(w);
    CcrcType(TypeOf(w));
    assert t.In(block) by { assert Extent(w) >= DSize(w); }
    if WellFormed(Log(block, tags + [t])) {
      CountTagIsApply(block, tags, t, n.count);
      assert CountTag(n.count, w) == n.count;
    }
    LastOfAppend(tags, t, TYPE1, TAIL);
    LastOfAppend(tags, t, ALL, FCRC);
  }

  lemma CcrcType(ty: bv11)
    requires ty & TYPE2 == CCRC
    ensures ty & TYPE1 != NAME && ty & TYPE1 != SPLICE && ty & TYPE1 != TAIL && ty != FCRC
  {
  }

  predicate SplitBit(w: bv32) { TypeOf(w) & 1 == 1 }

  lemma TypeTests(w: bv32)
    ensures OfType(w, TYPE1, TAIL) == IsTail(w) && OfType(w, ALL, FCRC) == IsFcrc(w)
    ensures !(IsTail(w) && IsFcrc(w))
    ensures IsTail(w) || IsFcrc(w) ==> Extent(w) >= 12
  {
    hide TypeOf, DSize;
    TypeTest(TypeOf(w));
  }

  lemma TypeTest(ty: bv11)
    ensures ty & ALL == ty && !(ty & TYPE1 == TAIL && ty == FCRC)
    ensures ty & TYPE1 == TAIL || ty == FCRC ==> ty & TYPE2 != CCRC
  {
  }

  // ---- Where the pass stands ----

  /** After whole commits `done` and tags `cur` of the next one, the pass is at `next`. */
  ghost predicate Midway(block: seq<Byte>, done: seq<Commit>, cur: seq<Stored>, next: nat, ptag: bv32) {
    && FirstCommits(block, done) && EndOff(done) <= next
    && AllIn(block, AllTags(done) + cur)
    && (cur == [] ==> next == EndOff(done) && ptag == EndTag(done))
    && (cur != [] ==> EndOff(done) + 4 <= |block| && IsValid(TagAt(block, EndOff(done), EndTag(done))))
    && ReadCommit(block, Begin(done), EndOff(done), EndTag(done))
       == Prefixed(cur, ReadCommit(block, Begin(done), next, ptag))
    && IsCcrc(ptag) == (cur == [] && done != [])
  }

  lemma MidwayStart(block: seq<Byte>)
    ensures Midway(block, [], [], 4, START)
  {
    hide ReadCommit;
    assert [] + ReadCommits(block, 0, 4, START) == Commits(block);
    StartIsNoCcrc();
    var c := ReadCommit(block, 0, 4, START);
    assert Prefixed([], c) == c by { if c.Some? { assert [] + c.value.tags == c.value.tags; } }
  }

  lemma StartIsNoCcrc()
    ensures !IsCcrc(START)
  {
  }

  lemma StartSize()
    ensures DSize(START) == 4
  {
  }

  lemma MidwayTag(block: seq<Byte>, done: seq<Commit>, cur: seq<Stored>, next: nat, ptag: bv32)
    requires Midway(block, done, cur, next, ptag) && Readable(block, next, ptag)
    requires !IsCcrc(TagAt(block, next, ptag))
    ensures
      var tag := TagAt(block, next, ptag);
      && Midway(block, done, cur + [Stored(next, tag)], next + DSize(tag), tag)
      && AllTags(done) + cur + [Stored(next, tag)] == AllTags(done) + (cur + [Stored(next, tag)])
  {
    hide IsCcrc, DSize, TagAt, Extent, IsValid, FirstCommits, AllTags;
    var tag := TagAt(block, next, ptag);
    var here := Stored(next, tag);
    assert here.In(block) by { assert Extent(tag) >= DSize(tag); }
    var rest := ReadCommit(block, Begin(done), next + DSize(tag), tag);
    if rest.Some? {
      assert cur + ([here] + rest.value.tags) == cur + [here] + rest.value.tags;
    }
    assert Prefixed(cur, ReadCommit(block, Begin(done), next, ptag)) == Prefixed(cur + [here], rest);
    assert AllTags(done) + cur + [here] == AllTags(done) + (cur + [here]);
  }

  lemma PerturbType(w: bv32)
    ensures IsCcrc(Perturb(w)) == IsCcrc(w)
  {
    TopBitType(w);
  }

  lemma TopBitType(w: bv32)
    ensures TypeOf(Xor(w, 0x8000_0000)) == TypeOf(w)
  {
  }

  lemma MidwayCommit(block: seq<Byte>, done: seq<Commit>, cur: seq<Stored>, next: nat, ptag: bv32)
    returns (done': seq<Commit>)
    requires Midway(block, done, cur, next, ptag) && Readable(block, next, ptag)
    requires var tag := TagAt(block, next, ptag);
             IsCcrc(tag) && next + 8 <= |block| && CrcMatches(block, Begin(done), next)
    ensures
      var tag := TagAt(block, next, ptag);
      && Midway(block, done', [], next + DSize(tag), Perturb(tag))
      && done' != [] && EndOff(done') == next + DSize(tag) && EndTag(done') == Perturb(tag)
      && AllTags(done') == AllTags(done) + cur + [Stored(next, tag)]
  {
    hide IsCcrc, DSize, TagAt, Extent, IsValid, CrcMatches, Perturb, FirstCommits, AllTags, ReadCommits;
    var tag := TagAt(block, next, ptag);
    var here := Stored(next, tag);
    assert here.In(block) by { assert Extent(tag) >= DSize(tag); }
    var c := Commit(cur + [here], next + DSize(tag), Perturb(tag));
    done' := done + [c];
    NextCommit(block, done);
    AllTagsAppend(done, c);
    assert AllTags(done) + (cur + [here]) == AllTags(done) + cur + [here];
    PerturbType(tag);
    var r := ReadCommit(block, c.off, c.off, c.ptag);
    assert Prefixed([], r) == r by { if r.Some? { assert [] + r.value.tags == r.value.tags; } }
  }

  lemma MidwayStop(block: seq<Byte>, done: seq<Commit>, cur: seq<Stored>, next: nat, ptag: bv32)
    requires Midway(block, done, cur, next, ptag)
    requires Readable(block, next, ptag) ==>
               var tag := TagAt(block, next, ptag);
               IsCcrc(tag) && (next + 8 <= |block| ==> !CrcMatches(block, Begin(done), next))
    ensures Commits(block) == done
  {
    hide IsCcrc, TagAt, IsValid, CrcMatches, Commits;
    assert ReadCommit(block, Begin(done), next, ptag) == None;
  }

  lemma CrcGrows(block: seq<Byte>, begin: nat, a: nat, b: nat)
    requires begin <= a <= b <= |block|
    ensures Crc(Crc(0xffff_ffff, block[begin..a]), block[a..b]) == Crc(0xffff_ffff, block[begin..b])
  {
    assert block[begin..a] + block[a..b] == block[begin..b];
    CrcConcat(0xffff_ffff, block[begin..a], block[a..b]);
  }

  /** Whether the pass, having stopped in front of an invalid tag, is at the end of a commit. */
  lemma StoppedErased(block: seq<Byte>, done: seq<Commit>, cur: seq<Stored>, next: nat, ptag: bv32)
    requires Midway(block, done, cur, next, ptag)
    requires next + 4 <= |block| && !IsValid(TagAt(block, next, ptag))
    ensures IsCcrc(ptag) ==
            (done != [] && EndOff(done) + 4 <= |block| && !IsValid(TagAt(block, EndOff(done), EndTag(done))))
  {
    hide IsCcrc, TagAt, IsValid, ReadCommit, FirstCommits;
  }

  lemma StoppedElsewhere(block: seq<Byte>, done: seq<Commit>, cur: seq<Stored>, next: nat, ptag: bv32)
    requires Midway(block, done, cur, next, ptag)
    requires next + 4 > |block| || IsValid(TagAt(block, next, ptag))
    ensures !(EndOff(done) + 4 <= |block| && !IsValid(TagAt(block, EndOff(done), EndTag(done))))
  {
    hide IsCcrc, TagAt, IsValid, ReadCommit, FirstCommits;
  }

  /** What a block holds, as far as its commits are valid. */
  ghost predicate Fetched(block: seq<Byte>, progSize: nat, r: Option<Mdir>)
    requires progSize > 0
  {
    var all := Commits(block);
    && (r.None? <==> all == [])
    && (r.Some? ==>
          && r.value.off == EndOff(all) && r.value.etag == EndTag(all)
          && r.value.tail == TailOf(block, AllTags(all))
          && r.value.erased == CanAppend(block, progSize, all)
          && (WellFormed(LogOf(block)) ==>
                r.value.count == |Replay(EMPTY_DIR, LogOf(block)).entries|))
  }

  /** The last valid commit was noted down. */
  ghost predicate Kept(block: seq<Byte>, done: seq<Commit>, d: Mdir) {
    && d.off == EndOff(done) && d.etag == EndTag(done)
    && Learnt(block, AllTags(done), Notes(d.count, d.tail, ForwardOf(block, AllTags(done))))
  }

  lemma IsFetched(block: seq<Byte>, progSize: nat, d: Mdir, done: seq<Commit>)
    requires progSize > 0 && Commits(block) == done != [] && Kept(block, done, d)
    requires d.erased == CanAppend(block, progSize, done)
    ensures Fetched(block, progSize, Some(d))
  {
    hide Replay, WellFormed, Commits, CanAppend, TailOf, AllTags;
    if WellFormed(LogOf(block)) { CountIsEntries(LogOf(block)); }
  }

  /** Did the pass end on a valid commit? Then the block may still be erased behind it. */
  method CheckErased(block: seq<Byte>, progSize: nat, d: Mdir, maybeErased: bool, notes: Notes,
                     ghost done: seq<Commit>, ghost cur: seq<Stored>) returns (e: Mdir)
    requires progSize > 0 && Commits(block) == done != [] && Kept(block, done, d) && !d.erased
    requires Learnt(block, AllTags(done) + cur, notes) && (maybeErased ==> cur == [])
    requires d.off <= |block|
    requires maybeErased ==
      (EndOff(done) + 4 <= |block| && !IsValid(TagAt(block, EndOff(done), EndTag(done))))
    ensures Fetched(block, progSize, Some(e))
  {
    hide Kept, Crc, Commits, Fetched, Learnt, AllTags, IsValid, TagAt, ForwardOf;
    e := d;
    KeptAt(block, done, d);
    if maybeErased && d.off % progSize == 0 && notes.forward.Some? {
      var (size, expected) := notes.forward.value;
      var n := if d.off + size <= |block| then size else (|block| - d.off) / 8 * 8;
      var fcrc := Compute(0xffff_ffff, block[d.off..d.off + n]);
      e := d.(erased := fcrc == expected);
    }
    if maybeErased { assert AllTags(done) + cur == AllTags(done); }
    ForwardKnown(block, AllTags(done) + cur, notes);
    KeptErased(block, done, d, e.erased);
    IsFetched(block, progSize, e, done);
  }

  lemma KeptAt(block: seq<Byte>, done: seq<Commit>, d: Mdir)
    requires Kept(block, done, d)
    ensures d.off == EndOff(done) && d.etag == EndTag(done)
  {
  }

  lemma KeptErased(block: seq<Byte>, done: seq<Commit>, d: Mdir, erased: bool)
    requires Kept(block, done, d)
    ensures Kept(block, done, d.(erased := erased))
  {
  }

  lemma MidwayOff(block: seq<Byte>, done: seq<Commit>, cur: seq<Stored>, next: nat, ptag: bv32)
    requires Midway(block, done, cur, next, ptag)
    ensures Begin(done) <= EndOff(done) <= next && (IsCcrc(ptag) ==> cur == [])
  {
    hide ReadCommit;
  }

  /** The pass as it arrives at `next`. */
  ghost predicate Scanning(block: seq<Byte>, done: seq<Commit>, cur: seq<Stored>, next: nat, ptag: bv32,
                           notes: Notes, crc: bv32) {
    && Midway(block, done, cur, next, ptag) && next <= |block|
    && Learnt(block, AllTags(done) + cur, notes)
    && Begin(done) <= next && crc == Crc(0xffff_ffff, block[Begin(done)..next])
  }

  lemma ScanStart(block: seq<Byte>)
    requires |block| >= 4
    ensures Scanning(block, [], [], 4, START, Notes(0, NULL_TAIL, None), Crc(0xffff_ffff, block[..4]))
    ensures DSize(START) == 4
  {
    hide ReadCommits, ReadCommit, Crc, Learnt;
    MidwayStart(block);
    FirstNotes(block);
    StartSize();
    assert block[..4] == block[0..4];
  }

  lemma ScanTag(block: seq<Byte>, done: seq<Commit>, cur: seq<Stored>, next: nat, ptag: bv32,
                notes: Notes, crc: bv32, after: Notes, crc': bv32)
    requires Scanning(block, done, cur, next, ptag, notes, crc) && Readable(block, next, ptag)
    requires !IsCcrc(TagAt(block, next, ptag))
    requires Learnt(block, AllTags(done) + cur + [Stored(next, TagAt(block, next, ptag))], after)
    requires next + DSize(TagAt(block, next, ptag)) <= |block|
    requires crc' == Crc(Crc(crc, block[next..next + 4]),
                         block[next + 4..next + DSize(TagAt(block, next, ptag))])
    ensures
      var tag := TagAt(block, next, ptag);
      Scanning(block, done, cur + [Stored(next, tag)], next + DSize(tag), tag, after, crc')
  {
    hide Midway, Learnt, Crc, DSize, IsCcrc, TagAt, Readable;
    var tag := TagAt(block, next, ptag);
    MidwayTag(block, done, cur, next, ptag);
    CrcGrows(block, Begin(done), next, next + 4);
    CrcGrows(block, Begin(done), next + 4, next + DSize(tag));
  }

  lemma ScanCommit(block: seq<Byte>, done: seq<Commit>, cur: seq<Stored>, next: nat, ptag: bv32,
                   notes: Notes, crc: bv32) returns (done': seq<Commit>)
    requires Scanning(block, done, cur, next, ptag, notes, crc) && Readable(block, next, ptag)
    requires IsCcrc(TagAt(block, next, ptag)) && next + 8 <= |block|
    requires Crc(crc, block[next..next + 4]) == LE32At(block, next + 4)
    requires next + Extent(TagAt(block, next, ptag)) <= |block|
    ensures
      var tag := TagAt(block, next, ptag);
      && Scanning(block, done', [], next + DSize(tag), Perturb(tag), notes, 0xffff_ffff)
      && DSize(Perturb(tag)) == DSize(tag) && done' != []
      && Kept(block, done', Mdir(next + DSize(tag), Perturb(tag), notes.count, notes.tail, false))
  {
    hide Midway, Learnt, Crc, DSize, IsCcrc, TagAt, Readable, Perturb, Extent, AllTags, Kept;
    var tag := TagAt(block, next, ptag);
    assert Extent(tag) >= DSize(tag);
    CrcGrows(block, Begin(done), next, next + 4);
    CcrcTeachesNothing(block, AllTags(done) + cur, Stored(next, tag), notes);
    done' := MidwayCommit(block, done, cur, next, ptag);
    PerturbClear(tag);
    assert block[next + DSize(tag)..next + DSize(tag)] == [];
    CrcOfNothing(0xffff_ffff);
    assert AllTags(done') + [] == AllTags(done');
    ForwardKnown(block, AllTags(done'), notes);
    Keep(block, done', notes, Mdir(next + DSize(tag), Perturb(tag), notes.count, notes.tail, false));
  }

  /** Why the pass stopped, and what that says about the block after its last commit. */
  lemma ScanStop(block: seq<Byte>, done: seq<Commit>, cur: seq<Stored>, next: nat, ptag: bv32,
                 notes: Notes, crc: bv32)
    requires Scanning(block, done, cur, next, ptag, notes, crc)
    requires Readable(block, next, ptag) ==>
               && IsCcrc(TagAt(block, next, ptag))
               && (next + 8 <= |block| ==> Crc(crc, block[next..next + 4]) != LE32At(block, next + 4))
    ensures Commits(block) == done
    ensures (next + 4 <= |block| && !IsValid(TagAt(block, next, ptag)) && IsCcrc(ptag))
         == (done != [] && EndOff(done) + 4 <= |block| && !IsValid(TagAt(block, EndOff(done), EndTag(done))))
    ensures Learnt(block, AllTags(done) + cur, notes)
    ensures IsCcrc(ptag) ==> cur == []
  {
    hide Midway, Learnt, Crc, DSize, IsCcrc, TagAt, IsValid, Extent;
    MidwayOff(block, done, cur, next, ptag);
    if next + 4 <= |block| { CrcGrows(block, Begin(done), next, next + 4); }
    MidwayStop(block, done, cur, next, ptag);
    if next + 4 <= |block| && !IsValid(TagAt(block, next, ptag)) {
      StoppedErased(block, done, cur, next, ptag);
    } else {
      StoppedElsewhere(block, done, cur, next, ptag);
    }
  }

  /** One pass over a block. */
  method FetchBlock(block: seq<Byte>, progSize: nat) returns (r: Option<Mdir>)
    requires progSize > 0 && |block| >= 4
    ensures Fetched(block, progSize, r)
  {
    hide Scanning, IsCcrc, DSize, Extent, IsValid, Perturb, AllTags, Crc, Learnt, Commits, Fetched, Kept,
      TagAt, LE32At, EndOff, EndTag;
    r := None;
    var off: nat, ptag := 0, START;
    var notes := Notes(0, NULL_TAIL, None);
    var maybeErased := false;
    var crc := Compute(0xffff_ffff, block[..4]);
    ghost var done: seq<Commit>, cur: seq<Stored> := [], [];
    ScanStart(block);
    while true
      invariant Scanning(block, done, cur, off + DSize(ptag), ptag, notes, crc)
      invariant r.None? <==> done == []
      invariant r.Some? ==> !r.value.erased && r.value.off <= |block| && Kept(block, done, r.value)
      invariant off + DSize(ptag) <= |block|
      decreases |block| - off
    {
      var next := off + DSize(ptag);
      if next + 4 > |block| {
        ScanStop(block, done, cur, next, ptag, notes, crc);
        break;
      }
      var tag := TagAt(block, next, ptag);
      if !IsValid(tag) {
        // nothing has been written here since the last commit
        maybeErased := IsCcrc(ptag);
        ScanStop(block, done, cur, next, ptag, notes, crc);
        break;
      }
      if next + Extent(tag) > |block| {
        // the tag would go beyond the block
        ScanStop(block, done, cur, next, ptag, notes, crc);
        break;
      }
      ghost var before := crc;
      crc := Compute(crc, block[next..next + 4]);
      if IsCcrc(tag) {
        CcrcExtent(tag);
        if crc != LE32At(block, next + 4) {
          ScanStop(block, done, cur, next, ptag, notes, before);
          break;
        }
        done := ScanCommit(block, done, cur, next, ptag, notes, before);
        cur := [];
        // the chunk's low bit says whether the next valid bit is inverted
        ptag := Perturb(tag);
        r := Some(Mdir(next + DSize(tag), ptag, notes.count, notes.tail, false));
        crc := 0xffff_ffff;
      } else {
        ScanLearnt(block, done, cur, next, ptag, notes, before);
        var after := Note(block, AllTags(done) + cur, Stored(next, tag), notes);
        crc := Compute(crc, block[next + 4..next + DSize(tag)]);
        ScanTag(block, done, cur, next, ptag, notes, before, after, crc);
        cur := cur + [Stored(next, tag)];
        notes := after;
        ptag := tag;
      }
      off := next;
    }
    if r.Some? {
      var d := CheckErased(block, progSize, r.value, maybeErased, notes, done, cur);
      r := Some(d);
    } else {
      NothingFetched(block, progSize);
    }
  }

  lemma ScanLearnt(block: seq<Byte>, done: seq<Commit>, cur: seq<Stored>, next: nat, ptag: bv32,
                   notes: Notes, crc: bv32)
    requires Scanning(block, done, cur, next, ptag, notes, crc)
    ensures Learnt(block, AllTags(done) + cur, notes)
  {
    hide Midway, Learnt, Crc;
  }

  lemma NothingFetched(block: seq<Byte>, progSize: nat)
    requires progSize > 0 && Commits(block) == []
    ensures Fetched(block, progSize, None)
  {
  }

  lemma ForwardKnown(block: seq<Byte>, tags: seq<Stored>, n: Notes)
    requires Learnt(block, tags, n)
    ensures n.forward == ForwardOf(block, tags)
  {
  }

  lemma CcrcExtent(w: bv32)
    requires IsCcrc(w)
    ensures Extent(w) >= 8
  {
  }

  lemma CrcOfNothing(crc: bv32)
    ensures Crc(crc, []) == crc
  {
  }

  lemma FirstNotes(block: seq<Byte>)
    ensures AllTags([]) + [] == [] && Learnt(block, [], Notes(0, NULL_TAIL, None))
  {
    assert Log(block, []) == [];
  }

  lemma Keep(block: seq<Byte>, done: seq<Commit>, n: Notes, d: Mdir)
    requires Learnt(block, AllTags(done), n)
    requires d == Mdir(EndOff(done), EndTag(done), n.count, n.tail, false)
    ensures Kept(block, done, d)
  {
  }
}
