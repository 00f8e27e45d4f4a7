/** A metadata block as bytes: a revision count, then commits of tags, each closed by a CRC.
    Reading goes forward once, to find the valid commits, and backward for every lookup. */
module MetaBlock {
  import opened Wrappers
  import opened Bytes
  import opened Crc32
  import opened MetaLog
  import opened TagWord

  /** A tag found at an offset of the block, and what it says. */
  datatype Stored = Stored(off: nat, word: bv32) {
    predicate In(block: seq<Byte>) { off + DSize(word) <= |block| }

    function ToTag(block: seq<Byte>): Tag
      requires In(block)
    {
      Tag(TypeOf(word), IdOf(word),
          if IsDelete(word) then Deleted else Bytes(block[off + 4..off + 4 + SizeOf(word)]))
    }
  }

  function WordAt(block: seq<Byte>, off: nat): bv32
    requires off + 4 <= |block|
  {
    BE32(block[off..off + 4])
  }

  function TagAt(block: seq<Byte>, off: nat, ptag: bv32): bv32
    requires off + 4 <= |block|
  {
    Xor(WordAt(block, off), ptag)
  }

  function LE32At(block: seq<Byte>, off: nat): bv32
    requires off + 4 <= |block|
  {
    Pack(block[off..off + 4])
  }

  // ---- Commits ----

  predicate IsCcrc(w: bv32) { TypeOf(w) & TYPE2 == CCRC }

  predicate IsTail(w: bv32) { TypeOf(w) & TYPE1 == TAIL }

  predicate IsFcrc(w: bv32) { TypeOf(w) == FCRC }

  /** How far a fetch reads for a tag; some are read at a fixed size. */
  function Extent(w: bv32): (r: nat)
    ensures r >= DSize(w)
  {
    var fixed := if IsCcrc(w) then 8 else if IsTail(w) || IsFcrc(w) then 12 else 0;
    if DSize(w) < fixed then fixed else DSize(w)
  }

  /** The low bit of a CRC's chunk says that the next tag's valid bit is inverted. */
  function Perturb(w: bv32): bv32 {
    if TypeOf(w) & 1 == 1 then Xor(w, 0x8000_0000) else w
  }

  /** What reading a commit finds, and where and after which tag the next one would start. */
  datatype Commit = Commit(tags: seq<Stored>, off: nat, ptag: bv32)

  predicate Readable(block: seq<Byte>, off: nat, ptag: bv32) {
    && off + 4 <= |block|
    && IsValid(TagAt(block, off, ptag))
    && off + Extent(TagAt(block, off, ptag)) <= |block|
  }

  predicate CrcMatches(block: seq<Byte>, begin: nat, off: nat)
    requires begin <= off + 4 && off + 8 <= |block|
  {
    Crc(0xffff_ffff, block[begin..off + 4]) == LE32At(block, off + 4)
  }

  /** The commit whose checksum starts at `begin` and whose tags, from `off` on, follow `ptag`. */
  function ReadCommit(block: seq<Byte>, begin: nat, off: nat, ptag: bv32): (r: Option<Commit>)
    requires begin <= off
    ensures r.Some? ==> off + 4 <= r.value.off <= |block|
    ensures r.Some? ==> forall i :: 0 <= i < |r.value.tags| ==> r.value.tags[i].In(block)
    decreases |block| - off
  {
    if !Readable(block, off, ptag) then None
    else
      var tag := TagAt(block, off, ptag);
      var here := Stored(off, tag);
      if IsCcrc(tag) then
        if CrcMatches(block, begin, off) then Some(Commit([here], off + DSize(tag), Perturb(tag)))
        else None
      else
        Prefixed([here], ReadCommit(block, begin, off + DSize(tag), tag))
  }

  function Prefixed(cur: seq<Stored>, c: Option<Commit>): Option<Commit> {
    if c.Some? then Some(c.value.(tags := cur + c.value.tags)) else None
  }

  // Reading one tag of a commit, and what is left to read then.
  lemma ReadStep(block: seq<Byte>, begin: nat, off: nat, ptag: bv32)
    requires begin <= off
    ensures
      var r := ReadCommit(block, begin, off, ptag);
      if !Readable(block, off, ptag) then r == None
      else
        var tag := TagAt(block, off, ptag);
        if !IsCcrc(tag) then
          r == Prefixed([Stored(off, tag)], ReadCommit(block, begin, off + DSize(tag), tag))
        else
          off + 8 <= |block| &&
          r == if CrcMatches(block, begin, off)
               then Some(Commit([Stored(off, tag)], off + DSize(tag), Perturb(tag))) else None
  {
    hide IsCcrc, DSize, CrcMatches, TagAt, Perturb, IsValid;
  }

  function ReadCommits(block: seq<Byte>, begin: nat, off: nat, ptag: bv32): (r: seq<Commit>)
    requires begin <= off
    ensures forall i :: 0 <= i < |r| ==> off + 4 <= r[i].off <= |block|
    ensures forall i, j :: 0 <= i < |r| && 0 <= j < |r[i].tags| ==> r[i].tags[j].In(block)
    decreases |block| - off
  {
    match ReadCommit(block, begin, off, ptag)
    case None => []
    case Some(c) => [c] + ReadCommits(block, c.off, c.off, c.ptag)
  }

  /** The valid commits of a block. The first one covers the revision count. */
  function Commits(block: seq<Byte>): (r: seq<Commit>)
    ensures forall i :: 0 <= i < |r| ==> 8 <= r[i].off <= |block|
    ensures forall i, j :: 0 <= i < |r| && 0 <= j < |r[i].tags| ==> r[i].tags[j].In(block)
  {
    ReadCommits(block, 0, 4, START)
  }

  function AllTags(commits: seq<Commit>): seq<Stored> {
    if commits == [] then []
    else AllTags(commits[..|commits| - 1]) + commits[|commits| - 1].tags
  }

  ghost predicate AllIn(block: seq<Byte>, tags: seq<Stored>) {
    forall i :: 0 <= i < |tags| ==> tags[i].In(block)
  }

  ghost function Log(block: seq<Byte>, tags: seq<Stored>): (r: seq<Tag>)
    requires AllIn(block, tags)
    ensures |r| == |tags| && forall i :: 0 <= i < |r| ==> r[i] == tags[i].ToTag(block)
  {
    seq(|tags|, i requires 0 <= i < |tags| => tags[i].ToTag(block))
  }

  lemma {:induction false} AllTagsIn(block: seq<Byte>, commits: seq<Commit>)
    requires forall i, j :: 0 <= i < |commits| && 0 <= j < |commits[i].tags|
               ==> commits[i].tags[j].In(block)
    ensures AllIn(block, AllTags(commits))
  {
    if commits == [] {
    } else {
      AllTagsIn(block, commits[..|commits| - 1]);
    }
  }

  /** The log a block holds: the tags of its valid commits. */
  ghost function LogOf(block: seq<Byte>): seq<Tag> {
    AllTagsIn(block, Commits(block));
    Log(block, AllTags(Commits(block)))
  }

  // ---- Walking backward ----

  /** `tags` lie back to back from offset 4 up to `off`, each undoing to the one before. */
  ghost predicate Backward(block: seq<Byte>, tags: seq<Stored>, off: nat, ptag: bv32)
    decreases |tags|
  {
    if tags == [] then off == 4 && Clear(ptag) == Clear(START)
    else
      var last := tags[|tags| - 1];
      && Clear(ptag) == last.word && IsValid(last.word)
      && 4 <= last.off && last.off + DSize(last.word) == off <= |block|
      && Backward(block, tags[..|tags| - 1], last.off, Xor(WordAt(block, last.off), last.word))
  }

  lemma SameClear(block: seq<Byte>, tags: seq<Stored>, off: nat, p: bv32, q: bv32)
    requires Backward(block, tags, off, p) && Clear(p) == Clear(q)
    ensures Backward(block, tags, off, q)
  {
  }

  lemma BackwardStep(block: seq<Byte>, tags: seq<Stored>, off: nat, ptag: bv32)
    requires Backward(block, tags, off, ptag) && 4 <= off && Readable(block, off, ptag)
    ensures
      var tag := TagAt(block, off, ptag);
      Backward(block, tags + [Stored(off, tag)], off + DSize(tag), tag)
  {
    hide Extent, DSize, Clear, Xor, IsValid, BE32;
    var tag := TagAt(block, off, ptag);
    var more := tags + [Stored(off, tag)];
    assert more[..|more| - 1] == tags;
    XorTwice(WordAt(block, off), ptag);
    ValidIsClear(tag);
    assert Extent(tag) >= DSize(tag);
    assert Xor(WordAt(block, off), tag) == ptag;
  }

  lemma PerturbClear(w: bv32)
    ensures Clear(Perturb(w)) == Clear(w) && DSize(Perturb(w)) == DSize(w)
  {
    hide DSize, TypeOf;
    TopBit(w);
    ClearKeeps(w);
    ClearKeeps(Xor(w, 0x8000_0000));
  }

  lemma TopBit(w: bv32)
    ensures Clear(Xor(w, 0x8000_0000)) == Clear(w)
  {
  }

  lemma {:induction false} CommitBackward(block: seq<Byte>, begin: nat, before: seq<Stored>,
                                          off: nat, ptag: bv32)
    requires begin <= off && 4 <= off && Backward(block, before, off, ptag)
    requires ReadCommit(block, begin, off, ptag).Some?
    ensures
      var c := ReadCommit(block, begin, off, ptag).value;
      Backward(block, before + c.tags, c.off, c.ptag)
    decreases |block| - off
  {
    hide Extent, DSize, Clear, Xor, TypeOf, IsValid, BE32, Crc, Backward, Perturb, CrcMatches;
    var c := ReadCommit(block, begin, off, ptag).value;
    var tag := TagAt(block, off, ptag);
    BackwardStep(block, before, off, ptag);
    if IsCcrc(tag) {
      PerturbClear(tag);
      SameClear(block, before + c.tags, c.off, tag, c.ptag);
    } else {
      var here := [Stored(off, tag)];
      CommitBackward(block, begin, before + here, off + DSize(tag), tag);
      var rest := ReadCommit(block, begin, off + DSize(tag), tag).value;
      assert before + here + rest.tags == before + c.tags;
    }
  }

  // Where reading goes on after some commits.
  function EndOff(commits: seq<Commit>): nat {
    if commits == [] then 4 else commits[|commits| - 1].off
  }

  function EndTag(commits: seq<Commit>): bv32 {
    if commits == [] then START else commits[|commits| - 1].ptag
  }

  function Begin(commits: seq<Commit>): (r: nat)
    ensures commits == [] ==> r <= EndOff(commits)
  {
    if commits == [] then 0 else commits[|commits| - 1].off
  }

  /** `done` are the first commits of a block. */
  ghost predicate FirstCommits(block: seq<Byte>, done: seq<Commit>) {
    && 4 <= EndOff(done) && Begin(done) <= EndOff(done)
    && Commits(block) == done + ReadCommits(block, Begin(done), EndOff(done), EndTag(done))
  }

  lemma NextCommit(block: seq<Byte>, done: seq<Commit>)
    requires FirstCommits(block, done)
    requires ReadCommit(block, Begin(done), EndOff(done), EndTag(done)).Some?
    ensures FirstCommits(block, done + [ReadCommit(block, Begin(done), EndOff(done), EndTag(done)).value])
  {
    hide ReadCommit;
    var c := ReadCommit(block, Begin(done), EndOff(done), EndTag(done)).value;
    var rest := ReadCommits(block, c.off, c.off, c.ptag);
    assert done + ([c] + rest) == done + [c] + rest;
  }

  lemma AllTagsAppend(done: seq<Commit>, c: Commit)
    ensures AllTags(done + [c]) == AllTags(done) + c.tags
  {
    assert (done + [c])[..|done|] == done;
  }

  lemma {:induction false} ScanBackward(block: seq<Byte>, done: seq<Commit>)
    requires FirstCommits(block, done) && Backward(block, AllTags(done), EndOff(done), EndTag(done))
    ensures var all := Commits(block); Backward(block, AllTags(all), EndOff(all), EndTag(all))
    decreases |block| - EndOff(done)
  {
    hide ReadCommit, Backward, Commits;
    var next := ReadCommit(block, Begin(done), EndOff(done), EndTag(done));
    if next.Some? {
      var c := next.value;
      CommitBackward(block, Begin(done), AllTags(done), EndOff(done), EndTag(done));
      NextCommit(block, done);
      AllTagsAppend(done, c);
      ScanBackward(block, done + [c]);
    } else {
      assert Commits(block) == done;
    }
  }

  /** The chain of exclusive-ors can be followed back from the end of the last valid commit. */
  lemma CommitsBackward(block: seq<Byte>)
    ensures
      var all := Commits(block);
      Backward(block, AllTags(all), EndOff(all), EndTag(all))
  {
    assert [] + ReadCommits(block, 0, 4, START) == Commits(block);
    ScanBackward(block, []);
  }
}
