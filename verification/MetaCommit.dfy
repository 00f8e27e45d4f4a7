/** A whole commit: a list of tags with their data, written behind a block's last commit or
    into a freshly erased block, and what the block's log is afterwards. */
module MetaCommit {
  import opened Wrappers
  import opened Bytes
  import opened Crc32
  import opened MetaLog
  import opened TagWord
  import opened MetaBlock
  import opened CoreLog
  import opened MetaFetch
  import opened CommitWriter
  import opened Alignment

  /** One attribute to write: its tag and as much data as the tag says. */
  datatype Mattr = Mattr(word: bv32, data: seq<Byte>) {
    predicate Writable() {
      IsValid(word) && !IsCcrc(word) && LongEnough(word) && |data| == DSize(word) - 4
    }

    function ToTag(): Tag {
      Tag(TypeOf(word), IdOf(word), if IsDelete(word) then Deleted else Bytes(data))
    }
  }

  ghost predicate AllWritable(attrs: seq<Mattr>) {
    forall i :: 0 <= i < |attrs| ==> attrs[i].Writable()
  }

  function Tags(attrs: seq<Mattr>): (r: seq<Tag>)
    ensures |r| == |attrs| && forall i :: 0 <= i < |r| ==> r[i] == attrs[i].ToTag()
  {
    seq(|attrs|, i requires 0 <= i < |attrs| => attrs[i].ToTag())
  }

  function SizeOfAll(attrs: seq<Mattr>): nat {
    if attrs == [] then 0 else SizeOfAll(attrs[..|attrs| - 1]) + DSize(attrs[|attrs| - 1].word)
  }

  lemma {:induction false} SizeGrows(attrs: seq<Mattr>, i: nat)
    requires i <= |attrs|
    ensures SizeOfAll(attrs[..i]) <= SizeOfAll(attrs)
    decreases |attrs|
  {
    if i == |attrs| {
      assert attrs[..i] == attrs;
    } else {
      SizeGrows(attrs[..|attrs| - 1], i);
      assert attrs[..|attrs| - 1][..i] == attrs[..i];
    }
  }

  // ---- Logs and the bytes they are read from ----

  /** All the tags lie in front of an offset. */
  ghost predicate Until(tags: seq<Stored>, n: nat) {
    forall i :: 0 <= i < |tags| ==> 4 <= tags[i].off && tags[i].off + DSize(tags[i].word) <= n
  }

  lemma {:induction false} BackwardUntil(block: seq<Byte>, tags: seq<Stored>, off: nat, ptag: bv32)
    requires Backward(block, tags, off, ptag)
    ensures Until(tags, off)
    decreases |tags|
  {
    hide WordAt, DSize, IsValid;
    if tags == [] {
    } else {
      var last := tags[|tags| - 1];
      BackwardUntil(block, tags[..|tags| - 1], last.off, Xor(WordAt(block, last.off), last.word));
    }
  }

  lemma TagFrame(a: seq<Byte>, b: seq<Byte>, t: Stored, n: nat)
    requires SamePrefix(a, b, n) && t.off + DSize(t.word) <= n
    ensures t.In(a) && t.In(b) && t.ToTag(a) == t.ToTag(b)
  {
    hide TypeOf, IdBits, SizeOf, IsDelete, DSize;
    DSizeIs(t.word);
    if !IsDelete(t.word) { SameSlice(a, b, n, t.off + 4, t.off + 4 + SizeOf(t.word)); }
  }

  lemma LogFrame(a: seq<Byte>, b: seq<Byte>, tags: seq<Stored>, n: nat)
    requires SamePrefix(a, b, n) && Until(tags, n)
    ensures AllIn(a, tags) && AllIn(b, tags) && Log(a, tags) == Log(b, tags)
  {
    hide DSize, SamePrefix;
    forall i | 0 <= i < |tags| ensures tags[i].In(a) && tags[i].In(b) && tags[i].ToTag(a) == tags[i].ToTag(b) {
      TagFrame(a, b, tags[i], n);
    }
  }

  lemma LogTag(before: seq<Byte>, after: seq<Byte>, tags: seq<Stored>, off: nat, ptag: bv32, m: Mattr)
    requires m.Writable() && off + DSize(m.word) <= |before| && Until(tags, off) && 4 <= off
    requires after == Patch(before, off, Stowed(m.word, ptag) + m.data)
    ensures
      var more := tags + [Stored(off, m.word)];
      && Until(more, off + DSize(m.word)) && AllIn(before, tags) && AllIn(after, more)
      && Log(after, more) == Log(before, tags) + [m.ToTag()]
  {
    hide TypeOf, IdBits, SizeOf, IsDelete, DSize, IsValid, IsCcrc, LongEnough, Stowed, SamePrefix, Patch;
    LogFrame(before, after, tags, off);
    DSizeIs(m.word);
    PatchEnds(before, off, Stowed(m.word, ptag), m.data);
    assert Stored(off, m.word).ToTag(after) == m.ToTag();
  }

  // ---- Tags that only serve the log ----

  /** CRC and forward-CRC tags say nothing to a reader. */
  lemma BookkeepingIsService(block: seq<Byte>, tags: seq<Stored>)
    requires AllIn(block, tags) && Bookkeeping(tags)
    ensures Core(Log(block, tags)) == []
  {
    hide TypeOf, DSize;
    CoreOfService(Log(block, tags));
  }

  lemma {:induction false} BookkeepingFits(d: Dir, block: seq<Byte>, tags: seq<Stored>)
    requires AllIn(block, tags) && Bookkeeping(tags)
    ensures AllFit(d, Log(block, tags))
  {
    hide IsCcrc, IsFcrc, DSize, Apply, Fits;
    if tags == [] {
    } else {
      var log, init, last := Log(block, tags), tags[..|tags| - 1], tags[|tags| - 1];
      BookkeepingFits(d, block, init);
      assert log[..|log| - 1] == Log(block, init) && log[|log| - 1] == last.ToTag(block);
      ServiceFits(Replay(d, Log(block, init)), last.ToTag(block), last.word);
    }
  }

  lemma ServiceFits(d: Dir, t: Tag, w: bv32)
    requires t.ty == TypeOf(w) && (IsCcrc(w) || IsFcrc(w))
    ensures Fits(d, t)
  {
    hide TypeOf;
    ServiceType(TypeOf(w));
  }

  // ---- Writing the commit ----

  /** The log of a commit in progress, and that it ends at the writer's position. */
  ghost predicate Logged(w: Writer, log: seq<Tag>)
    reads w, w.block
  {
    && w.Valid()
    && Until(AllTags(w.written) + w.cur, w.off) && 4 <= w.off
    && AllIn(w.block[..], AllTags(w.written) + w.cur)
    && Log(w.block[..], AllTags(w.written) + w.cur) == log
  }

  lemma SameAsItself(w: Writer)
    requires w.Valid()
    ensures SamePrefix(w.block[..], w.block[..], w.off)
  {
    hide Written, Chain, Crc;
  }

  /** Writes attributes one by one; fails when one leaves no room for a CRC. */
  method WriteTags(w: Writer, attrs: seq<Mattr>, ghost log: seq<Tag>) returns (ok: bool)
    requires Logged(w, log) && AllWritable(attrs)
    modifies w, w.block
    ensures ok <==> attrs == [] || old(w.off) + SizeOfAll(attrs) <= w.block.Length - 8
    ensures w.Valid() && w.written == old(w.written) && old(w.off) <= w.off
    ensures ok ==> Logged(w, log + Tags(attrs)) && w.off == old(w.off) + SizeOfAll(attrs)
    ensures SamePrefix(old(w.block[..]), w.block[..], old(w.off))
  {
    hide DSize, SamePrefix, Until, AllIn, Patch, Log, AllTags, SizeOfAll, Progress, Stowed;
    ghost var before, off0 := w.block[..], w.off;
    SameAsItself(w);
    assert log + Tags(attrs)[..0] == log && attrs[..0] == [];
    NoSize();
    for i := 0 to |attrs|
      invariant Logged(w, log + Tags(attrs)[..i]) && w.written == old(w.written)
      invariant SamePrefix(before, w.block[..], off0)
      invariant w.off == off0 + SizeOfAll(attrs[..i])
      invariant i > 0 ==> off0 + SizeOfAll(attrs[..i]) <= w.block.Length - 8
    {
      SizeStep(attrs, i);
      ghost var now, off1, ptag1, cur1 := w.block[..], w.off, w.ptag, w.cur;
      var fits := w.CommitAttr(attrs[i].word, attrs[i].data);
      if !fits { return false; }
      TagLogged(now, w.block[..], AllTags(w.written), cur1, off1, ptag1, attrs[i], before, off0);
      assert log + Tags(attrs)[..i + 1] == log + Tags(attrs)[..i] + [attrs[i].ToTag()];
    }
    assert attrs[..|attrs|] == attrs && Tags(attrs)[..|attrs|] == Tags(attrs);
    return true;
  }

  lemma NoSize()
    ensures SizeOfAll([]) == 0
  {
  }

  lemma SizeStep(attrs: seq<Mattr>, i: nat)
    requires i < |attrs|
    ensures SizeOfAll(attrs[..i + 1]) == SizeOfAll(attrs[..i]) + DSize(attrs[i].word)
    ensures SizeOfAll(attrs[..i + 1]) <= SizeOfAll(attrs)
  {
    hide DSize;
    assert attrs[..i + 1][..i] == attrs[..i];
    SizeGrows(attrs, i + 1);
  }

  lemma TagLogged(now: seq<Byte>, after: seq<Byte>, tags: seq<Stored>, cur: seq<Stored>, off: nat,
                  ptag: bv32, m: Mattr, before: seq<Byte>, n: nat)
    requires m.Writable() && off + DSize(m.word) <= |now| && Until(tags + cur, off) && 4 <= off && n <= off
    requires after == Patch(now, off, Stowed(m.word, ptag) + m.data) && SamePrefix(before, now, n)
    ensures
      var more := cur + [Stored(off, m.word)];
      && Until(tags + more, off + DSize(m.word)) && AllIn(now, tags + cur) && AllIn(after, tags + more)
      && Log(after, tags + more) == Log(now, tags + cur) + [m.ToTag()]
    ensures SamePrefix(before, after, n)
  {
    hide DSize, Until, AllIn, SamePrefix, Patch, Stowed;
    LogTag(now, after, tags + cur, off, ptag, m);
    assert tags + (cur + [Stored(off, m.word)]) == tags + cur + [Stored(off, m.word)];
    PrefixTrans(before, now, after, n, off);
  }

  // ---- The directory a block holds, before and after ----

  ghost function DirOf(block: seq<Byte>): Dir { Replay(EMPTY_DIR, LogOf(block)) }

  lemma DirOfCore(block: seq<Byte>)
    ensures DirOf(block) == Replay(EMPTY_DIR, CoreOf(block))
  {
    hide Replay, Core;
    CoreReplays(EMPTY_DIR, LogOf(block));
  }

  /** After the commits `done`, the block has at least one more; the first of them holds the
      `k` new tags, and all that follows those only serves the log. */
  ghost predicate Adds(block: seq<Byte>, done: seq<Commit>, k: nat) {
    var all, n := Commits(block), |AllTags(done)|;
    && Written(block, all) && |done| < |all| && all[..|done|] == done
    && k < |all[|done|].tags|
    && n + k <= |AllTags(all)| && AllTags(all)[..n] == AllTags(done)
    && Bookkeeping(AllTags(all)[n + k..])
  }

  /** Where the writer is done, the commits are what was asked for. */
  lemma IsAdded(before: seq<Byte>, block: seq<Byte>, done: seq<Commit>, written: seq<Commit>,
                cur: seq<Stored>, extra: seq<Stored>, log: seq<Tag>, n: nat, k: nat)
    requires Commits(block) == written && Written(block, written)
    requires |done| < |written| && written[..|done|] == done && cur < written[|done|].tags
    requires AllTags(written) == AllTags(done) + cur + extra && Bookkeeping(extra) && |cur| == k
    requires SamePrefix(before, block, n) && Until(AllTags(done) + cur, n)
    requires AllIn(before, AllTags(done) + cur) && Log(before, AllTags(done) + cur) == log
    ensures Adds(block, done, k) && CoreOf(block) == Core(log)
    ensures WellFormed(log) ==> WellFormed(LogOf(block))
  {
    hide Written, AllTags, Until, SamePrefix, Core, Commits, Bookkeeping, Adds, AllIn, Log, WellFormed;
    AddedTags(block, done, written, cur, extra);
    LogFrame(before, block, AllTags(done) + cur, n);
    AllTagsIn(block, Commits(block));
    AddedCore(block, AllTags(done) + cur, extra);
    AddedLog(block, AllTags(done) + cur, extra);
  }

  lemma AddedTags(block: seq<Byte>, done: seq<Commit>, written: seq<Commit>, cur: seq<Stored>, extra: seq<Stored>)
    requires Commits(block) == written && Written(block, written)
    requires |done| < |written| && written[..|done|] == done && cur < written[|done|].tags
    requires AllTags(written) == AllTags(done) + cur + extra && Bookkeeping(extra)
    ensures Adds(block, done, |cur|)
  {
    hide Written, AllTags, Commits, Bookkeeping;
    var all := AllTags(written);
    assert all[..|AllTags(done)|] == AllTags(done);
    assert all[|AllTags(done)| + |cur|..] == extra;
  }

  lemma AddedCore(block: seq<Byte>, front: seq<Stored>, extra: seq<Stored>)
    requires AllIn(block, front + extra) && Bookkeeping(extra)
    ensures AllIn(block, front) && Core(Log(block, front + extra)) == Core(Log(block, front))
  {
    hide Core, DSize, Bookkeeping;
    InTail(block, front, extra);
    forall i | 0 <= i < |front| ensures front[i].In(block) { assert (front + extra)[i] == front[i]; }
    assert Log(block, front + extra) == Log(block, front) + Log(block, extra);
    CoreConcat(Log(block, front), Log(block, extra));
    BookkeepingIsService(block, extra);
    assert Core(Log(block, front)) + [] == Core(Log(block, front));
  }

  lemma AddedLog(block: seq<Byte>, front: seq<Stored>, extra: seq<Stored>)
    requires AllIn(block, front + extra) && Bookkeeping(extra) && AllIn(block, front)
    ensures WellFormed(Log(block, front)) ==> WellFormed(Log(block, front + extra))
  {
    hide Replay, DSize, Bookkeeping, WellFormed;
    InTail(block, front, extra);
    assert Log(block, front + extra) == Log(block, front) + Log(block, extra);
    if WellFormed(Log(block, front)) {
      BookkeepingFits(Replay(EMPTY_DIR, Log(block, front)), block, extra);
      StaysWellFormed(Log(block, front), Log(block, extra));
    }
  }

  lemma InTail(block: seq<Byte>, front: seq<Stored>, extra: seq<Stored>)
    requires AllIn(block, front + extra)
    ensures AllIn(block, extra)
  {
    hide DSize;
    forall i | 0 <= i < |extra| ensures extra[i].In(block) {
      assert (front + extra)[|front| + i] == extra[i];
    }
  }

  /** A block that a commit can be appended to, as far as its valid commits go. */
  ghost predicate Intact(block: seq<Byte>) {
    Commits(block) != [] && Written(block, Commits(block))
  }

  method Finish(w: Writer, ghost before: seq<Byte>, ghost off0: nat, ghost done: seq<Commit>,
                ghost log: seq<Tag>, ghost k: nat)
    requires Logged(w, log) && w.written == done && |w.cur| == k && w.off + 8 <= w.block.Length
    requires SamePrefix(before, w.block[..], off0) && off0 <= w.off
    modifies w, w.block
    ensures Adds(w.block[..], done, k) && Intact(w.block[..])
    ensures CoreOf(w.block[..]) == Core(log)
    ensures WellFormed(log) ==> WellFormed(LogOf(w.block[..]))
    ensures SamePrefix(before, w.block[..], off0)
    ensures CanAppend(w.block[..], w.ProgSize(), Commits(w.block[..])) == (w.off < w.block.Length)
  {
    hide DSize, SamePrefix, Until, AllIn, Log, AllTags, Progress, OpenEnded, CanAppend, Adds, CoreOf, Core,
      Commits, Written, Bookkeeping, AlignUp, WellFormed, LogOf;
    ghost var now, off1, cur := w.block[..], w.off, w.cur;
    var good, extra := w.CommitCrc();
    WriterWritten(w);
    IsAdded(now, w.block[..], done, w.written, cur, extra, log, off1, k);
    PrefixTrans(before, now, w.block[..], off0, off1);
    OpenCanAppend(w.block[..], w.written, w.off, w.ptag, w.progWord);
  }

  lemma WriterWritten(w: Writer)
    requires w.Valid()
    ensures Written(w.block[..], w.written) && w.off <= w.block.Length
    ensures w.cur == [] ==> EndTag(w.written) == w.ptag && EndOff(w.written) == w.off
  {
    hide Written, Chain, Crc;
  }

  lemma OpenCanAppend(block: seq<Byte>, written: seq<Commit>, off: nat, ptag: bv32, progWord: bv32)
    requires (progWord as nat) > 0 && written != [] && EndOff(written) == off && EndTag(written) == ptag
    requires off % (progWord as nat) == 0 && off <= |block|
    requires off < |block| ==> OpenEnded(block, written, off, ptag, progWord)
    ensures CanAppend(block, progWord as nat, written) == (off < |block|)
  {
    hide Crc, IsValid, TagAt, ForwardOf;
  }

  /** Appends a commit behind the last one of a fetched block. */
  method AppendCommit(block: array<Byte>, progWord: bv32, d: Mdir, attrs: seq<Mattr>) returns (ok: bool)
    requires (progWord as nat) >= 8 && block.Length % (progWord as nat) == 0 && AllWritable(attrs)
    requires Fetched(block[..], progWord as nat, Some(d)) && d.erased && Intact(block[..])
    modifies block
    ensures SamePrefix(old(block[..]), block[..], d.off)
    ensures ok <==> attrs == [] || d.off + SizeOfAll(attrs) <= block.Length - 8
    ensures ok ==> Intact(block[..]) && Adds(block[..], old(Commits(block[..])), |attrs|)
    ensures ok ==> CoreOf(block[..]) == old(CoreOf(block[..])) + Core(Tags(attrs))
    ensures ok && WellFormed(old(LogOf(block[..]))) && AllFit(old(DirOf(block[..])), Tags(attrs)) ==>
              WellFormed(LogOf(block[..]))
  {
    hide DSize, SamePrefix, Until, AllIn, AllTags, Progress, OpenEnded, CanAppend, Adds, Replay, Core,
      Commits, Written, Bookkeeping, AlignUp, SizeOfAll, WellFormed, TailOf;
    ghost var before, done, log := block[..], Commits(block[..]), LogOf(block[..]);
    RoomForCrc(before, progWord as nat, d);
    var w := new Writer.Append(block, progWord, d.off, d.etag, done);
    FetchedLogged(before, d.off, d.etag);
    assert AllTags(done) + [] == AllTags(done);
    ok := WriteTags(w, attrs, log);
    NoSize();
    if ok {
      LoggedCount(w, log, attrs, done);
      Finish(w, before, d.off, done, log + Tags(attrs), |attrs|);
      CoreConcat(log, Tags(attrs));
      if WellFormed(log) && AllFit(Replay(EMPTY_DIR, log), Tags(attrs)) { StaysWellFormed(log, Tags(attrs)); }
    }
  }

  lemma RoomForCrc(block: seq<Byte>, progSize: nat, d: Mdir)
    requires progSize >= 8 && |block| % progSize == 0
    requires Fetched(block, progSize, Some(d)) && d.erased
    ensures d.off + 8 <= |block| && Commits(block) != []
  {
    hide Commits, AllTags, IsValid, TagAt, StillErased, WellFormed, Replay;
    UnitLeft(d.off, |block|, progSize);
  }

  lemma FetchedLogged(block: seq<Byte>, off: nat, etag: bv32)
    requires off == EndOff(Commits(block)) && etag == EndTag(Commits(block))
    ensures Until(AllTags(Commits(block)), off) && 4 <= off
    ensures AllIn(block, AllTags(Commits(block))) && Log(block, AllTags(Commits(block))) == LogOf(block)
  {
    hide Commits, AllTags, Until, Backward;
    AllTagsIn(block, Commits(block));
    CommitsBackward(block);
    BackwardUntil(block, AllTags(Commits(block)), off, etag);
  }

  /** One tag was written for every attribute. */
  lemma LoggedCount(w: Writer, log: seq<Tag>, attrs: seq<Mattr>, done: seq<Commit>)
    requires Logged(w, log + Tags(attrs)) && w.written == done && |log| == |AllTags(done)|
    ensures |w.cur| == |attrs|
  {
    hide Progress, AllTags, Until, AllIn;
  }

  /** Erases a block and writes a whole directory into it. */
  method CompactInto(block: array<Byte>, progWord: bv32, rev: bv32, attrs: seq<Mattr>) returns (ok: bool)
    requires (progWord as nat) >= 8 && block.Length % (progWord as nat) == 0 && block.Length >= 12
    requires AllWritable(attrs)
    modifies block
    ensures ok <==> attrs == [] || 4 + SizeOfAll(attrs) <= block.Length - 8
    ensures ok ==> Intact(block[..]) && Adds(block[..], [], |attrs|)
    ensures ok ==> CoreOf(block[..]) == Core(Tags(attrs)) && LE32At(block[..], 0) == rev
    ensures ok && WellFormed(Tags(attrs)) ==> WellFormed(LogOf(block[..]))
  {
    hide DSize, SamePrefix, AllIn, Progress, OpenEnded, CanAppend, Adds, Core,
      Commits, Written, Bookkeeping, AlignUp, SizeOfAll, CoreOf, LE32At, WellFormed, LogOf;
    var w := new Writer.Compact(block, progWord, rev);
    ghost var erased := block[..];
    EmptyLogged(erased);
    assert [] + Tags(attrs) == Tags(attrs);
    ok := WriteTags(w, attrs, []);
    NoSize();
    if ok {
      LoggedCount(w, [], attrs, []);
      Finish(w, erased, 4, [], Tags(attrs), |attrs|);
      SameRev(erased, block[..], 4);
    }
  }

  lemma EmptyLogged(block: seq<Byte>)
    ensures AllTags([]) + [] == [] && Until([], 4) && AllIn(block, []) && Log(block, []) == []
  {
  }

  lemma SameRev(a: seq<Byte>, b: seq<Byte>, n: nat)
    requires SamePrefix(a, b, n) && n >= 4
    ensures LE32At(a, 0) == LE32At(b, 0)
  {
    hide Pack;
    SameSlice(a, b, n, 0, 4);
  }
}
