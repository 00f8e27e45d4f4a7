/** A metadata pair: two blocks, of which the one with the newer revision is read. Commits are
    appended to it or compacted into the other one, and power may fail at any moment. */
module MetaPair {
  import opened Wrappers
  import opened Bytes
  import opened Crc32
  import opened MetaLog
  import opened TagWord
  import opened MetaBlock
  import opened CoreLog
  import opened MetaFetch
  import opened CommitWriter
  import opened MetaCommit

  // ---- Which block is newer ----

  /** Revision counts wrap around: the sign of their difference decides. */
  predicate Newer(a: bv32, b: bv32) { a - b != 0 && (a - b) & 0x8000_0000 == 0 }

  /** Also when the count wraps around. */
  lemma NextIsNewer(rev: bv32)
    ensures Newer(rev + 1, rev) && !Newer(rev, rev + 1)
  {
  }

  datatype Pair = Pair(b0: seq<Byte>, b1: seq<Byte>) {
    predicate Sized() { |b0| == |b1| && |b0| >= 12 }

    function Block(side: bool): seq<Byte> { if side then b1 else b0 }

    function With(side: bool, b: seq<Byte>): Pair { if side then Pair(b0, b) else Pair(b, b1) }

    function Rev(side: bool): bv32
      requires Sized()
    {
      LE32At(Block(side), 0)
    }
  }

  /** The block a fetch tries first. */
  function Preferred(p: Pair): bool
    requires p.Sized()
  {
    Newer(p.Rev(true), p.Rev(false))
  }

  /** The block a fetch ends up with: the newer one, or the other if that has no commit. */
  function Active(p: Pair): Option<bool>
    requires p.Sized()
  {
    if Commits(p.Block(Preferred(p))) != [] then Some(Preferred(p))
    else if Commits(p.Block(!Preferred(p))) != [] then Some(!Preferred(p))
    else None
  }

  /** All that is read: entries, tail and stored difference of global state are in this log. */
  ghost function View(p: Pair): Option<seq<Tag>>
    requires p.Sized()
  {
    if Active(p).Some? then Some(CoreOf(p.Block(Active(p).value))) else None
  }

  /** Fetches a pair: the block in use and what is in it, or that neither block is valid. */
  method FetchPair(p: Pair, progSize: nat) returns (side: Option<bool>, d: Option<Mdir>)
    requires progSize > 0 && p.Sized()
    ensures side == Active(p) && (side.Some? <==> d.Some?)
    ensures side.Some? ==> Fetched(p.Block(side.value), progSize, d)
  {
    hide Commits, Pack, AllTags, WellFormed, CanAppend, TailOf, Newer;
    // the newer revision is tried first
    var revs := [0, 0];
    var r := false;
    for i := 0 to 2
      invariant |revs| == 2
      invariant i >= 1 ==> revs[0] == p.Rev(false)
      invariant i <= 1 ==> !r && revs[1] == 0
      invariant i == 2 ==> revs[1] == p.Rev(true) && r == Preferred(p)
    {
      revs := revs[i := p.Rev(i == 1)];
      if Newer(revs[i], revs[(i + 1) % 2]) {
        r := i == 1;
      }
    }
    d := FetchBlock(p.Block(r), progSize);
    if d.Some? {
      return Some(r), d;
    }
    // it holds no commit, the other one may
    d := FetchBlock(p.Block(!r), progSize);
    side := if d.Some? then Some(!r) else None;
  }

  // ---- What holds between commits ----

  /** One block is in use and whole; the other is older or has no valid commit. */
  ghost predicate PairOk(p: Pair, side: bool) {
    && p.Sized() && Intact(p.Block(side))
    && (Commits(p.Block(!side)) == [] || Preferred(p) == side)
  }

  lemma OkIsActive(p: Pair, side: bool)
    requires PairOk(p, side)
    ensures Active(p) == Some(side) && View(p) == Some(CoreOf(p.Block(side)))
  {
    hide Commits, Pack, Newer, CoreOf, Written;
  }

  // ---- Cut short ----

  /** No torn commit validates: a commit that is read was written, through its checksum. */
  ghost predicate Genuine(full: seq<Byte>, cut: seq<Byte>) {
    && |cut| == |full|
    && forall i :: 0 <= i < |Commits(cut)| ==> Sound(full, cut, Commits(cut)[i])
  }

  /** Where the checksum of a commit ends. */
  function ClosesAt(c: Commit): nat { if c.tags == [] then 0 else c.tags[|c.tags| - 1].off + 8 }

  ghost predicate Sound(full: seq<Byte>, cut: seq<Byte>, c: Commit) {
    c.tags != [] && SamePrefix(full, cut, ClosesAt(c))
  }

  ghost predicate FirstOf(cut: seq<Commit>, full: seq<Commit>) {
    |cut| <= |full| && full[..|cut|] == cut
  }

  lemma {:induction false} ReadAt(block: seq<Byte>, written: seq<Commit>, rest: seq<Commit>)
    requires Commits(block) == written + rest
    ensures
      var p := At(written, |written|);
      p.begin <= p.off && ReadCommits(block, p.begin, p.off, p.ptag) == rest
    decreases |written|
  {
    hide ReadCommit, Commits;
    if written == [] {
      assert written + rest == rest;
      CommitsIs(block);
    } else {
      var init, last := written[..|written| - 1], written[|written| - 1];
      assert written + rest == init + ([last] + rest);
      ReadAt(block, init, [last] + rest);
      assert At(init, |init|) == At(written, |init|);
      var p := At(init, |init|);
      ReadHead(block, p, last, rest);
    }
  }

  lemma CommitsIs(block: seq<Byte>)
    ensures Commits(block) == ReadCommits(block, 0, 4, START)
  {
  }

  lemma ReadHead(block: seq<Byte>, p: Pos, c: Commit, rest: seq<Commit>)
    requires p.begin <= p.off && ReadCommits(block, p.begin, p.off, p.ptag) == [c] + rest
    ensures ReadCommit(block, p.begin, p.off, p.ptag) == Some(c)
    ensures ReadCommits(block, c.off, c.off, c.ptag) == rest
  {
    hide ReadCommit;
    var r := ReadCommit(block, p.begin, p.off, p.ptag);
    assert r.Some?;
    var all := [r.value] + ReadCommits(block, r.value.off, r.value.off, r.value.ptag);
    assert all == [c] + rest;
    assert all[0] == c && all[1..] == rest;
  }

  lemma FirstAndRest(block: seq<Byte>, p: Pos)
    requires p.begin <= p.off && ReadCommit(block, p.begin, p.off, p.ptag).Some?
    ensures
      var c := ReadCommit(block, p.begin, p.off, p.ptag).value;
      ReadCommits(block, p.begin, p.off, p.ptag) == [c] + ReadCommits(block, c.off, c.off, c.ptag)
  {
    hide ReadCommit;
  }

  /** What is read of the cut block are the first of the commits that were being written. */
  lemma {:induction false} CutCommits(full: seq<Byte>, cut: seq<Byte>, n: nat)
    requires Genuine(full, cut) && n <= |Commits(cut)|
    ensures FirstOf(Commits(cut)[..n], Commits(full))
  {
    hide ReadCommit, ReadCommits, Commits, Sound;
    var cs, fs := Commits(cut), Commits(full);
    if n == 0 {
    } else {
      CutCommits(full, cut, n - 1);
      var init, c := cs[..n - 1], cs[n - 1];
      assert cs[..n][..n - 1] == init;
      assert cs == init + ([c] + cs[n..]) && fs == init + fs[n - 1..];
      CutNext(full, cut, init, c, cs[n..], fs[n - 1..]);
      assert init + [c] == cs[..n];
      assert fs[..n] == fs[..n - 1] + [fs[n - 1]];
    }
  }

  lemma CutNext(full: seq<Byte>, cut: seq<Byte>, init: seq<Commit>, c: Commit, cs: seq<Commit>, fs: seq<Commit>)
    requires Commits(cut) == init + ([c] + cs) && Commits(full) == init + fs
    requires Sound(full, cut, c)
    ensures fs != [] && fs[0] == c
  {
    hide ReadCommit, ReadCommits, Commits, SamePrefix;
    var p := At(init, |init|);
    ReadAt(cut, init, [c] + cs);
    ReadHead(cut, p, c, cs);
    SameBack(full, cut, ClosesAt(c));
    ReadFrame(cut, full, p.begin, p.off, p.ptag, ClosesAt(c));
    ReadAt(full, init, fs);
    FirstAndRest(full, p);
  }

  lemma SameBack(a: seq<Byte>, b: seq<Byte>, n: nat)
    requires SamePrefix(a, b, n)
    ensures SamePrefix(b, a, n)
  {
  }

  /** They read as they do in the block as it was to be. */
  lemma CutWritten(full: seq<Byte>, cut: seq<Byte>)
    requires Genuine(full, cut) && Written(full, Commits(full)) && FirstOf(Commits(cut), Commits(full))
    ensures Written(cut, Commits(cut))
  {
    hide ReadCommit, Commits, SamePrefix, Sized, ClosesAt;
    var cs, fs := Commits(cut), Commits(full);
    forall i | 0 <= i < |cs| ensures Reads(cut, At(cs, i), cs[i]) {
      var p, c := At(fs, i), cs[i];
      assert fs[..|cs|][i] == fs[i] && (i > 0 ==> fs[..|cs|][i - 1] == fs[i - 1]);
      assert Sound(full, cut, c) && Reads(full, p, fs[i]);
      CloseIs(c);
      ReadFrame(full, cut, p.begin, p.off, p.ptag, ClosesAt(c));
    }
  }

  lemma CloseIs(c: Commit)
    requires c.tags != []
    ensures ClosesAt(c) == c.tags[|c.tags| - 1].off + 8
  {
  }

  // ---- Old or new ----

  lemma {:induction false} TagsOfFirst(cs: seq<Commit>, fs: seq<Commit>)
    requires FirstOf(cs, fs)
    ensures AllTags(cs) <= AllTags(fs)
    decreases |fs|
  {
    if |cs| == |fs| {
      assert cs == fs;
    } else {
      var init := fs[..|fs| - 1];
      assert init[..|cs|] == fs[..|cs|];
      TagsOfFirst(cs, init);
    }
  }

  lemma OneMore(cs: seq<Commit>, fs: seq<Commit>, done: seq<Commit>)
    requires FirstOf(cs, fs) && |done| < |cs| && fs[..|done|] == done
    ensures FirstOf(done + [fs[|done|]], cs)
  {
    var some := done + [fs[|done|]];
    assert fs[..|some|] == some;
    assert cs[..|some|] == fs[..|cs|][..|some|];
  }

  /** Past the first of its commits, the cut block says what was to be written. */
  lemma CutTags(full: seq<Byte>, cs: seq<Commit>, done: seq<Commit>, k: nat)
    requires Adds(full, done, k) && FirstOf(cs, Commits(full)) && |done| < |cs|
    ensures
      var all, n := AllTags(Commits(full)), |AllTags(done)| + k;
      && n < |AllTags(cs)| && AllTags(cs) <= all
      && Bookkeeping(all[n..]) && Bookkeeping(AllTags(cs)[n..])
  {
    hide Commits, AllTags, Bookkeeping, Adds, FirstOf;
    var fs := Commits(full);
    AddsMeans(full, fs, done, k);
    OneMore(cs, fs, done);
    FrontTags(done + [fs[|done|]], cs, fs, |AllTags(done)| + k);
  }

  lemma AddsMeans(full: seq<Byte>, fs: seq<Commit>, done: seq<Commit>, k: nat)
    requires Adds(full, done, k) && fs == Commits(full)
    ensures |done| < |fs| && fs[..|done|] == done
    ensures var n := |AllTags(done)| + k;
            n < |AllTags(done + [fs[|done|]])| && n <= |AllTags(fs)| && Bookkeeping(AllTags(fs)[n..])
  {
    hide Commits, Written, AllTags, Bookkeeping;
    AllTagsAppend(done, fs[|done|]);
  }

  lemma FrontTags(some: seq<Commit>, cs: seq<Commit>, fs: seq<Commit>, n: nat)
    requires FirstOf(some, cs) && FirstOf(cs, fs) && n < |AllTags(some)| && n <= |AllTags(fs)|
    requires Bookkeeping(AllTags(fs)[n..])
    ensures n < |AllTags(cs)| && AllTags(cs) <= AllTags(fs) && Bookkeeping(AllTags(cs)[n..])
  {
    hide AllTags, Bookkeeping, FirstOf;
    TagsOfFirst(some, cs);
    TagsOfFirst(cs, fs);
    BookkeepingFront(AllTags(fs), AllTags(cs), n);
  }

  lemma BookkeepingFront(all: seq<Stored>, some: seq<Stored>, n: nat)
    requires some <= all && n <= |some| && Bookkeeping(all[n..])
    ensures Bookkeeping(some[n..])
  {
    hide IsCcrc, IsFcrc;
    forall i | 0 <= i < |some[n..]| ensures IsCcrc(some[n..][i].word) || IsFcrc(some[n..][i].word) {
      assert some[n..][i] == all[n..][i];
    }
  }

  /** Two blocks read the same up to position n of their tags, and what follows only serves
      the log: they say the same. */
  lemma SameCore(a: seq<Byte>, b: seq<Byte>, ta: seq<Stored>, tb: seq<Stored>, n: nat)
    requires AllIn(a, ta) && AllIn(b, tb) && n <= |ta| && n <= |tb|
    requires ta[..n] == tb[..n] && AllIn(a, ta[..n]) && AllIn(b, ta[..n])
    requires Log(a, ta[..n]) == Log(b, ta[..n])
    requires Bookkeeping(ta[n..]) && Bookkeeping(tb[n..])
    ensures Core(Log(a, ta)) == Core(Log(b, tb))
  {
    hide Core, Bookkeeping, DSize, AllIn;
    assert ta == ta[..n] + ta[n..] && tb == tb[..n] + tb[n..];
    AddedCore(a, ta[..n], ta[n..]);
    AddedCore(b, tb[..n], tb[n..]);
  }

  /** All tags but the last lie in front of the last. */
  lemma BeforeLast(block: seq<Byte>)
    requires AllTags(Commits(block)) != []
    ensures
      var tags := AllTags(Commits(block));
      Until(tags[..|tags| - 1], tags[|tags| - 1].off)
  {
    hide Commits, AllTags, Until, WordAt, DSize, IsValid;
    CommitsBackward(block);
    var tags := AllTags(Commits(block));
    var last := tags[|tags| - 1];
    BackwardUntil(block, tags[..|tags| - 1], last.off, Xor(WordAt(block, last.off), last.word));
  }

  lemma LastTagOf(cs: seq<Commit>)
    requires cs != [] && cs[|cs| - 1].tags != []
    ensures AllTags(cs) != []
    ensures var tags, c := AllTags(cs), cs[|cs| - 1].tags; tags[|tags| - 1] == c[|c| - 1]
  {
  }

  lemma UntilFront(tags: seq<Stored>, n: nat, off: nat, end: nat)
    requires n < |tags| && Until(tags[..|tags| - 1], off) && off <= end
    ensures Until(tags[..n], end)
  {
    hide DSize;
    forall i | 0 <= i < n ensures 4 <= tags[..n][i].off && tags[..n][i].off + DSize(tags[..n][i].word) <= end {
      assert tags[..n][i] == tags[..|tags| - 1][i];
    }
  }

  /** A block with at least one of the commits being written says all that was to be said. */
  lemma CutCore(full: seq<Byte>, cut: seq<Byte>, done: seq<Commit>, k: nat)
    requires Adds(full, done, k) && Genuine(full, cut) && |done| < |Commits(cut)|
    ensures CoreOf(cut) == CoreOf(full) && Intact(cut)
    ensures SamePrefix(full, cut, 8)
  {
    hide Commits, AllTags, Until, Bookkeeping, Written, SamePrefix, AllIn, Core;
    var cs, fs := Commits(cut), Commits(full);
    CutCommits(full, cut, |cs|);
    assert cs[..|cs|] == cs;
    CutWritten(full, cut);
    CutTags(full, cs, done, k);
    var n := |AllTags(done)| + k;
    assert Sound(full, cut, cs[|cs| - 1]);
    LastTagOf(cs);
    BeforeLast(cut);
    var tags := AllTags(cs);
    var last := tags[|tags| - 1];
    UntilFront(tags, n, last.off, last.off + 8);
    LogFrame(full, cut, tags[..n], last.off + 8);
    AllTagsIn(cut, cs);
    AllTagsIn(full, fs);
    assert AllTags(fs)[..n] == tags[..n];
    SameCore(cut, full, tags, AllTags(fs), n);
    ShorterPrefix(full, cut, last.off + 8, 8);
  }

  lemma ShorterPrefix(a: seq<Byte>, b: seq<Byte>, n: nat, m: nat)
    requires SamePrefix(a, b, n) && m <= n
    ensures SamePrefix(a, b, m)
  {
    assert a[..n][..m] == a[..m] && b[..n][..m] == b[..m];
  }

  // ---- Appending, cut anywhere ----

  /** A commit appended to a block leaves what was there before it. */
  ghost predicate Appended(before: seq<Byte>, full: seq<Byte>, k: nat) {
    && SamePrefix(before, full, EndOff(Commits(before)))
    && Adds(full, Commits(before), k)
  }

  /** What an interrupted append can leave behind. */
  ghost predicate AppendCut(before: seq<Byte>, full: seq<Byte>, cut: seq<Byte>) {
    Genuine(full, cut) && SamePrefix(before, cut, EndOff(Commits(before)))
  }

  lemma KeepsCommits(before: seq<Byte>, cut: seq<Byte>)
    requires Intact(before) && SamePrefix(before, cut, EndOff(Commits(before)))
    ensures FirstOf(Commits(before), Commits(cut)) && Written(cut, Commits(before))
    ensures EndOff(Commits(before)) >= 8
  {
    hide Reads, ReadCommits, Commits, SamePrefix, Written;
    var done := Commits(before);
    forall i: nat | i < |done| ensures done[i].off <= EndOff(done) { WrittenEnds(before, done, i); }
    WrittenFrame(before, cut, done, EndOff(done));
    WrittenReads(cut, done);
    var p := At(done, |done|);
    assert (done + ReadCommits(cut, p.begin, p.off, p.ptag))[..|done|] == done;
  }

  /** An interrupted append leaves all that was said before, or all that was to be. */
  lemma AppendedCore(before: seq<Byte>, full: seq<Byte>, cut: seq<Byte>, k: nat)
    requires Intact(before) && Appended(before, full, k) && AppendCut(before, full, cut)
    ensures Intact(cut) && (CoreOf(cut) == CoreOf(before) || CoreOf(cut) == CoreOf(full))
    ensures SamePrefix(before, cut, 8)
  {
    hide Commits, AllTags, Until, Bookkeeping, Written, SamePrefix, AllIn, Core, Adds, Genuine;
    var done, cs := Commits(before), Commits(cut);
    KeepsCommits(before, cut);
    ShorterPrefix(before, cut, EndOff(done), 8);
    if |cs| > |done| {
      CutCore(full, cut, done, k);
    } else {
      assert cs == done;
      SameCommits(before, cut);
    }
  }

  lemma SameCommits(before: seq<Byte>, cut: seq<Byte>)
    requires Commits(cut) == Commits(before) && SamePrefix(before, cut, EndOff(Commits(before)))
    ensures CoreOf(cut) == CoreOf(before)
  {
    hide Commits, AllTags, Until, SamePrefix, AllIn, Core;
    var done := Commits(before);
    FetchedLogged(before, EndOff(done), EndTag(done));
    LogFrame(before, cut, AllTags(done), EndOff(done));
  }

  /** An append that gave up, its tags not fitting, has left bytes behind the last commit that
      are no commit. */
  ghost predicate Abandoned(before: seq<Byte>, cut: seq<Byte>) {
    Genuine(before, cut) && SamePrefix(before, cut, EndOff(Commits(before)))
  }

  /** Nothing of it is read. */
  lemma AbandonedCore(before: seq<Byte>, cut: seq<Byte>)
    requires Intact(before) && Abandoned(before, cut)
    ensures Intact(cut) && Commits(cut) == Commits(before) && CoreOf(cut) == CoreOf(before)
    ensures SamePrefix(before, cut, 8)
  {
    hide Commits, SamePrefix, Genuine, Written, CoreOf;
    var done, cs := Commits(before), Commits(cut);
    KeepsCommits(before, cut);
    CutCommits(before, cut, |cs|);
    assert cs[..|cs|] == cs && done[..|done|] == done;
    ShorterPrefix(before, cut, EndOff(done), 8);
    SameCommits(before, cut);
  }

  // ---- Compacting into the other block, cut anywhere ----

  /** A freshly written block: the next revision, and all of the directory. */
  ghost predicate Compacted(p: Pair, side: bool, full: seq<Byte>, k: nat)
    requires p.Sized()
  {
    && |full| == |p.b0| && LE32At(full, 0) == p.Rev(side) + 1 && Intact(full)
    && Adds(full, [], k)
  }

  // ---- What is left, byte by byte ----

  /** No checksum validates that was not, all of it, there on purpose. */
  ghost predicate NothingPast(cut: seq<Byte>, n: nat) {
    forall i :: 0 <= i < |Commits(cut)| ==> ClosesAt(Commits(cut)[i]) <= n
  }

  lemma CommitsHaveTags(block: seq<Byte>, i: nat)
    requires i < |Commits(block)|
    ensures Commits(block)[i].tags != []
  {
    hide ReadCommit, Commits;
    var cs := Commits(block);
    var init := cs[..i];
    assert cs == init + cs[i..] && cs[i..] == [cs[i]] + cs[i + 1..];
    ReadAt(block, init, cs[i..]);
    var p := At(init, |init|);
    ReadHead(block, p, cs[i], cs[i + 1..]);
    ClosingTag(block, p.begin, p.off, p.ptag);
  }

  lemma PrefixIsGenuine(full: seq<Byte>, cut: seq<Byte>, n: nat)
    requires SamePrefix(full, cut, n) && NothingPast(cut, n)
    ensures Genuine(full, cut)
  {
    hide Commits, SamePrefix, ClosesAt;
    SameLength(full, cut, n);
    forall i | 0 <= i < |Commits(cut)| ensures Sound(full, cut, Commits(cut)[i]) {
      CommitsHaveTags(cut, i);
      ShorterPrefix(full, cut, n, ClosesAt(Commits(cut)[i]));
    }
  }

  /** An append that is cut at byte n, whatever the bytes behind hold then, leaves one of the
      blocks above. */
  lemma AppendTorn(before: seq<Byte>, full: seq<Byte>, k: nat, n: nat, cut: seq<Byte>)
    requires Appended(before, full, k) && EndOff(Commits(before)) <= n
    requires SamePrefix(full, cut, n) && NothingPast(cut, n)
    ensures AppendCut(before, full, cut)
  {
    hide Commits, Adds, Genuine, SamePrefix;
    var end := EndOff(Commits(before));
    PrefixIsGenuine(full, cut, n);
    ShorterPrefix(full, cut, n, end);
    PrefixTrans(before, full, cut, end, n);
  }

  /** So does one that gave up or was cut before it wrote a checksum, wherever it had got to. */
  lemma AbandonTorn(p: Pair, side: bool, cut: seq<Byte>)
    requires p.Sized()
    requires
      var end := EndOff(Commits(p.Block(side)));
      SamePrefix(p.Block(side), cut, end) && NothingPast(cut, end)
    ensures Possible(p, side, Step.Abandon(cut))
  {
    hide Commits, Genuine, SamePrefix, NothingPast;
    PrefixIsGenuine(p.Block(side), cut, EndOff(Commits(p.Block(side))));
  }

  /** So does a compaction that is cut at byte n of what it writes, and one that is cut while it
      erases, with the first n bytes still as they were. */
  lemma CompactTorn(p: Pair, side: bool, full: seq<Byte>, k: nat, n: nat, cut: seq<Byte>)
    requires p.Sized() && Compacted(p, side, full, k) && NothingPast(cut, n)
    requires SamePrefix(full, cut, n) || SamePrefix(p.Block(!side), cut, n)
    ensures Possible(p, side, Step.Compact(full, cut, k))
  {
    hide Commits, Compacted, Genuine, SamePrefix;
    if SamePrefix(full, cut, n) {
      PrefixIsGenuine(full, cut, n);
    } else {
      PrefixIsGenuine(p.Block(!side), cut, n);
    }
  }

  // ---- Steps of a run ----

  /** An attempt at a commit: the block it would have written, how many tags that adds, and
      what is in the block when the attempt ends or power fails. An append that does not fit
      is abandoned; a compaction is then the next attempt, and is discarded if it does not fit. */
  datatype Step =
    | Append(full: seq<Byte>, cut: seq<Byte>, k: nat)
    | Abandon(cut: seq<Byte>)
    | Compact(full: seq<Byte>, cut: seq<Byte>, k: nat)
    | Discard(cut: seq<Byte>)
  {
    predicate Writes() { Append? || Compact? }
  }

  /** What an attempt may leave behind: nothing new, the whole of it, or a part of it that
      holds no commit but those written out. Cut while it erases, a compaction may also leave
      some of the commits that the block had before. */
  ghost predicate Possible(p: Pair, side: bool, s: Step)
    requires p.Sized()
  {
    match s
    case Append(full, cut, k) =>
      Appended(p.Block(side), full, k) && AppendCut(p.Block(side), full, cut)
    case Abandon(cut) => Abandoned(p.Block(side), cut)
    case Compact(full, cut, k) =>
      && Compacted(p, side, full, k)
      && (Genuine(full, cut) || cut == p.Block(!side) || Genuine(p.Block(!side), cut))
    case Discard(cut) =>
      |cut| == |p.b0| && (Commits(cut) == [] || cut == p.Block(!side) || Genuine(p.Block(!side), cut))
  }

  function After(p: Pair, side: bool, s: Step): Pair {
    p.With(if s.Append? || s.Abandon? then side else !side, s.cut)
  }

  lemma AppendStep(p: Pair, side: bool, s: Step)
    requires PairOk(p, side) && s.Append? && Possible(p, side, s)
    ensures
      var q := After(p, side, s);
      && PairOk(q, side)
      && (View(q) == View(p) || View(q) == Some(CoreOf(s.full)))
  {
    hide Commits, Pack, CoreOf, Intact, Adds, AppendCut, Appended, Newer;
    var a, q := p.Block(side), After(p, side, s);
    AppendedCore(a, s.full, s.cut, s.k);
    SameRev(a, s.cut, 8);
    SameLength(a, s.cut, 8);
    OkIsActive(p, side);
    OkIsActive(q, side);
  }

  /** Neither the entries nor anything else changes when an append is abandoned. */
  lemma AbandonStep(p: Pair, side: bool, s: Step)
    requires PairOk(p, side) && s.Abandon? && Possible(p, side, s)
    ensures PairOk(After(p, side, s), side) && View(After(p, side, s)) == View(p)
  {
    hide Commits, Pack, CoreOf, Intact, Abandoned, Newer;
    var a, q := p.Block(side), After(p, side, s);
    AbandonedCore(a, s.cut);
    SameRev(a, s.cut, 8);
    SameLength(a, s.cut, 8);
    OkIsActive(p, side);
    OkIsActive(q, side);
  }

  lemma SameLength(a: seq<Byte>, b: seq<Byte>, n: nat)
    requires SamePrefix(a, b, n)
    ensures |a| == |b|
  {
  }

  /** What is left of a block's commits is still under the block's revision. */
  lemma LeftOver(before: seq<Byte>, cut: seq<Byte>)
    requires Genuine(before, cut) && Commits(cut) != []
    ensures Commits(before) != [] && |cut| == |before| && LE32At(cut, 0) == LE32At(before, 0)
  {
    hide Commits, Written, Pack, SamePrefix;
    var cs := Commits(cut);
    CutCommits(before, cut, |cs|);
    assert cs[..|cs|] == cs;
    assert Sound(before, cut, cs[|cs| - 1]);
    ShorterPrefix(before, cut, ClosesAt(cs[|cs| - 1]), 8);
    SameRev(before, cut, 8);
    SameLength(before, cut, 8);
  }

  /** As long as nothing of a compaction has been closed, the pair reads as before. */
  lemma DiscardStep(p: Pair, side: bool, cut: seq<Byte>)
    requires PairOk(p, side) && Possible(p, side, Step.Discard(cut))
    ensures PairOk(p.With(!side, cut), side) && View(p.With(!side, cut)) == View(p)
  {
    hide Commits, Pack, CoreOf, Written, Newer, Genuine;
    var q := p.With(!side, cut);
    OkIsActive(p, side);
    if cut == p.Block(!side) {
      assert q == p;
    } else if Commits(cut) == [] {
      OkIsActive(q, side);
    } else {
      LeftOver(p.Block(!side), cut);
      OkIsActive(q, side);
    }
  }

  lemma CompactStep(p: Pair, side: bool, s: Step) returns (side': bool)
    requires PairOk(p, side) && s.Compact? && Possible(p, side, s)
    ensures
      var q := After(p, side, s);
      && PairOk(q, side')
      && (View(q) == View(p) || View(q) == Some(CoreOf(s.full)))
  {
    hide Commits, Pack, CoreOf, Adds, Written, Newer, SamePrefix;
    var q := After(p, side, s);
    if Commits(s.cut) == [] || s.cut == p.Block(!side) || Genuine(p.Block(!side), s.cut) {
      side' := side;
      DiscardStep(p, side, s.cut);
    } else {
      side' := !side;
      CutCore(s.full, s.cut, [], s.k);
      SameRev(s.full, s.cut, 8);
      NextIsNewer(p.Rev(side));
      OkIsActive(q, side');
    }
  }

  /** However an attempt ends, what is read afterwards is all old or all new. */
  lemma OldOrNew(p: Pair, side: bool, s: Step) returns (side': bool)
    requires PairOk(p, side) && Possible(p, side, s)
    ensures
      var q := After(p, side, s);
      && PairOk(q, side')
      && (View(q) == View(p) || (s.Writes() && View(q) == Some(CoreOf(s.full))))
  {
    hide Commits, CoreOf, PairOk, Possible, View;
    assert s.Discard? ==> s == Step.Discard(s.cut);
    if s.Append? {
      AppendStep(p, side, s);
      side' := side;
    } else if s.Abandon? {
      AbandonStep(p, side, s);
      side' := side;
    } else if s.Discard? {
      DiscardStep(p, side, s.cut);
      side' := side;
    } else {
      side' := CompactStep(p, side, s);
    }
  }

  /** The pairs that a run of attempts goes through, whichever block is in use. */
  ghost predicate Run(ps: seq<Pair>, steps: seq<Step>) {
    && |ps| == |steps| + 1 && ps[0].Sized()
    && forall i :: 0 <= i < |steps| ==> ps[i].Sized() && Takes(ps[i], steps[i], ps[i + 1])
  }

  ghost predicate Takes(p: Pair, s: Step, q: Pair)
    requires p.Sized()
  {
    Active(p).Some? && Possible(p, Active(p).value, s) && q == After(p, Active(p).value, s)
  }

  /** Over any run, with power failing in any of its attempts, there is always a directory to
      read, and each attempt leaves all that was there before it or all that it was to write:
      entries, tail and stored difference change together. */
  lemma {:induction false} RunKeepsDirectory(ps: seq<Pair>, steps: seq<Step>, side: bool)
    requires Run(ps, steps) && PairOk(ps[0], side)
    ensures forall i :: 0 <= i < |steps| ==> AtomicStep(ps[i], steps[i], ps[i + 1])
    decreases |steps|
  {
    hide PairOk, Possible, View, CoreOf;
    if steps == [] {
    } else {
      assert Takes(ps[0], steps[0], ps[1]);
      OkIsActive(ps[0], side);
      var side' := OldOrNew(ps[0], side, steps[0]);
      OkSized(ps[1], side');
      SomeView(ps[0], side);
      assert AtomicStep(ps[0], steps[0], ps[1]);
      RunTail(ps, steps);
      RunKeepsDirectory(ps[1..], steps[1..], side');
      forall i | 1 <= i < |steps| ensures AtomicStep(ps[i], steps[i], ps[i + 1]) {
        assert AtomicStep(ps[1..][i - 1], steps[1..][i - 1], ps[1..][i - 1 + 1]);
      }
    }
  }

  lemma OkSized(p: Pair, side: bool)
    requires PairOk(p, side)
    ensures p.Sized()
  {
  }

  lemma SomeView(p: Pair, side: bool)
    requires PairOk(p, side)
    ensures p.Sized() && View(p).Some?
  {
    hide Commits, CoreOf, Newer, Pack, Intact;
    OkIsActive(p, side);
  }

  lemma RunTail(ps: seq<Pair>, steps: seq<Step>)
    requires Run(ps, steps) && steps != [] && ps[1].Sized()
    ensures Run(ps[1..], steps[1..])
  {
    hide Takes;
    forall i | 0 <= i < |steps[1..]|
      ensures ps[1..][i].Sized() && Takes(ps[1..][i], steps[1..][i], ps[1..][i + 1])
    {
      assert ps[i + 1].Sized() && Takes(ps[i + 1], steps[i + 1], ps[i + 1 + 1]);
    }
  }

  ghost predicate AtomicStep(p: Pair, s: Step, q: Pair) {
    && p.Sized() && q.Sized() && View(p).Some?
    && (View(q) == View(p) || (s.Writes() && View(q) == Some(CoreOf(s.full))))
  }

  // ---- A commit that is not interrupted ----

  /** Appends if the block in use still has erased space and the tags fit, and otherwise
      compacts into the other block. */
  method Update(b0: array<Byte>, b1: array<Byte>, progWord: bv32, side: bool, d: Mdir,
                append: seq<Mattr>, all: seq<Mattr>) returns (ok: bool, side': bool)
    requires b0 != b1 && (progWord as nat) >= 8 && b0.Length % (progWord as nat) == 0
    requires PairOk(Pair(b0[..], b1[..]), side) && AllWritable(append) && AllWritable(all)
    requires Fetched(Pair(b0[..], b1[..]).Block(side), progWord as nat, Some(d))
    modifies b0, b1
    ensures
      var fits := d.erased && (append == [] || d.off + SizeOfAll(append) <= b0.Length - 8);
      && (side' == side <==> fits)
      && (ok <==> fits || all == [] || 4 + SizeOfAll(all) <= b0.Length - 8)
    ensures ok ==>
      var p, q := old(Pair(b0[..], b1[..])), Pair(b0[..], b1[..]);
      && PairOk(q, side')
      && View(q) == Some(if side' == side then CoreOf(p.Block(side)) + Core(Tags(append))
                         else Core(Tags(all)))
    ensures ok ==>
      var before, after := old(Pair(b0[..], b1[..])).Block(side), Pair(b0[..], b1[..]).Block(side');
      if side' == side then
        WellFormed(LogOf(before)) && AllFit(DirOf(before), Tags(append)) ==> WellFormed(LogOf(after))
      else WellFormed(Tags(all)) ==> WellFormed(LogOf(after))
  {
    hide Commits, Pack, CoreOf, Core, Adds, Written, Newer, SamePrefix, Fetched, SizeOfAll, View, Intact, AllWritable,
      WellFormed, Replay, AllFit, LogOf;
    ghost var p := Pair(b0[..], b1[..]);
    var active, other := if side then b1 else b0, if side then b0 else b1;
    assert active[..] == p.Block(side) && other[..] == p.Block(!side);
    ghost var before := active[..];
    OkSized(p, side);
    OkIntact(p, side);
    var rev := LE32At(active[..], 0);
    if d.erased {
      // there is erased space behind the last commit
      ok := AppendCommit(active, progWord, d, append);
      if ok {
        FetchedOff(before, progWord as nat, d);
        SameRev(before, active[..], d.off);
        ghost var q := Pair(b0[..], b1[..]);
        SameLength(before, active[..], d.off);
        AppendedOk(p, side, q);
        OkIsActive(q, side);
        return true, side;
      }
    }
    // fall back to compaction, with the revision counted up
    ok := CompactInto(other, progWord, rev + 1, all);
    side' := !side;
    if ok {
      ghost var q := Pair(b0[..], b1[..]);
      if d.erased {
        FetchedOff(before, progWord as nat, d);
        SameRev(before, active[..], d.off);
      }
      NextIsNewer(rev);
      CompactedOk(q, side');
      OkIsActive(q, side');
    }
  }

  lemma OkIntact(p: Pair, side: bool)
    requires PairOk(p, side)
    ensures Intact(p.Block(side))
  {
  }

  lemma FetchedOff(block: seq<Byte>, progSize: nat, d: Mdir)
    requires progSize > 0 && Fetched(block, progSize, Some(d))
    ensures d.off >= 8
  {
    hide Commits, WellFormed, CanAppend;
  }

  lemma AppendedOk(p: Pair, side: bool, q: Pair)
    requires PairOk(p, side) && q.Sized() && q.Block(!side) == p.Block(!side)
    requires Intact(q.Block(side)) && LE32At(q.Block(side), 0) == LE32At(p.Block(side), 0)
    ensures PairOk(q, side)
  {
    hide Commits, Pack, Newer, Written;
  }

  lemma CompactedOk(q: Pair, side: bool)
    requires q.Sized() && Intact(q.Block(side)) && Newer(q.Rev(side), q.Rev(!side))
    requires !Newer(q.Rev(!side), q.Rev(side))
    ensures PairOk(q, side)
  {
    hide Commits, Pack, Newer, Written;
  }
}
