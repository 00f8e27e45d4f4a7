/** What a commit to a metadata pair means, whichever way it is written: entries, tail and global
    state as the queue of changes says. */
module PairCommit {
  import opened Wrappers
  import opened Bytes
  import opened MetaLog
  import opened TagWord
  import opened MetaBlock
  import opened CoreLog
  import opened MetaFetch
  import opened MetaLookup
  import opened CommitWriter
  import opened MetaCommit
  import opened MetaPair
  import opened GlobalState
  import opened LogReaders
  import opened EntryOrder
  import Compaction
  import CompactionOutput
  import Traverse

  /** Tags of tails and global state say nothing about entries. */
  ghost predicate NoEntries(tags: seq<Tag>) {
    forall i :: 0 <= i < |tags| ==> tags[i].ty != CREATE && tags[i].ty != DELETE && !IsAttr(tags[i].ty)
  }

  lemma {:induction false} NoEntriesReplay(d: Dir, tags: seq<Tag>)
    requires NoEntries(tags)
    ensures Replay(d, tags) == d
  {
    hide IsAttr;
    if tags == [] {
    } else {
      NoEntriesReplay(d, tags[..|tags| - 1]);
    }
  }

  /** Appending a queue of changes, as a walk over the queue puts it into tags, or compacting
      log and queue: either way what is read then is the log changed by the queue. */
  lemma EitherWayUpdated(log: seq<Tag>, pending: seq<Traverse.Item>, count: nat,
                         append: seq<Tag>, all: seq<Tag>, behind: seq<Tag>, after: seq<Tag>)
    requires append == Traverse.Walk(Compaction.AppendFrame(pending)) + behind
    requires all == Traverse.Walk(Compaction.CompactFrame(Traverse.Plains(log) + pending, 0, count)) + after
    requires NoEntries(behind) && NoEntries(after) && Compaction.Acceptable(pending)
    requires forall i :: 0 <= i < |log| ==> Compaction.Storable(log[i].ty)
    ensures Replay(EMPTY_DIR, log + append) == Compaction.Updated(log, pending)
    ensures Compaction.SameEntries(Replay(EMPTY_DIR, all), Compaction.Updated(log, pending), 0, count)
  {
    hide Replay, Compaction.Updated, Traverse.Walk, Compaction.Meaning, Lookup, NoEntries;
    var d := Replay(EMPTY_DIR, log);
    Compaction.AppendWritesMeaning(pending);
    ReplayConcat(EMPTY_DIR, log, append);
    ReplayConcat(d, Compaction.Expand(pending), behind);
    NoEntriesReplay(Replay(d, Compaction.Expand(pending)), behind);
    UpdatedIs(log, pending);
    var items := Traverse.Plains(log) + pending;
    var out := Traverse.Walk(Compaction.CompactFrame(items, 0, count));
    Compaction.LogIsAcceptable(log, pending);
    Compaction.MeaningIsUpdated(log, pending);
    ReplayConcat(EMPTY_DIR, out, after);
    NoEntriesReplay(Replay(EMPTY_DIR, out), after);
    forall k: nat, c | k < count && Compaction.IsClass(c)
      ensures Lookup(Replay(EMPTY_DIR, out).Slot(k), c) == Lookup(Compaction.Updated(log, pending).Slot(0 + k), c)
    {
      Compaction.CompactionKeepsMeaning(items, 0, count, out, k, c);
    }
  }

  lemma UpdatedIs(log: seq<Tag>, pending: seq<Traverse.Item>)
    ensures Compaction.Updated(log, pending) == Replay(Replay(EMPTY_DIR, log), Compaction.Expand(pending))
  {
  }

  // ---- What is written besides the walked tags ----

  const NULL_BLOCK: seq<Byte> := [0xff, 0xff, 0xff, 0xff]

  predicate IsNull(t: Tail) { |t.pair| != 8 || t.pair[..4] == NULL_BLOCK || t.pair[4..] == NULL_BLOCK }

  function TailTags(t: Tail): seq<Tag> {
    if IsNull(t) then [] else [Tag(if t.split then TAIL + 1 else TAIL, 0x3ff, MetaLog.Bytes(t.pair))]
  }

  /** An append stores the difference if there is a change to add to it. */
  function DeltaBehind(delta: GState, had: GState): seq<Tag> {
    if delta == ZERO then [] else [DeltaTag(GXor(delta, had))]
  }

  /** A compaction stores the tail, and the difference if there is one. */
  function TailAndDelta(t: Tail, delta: GState, had: GState): seq<Tag> {
    TailTags(t) + if GXor(delta, had) == ZERO then [] else [DeltaTag(GXor(delta, had))]
  }

  lemma NotEntries(t: Tail, g: GState)
    ensures NoEntries(TailTags(t)) && NoEntries([DeltaTag(g)])
    ensures forall x :: x in TailTags(t) ==> x.ty != MOVESTATE
  {
  }

  /** A log that ends in a tail tag and perhaps the difference names that tail, and stores that
      difference. */
  lemma SaysTailAndDelta(out: seq<Tag>, t: Tail, delta: GState, had: GState)
    requires forall i :: 0 <= i < |out| ==> IsAttr(out[i].ty)
    ensures
      var all := out + TailAndDelta(t, delta, had);
      && DeltaIn(all) == GXor(delta, had)
      && TailIn(all) == if IsNull(t) then NULL_TAIL else t
  {
    hide GXor;
    var g := GXor(delta, had);
    NotEntries(t, g);
    forall i | 0 <= i < |out| ensures out[i].ty != MOVESTATE && out[i].ty & TYPE1 != TAIL { AttrTypes(out[i].ty); }
    NoDelta(out);
    DeltaStays(out, TailTags(t));
    TailOnly(out, t);
    assert out + TailAndDelta(t, delta, had) == out + TailTags(t) + (if g == ZERO then [] else [DeltaTag(g)]);
    if g == ZERO {
      assert out + TailTags(t) + [] == out + TailTags(t);
    } else {
      DeltaIsStored(out + TailTags(t), g);
      TailStays(out + TailTags(t), [DeltaTag(g)]);
    }
  }

  lemma AttrTypes(ty: bv11)
    requires IsAttr(ty)
    ensures ty != MOVESTATE && ty & TYPE1 != TAIL
  {
  }

  lemma NoDelta(log: seq<Tag>)
    requires forall i :: 0 <= i < |log| ==> log[i].ty != MOVESTATE
    ensures DeltaIn(log) == ZERO
  {
    assert [] + log == log;
    DeltaStays([], log);
  }

  lemma {:induction false} TailStays(log: seq<Tag>, more: seq<Tag>)
    requires forall i :: 0 <= i < |more| ==> more[i].ty & TYPE1 != TAIL
    ensures TailIn(log + more) == TailIn(log)
  {
    if more == [] {
      assert log + more == log;
    } else {
      assert (log + more)[..|log + more| - 1] == log + more[..|more| - 1];
      TailStays(log, more[..|more| - 1]);
      TailSelected(more[|more| - 1].ty);
    }
  }

  lemma TailOnly(out: seq<Tag>, t: Tail)
    requires forall i :: 0 <= i < |out| ==> out[i].ty & TYPE1 != TAIL
    ensures TailIn(out + TailTags(t)) == if IsNull(t) then NULL_TAIL else t
  {
    assert [] + out == out && out + [] == out;
    TailStays([], out);
    TailTypes();
    if !IsNull(t) {
      TailSelected(TAIL);
      TailSelected(TAIL + 1);
      assert t.pair[..8] == t.pair;
    }
  }

  lemma TailTypes()
    ensures TAIL & TYPE1 == TAIL && (TAIL + 1) & TYPE1 == TAIL
    ensures TAIL & 1 == 0 && (TAIL + 1) & 1 == 1
  {
  }

  // ---- A commit from one block of bytes to the next ----

  ghost predicate Queues(log: seq<Tag>, pending: seq<Traverse.Item>) {
    && Compaction.Acceptable(pending)
    && (forall i :: 0 <= i < |log| ==> Compaction.Storable(log[i].ty))
    && forall t :: t in Compaction.Expand(pending) ==> t.ty != MOVESTATE
  }

  /** What a reader finds after a commit: the entries that the queue leaves, the tail that it
      leaves, and the difference in global state with the change added. */
  ghost predicate Committed(log: seq<Tag>, log': seq<Tag>, pending: seq<Traverse.Item>, count: nat,
                            delta: GState)
  {
    var t := TailIn(log + Compaction.Expand(pending));
    && Compaction.SameEntries(Replay(EMPTY_DIR, log'), Compaction.Updated(log, pending), 0, count)
    && DeltaIn(log') == GXor(delta, DeltaIn(log))
    && (TailIn(log') == t || (IsNull(t) && TailIn(log') == NULL_TAIL))
  }

  lemma AppendCommits(log: seq<Tag>, log': seq<Tag>, pending: seq<Traverse.Item>, count: nat,
                      append: seq<Tag>, delta: GState)
    requires Queues(log, pending)
    requires append == Traverse.Walk(Compaction.AppendFrame(pending)) + DeltaBehind(delta, DeltaIn(log))
    requires Core(log') == Core(log) + Core(append)
    ensures Committed(log, log', pending, count, delta)
    ensures LongTails(log) && LongTails(append) ==> LongTails(log')
  {
    hide Traverse.Walk, Compaction.Expand, Compaction.Updated, Compaction.Acceptable, Replay, Core, DeltaIn, TailIn,
      GXor, LongTails, Lookup;
    var out, behind, g := Compaction.Expand(pending), DeltaBehind(delta, DeltaIn(log)), GXor(delta, DeltaIn(log));
    Compaction.AppendWritesMeaning(pending);
    CoreConcat(log, append);
    SaysTheSame(log', log + append, None, Query(Selector(0, 0), Some(0)));
    LongTailsConcat(log, append);
    NotEntries(NULL_TAIL, g);
    assert NoEntries(behind);
    EitherWayUpdated(log, pending, count, append,
                     Traverse.Walk(Compaction.CompactFrame(Traverse.Plains(log) + pending, 0, count)) + [],
                     behind, []);
    assert log + append == log + out + behind;
    DeltaStays(log, out);
    DeltaTagType(g);
    TailStays(log + out, behind);
    if delta == ZERO {
      assert log + out + [] == log + out;
      GComm(ZERO, DeltaIn(log));
      GCancel(DeltaIn(log));
    } else {
      DeltaIsStored(log + out, g);
    }
  }

  lemma DeltaTagType(g: GState)
    ensures DeltaTag(g).ty & TYPE1 != TAIL
  {
  }

  lemma CompactCommits(log: seq<Tag>, log': seq<Tag>, pending: seq<Traverse.Item>, count: nat,
                       all: seq<Tag>, delta: GState)
    requires Queues(log, pending)
    requires
      var t := TailIn(log + Compaction.Expand(pending));
      all == Traverse.Walk(Compaction.CompactFrame(Traverse.Plains(log) + pending, 0, count))
             + TailAndDelta(t, delta, DeltaIn(log))
    requires Core(log') == Core(all)
    ensures Committed(log, log', pending, count, delta)
    ensures LongTails(all) ==> LongTails(log')
  {
    hide Traverse.Walk, Compaction.Expand, Compaction.Updated, Replay, Core, DeltaIn, TailIn,
      GXor, LongTails, Lookup;
    var items := Traverse.Plains(log) + pending;
    var out := Traverse.Walk(Compaction.CompactFrame(items, 0, count));
    var t, g := TailIn(log + Compaction.Expand(pending)), GXor(delta, DeltaIn(log));
    SaysTheSame(log', all, None, Query(Selector(0, 0), Some(0)));
    NotEntries(t, g);
    assert NoEntries(TailAndDelta(t, delta, DeltaIn(log)));
    EitherWayUpdated(log, pending, count, Traverse.Walk(Compaction.AppendFrame(pending)) + [], all, [],
                     TailAndDelta(t, delta, DeltaIn(log)));
    OutIsAttrs(log, pending, count);
    SaysTailAndDelta(out, t, delta, DeltaIn(log));
  }

  lemma OutIsAttrs(log: seq<Tag>, pending: seq<Traverse.Item>, count: nat)
    requires Queues(log, pending)
    ensures
      var out := Traverse.Walk(Compaction.CompactFrame(Traverse.Plains(log) + pending, 0, count));
      forall i :: 0 <= i < |out| ==> IsAttr(out[i].ty)
  {
    hide Traverse.Walk, Compaction.Expand, IsAttr;
    var items := Traverse.Plains(log) + pending;
    Compaction.LogIsAcceptable(log, pending);
    CompactionOutput.AnyCovers(items, 0, count);
    Compaction.OutputShape(Compaction.CompactFrame(items, 0, count));
  }

  /** Written tails are as long as the two addresses they hold. */
  lemma WrittenTails(attrs: seq<Mattr>)
    requires AllWritable(attrs)
    ensures LongTails(Tags(attrs))
  {
    hide TypeOf, IdBits, SizeOf, DSize, IsDelete, IsCcrc, IsValid;
    forall i | 0 <= i < |attrs| ensures LongTail(Tags(attrs)[i]) {
      assert attrs[i].Writable();
      DSizeIs(attrs[i].word);
    }
  }

  // ---- Logs stay proper ----

  lemma NotEntryTypes(t: Tail, g: GState)
    ensures forall x :: x in TailTags(t) || x == DeltaTag(g) ==> x.ty & TYPE1 != SPLICE
  {
  }

  lemma {:induction false} NoEntriesFit(d: Dir, tags: seq<Tag>)
    requires NoEntries(tags) && forall x :: x in tags ==> x.ty & TYPE1 != SPLICE
    ensures AllFit(d, tags)
  {
    if tags == [] {
    } else {
      NoEntriesFit(d, tags[..|tags| - 1]);
    }
  }

  lemma {:induction false} NoEntriesInOrder(d: Dir, tags: seq<Tag>)
    requires NoEntries(tags)
    ensures Orderly(d, Traverse.Plains(tags))
    decreases |tags|
  {
    hide Replay, IsAttr;
    if tags == [] {
    } else {
      assert Traverse.Plains(tags)[1..] == Traverse.Plains(tags[1..]);
      NoEntriesInOrder(Replay(d, Compaction.ExpandItem(Traverse.Plain(tags[0]))), tags[1..]);
    }
  }

  lemma BehindKeeps(log: seq<Tag>, behind: seq<Tag>)
    requires Proper(log) && NoEntries(behind) && forall x :: x in behind ==> x.ty & TYPE1 != SPLICE
    ensures Proper(log + behind) && AllFit(Replay(EMPTY_DIR, log), behind)
  {
    hide Replay, Orderly, WellFormed, Compaction.Expand;
    NoEntriesFit(Replay(EMPTY_DIR, log), behind);
    StaysWellFormed(log, behind);
    NoEntriesInOrder(Replay(EMPTY_DIR, log), behind);
    OrderlyMore(EMPTY_DIR, log, behind);
    ReplayConcat(EMPTY_DIR, log, behind);
    NoEntriesReplay(Replay(EMPTY_DIR, log), behind);
  }

  lemma {:induction false} OrderlyInCore(log: seq<Tag>)
    ensures Orderly(EMPTY_DIR, Traverse.Plains(Core(log))) <==> Orderly(EMPTY_DIR, Traverse.Plains(log))
  {
    hide Replay, Orderly, Compaction.Expand, Serves;
    if log == [] {
    } else {
      var init, last := log[..|log| - 1], log[|log| - 1];
      OrderlyInCore(init);
      OrderlyMore(EMPTY_DIR, init, [last]);
      OrderlyMore(EMPTY_DIR, Core(init), CoreTag(last));
      CoreReplays(EMPTY_DIR, init);
      assert log == init + [last];
      if Serves(last.ty) {
        ServiceType(last.ty);
        NoEntriesInOrder(Replay(EMPTY_DIR, init), [last]);
        NoEntriesInOrder(Replay(EMPTY_DIR, init), []);
      }
    }
  }

  lemma CoreKeeps(a: seq<Tag>, b: seq<Tag>)
    requires Core(a) == Core(b) && Proper(b) && WellFormed(a)
    ensures Proper(a)
  {
    hide Replay, Orderly, WellFormed, Core, AllNamed;
    OrderlyInCore(a);
    OrderlyInCore(b);
    CoreReplays(EMPTY_DIR, a);
    CoreReplays(EMPTY_DIR, b);
  }

  /** A directory that can take the queue, whose entries `count` is the number of then. */
  ghost predicate CanTake(log: seq<Tag>, pending: seq<Traverse.Item>, count: nat) {
    && Proper(log) && Accepts(Replay(EMPTY_DIR, log), pending)
    && count == |Compaction.Updated(log, pending).entries|
  }

  lemma ProperAppend(log: seq<Tag>, pending: seq<Traverse.Item>, count: nat, append: seq<Tag>, delta: GState)
    requires Queues(log, pending) && CanTake(log, pending, count)
    requires append == Traverse.Walk(Compaction.AppendFrame(pending)) + DeltaBehind(delta, DeltaIn(log))
    ensures Proper(log + append) && WellFormed(log) && AllFit(Replay(EMPTY_DIR, log), append)
  {
    hide Replay, Orderly, WellFormed, Core, AllNamed, Proper, Traverse.Walk, Compaction.Expand, Accepts, DeltaIn, GXor,
      AllFit, NoEntries;
    var out, behind := Traverse.Walk(Compaction.AppendFrame(pending)), DeltaBehind(delta, DeltaIn(log));
    var g := GXor(delta, DeltaIn(log));
    ProperParts(log);
    AppendKeeps(log, pending);
    NotEntries(NULL_TAIL, g);
    NotEntryTypes(NULL_TAIL, g);
    NoneAtAll();
    BehindKeeps(log + out, behind);
    assert log + append == log + out + behind;
    TakenFits(Replay(EMPTY_DIR, log), pending);
    Compaction.AppendWritesMeaning(pending);
    ReplayConcat(EMPTY_DIR, log, out);
    AllFitConcat(Replay(EMPTY_DIR, log), out, behind);
  }

  lemma NoneAtAll()
    ensures NoEntries([])
  {
  }

  lemma TakenFits(d: Dir, pending: seq<Traverse.Item>)
    requires Accepts(d, pending)
    ensures AllFit(d, Compaction.Expand(pending))
  {
  }

  lemma ProperCompact(log: seq<Tag>, pending: seq<Traverse.Item>, count: nat, all: seq<Tag>, t: Tail, delta: GState)
    requires Queues(log, pending) && CanTake(log, pending, count)
    requires all == Traverse.Walk(Compaction.CompactFrame(Traverse.Plains(log) + pending, 0, count))
                    + TailAndDelta(t, delta, DeltaIn(log))
    ensures Proper(all) && WellFormed(all)
  {
    hide Replay, Orderly, WellFormed, Core, AllNamed, Proper, Traverse.Walk, Compaction.Expand, Accepts, DeltaIn, GXor,
      AllFit, Compaction.Updated, NoEntries;
    var g := GXor(delta, DeltaIn(log));
    CompactionKeeps(log, pending, 0, count);
    NotEntries(t, g);
    NotEntryTypes(t, g);
    BehindTail(t, g);
    BehindKeeps(Traverse.Walk(Compaction.CompactFrame(Traverse.Plains(log) + pending, 0, count)),
                TailAndDelta(t, delta, DeltaIn(log)));
    ProperParts(all);
  }

  lemma BehindTail(t: Tail, g: GState)
    requires NoEntries(TailTags(t)) && NoEntries([DeltaTag(g)])
    ensures NoEntries(TailTags(t) + [DeltaTag(g)]) && NoEntries(TailTags(t) + [])
  {
    assert [DeltaTag(g)][0] == DeltaTag(g);
    assert TailTags(t) + [] == TailTags(t);
  }

  /** Commits a queue to a pair: `append` and `all` are the tags that the walks over the queue, or
      over log and queue, put out, with tail and difference behind them. */
  method Commit(b0: array<Byte>, b1: array<Byte>, progWord: bv32, side: bool, d: Mdir,
                append: seq<Mattr>, all: seq<Mattr>, ghost pending: seq<Traverse.Item>, ghost count: nat,
                ghost delta: GState)
    returns (ok: bool, side': bool)
    requires b0 != b1 && (progWord as nat) >= 8 && b0.Length % (progWord as nat) == 0
    requires PairOk(Pair(b0[..], b1[..]), side) && AllWritable(append) && AllWritable(all)
    requires Fetched(Pair(b0[..], b1[..]).Block(side), progWord as nat, Some(d))
    requires
      var log := LogOf(Pair(b0[..], b1[..]).Block(side));
      var t := TailIn(log + Compaction.Expand(pending));
      && Queues(log, pending)
      && Tags(append) == Traverse.Walk(Compaction.AppendFrame(pending)) + DeltaBehind(delta, DeltaIn(log))
      && Tags(all) == Traverse.Walk(Compaction.CompactFrame(Traverse.Plains(log) + pending, 0, count))
                      + TailAndDelta(t, delta, DeltaIn(log))
    modifies b0, b1
    ensures ok <==> (d.erased && (append == [] || d.off + SizeOfAll(append) <= b0.Length - 8))
                    || all == [] || 4 + SizeOfAll(all) <= b0.Length - 8
    ensures ok ==>
      var p, q := old(Pair(b0[..], b1[..])), Pair(b0[..], b1[..]);
      && PairOk(q, side') && Committed(LogOf(p.Block(side)), LogOf(q.Block(side')), pending, count, delta)
      && (LongTails(LogOf(p.Block(side))) ==> LongTails(LogOf(q.Block(side'))))
      && (CanTake(LogOf(p.Block(side)), pending, count) ==> Proper(LogOf(q.Block(side'))))
  {
    hide Commits, LogOf, Core, Fetched, SizeOfAll, PairOk, AllWritable, Queues, Committed, Traverse.Walk, DeltaIn,
      LongTails, CanTake, Proper, TailIn, Compaction.Expand, WellFormed, AllFit, Replay;
    ghost var log := LogOf(Pair(b0[..], b1[..]).Block(side));
    ok, side' := Update(b0, b1, progWord, side, d, append, all);
    WrittenTails(append);
    WrittenTails(all);
    if CanTake(log, pending, count) {
      ProperAppend(log, pending, count, Tags(append), delta);
      ProperCompact(log, pending, count, Tags(all), TailIn(log + Compaction.Expand(pending)), delta);
    }
    if ok {
      ghost var q := Pair(b0[..], b1[..]);
      OkIsActive(q, side');
      ghost var log' := LogOf(q.Block(side'));
      if side' == side {
        AppendCommits(log, log', pending, count, Tags(append), delta);
        CoreConcat(log, Tags(append));
        if CanTake(log, pending, count) { CoreKeeps(log', log + Tags(append)); }
      } else {
        CompactCommits(log, log', pending, count, Tags(all), delta);
        if CanTake(log, pending, count) { CoreKeeps(log', Tags(all)); }
      }
    }
  }
}
