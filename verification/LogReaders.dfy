/** What is read from a block is in the core of its log: what lookups find, the tail, and the
    difference in global state that a mount adds up. */
module LogReaders {
  import opened Wrappers
  import opened Bytes
  import opened Crc32
  import opened MetaLog
  import opened TagWord
  import opened MetaBlock
  import opened CoreLog
  import opened MetaFetch
  import opened MetaLookup
  import opened GlobalState

  const MOVESTATE: bv11 := 0x7ff

  // ---- Lookups ----

  /** No reader asks for CRCs. */
  ghost predicate Asks(sel: Selector) { forall ty :: Serves(ty) ==> !sel.Selects(ty) }

  lemma {:induction false} LastInCore(log: seq<Tag>, sel: Selector)
    requires Asks(sel)
    ensures LastTag(Core(log), sel) == LastTag(log, sel)
  {
    hide Serves;
    if log == [] {
    } else {
      var init, last := log[..|log| - 1], log[|log| - 1];
      LastInCore(init, sel);
      if Serves(last.ty) {
        assert Core(log) == Core(init) && !sel.Selects(last.ty);
      } else {
        assert Core(log) == Core(init) + [last] && Core(log)[..|Core(log)| - 1] == Core(init);
      }
    }
  }

  /** A lookup, of an entry or of the log as a whole, is answered by the core. */
  lemma WantedInCore(log: seq<Tag>, hidden: Option<nat>, q: Query)
    requires q.id.Some? || Asks(q.sel)
    ensures Wanted(Core(log), hidden, q) == Wanted(log, hidden, q)
  {
    hide Replay, Lookup, LastTag, Asks, Core;
    if q.id.None? {
      LastInCore(log, q.sel);
    } else {
      CoreReplays(EMPTY_DIR, log);
      if hidden.Some? {
        var gone := [Tag(DELETE, hidden.value, MetaLog.Bytes([]))];
        ReplayConcat(EMPTY_DIR, Core(log), gone);
        ReplayConcat(EMPTY_DIR, log, gone);
      }
    }
  }

  // ---- The tail ----

  /** The tail that a log names last. */
  ghost function TailIn(log: seq<Tag>): Tail {
    match LastTag(log, Selector(TYPE1, TAIL))
    case Some(t) =>
      if t.payload.Bytes? && |t.payload.bytes| >= 8 then Tail(t.ty & 1 == 1, t.payload.bytes[..8]) else NULL_TAIL
    case None => NULL_TAIL
  }

  predicate LongTail(t: Tag) { t.ty & TYPE1 == TAIL ==> t.payload.Bytes? && |t.payload.bytes| >= 8 }

  /** Every tail tag has the two addresses that it is to hold. */
  ghost predicate LongTails(log: seq<Tag>) {
    forall i :: 0 <= i < |log| ==> LongTail(log[i])
  }

  lemma {:induction false} LastTail(block: seq<Byte>, tags: seq<Stored>)
    requires AllIn(block, tags)
    ensures
      var s, t := LastOf(tags, TYPE1, TAIL), LastTag(Log(block, tags), Selector(TYPE1, TAIL));
      && (s.Some? <==> t.Some?)
      && (s.Some? ==> s.value in tags && s.value.In(block) && t.value == s.value.ToTag(block)
                      && t.value in Log(block, tags))
  {
    hide TypeOf, IdBits, SizeOf, IsDelete, DSize;
    if tags == [] {
    } else {
      var log, init, last := Log(block, tags), tags[..|tags| - 1], tags[|tags| - 1];
      LastTail(block, init);
      assert log[..|log| - 1] == Log(block, init) && log[|log| - 1] == last.ToTag(block);
      TailSelected(TypeOf(last.word));
    }
  }

  lemma TailSelected(ty: bv11)
    ensures Selector(TYPE1, TAIL).Selects(ty) <==> ty & TYPE1 == TAIL
  {
    assert TYPE1 & ty == ty & TYPE1 && TYPE1 & TAIL == TAIL;
  }

  /** The tail that a fetch finds is the last one of the log. */
  lemma FetchedTail(block: seq<Byte>)
    requires LongTails(LogOf(block))
    ensures TailOf(block, AllTags(Commits(block))) == TailIn(LogOf(block))
  {
    hide Commits, AllTags, LastOf, LastTag, TypeOf, IdBits, SizeOf, DSize;
    var tags := AllTags(Commits(block));
    AllTagsIn(block, Commits(block));
    LastTail(block, tags);
    var s, t := LastOf(tags, TYPE1, TAIL), LastTag(LogOf(block), Selector(TYPE1, TAIL));
    if s.Some? {
      LastSelected(LogOf(block), Selector(TYPE1, TAIL));
      TailSelected(t.value.ty);
      var i :| 0 <= i < |LogOf(block)| && LogOf(block)[i] == t.value;
      assert LongTail(t.value);
      DSizeIs(s.value.word);
      TailBytes(block, s.value);
    }
  }

  lemma TailBytes(block: seq<Byte>, s: Stored)
    requires s.In(block) && !IsDelete(s.word) && SizeOf(s.word) >= 8 && DSize(s.word) == 4 + SizeOf(s.word)
    ensures s.off + 12 <= |block|
    ensures block[s.off + 4..s.off + 4 + SizeOf(s.word)][..8] == block[s.off + 4..s.off + 12]
  {
    hide TypeOf, IdBits, SizeOf, DSize, IsDelete;
  }

  lemma {:induction false} LastSelected(log: seq<Tag>, sel: Selector)
    ensures var t := LastTag(log, sel); t.Some? ==> t.value in log && sel.Selects(t.value.ty)
  {
    if log == [] {
    } else {
      LastSelected(log[..|log| - 1], sel);
    }
  }

  lemma AsksForTails()
    ensures Asks(Selector(TYPE1, TAIL))
  {
    forall ty | Serves(ty) ensures !Selector(TYPE1, TAIL).Selects(ty) {
      ServiceType(ty);
      TailSelected(ty);
    }
  }

  lemma {:induction false} CoreLongTails(log: seq<Tag>)
    ensures LongTails(Core(log)) <==> LongTails(log)
  {
    hide Serves;
    if log == [] {
    } else {
      var init, last := log[..|log| - 1], log[|log| - 1];
      CoreLongTails(init);
      assert log == init + [last];
      if Serves(last.ty) { ServiceType(last.ty); }
      LongTailsConcat(init, [last]);
      LongTailsConcat(Core(init), CoreTag(last));
    }
  }

  lemma LongTailsConcat(a: seq<Tag>, b: seq<Tag>)
    ensures LongTails(a + b) <==> LongTails(a) && LongTails(b)
  {
    hide LongTail;
    if LongTails(a + b) {
      forall i | 0 <= i < |a| ensures LongTail(a[i]) { assert (a + b)[i] == a[i]; }
      forall i | 0 <= i < |b| ensures LongTail(b[i]) { assert (a + b)[|a| + i] == b[i]; }
    }
  }

  // ---- Global state ----

  /** Bytes as a lookup into a buffer of that size brings them: cut or padded with zeros. */
  function Buffer(bytes: seq<Byte>, size: nat): (r: seq<Byte>)
    ensures |r| == size
  {
    if |bytes| >= size then bytes[..size] else bytes + seq(size - |bytes|, _ => 0)
  }

  function GStateOf(b: seq<Byte>): GState
    requires |b| == 12
  {
    GState(Pack(b[..4]), (Pack(b[4..8]), Pack(b[8..])))
  }

  /** The difference in global state that a log stores, which a mount adds up. */
  ghost function DeltaIn(log: seq<Tag>): GState {
    match Wanted(log, None, Query(Selector(MOVESTATE, MOVESTATE), None))
    case Some(a) => if a.payload.Bytes? then GStateOf(Buffer(a.payload.bytes, 12)) else ZERO
    case None => ZERO
  }

  lemma AsksForDelta()
    ensures Asks(Selector(MOVESTATE, MOVESTATE))
  {
    forall ty | Serves(ty) ensures !Selector(MOVESTATE, MOVESTATE).Selects(ty) { DeltaSelected(ty); }
  }

  lemma DeltaSelected(ty: bv11)
    ensures Selector(MOVESTATE, MOVESTATE).Selects(ty) <==> ty == MOVESTATE
    ensures Serves(ty) ==> ty != MOVESTATE
  {
  }

  /** The tag by which a commit stores a difference. */
  function DeltaTag(g: GState): Tag {
    Tag(MOVESTATE, 0x3ff, MetaLog.Bytes(Bytes32(g.tag) + Bytes32(g.pair.0) + Bytes32(g.pair.1)))
  }

  /** A stored difference is read back, whatever was stored before. */
  lemma DeltaIsStored(log: seq<Tag>, g: GState)
    ensures DeltaIn(log + [DeltaTag(g)]) == g
  {
    hide Pack, Bytes32;
    DeltaSelected(MOVESTATE);
    var b := Bytes32(g.tag) + Bytes32(g.pair.0) + Bytes32(g.pair.1);
    assert b[..12] == b && b[..4] == Bytes32(g.tag) && b[4..8] == Bytes32(g.pair.0) && b[8..] == Bytes32(g.pair.1);
    PackBytes32(g.tag);
    PackBytes32(g.pair.0);
    PackBytes32(g.pair.1);
  }

  /** Without such a tag the old one stays in force. */
  lemma {:induction false} DeltaStays(log: seq<Tag>, more: seq<Tag>)
    requires forall i :: 0 <= i < |more| ==> more[i].ty != MOVESTATE
    ensures DeltaIn(log + more) == DeltaIn(log)
  {
    if more == [] {
      assert log + more == log;
    } else {
      assert (log + more)[..|log + more| - 1] == log + more[..|more| - 1];
      DeltaStays(log, more[..|more| - 1]);
      DeltaSelected(more[|more| - 1].ty);
    }
  }

  // ---- All of it ----

  /** Two logs with the same core are the same to every reader: lookups, entries, tail and
      stored difference. */
  lemma SaysTheSame(a: seq<Tag>, b: seq<Tag>, hidden: Option<nat>, q: Query)
    requires Core(a) == Core(b) && (q.id.Some? || Asks(q.sel))
    ensures Wanted(a, hidden, q) == Wanted(b, hidden, q)
    ensures Replay(EMPTY_DIR, a) == Replay(EMPTY_DIR, b)
    ensures DeltaIn(a) == DeltaIn(b) && TailIn(a) == TailIn(b)
    ensures LongTails(a) <==> LongTails(b)
  {
    hide LastTag, Replay, LongTails, Asks, Wanted, Core;
    CoreReplays(EMPTY_DIR, a);
    CoreReplays(EMPTY_DIR, b);
    WantedInCore(a, hidden, q);
    WantedInCore(b, hidden, q);
    AsksForDelta();
    WantedInCore(a, None, Query(Selector(MOVESTATE, MOVESTATE), None));
    WantedInCore(b, None, Query(Selector(MOVESTATE, MOVESTATE), None));
    AsksForTails();
    LastInCore(a, Selector(TYPE1, TAIL));
    LastInCore(b, Selector(TYPE1, TAIL));
    CoreLongTails(a);
    CoreLongTails(b);
  }
}
