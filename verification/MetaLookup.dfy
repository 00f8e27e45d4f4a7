/** Looking up an attribute in a fetched block, by walking its tags backward from the end of
    the last commit and following the looked-up id through the splices on the way. */
module MetaLookup {
  import opened Wrappers
  import opened Bytes
  import opened Crc32
  import opened MetaLog
  import opened TagWord
  import opened MetaBlock
  import opened MetaFetch

  /** A lookup's answer: the tag found, under the id asked for, and the bytes read. */
  datatype Slice = Read(ty: bv11, id: nat, size: nat, buffer: seq<Byte>) | NoEntry | Corrupt

  /** What a lookup asks for: which types, and of which id; without an id, any. */
  datatype Query = Query(sel: Selector, id: Option<nat>) {
    predicate Matches(w: bv32, id': int) {
      sel.Selects(TypeOf(w)) && (id.Some? ==> IdOf(w) == id')
    }
  }

  /** The log with the entry that a pending move hides taken out. */
  ghost function Effective(log: seq<Tag>, hidden: Option<nat>): seq<Tag> {
    if hidden.Some? then log + [Tag(DELETE, hidden.value, Bytes([]))] else log
  }

  /** The last tag that a query without an id accepts. */
  ghost function LastTag(log: seq<Tag>, sel: Selector): Option<Tag> {
    if log == [] then None
    else if sel.Selects(log[|log| - 1].ty) then Some(log[|log| - 1])
    else LastTag(log[..|log| - 1], sel)
  }

  ghost function Wanted(log: seq<Tag>, hidden: Option<nat>, q: Query): Option<Attr> {
    if q.id.Some? then Lookup(Replay(EMPTY_DIR, Effective(log, hidden)).Slot(q.id.value), q.sel)
    else
      var t := LastTag(log, q.sel);
      if t.Some? && !t.value.payload.Deleted? then Some(t.value.ToAttr()) else None
  }

  /** Reads that stay inside the attribute get its bytes, padded with zeros. */
  predicate Holds(buffer: seq<Byte>, goff: nat, gsize: nat, bytes: seq<Byte>) {
    && |buffer| == gsize
    && (forall j :: 0 <= j < gsize && j < |bytes| && goff + j < |bytes| ==> buffer[j] == bytes[goff + j])
    && (forall j :: |bytes| <= j < gsize ==> buffer[j] == 0)
  }

  ghost predicate Answers(r: Slice, want: Option<Attr>, q: Query, goff: nat, gsize: nat) {
    match want
    case None => r == NoEntry
    case Some(a) =>
      if r.Read? then
        && r.ty == a.ty && a.payload.Bytes? && r.size == |a.payload.bytes|
        && (q.id.Some? ==> r.id == q.id.value)
        && Holds(r.buffer, goff, gsize, a.payload.bytes)
      else
        // only reads past the attribute can leave the block
        r == Corrupt && goff > 0
  }

  ghost predicate OnlyCreatesAndDeletes(log: seq<Tag>) {
    forall i :: 0 <= i < |log| && log[i].ty & TYPE1 == SPLICE ==>
      log[i].ty == DELETE || (log[i].ty == CREATE && log[i].payload == Bytes([]))
  }

  // ---- One step back ----

  /** What is left to answer after the tags behind position n have been passed. */
  ghost function Remaining(log: seq<Tag>, q: Query, k: nat): Option<Attr> {
    if q.id.Some? then
      var r := Search(log, k, q.sel);
      if r.Found? && !r.a.payload.Deleted? then Some(r.a) else None
    else
      var t := LastTag(log, q.sel);
      if t.Some? && !t.value.payload.Deleted? then Some(t.value.ToAttr()) else None
  }

  lemma WantedIsRemaining(log: seq<Tag>, hidden: Option<nat>, q: Query)
    requires q.sel.ForAttrs() || q.id.None?
    ensures
      var k := if q.id.None? then 0
               else if hidden.Some? && hidden.value <= q.id.value then q.id.value + 1 else q.id.value;
      Wanted(log, hidden, q) == Remaining(log, q, k)
  {
    hide Replay;
    if q.id.Some? {
      var e := Effective(log, hidden);
      SearchIsReplay(EMPTY_DIR, e, q.id.value, q.sel);
      if hidden.Some? {
        assert e[..|e| - 1] == log;
      }
      var r := Search(e, q.id.value, q.sel);
      if r.From? { assert EMPTY_DIR.Slot(r.id) == []; }
    }
  }

  /** The splice a tag is for entries at or above its id: one up, one down, or none. */
  lemma StepCases(t: Tag, k: nat, sel: Selector)
    requires sel.ForAttrs()
    requires t.ty & TYPE1 == SPLICE ==> t.ty == DELETE || (t.ty == CREATE && t.payload == Bytes([]))
    ensures t.ty & TYPE1 == SPLICE ==> !sel.Selects(t.ty)
    ensures t.ty & TYPE1 == SPLICE && t.id <= k ==>
              StepBack(t, k, sel) == (if t.ty == DELETE then From(k + 1)
                                      else if t.id == k then Created else From(k - 1))
    ensures t.ty & TYPE1 == SPLICE && t.id > k ==> StepBack(t, k, sel) == From(k)
    ensures t.ty & TYPE1 != SPLICE ==>
              StepBack(t, k, sel) == if sel.Selects(t.ty) && t.id == k then Found(t.ToAttr()) else From(k)
  {
    SpliceTypes();
    SelectsAttrs(t.ty, sel);
  }

  lemma SpliceTypes()
    ensures CREATE & TYPE1 == SPLICE && DELETE & TYPE1 == SPLICE && CREATE != DELETE
  {
  }

  lemma SelectsAttrs(ty: bv11, sel: Selector)
    requires sel.ForAttrs()
    ensures sel.Selects(ty) ==> IsAttr(ty)
    ensures ty & TYPE1 == SPLICE ==> !IsAttr(ty)
  {
  }

  /** Reads the bytes of the attribute at `s`, from `goff` on, into `gsize` bytes. */
  method ReadSlice(block: seq<Byte>, s: Stored, id: nat, goff: nat, gsize: nat, ghost q: Query)
    returns (r: Slice)
    requires s.In(block) && !IsDelete(s.word)
    requires q.id.Some? ==> id == q.id.value
    ensures Answers(r, Some(s.ToTag(block).ToAttr()), q, goff, gsize)
  {
    hide TypeOf, IdBits, SizeOf, IsDelete;
    var size := SizeOf(s.word);
    var diff := if size <= gsize then size else gsize;
    var from := s.off + 4 + goff;
    if from + diff > |block| {
      return Corrupt;
    }
    var buffer := block[from..from + diff] + seq(gsize - diff, _ => 0);
    r := Read(TypeOf(s.word), id, size, buffer);
  }

  // ---- The walk ----

  lemma {:induction false} BackwardIn(block: seq<Byte>, tags: seq<Stored>, off: nat, ptag: bv32)
    requires Backward(block, tags, off, ptag)
    ensures AllIn(block, tags)
    decreases |tags|
  {
    hide WordAt, DSize;
    if tags == [] {
    } else {
      var last := tags[|tags| - 1];
      BackwardIn(block, tags[..|tags| - 1], last.off, Xor(WordAt(block, last.off), last.word));
    }
  }

  /** The walk has passed all but the first n tags; the entry looked up had id k there. */
  ghost predicate AtTag(block: seq<Byte>, tags: seq<Stored>, n: nat, off: nat, ntag: bv32, q: Query, k: int) {
    && n <= |tags| && AllIn(block, tags) && Backward(block, tags[..n], off, ntag)
    && OnlyCreatesAndDeletes(Log(block, tags))
    && (q.id.Some? ==> q.sel.ForAttrs() && k >= 0 && IdFits(Log(block, tags)[..n], k))
  }

  ghost function Left(block: seq<Byte>, tags: seq<Stored>, n: nat, q: Query, k: int): Option<Attr>
    requires AllIn(block, tags) && n <= |tags| && (q.id.Some? ==> k >= 0)
  {
    Remaining(Log(block, tags)[..n], q, if k >= 0 then k else 0)
  }

  lemma WalkStart(block: seq<Byte>, tags: seq<Stored>, off: nat, etag: bv32, hidden: Option<nat>, q: Query)
    requires Backward(block, tags, off, etag) && AllIn(block, tags)
    requires OnlyCreatesAndDeletes(Log(block, tags))
    requires q.id.Some? ==>
               q.sel.ForAttrs() && IdFits(Effective(Log(block, tags), hidden), q.id.value)
    ensures
      var id := if q.id.Some? then q.id.value else 0;
      var k := if q.id.Some? && hidden.Some? && hidden.value <= id then id + 1 else id;
      && AtTag(block, tags, |tags|, off, etag, q, k)
      && Left(block, tags, |tags|, q, k) == Wanted(Log(block, tags), hidden, q)
  {
    hide Backward, Replay;
    var log := Log(block, tags);
    assert tags[..|tags|] == tags && log[..|tags|] == log;
    WantedIsRemaining(log, hidden, q);
    if hidden.Some? {
      var e := Effective(log, hidden);
      assert e[..|e| - 1] == log;
      SpliceTypes();
    }
  }

  /** At offset 4 nothing is left; anywhere else there is a tag to step over. */
  lemma WalkMore(block: seq<Byte>, tags: seq<Stored>, n: nat, off: nat, ntag: bv32, q: Query, k: int)
    requires AtTag(block, tags, n, off, ntag, q, k)
    ensures n == 0 ==> off < 4 + DSize(ntag) && Left(block, tags, n, q, k) == None
    ensures n > 0 ==>
              && off >= 4 + DSize(ntag) && Clear(ntag) == tags[n - 1].word && IsValid(tags[n - 1].word)
              && off <= |block| && tags[n - 1].off == off - DSize(ntag)
              && Backward(block, tags[..n - 1], off - DSize(ntag),
                          Clear(Xor(WordAt(block, off - DSize(ntag)), ntag)))
  {
    hide WordAt, DSize, IsValid, Xor, Clear;
    ClearKeeps(ntag);
    if n == 0 {
      StartSize();
      ClearKeeps(START);
    } else {
      var last := tags[n - 1];
      assert tags[..n][n - 1] == last && tags[..n][..n - 1] == tags[..n - 1];
      var w := WordAt(block, last.off);
      ClearOfXor(w, ntag);
      ClearOfXor(w, last.word);
      ClearKeeps(ntag);
      ValidIsClear(last.word);
      ClearKeeps(Xor(w, ntag));
      ValidIsClear(Clear(Xor(w, ntag)));
      SameClear(block, tags[..n - 1], last.off, Xor(w, last.word), Clear(Xor(w, ntag)));
    }
  }

  /** Passing one tag: the entry was created there, or it is what was looked for, or the id
      the entry had before is known. */
  lemma IdStep(log: seq<Tag>, q: Query, k: nat)
    requires log != [] && q.id.Some? && q.sel.ForAttrs() && IdFits(log, k) && OnlyCreatesAndDeletes(log)
    ensures
      var init, t := log[..|log| - 1], log[|log| - 1];
      var splice := t.ty & TYPE1 == SPLICE && t.id <= k;
      var k' := if splice then k - SpliceOf(t.ty) else k;
      if splice && t.ty == CREATE && t.id == k then Remaining(log, q, k) == None
      else if q.sel.Selects(t.ty) && t.id == k' then
        Remaining(log, q, k) == (if t.payload.Deleted? then None else Some(t.ToAttr()))
      else k' >= 0 && IdFits(init, k') && Remaining(log, q, k) == Remaining(init, q, k')
  {
    hide SpliceOf, IsAttr;
    var t := log[|log| - 1];
    StepCases(t, k, q.sel);
    Splices();
    SpliceTypes();
  }

  lemma WalkStep(block: seq<Byte>, tags: seq<Stored>, n: nat, off: nat, ntag: bv32, q: Query, k: int)
    requires n > 0 && AtTag(block, tags, n, off, ntag, q, k)
    ensures
      var t := tags[n - 1];
      var k' := Moved(t.word, q, k);
      if CreatedHere(t.word, q, k) then Left(block, tags, n, q, k) == None
      else if q.Matches(t.word, k') then
        Left(block, tags, n, q, k) == (if IsDelete(t.word) then None else Some(t.ToTag(block).ToAttr()))
      else
        && (q.id.Some? ==> k' >= 0 && IdFits(Log(block, tags)[..n - 1], k'))
        && Left(block, tags, n, q, k) == Left(block, tags, n - 1, q, k')
  {
    hide Backward, TypeOf, IdBits, SizeBits, DSize, SpliceOf, Remaining, IdFits;
    var log, t := Log(block, tags), tags[n - 1];
    var tag := t.ToTag(block);
    var now := log[..n];
    assert now[|now| - 1] == tag && now[..|now| - 1] == log[..n - 1];
    if q.id.Some? {
      IdStep(now, q, k);
      CreatedIs(block, t, q, k);
    } else {
      AnyStep(now, q, if k >= 0 then k else 0);
    }
  }

  lemma AnyStep(log: seq<Tag>, q: Query, k: nat)
    requires log != [] && q.id.None?
    ensures
      var init, t := log[..|log| - 1], log[|log| - 1];
      if q.sel.Selects(t.ty) then
        Remaining(log, q, k) == (if t.payload.Deleted? then None else Some(t.ToAttr()))
      else Remaining(log, q, k) == Remaining(init, q, k)
  {
  }

  predicate CreatedHere(w: bv32, q: Query, k: int) {
    q.id.Some? && TypeOf(w) == CREATE && SizeOf(w) == 0 && IdOf(w) == k
  }

  lemma CreatedIs(block: seq<Byte>, t: Stored, q: Query, k: int)
    requires t.In(block) && q.id.Some?
    requires TypeOf(t.word) & TYPE1 == SPLICE ==>
               TypeOf(t.word) == DELETE || t.ToTag(block).payload == Bytes([])
    ensures CreatedHere(t.word, q, k) == (TypeOf(t.word) & TYPE1 == SPLICE && TypeOf(t.word) == CREATE
                                      && IdOf(t.word) == k)
  {
    hide TypeOf, IdBits, SizeOf, DSize, IsDelete;
    SpliceTypes();
    DSizeIs(t.word);
    DeleteSize(t.word);
  }

  lemma DeleteSize(w: bv32)
    ensures IsDelete(w) ==> SizeOf(w) == 0x3ff
  {
  }

  /** The id after passing a tag that was not the one looked for. */
  function Moved(w: bv32, q: Query, k: int): int {
    if q.id.Some? && TypeOf(w) & TYPE1 == SPLICE && IdOf(w) <= k then k - SpliceOf(TypeOf(w)) else k
  }

  lemma WalkOn(block: seq<Byte>, tags: seq<Stored>, n: nat, off: nat, ntag: bv32, q: Query, k: int)
    requires n > 0 && AtTag(block, tags, n, off, ntag, q, k)
    ensures
      var k' := Moved(tags[n - 1].word, q, k);
      && off >= DSize(ntag) && off <= |block|
      && ((q.id.Some? ==> k' >= 0 && IdFits(Log(block, tags)[..n - 1], k')) ==>
            AtTag(block, tags, n - 1, off - DSize(ntag),
                  Clear(Xor(WordAt(block, off - DSize(ntag)), ntag)), q, k'))
  {
    hide Backward, IdFits, TypeOf, IdBits, DSize, SpliceOf, Xor, Clear, WordAt, OnlyCreatesAndDeletes;
    WalkMore(block, tags, n, off, ntag, q, k);
  }

  lemma TagFields(ntag: bv32, word: bv32)
    requires Clear(ntag) == word
    ensures TypeOf(ntag) == TypeOf(word) && IdOf(ntag) == IdOf(word) && SizeOf(ntag) == SizeOf(word)
    ensures IsDelete(ntag) == IsDelete(word) && DSize(ntag) == DSize(word)
  {
    ClearKeeps(ntag);
  }

  lemma NoAnswer(q: Query, goff: nat, gsize: nat)
    ensures Answers(NoEntry, None, q, goff, gsize)
  {
  }

  /** Looks up what a query asks for in the commits read from a block. */
  method GetSlice(block: seq<Byte>, ghost tags: seq<Stored>, dirOff: nat, etag: bv32,
                  hidden: Option<nat>, q: Query, goff: nat, gsize: nat) returns (r: Slice)
    requires Backward(block, tags, dirOff, etag) && AllIn(block, tags)
    requires OnlyCreatesAndDeletes(Log(block, tags))
    requires q.id.Some? ==>
               q.sel.ForAttrs() && IdFits(Effective(Log(block, tags), hidden), q.id.value)
    ensures Answers(r, Wanted(Log(block, tags), hidden, q), q, goff, gsize)
  {
    hide Backward, TypeOf, IdBits, SizeBits, SizeOf, DSize, SpliceOf, Wanted, Left, Answers, AtTag,
      Clear, Xor, WordAt, IsDelete, OnlyCreatesAndDeletes, IdFits, AllIn, Log, IsValid;
    var off: nat := dirOff;
    var ntag := etag;
    var id := if q.id.Some? then q.id.value else 0;
    var gdiff := 0;
    if hidden.Some? && q.id.Some? && hidden.value <= id {
      // the hidden entry is in front of the one asked for
      gdiff := gdiff - 1;
    }
    ghost var n: nat := |tags|;
    WalkStart(block, tags, off, etag, hidden, q);
    while off >= 4 + DSize(ntag)
      invariant AtTag(block, tags, n, off, ntag, q, id - gdiff) && n <= |tags|
      invariant q.id.Some? ==> id - gdiff >= 0
      invariant Left(block, tags, n, q, id - gdiff) == Wanted(Log(block, tags), hidden, q)
      decreases off
    {
      WalkMore(block, tags, n, off, ntag, q, id - gdiff);
      WalkStep(block, tags, n, off, ntag, q, id - gdiff);
      WalkOn(block, tags, n, off, ntag, q, id - gdiff);
      TagFields(ntag, tags[n - 1].word);
      SpliceTypes();
      off := off - DSize(ntag);
      var tag := ntag;
      ntag := Clear(Xor(WordAt(block, off), tag));
      if q.id.Some? && TypeOf(tag) & TYPE1 == SPLICE && IdOf(tag) <= id - gdiff {
        if CreatedHere(tag, q, id - gdiff) {
          // the entry did not exist before this tag
          NoAnswer(q, goff, gsize);
          return NoEntry;
        }
        // before the splice the entry had another id
        gdiff := gdiff + SpliceOf(TypeOf(tag));
      }
      if q.Matches(tag, id - gdiff) {
        if IsDelete(tag) {
          NoAnswer(q, goff, gsize);
          return NoEntry;
        }
        assert Stored(off, Clear(tag)) == tags[n - 1];
        r := ReadSlice(block, Stored(off, Clear(tag)), if q.id.Some? then id else IdOf(tag), goff, gsize, q);
        return;
      }
      n := n - 1;
    }
    WalkMore(block, tags, n, off, ntag, q, id - gdiff);
    NoAnswer(q, goff, gsize);
    return NoEntry;
  }

  // ---- Lookups in a fetched directory ----

  lemma {:induction false} WellFormedSplices(log: seq<Tag>)
    requires WellFormed(log)
    ensures OnlyCreatesAndDeletes(log)
  {
    if log == [] {
    } else {
      var init := log[..|log| - 1];
      WellFormedSplices(init);
      assert forall i :: 0 <= i < |init| ==> log[i] == init[i];
    }
  }

  /** Taking out an entry that is there leaves a well-formed log. */
  lemma EffectiveFits(log: seq<Tag>, hidden: Option<nat>, id: nat)
    requires WellFormed(log) && (hidden.Some? ==> hidden.value < |Replay(EMPTY_DIR, log).entries|)
    requires id < |Replay(EMPTY_DIR, Effective(log, hidden)).entries|
    ensures IdFits(Effective(log, hidden), id)
  {
    var e := Effective(log, hidden);
    if hidden.Some? {
      assert e[..|e| - 1] == log;
      assert !IsAttr(DELETE) && DELETE & TYPE1 == SPLICE && DELETE != CREATE;
    }
    EntriesFit(e, id);
  }

  /** The whole attribute an entry of a fetched directory has, if it has one. */
  method Get(block: seq<Byte>, d: Mdir, hidden: Option<nat>, sel: Selector, id: nat, size: nat,
             ghost progSize: nat) returns (r: Slice)
    requires progSize > 0 && Fetched(block, progSize, Some(d)) && WellFormed(LogOf(block))
    requires sel.ForAttrs() && (hidden.Some? ==> hidden.value < d.count)
    requires id < |Replay(EMPTY_DIR, Effective(LogOf(block), hidden)).entries|
    ensures
      var a := Lookup(Replay(EMPTY_DIR, Effective(LogOf(block), hidden)).Slot(id), sel);
      if a.None? then r == NoEntry
      else
        && r.Read? && r.ty == a.value.ty && r.id == id && a.value.payload.Bytes?
        && r.size == |a.value.payload.bytes|
        && (r.size <= size ==> |r.buffer| == size && r.buffer[..r.size] == a.value.payload.bytes)
  {
    hide Replay, WellFormed, Commits, Backward, AllTags, Lookup, Effective, CanAppend, IdFits, TailOf;
    ghost var tags := AllTags(Commits(block));
    AllTagsIn(block, Commits(block));
    CommitsBackward(block);
    WellFormedSplices(LogOf(block));
    EffectiveFits(LogOf(block), hidden, id);
    var q := Query(sel, Some(id));
    r := GetSlice(block, tags, d.off, d.etag, hidden, q, 0, size);
    ghost var a := Wanted(LogOf(block), hidden, q);
    if a.Some? && r.size <= size {
      assert r.buffer[..r.size] == a.value.payload.bytes;
    }
  }
}
