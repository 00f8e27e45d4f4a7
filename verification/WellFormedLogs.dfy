/** The logs that are written are well-formed: the queues that the filesystem builds keep them
    so, and a compaction does, as long as each entry's name comes before its other attributes. */
module WellFormedLogs {
  import opened MetaLog
  import opened Traverse
  import opened Compaction

  // ---- What is appended ----

  lemma {:induction false} AttrsFit(d: Dir, attrs: seq<Attr>, id: nat)
    requires id < |d.entries| && forall i :: 0 <= i < |attrs| ==> IsAttr(attrs[i].ty)
    ensures AllFit(d, UserTags(attrs, id)) && |Replay(d, UserTags(attrs, id)).entries| == |d.entries|
  {
    var tags := UserTags(attrs, id);
    if attrs == [] {
    } else {
      var init, last := attrs[..|attrs| - 1], attrs[|attrs| - 1];
      assert tags[..|tags| - 1] == UserTags(init, id);
      AttrsFit(d, init, id);
      AttrFits(Replay(d, UserTags(init, id)), tags[|tags| - 1]);
    }
  }

  lemma AttrFits(d: Dir, t: Tag)
    requires IsAttr(t.ty) && t.id < |d.entries|
    ensures Fits(d, t) && |Apply(d, t).entries| == |d.entries|
  {
    AttrIsNoSplice(t.ty);
  }

  lemma AttrIsNoSplice(ty: bv11)
    requires IsAttr(ty)
    ensures ty & TYPE1 != SPLICE && ty != CREATE && ty != DELETE
  {
  }

  lemma SpliceFits(d: Dir, t: Tag)
    requires t.payload == Bytes([])
    requires if t.ty == CREATE then t.id <= |d.entries| < MAX_ENTRIES else t.ty == DELETE && t.id < |d.entries|
    ensures Fits(d, t)
    ensures |Apply(d, t).entries| == if t.ty == CREATE then |d.entries| + 1 else |d.entries| - 1
  {
    assert !IsAttr(CREATE) && !IsAttr(DELETE) && CREATE != DELETE;
  }

  /** A queue whose changes the directory can take, one after the other. */
  ghost predicate QueueFits(d: Dir, items: seq<Item>) { AllFit(d, Expand(items)) }

  lemma ItemFits(d: Dir, item: Item, items: seq<Item>)
    requires AllFit(d, ExpandItem(item)) && QueueFits(Replay(d, ExpandItem(item)), items)
    ensures QueueFits(d, [item] + items)
  {
    hide AllFit, ExpandItem, Replay;
    assert ([item] + items)[1..] == items;
    AllFitConcat(d, ExpandItem(item), Expand(items));
  }

  lemma PlainFits(d: Dir, t: Tag, items: seq<Item>)
    requires Fits(d, t) && QueueFits(Apply(d, t), items)
    ensures QueueFits(d, [Plain(t)] + items)
  {
    hide Fits, Apply, AllFit, QueueFits;
    OneFits(d, t);
    ExpandPlain(t);
    ItemFits(d, Plain(t), items);
  }

  /** A sync changes an entry that is there. */
  lemma SyncFits(d: Dir, data: Tag, attrs: seq<Attr>)
    requires IsAttr(data.ty) && data.id < |d.entries| && WellTyped(UserAttrs(data.id, attrs))
    ensures QueueFits(d, SyncQueue(data, data.id, attrs))
  {
    hide Apply, Fits, AllFit;
    var list := UserAttrs(data.id, attrs);
    UserAttrsAreAttrs(list);
    AttrFits(d, data);
    AttrsFit(Apply(d, data), attrs, data.id);
    NothingFits(Replay(Apply(d, data), ExpandItem(list)));
    ItemFits(Apply(d, data), list, []);
    assert [list] + [] == [list] && SyncQueue(data, data.id, attrs) == [Plain(data)] + [list];
    PlainFits(d, data, [list]);
  }

  lemma NothingFits(d: Dir)
    ensures QueueFits(d, [])
  {
  }

  /** A rename replaces or adds an entry, and takes out one that is there. */
  lemma RenameFits(d: Dir, replace: bool, newId: nat, name: Tag, oldId: nat, source: seq<Tag>,
                   samePair: bool, newOldId: nat)
    requires name.ty & TYPE1 == NAME && name.id == newId
    requires forall i :: 0 <= i < |source| ==> Storable(source[i].ty)
    requires if replace then newId < |d.entries| <= MAX_ENTRIES else newId <= |d.entries| < MAX_ENTRIES
    requires samePair ==> newOldId < |d.entries| + if replace then 0 else 1
    ensures QueueFits(d, RenameQueue(replace, newId, name, oldId, source, samePair, newOldId))
  {
    hide Apply, Fits, AllFit, Expand;
    var queue := RenameQueue(replace, newId, name, oldId, source, samePair, newOldId);
    var gone, made := Tag(DELETE, newId, Bytes([])), Tag(CREATE, newId, Bytes([]));
    var d0 := if replace then Apply(d, gone) else d;
    if replace { SpliceFits(d, gone); }
    SpliceFits(d0, made);
    RenamedFits(Apply(d0, made), name, oldId, source, samePair, newOldId);
    var made' := [Plain(made)] + Behind(name, oldId, source, samePair, newOldId);
    PlainFits(d0, made, Behind(name, oldId, source, samePair, newOldId));
    if replace {
      PlainFits(d, gone, made');
      assert queue == [Plain(gone)] + made';
    } else {
      assert queue == made';
    }
  }

  /** What comes behind the creation of the new entry. */
  function Behind(name: Tag, oldId: nat, source: seq<Tag>, samePair: bool, newOldId: nat): seq<Item> {
    [Plain(name)] + ([Move(name.id, oldId, source)]
      + (if samePair then [Plain(Tag(DELETE, newOldId, Bytes([])))] else []))
  }

  lemma RenamedFits(d: Dir, name: Tag, oldId: nat, source: seq<Tag>, samePair: bool, newOldId: nat)
    requires name.ty & TYPE1 == NAME && name.id < |d.entries|
    requires forall i :: 0 <= i < |source| ==> Storable(source[i].ty)
    requires samePair ==> newOldId < |d.entries|
    ensures QueueFits(d, Behind(name, oldId, source, samePair, newOldId))
  {
    hide Apply, Fits, AllFit, Expand, LiveAttrs;
    var m := Move(name.id, oldId, source);
    var gone := Tag(DELETE, newOldId, Bytes([]));
    var trailer := if samePair then [Plain(gone)] else [];
    NameIsAttr(name.ty);
    AttrFits(d, name);
    var d1 := Apply(d, name);
    ItemAttrs(m);
    AttrsFit(d1, Attrs(m), name.id);
    var d2 := Replay(d1, ExpandItem(m));
    if samePair {
      SpliceFits(d2, gone);
      NothingFits(Apply(d2, gone));
      PlainFits(d2, gone, []);
      assert [Plain(gone)] + [] == trailer;
    } else {
      NothingFits(d2);
    }
    ItemFits(d1, m, trailer);
    PlainFits(d, name, [m] + trailer);
  }

  /** Appending a queue that fits keeps a log well-formed. */
  lemma AppendKeepsWellFormed(log: seq<Tag>, pending: seq<Item>)
    requires WellFormed(log) && QueueFits(Replay(EMPTY_DIR, log), pending)
    ensures WellFormed(log + Walk(AppendFrame(pending)))
  {
    hide Walk, WellFormed, Expand, Replay;
    AppendWritesMeaning(pending);
    StaysWellFormed(log, Expand(pending));
  }

  // ---- What is compacted ----

  predicate IsName(t: Tag) { t.ty & TYPE1 == NAME }

  ghost predicate Named(tags: seq<Tag>, id: int) {
    exists i :: 0 <= i < |tags| && IsName(tags[i]) && tags[i].id == id
  }

  /** Each entry's name comes before its other attributes. */
  ghost predicate NamesFirst(tags: seq<Tag>) {
    forall j :: 0 <= j < |tags| && !IsName(tags[j]) ==> Named(tags[..j], tags[j].id)
  }

  lemma {:induction false} NamedEntries(tags: seq<Tag>, id: nat)
    requires Named(tags, id) && forall t :: t in tags ==> IsAttr(t.ty)
    ensures |Replay(EMPTY_DIR, tags).entries| > id
  {
    var init, last := tags[..|tags| - 1], tags[|tags| - 1];
    assert last in tags;
    AttrIsNoSplice(last.ty);
    var i :| 0 <= i < |tags| && IsName(tags[i]) && tags[i].id == id;
    if i < |tags| - 1 {
      assert init[i] == tags[i];
      NamedEntries(init, id);
    }
  }

  /** Attributes alone, names first, are a well-formed log. */
  lemma {:induction false} NamedIsWellFormed(tags: seq<Tag>)
    requires NamesFirst(tags) && forall t :: t in tags ==> IsAttr(t.ty) && t.id < MAX_ENTRIES
    ensures WellFormed(tags)
  {
    hide Replay;
    if tags == [] {
    } else {
      var init, last := tags[..|tags| - 1], tags[|tags| - 1];
      assert forall j :: 0 <= j < |init| ==> init[j] == tags[j] && init[..j] == tags[..j];
      NamedIsWellFormed(init);
      assert last in tags;
      AttrIsNoSplice(last.ty);
      if !IsName(last) { NamedEntries(init, last.id); }
      forall i | 0 <= i < |tags| ensures tags[i].ty & TYPE1 != SPLICE {
        assert tags[i] in tags;
        AttrIsNoSplice(tags[i].ty);
      }
    }
  }

  /** In what a level goes through, the name of each entry in its range comes first; `named` are
      the ids whose names have come. */
  ghost predicate NamesLead(fr: Frame, named: set<nat>)
    decreases |fr.rest|
  {
    fr.rest != [] ==>
      var item, next := fr.rest[0], fr.(rest := fr.rest[1..]);
      var f := Filter(item, next.rest);
      var isName := item.Plain? && IsName(item.tag) && fr.sel.Selects(item.Ty());
      && (fr.sel.Selects(item.Ty()) && !f.Noop? && fr.InRange(f.Id()) && !isName ==> f.Id() in named)
      && NamesLead(next, if isName && !f.Noop? then named + {f.Id()} else named)
  }

  ghost predicate AllNamed(before: seq<Tag>, named: set<nat>, fr: Frame) {
    forall k :: k in named && fr.InRange(k) ==> Named(before, k + fr.diff)
  }

  lemma NamedMore(before: seq<Tag>, more: seq<Tag>, id: int)
    requires Named(before, id)
    ensures Named(before + more, id)
  {
    var i :| 0 <= i < |before| && IsName(before[i]) && before[i].id == id;
    assert (before + more)[i] == before[i];
  }

  /** A group of attributes of an entry whose name has come, or a name. */
  lemma GroupNamed(before: seq<Tag>, attrs: seq<Attr>, id: nat)
    requires NamesFirst(before)
    requires Named(before, id) || forall i :: 0 <= i < |attrs| ==> attrs[i].ty & TYPE1 == NAME
    ensures NamesFirst(before + UserTags(attrs, id))
  {
    var group := UserTags(attrs, id);
    var all := before + group;
    forall j | 0 <= j < |all| && !IsName(all[j]) ensures Named(all[..j], all[j].id) {
      if j < |before| {
        assert all[..j] == before[..j];
      } else {
        assert all[j] == group[j - |before|] && all[..j] == before + group[..j - |before|];
        NamedMore(before, group[..j - |before|], id);
      }
    }
  }

  lemma NamesLeadStep(fr: Frame, named: set<nat>)
    requires fr.rest != [] && NamesLead(fr, named)
    ensures
      var item, next := fr.rest[0], fr.(rest := fr.rest[1..]);
      var f := Filter(item, next.rest);
      var isName := item.Plain? && IsName(item.tag) && fr.sel.Selects(item.Ty());
      && (fr.sel.Selects(item.Ty()) && !f.Noop? && fr.InRange(f.Id()) && !isName ==> f.Id() in named)
      && NamesLead(next, if isName && !f.Noop? then named + {f.Id()} else named)
  {
  }

  lemma EmittedTypes(item: Item, f: Item)
    requires f == item.WithId(f.Id()) || f.Noop?
    ensures item.Plain? && IsName(item.tag) ==> forall i :: 0 <= i < |Attrs(f)| ==> Attrs(f)[i].ty & TYPE1 == NAME
  {
  }

  lemma StepNamed(fr: Frame, named: set<nat>, before: seq<Tag>) returns (emitted: seq<Tag>, named': set<nat>)
    requires fr.Ok() && fr.byId && fr.rest != [] && NamesLead(fr, named)
    requires NamesFirst(before) && AllNamed(before, named, fr)
    ensures
      var next := fr.(rest := fr.rest[1..]);
      && next.Ok() && Walk(fr) == emitted + Walk(next) && NamesFirst(before + emitted)
      && NamesLead(next, named') && AllNamed(before + emitted, named', next)
  {
    hide Walk, Filter, Emit, LiveAttrs, NamesFirst, Named, NamesLead;
    NamesLeadStep(fr, named);
    var item, next := fr.rest[0], fr.(rest := fr.rest[1..]);
    var f := Filter(item, next.rest);
    var isName := item.Plain? && IsName(item.tag) && fr.sel.Selects(item.Ty());
    named' := if isName && !f.Noop? then named + {f.Id()} else named;
    emitted := [];
    WalkNext(fr);
    if fr.sel.Selects(item.Ty()) {
      emitted := Emit(next, f);
      EmitIsGroup(next, f);
      if !f.Noop? && fr.InRange(f.Id()) && f.Id() + fr.diff >= 0 {
        EmittedTypes(item, f);
        GroupNamed(before, Attrs(f), f.Id() + fr.diff);
      }
    }
    assert before + [] == before && [] + Walk(next) == Walk(next);
    forall k | k in named' && next.InRange(k) ensures Named(before + emitted, k + fr.diff) {
      if k in named {
        NamedMore(before, emitted, k + fr.diff);
      } else {
        NameEmitted(fr, f, before, emitted);
      }
    }
  }

  lemma NameEmitted(fr: Frame, f: Item, before: seq<Tag>, emitted: seq<Tag>)
    requires fr.Ok() && f.Plain? && IsName(f.tag) && f.Id() + fr.diff >= 0
    requires emitted == UserTags(Attrs(f), f.Id() + fr.diff)
    ensures Named(before + emitted, f.Id() + fr.diff)
  {
    assert (before + emitted)[|before|] == f.tag.(id := f.Id() + fr.diff);
  }

  lemma {:induction false} OutputNamed(fr: Frame, named: set<nat>, before: seq<Tag>)
    requires fr.Ok() && fr.byId && NamesLead(fr, named) && NamesFirst(before) && AllNamed(before, named, fr)
    ensures NamesFirst(before + Walk(fr))
    decreases |fr.rest|
  {
    hide Filter, NamesFirst, NamesLead, AllNamed;
    if fr.rest == [] {
      assert before + Walk(fr) == before;
    } else {
      var emitted, named' := StepNamed(fr, named, before);
      var next := fr.(rest := fr.rest[1..]);
      OutputNamed(next, named', before + emitted);
      assert before + emitted + Walk(next) == before + Walk(fr);
    }
  }

  /** What a compaction writes out is a well-formed log, so that a later fetch counts its entries
      and every lookup in it is answered. */
  lemma CompactionIsWellFormed(items: seq<Item>, begin: nat, end: nat)
    requires AllWellTyped(items) && end - begin <= MAX_ENTRIES
    requires NamesLead(CompactFrame(items, begin, end), {})
    ensures WellFormed(Walk(CompactFrame(items, begin, end)))
  {
    hide Walk, NamesLead, WellFormed;
    var fr := CompactFrame(items, begin, end);
    CompactCovers(items, begin, end, Selector(TYPE1, NAME));
    OutputShape(fr);
    OutputNamed(fr, {}, []);
    assert [] + Walk(fr) == Walk(fr);
    NamedIsWellFormed(Walk(fr));
  }
}
