/** In the logs that are written, the first thing said of an entry is its name, and that is said
    once. Compactions keep it so, and therefore write well-formed logs. */
module EntryOrder {
  import opened Wrappers
  import opened MetaLog
  import opened Traverse
  import opened Compaction
  import opened CompactionOutput
  import opened WellFormedLogs

  predicate NamesEntry(item: Item) { item.Plain? && IsName(item.tag) }

  predicate SaysOfEntry(item: Item) { !item.Noop? && IsAttr(item.Ty()) }

  /** An item names an entry that nothing is said of yet, or says more of one that has a name. */
  predicate InOrder(d: Dir, item: Item) {
    SaysOfEntry(item) ==>
      if NamesEntry(item) then d.Slot(item.Id()) == [] && !item.Removed() else d.Slot(item.Id()) != []
  }

  ghost predicate Orderly(d: Dir, items: seq<Item>)
    decreases |items|
  {
    items != [] ==> InOrder(d, items[0]) && Orderly(Replay(d, ExpandItem(items[0])), items[1..])
  }

  lemma {:induction false} OrderlyConcat(d: Dir, a: seq<Item>, b: seq<Item>)
    ensures Orderly(d, a + b) <==> Orderly(d, a) && Orderly(Replay(d, Expand(a)), b)
    decreases |a|
  {
    hide InOrder, ExpandItem, Replay;
    if a == [] {
      assert a + b == b;
      ReplayNothing(d);
    } else {
      var next := Replay(d, ExpandItem(a[0]));
      assert (a + b)[1..] == a[1..] + b;
      OrderlyConcat(next, a[1..], b);
      ReplayConcat(d, ExpandItem(a[0]), Expand(a[1..]));
    }
  }

  lemma ReplayNothing(d: Dir)
    ensures Replay(d, []) == d
  {
  }

  // ---- What an item does to the entries ----

  predicate Splices(item: Item) { item.Plain? && (item.tag.ty == CREATE || item.tag.ty == DELETE) }

  /** The id that entry `k` has after an item, if it is still there. */
  function StepOn(item: Item, k: nat): Option<nat> {
    if item.Plain? && item.tag.ty == CREATE then Some(if item.tag.id <= k then k + 1 else k)
    else if item.Plain? && item.tag.ty == DELETE then
      if item.tag.id == k then None else if item.tag.id < k then Some(k - 1) else Some(k)
    else Some(k)
  }

  function Ends(k: nat, rest: seq<Item>): Option<nat>
    decreases |rest|
  {
    if rest == [] then Some(k)
    else
      match StepOn(rest[0], k)
      case None => None
      case Some(j) => Ends(j, rest[1..])
  }

  /** Entries stay apart. */
  lemma {:induction false} EndsApart(a: nat, b: nat, rest: seq<Item>)
    requires Ends(a, rest).Some? && Ends(a, rest) == Ends(b, rest)
    ensures a == b
    decreases |rest|
  {
    if rest == [] {
    } else {
      EndsApart(StepOn(rest[0], a).value, StepOn(rest[0], b).value, rest[1..]);
    }
  }

  lemma SpliceSlots(d: Dir, t: Tag, k: nat)
    requires t.ty == CREATE || t.ty == DELETE
    ensures Apply(d, t).Slot(k) ==
              if k < t.id then d.Slot(k)
              else if t.ty == DELETE then d.Slot(k + 1)
              else if k == t.id then [] else d.Slot(k - 1)
  {
    assert CREATE != DELETE;
  }

  lemma {:induction false} GroupSlots(d: Dir, attrs: seq<Attr>, id: nat, k: nat)
    requires forall i :: 0 <= i < |attrs| ==> IsAttr(attrs[i].ty)
    ensures Replay(d, UserTags(attrs, id)).Slot(k) == d.Slot(k) + if k == id then attrs else []
  {
    hide Apply, IsAttr;
    if attrs == [] {
    } else {
      var init, last := attrs[..|attrs| - 1], attrs[|attrs| - 1];
      var tags := UserTags(attrs, id);
      assert tags[..|tags| - 1] == UserTags(init, id);
      GroupSlots(d, init, id, k);
      AttrSlots(Replay(d, UserTags(init, id)), tags[|tags| - 1], k);
      assert attrs == init + [last];
    }
  }

  lemma AttrSlots(d: Dir, t: Tag, k: nat)
    requires IsAttr(t.ty)
    ensures Apply(d, t).Slot(k) == d.Slot(k) + if k == t.id then [t.ToAttr()] else []
  {
    AttrIsNoSplice(t.ty);
  }

  lemma OneTag(t: Tag)
    ensures ExpandItem(Plain(t)) == [t]
  {
  }

  lemma ReplayOne(d: Dir, t: Tag)
    ensures Replay(d, [t]) == Apply(d, t)
  {
    assert [t][..0] == [];
  }

  /** An item that moves no entries adds what it says to its own. */
  lemma SaidSlots(d: Dir, item: Item, k: nat)
    requires WellTyped(item) && !Splices(item)
    ensures Replay(d, ExpandItem(item)).Slot(k)
         == d.Slot(k) + if k == item.Id() && SaysOfEntry(item) then Attrs(item) else []
  {
    hide LiveAttrs, Replay, Apply;
    if SaysOfEntry(item) {
      ItemAttrs(item);
      GroupSlots(d, Attrs(item), item.Id(), k);
    } else if item.Plain? {
      OneTag(item.tag);
      ReplayOne(d, item.tag);
      SilentTag(d, item.tag);
    } else {
      RequestTypes();
      ReplayNothing(d);
    }
  }

  lemma SilentTag(d: Dir, t: Tag)
    requires !IsAttr(t.ty) && t.ty != CREATE && t.ty != DELETE
    ensures Apply(d, t) == d
  {
  }

  lemma RequestTypes()
    ensures IsAttr(FROM_MOVE) && IsAttr(FROM_USERATTRS)
  {
  }

  lemma SplicedSlots(d: Dir, item: Item, k: nat)
    requires Splices(item)
    ensures Replay(d, ExpandItem(item)).Slot(k) ==
              if k < item.Id() then d.Slot(k)
              else if item.tag.ty == DELETE then d.Slot(k + 1)
              else if k == item.Id() then [] else d.Slot(k - 1)
  {
    hide Apply, Replay;
    OneTag(item.tag);
    ReplayOne(d, item.tag);
    SpliceSlots(d, item.tag, k);
  }

  // ---- The filter follows entries ----

  lemma FilterStepOn(f: Item, item: Item)
    requires !f.Noop? && IsAttr(f.Ty()) && WellTyped(item)
    ensures var (g, stop) := FilterItem(f, item);
            if g.Noop? then true else !stop && StepOn(item, f.Id()) == Some(g.Id()) && g == f.WithId(g.Id())
  {
    if item.UserAttrs? {
      UserAttrsAreAttrs(item);
      if !f.Removed() {
        FilterByAttrs(f, item.id, item.attrs);
      } else if item.attrs != [] {
        assert FilterUserAttrs(f, item.id, item.attrs) == Noop(0);
      }
    }
    assert f.WithId(f.Id()) == f;
  }

  /** An item that gets through has the id that its entry ends with. */
  lemma {:induction false} FilterEnds(f: Item, rest: seq<Item>)
    requires !f.Noop? && IsAttr(f.Ty()) && AllWellTyped(rest) && !Filter(f, rest).Noop?
    ensures Ends(f.Id(), rest) == Some(Filter(f, rest).Id())
    decreases |rest|
  {
    hide FilterItem;
    if rest == [] {
    } else {
      var (g, stop) := FilterItem(f, rest[0]);
      FilterStepOn(f, rest[0]);
      if g.Noop? {
        if !stop { FilterNoop(g.id, rest[1..]); }
      } else {
        SameType(f, g.Id());
        FilterEnds(g, rest[1..]);
      }
    }
  }

  lemma SameType(f: Item, id: nat)
    ensures f.WithId(id).Ty() == f.Ty() && f.WithId(id).Id() == id && f.WithId(id).Noop? == f.Noop?
    ensures f.WithId(id).Removed() == f.Removed() && NamesEntry(f.WithId(id)) == NamesEntry(f)
  {
  }

  lemma NameClasses(t: bv11, f: bv11)
    requires f & TYPE1 == NAME
    ensures SameClass(t, f) ==> t & TYPE1 == NAME
    ensures t & TYPE1 == USERATTR ==> !SameClass(t, f)
  {
  }

  lemma NameTagStep(f: Item, d: Dir, t: Tag)
    requires NamesEntry(f) && !f.Removed() && d.Slot(f.Id()) != []
    requires InOrder(d, Plain(t)) && StepOn(Plain(t), f.Id()).Some?
    ensures !FilterTag(f, t).0.Noop?
  {
    hide SameClass;
    NameClasses(t.ty, f.tag.ty);
    if SameClass(t.ty, f.tag.ty) { NameIsAttr(t.ty); }
  }

  /** A name that is given once is dropped only with its entry. */
  lemma NameStep(f: Item, d: Dir, item: Item)
    requires NamesEntry(f) && !f.Removed() && d.Slot(f.Id()) != []
    requires WellTyped(item) && InOrder(d, item) && StepOn(item, f.Id()).Some?
    ensures !FilterItem(f, item).0.Noop?
  {
    hide FilterTag, SameClass, FilterUserAttrs, InOrder, StepOn;
    match item
    case Plain(t) => NameTagStep(f, d, t);
    case Noop(_) =>
    case Move(_, _, _) =>
    case UserAttrs(id, attrs) =>
      UserAttrsAreAttrs(item);
      FilterByAttrs(f, id, attrs);
      forall i | 0 <= i < |attrs| ensures !SameClass(attrs[i].ty, f.tag.ty) {
        NameClasses(attrs[i].ty, f.tag.ty);
      }
  }

  /** What is said of an entry moves with it. */
  lemma SlotStepsOn(d: Dir, item: Item, k: nat)
    requires WellTyped(item) && StepOn(item, k).Some? && d.Slot(k) != []
    ensures Replay(d, ExpandItem(item)).Slot(StepOn(item, k).value) != []
  {
    hide Replay, ExpandItem, Attrs;
    if Splices(item) {
      SplicedSlots(d, item, StepOn(item, k).value);
    } else {
      SaidSlots(d, item, k);
    }
  }

  lemma {:induction false} NameStays(f: Item, d: Dir, rest: seq<Item>)
    requires NamesEntry(f) && !f.Removed() && d.Slot(f.Id()) != []
    requires Orderly(d, rest) && AllWellTyped(rest) && Ends(f.Id(), rest).Some?
    ensures !Filter(f, rest).Noop?
    decreases |rest|
  {
    hide FilterItem, InOrder, Replay, ExpandItem, StepOn, NamesEntry;
    NamedType(f);
    if rest == [] {
    } else {
      var (g, stop) := FilterItem(f, rest[0]);
      NameStep(f, d, rest[0]);
      FilterStepOn(f, rest[0]);
      SameType(f, g.Id());
      SlotStepsOn(d, rest[0], f.Id());
      NameStays(g, Replay(d, ExpandItem(rest[0])), rest[1..]);
    }
  }

  lemma NamedType(f: Item)
    requires NamesEntry(f)
    ensures f.Plain? && IsAttr(f.Ty()) && SaysOfEntry(f) && !Splices(f)
  {
    NameIsAttr(f.tag.ty);
    AttrIsNoSplice(f.tag.ty);
  }

  // ---- What a compaction writes ----

  /** Something is said, before `rest`, of the entry that ends as `j`. */
  ghost predicate Comes(d: Dir, rest: seq<Item>, j: nat) {
    exists k: nat :: d.Slot(k) != [] && Ends(k, rest) == Some(j)
  }

  lemma ComesHere(d: Dir, rest: seq<Item>, k: nat, j: nat)
    requires d.Slot(k) != [] && Ends(k, rest) == Some(j)
    ensures Comes(d, rest, j)
  {
  }

  /** Where the entry with id `j` after an item was before it. */
  function Origin(item: Item, j: nat): nat {
    if item.Plain? && item.tag.ty == CREATE then if j > item.tag.id then j - 1 else j
    else if item.Plain? && item.tag.ty == DELETE then if j >= item.tag.id then j + 1 else j
    else j
  }

  lemma OriginSteps(d: Dir, item: Item, j: nat)
    requires WellTyped(item) && Replay(d, ExpandItem(item)).Slot(j) != []
    ensures StepOn(item, Origin(item, j)) == Some(j) && (!Splices(item) ==> Origin(item, j) == j)
    ensures d.Slot(Origin(item, j)) != [] || (SaysOfEntry(item) && !Splices(item) && j == item.Id())
  {
    hide Replay, ExpandItem, Attrs;
    if Splices(item) {
      assert CREATE != DELETE;
      SplicedSlots(d, item, j);
    } else {
      SaidSlots(d, item, j);
    }
  }

  /** An item that is the first to say something of an entry is its name; apart from that, going
      on by one item changes nothing. */
  lemma ComesOn(d: Dir, items: seq<Item>, j: nat)
    requires items != [] && WellTyped(items[0])
    requires
      var item := items[0];
      SaysOfEntry(item) && !Splices(item) ==> d.Slot(item.Id()) != [] || Ends(item.Id(), items[1..]) != Some(j)
    ensures Comes(d, items, j) <==> Comes(Replay(d, ExpandItem(items[0])), items[1..], j)
  {
    hide Replay, ExpandItem, StepOn, Origin, Attrs, SaysOfEntry;
    var item, rest, d' := items[0], items[1..], Replay(d, ExpandItem(items[0]));
    if Comes(d, items, j) {
      var k: nat :| d.Slot(k) != [] && Ends(k, items) == Some(j);
      SlotStepsOn(d, item, k);
      ComesHere(d', rest, StepOn(item, k).value, j);
    }
    if Comes(d', rest, j) {
      var k: nat :| d'.Slot(k) != [] && Ends(k, rest) == Some(j);
      OriginSteps(d, item, k);
      assert Ends(Origin(item, k), items) == Some(j);
      ComesHere(d, items, Origin(item, k), j);
    }
  }

  /** What has been written so far says something of exactly those entries that the input has
      come to. */
  ghost predicate Tracks(fr: Frame, d: Dir, o: Dir)
    requires fr.Ok() && fr.byId
  {
    forall j: nat | fr.begin <= j < fr.end :: o.Slot(j + fr.diff) != [] <==> Comes(d, fr.rest, j)
  }

  const NAMES_ON := Selector(0x400, NAME)

  lemma SelectsAttrs(ty: bv11)
    ensures NAMES_ON.Selects(ty) <==> IsAttr(ty)
  {
    assert 0x400 & ty == ty & 0x400 && 0x400 & NAME == 0;
  }

  /** A group of attributes of an entry that has a name, or the first name of one. */
  lemma {:induction false} GroupOrderly(o: Dir, attrs: seq<Attr>, id: nat)
    requires forall i :: 0 <= i < |attrs| ==> IsAttr(attrs[i].ty) && attrs[i].ty & TYPE1 != NAME
    requires o.Slot(id) != []
    ensures Orderly(o, Plains(UserTags(attrs, id)))
    decreases |attrs|
  {
    hide Replay, ExpandItem, InOrder, IsAttr;
    var items := Plains(UserTags(attrs, id));
    if attrs == [] {
    } else {
      assert items[1..] == Plains(UserTags(attrs[1..], id));
      var t := Tag(attrs[0].ty, id, attrs[0].payload);
      assert items[0] == Plain(t);
      SlotSays(o, t);
      AttrInOrder(o, t);
      GroupOrderly(Replay(o, ExpandItem(items[0])), attrs[1..], id);
    }
  }

  lemma AttrInOrder(o: Dir, t: Tag)
    requires t.ty & TYPE1 != NAME && o.Slot(t.id) != []
    ensures InOrder(o, Plain(t))
  {
  }

  lemma SlotSays(o: Dir, t: Tag)
    requires IsAttr(t.ty)
    ensures Replay(o, ExpandItem(Plain(t))).Slot(t.id) == o.Slot(t.id) + [t.ToAttr()]
  {
    hide Apply, Replay;
    OneTag(t);
    ReplayOne(o, t);
    AttrSlots(o, t, t.id);
  }

  /** Only a name says a name. */
  lemma NoNameAttrs(item: Item)
    requires WellTyped(item) && SaysOfEntry(item) && !NamesEntry(item)
    ensures forall i :: 0 <= i < |Attrs(item)| ==> IsAttr(Attrs(item)[i].ty) && Attrs(item)[i].ty & TYPE1 != NAME
  {
    hide LiveAttrs;
    ItemAttrs(item);
    if item.Move? {
      StructSelector();
      LiveAttrsAreAttrs(item.source, Selector(0x600, STRUCT), item.fromId);
    }
    forall i | 0 <= i < |Attrs(item)| ensures Attrs(item)[i].ty & TYPE1 != NAME {
      assert Attrs(item)[i] in Attrs(item);
      NotNameType(Attrs(item)[i].ty);
    }
  }

  lemma StructSelector()
    ensures forall ty :: Selector(0x600, STRUCT).Selects(ty) ==> IsAttr(ty) && ty & TYPE1 != NAME
  {
  }

  lemma NotNameType(ty: bv11)
    ensures ty & TYPE1 == USERATTR ==> ty & TYPE1 != NAME
  {
  }

  /** What an item puts out comes in the same order. */
  lemma EmittedInOrder(o: Dir, item: Item, at: nat)
    requires WellTyped(item) && SaysOfEntry(item)
    requires if NamesEntry(item) then o.Slot(at) == [] && !item.Removed() else o.Slot(at) != []
    ensures Orderly(o, Plains(UserTags(Attrs(item), at)))
    ensures forall k: nat :: Replay(o, UserTags(Attrs(item), at)).Slot(k)
                          == o.Slot(k) + if k == at then Attrs(item) else []
  {
    hide Replay, LiveAttrs, IsAttr;
    ItemAttrs(item) by { SaysAttr(item); }
    forall k: nat ensures Replay(o, UserTags(Attrs(item), at)).Slot(k)
                       == o.Slot(k) + if k == at then Attrs(item) else []
    {
      GroupSlots(o, Attrs(item), at, k);
    }
    if NamesEntry(item) {
      var t := item.tag.(id := at);
      assert UserTags(Attrs(item), at) == [t] && Plains([t]) == [Plain(t)] && [Plain(t)][1..] == [];
    } else {
      NoNameAttrs(item);
      GroupOrderly(o, Attrs(item), at);
    }
  }

  lemma SaysAttr(item: Item)
    requires SaysOfEntry(item)
    ensures IsAttr(item.Ty()) && !Splices(item)
  {
    AttrIsNoSplice(item.Ty());
  }

  /** An item that nothing is put out for. */
  lemma SilentStep(fr: Frame, d: Dir, o: Dir)
    requires fr.Ok() && fr.byId && fr.rest != [] && AllWellTyped(fr.rest) && Orderly(d, fr.rest) && Tracks(fr, d, o)
    requires
      var item, rest := fr.rest[0], fr.rest[1..];
      SaysOfEntry(item) ==> Filter(item, rest).Noop? || !fr.InRange(Filter(item, rest).Id())
    ensures Tracks(fr.(rest := fr.rest[1..]), Replay(d, ExpandItem(fr.rest[0])), o)
  {
    hide Filter, Replay, ExpandItem, Attrs, Comes, SaysOfEntry, WellTyped;
    var item, rest, d' := fr.rest[0], fr.rest[1..], Replay(d, ExpandItem(fr.rest[0]));
    forall j: nat | fr.begin <= j < fr.end ensures Comes(d, fr.rest, j) <==> Comes(d', rest, j) {
      if SaysOfEntry(item) {
        SaysAttr(item);
        SilentEnd(fr, d, j);
      }
      ComesOn(d, fr.rest, j);
    }
  }

  lemma SilentEnd(fr: Frame, d: Dir, j: nat)
    requires fr.byId && fr.rest != [] && AllWellTyped(fr.rest) && Orderly(d, fr.rest) && fr.begin <= j < fr.end
    requires
      var item, rest := fr.rest[0], fr.rest[1..];
      SaysOfEntry(item) && (Filter(item, rest).Noop? || !fr.InRange(Filter(item, rest).Id()))
    ensures d.Slot(fr.rest[0].Id()) != [] || Ends(fr.rest[0].Id(), fr.rest[1..]) != Some(j)
  {
    hide Filter, Replay, ExpandItem, Attrs, NamesEntry, WellTyped;
    var item, rest := fr.rest[0], fr.rest[1..];
    SaysAttr(item);
    if Ends(item.Id(), rest) == Some(j) {
      if NamesEntry(item) {
        NamedSlot(d, item);
        NameStays(item, Replay(d, ExpandItem(item)), rest);
      }
      if !Filter(item, rest).Noop? { FilterEnds(item, rest); }
    }
  }

  lemma NamedSlot(d: Dir, item: Item)
    requires NamesEntry(item)
    ensures Replay(d, ExpandItem(item)).Slot(item.Id()) != []
  {
    hide Replay, ExpandItem;
    NameIsAttr(item.tag.ty);
    SlotSays(d, item.tag);
  }

  /** The entry that an item speaks of has come after it, and no other has because of it. */
  lemma ComesLoudly(d: Dir, items: seq<Item>, j0: nat, j: nat)
    requires items != [] && WellTyped(items[0]) && SaysOfEntry(items[0]) && InOrder(d, items[0])
    requires Ends(items[0].Id(), items[1..]) == Some(j0)
    ensures Comes(Replay(d, ExpandItem(items[0])), items[1..], j) <==> j == j0 || Comes(d, items, j)
  {
    hide Replay, ExpandItem, Attrs, Comes, WellTyped, SaysOfEntry, NamesEntry;
    var item := items[0];
    SaysAttr(item);
    if j == j0 {
      SaidSlots(d, item, item.Id());
      NamedAttrs(item);
      ComesHere(Replay(d, ExpandItem(item)), items[1..], item.Id(), j0);
    } else {
      ComesOn(d, items, j);
    }
  }

  /** The item that gets through is a name exactly if nothing was put out for its entry yet. */
  lemma LoudEntry(d: Dir, items: seq<Item>, j0: nat)
    requires items != [] && AllWellTyped(items) && Orderly(d, items) && SaysOfEntry(items[0])
    requires !Filter(items[0], items[1..]).Noop? && Filter(items[0], items[1..]).Id() == j0
    ensures InOrder(d, items[0]) && Ends(items[0].Id(), items[1..]) == Some(j0)
    ensures if NamesEntry(items[0]) then !Comes(d, items, j0) && !items[0].Removed() else Comes(d, items, j0)
  {
    hide Filter, Replay, ExpandItem, Attrs, Comes, WellTyped, StepOn, SaysOfEntry, NamesEntry, InOrder;
    SaysAttr(items[0]);
    FilterEnds(items[0], items[1..]);
    StaysPut(items[0], items[0].Id());
    OrderlyHead(d, items);
    FirstSaid(d, items, j0);
  }

  lemma LoudStep(fr: Frame, d: Dir, o: Dir, j0: nat)
    requires fr.Ok() && fr.byId && fr.rest != [] && AllWellTyped(fr.rest) && Orderly(d, fr.rest) && Tracks(fr, d, o)
    requires
      var item, rest := fr.rest[0], fr.rest[1..];
      SaysOfEntry(item) && !Filter(item, rest).Noop? && Filter(item, rest).Id() == j0 && fr.begin <= j0 < fr.end
    ensures
      var out := UserTags(Attrs(fr.rest[0]), j0 + fr.diff);
      && Orderly(o, Plains(out))
      && Tracks(fr.(rest := fr.rest[1..]), Replay(d, ExpandItem(fr.rest[0])), Replay(o, out))
  {
    hide Filter, Replay, ExpandItem, Attrs, Comes, WellTyped, Ends, SaysOfEntry, NamesEntry, InOrder, Orderly,
      UserTags, Plains;
    var item, next := fr.rest[0], fr.(rest := fr.rest[1..]);
    LoudEntry(d, fr.rest, j0);
    assert o.Slot(j0 + fr.diff) != [] <==> Comes(d, fr.rest, j0);
    EmittedInOrder(o, item, j0 + fr.diff);
    NamedAttrs(item);
    var o', d' := Replay(o, UserTags(Attrs(item), j0 + fr.diff)), Replay(d, ExpandItem(item));
    forall j: nat | next.begin <= j < next.end ensures o'.Slot(j + next.diff) != [] <==> Comes(d', next.rest, j) {
      ComesLoudly(d, fr.rest, j0, j);
      assert o'.Slot(j + fr.diff) == o.Slot(j + fr.diff) + if j == j0 then Attrs(item) else [];
    }
  }

  lemma StaysPut(item: Item, k: nat)
    requires !Splices(item)
    ensures StepOn(item, k) == Some(k)
  {
  }

  lemma NamedAttrs(item: Item)
    ensures NamesEntry(item) ==> Attrs(item) != []
  {
  }

  /** The entry of an item has come already exactly if the item is not its name. */
  lemma FirstSaid(d: Dir, items: seq<Item>, j: nat)
    requires items != [] && SaysOfEntry(items[0]) && InOrder(d, items[0]) && Ends(items[0].Id(), items) == Some(j)
    ensures Comes(d, items, j) <==> !NamesEntry(items[0])
    ensures NamesEntry(items[0]) ==> !items[0].Removed()
    ensures !NamesEntry(items[0]) ==> d.Slot(items[0].Id()) != []
  {
    if NamesEntry(items[0]) {
      forall k: nat | d.Slot(k) != [] && Ends(k, items) == Some(j) ensures false {
        EndsApart(k, items[0].Id(), items);
      }
    } else {
      ComesHere(d, items, items[0].Id(), j);
    }
  }

  /** A compaction puts out its entries in order, and all of those in its range. */
  lemma {:induction false} OutputInOrder(fr: Frame, d: Dir, o: Dir)
    requires fr.Ok() && fr.byId && fr.sel == NAMES_ON && AllWellTyped(fr.rest)
    requires Orderly(d, fr.rest) && Tracks(fr, d, o)
    ensures Orderly(o, Plains(Walk(fr)))
    ensures Tracks(fr.(rest := []), Replay(d, Expand(fr.rest)), Replay(o, Walk(fr)))
    decreases |fr.rest|
  {
    hide Filter, Emit, Walk, InOrder, ExpandItem, Tracks, Replay, WellTyped, Orderly, Attrs, SaysOfEntry, Plains,
      UserTags, Expand;
    if fr.rest == [] {
      NothingOut(fr, d, o);
    } else {
      var item, next := fr.rest[0], fr.(rest := fr.rest[1..]);
      var d' := Replay(d, ExpandItem(item));
      WalkNext(fr);
      ExpandHead(d, fr.rest);
      OrderlyHead(d, fr.rest);
      var f := Filter(item, next.rest);
      SelectedSays(item);
      if SaysOfEntry(item) && !f.Noop? && fr.InRange(f.Id()) {
        LoudStep(fr, d, o, f.Id());
        EmitIsGroup(next, f);
        SameAttrs(item, f);
        var out := UserTags(Attrs(item), f.Id() + fr.diff);
        OutputInOrder(next, d', Replay(o, out));
        ReplayConcat(o, out, Walk(next));
        OrderlyMore(o, out, Walk(next));
      } else {
        SilentStep(fr, d, o);
        if NAMES_ON.Selects(item.Ty()) {
          NothingEmitted(next, item, f);
        }
        assert [] + Walk(next) == Walk(next);
        OutputInOrder(next, d', o);
      }
    }
  }

  lemma OrderlyMore(o: Dir, a: seq<Tag>, b: seq<Tag>)
    ensures Orderly(o, Plains(a + b)) <==> Orderly(o, Plains(a)) && Orderly(Replay(o, a), Plains(b))
  {
    hide Replay, Orderly, Expand;
    assert Plains(a + b) == Plains(a) + Plains(b);
    ExpandPlains(a);
    OrderlyConcat(o, Plains(a), Plains(b));
  }

  lemma NothingOut(fr: Frame, d: Dir, o: Dir)
    requires fr.Ok() && fr.byId && fr.rest == [] && Tracks(fr, d, o)
    ensures Orderly(o, Plains(Walk(fr)))
    ensures Tracks(fr.(rest := []), Replay(d, Expand(fr.rest)), Replay(o, Walk(fr)))
  {
    ReplayNothing(d);
    ReplayNothing(o);
    assert fr.(rest := []) == fr;
  }

  lemma ExpandHead(d: Dir, items: seq<Item>)
    requires items != []
    ensures Replay(d, Expand(items)) == Replay(Replay(d, ExpandItem(items[0])), Expand(items[1..]))
  {
    hide Replay, ExpandItem;
    ReplayConcat(d, ExpandItem(items[0]), Expand(items[1..]));
  }

  lemma OrderlyHead(d: Dir, items: seq<Item>)
    requires items != [] && Orderly(d, items)
    ensures InOrder(d, items[0]) && Orderly(Replay(d, ExpandItem(items[0])), items[1..])
  {
  }

  lemma SelectedSays(item: Item)
    ensures NAMES_ON.Selects(item.Ty()) <==> SaysOfEntry(item) || item.Noop?
  {
    SelectsAttrs(item.Ty());
  }

  lemma NothingEmitted(fr: Frame, item: Item, f: Item)
    requires fr.Ok() && f == Filter(item, fr.rest)
    requires item.Noop? || f.Noop? || !fr.InRange(f.Id())
    ensures Emit(fr, f) == []
  {
    hide Filter;
    if item.Noop? { FilterNoop(item.id, fr.rest); }
  }

  // ---- Logs between commits ----

  /** Something is said of every entry, which its name was the first to do. */
  ghost predicate AllNamed(d: Dir) {
    forall k: nat :: k < |d.entries| ==> d.Slot(k) != []
  }

  /** A log as commits leave it. */
  ghost predicate Proper(log: seq<Tag>) {
    && WellFormed(log) && Orderly(EMPTY_DIR, Plains(log)) && AllNamed(Replay(EMPTY_DIR, log))
  }

  /** Changes that fit, in order, and leave a directory with a name for every entry. */
  ghost predicate Accepts(d: Dir, items: seq<Item>) {
    QueueFits(d, items) && Orderly(d, items) && AllNamed(Replay(d, Expand(items)))
  }

  lemma ProperParts(log: seq<Tag>)
    requires Proper(log)
    ensures WellFormed(log) && Orderly(EMPTY_DIR, Plains(log)) && AllNamed(Replay(EMPTY_DIR, log))
  {
  }

  /** An empty block has such a log. */
  lemma EmptyIsProper()
    ensures Proper([])
  {
  }

  /** The entries that something has been said of end with these ids. */
  ghost predicate EndAs(d: Dir, rest: seq<Item>, named: set<nat>) {
    forall k: nat :: d.Slot(k) != [] && Ends(k, rest).Some? ==> Ends(k, rest).value in named
  }

  lemma EndAsStep(d: Dir, items: seq<Item>, named: set<nat>)
    requires items != [] && AllWellTyped(items) && Orderly(d, items) && EndAs(d, items, named)
    ensures
      var f := Filter(items[0], items[1..]);
      var named' := if NamesEntry(items[0]) && !f.Noop? then named + {f.Id()} else named;
      EndAs(Replay(d, ExpandItem(items[0])), items[1..], named')
  {
    hide Filter, Replay, ExpandItem, Attrs, StepOn, Origin, WellTyped, NamesEntry, SaysOfEntry;
    var item, rest, d' := items[0], items[1..], Replay(d, ExpandItem(items[0]));
    OrderlyHead(d, items);
    forall k: nat | d'.Slot(k) != [] && Ends(k, rest).Some?
      ensures Ends(k, rest).value in named || (NamesEntry(item) && !Filter(item, rest).Noop?
                                               && Ends(k, rest).value == Filter(item, rest).Id())
    {
      OriginSteps(d, item, k);
      assert Ends(Origin(item, k), items) == Ends(k, rest);
      if d.Slot(Origin(item, k)) == [] {
        SaysAttr(item);
        NamedSlot(d, item);
        NameStays(item, d', rest);
        FilterEnds(item, rest);
      }
    }
  }

  /** In a log that is in order, whatever a compaction puts out of an entry, its name leads. */
  lemma {:induction false} OrderlyLeads(fr: Frame, d: Dir, named: set<nat>)
    requires fr.byId && fr.sel == NAMES_ON && AllWellTyped(fr.rest) && Orderly(d, fr.rest) && EndAs(d, fr.rest, named)
    ensures NamesLead(fr, named)
    decreases |fr.rest|
  {
    hide Filter, Replay, ExpandItem, Attrs, WellTyped, EndAs;
    if fr.rest == [] {
    } else {
      var item, next := fr.rest[0], fr.(rest := fr.rest[1..]);
      var f := Filter(item, next.rest);
      SelectedSays(item);
      if SaysOfEntry(item) && !f.Noop? && !NamesEntry(item) {
        SaysAttr(item);
        FilterEnds(item, next.rest);
        StaysPut(item, item.Id());
        EndsIn(d, fr.rest, named, item.Id());
      }
      if item.Noop? { FilterNoop(item.id, next.rest); }
      if NamesEntry(item) { NamedType(item); }
      EndAsStep(d, fr.rest, named);
      OrderlyLeads(next, Replay(d, ExpandItem(item)), if NamesEntry(item) && !f.Noop? then named + {f.Id()} else named);
    }
  }

  lemma EndsIn(d: Dir, rest: seq<Item>, named: set<nat>, k: nat)
    requires EndAs(d, rest, named) && d.Slot(k) != [] && Ends(k, rest).Some?
    ensures Ends(k, rest).value in named
  {
  }

  /** What a compaction writes out of such a log and a queue is such a log. */
  lemma CompactionKeepsOrder(items: seq<Item>, begin: nat, end: nat)
    requires AllWellTyped(items) && Orderly(EMPTY_DIR, items) && AllNamed(Meaning(items))
    requires begin <= end <= |Meaning(items).entries| && end - begin <= MAX_ENTRIES
    ensures Proper(Walk(CompactFrame(items, begin, end)))
  {
    hide Walk, WellFormed, Replay, Orderly, Comes, Expand, NamesLead, EndAs;
    var fr := CompactFrame(items, begin, end);
    var out := Walk(fr);
    NothingCame(fr);
    OutputInOrder(fr, EMPTY_DIR, EMPTY_DIR);
    AnyCovers(items, begin, end);
    OutputShape(fr);
    forall i | 0 <= i < |out| ensures IsAttr(out[i].ty) && out[i].id < end - begin { assert out[i] in out; }
    NothingEnds(items);
    OrderlyLeads(fr, EMPTY_DIR, {});
    CompactionIsWellFormed(items, begin, end);
    EntriesOfAttrs(out, end - begin);
    forall k: nat | k < |Replay(EMPTY_DIR, out).entries| ensures Replay(EMPTY_DIR, out).Slot(k) != [] {
      assert begin <= begin + k < end;
      CameHere(Meaning(items), begin + k);
      assert Replay(EMPTY_DIR, out).Slot(begin + k + fr.diff) != [] <==> Comes(Meaning(items), [], begin + k);
    }
  }

  lemma NothingEnds(items: seq<Item>)
    ensures EndAs(EMPTY_DIR, items, {})
  {
  }

  lemma NothingCame(fr: Frame)
    requires fr.Ok() && fr.byId
    ensures Tracks(fr, EMPTY_DIR, EMPTY_DIR)
  {
  }

  lemma CameHere(d: Dir, j: nat)
    ensures Comes(d, [], j) <==> d.Slot(j) != []
  {
    assert Ends(j, []) == Some(j);
  }

  lemma {:induction false} EntriesOfAttrs(tags: seq<Tag>, n: nat)
    requires forall i :: 0 <= i < |tags| ==> IsAttr(tags[i].ty) && tags[i].id < n
    ensures |Replay(EMPTY_DIR, tags).entries| <= n
  {
    if tags == [] {
    } else {
      var last := tags[|tags| - 1];
      EntriesOfAttrs(tags[..|tags| - 1], n);
      AttrIsNoSplice(last.ty);
    }
  }

  /** Appending a queue keeps the order that the queue itself keeps. */
  lemma {:induction false} ExpandOrderly(d: Dir, items: seq<Item>)
    requires AllWellTyped(items) && Orderly(d, items)
    ensures Orderly(d, Plains(Expand(items)))
    decreases |items|
  {
    hide Replay, ExpandItem, InOrder, WellTyped;
    if items == [] {
    } else {
      var head, rest := ExpandItem(items[0]), Expand(items[1..]);
      ItemOrderly(d, items[0]);
      ExpandOrderly(Replay(d, head), items[1..]);
      OrderlyMore(d, head, rest);
    }
  }

  lemma ItemOrderly(d: Dir, item: Item)
    requires WellTyped(item) && InOrder(d, item)
    ensures Orderly(d, Plains(ExpandItem(item)))
  {
    hide Replay, LiveAttrs, Attrs;
    if SaysOfEntry(item) {
      EmittedInOrder(d, item, item.Id());
    } else if item.Plain? {
      OneTag(item.tag);
      assert Plains([item.tag]) == [item] && [item][1..] == [];
    } else {
      RequestTypes();
      NoAttrs(item);
    }
  }

  lemma NoAttrs(item: Item)
    requires item.Noop?
    ensures ExpandItem(item) == []
  {
  }

  lemma AppendKeeps(log: seq<Tag>, pending: seq<Item>)
    requires Proper(log) && AllWellTyped(pending) && Accepts(Replay(EMPTY_DIR, log), pending)
    ensures Proper(log + Walk(AppendFrame(pending)))
  {
    hide Walk, WellFormed, Replay, Orderly, Expand, QueueFits, AllNamed;
    AppendKeepsWellFormed(log, pending);
    AppendWritesMeaning(pending);
    ExpandOrderly(Replay(EMPTY_DIR, log), pending);
    OrderlyMore(EMPTY_DIR, log, Expand(pending));
    ReplayConcat(EMPTY_DIR, log, Expand(pending));
  }

  /** Log and queue together can be compacted, then. */
  lemma CompactionKeeps(log: seq<Tag>, pending: seq<Item>, begin: nat, end: nat)
    requires Proper(log) && AllWellTyped(pending) && Accepts(Replay(EMPTY_DIR, log), pending)
    requires forall i :: 0 <= i < |log| ==> Storable(log[i].ty)
    requires begin <= end <= |Updated(log, pending).entries|
    ensures Proper(Walk(CompactFrame(Plains(log) + pending, begin, end)))
  {
    hide Walk, WellFormed, Replay, Orderly, Expand, QueueFits, AllNamed, Meaning, Proper;
    var items := Plains(log) + pending;
    ProperParts(log);
    ExpandPlains(log);
    OrderlyConcat(EMPTY_DIR, Plains(log), pending);
    MeaningIsUpdated(log, pending);
    TakenCount(log, pending);
    CompactionKeepsOrder(items, begin, end);
  }

  lemma TakenCount(log: seq<Tag>, pending: seq<Item>)
    requires WellFormed(log) && QueueFits(Replay(EMPTY_DIR, log), pending)
    ensures |Updated(log, pending).entries| <= MAX_ENTRIES
  {
    hide WellFormed, Replay, Expand, AllFit;
    StaysWellFormed(log, Expand(pending));
    CountIsEntries(log + Expand(pending));
    ReplayConcat(EMPTY_DIR, log, Expand(pending));
  }

  // ---- The queues that the filesystem builds ----

  ghost predicate Names(d: Dir, items: seq<Item>) { Orderly(d, items) && AllNamed(Replay(d, Expand(items))) }

  lemma NothingNamed(d: Dir)
    requires AllNamed(d)
    ensures Names(d, [])
  {
    ReplayNothing(d);
  }

  lemma ItemNames(d: Dir, item: Item, items: seq<Item>)
    requires InOrder(d, item) && Names(Replay(d, ExpandItem(item)), items)
    ensures Names(d, [item] + items)
  {
    hide InOrder, ExpandItem, Replay, AllNamed;
    assert ([item] + items)[1..] == items;
    ReplayConcat(d, ExpandItem(item), Expand(items));
  }

  /** All entries but one have a name. */
  ghost predicate NamedBut(d: Dir, id: nat) {
    && id < |d.entries| && d.Slot(id) == []
    && forall k: nat :: k < |d.entries| && k != id ==> d.Slot(k) != []
  }

  lemma CreateLeaves(d: Dir, id: nat)
    requires AllNamed(d) && id <= |d.entries| < MAX_ENTRIES
    ensures var item := Plain(Tag(CREATE, id, Bytes([])));
            InOrder(d, item) && NamedBut(Replay(d, ExpandItem(item)), id)
            && |Replay(d, ExpandItem(item)).entries| == |d.entries| + 1
  {
    hide Replay, ExpandItem, Apply;
    var t := Tag(CREATE, id, Bytes([]));
    OneTag(t);
    ReplayOne(d, t);
    SpliceFits(d, t);
    assert !IsAttr(CREATE);
    var d' := Replay(d, ExpandItem(Plain(t)));
    forall k: nat | k < |d'.entries| && k != id ensures d'.Slot(k) != [] { SpliceSlots(d, t, k); }
    SpliceSlots(d, t, id);
  }

  lemma DeleteLeaves(d: Dir, id: nat)
    requires AllNamed(d) && id < |d.entries|
    ensures var item := Plain(Tag(DELETE, id, Bytes([])));
            InOrder(d, item) && AllNamed(Replay(d, ExpandItem(item)))
            && |Replay(d, ExpandItem(item)).entries| == |d.entries| - 1
  {
    hide Replay, ExpandItem, Apply;
    var t := Tag(DELETE, id, Bytes([]));
    OneTag(t);
    ReplayOne(d, t);
    SpliceFits(d, t);
    assert !IsAttr(DELETE);
    var d' := Replay(d, ExpandItem(Plain(t)));
    forall k: nat | k < |d'.entries| ensures d'.Slot(k) != [] { SpliceSlots(d, t, k); }
  }

  lemma NameLeaves(d: Dir, name: Tag)
    requires NamedBut(d, name.id) && name.ty & TYPE1 == NAME && !name.payload.Deleted?
    ensures var item := Plain(name);
            InOrder(d, item) && AllNamed(Replay(d, ExpandItem(item)))
            && |Replay(d, ExpandItem(item)).entries| == |d.entries|
  {
    hide Replay, ExpandItem, Apply, Attrs;
    NameIsAttr(name.ty);
    SaysAttr(Plain(name));
    OneTag(name);
    ReplayOne(d, name);
    AttrFits(d, name);
    forall k: nat | k < |d.entries| ensures Apply(d, name).Slot(k) != [] { AttrSlots(d, name, k); }
  }

  lemma MoreLeaves(d: Dir, item: Item)
    requires AllNamed(d) && WellTyped(item) && SaysOfEntry(item) && !NamesEntry(item) && item.Id() < |d.entries|
    ensures InOrder(d, item) && AllNamed(Replay(d, ExpandItem(item)))
            && |Replay(d, ExpandItem(item)).entries| == |d.entries|
  {
    hide Replay, ExpandItem, Attrs, WellTyped, NamesEntry, SaysOfEntry;
    SaysAttr(item);
    MoreEntries(d, item);
    forall k: nat | k < |d.entries| ensures Replay(d, ExpandItem(item)).Slot(k) != [] { SaidSlots(d, item, k); }
  }

  lemma MoreEntries(d: Dir, item: Item)
    requires WellTyped(item) && IsAttr(item.Ty()) && item.Id() < |d.entries|
    ensures |Replay(d, ExpandItem(item)).entries| == |d.entries|
  {
    hide Replay, Attrs;
    ItemAttrs(item);
    AttrsFit(d, Attrs(item), item.Id());
  }

  /** What a file is created with: its name, and data that it has none of yet. */
  function CreateQueue(id: nat, name: Tag, data: Tag): seq<Item> {
    [Plain(Tag(CREATE, id, Bytes([])))] + ([Plain(name)] + ([Plain(data)] + []))
  }

  predicate IsData(t: Tag) { IsAttr(t.ty) && t.ty & TYPE1 != NAME && Storable(t.ty) }

  lemma DataLeaves(d: Dir, data: Tag)
    requires AllNamed(d) && IsData(data) && data.id < |d.entries|
    ensures InOrder(d, Plain(data)) && AllNamed(Replay(d, ExpandItem(Plain(data))))
            && |Replay(d, ExpandItem(Plain(data))).entries| == |d.entries|
  {
    MoreLeaves(d, Plain(data));
  }

  lemma CreateIsTaken(d: Dir, id: nat, name: Tag, data: Tag)
    requires AllNamed(d) && id <= |d.entries| < MAX_ENTRIES
    requires name.ty & TYPE1 == NAME && name.id == id && !name.payload.Deleted?
    requires IsData(data) && data.id == id
    ensures Accepts(d, CreateQueue(id, name, data))
  {
    hide Orderly, InOrder, ExpandItem, Replay, AllNamed, NamedBut, Apply, Fits, AllFit, Names, QueueFits;
    CreateFits(d, id, name, data);
    var made := Plain(Tag(CREATE, id, Bytes([])));
    CreateLeaves(d, id);
    var d1 := Replay(d, ExpandItem(made));
    NameLeaves(d1, name);
    var d2 := Replay(d1, ExpandItem(Plain(name)));
    DataLeaves(d2, data);
    NothingNamed(Replay(d2, ExpandItem(Plain(data))));
    ItemNames(d2, Plain(data), []);
    ItemNames(d1, Plain(name), [Plain(data)] + []);
    ItemNames(d, made, [Plain(name)] + ([Plain(data)] + []));
    AreTaken(d, CreateQueue(id, name, data));
  }

  lemma AreTaken(d: Dir, items: seq<Item>)
    requires QueueFits(d, items) && Names(d, items)
    ensures Accepts(d, items)
  {
  }

  lemma CreateFits(d: Dir, id: nat, name: Tag, data: Tag)
    requires id <= |d.entries| < MAX_ENTRIES && name.ty & TYPE1 == NAME && name.id == id
    requires IsData(data) && data.id == id
    ensures QueueFits(d, CreateQueue(id, name, data))
  {
    hide Apply, Fits, AllFit, Expand, QueueFits;
    var made := Tag(CREATE, id, Bytes([]));
    SpliceFits(d, made);
    var d1 := Apply(d, made);
    NameIsAttr(name.ty);
    AttrFits(d1, name);
    AttrFits(Apply(d1, name), data);
    NothingFits(Apply(Apply(d1, name), data));
    PlainFits(Apply(d1, name), data, []);
    PlainFits(d1, name, [Plain(data)] + []);
    PlainFits(d, made, [Plain(name)] + ([Plain(data)] + []));
  }

  lemma DeleteIsTaken(d: Dir, id: nat)
    requires AllNamed(d) && id < |d.entries|
    ensures Accepts(d, [Plain(Tag(DELETE, id, Bytes([])))])
  {
    hide Orderly, InOrder, ExpandItem, Replay, AllNamed, Apply, Fits, AllFit, Names, QueueFits;
    var t := Tag(DELETE, id, Bytes([]));
    SpliceFits(d, t);
    NothingFits(Apply(d, t));
    PlainFits(d, t, []);
    DeleteLeaves(d, id);
    NothingNamed(Replay(d, ExpandItem(Plain(t))));
    ItemNames(d, Plain(t), []);
    assert [Plain(t)] + [] == [Plain(t)];
    AreTaken(d, [Plain(t)]);
  }

  lemma SetAttrIsTaken(d: Dir, attr: Tag)
    requires AllNamed(d) && IsData(attr) && attr.id < |d.entries|
    ensures Accepts(d, SetAttrQueue(attr))
  {
    hide Orderly, InOrder, ExpandItem, Replay, AllNamed, Apply, Fits, AllFit, Names, QueueFits;
    AttrFits(d, attr);
    NothingFits(Apply(d, attr));
    PlainFits(d, attr, []);
    DataLeaves(d, attr);
    NothingNamed(Replay(d, ExpandItem(Plain(attr))));
    ItemNames(d, Plain(attr), []);
    assert [Plain(attr)] + [] == SetAttrQueue(attr);
    AreTaken(d, SetAttrQueue(attr));
  }

  lemma SyncIsTaken(d: Dir, data: Tag, attrs: seq<Attr>)
    requires AllNamed(d) && IsData(data) && data.id < |d.entries| && WellTyped(UserAttrs(data.id, attrs))
    ensures Accepts(d, SyncQueue(data, data.id, attrs))
  {
    hide Orderly, InOrder, ExpandItem, Replay, AllNamed, Apply, Fits, AllFit, Names, QueueFits, WellTyped;
    var list := UserAttrs(data.id, attrs);
    SyncFits(d, data, attrs);
    DataLeaves(d, data);
    var d1 := Replay(d, ExpandItem(Plain(data)));
    RequestTypes();
    MoreLeaves(d1, list);
    NothingNamed(Replay(d1, ExpandItem(list)));
    ItemNames(d1, list, []);
    ItemNames(d, Plain(data), [list] + []);
    assert [Plain(data)] + ([list] + []) == SyncQueue(data, data.id, attrs);
    AreTaken(d, SyncQueue(data, data.id, attrs));
  }

  lemma RenameIsTaken(d: Dir, replace: bool, newId: nat, name: Tag, oldId: nat, source: seq<Tag>,
                      samePair: bool, newOldId: nat)
    requires AllNamed(d) && name.ty & TYPE1 == NAME && name.id == newId && !name.payload.Deleted?
    requires forall i :: 0 <= i < |source| ==> Storable(source[i].ty)
    requires if replace then newId < |d.entries| <= MAX_ENTRIES else newId <= |d.entries| < MAX_ENTRIES
    requires samePair ==> newOldId < |d.entries| + if replace then 0 else 1
    ensures Accepts(d, RenameQueue(replace, newId, name, oldId, source, samePair, newOldId))
  {
    hide Orderly, InOrder, ExpandItem, Replay, AllNamed, NamedBut, Names, QueueFits, TYPE1;
    var queue := RenameQueue(replace, newId, name, oldId, source, samePair, newOldId);
    RenameFits(d, replace, newId, name, oldId, source, samePair, newOldId);
    var gone, made := Plain(Tag(DELETE, newId, Bytes([]))), Plain(Tag(CREATE, newId, Bytes([])));
    var d0 := d;
    if replace {
      DeleteLeaves(d, newId);
      d0 := Replay(d, ExpandItem(gone));
    }
    CreateLeaves(d0, newId);
    var d1 := Replay(d0, ExpandItem(made));
    BehindNames(d1, name, oldId, source, samePair, newOldId);
    ItemNames(d0, made, Behind(name, oldId, source, samePair, newOldId));
    var made' := [made] + Behind(name, oldId, source, samePair, newOldId);
    if replace {
      ItemNames(d, gone, made');
      assert queue == [gone] + made';
    } else {
      assert queue == made';
    }
    AreTaken(d, queue);
  }

  lemma BehindNames(d: Dir, name: Tag, oldId: nat, source: seq<Tag>, samePair: bool, newOldId: nat)
    requires NamedBut(d, name.id) && name.ty & TYPE1 == NAME && !name.payload.Deleted?
    requires forall i :: 0 <= i < |source| ==> Storable(source[i].ty)
    requires samePair ==> newOldId < |d.entries|
    ensures Names(d, Behind(name, oldId, source, samePair, newOldId))
  {
    hide Orderly, InOrder, ExpandItem, Replay, AllNamed, Names;
    var m, gone := Move(name.id, oldId, source), Plain(Tag(DELETE, newOldId, Bytes([])));
    NameLeaves(d, name);
    var d1 := Replay(d, ExpandItem(Plain(name)));
    RequestTypes();
    MoreLeaves(d1, m);
    var d2 := Replay(d1, ExpandItem(m));
    if samePair {
      DeleteLeaves(d2, newOldId);
      NothingNamed(Replay(d2, ExpandItem(gone)));
      ItemNames(d2, gone, []);
      assert [gone] + [] == [gone];
      ItemNames(d1, m, [gone]);
    } else {
      NothingNamed(d2);
      ItemNames(d1, m, []);
    }
    ItemNames(d, Plain(name), [m] + (if samePair then [gone] else []));
  }

  // ---- Over a whole run ----

  /** A log followed by the one that a commit of a queue leaves, appended or compacted. */
  ghost predicate Follows(log: seq<Tag>, pending: seq<Item>, log': seq<Tag>) {
    && AllWellTyped(pending) && Accepts(Replay(EMPTY_DIR, log), pending)
    && (forall i :: 0 <= i < |log| ==> Storable(log[i].ty))
    && (log' == log + Walk(AppendFrame(pending))
        || log' == Walk(CompactFrame(Plains(log) + pending, 0, |Updated(log, pending).entries|)))
  }

  /** All logs of a run that starts from an empty block are well-formed, with names in front. */
  lemma {:induction false} RunIsProper(logs: seq<seq<Tag>>, queues: seq<seq<Item>>, n: nat)
    requires |logs| == |queues| + 1 && logs[0] == [] && n <= |queues|
    requires forall i :: 0 <= i < |queues| ==> Follows(logs[i], queues[i], logs[i + 1])
    ensures Proper(logs[n])
  {
    hide Walk, Proper, Accepts, Replay, Updated;
    if n == 0 {
      EmptyIsProper();
    } else {
      RunIsProper(logs, queues, n - 1);
      var log, pending := logs[n - 1], queues[n - 1];
      assert Follows(log, pending, logs[n - 1 + 1]);
      if logs[n] == log + Walk(AppendFrame(pending)) {
        AppendKeeps(log, pending);
      } else {
        CompactionKeeps(log, pending, 0, |Updated(log, pending).entries|);
      }
    }
  }
}
