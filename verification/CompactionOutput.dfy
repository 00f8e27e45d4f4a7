/** What a compaction writes out: which tags are gone from it, exactly when two of its tags
    say the same thing, and that a queue the filesystem builds never makes it so. */
module CompactionOutput {
  import opened Wrappers
  import opened MetaLog
  import opened Traverse
  import opened Compaction
  import opened CompactionExact

  // ---- Counting what is said ----

  /** How many tags say something of a class of an entry. */
  function Count(tags: seq<Tag>, id: int, c: Selector): nat {
    if tags == [] then 0
    else Count(tags[1..], id, c) + if tags[0].id == id && c.Selects(tags[0].ty) then 1 else 0
  }

  function CountAttrs(attrs: seq<Attr>, c: Selector): nat {
    if attrs == [] then 0
    else CountAttrs(attrs[1..], c) + if c.Selects(attrs[0].ty) then 1 else 0
  }

  lemma {:induction false} CountConcat(a: seq<Tag>, b: seq<Tag>, id: int, c: Selector)
    ensures Count(a + b, id, c) == Count(a, id, c) + Count(b, id, c)
  {
    if a == [] {
      assert a + b == b;
    } else {
      assert (a + b)[1..] == a[1..] + b;
      CountConcat(a[1..], b, id, c);
    }
  }

  lemma {:induction false} CountOfGroup(attrs: seq<Attr>, at: nat, id: int, c: Selector)
    ensures Count(UserTags(attrs, at), id, c) == if at == id then CountAttrs(attrs, c) else 0
  {
    if attrs == [] {
    } else {
      assert UserTags(attrs, at)[1..] == UserTags(attrs[1..], at);
      CountOfGroup(attrs[1..], at, id, c);
    }
  }

  lemma {:induction false} CountIsLatest(attrs: seq<Attr>, c: Selector)
    ensures CountAttrs(attrs, c) > 0 <==> Latest(attrs, c).Some?
    decreases |attrs|
  {
    if attrs == [] {
    } else {
      var init, last := attrs[..|attrs| - 1], attrs[|attrs| - 1];
      CountIsLatest(init, c);
      CountAttrsLast(init, last, c);
      assert attrs == init + [last];
    }
  }

  lemma {:induction false} CountAttrsLast(attrs: seq<Attr>, last: Attr, c: Selector)
    ensures CountAttrs(attrs + [last], c) == CountAttrs(attrs, c) + if c.Selects(last.ty) then 1 else 0
  {
    if attrs == [] {
      assert attrs + [last] == [last] && [last][1..] == [];
    } else {
      assert (attrs + [last])[1..] == attrs[1..] + [last];
      CountAttrsLast(attrs[1..], last, c);
    }
  }

  /** In tags that hold no splices, what is said at all is found. */
  lemma {:induction false} CountIsFound(tags: seq<Tag>, id: nat, c: Selector)
    requires forall t :: t in tags ==> IsAttr(t.ty)
    ensures Count(tags, id, c) > 0 <==> Search(tags, id, c).Found?
    decreases |tags|
  {
    if tags == [] {
    } else {
      var init, last := tags[..|tags| - 1], tags[|tags| - 1];
      assert last in tags && last.ty != CREATE && last.ty != DELETE;
      CountIsFound(init, id, c);
      CountConcat(init, [last], id, c);
      assert tags == init + [last] && [last][1..] == [];
      CountOne(last, id, c);
    }
  }

  lemma CountOne(t: Tag, id: int, c: Selector)
    ensures Count([t], id, c) == if t.id == id && c.Selects(t.ty) then 1 else 0
  {
    assert [t][1..] == [];
  }

  /** Two of the tags say the same thing. */
  ghost predicate Twice(tags: seq<Tag>, id: int, c: Selector) {
    exists i, j :: 0 <= i < j < |tags| && Says(tags[i], id, c) && Says(tags[j], id, c)
  }

  predicate Says(t: Tag, id: int, c: Selector) { t.id == id && c.Selects(t.ty) }

  lemma {:induction false} TwiceIsCounted(tags: seq<Tag>, id: int, c: Selector)
    ensures Count(tags, id, c) > 0 <==> exists i :: 0 <= i < |tags| && Says(tags[i], id, c)
    ensures Count(tags, id, c) > 1 <==> Twice(tags, id, c)
  {
    if tags == [] {
    } else {
      var rest := tags[1..];
      TwiceIsCounted(rest, id, c);
      assert forall i :: 0 <= i < |rest| ==> rest[i] == tags[i + 1];
      if Count(rest, id, c) > 0 {
        var i :| 0 <= i < |rest| && Says(rest[i], id, c);
        assert Says(tags[i + 1], id, c);
      }
      if Twice(rest, id, c) {
        var i, j :| 0 <= i < j < |rest| && Says(rest[i], id, c) && Says(rest[j], id, c);
        assert Says(tags[i + 1], id, c) && Says(tags[j + 1], id, c);
      }
      if i :| 0 < i < |tags| && Says(tags[i], id, c) {
        assert Says(rest[i - 1], id, c);
      }
      if i, j :| 0 < i < j < |tags| && Says(tags[i], id, c) && Says(tags[j], id, c) {
        assert Says(rest[i - 1], id, c) && Says(rest[j - 1], id, c);
      }
    }
  }

  // ---- Exactly when the output says something twice ----

  /** What follows in the input says something of the attribute, and not only that it is
      removed by a removal that is dropped. */
  ghost predicate Heard(items: seq<Item>, k: nat, c: Selector) {
    Output(Search(Expand(items), k, c), Requested(items, k, c), EndsInRemoval(items, k, c), k).Found?
  }

  /** An item that gets through says the same thing twice, or says what is said again behind it. */
  ghost predicate Doubled(items: seq<Item>, k: nat, c: Selector)
    decreases items
  {
    items != [] &&
      (|| Doubled(items[1..], k, c)
       || (Lands(items[0], items[1..], k) && Repeated(items[0], items[1..], k, c)))
  }

  ghost predicate Repeated(item: Item, rest: seq<Item>, k: nat, c: Selector) {
    var n := CountAttrs(Attrs(item), c);
    n > 1 || (n == 1 && Heard(rest, k, c))
  }

  lemma EmitCount(fr: Frame, item: Item, rest: seq<Item>, k: nat, c: Selector)
    requires fr.Ok() && fr.byId && fr.begin <= k < fr.end
    ensures Count(Emit(fr, Filter(item, rest)), k + fr.diff, c)
         == if Lands(item, rest, k) then CountAttrs(Attrs(item), c) else 0
  {
    hide Filter, Emit, Latest, Walk;
    var f := Filter(item, rest);
    EmitIsGroup(fr, f);
    if fr.InRange(f.Id()) && f.Id() + fr.diff >= 0 {
      CountOfGroup(Attrs(f), f.Id() + fr.diff, k + fr.diff, c);
    }
    SameAttrs(item, f);
  }

  lemma SameAttrs(item: Item, f: Item)
    requires f.Noop? || f == item.WithId(f.Id())
    ensures if f.Noop? then Attrs(f) == [] else Attrs(f) == Attrs(item)
  {
  }

  lemma OutputCount(fr: Frame, k: nat, c: Selector)
    requires fr.rest != [] && fr.Ok() && fr.byId && fr.begin <= k < fr.end
    requires !fr.sel.Selects(fr.rest[0].Ty()) ==> CountAttrs(Attrs(fr.rest[0]), c) == 0
    ensures Count(Walk(fr), k + fr.diff, c)
         == Count(Walk(fr.(rest := fr.rest[1..])), k + fr.diff, c)
            + if Lands(fr.rest[0], fr.rest[1..], k) then CountAttrs(Attrs(fr.rest[0]), c) else 0
  {
    hide Walk, Filter, Emit, Attrs, Lands, Count, CountAttrs;
    var next := fr.(rest := fr.rest[1..]);
    WalkNext(fr);
    if fr.sel.Selects(fr.rest[0].Ty()) {
      EmitCount(next, fr.rest[0], fr.rest[1..], k, c);
      CountConcat(Emit(next, Filter(fr.rest[0], fr.rest[1..])), Walk(next), k + fr.diff, c);
    }
  }

  lemma SaidIsHeard(fr: Frame, k: nat, c: Selector)
    requires Covers(fr, c) && IsClass(c) && fr.begin <= k < fr.end && AllWellTyped(fr.rest)
    ensures Count(Walk(fr), k + fr.diff, c) > 0 <==> Heard(fr.rest, k, c)
  {
    hide Walk, Search, Expand, Requested, EndsInRemoval, Count, IsClass, IsAttr;
    OutputShape(fr);
    WalkSearchExactly(fr, k, c);
    CountIsFound(Walk(fr), k + fr.diff, c);
  }

  lemma {:induction false} DoubledIsCounted(fr: Frame, k: nat, c: Selector)
    requires Covers(fr, c) && IsClass(c) && fr.begin <= k < fr.end && AllWellTyped(fr.rest)
    ensures Count(Walk(fr), k + fr.diff, c) > 1 <==> Doubled(fr.rest, k, c)
    decreases |fr.rest|
  {
    hide Filter, Attrs, Lands, Emit, IsClass, IsAttr, Heard, CountAttrs, Latest;
    if fr.rest == [] {
    } else {
      hide Walk, Count, Covers;
      var item, next := fr.rest[0], fr.(rest := fr.rest[1..]);
      CoversOk(fr, c);
      CoversStep(fr, c);
      CountIsLatest(Attrs(item), c);
      DoubledIsCounted(next, k, c);
      OutputCount(fr, k, c);
      SaidIsHeard(next, k, c);
    }
  }

  lemma CoversOk(fr: Frame, c: Selector)
    requires Covers(fr, c)
    ensures fr.Ok() && fr.byId
  {
  }

  /** For every input: two tags of the output say the same thing exactly if the input is so. */
  lemma DuplicatesExactly(fr: Frame, k: nat, c: Selector)
    requires Covers(fr, c) && IsClass(c) && fr.begin <= k < fr.end && AllWellTyped(fr.rest)
    ensures Twice(Walk(fr), k + fr.diff, c) <==> Doubled(fr.rest, k, c)
  {
    hide Walk, Covers, IsClass, Doubled, Twice, Count;
    CoversOk(fr, c);
    DoubledIsCounted(fr, k, c);
    TwiceIsCounted(Walk(fr), k + fr.diff, c);
  }

  // ---- Queues that never make it so ----

  ghost predicate NoMoves(items: seq<Item>) { forall i :: 0 <= i < |items| ==> !items[i].Move? }

  lemma PlainCount(item: Item, c: Selector)
    requires item.Plain?
    ensures CountAttrs(Attrs(item), c) == if c.Selects(item.Ty()) then 1 else 0
  {
    assert Attrs(item) == [item.tag.ToAttr()] && Attrs(item)[1..] == [];
  }

  /** A tag that gets through is said again only by a move, which the filter does not see. */
  lemma PlainRepeats(item: Item, rest: seq<Item>, k: nat, c: Selector)
    requires item.Plain? && WellTyped(item) && AllWellTyped(rest) && IsClass(c) && Lands(item, rest, k)
    ensures Repeated(item, rest, k, c) ==>
              && c.Selects(item.Ty()) && Search(Expand(rest), k, c).Found?
              && Search(Visible(rest), k, c).From? && Requested(rest, k, c).Found?
  {
    hide Filter, Search, Expand, Visible, Requested, EndsInRemoval, Attrs, IsClass, Lands;
    PlainCount(item, c);
    if c.Selects(item.Ty()) {
      ClassHasAttrs(c, item.Ty());
      CountIsLatest(Attrs(item), c);
      LandsWhere(item, rest, k, c);
      RequestsFollow(rest, k, c);
    }
  }

  lemma ClassHasAttrs(c: Selector, ty: bv11)
    requires IsClass(c) && c.Selects(ty)
    ensures IsAttr(ty)
  {
    ClassOfMember(c, ty, ty);
  }

  lemma {:induction false} NothingHidden(items: seq<Item>)
    requires NoMoves(items)
    ensures Visible(items) == Expand(items)
  {
    if items == [] {
    } else {
      assert forall i :: 0 <= i < |items[1..]| ==> items[1..][i] == items[i + 1];
      NothingHidden(items[1..]);
    }
  }

  /** Whatever a move in the queue says of an entry, the queue itself has made known to the
      filter: the entry was created there, or the attribute written. */
  ghost predicate Fresh(pending: seq<Item>, k: nat, c: Selector) {
    Search(Expand(pending), k, c).Found? ==> !Search(Visible(pending), k, c).From?
  }

  lemma {:induction false} ExpandedPlains(log: seq<Tag>, pending: seq<Item>)
    ensures Expand(Plains(log) + pending) == log + Expand(pending)
    ensures Visible(Plains(log) + pending) == log + Visible(pending)
  {
    var items := Plains(log) + pending;
    if log == [] {
      assert items == pending;
    } else {
      assert items[1..] == Plains(log[1..]) + pending;
      ExpandedPlains(log[1..], pending);
      ExpandPlain(log[0]);
      assert [log[0]] + (log[1..] + Expand(pending)) == log + Expand(pending);
      assert [log[0]] + (log[1..] + Visible(pending)) == log + Visible(pending);
    }
  }

  lemma StaysFresh(log: seq<Tag>, pending: seq<Item>, k: nat, c: Selector)
    requires AllWellTyped(pending) && Fresh(pending, k, c)
    ensures Fresh(Plains(log) + pending, k, c)
  {
    hide Search, Expand, Visible;
    ExpandedPlains(log, pending);
    SearchConcat(log, Expand(pending), k, c);
    SearchConcat(log, Visible(pending), k, c);
    VisibleSearch(pending, k, c);
  }

  /** In front of such a queue, the tags of a log are not said again: only the queue itself can
      be at fault. */
  lemma {:induction false} LogIsNotRepeated(log: seq<Tag>, pending: seq<Item>, k: nat, c: Selector)
    requires AllWellTyped(Plains(log) + pending) && Fresh(pending, k, c) && IsClass(c)
    ensures Doubled(Plains(log) + pending, k, c) <==> Doubled(pending, k, c)
    decreases |log|
  {
    hide Repeated, Lands, IsClass, Search;
    var items := Plains(log) + pending;
    if log == [] {
      assert items == pending;
    } else {
      var rest := Plains(log[1..]) + pending;
      assert items[1..] == rest && items[0] == Plain(log[0]);
      assert forall i :: 0 <= i < |rest| ==> rest[i] == items[i + 1];
      assert forall i :: 0 <= i < |pending| ==> pending[i] == items[|log| + i];
      LogIsNotRepeated(log[1..], pending, k, c);
      StaysFresh(log[1..], pending, k, c);
      if Lands(items[0], rest, k) { PlainRepeats(items[0], rest, k, c); }
    }
  }

  predicate DistinctTypes(attrs: seq<Attr>) {
    forall i, j :: 0 <= i < j < |attrs| ==> attrs[i].ty != attrs[j].ty
  }

  lemma {:induction false} DistinctCount(attrs: seq<Attr>, c: Selector)
    requires IsClass(c) && DistinctTypes(attrs)
    requires forall i :: 0 <= i < |attrs| ==> attrs[i].ty & TYPE1 == USERATTR
    ensures CountAttrs(attrs, c) <= 1
  {
    if attrs == [] {
    } else {
      var rest := attrs[1..];
      assert forall i :: 0 <= i < |rest| ==> rest[i] == attrs[i + 1];
      DistinctCount(rest, c);
      CountIsLatest(rest, c);
      LatestExists(rest, c);
      forall i | 0 <= i < |rest| ensures !(c.Selects(attrs[0].ty) && c.Selects(rest[i].ty)) {
        OneType(c, attrs[0].ty, rest[i].ty);
      }
    }
  }

  lemma OneType(c: Selector, a: bv11, b: bv11)
    requires IsClass(c) && a & TYPE1 == USERATTR && b & TYPE1 == USERATTR
    ensures c.Selects(a) && c.Selects(b) ==> a == b
  {
  }

  lemma NothingHeard(k: nat, c: Selector)
    ensures !Heard([], k, c)
  {
  }

  /** After a sync, whose list names each type once, nothing in the output is said twice. */
  lemma SyncIsNotDoubled(log: seq<Tag>, data: Tag, id: nat, attrs: seq<Attr>, k: nat, c: Selector)
    requires AllWellTyped(Plains(log) + SyncQueue(data, id, attrs)) && DistinctTypes(attrs) && IsClass(c)
    ensures !Doubled(Plains(log) + SyncQueue(data, id, attrs), k, c)
  {
    hide Filter, Lands, IsClass, Search, Expand, Visible, Heard, CountAttrs;
    var queue, list := SyncQueue(data, id, attrs), UserAttrs(id, attrs);
    var items := Plains(log) + queue;
    assert items[|log|] == Plain(data) && items[|log| + 1] == list && WellTyped(list);
    NothingHidden(queue);
    LogIsNotRepeated(log, queue, k, c);
    assert queue[1..] == [list] && [list][1..] == [];
    NothingHeard(k, c);
    DistinctCount(attrs, c);
    assert !Repeated(list, [], k, c) && !Doubled([], k, c) && !Doubled([list], k, c);
    NothingHidden([list]);
    if Lands(queue[0], [list], k) { PlainRepeats(queue[0], [list], k, c); }
  }

  lemma {:induction false} TagsAreNotDoubled(items: seq<Item>, k: nat, c: Selector)
    requires OnlyTags(items) && AllWellTyped(items) && IsClass(c)
    ensures !Doubled(items, k, c)
    decreases items
  {
    hide Lands, IsClass, Search, Expand, Visible, Heard;
    if items == [] {
    } else {
      var item, rest := items[0], items[1..];
      assert forall i :: 0 <= i < |rest| ==> rest[i] == items[i + 1];
      TagsAreNotDoubled(rest, k, c);
      NothingHidden(rest);
      if item.Plain? && Lands(item, rest, k) { PlainRepeats(item, rest, k, c); }
    }
  }

  /** Without queued requests, no two tags of the output say the same thing: superseded tags
      are gone. */
  lemma OutputHasNoDuplicates(fr: Frame, k: nat, c: Selector)
    requires Covers(fr, c) && IsClass(c) && fr.begin <= k < fr.end && AllWellTyped(fr.rest)
    requires OnlyTags(fr.rest)
    ensures !Twice(Walk(fr), k + fr.diff, c)
  {
    hide Walk, Covers, IsClass, Doubled, Twice;
    CoversOk(fr, c);
    TagsAreNotDoubled(fr.rest, k, c);
    DuplicatesExactly(fr, k, c);
  }

  // A rename: what the move brings, and what is around it.

  lemma BroughtTypes(source: seq<Tag>, from: nat, c: Selector)
    requires IsClass(c) && c == Selector(TYPE1, NAME)
    ensures Latest(LiveAttrs(source, Selector(0x600, STRUCT), from), c) == None
  {
    hide LiveAttrs, Latest;
    var sel := Selector(0x600, STRUCT);
    var live := LiveAttrs(source, sel, from);
    LiveAttrsAreAttrs(source, sel, from);
    LatestExists(live, c);
    forall i | 0 <= i < |live| ensures !c.Selects(live[i].ty) {
      assert live[i] in live;
      NotName(live[i].ty);
    }
  }

  lemma NotName(ty: bv11)
    requires Selector(0x600, STRUCT).Selects(ty)
    ensures !Selector(TYPE1, NAME).Selects(ty)
  {
  }

  lemma BroughtOnce(source: seq<Tag>, from: nat, c: Selector)
    requires IsClass(c) && forall i :: 0 <= i < |source| ==> Storable(source[i].ty)
    ensures CountAttrs(LiveAttrs(source, Selector(0x600, STRUCT), from), c) <= 1
  {
    hide LiveAttrs, Latest, Walk, CountAttrs, Count, IsClass, Search, Expand, Visible;
    var sel := Selector(0x600, STRUCT);
    var live := LiveAttrs(source, sel, from);
    if c == Selector(TYPE1, NAME) {
      BroughtTypes(source, from, c);
      CountIsLatest(live, c);
    } else {
      var fr := Frame(Plains(source), sel, true, from, from + 1, 0, false);
      assert OnlyTags(fr.rest);
      MoveCovers(fr, c);
      assert Plains(source) + [] == Plains(source);
      NothingHidden([]);
      LogIsNotRepeated(source, [], from, c);
      DoubledIsCounted(fr, from, c);
      WalkOfPlains(fr, source);
      CountOfGroup(live, from, from, c);
    }
  }

  /** What is behind the move: at most the deletion of the old name. */
  predicate IsTrailer(trailer: seq<Item>) {
    trailer == [] || (|trailer| == 1 && trailer[0].Plain? && trailer[0].tag.ty == DELETE)
  }

  lemma TrailerSearch(trailer: seq<Item>, k: nat, c: Selector)
    requires IsTrailer(trailer)
    ensures Search(Expand(trailer), k, c).From? && Visible(trailer) == Expand(trailer)
    ensures !Heard(trailer, k, c)
  {
    NothingHidden(trailer);
    if trailer != [] {
      ExpandPlain(trailer[0].tag);
      assert trailer == [trailer[0]] && trailer[1..] == [];
      assert Expand(trailer) == [trailer[0].tag];
      SearchOne(trailer[0].tag, k, c);
    }
  }

  lemma MoveSearch(m: Item, trailer: seq<Item>, k: nat, c: Selector)
    requires m.Move? && WellTyped(m) && IsTrailer(trailer)
    ensures
      var x := Search(Expand(trailer), k, c);
      var a := Latest(Attrs(m), c);
      && x.From? && Search(Visible([m] + trailer), k, c) == x
      && Search(Expand([m] + trailer), k, c) == if x.id == m.Id() && a.Some? then Found(a.value) else x
  {
    hide Search, Attrs, Latest;
    var items := [m] + trailer;
    assert items[1..] == trailer;
    TrailerSearch(trailer, k, c);
    ItemAttrs(m);
    SearchConcat(ExpandItem(m), Expand(trailer), k, c);
    GroupSearch(Attrs(m), m.Id(), Search(Expand(trailer), k, c).id, c);
    assert [] + Visible(trailer) == Visible(trailer);
  }

  /** The name and the creation in front of the move hide older attributes from it. */
  lemma RenameIsFresh(name: Tag, m: Item, trailer: seq<Item>, k: nat, c: Selector)
    requires m.Move? && WellTyped(m) && IsTrailer(trailer) && name.id == m.Id() && IsAttr(name.ty)
    ensures Fresh([Plain(Tag(CREATE, m.Id(), Bytes([]))), Plain(name), m] + trailer, k, c)
  {
    hide Search, Attrs, Latest, Expand, Visible, IsAttr;
    var front := [Tag(CREATE, m.Id(), Bytes([])), name];
    var items := [Plain(front[0]), Plain(name), m] + trailer;
    assert items == Plains(front) + ([m] + trailer);
    ExpandedPlains(front, [m] + trailer);
    MoveSearch(m, trailer, k, c);
    var e, ef := Search(Expand([m] + trailer), k, c), Search(Visible([m] + trailer), k, c);
    SearchConcat(front, Expand([m] + trailer), k, c);
    SearchConcat(front, Visible([m] + trailer), k, c);
    CreatedInFront(front, m.Id(), c);
  }

  lemma CreatedInFront(front: seq<Tag>, id: nat, c: Selector)
    requires |front| == 2 && front[0] == Tag(CREATE, id, Bytes([])) && front[1].id == id && IsAttr(front[1].ty)
    ensures !Search(front, id, c).From?
  {
    assert front[..1] == [front[0]] && front[1].ty != CREATE && front[1].ty != DELETE;
    SearchOne(front[0], id, c);
  }

  /** After a rename, nothing in the output is said twice. */
  lemma RenameIsNotDoubled(log: seq<Tag>, replace: bool, newId: nat, name: Tag, oldId: nat, source: seq<Tag>,
                           samePair: bool, newOldId: nat, k: nat, c: Selector)
    requires name.ty & TYPE1 == NAME && name.id == newId && IsClass(c)
    requires AllWellTyped(Plains(log) + RenameQueue(replace, newId, name, oldId, source, samePair, newOldId))
    ensures !Doubled(Plains(log) + RenameQueue(replace, newId, name, oldId, source, samePair, newOldId), k, c)
  {
    hide Search, Attrs, Latest, Expand, Visible, IsAttr, Doubled, IsClass, Fresh, Storable;
    var m := Move(newId, oldId, source);
    var trailer := if samePair then [Plain(Tag(DELETE, newOldId, Bytes([])))] else [];
    var tail := [Plain(Tag(CREATE, newId, Bytes([]))), Plain(name), m] + trailer;
    var before := log + if replace then [Tag(DELETE, newId, Bytes([]))] else [];
    var items := Plains(log) + RenameQueue(replace, newId, name, oldId, source, samePair, newOldId);
    assert items == Plains(before) + tail;
    assert forall i :: 0 <= i < |tail| ==> tail[i] == items[|before| + i];
    assert WellTyped(tail[2]) && WellTyped(tail[1]) && WellTyped(tail[0]) && tail[3..] == trailer;
    NameIsAttr(name.ty);
    RenameIsFresh(name, m, trailer, k, c);
    LogIsNotRepeated(before, tail, k, c);
    TailIsNotDoubled(name, m, trailer, tail, k, c);
  }

  lemma TailIsNotDoubled(name: Tag, m: Item, trailer: seq<Item>, tail: seq<Item>, k: nat, c: Selector)
    requires tail == [Plain(Tag(CREATE, m.Id(), Bytes([]))), Plain(name), m] + trailer && IsTrailer(trailer)
    requires m.Move? && AllWellTyped(tail) && name.ty & TYPE1 == NAME && IsClass(c)
    ensures !Doubled(tail, k, c)
  {
    hide Search, Attrs, Latest, Expand, Visible, IsAttr, IsClass, Lands, Repeated;
    var rest := [m] + trailer;
    assert tail[1..] == [Plain(name)] + rest && ([Plain(name)] + rest)[1..] == rest && rest[1..] == trailer;
    assert rest[0] == m && WellTyped(tail[2]) && WellTyped(tail[1]) && WellTyped(tail[0]);
    assert forall i :: 0 <= i < |rest| ==> rest[i] == tail[i + 2];
    assert forall i :: 0 <= i < |tail[1..]| ==> tail[1..][i] == tail[i + 1];
    NoSpliceClass(c);
    TrailerIsQuiet(trailer, k, c);
    MoveIsQuiet(m, trailer, k, c);
    assert !Doubled(rest, k, c);
    if Lands(Plain(name), rest, k) { NameIsQuiet(name, m, trailer, k, c); }
    assert !Doubled([Plain(name)] + rest, k, c);
    if Lands(tail[0], tail[1..], k) { PlainRepeats(tail[0], tail[1..], k, c); }
  }

  lemma NoSpliceClass(c: Selector)
    requires IsClass(c)
    ensures !c.Selects(CREATE) && !c.Selects(DELETE)
  {
    if c.Selects(CREATE) { ClassHasAttrs(c, CREATE); }
    if c.Selects(DELETE) { ClassHasAttrs(c, DELETE); }
  }

  lemma TrailerIsQuiet(trailer: seq<Item>, k: nat, c: Selector)
    requires IsTrailer(trailer) && IsClass(c)
    ensures !Doubled(trailer, k, c)
  {
    hide Lands, Heard;
    if trailer != [] {
      NoSpliceClass(c);
      PlainCount(trailer[0], c);
      assert trailer[1..] == [];
    }
  }

  lemma MoveIsQuiet(m: Item, trailer: seq<Item>, k: nat, c: Selector)
    requires m.Move? && WellTyped(m) && IsTrailer(trailer) && IsClass(c)
    ensures !Repeated(m, trailer, k, c)
  {
    hide Heard, CountAttrs, LiveAttrs;
    BroughtOnce(m.source, m.fromId, c);
    TrailerSearch(trailer, k, c);
  }

  lemma NameIsQuiet(name: Tag, m: Item, trailer: seq<Item>, k: nat, c: Selector)
    requires m.Move? && WellTyped(m) && IsTrailer(trailer) && IsClass(c) && AllWellTyped([m] + trailer)
    requires name.ty & TYPE1 == NAME && WellTyped(Plain(name)) && Lands(Plain(name), [m] + trailer, k)
    ensures !Repeated(Plain(name), [m] + trailer, k, c)
  {
    hide Search, Expand, Visible, Latest, LiveAttrs, Lands, Heard, Repeated;
    PlainRepeats(Plain(name), [m] + trailer, k, c);
    MoveSearch(m, trailer, k, c);
    if c.Selects(name.ty) {
      NameClass(c, name.ty);
      BroughtTypes(m.source, m.fromId, c);
    }
  }

  lemma NameClass(c: Selector, ty: bv11)
    requires IsClass(c) && c.Selects(ty) && ty & TYPE1 == NAME
    ensures c == Selector(TYPE1, NAME)
  {
  }

  // ---- Removals ----

  ghost predicate RequestsSet(items: seq<Item>) {
    forall i :: 0 <= i < |items| && Queued(items[i]) ==>
      forall a :: a in Attrs(items[i]) ==> !a.payload.Deleted?
  }

  /** A removal is written out only if it is the last thing that the input says at all. */
  lemma {:induction false} RemovalsAreLast(fr: Frame, t: Tag)
    requires fr.Ok() && fr.byId && AllWellTyped(fr.rest) && RequestsSet(fr.rest)
    requires t in Walk(fr) && t.payload.Deleted?
    ensures
      var v := Visible(fr.rest);
      v != [] && v[|v| - 1] == t.(id := v[|v| - 1].id) && v[|v| - 1].id + fr.diff == t.id
    decreases |fr.rest|
  {
    hide Filter, LiveAttrs, Emit, WellTyped;
    var item, rest := fr.rest[0], fr.rest[1..];
    var next, f := fr.(rest := rest), Filter(item, rest);
    WalkNext(fr);
    assert forall i :: 0 <= i < |rest| ==> rest[i] == fr.rest[i + 1];
    if t in Walk(next) {
      RemovalsAreLast(next, t);
    } else {
      EmitIsGroup(next, f);
      SameAttrs(item, f);
      var i :| 0 <= i < |Attrs(f)| && UserTags(Attrs(f), f.Id() + fr.diff)[i] == t;
      assert Attrs(f)[i] in Attrs(item);
      assert item.Plain? && item.Removed();
      FilterOfRemoved(item, rest);
      ExpandPlain(item.tag);
    }
  }

  // ---- Compaction ----

  /** A removal in the output is the last tag that log and queue end in. */
  ghost predicate OnlyLastRemoval(out: seq<Tag>, said: seq<Tag>, begin: nat) {
    forall t :: t in out && t.payload.Deleted? ==>
      said != [] && said[|said| - 1] == t.(id := t.id + begin)
  }

  lemma CompactRemovals(items: seq<Item>, begin: nat, end: nat)
    requires AllWellTyped(items) && RequestsSet(items)
    ensures OnlyLastRemoval(Walk(CompactFrame(items, begin, end)), Visible(items), begin)
  {
    hide Walk, Visible, WellTyped;
    var fr := CompactFrame(items, begin, end);
    forall t | t in Walk(fr) && t.payload.Deleted?
      ensures Visible(items) != [] && Visible(items)[|Visible(items)| - 1] == t.(id := t.id + begin)
    {
      RemovalsAreLast(fr, t);
    }
  }

  lemma LogSets(log: seq<Tag>, pending: seq<Item>)
    requires RequestsSet(pending)
    ensures RequestsSet(Plains(log) + pending)
  {
    var items := Plains(log) + pending;
    assert forall i :: 0 <= i < |items| && Queued(items[i]) ==> i >= |log| && items[i] == pending[i - |log|];
  }

  /** Rewrites the entries [begin, end) of a log and its queue as the log of a fresh block. */
  method Compact(log: seq<Tag>, pending: seq<Item>, begin: nat, end: nat) returns (out: seq<Tag>)
    requires Acceptable(pending) && forall i :: 0 <= i < |log| ==> Storable(log[i].ty)
    ensures SameEntries(Replay(EMPTY_DIR, out), Updated(log, pending), begin, end - begin)
    ensures begin < end && Lookup(Updated(log, pending).Slot(end - 1), Selector(TYPE1, NAME)).Some?
            ==> Replay(EMPTY_DIR, out).count == end - begin
    ensures forall t :: t in out ==> IsAttr(t.ty) && t.id < end - begin
    ensures forall k: nat, c :: k < end - begin && IsClass(c) ==>
              (Twice(out, k, c) <==> Doubled(Plains(log) + pending, begin + k, c))
    ensures RequestsSet(pending) ==> OnlyLastRemoval(out, log + Visible(pending), begin)
  {
    hide Lookup, Updated, Replay, Search, Walk, Meaning, Twice, Doubled, Visible, RequestsSet, OnlyLastRemoval,
      IsClass, Expand;
    var items := Plains(log) + pending;
    var fr := CompactFrame(items, begin, end);
    out := Run(fr);
    LogIsAcceptable(log, pending);
    MeaningIsUpdated(log, pending);
    forall k: nat, c | k < end - begin && IsClass(c)
      ensures Lookup(Replay(EMPTY_DIR, out).Slot(k), c)
           == Lookup(Updated(log, pending).Slot(begin + k), c)
      ensures Twice(out, k, c) <==> Doubled(items, begin + k, c)
    {
      CompactionKeepsMeaning(items, begin, end, out, k, c);
      CompactCovers(items, begin, end, c);
      DuplicatesExactly(fr, begin + k, c);
    }
    if begin < end && Lookup(Updated(log, pending).Slot(end - 1), Selector(TYPE1, NAME)).Some? {
      CompactionKeepsCount(items, begin, end, out);
    }
    AnyCovers(items, begin, end);
    OutputShape(fr);
    if RequestsSet(pending) {
      LogSets(log, pending);
      CompactRemovals(items, begin, end);
      ExpandedPlains(log, pending);
    }
  }

  lemma AnyCovers(items: seq<Item>, begin: nat, end: nat)
    ensures var fr := CompactFrame(items, begin, end);
            fr.Ok() && fr.byId && forall ty :: fr.sel.Selects(ty) ==> IsAttr(ty)
  {
    CompactCovers(items, begin, end, Selector(TYPE1, NAME));
  }
}
