/** Compaction rewrites a directory into a fresh block. What it writes replays to the same
    entries, with everything superseded, deleted or shifted by splices resolved. */
module Compaction {
  import opened Wrappers
  import opened MetaLog
  import opened Traverse

  // ---- What a queue of changes means ----

  /** The attributes of entry `id` that a walk over a log keeps. */
  ghost function LiveAttrs(log: seq<Tag>, sel: Selector, id: nat): seq<Attr> {
    if log == [] then []
    else
      var f := Filter(Plain(log[0]), Plains(log[1..]));
      (if sel.Selects(log[0].ty) && f.Plain? && f.Id() == id then [f.tag.ToAttr()] else [])
        + LiveAttrs(log[1..], sel, id)
  }

  /** The attributes an item puts on the entry with its id. */
  ghost function Attrs(item: Item): seq<Attr> {
    match item
    case Plain(t) => [t.ToAttr()]
    case Noop(_) => []
    case UserAttrs(_, attrs) => attrs
    case Move(_, from, source) => LiveAttrs(source, Selector(0x600, STRUCT), from)
  }

  ghost function ExpandItem(item: Item): seq<Tag> { UserTags(Attrs(item), item.Id()) }

  ghost function Expand(items: seq<Item>): seq<Tag> {
    if items == [] then [] else ExpandItem(items[0]) + Expand(items[1..])
  }

  /** The part of it that a filtering level takes notice of. */
  ghost function Visible(items: seq<Item>): seq<Tag> {
    if items == [] then []
    else (if items[0].Move? then [] else ExpandItem(items[0])) + Visible(items[1..])
  }

  // ---- Which inputs occur ----

  /** Types 0x000 and 0x1xx exist only in memory. */
  predicate Storable(ty: bv11) { ty != 0 && ty & TYPE1 != 0x100 }

  predicate WellTyped(item: Item) {
    match item
    case Plain(t) => Storable(t.ty)
    case Noop(_) => true
    case UserAttrs(_, attrs) => forall i :: 0 <= i < |attrs| ==> attrs[i].ty & TYPE1 == USERATTR
    case Move(_, _, source) => forall i :: 0 <= i < |source| ==> Storable(source[i].ty)
  }

  predicate AllWellTyped(items: seq<Item>) {
    forall i :: 0 <= i < |items| ==> WellTyped(items[i])
  }

  predicate Queued(item: Item) { item.Move? || item.UserAttrs? }

  /** No attribute is removed after a move or a list of user attributes was queued. */
  predicate RemovalsFirst(items: seq<Item>) {
    forall i, j :: 0 <= i < j < |items| && Queued(items[i]) ==> !items[j].Removed()
  }

  predicate HasRemoval(items: seq<Item>) {
    exists i :: 0 <= i < |items| && items[i].Removed()
  }

  /** The kinds of attribute an entry has at most one of. */
  predicate IsClass(c: Selector) {
    c == Selector(TYPE1, NAME) || c == Selector(TYPE1, STRUCT)
      || (c.mask == 0x7ff && c.ty & TYPE1 == USERATTR)
  }

  function ClassOf(ty: bv11): Selector { Selector(ClassMask(ty), ty) }

  lemma SameClassIsClassOf(t: bv11, f: bv11)
    ensures SameClass(t, f) == ClassOf(f).Selects(t)
  {
    if SameClass(t, f) { SameClassSelects(t, f); }
    if ClassOf(f).Selects(t) { SelectsSameClass(t, f); }
  }

  lemma SameClassSelects(t: bv11, f: bv11)
    requires SameClass(t, f)
    ensures ClassOf(f).Selects(t)
  {
  }

  lemma SelectsSameClass(t: bv11, f: bv11)
    requires ClassOf(f).Selects(t)
    ensures SameClass(t, f)
  {
  }

  lemma ClassOfMember(c: Selector, f: bv11, t: bv11)
    requires IsClass(c) && c.Selects(f)
    ensures ClassOf(f).Selects(t) <==> c.Selects(t)
    ensures IsAttr(f)
  {
  }

  // ---- Searching tags that hold no splices ----

  lemma {:induction false} GroupSearch(attrs: seq<Attr>, id: nat, k: nat, sel: Selector)
    requires forall i :: 0 <= i < |attrs| ==> IsAttr(attrs[i].ty)
    ensures Search(UserTags(attrs, id), k, sel) ==
              if k == id && Latest(attrs, sel).Some? then Found(Latest(attrs, sel).value)
              else From(k)
  {
    if attrs == [] {
    } else {
      var init := attrs[..|attrs| - 1];
      assert UserTags(attrs, id)[..|attrs| - 1] == UserTags(init, id);
      GroupSearch(init, id, k, sel);
    }
  }

  lemma {:induction false} LatestExists(h: seq<Attr>, sel: Selector)
    ensures Latest(h, sel).Some? <==> exists i :: 0 <= i < |h| && sel.Selects(h[i].ty)
    ensures Latest(h, sel).Some? ==> sel.Selects(Latest(h, sel).value.ty) && Latest(h, sel).value in h
  {
    if h != [] && !sel.Selects(h[|h| - 1].ty) {
      LatestExists(h[..|h| - 1], sel);
    }
  }

  // ---- The forward filter and the backward search are inverse to each other ----

  lemma FilterTagIsStepBack(f: Item, t: Tag, k: nat)
    requires !f.Noop? && !f.Removed() && IsAttr(f.Ty())
    ensures FilterTag(f, t).0 == f.WithId(k) <==> StepBack(t, k, ClassOf(f.Ty())) == From(f.Id())
  {
    SameClassIsClassOf(t.ty, f.Ty());
    assert f.WithId(f.Id()) == f;
    if IsAttr(t.ty) {
      assert t.ty != CREATE && t.ty != DELETE;
    } else {
      NotAttr(t.ty, f.Ty());
    }
  }

  lemma NotAttr(t: bv11, f: bv11)
    requires IsAttr(f) && !IsAttr(t)
    ensures !SameClass(t, f)
  {
  }

  lemma {:induction false} FilterNoop(i: nat, rest: seq<Item>)
    ensures Filter(Noop(i), rest).Noop?
    decreases rest
  {
    if rest == [] {
    } else {
      var (f, stop) := FilterItem(Noop(i), rest[0]);
      if !stop { FilterNoop(f.id, rest[1..]); }
    }
  }

  /** A list of user attributes drops an earlier attribute that it repeats. */
  lemma {:induction false} FilterByAttrs(f: Item, id: nat, attrs: seq<Attr>)
    requires !f.Removed()
    requires forall i :: 0 <= i < |attrs| ==> IsAttr(attrs[i].ty)
    ensures FilterUserAttrs(f, id, attrs) ==
              if id == f.Id() && exists i :: 0 <= i < |attrs| && SameClass(attrs[i].ty, f.Ty())
              then Noop(0) else f
  {
    if attrs == [] {
    } else {
      var t := Tag(attrs[0].ty, id, attrs[0].payload);
      assert t.ty != CREATE && t.ty != DELETE;
      if id == f.Id() && SameClass(attrs[0].ty, f.Ty()) {
        assert FilterTag(f, t) == (Noop(0), true);
      } else {
        FilterByAttrs(f, id, attrs[1..]);
      }
    }
  }

  lemma NameIsAttr(ty: bv11)
    requires ty & TYPE1 == NAME
    ensures IsAttr(ty)
  {
  }

  lemma WellTypedIsAttr(ty: bv11)
    requires ty & TYPE1 == USERATTR
    ensures IsAttr(ty)
  {
  }

  lemma UserAttrsAreAttrs(item: Item)
    requires item.UserAttrs? && WellTyped(item)
    ensures forall i :: 0 <= i < |item.attrs| ==> IsAttr(item.attrs[i].ty)
  {
    forall i | 0 <= i < |item.attrs| ensures IsAttr(item.attrs[i].ty) {
      WellTypedIsAttr(item.attrs[i].ty);
    }
  }

  /** One item of the rest, seen by the filter. */
  lemma FilterItemIsSearch(f: Item, item: Item, k: nat)
    requires !f.Noop? && !f.Removed() && IsAttr(f.Ty()) && WellTyped(item)
    ensures
      var tags := if item.Move? then [] else ExpandItem(item);
      FilterItem(f, item).0 == f.WithId(k) <==> Search(tags, k, ClassOf(f.Ty())) == From(f.Id())
  {
    assert f.WithId(f.Id()) == f;
    match item
    case Plain(t) =>
      FilterTagIsStepBack(f, t, k);
      var tags := ExpandItem(item);
      assert tags == [t] && tags[..0] == [];
    case Noop(_) =>
    case Move(_, _, _) =>
    case UserAttrs(id, attrs) =>
      UserAttrsAreAttrs(item);
      FilterByAttrs(f, id, attrs);
      GroupSearch(attrs, id, k, ClassOf(f.Ty()));
      LatestExists(attrs, ClassOf(f.Ty()));
      forall i | 0 <= i < |attrs|
        ensures SameClass(attrs[i].ty, f.Ty()) == ClassOf(f.Ty()).Selects(attrs[i].ty)
      {
        SameClassIsClassOf(attrs[i].ty, f.Ty());
      }
  }

  /** An item keeps entry id `k` through the filter exactly if the entry found at `k` after
      the rest is the item's, and the rest says nothing new of the item's class. */
  lemma {:induction false} FilterIsSearch(f: Item, rest: seq<Item>, k: nat)
    requires !f.Noop? && !f.Removed() && IsAttr(f.Ty()) && AllWellTyped(rest)
    ensures Filter(f, rest) == f.WithId(k)
       <==> Search(Visible(rest), k, ClassOf(f.Ty())) == From(f.Id())
    decreases rest
  {
    if rest == [] {
      assert f.WithId(f.Id()) == f;
    } else {
      var c := ClassOf(f.Ty());
      var head := if rest[0].Move? then [] else ExpandItem(rest[0]);
      SearchConcat(head, Visible(rest[1..]), k, c);
      var (f', stop) := FilterItem(f, rest[0]);
      var r := Search(Visible(rest[1..]), k, c);
      if r.From? {
        FilterItemIsSearch(f, rest[0], r.id);
      }
      if f'.Noop? {
        if !stop { FilterNoop(f'.id, rest[1..]); }
      } else {
        FilterItemIsSearch(f, rest[0], f'.Id());
        FilterIsSearch(f', rest[1..], k);
      }
    }
  }

  /** A removed attribute itself only survives if nothing follows it. */
  lemma {:induction false} FilterOfRemoved(f: Item, rest: seq<Item>)
    requires f.Removed() && AllWellTyped(rest)
    ensures if Visible(rest) == [] then Filter(f, rest) == f else Filter(f, rest).Noop?
    decreases rest
  {
    if rest == [] {
    } else {
      if rest[0].Plain? {
        assert ExpandItem(rest[0]) != [];
      } else if rest[0].UserAttrs? && rest[0].attrs != [] {
        assert |ExpandItem(rest[0])| > 0;
        assert FilterUserAttrs(f, rest[0].id, rest[0].attrs) == Noop(0);
        FilterNoop(0, rest[1..]);
      } else {
        assert FilterItem(f, rest[0]) == (f, false);
        FilterOfRemoved(f, rest[1..]);
      }
    }
  }

  // ---- What a level outputs ----

  lemma {:induction false} WalkOfPlains(fr: Frame, log: seq<Tag>)
    requires fr.Ok() && fr.byId && fr.end == fr.begin + 1 && fr.rest == Plains(log)
    ensures Walk(fr) == UserTags(LiveAttrs(log, fr.sel, fr.begin), fr.begin + fr.diff)
    decreases |log|
  {
    hide Filter;
    if log == [] {
    } else {
      assert Plains(log)[1..] == Plains(log[1..]);
      var next := fr.(rest := fr.rest[1..]);
      WalkOfPlains(next, log[1..]);
      WalkNext(fr);
    }
  }

  lemma EmitIsGroup(fr: Frame, item: Item)
    requires fr.Ok()
    ensures Emit(fr, item) ==
              if fr.InRange(item.Id()) && item.Id() + fr.diff >= 0
              then UserTags(Attrs(item), item.Id() + fr.diff) else []
  {
    hide Filter, LiveAttrs, Walk;
    if fr.InRange(item.Id()) && item.Move? {
      WalkOfPlains(MoveFrame(fr, item), item.source);
    }
  }

  lemma {:induction false} LiveAttrsAreAttrs(log: seq<Tag>, sel: Selector, id: nat)
    requires forall ty :: sel.Selects(ty) ==> IsAttr(ty)
    ensures forall a :: a in LiveAttrs(log, sel, id) ==> IsAttr(a.ty) && sel.Selects(a.ty)
  {
    if log == [] {
    } else {
      LiveAttrsAreAttrs(log[1..], sel, id);
      var f := Filter(Plain(log[0]), Plains(log[1..]));
      assert f.Noop? || f == Plain(log[0]).WithId(f.Id());
    }
  }

  /** A level that emits every attribute of the class, nothing but attributes, and every
      queued request in its input. */
  ghost predicate Covers(fr: Frame, c: Selector) {
    && fr.Ok() && fr.byId
    && (forall ty :: fr.sel.Selects(ty) ==> IsAttr(ty))
    && (forall ty :: c.Selects(ty) ==> fr.sel.Selects(ty))
    && (forall i :: 0 <= i < |fr.rest| && Queued(fr.rest[i]) ==> fr.sel.Selects(fr.rest[i].Ty()))
  }

  lemma ItemAttrs(item: Item)
    requires WellTyped(item) && IsAttr(item.Ty())
    ensures forall i :: 0 <= i < |Attrs(item)| ==> IsAttr(Attrs(item)[i].ty)
  {
    match item
    case Plain(_) =>
    case Noop(_) =>
    case UserAttrs(_, _) => UserAttrsAreAttrs(item);
    case Move(_, from, source) => LiveAttrsAreAttrs(source, Selector(0x600, STRUCT), from);
  }

  /** What a reader of the output finds of the part contributed by one filtered item. */
  lemma EmitSearch(fr: Frame, item: Item, rest: seq<Item>, k: nat, c: Selector)
    requires fr.Ok() && fr.byId && fr.begin <= k < fr.end
    requires WellTyped(item) && IsAttr(item.Ty())
    ensures
      var f, a := Filter(item, rest), Latest(Attrs(item), c);
      Search(Emit(fr, f), k + fr.diff, c) ==
        if !f.Noop? && f.Id() == k && a.Some? then Found(a.value) else From(k + fr.diff)
  {
    var f := Filter(item, rest);
    EmitIsGroup(fr, f);
    if !f.Noop? && fr.InRange(f.Id()) {
      assert Attrs(f) == Attrs(item);
      ItemAttrs(item);
      GroupSearch(Attrs(item), f.Id() + fr.diff, k + fr.diff, c);
    }
  }

  lemma {:induction false} VisibleSearch(items: seq<Item>, k: nat, c: Selector)
    requires AllWellTyped(items)
    ensures
      var e, ef := Search(Expand(items), k, c), Search(Visible(items), k, c);
      (e.Created? ==> ef.Created?) && (e.From? ==> ef == e)
  {
    if items == [] {
    } else {
      VisibleSearch(items[1..], k, c);
      var head := ExpandItem(items[0]);
      SearchConcat(head, Expand(items[1..]), k, c);
      SearchConcat(if items[0].Move? then [] else head, Visible(items[1..]), k, c);
      if items[0].Move? {
        ItemAttrs(items[0]);
        var r := Search(Expand(items[1..]), k, c);
        if r.From? { GroupSearch(Attrs(items[0]), items[0].Id(), r.id, c); }
      }
    }
  }

  lemma {:induction false} VisibleTypes(items: seq<Item>)
    requires AllWellTyped(items)
    ensures forall t :: t in Visible(items) ==> t.ty & TYPE1 != 0x100
  {
    if items == [] {
    } else {
      VisibleTypes(items[1..]);
    }
  }

  lemma {:induction false} RequestsAreNotFound(log: seq<Tag>, k: nat, ty: bv11)
    requires ty == FROM_MOVE || ty == FROM_USERATTRS
    requires forall t :: t in log ==> t.ty & TYPE1 != 0x100
    ensures !Search(log, k, ClassOf(ty)).Found?
  {
    if log == [] {
    } else {
      var t := log[|log| - 1];
      var r := StepBack(t, k, ClassOf(ty));
      assert t in log;
      if r.From? {
        RequestsAreNotFound(log[..|log| - 1], r.id, ty);
      }
    }
  }

  ghost predicate Lands(item: Item, rest: seq<Item>, k: nat) {
    var f := Filter(item, rest);
    !f.Noop? && f.Id() == k
  }

  /** Where an item that says something of class `c` ends up, in terms of what the rest of
      the input says about entry `k`. */
  lemma LandsWhere(item: Item, rest: seq<Item>, k: nat, c: Selector)
    requires WellTyped(item) && AllWellTyped(rest) && IsClass(c) && !item.Noop?
    requires Latest(Attrs(item), c).Some? && IsAttr(item.Ty())
    ensures
      var ef := Search(Visible(rest), k, c);
      && (ef.From? && !item.Removed() ==> (Lands(item, rest, k) <==> ef.id == item.Id()))
      && (ef.From? && item.Removed() ==>
            (Lands(item, rest, k) <==> ef.id == item.Id() && Visible(rest) == []))
      && (ef.Created? || (ef.Found? && item.Plain?) ==> !Lands(item, rest, k))
  {
    var ef := Search(Visible(rest), k, c);
    if item.Removed() {
      FilterOfRemoved(item, rest);
    } else {
      var own := ClassOf(item.Ty());
      FilterIsSearch(item, rest, k);
      LatestExists(Attrs(item), c);
      if item.Plain? {
        ClassOfPlain(item.Ty(), c, Visible(rest), k);
      } else {
        VisibleTypes(rest);
        RequestsAreNotFound(Visible(rest), k, item.Ty());
        if ef.From? { SameOrigin(Visible(rest), k, c, own); }
        if Search(Visible(rest), k, own).From? { SameOrigin(Visible(rest), k, own, c); }
      }
    }
  }

  lemma {:induction false} ClassOfPlain(ty: bv11, c: Selector, log: seq<Tag>, k: nat)
    requires IsClass(c) && c.Selects(ty)
    ensures Search(log, k, ClassOf(ty)) == Search(log, k, c)
  {
    if log == [] {
    } else {
      ClassOfMember(c, ty, log[|log| - 1].ty);
      var r := StepBack(log[|log| - 1], k, c);
      if r.From? { ClassOfPlain(ty, c, log[..|log| - 1], r.id); }
    }
  }

  // ---- The output says what the input says ----

  /** `o` is what a reader of the output finds for an entry, `e` what the input says, `ef` what
      the filter saw of it: the same attribute or none, except that a removal may have been
      dropped along with all that it removed. */
  predicate Agrees(o: Trace, e: Trace, ef: Trace, removal: bool) {
    match e
    case Found(a) => o == e || (a.payload.Deleted? && o.From? && !ef.From? && removal)
    case Created => o.From?
    case From(_) => o.From?
  }

  /** The first item adds to what the rest says only where the rest says nothing. */
  function AddFirst(r: Trace, here: bool, a: Option<Attr>): Trace {
    if r.From? && here && a.Some? then Found(a.value) else r
  }

  lemma CoversNext(fr: Frame, c: Selector)
    requires fr.rest != [] && Covers(fr, c)
    ensures Covers(fr.(rest := fr.rest[1..]), c)
  {
    var rest := fr.rest[1..];
    assert forall i :: 0 <= i < |rest| ==> rest[i] == fr.rest[i + 1];
  }

  lemma SilentItem(item: Item, c: Selector)
    requires !Queued(item) && !c.Selects(item.Ty())
    ensures Latest(Attrs(item), c) == None
  {
    hide LiveAttrs;
    LatestExists(Attrs(item), c);
  }

  /** Items that a level skips say nothing of a class it covers. */
  lemma CoversStep(fr: Frame, c: Selector)
    requires fr.rest != [] && Covers(fr, c)
    ensures Covers(fr.(rest := fr.rest[1..]), c)
    ensures !fr.sel.Selects(fr.rest[0].Ty()) ==> Latest(Attrs(fr.rest[0]), c) == None
    ensures !IsAttr(fr.rest[0].Ty()) ==> !fr.sel.Selects(fr.rest[0].Ty())
  {
    hide Latest, Attrs, IsAttr;
    CoversNext(fr, c);
    if !fr.sel.Selects(fr.rest[0].Ty()) {
      assert !Queued(fr.rest[0]);
      SilentItem(fr.rest[0], c);
    }
  }

  lemma OutputStep(fr: Frame, k: nat, c: Selector)
    requires fr.rest != [] && fr.Ok() && fr.byId && fr.begin <= k < fr.end
    requires AllWellTyped(fr.rest) && IsAttr(fr.rest[0].Ty())
    requires !fr.sel.Selects(fr.rest[0].Ty()) ==> Latest(Attrs(fr.rest[0]), c) == None
    requires var o := Search(Walk(fr.(rest := fr.rest[1..])), k + fr.diff, c);
             o.From? ==> o == From(k + fr.diff)
    ensures Search(Walk(fr), k + fr.diff, c) ==
              AddFirst(Search(Walk(fr.(rest := fr.rest[1..])), k + fr.diff, c),
                       Lands(fr.rest[0], fr.rest[1..], k), Latest(Attrs(fr.rest[0]), c))
  {
    hide Walk, Filter, Search, Attrs, Latest, Emit, Expand;
    var item, rest := fr.rest[0], fr.rest[1..];
    var next, f, a := fr.(rest := rest), Filter(item, rest), Latest(Attrs(item), c);
    var o := Search(Walk(next), k + fr.diff, c);
    WalkNext(fr);
    if fr.sel.Selects(item.Ty()) {
      assert WellTyped(item);
      EmitSearch(next, item, rest, k, c);
      var emitted := Emit(next, f);
      SearchConcat(emitted, Walk(next), k + fr.diff, c);
      if o.From? {
        assert Search(Walk(fr), k + fr.diff, c) == Search(emitted, k + fr.diff, c);
      } else {
        assert Search(Walk(fr), k + fr.diff, c) == o;
      }
    }
  }

  lemma InputStep(items: seq<Item>, k: nat, c: Selector)
    requires items != [] && AllWellTyped(items) && IsAttr(items[0].Ty())
    ensures
      var r := Search(Expand(items[1..]), k, c);
      Search(Expand(items), k, c) ==
        AddFirst(r, r.From? && r.id == items[0].Id(), Latest(Attrs(items[0]), c))
    ensures
      var r := Search(Visible(items[1..]), k, c);
      Search(Visible(items), k, c) ==
        AddFirst(r, r.From? && r.id == items[0].Id() && !items[0].Move?, Latest(Attrs(items[0]), c))
  {
    var item, rest := items[0], items[1..];
    ItemAttrs(item);
    SearchConcat(ExpandItem(item), Expand(rest), k, c);
    SearchConcat(if item.Move? then [] else ExpandItem(item), Visible(rest), k, c);
    var e, ef := Search(Expand(rest), k, c), Search(Visible(rest), k, c);
    if e.From? { GroupSearch(Attrs(item), item.Id(), e.id, c); }
    if ef.From? { GroupSearch(Attrs(item), item.Id(), ef.id, c); }
  }

  lemma RemovalStep(items: seq<Item>)
    requires items != [] && RemovalsFirst(items)
    ensures RemovalsFirst(items[1..])
    ensures HasRemoval(items) <==> items[0].Removed() || HasRemoval(items[1..])
    ensures Queued(items[0]) ==> !HasRemoval(items)
  {
    var rest := items[1..];
    if HasRemoval(rest) {
      var i :| 0 <= i < |rest| && rest[i].Removed();
      assert items[i + 1].Removed();
    }
    if i :| 0 <= i < |items| && items[i].Removed() && i > 0 {
      assert rest[i - 1].Removed();
    }
    assert forall i, j :: 0 <= i < j < |rest| ==> rest[i] == items[i + 1] && rest[j] == items[j + 1];
  }

  lemma AgreesStep(o: Trace, e: Trace, ef: Trace, item: Item, rest: seq<Item>,
                   k: nat, c: Selector)
    requires WellTyped(item) && AllWellTyped(rest) && IsClass(c) && IsAttr(item.Ty())
    requires e == Search(Expand(rest), k, c) && ef == Search(Visible(rest), k, c)
    requires Agrees(o, e, ef, HasRemoval(rest))
    requires Queued(item) ==> !HasRemoval(rest)
    ensures
      var a := Latest(Attrs(item), c);
      Agrees(AddFirst(o, Lands(item, rest, k), a),
             AddFirst(e, e.From? && e.id == item.Id(), a),
             AddFirst(ef, ef.From? && ef.id == item.Id() && !item.Move?, a),
             item.Removed() || HasRemoval(rest))
  {
    VisibleSearch(rest, k, c);
    if Latest(Attrs(item), c).Some? {
      LatestExists(Attrs(item), c);
      LandsWhere(item, rest, k, c);
    }
  }

  lemma ExpandPlain(t: Tag)
    ensures ExpandItem(Plain(t)) == [t]
  {
  }

  lemma NotAttrNotFound(t: Tag, k: nat, c: Selector)
    requires !IsAttr(t.ty)
    ensures !StepBack(t, k, c).Found?
  {
  }

  lemma SpliceStep(t: Tag, rest: seq<Item>, k: nat, c: Selector)
    requires !IsAttr(t.ty)
    ensures
      var e, e' := Search(Expand(rest), k, c), Search(Expand([Plain(t)] + rest), k, c);
      if e.From? then !e'.Found? else e' == e
    ensures
      var ef, ef' := Search(Visible(rest), k, c), Search(Visible([Plain(t)] + rest), k, c);
      !ef.From? ==> ef' == ef
  {
    var items := [Plain(t)] + rest;
    assert items[1..] == rest;
    ExpandPlain(t);
    SearchConcat([t], Expand(rest), k, c);
    SearchConcat([t], Visible(rest), k, c);
    var e := Search(Expand(rest), k, c);
    if e.From? {
      SearchOne(t, e.id, c);
      NotAttrNotFound(t, e.id, c);
    }
  }

  lemma SearchOne(t: Tag, k: nat, c: Selector)
    ensures Search([t], k, c) == StepBack(t, k, c)
  {
    assert [t][..0] == [];
  }

  /** The whole output, read back, agrees with the whole input. */
  lemma {:induction false} WalkSearch(fr: Frame, k: nat, c: Selector)
    requires Covers(fr, c) && IsClass(c) && fr.begin <= k < fr.end
    requires AllWellTyped(fr.rest) && RemovalsFirst(fr.rest)
    ensures
      var o := Search(Walk(fr), k + fr.diff, c);
      && Agrees(o, Search(Expand(fr.rest), k, c), Search(Visible(fr.rest), k, c),
                HasRemoval(fr.rest))
      && (o.From? ==> o == From(k + fr.diff))
    decreases |fr.rest|
  {
    hide Filter, Latest, Attrs, Lands, Emit, HasRemoval, IsClass;
    if fr.rest == [] {
    } else {
      var item, rest := fr.rest[0], fr.rest[1..];
      var next := fr.(rest := rest);
      RemovalStep(fr.rest);
      CoversStep(fr, c);
      WalkSearch(next, k, c);
      if IsAttr(item.Ty()) {
        OutputStep(fr, k, c);
        InputStep(fr.rest, k, c);
        AgreesStep(Search(Walk(next), k + fr.diff, c), Search(Expand(rest), k, c),
                   Search(Visible(rest), k, c), item, rest, k, c);
      } else {
        assert item.Plain?;
        WalkNext(fr);
        assert fr.rest == [item] + rest;
        SpliceStep(item.tag, rest, k, c);
      }
    }
  }

  // ---- Compaction ----

  /** The walk a compaction of ids [begin, end) runs: everything below splices. */
  function CompactFrame(items: seq<Item>, begin: nat, end: nat): Frame {
    Frame(items, Selector(0x400, NAME), true, begin, end, 0 - begin, false)
  }

  /** The directory that a log together with queued changes stands for. */
  ghost function Meaning(items: seq<Item>): Dir { Replay(EMPTY_DIR, Expand(items)) }

  ghost predicate Acceptable(items: seq<Item>) { AllWellTyped(items) && RemovalsFirst(items) }

  lemma LogIsAcceptable(log: seq<Tag>, pending: seq<Item>)
    requires forall i :: 0 <= i < |log| ==> Storable(log[i].ty)
    requires Acceptable(pending)
    ensures Acceptable(Plains(log) + pending)
  {
    var items, n := Plains(log) + pending, |log|;
    assert forall i :: 0 <= i < |items| && Queued(items[i]) ==> i >= n;
    assert forall i :: n <= i < |items| ==> items[i] == pending[i - n];
    forall i, j | 0 <= i < j < |items| && Queued(items[i]) ensures !items[j].Removed() {
      assert Queued(pending[i - n]) && items[j] == pending[j - n];
    }
  }

  lemma CompactCovers(items: seq<Item>, begin: nat, end: nat, c: Selector)
    requires IsClass(c)
    ensures Covers(CompactFrame(items, begin, end), c)
  {
  }

  /** What a reader sees of a trace that starts from an empty block. */
  function Seen(r: Trace): Option<Attr> {
    if r.Found? && !r.a.payload.Deleted? then Some(r.a) else None
  }

  lemma LookupIsSeen(log: seq<Tag>, k: nat, c: Selector)
    ensures Lookup(Replay(EMPTY_DIR, log).Slot(k), c) == Seen(Search(log, k, c))
  {
    SearchIsReplay(EMPTY_DIR, log, k, c);
    if Search(log, k, c).From? {
      assert EMPTY_DIR.Slot(Search(log, k, c).id) == [];
    }
  }

  lemma CompactSearch(items: seq<Item>, begin: nat, end: nat, k: nat, c: Selector)
    requires Acceptable(items) && IsClass(c) && k < end - begin
    ensures
      var out := Walk(CompactFrame(items, begin, end));
      Seen(Search(out, k, c)) == Seen(Search(Expand(items), begin + k, c))
  {
    hide Walk, Search, Expand, Visible, HasRemoval, IsClass;
    CompactCovers(items, begin, end, c);
    WalkSearch(CompactFrame(items, begin, end), begin + k, c);
  }

  lemma MeaningIsSeen(items: seq<Item>, k: nat, c: Selector)
    ensures Lookup(Meaning(items).Slot(k), c) == Seen(Search(Expand(items), k, c))
  {
    LookupIsSeen(Expand(items), k, c);
  }

  /** Every class of every entry reads the same before and after, ids renumbered from 0. */
  lemma CompactionKeepsMeaning(items: seq<Item>, begin: nat, end: nat, out: seq<Tag>,
                               k: nat, c: Selector)
    requires Acceptable(items) && IsClass(c) && k < end - begin
    requires out == Walk(CompactFrame(items, begin, end))
    ensures Lookup(Replay(EMPTY_DIR, out).Slot(k), c) == Lookup(Meaning(items).Slot(begin + k), c)
  {
    hide Walk, Search, Replay, Meaning, Lookup, Expand;
    CompactSearch(items, begin, end, k, c);
    LookupIsSeen(out, k, c);
    MeaningIsSeen(items, begin + k, c);
  }

  // ---- What is left out of the output, and how many entries it has ----

  /** The output holds attributes only, on the renumbered ids. */
  lemma {:induction false} OutputShape(fr: Frame)
    requires fr.Ok() && fr.byId && AllWellTyped(fr.rest)
    requires forall ty :: fr.sel.Selects(ty) ==> IsAttr(ty)
    ensures forall t :: t in Walk(fr) ==>
              IsAttr(t.ty) && fr.begin + fr.diff <= t.id < fr.end + fr.diff
    decreases |fr.rest|
  {
    if fr.rest == [] {
    } else {
      var item, rest := fr.rest[0], fr.rest[1..];
      var next, f := fr.(rest := rest), Filter(item, rest);
      OutputShape(next);
      WalkNext(fr);
      if fr.sel.Selects(item.Ty()) {
        EmitIsGroup(next, f);
        if !f.Noop? { ItemAttrs(item); }
        assert Attrs(f) == [] || Attrs(f) == Attrs(item);
      }
    }
  }

  ghost predicate OnlyTags(items: seq<Item>) {
    forall i :: 0 <= i < |items| ==> !Queued(items[i])
  }

  lemma {:induction false} NamesCount(out: seq<Tag>, k: nat, n: nat)
    requires forall t :: t in out ==> IsAttr(t.ty) && t.id < n
    ensures Search(out, k, Selector(TYPE1, NAME)).Found? ==> Replay(EMPTY_DIR, out).count > k
    ensures Replay(EMPTY_DIR, out).count <= n
  {
    if out == [] {
    } else {
      var t := out[|out| - 1];
      assert t in out && t.ty != CREATE && t.ty != DELETE;
      NamesCount(out[..|out| - 1], k, n);
    }
  }

  /** A later fetch counts all the entries of the range, given that the last one has a name. */
  lemma CompactionKeepsCount(items: seq<Item>, begin: nat, end: nat, out: seq<Tag>)
    requires Acceptable(items) && begin < end && out == Walk(CompactFrame(items, begin, end))
    requires Lookup(Meaning(items).Slot(end - 1), Selector(TYPE1, NAME)).Some?
    ensures Replay(EMPTY_DIR, out).count == end - begin
  {
    hide Walk, Search, Expand, Visible, Replay, Lookup, Meaning;
    var name := Selector(TYPE1, NAME);
    var k := end - 1 - begin;
    CompactCovers(items, begin, end, name);
    OutputShape(CompactFrame(items, begin, end));
    CompactSearch(items, begin, end, k, name);
    MeaningIsSeen(items, end - 1, name);
    NamesCount(out, k, end - begin);
  }

  /** Appending instead of compacting writes out exactly what the queue means. */
  function AppendFrame(items: seq<Item>): Frame {
    Frame(items, Selector(0, 0), false, 0, 0, 0, false)
  }

  lemma {:induction false} AppendWritesMeaning(items: seq<Item>)
    ensures Walk(AppendFrame(items)) == Expand(items)
  {
    if items == [] {
    } else {
      WalkNext(AppendFrame(items));
      EmitIsGroup(AppendFrame(items[1..]), items[0]);
      AppendWritesMeaning(items[1..]);
    }
  }

  /** The attributes a move brings are those its source entry has. */
  lemma MoveKeepsAttributes(source: seq<Tag>, from: nat, c: Selector)
    requires forall i :: 0 <= i < |source| ==> Storable(source[i].ty)
    requires IsClass(c) && c != Selector(TYPE1, NAME)
    ensures Lookup(LiveAttrs(source, Selector(0x600, STRUCT), from), c)
         == Lookup(Replay(EMPTY_DIR, source).Slot(from), c)
  {
    var sel := Selector(0x600, STRUCT);
    var fr := Frame(Plains(source), sel, true, from, from + 1, 0, false);
    assert OnlyTags(fr.rest);
    MoveCovers(fr, c);
    WalkSearch(fr, from, c);
    WalkOfPlains(fr, source);
    LiveAttrsAreAttrs(source, sel, from);
    GroupSearch(LiveAttrs(source, sel, from), from, from, c);
    ExpandPlains(source);
    LookupIsSeen(source, from, c);
  }

  lemma MoveCovers(fr: Frame, c: Selector)
    requires fr.Ok() && fr.byId && fr.sel == Selector(0x600, STRUCT) && OnlyTags(fr.rest)
    requires IsClass(c) && c != Selector(TYPE1, NAME)
    ensures Covers(fr, c)
  {
  }

  lemma {:induction false} ExpandPlains(log: seq<Tag>)
    ensures Expand(Plains(log)) == log
  {
    if log == [] {
    } else {
      assert Plains(log)[1..] == Plains(log[1..]);
      ExpandPlains(log[1..]);
      ExpandPlain(log[0]);
    }
  }

  // ---- The two ways a commit writes its queue ----

  lemma {:induction false} ExpandConcat(a: seq<Item>, b: seq<Item>)
    ensures Expand(a + b) == Expand(a) + Expand(b)
  {
    hide ExpandItem;
    if a == [] {
      assert a + b == b;
    } else {
      assert (a + b)[1..] == a[1..] + b;
      ExpandConcat(a[1..], b);
    }
  }

  /** The directory a committed log holds, changed by a queue. */
  ghost function Updated(log: seq<Tag>, pending: seq<Item>): Dir {
    Replay(Replay(EMPTY_DIR, log), Expand(pending))
  }

  lemma MeaningIsUpdated(log: seq<Tag>, pending: seq<Item>)
    ensures Meaning(Plains(log) + pending) == Updated(log, pending)
  {
    ExpandConcat(Plains(log), pending);
    ExpandPlains(log);
    ReplayConcat(EMPTY_DIR, log, Expand(pending));
  }

  /** Appends the queue to the log. */
  method Append(log: seq<Tag>, pending: seq<Item>) returns (out: seq<Tag>)
    ensures Replay(EMPTY_DIR, log + out) == Updated(log, pending)
  {
    out := Run(AppendFrame(pending));
    AppendWritesMeaning(pending);
    ReplayConcat(EMPTY_DIR, log, out);
  }

  /** Two directories that no lookup can tell apart, on their first `n` entries. */
  ghost predicate SameEntries(d: Dir, e: Dir, begin: nat, n: int) {
    forall k: nat, c :: k < n && IsClass(c) ==> Lookup(d.Slot(k), c) == Lookup(e.Slot(begin + k), c)
  }

  // The queues that the filesystem itself builds.

  function SyncQueue(data: Tag, id: nat, attrs: seq<Attr>): seq<Item> {
    [Plain(data), UserAttrs(id, attrs)]
  }

  function RenameQueue(replace: bool, newId: nat, name: Tag, oldId: nat, source: seq<Tag>, samePair: bool,
                       newOldId: nat): seq<Item>
  {
    (if replace then [Plain(Tag(DELETE, newId, Bytes([])))] else [])
      + [Plain(Tag(CREATE, newId, Bytes([]))), Plain(name), Move(newId, oldId, source)]
      + (if samePair then [Plain(Tag(DELETE, newOldId, Bytes([])))] else [])
  }

  function SetAttrQueue(attr: Tag): seq<Item> { [Plain(attr)] }

  /** In all of them, removals come first. */
  lemma QueuesAreOrdered(t: Tag, id: nat, attrs: seq<Attr>, replace: bool, oldId: nat, source: seq<Tag>,
                         samePair: bool, newOldId: nat)
    ensures RemovalsFirst(SyncQueue(t, id, attrs)) && RemovalsFirst(SetAttrQueue(t))
    ensures RemovalsFirst(RenameQueue(replace, id, t, oldId, source, samePair, newOldId))
  {
    var q, n := RenameQueue(replace, id, t, oldId, source, samePair, newOldId), if replace then 1 else 0;
    assert q[n + 2] == Move(id, oldId, source);
    assert samePair ==> q[n + 3] == Plain(Tag(DELETE, newOldId, Bytes([])));
    forall i | 0 <= i < |q| && Queued(q[i]) ensures i == n + 2 { }
  }

  // A queue that sets an attribute through a list, then removes it, then writes something else.
  const SET := Attr(0x301, Bytes([7]))
  const LOST := [UserAttrs(0, [SET]), Plain(Tag(0x301, 0, Deleted)), Plain(Tag(0x201, 0, Bytes([])))]

  lemma LostMeaning(c: Selector)
    requires c == Selector(0x7ff, 0x301)
    ensures Lookup(Meaning(LOST).Slot(0), c) == None
  {
    var gone, data := LOST[1].tag, LOST[2].tag;
    assert LOST[1..] == Plains([gone, data]);
    ExpandPlains([gone, data]);
    var said := Expand(LOST);
    assert said == [Tag(0x301, 0, SET.payload), gone, data];
    assert said[..2][1] == gone;
    MeaningIsSeen(LOST, 0, c);
  }

  lemma FilterLast(item: Item)
    ensures Filter(item, []) == item
  {
  }

  lemma LostFilter()
    ensures Filter(LOST[0], LOST[1..]) == LOST[0] && Filter(LOST[1], LOST[2..]).Noop?
  {
    hide Filter;
    var q, gone, data := LOST[0], LOST[1], LOST[2];
    assert LOST[1..] == [gone] + [data] && LOST[2..] == [data] && [data] + [] == [data];
    assert Visible([data]) != [] by { ExpandPlain(data.tag); }
    FilterPasses(q, gone, [data]);
    FilterPasses(q, data, []);
    FilterLast(q);
    FilterOfRemoved(gone, [data]);
  }

  lemma FilterPasses(f: Item, item: Item, rest: seq<Item>)
    requires FilterItem(f, item) == (f, false)
    ensures Filter(f, [item] + rest) == Filter(f, rest)
  {
    assert ([item] + rest)[1..] == rest;
  }

  /** What one item of the class puts into the compacted log. */
  lemma LostStep(items: seq<Item>)
    requires items != [] && items[0].Ty() & 0x400 == 0
    ensures
      var f, next := Filter(items[0], items[1..]), CompactFrame(items[1..], 0, 1);
      Walk(CompactFrame(items, 0, 1)) ==
        (if f.Id() == 0 then UserTags(Attrs(f), 0) else []) + Walk(next)
  {
    hide Walk, Filter, Emit, LiveAttrs, Attrs;
    var fr := CompactFrame(items, 0, 1);
    WalkNext(fr);
    assert fr.(rest := fr.rest[1..]) == CompactFrame(items[1..], 0, 1);
    EmitIsGroup(CompactFrame(items[1..], 0, 1), Filter(items[0], items[1..]));
  }

  lemma LostOutput()
    ensures Walk(CompactFrame(LOST, 0, 1)) == [Tag(0x301, 0, SET.payload), LOST[2].tag]
  {
    hide Walk, Filter;
    var q, gone, data := LOST[0], LOST[1], LOST[2];
    assert LOST[1..] == [gone, data] && LOST[2..] == [data] && LOST[1..][1..] == [data] && [data][1..] == [];
    LostFilter();
    FilterLast(data);
    LostStep(LOST);
    LostStep([gone, data]);
    LostStep([data]);
    NothingWalked(CompactFrame([], 0, 1));
    var f := Filter(gone, [data]);
    assert UserTags(Attrs(f), 0) == [] && UserTags(Attrs(data), 0) == [data.tag];
    assert UserTags(Attrs(q), 0) == [Tag(0x301, 0, SET.payload)];
  }

  lemma NothingWalked(fr: Frame)
    requires fr.Ok() && fr.rest == []
    ensures Walk(fr) == []
  {
  }

  /** The order of a queue matters: a removal queued after a list of user attributes is
      dropped by the filter, but the list is not, so the removed attribute comes back. */
  lemma RemovalAfterQueueIsLost()
    ensures
      var c := Selector(0x7ff, 0x301);
      && AllWellTyped(LOST) && !RemovalsFirst(LOST)
      && Lookup(Meaning(LOST).Slot(0), c) == None
      && Lookup(Replay(EMPTY_DIR, Walk(CompactFrame(LOST, 0, 1))).Slot(0), c) == Some(SET)
  {
    var c := Selector(0x7ff, 0x301);
    assert Queued(LOST[0]) && LOST[1].Removed();
    LostMeaning(c);
    LostOutput();
    var out := [Tag(0x301, 0, SET.payload), LOST[2].tag];
    assert out[..1] == [Tag(0x301, 0, SET.payload)];
    SearchOne(out[0], 0, c);
    LookupIsSeen(out, 0, c);
  }
}
