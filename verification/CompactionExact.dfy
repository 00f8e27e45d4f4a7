/** Exactly when a compaction keeps what an entry says: unless the queue removes an attribute,
    goes on after that, and has a request that sets it. For every log and queue. */
module CompactionExact {
  import opened Wrappers
  import opened MetaLog
  import opened Traverse
  import opened Compaction

  /** The input without the attributes that are written out in it: splices and requests. */
  function Requests(items: seq<Item>): seq<Item> {
    if items == [] then []
    else (if items[0].Plain? && IsAttr(items[0].tag.ty) then [] else [items[0]]) + Requests(items[1..])
  }

  /** What the requests alone say of an attribute of entry k. */
  ghost function Requested(items: seq<Item>, k: nat, c: Selector): Trace {
    Search(Expand(Requests(items)), k, c)
  }

  /** The removal of the attribute is the last thing that a filter sees of the input. */
  ghost predicate EndsInRemoval(items: seq<Item>, k: nat, c: Selector) {
    var v := Visible(items);
    v != [] && v[|v| - 1].payload.Deleted? && v[|v| - 1].id == k && c.Selects(v[|v| - 1].ty)
  }

  predicate Removes(t: Trace) { t.Found? && t.a.payload.Deleted? }

  predicate Sets(t: Trace) { t.Found? && !t.a.payload.Deleted? }

  /** The last word on the attribute is a removal, something else follows it, and of the
      requests alone the last word is a value. */
  ghost predicate ComesBack(items: seq<Item>, k: nat, c: Selector) {
    && Removes(Search(Expand(items), k, c))
    && !EndsInRemoval(items, k, c)
    && Sets(Requested(items, k, c))
  }

  /** What the output says, given what the input says, what its requests say, and whether it
      ends in a removal. */
  function Output(e: Trace, q: Trace, ends: bool, id: nat): Trace {
    if Sets(e) || (Removes(e) && ends) then e
    else if e.Found? && q.Found? then q
    else From(id)
  }

  // ---- One item more, in front ----

  lemma SpliceExactly(t: Tag, log: seq<Tag>, k: nat, c: Selector)
    ensures
      var r := Search(log, k, c);
      Search([t] + log, k, c) == if r.From? then StepBack(t, r.id, c) else r
  {
    SearchConcat([t], log, k, c);
    var r := Search(log, k, c);
    if r.From? { SearchOne(t, r.id, c); }
  }

  lemma RequestsStep(items: seq<Item>, k: nat, c: Selector)
    requires items != [] && AllWellTyped(items)
    ensures
      var item, q, q' := items[0], Requested(items[1..], k, c), Requested(items, k, c);
      && (IsAttr(item.Ty()) ==>
            q' == AddFirst(q, Queued(item) && q.From? && q.id == item.Id(), Latest(Attrs(item), c)))
      && (!IsAttr(item.Ty()) ==> q' == if q.From? then StepBack(item.tag, q.id, c) else q)
  {
    hide StepBack, Latest, LiveAttrs;
    var item, rest := items[0], Requests(items[1..]);
    if !(item.Plain? && IsAttr(item.tag.ty)) {
      assert Requests(items)[1..] == rest;
      if IsAttr(item.Ty()) {
        ItemAttrs(item);
        SearchConcat(ExpandItem(item), Expand(rest), k, c);
        var q := Search(Expand(rest), k, c);
        if q.From? { GroupSearch(Attrs(item), item.Id(), q.id, c); }
        if item.Noop? { NothingSaid(item, c); }
      } else {
        ExpandPlain(item.tag);
        SpliceExactly(item.tag, Expand(rest), k, c);
      }
    } else {
      assert Requests(items) == rest;
    }
  }

  lemma OnlyTagsSplice(item: Item)
    requires !IsAttr(item.Ty())
    ensures item.Plain?
  {
  }

  lemma NothingSaid(item: Item, c: Selector)
    requires item.Noop?
    ensures Latest(Attrs(item), c) == None
  {
  }

  lemma SplicedInput(items: seq<Item>, k: nat, c: Selector)
    requires items != [] && !IsAttr(items[0].Ty())
    ensures
      var e, ef := Search(Expand(items[1..]), k, c), Search(Visible(items[1..]), k, c);
      && Search(Expand(items), k, c) == (if e.From? then StepBack(items[0].tag, e.id, c) else e)
      && Search(Visible(items), k, c) == (if ef.From? then StepBack(items[0].tag, ef.id, c) else ef)
  {
    hide StepBack, Search;
    ExpandPlain(items[0].tag);
    SpliceExactly(items[0].tag, Expand(items[1..]), k, c);
    SpliceExactly(items[0].tag, Visible(items[1..]), k, c);
  }

  /** What all say, what the filter sees, and what the requests say of an attribute part ways
      only where an attribute written out has the last word. */
  lemma {:induction false} RequestsFollow(items: seq<Item>, k: nat, c: Selector)
    requires AllWellTyped(items)
    ensures
      var e, ef, q := Search(Expand(items), k, c), Search(Visible(items), k, c), Requested(items, k, c);
      && (e.From? ==> ef == e && q == e) && (e.Created? ==> ef.Created? && q.Created?)
      && (e.Found? && !ef.Found? ==> q == e)
    decreases |items|
  {
    hide StepBack, Latest, Attrs, IsAttr;
    if items == [] {
    } else {
      RequestsFollow(items[1..], k, c);
      RequestsStep(items, k, c);
      if IsAttr(items[0].Ty()) {
        InputStep(items, k, c);
      } else {
        SplicedInput(items, k, c);
      }
    }
  }

  /** Followed as the filter does it, a request goes where the requests lead. */
  lemma {:induction false} RequestTrace(items: seq<Item>, k: nat, c: Selector, ty: bv11)
    requires AllWellTyped(items) && (ty == FROM_MOVE || ty == FROM_USERATTRS)
    ensures
      var own, q := Search(Visible(items), k, ClassOf(ty)), Requested(items, k, c);
      && !own.Found? && (q.From? ==> own == q) && (q.Created? ==> own.Created?)
    decreases |items|
  {
    hide Latest, Attrs, IsAttr, ClassOf;
    VisibleTypes(items);
    RequestsAreNotFound(Visible(items), k, ty);
    if items == [] {
    } else {
      RequestTrace(items[1..], k, c, ty);
      RequestsStep(items, k, c);
      if IsAttr(items[0].Ty()) {
        InputStep(items, k, ClassOf(ty));
      } else {
        SplicedInput(items, k, ClassOf(ty));
        OnlyTagsSplice(items[0]);
        SpliceAlike(items[0].tag, k, c, ClassOf(ty));
      }
    }
  }

  lemma SpliceAlike(t: Tag, k: nat, c: Selector, d: Selector)
    requires !IsAttr(t.ty)
    ensures forall n: nat :: StepBack(t, n, c) == StepBack(t, n, d)
  {
  }

  lemma EndStep(items: seq<Item>, k: nat, c: Selector)
    requires items != [] && IsClass(c)
    ensures
      var item, rest, a := items[0], items[1..], Latest(Attrs(items[0]), c);
      if Visible(rest) != [] then EndsInRemoval(items, k, c) == EndsInRemoval(rest, k, c)
      else
        && !EndsInRemoval(rest, k, c)
        && (EndsInRemoval(items, k, c) ==> IsAttr(item.Ty()) && a.Some? && item.Id() == k)
        && (item.Plain? && item.Removed() && a.Some? && item.Id() == k ==> EndsInRemoval(items, k, c))
  {
    hide LiveAttrs;
    var item, rest := items[0], items[1..];
    var head := if item.Move? then [] else ExpandItem(item);
    assert Visible(items) == head + Visible(rest);
    if Visible(rest) == [] && head != [] {
      var last := Attrs(item)[|Attrs(item)| - 1];
      assert head[|head| - 1].ToAttr() == last;
      if c.Selects(last.ty) { ClassOfMember(c, last.ty, last.ty); }
    }
  }

  lemma EndIsFound(items: seq<Item>, k: nat, c: Selector)
    requires IsClass(c) && EndsInRemoval(items, k, c)
    ensures Search(Visible(items), k, c).Found?
  {
    var v := Visible(items);
    ClassOfMember(c, v[|v| - 1].ty, v[|v| - 1].ty);
  }

  lemma NothingVisible(items: seq<Item>, k: nat, c: Selector)
    requires Visible(items) == []
    ensures Search(Visible(items), k, c) == From(k)
  {
  }

  /** Where a request gets through although the filter finds the attribute behind it. */
  lemma RequestLands(item: Item, rest: seq<Item>, k: nat, c: Selector)
    requires Queued(item) && WellTyped(item) && AllWellTyped(rest)
    requires !Requested(rest, k, c).Found?
    ensures var q := Requested(rest, k, c);
            Lands(item, rest, k) <==> q.From? && q.id == item.Id()
  {
    hide Search, Visible, Expand, Filter, ClassOf;
    RequestTrace(rest, k, c, item.Ty());
    FilterIsSearch(item, rest, k);
    assert item.WithId(item.Id()) == item;
  }

  lemma PlainSays(item: Item, c: Selector)
    requires item.Plain? && Latest(Attrs(item), c).Some?
    ensures Latest(Attrs(item), c).value.payload.Deleted? <==> item.Removed()
  {
    LatestExists(Attrs(item), c);
  }

  lemma OutputOfPlain(o: Trace, item: Item, items: seq<Item>, rest: seq<Item>, k: nat, c: Selector, id: nat)
    requires items != [] && item == items[0] && rest == items[1..] && AllWellTyped(items) && IsClass(c)
    requires item.Plain? && IsAttr(item.Ty()) && Latest(Attrs(item), c).Some?
    requires o == Output(Search(Expand(rest), k, c), Requested(rest, k, c), EndsInRemoval(rest, k, c), id)
    ensures
      var a, e := Latest(Attrs(item), c), Search(Expand(rest), k, c);
      AddFirst(o, Lands(item, rest, k), a)
      == Output(AddFirst(e, e.From? && e.id == item.Id(), a), Requested(rest, k, c),
                EndsInRemoval(items, k, c), id)
  {
    hide Search, Visible, Expand, Requested, Attrs, Latest, Lands, EndsInRemoval, IsClass;
    RequestsFollow(rest, k, c);
    EndStep(items, k, c);
    PlainSays(item, c);
    LandsWhere(item, rest, k, c);
    if Visible(rest) == [] { NothingVisible(rest, k, c); }
    if EndsInRemoval(rest, k, c) { EndIsFound(rest, k, c); }
  }

  lemma OutputOfRequest(o: Trace, item: Item, items: seq<Item>, rest: seq<Item>, k: nat, c: Selector, id: nat)
    requires items != [] && item == items[0] && rest == items[1..] && AllWellTyped(items) && IsClass(c)
    requires Queued(item) && Latest(Attrs(item), c).Some?
    requires o == Output(Search(Expand(rest), k, c), Requested(rest, k, c), EndsInRemoval(rest, k, c), id)
    ensures
      var a, e, q := Latest(Attrs(item), c), Search(Expand(rest), k, c), Requested(rest, k, c);
      AddFirst(o, Lands(item, rest, k), a)
      == Output(AddFirst(e, e.From? && e.id == item.Id(), a),
                AddFirst(q, q.From? && q.id == item.Id(), a), EndsInRemoval(items, k, c), id)
  {
    hide Search, Visible, Expand, Requested, Attrs, Latest, Lands, EndsInRemoval, IsClass;
    RequestsFollow(rest, k, c);
    EndStep(items, k, c);
    if Visible(rest) == [] { NothingVisible(rest, k, c); }
    if !Requested(rest, k, c).Found? { RequestLands(item, rest, k, c); }
  }

  lemma OutputOfAttr(o: Trace, items: seq<Item>, k: nat, c: Selector, id: nat)
    requires items != [] && AllWellTyped(items) && IsClass(c) && IsAttr(items[0].Ty())
    requires var rest := items[1..];
             o == Output(Search(Expand(rest), k, c), Requested(rest, k, c), EndsInRemoval(rest, k, c), id)
    ensures AddFirst(o, Lands(items[0], items[1..], k), Latest(Attrs(items[0]), c))
         == Output(Search(Expand(items), k, c), Requested(items, k, c), EndsInRemoval(items, k, c), id)
  {
    hide Search, Visible, Expand, Requested, Attrs, Latest, Lands, EndsInRemoval, IsClass, Output;
    var item, rest := items[0], items[1..];
    InputStep(items, k, c);
    RequestsStep(items, k, c);
    if Latest(Attrs(item), c) == None {
      SilentEnd(items, k, c);
    } else if item.Plain? {
      OutputOfPlain(o, item, items, rest, k, c, id);
    } else if item.Noop? {
      NothingSaid(item, c);
    } else {
      OutputOfRequest(o, item, items, rest, k, c, id);
    }
  }

  lemma SilentEnd(items: seq<Item>, k: nat, c: Selector)
    requires items != [] && IsClass(c) && Latest(Attrs(items[0]), c) == None
    ensures EndsInRemoval(items, k, c) == EndsInRemoval(items[1..], k, c)
  {
    hide Attrs, Latest, EndsInRemoval, IsClass, Visible;
    EndStep(items, k, c);
  }

  lemma OutputOfSplice(items: seq<Item>, k: nat, c: Selector, id: nat)
    requires items != [] && AllWellTyped(items) && IsClass(c) && !IsAttr(items[0].Ty())
    ensures
      var rest := items[1..];
      Output(Search(Expand(rest), k, c), Requested(rest, k, c), EndsInRemoval(rest, k, c), id)
      == Output(Search(Expand(items), k, c), Requested(items, k, c), EndsInRemoval(items, k, c), id)
  {
    hide Search, Visible, Expand, Requested, EndsInRemoval, IsClass, Attrs, Latest, StepBack, IsAttr;
    var item := items[0];
    OnlyTagsSplice(item);
    SplicedInput(items, k, c);
    RequestsStep(items, k, c);
    EndStep(items, k, c);
    forall n: nat ensures !StepBack(item.tag, n, c).Found? { NotAttrNotFound(item.tag, n, c); }
  }

  /** What a reader of the output finds, for every input. */
  lemma {:induction false} WalkSearchExactly(fr: Frame, k: nat, c: Selector)
    requires Covers(fr, c) && IsClass(c) && fr.begin <= k < fr.end && AllWellTyped(fr.rest)
    ensures Search(Walk(fr), k + fr.diff, c)
         == Output(Search(Expand(fr.rest), k, c), Requested(fr.rest, k, c), EndsInRemoval(fr.rest, k, c),
                   k + fr.diff)
    decreases |fr.rest|
  {
    hide Filter, Latest, Attrs, Lands, Emit, IsClass, EndsInRemoval, Requested, Search, Walk, Expand, Visible, IsAttr;
    if fr.rest == [] {
      NothingOut(fr, k, c);
    } else {
      var item, rest := fr.rest[0], fr.rest[1..];
      var next := fr.(rest := rest);
      CoversStep(fr, c);
      WalkSearchExactly(next, k, c);
      if IsAttr(item.Ty()) {
        OutputStep(fr, k, c);
        OutputOfAttr(Search(Walk(next), k + fr.diff, c), fr.rest, k, c, k + fr.diff);
      } else {
        WalkNext(fr);
        OutputOfSplice(fr.rest, k, c, k + fr.diff);
      }
    }
  }

  lemma NothingOut(fr: Frame, k: nat, c: Selector)
    requires fr.Ok() && fr.rest == [] && fr.byId && fr.begin <= k
    ensures Search(Walk(fr), k + fr.diff, c) == From(k + fr.diff)
    ensures Search(Expand(fr.rest), k, c) == From(k)
  {
  }

  /** An attribute reads the same before and after a compaction exactly if it does not come back. */
  lemma KeptUnlessItComesBack(items: seq<Item>, begin: nat, end: nat, out: seq<Tag>, k: nat, c: Selector)
    requires AllWellTyped(items) && IsClass(c) && k < end - begin
    requires out == Walk(CompactFrame(items, begin, end))
    ensures Lookup(Replay(EMPTY_DIR, out).Slot(k), c) == Lookup(Meaning(items).Slot(begin + k), c)
       <==> !ComesBack(items, begin + k, c)
  {
    hide Walk, Search, Replay, Meaning, Lookup, Expand, Visible, EndsInRemoval, Requested;
    var fr := CompactFrame(items, begin, end);
    CompactCovers(items, begin, end, c);
    WalkSearchExactly(fr, begin + k, c);
    LookupIsSeen(out, k, c);
    MeaningIsSeen(items, begin + k, c);
  }
}
