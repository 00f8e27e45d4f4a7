/** Walking a metadata log together with pending changes, the way commits and compactions
    read it: every tag is updated by the splices that follow it and dropped when a later
    tag supersedes it, and queued moves pull in the attributes of an entry elsewhere. */
module Traverse {
  import opened MetaLog

  const FROM_MOVE: bv11 := 0x101
  const FROM_USERATTRS: bv11 := 0x102

  /** One step of the input: a tag, or a request that exists only in memory. */
  datatype Item =
    | Plain(tag: Tag)
    | Noop(id: nat)
    | Move(toId: nat, fromId: nat, source: seq<Tag>)
    | UserAttrs(id: nat, attrs: seq<Attr>)
  {
    function Ty(): bv11 {
      match this
      case Plain(t) => t.ty
      case Noop(_) => 0
      case Move(_, _, _) => FROM_MOVE
      case UserAttrs(_, _) => FROM_USERATTRS
    }

    function Id(): nat {
      match this
      case Plain(t) => t.id
      case Noop(i) => i
      case Move(i, _, _) => i
      case UserAttrs(i, _) => i
    }

    function WithId(i: nat): Item {
      match this
      case Plain(t) => Plain(t.(id := i))
      case Noop(_) => Noop(i)
      case Move(_, from, source) => Move(i, from, source)
      case UserAttrs(_, attrs) => UserAttrs(i, attrs)
    }

    predicate Removed() { Plain? && tag.payload.Deleted? }
  }

  function Plains(log: seq<Tag>): (r: seq<Item>)
    ensures |r| == |log| && forall i :: 0 <= i < |r| ==> r[i] == Plain(log[i])
  {
    seq(|log|, i requires 0 <= i < |log| => Plain(log[i]))
  }

  // ---- The filter: what later tags do to an earlier one ----

  /** Two tags of one entry are about the same thing when their abstract types agree,
      except that user attributes are told apart by their full type. */
  function ClassMask(ty: bv11): bv11 { if ty & 0x100 != 0 then 0x7ff else 0x700 }

  predicate SameClass(t: bv11, f: bv11) { ClassMask(t) & t == ClassMask(t) & f }

  /** What tag `t` makes of an earlier item, and whether the scan may stop. */
  function FilterTag(f: Item, t: Tag): (r: (Item, bool))
    ensures r.0.Noop? || r.0 == f.WithId(r.0.Id())
  {
    if (SameClass(t.ty, f.Ty()) && t.id == f.Id())
      || f.Removed()
      || (t.ty == DELETE && t.id == f.Id())
    then (Noop(0), true)
    else if t.ty == CREATE && t.id <= f.Id() then (f.WithId(f.Id() + 1), false)
    else if t.ty == DELETE && t.id <= f.Id() then (f.WithId(f.Id() - 1), false)
    else (f, false)
  }

  function FilterUserAttrs(f: Item, id: nat, attrs: seq<Attr>): (r: Item)
    ensures r.Noop? || r == f.WithId(r.Id())
    decreases attrs
  {
    if attrs == [] then f
    else
      var (f', stop) := FilterTag(f, Tag(attrs[0].ty, id, attrs[0].payload));
      if stop then f' else FilterUserAttrs(f', id, attrs[1..])
  }

  /** Queued moves are skipped here: repeating a tag does no harm. */
  function FilterItem(f: Item, item: Item): (r: (Item, bool))
    ensures r.0.Noop? || r.0 == f.WithId(r.0.Id())
  {
    match item
    case Plain(t) => FilterTag(f, t)
    case Noop(_) => (f, false)
    case Move(_, _, _) => (f, false)
    case UserAttrs(id, attrs) => (FilterUserAttrs(f, id, attrs), false)
  }

  function Filter(f: Item, rest: seq<Item>): (r: Item)
    ensures r.Noop? || r == f.WithId(r.Id())
    decreases rest
  {
    if rest == [] then f
    else
      var (f', stop) := FilterItem(f, rest[0]);
      if stop then f' else Filter(f', rest[1..])
  }

  // ---- The walk, as a recursive function ----

  /** The state of one level of the walk. `byId` asks for the filter and for the ids
      [begin, end); emitted ids are shifted by `diff`. A filtering level outputs nothing:
      it updates the item that the level below it was suspended on. */
  datatype Frame = Frame(rest: seq<Item>, sel: Selector, byId: bool,
                         begin: nat, end: nat, diff: int, filtering: bool) {
    predicate InRange(id: nat) { byId ==> begin <= id < end }

    predicate Ok() { if byId then begin + diff >= 0 else diff >= 0 }
  }

  function MoveFrame(fr: Frame, m: Item): (r: Frame)
    requires m.Move?
  {
    Frame(Plains(m.source), Selector(0x600, STRUCT), true, m.fromId, m.fromId + 1,
          m.toId - m.fromId + fr.diff, false)
  }

  function FilterFrame(rest: seq<Item>): Frame {
    Frame(rest, Selector(0, 0), false, 0, 0, 0, true)
  }

  /** A level that waits for the one above it, and the item it goes on with then. */
  datatype Suspended = Suspended(fr: Frame, tag: Item)

  ghost predicate HasMove(items: seq<Item>) { exists i :: 0 <= i < |items| && items[i].Move? }

  function UserTags(attrs: seq<Attr>, id: nat): (r: seq<Tag>)
    ensures |r| == |attrs|
    ensures forall i :: 0 <= i < |r| ==> r[i] == Tag(attrs[i].ty, id, attrs[i].payload)
  {
    seq(|attrs|, i requires 0 <= i < |attrs| => Tag(attrs[i].ty, id, attrs[i].payload))
  }

  /** What one item, already filtered, contributes to the output of a level. */
  ghost function Emit(fr: Frame, item: Item): seq<Tag>
    requires fr.Ok()
    decreases item.Move?, 0, 1
  {
    if !fr.InRange(item.Id()) then []
    else
      match item
      case Plain(t) => [t.(id := t.id + fr.diff)]
      case Noop(_) => []
      case UserAttrs(id, attrs) => UserTags(attrs, id + fr.diff)
      case Move(_, _, _) => Walk(MoveFrame(fr, item))
  }

  ghost function Walk(fr: Frame): seq<Tag>
    requires fr.Ok()
    decreases HasMove(fr.rest), |fr.rest|, 0
  {
    if fr.rest == [] then []
    else
      var item, next := fr.rest[0], fr.(rest := fr.rest[1..]);
      if !fr.sel.Selects(item.Ty()) then Walk(next)
      else Emit(fr, if fr.byId then Filter(item, next.rest) else item) + Walk(next)
  }

  // ---- The walk as the code runs it: one loop and a two-frame stack ----

  /** The walk calls itself for filters and moves, three levels in all; levels below the
      current one wait in an array of this size. */
  const STACK_SIZE := 2

  method FilterByUserAttrs(f: Item, id: nat, attrs: seq<Attr>) returns (r: Item)
    ensures r == FilterUserAttrs(f, id, attrs)
  {
    r := f;
    var i := 0;
    while i < |attrs|
      invariant 0 <= i <= |attrs|
      invariant FilterUserAttrs(f, id, attrs) == FilterUserAttrs(r, id, attrs[i..])
    {
      var (f', stop) := FilterTag(r, Tag(attrs[i].ty, id, attrs[i].payload));
      assert attrs[i..][1..] == attrs[i + 1..];
      r := f';
      if stop { return; }
      i := i + 1;
    }
  }

  method EmitUserAttrs(id: nat, attrs: seq<Attr>) returns (r: seq<Tag>)
    ensures r == UserTags(attrs, id)
  {
    r := [];
    for i := 0 to |attrs|
      invariant r == UserTags(attrs, id)[..i]
    {
      r := r + [Tag(attrs[i].ty, id, attrs[i].payload)];
    }
  }

  /** What a level still has to output: the item it was suspended on, then its rest. */
  ghost function Pending(fr: Frame, item: Item, popped: bool): seq<Tag>
    requires fr.Ok()
  {
    if popped then Emit(fr, item) + Walk(fr) else Walk(fr)
  }

  ghost predicate AllOk(below: seq<Suspended>) {
    forall i :: 0 <= i < |below| ==> below[i].fr.Ok()
  }

  /** What the levels that wait below the current one will output, topmost first. */
  ghost function Waiting(below: seq<Suspended>): seq<Tag>
    requires AllOk(below)
  {
    if below == [] then []
    else
      var top := below[|below| - 1];
      Pending(top.fr, top.tag, true) + Waiting(below[..|below| - 1])
  }

  ghost function Remaining(below: seq<Suspended>, cur: Frame, item: Item, popped: bool): seq<Tag>
    requires AllOk(below) && if cur.filtering then below != [] else cur.Ok()
  {
    if cur.filtering then
      var top := below[|below| - 1];
      Pending(top.fr, Filter(top.tag, cur.rest), true) + Waiting(below[..|below| - 1])
    else
      Pending(cur, item, popped) + Waiting(below)
  }

  /** The levels are, from the bottom: the walk asked for, possibly one move, possibly one
      filter. Only the bottom level can meet a move. */
  ghost predicate Levels(below: seq<Suspended>, cur: Frame, item: Item, popped: bool) {
    && |below| <= STACK_SIZE
    && AllOk(below)
    && (forall i :: 0 <= i < |below| ==> !below[i].fr.filtering)
    && (cur.filtering ==> |below| > 0 && !popped && cur.sel == Selector(0, 0) && !cur.byId)
    && (!cur.filtering ==> cur.Ok() && |below| <= 1)
    && (|below| == 1 && !cur.filtering ==>
          !HasMove(cur.rest) && !(popped && item.Move?) && below[0].tag.Noop?)
    && (|below| == 2 ==>
          !HasMove(below[1].fr.rest) && !below[1].tag.Move? && below[0].tag.Noop?)
  }

  // How each step of the loop below moves output from `Remaining` to what is done.

  lemma EmitIgnoresRest(fr: Frame, rest: seq<Item>, item: Item)
    requires fr.Ok()
    ensures Emit(fr.(rest := rest), item) == Emit(fr, item)
  {
    if item.Move? {
      assert MoveFrame(fr.(rest := rest), item) == MoveFrame(fr, item);
    }
  }

  lemma WalkNext(fr: Frame)
    requires fr.Ok() && fr.rest != []
    ensures
      var item, next := fr.rest[0], fr.(rest := fr.rest[1..]);
      Walk(fr) ==
        if !fr.sel.Selects(item.Ty()) then Walk(next)
        else Emit(next, if fr.byId then Filter(item, next.rest) else item) + Walk(next)
  {
    var item, next := fr.rest[0], fr.(rest := fr.rest[1..]);
    EmitIgnoresRest(fr, next.rest, if fr.byId then Filter(item, next.rest) else item);
  }

  lemma TakeNext(below: seq<Suspended>, cur: Frame, any: Item)
    requires AllOk(below) && cur.rest != [] && cur.Ok() && !cur.filtering
    ensures
      var item, next := cur.rest[0], cur.(rest := cur.rest[1..]);
      Remaining(below, cur, any, false) ==
        if !cur.sel.Selects(item.Ty()) then Remaining(below, next, item, false)
        else if cur.byId then
          Remaining(below + [Suspended(next, item)], FilterFrame(next.rest), item, false)
        else Remaining(below, next, item, true)
  {
    WalkNext(cur);
    var item, next := cur.rest[0], cur.(rest := cur.rest[1..]);
    if cur.byId {
      var below' := below + [Suspended(next, item)];
      assert below'[..|below' | - 1] == below;
    }
  }

  lemma PopLevel(below: seq<Suspended>, cur: Frame, any: Item)
    requires AllOk(below) && below != [] && cur.rest == [] && (!cur.filtering ==> cur.Ok())
    ensures
      var top := below[|below| - 1];
      Remaining(below, cur, any, false)
        == Pending(top.fr, top.tag, true) + Waiting(below[..|below| - 1])
  {
  }

  lemma PushMove(below: seq<Suspended>, cur: Frame, m: Item)
    requires AllOk(below) && cur.Ok() && !cur.filtering && m.Move? && cur.InRange(m.Id())
    ensures MoveFrame(cur, m).Ok()
    ensures Remaining(below, cur, m, true)
         == Remaining(below + [Suspended(cur, Noop(0))], MoveFrame(cur, m), m, false)
  {
    var below' := below + [Suspended(cur, Noop(0))];
    assert below'[..|below|] == below;
    assert Emit(cur, Noop(0)) == [];
    assert Waiting(below') == Walk(cur) + Waiting(below);
  }

  /** One item seen by a filtering level. */
  lemma FilterNext(below: seq<Suspended>, cur: Frame, any: Item)
    requires AllOk(below) && below != [] && cur.filtering && cur.rest != []
    ensures
      var top := below[|below| - 1];
      var (f, stop) := FilterItem(top.tag, cur.rest[0]);
      var below' := below[|below| - 1 := Suspended(top.fr, f)];
      AllOk(below') &&
      Remaining(below, cur, any, false) ==
        if stop then Pending(top.fr, f, true) + Waiting(below'[..|below| - 1])
        else Remaining(below', cur.(rest := cur.rest[1..]), any, false)
  {
    var top := below[|below| - 1];
    var (f, stop) := FilterItem(top.tag, cur.rest[0]);
    var below' := below[|below| - 1 := Suspended(top.fr, f)];
    assert below'[..|below| - 1] == below[..|below| - 1];
  }

  /** The measure of the loop: what is left of the bottom level, how far its current item
      has come (filtering it, waiting for a move, done), and the same one level up. */
  ghost function Rank(below: seq<Suspended>, cur: Frame, item: Item, popped: bool)
    : (nat, nat, nat, nat)
  {
    var n := |below|;
    if n == 0 then (|cur.rest|, if !popped then 0 else if item.Move? then 3 else 1, 0, 0)
    else if n == 1 && cur.filtering then (|below[0].fr.rest|, 4, |cur.rest|, 0)
    else if n == 1 then (|below[0].fr.rest|, 2, |cur.rest|, if popped then 1 else 0)
    else (|below[0].fr.rest|, 2, |below[1].fr.rest|, 2 + |cur.rest|)
  }

  ghost predicate Below(a: (nat, nat, nat, nat), b: (nat, nat, nat, nat)) {
    a.0 < b.0 || (a.0 == b.0 && (a.1 < b.1 || (a.1 == b.1 &&
      (a.2 < b.2 || (a.2 == b.2 && a.3 < b.3)))))
  }

  /** Reads the next item of the current level, and starts filtering it if need be. */
  method Fetch(stack: array<Suspended>, sp: nat, cur: Frame, any: Item)
    returns (sp': nat, cur': Frame, item: Item, ready: bool)
    requires sp <= STACK_SIZE == stack.Length && cur.rest != [] && !cur.filtering
    requires Levels(stack[..sp], cur, any, false)
    modifies stack
    ensures sp' <= STACK_SIZE && Levels(stack[..sp'], cur', item, ready)
    ensures Remaining(stack[..sp'], cur', item, ready) == old(Remaining(stack[..sp], cur, any, false))
    ensures Below(Rank(stack[..sp'], cur', item, ready), old(Rank(stack[..sp], cur, any, false)))
  {
    ghost var below := stack[..sp];
    TakeNext(below, cur, any);
    sp', item, cur', ready := sp, cur.rest[0], cur.(rest := cur.rest[1..]), false;
    if cur.sel.Selects(item.Ty()) {
      if cur.byId {
        // scan the rest for duplicates, and update the item for creates and deletes
        stack[sp] := Suspended(cur', item);
        sp' := sp + 1;
        cur' := FilterFrame(cur'.rest);
        assert stack[..sp'] == below + [stack[sp]];
      } else {
        ready := true;
      }
    }
  }

  /** Handles an item that is through the filter: emits it, or starts the move it asks for. */
  method Perform(stack: array<Suspended>, sp: nat, cur: Frame, item: Item)
    returns (sp': nat, cur': Frame, emitted: seq<Tag>)
    requires sp <= STACK_SIZE == stack.Length && !cur.filtering
    requires Levels(stack[..sp], cur, item, true)
    modifies stack
    ensures sp' <= STACK_SIZE && Levels(stack[..sp'], cur', item, false)
    ensures emitted + Remaining(stack[..sp'], cur', item, false)
         == old(Remaining(stack[..sp], cur, item, true))
    ensures Below(Rank(stack[..sp'], cur', item, false), old(Rank(stack[..sp], cur, item, true)))
  {
    hide Walk, Filter;
    ghost var below := stack[..sp];
    sp', cur', emitted := sp, cur, [];
    if cur.InRange(item.Id()) {
      match item {
        case Noop(_) =>
        case Move(_, _, _) =>
          PushMove(below, cur, item);
          stack[sp] := Suspended(cur, Noop(0));
          sp' := sp + 1;
          cur' := MoveFrame(cur, item);
          assert stack[..sp'] == below + [stack[sp]];
        case UserAttrs(id, attrs) =>
          emitted := EmitUserAttrs(id + cur.diff, attrs);
        case Plain(t) =>
          emitted := [t.(id := t.id + cur.diff)];
      }
    }
    if sp' == sp {
      assert emitted == Emit(cur, item);
      assert emitted + (Walk(cur) + Waiting(below)) == emitted + Walk(cur) + Waiting(below);
    }
  }

  /** Lets the next item of a filtering level act on the item below. */
  method FilterOne(stack: array<Suspended>, sp: nat, cur: Frame, any: Item)
    returns (cur': Frame, stop: bool)
    requires 0 < sp <= STACK_SIZE == stack.Length && cur.filtering && cur.rest != []
    requires Levels(stack[..sp], cur, any, false)
    modifies stack
    ensures Levels(stack[..sp], cur', any, false) && cur'.filtering
    ensures old(Remaining(stack[..sp], cur, any, false)) ==
              if stop then
                Pending(stack[sp - 1].fr, stack[sp - 1].tag, true) + Waiting(stack[..sp - 1])
              else Remaining(stack[..sp], cur', any, false)
    ensures Below(Rank(stack[..sp], cur', any, false), old(Rank(stack[..sp], cur, any, false)))
  {
    ghost var below := stack[..sp];
    FilterNext(below, cur, any);
    cur', stop := cur.(rest := cur.rest[1..]), false;
    var f := stack[sp - 1].tag;
    match cur.rest[0] {
      case Plain(t) =>
        var (f', s) := FilterTag(f, t);
        f, stop := f', s;
      case UserAttrs(id, attrs) =>
        f := FilterByUserAttrs(f, id, attrs);
      case Noop(_) =>
      case Move(_, _, _) =>
    }
    stack[sp - 1] := stack[sp - 1].(tag := f);
    assert stack[..sp] == below[sp - 1 := stack[sp - 1]];
    assert stack[..sp - 1] == below[..sp - 1];
  }

  /** Goes back to the level below, which continues with the item it was suspended on. */
  method Resume(stack: array<Suspended>, sp: nat, cur: Frame, any: Item)
    returns (sp': nat, cur': Frame, item: Item)
    requires 0 < sp <= STACK_SIZE == stack.Length && Levels(stack[..sp], cur, any, false)
    ensures sp' < sp && Levels(stack[..sp'], cur', item, true)
    ensures Remaining(stack[..sp'], cur', item, true)
         == Pending(stack[sp - 1].fr, stack[sp - 1].tag, true) + Waiting(stack[..sp - 1])
    ensures Below(Rank(stack[..sp'], cur', item, true), Rank(stack[..sp], cur, any, false))
  {
    sp' := sp - 1;
    cur', item := stack[sp'].fr, stack[sp'].tag;
    assert stack[..sp'] == stack[..sp][..sp'];
  }

  lemma StartRun(start: Frame)
    requires start.Ok() && !start.filtering
    ensures Levels([], start, Noop(0), false) && Remaining([], start, Noop(0), false) == Walk(start)
  {
    assert Walk(start) + [] == Walk(start);
  }

  lemma EndRun(cur: Frame, item: Item)
    requires cur.Ok() && !cur.filtering && cur.rest == []
    ensures Remaining([], cur, item, false) == []
  {
  }

  method Run(start: Frame) returns (out: seq<Tag>)
    requires start.Ok() && !start.filtering
    ensures out == Walk(start)
  {
    hide Walk, Emit, Filter, Pending, Waiting, Remaining, Rank;
    out := [];
    StartRun(start);
    var stack := new Suspended[STACK_SIZE](_ => Suspended(start, Noop(0)));
    var sp: nat := 0;
    var cur, item, popped := start, Noop(0), false;
    assert stack[..0] == [] && [] + Walk(start) == Walk(start);
    while true
      invariant sp <= STACK_SIZE == stack.Length
      invariant Levels(stack[..sp], cur, item, popped)
      invariant out + Remaining(stack[..sp], cur, item, popped) == Walk(start)
      decreases
        Rank(stack[..sp], cur, item, popped).0, Rank(stack[..sp], cur, item, popped).1,
        Rank(stack[..sp], cur, item, popped).2, Rank(stack[..sp], cur, item, popped).3
    {
      var finished := false;
      if cur.filtering && cur.rest != [] {
        cur, finished := FilterOne(stack, sp, cur, item);
      } else if popped {
        var emitted;
        sp, cur, emitted := Perform(stack, sp, cur, item);
        popped := false;
        assert (out + emitted) + Remaining(stack[..sp], cur, item, popped)
            == out + (emitted + Remaining(stack[..sp], cur, item, popped));
        out := out + emitted;
      } else if cur.rest != [] {
        sp, cur, item, popped := Fetch(stack, sp, cur, item);
      } else if sp == 0 {
        EndRun(cur, item);
        assert stack[..0] == [] && out + [] == out;
        return;
      } else {
        PopLevel(stack[..sp], cur, item);
        assert stack[..sp][..sp - 1] == stack[..sp - 1];
        finished := true;
      }
      if finished {
        sp, cur, item := Resume(stack, sp, cur, item);
        popped := true;
      }
    }
  }
}
