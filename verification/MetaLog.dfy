/** The log of one metadata block: what a sequence of tags means, and how the entry that
    holds a given id is looked up by walking the log backwards. */
module MetaLog {
  import opened Wrappers

  // The 11-bit type of a tag: three bits of abstract type, eight bits of chunk.
  const TYPE1: bv11 := 0x700
  const NAME: bv11 := 0x000
  const STRUCT: bv11 := 0x200
  const USERATTR: bv11 := 0x300
  const CREATE: bv11 := 0x401
  const DELETE: bv11 := 0x4ff

  // A size field of 0x3ff marks an attribute as removed.
  datatype Payload = Deleted | Bytes(bytes: seq<bv8>)

  datatype Attr = Attr(ty: bv11, payload: Payload)

  datatype Tag = Tag(ty: bv11, id: nat, payload: Payload) {
    function ToAttr(): Attr { Attr(ty, payload) }
  }

  /** Everything below 0x400 (names, structs, user attributes) belongs to the entry with the
      tag's id; splices move entries; crcs, tails and global state belong to no entry. */
  predicate IsAttr(ty: bv11) { ty & 0x400 == 0 }

  /** A directory: the ordered list of its entries, each the history of attributes written
      to it, and how many entries a fetch counts. */
  datatype Dir = Dir(count: int, entries: seq<seq<Attr>>) {
    function Slot(k: nat): seq<Attr> { if k < |entries| then entries[k] else [] }
  }

  const EMPTY_DIR := Dir(0, [])

  function Pad(entries: seq<seq<Attr>>, n: nat): (r: seq<seq<Attr>>)
    ensures |r| >= n && |r| >= |entries|
    ensures forall k :: 0 <= k < |r| ==> r[k] == if k < |entries| then entries[k] else []
  {
    if |entries| >= n then entries else entries + seq(n - |entries|, _ => [])
  }

  /** The effect of one tag. Creating an id inserts an entry there, deleting it removes the
      entry. A name extends the directory to its id, which is how a compacted log, holding
      no splices, says how many entries there are. */
  function Apply(d: Dir, t: Tag): Dir {
    if t.ty == CREATE then
      var es := Pad(d.entries, t.id);
      Dir(d.count + 1, es[..t.id] + [[]] + es[t.id..])
    else if t.ty == DELETE then
      Dir(d.count - 1,
          if t.id < |d.entries| then d.entries[..t.id] + d.entries[t.id + 1..] else d.entries)
    else if IsAttr(t.ty) then
      var es := Pad(d.entries, t.id + 1);
      Dir(if t.ty & TYPE1 == NAME && t.id >= d.count then t.id + 1 else d.count,
          es[t.id := es[t.id] + [t.ToAttr()]])
    else
      d
  }

  function Replay(d: Dir, log: seq<Tag>): Dir {
    if log == [] then d else Apply(Replay(d, log[..|log| - 1]), log[|log| - 1])
  }

  lemma {:induction false} ReplayConcat(d: Dir, a: seq<Tag>, b: seq<Tag>)
    ensures Replay(d, a + b) == Replay(Replay(d, a), b)
  {
    if b == [] {
      assert a + b == a;
    } else {
      assert (a + b)[..|a + b| - 1] == a + b[..|b| - 1];
      ReplayConcat(d, a, b[..|b| - 1]);
    }
  }

  /** Which types a lookup accepts: those that agree with `ty` on the bits of `mask`. */
  datatype Selector = Selector(mask: bv11, ty: bv11) {
    predicate Selects(t: bv11) { mask & t == mask & ty }

    /** Lookups of attributes always pin down the abstract type. */
    predicate ForAttrs() { mask & TYPE1 == TYPE1 && IsAttr(ty) }
  }

  /** The latest attribute of a history that a selector accepts. */
  function Latest(history: seq<Attr>, sel: Selector): Option<Attr> {
    if history == [] then None
    else if sel.Selects(history[|history| - 1].ty) then Some(history[|history| - 1])
    else Latest(history[..|history| - 1], sel)
  }

  /** What a reader sees: nothing if there is no such attribute or its last word is a removal. */
  function Lookup(history: seq<Attr>, sel: Selector): Option<Attr> {
    var a := Latest(history, sel);
    if a.Some? && a.value.payload.Deleted? then None else a
  }

  /** Following the entry that holds an id backwards through tags ends at an attribute,
      at the tag that created the entry, or at the id it held before those tags. */
  datatype Trace = Found(a: Attr) | Created | From(id: nat)

  function StepBack(t: Tag, k: nat, sel: Selector): Trace {
    if t.ty == CREATE then
      if t.id == k then Created else if t.id < k then From(k - 1) else From(k)
    else if t.ty == DELETE then
      if t.id <= k then From(k + 1) else From(k)
    else if IsAttr(t.ty) && t.id == k && sel.Selects(t.ty) then
      Found(t.ToAttr())
    else
      From(k)
  }

  function Search(log: seq<Tag>, k: nat, sel: Selector): Trace {
    if log == [] then From(k)
    else
      var r := StepBack(log[|log| - 1], k, sel);
      if r.From? then Search(log[..|log| - 1], r.id, sel) else r
  }

  lemma {:induction false} SearchConcat(a: seq<Tag>, b: seq<Tag>, k: nat, sel: Selector)
    ensures Search(a + b, k, sel)
         == var r := Search(b, k, sel); if r.From? then Search(a, r.id, sel) else r
  {
    if b == [] {
      assert a + b == a;
    } else {
      assert (a + b)[..|a + b| - 1] == a + b[..|b| - 1];
      var r := StepBack(b[|b| - 1], k, sel);
      if r.From? {
        SearchConcat(a, b[..|b| - 1], r.id, sel);
      }
    }
  }

  /** What a trace yields for tags applied to `d`. */
  function Settle(d: Dir, trace: Trace, sel: Selector): Option<Attr> {
    match trace
    case Found(a) => Some(a)
    case Created => None
    case From(id) => Latest(d.Slot(id), sel)
  }

  lemma LatestOfApply(d: Dir, t: Tag, k: nat, sel: Selector)
    ensures Latest(Apply(d, t).Slot(k), sel)
         == Settle(d, StepBack(t, k, sel), sel)
  {
    var after := Apply(d, t).Slot(k);
    if t.ty == CREATE {
      assert after == if k < t.id then d.Slot(k) else if k == t.id then [] else d.Slot(k - 1);
    } else if t.ty == DELETE {
      assert after == if k < t.id then d.Slot(k) else d.Slot(k + 1);
    } else if IsAttr(t.ty) && t.id == k {
      assert after == d.Slot(k) + [t.ToAttr()];
      LatestOfAppend(d.Slot(k), t.ToAttr(), sel);
    } else {
      assert after == d.Slot(k);
    }
  }

  lemma LatestOfAppend(h: seq<Attr>, a: Attr, sel: Selector)
    ensures Latest(h + [a], sel) == if sel.Selects(a.ty) then Some(a) else Latest(h, sel)
  {
    assert (h + [a])[..|h|] == h;
  }

  /** The backward search finds exactly the latest attribute that forward replay records. */
  lemma {:induction false} SearchIsReplay(d: Dir, log: seq<Tag>, k: nat, sel: Selector)
    ensures Latest(Replay(d, log).Slot(k), sel)
         == Settle(d, Search(log, k, sel), sel)
  {
    if log == [] {
    } else {
      var init, t := log[..|log| - 1], log[|log| - 1];
      LatestOfApply(Replay(d, init), t, k, sel);
      var r := StepBack(t, k, sel);
      if r.From? {
        SearchIsReplay(d, init, r.id, sel);
      }
    }
  }

  /** Where an entry came from does not depend on what is being looked up. */
  lemma {:induction false} SameOrigin(log: seq<Tag>, k: nat, s1: Selector, s2: Selector)
    requires Search(log, k, s1).From?
    ensures !Search(log, k, s2).Created?
    ensures Search(log, k, s2).From? ==> Search(log, k, s2) == Search(log, k, s1)
  {
    if log == [] {
    } else {
      var r := StepBack(log[|log| - 1], k, s1);
      if StepBack(log[|log| - 1], k, s2).From? {
        SameOrigin(log[..|log| - 1], r.id, s1, s2);
      }
    }
  }

  // ---- Logs that occur ----

  const SPLICE: bv11 := 0x400
  const MAX_ENTRIES := 0x3ff

  predicate NoSplices(log: seq<Tag>) {
    forall i :: 0 <= i < |log| ==> log[i].ty & TYPE1 != SPLICE
  }

  /** Entries are created next to existing ones, only existing ones are deleted or changed,
      and there are never more than ids to name them. In a compacted log, before any splice,
      the name tags introduce the entries. */
  ghost predicate WellFormed(log: seq<Tag>) {
    log != [] ==>
      var d, t := Replay(EMPTY_DIR, log[..|log| - 1]), log[|log| - 1];
      && WellFormed(log[..|log| - 1])
      && (t.ty & TYPE1 == SPLICE ==> t.ty == CREATE || t.ty == DELETE)
      && (t.ty == CREATE ==> t.id <= |d.entries| < MAX_ENTRIES && t.payload == Bytes([]))
      && (t.ty == DELETE ==> t.id < |d.entries|)
      && (IsAttr(t.ty) && t.id >= |d.entries| ==>
            t.ty & TYPE1 == NAME && t.id < MAX_ENTRIES && NoSplices(log))
  }

  /** What a fetch counts is the number of entries. */
  lemma {:induction false} CountIsEntries(log: seq<Tag>)
    requires WellFormed(log)
    ensures var d := Replay(EMPTY_DIR, log); d.count == |d.entries| <= MAX_ENTRIES
  {
    if log == [] {
    } else {
      CountIsEntries(log[..|log| - 1]);
    }
  }

  /** A change that a directory can take. */
  ghost predicate Fits(d: Dir, t: Tag) {
    && (t.ty & TYPE1 == SPLICE ==> t.ty == CREATE || t.ty == DELETE)
    && (t.ty == CREATE ==> t.id <= |d.entries| < MAX_ENTRIES && t.payload == Bytes([]))
    && (t.ty == DELETE || IsAttr(t.ty) ==> t.id < |d.entries|)
  }

  ghost predicate AllFit(d: Dir, tags: seq<Tag>) {
    tags != [] ==>
      AllFit(d, tags[..|tags| - 1]) && Fits(Replay(d, tags[..|tags| - 1]), tags[|tags| - 1])
  }

  /** Changes that the directory can take keep a log well-formed. */
  lemma {:induction false} StaysWellFormed(log: seq<Tag>, tags: seq<Tag>)
    requires WellFormed(log) && AllFit(Replay(EMPTY_DIR, log), tags)
    ensures WellFormed(log + tags)
  {
    hide IsAttr, Apply;
    if tags == [] {
      assert log + tags == log;
    } else {
      var init, all := tags[..|tags| - 1], log + tags;
      StaysWellFormed(log, init);
      ReplayConcat(EMPTY_DIR, log, init);
      assert all[..|all| - 1] == log + init && all[|all| - 1] == tags[|tags| - 1];
    }
  }

  lemma {:induction false} AllFitConcat(d: Dir, a: seq<Tag>, b: seq<Tag>)
    requires AllFit(d, a) && AllFit(Replay(d, a), b)
    ensures AllFit(d, a + b)
  {
    hide Fits, Apply;
    if b == [] {
      assert a + b == a;
    } else {
      var init := b[..|b| - 1];
      AllFitConcat(d, a, init);
      ReplayConcat(d, a, init);
      assert (a + b)[..|a + b| - 1] == a + init;
    }
  }

  lemma OneFits(d: Dir, t: Tag)
    requires Fits(d, t)
    ensures AllFit(d, [t]) && Replay(d, [t]) == Apply(d, t)
  {
    hide Fits, Apply;
    assert [t][..0] == [];
  }

  /** The id that the entry with id `k` after a tag had before it. */
  function Before(t: Tag, k: nat): Option<nat> {
    if t.ty == CREATE then
      if t.id == k then None else if t.id < k then Some(k - 1) else Some(k)
    else if t.ty == DELETE && t.id <= k then Some(k + 1)
    else Some(k)
  }

  /** Following an entry back, its id always fits its field of ten bits. */
  ghost predicate IdFits(log: seq<Tag>, k: nat) {
    && k < 0x400
    && (log != [] && Before(log[|log| - 1], k).Some? ==>
          IdFits(log[..|log| - 1], Before(log[|log| - 1], k).value))
  }

  lemma {:induction false} EntriesFit(log: seq<Tag>, k: nat)
    requires WellFormed(log) && k < |Replay(EMPTY_DIR, log).entries|
    ensures IdFits(log, k)
  {
    CountIsEntries(log);
    if log == [] {
    } else {
      var init, t := log[..|log| - 1], log[|log| - 1];
      var b := Before(t, k);
      if b.Some? {
        if b.value < |Replay(EMPTY_DIR, init).entries| {
          EntriesFit(init, b.value);
        } else {
          UnmovedFits(init, b.value);
        }
      }
    }
  }

  lemma {:induction false} UnmovedFits(log: seq<Tag>, k: nat)
    requires NoSplices(log) && k < 0x400
    ensures IdFits(log, k)
  {
    if log == [] {
    } else {
      assert log[|log| - 1].ty != CREATE && log[|log| - 1].ty != DELETE;
      UnmovedFits(log[..|log| - 1], k);
    }
  }
}
