/** The filesystem's global state, kept as differences spread over all metadata pairs, and the
    renames across pairs that it makes atomic. */
module GlobalState {
  import opened Wrappers
  import opened Crc32
  import opened MetaLog
  import opened TagWord

  type Address = (bv32, bv32)

  /** Which move is pending, if any: the tag that would delete the source, and its pair. The
      tag's size field counts orphans and lives in memory only. */
  datatype GState = GState(tag: bv32, pair: Address)

  const ZERO := GState(0, (0, 0))

  function GXor(a: GState, b: GState): GState {
    GState(Xor(a.tag, b.tag), (Xor(a.pair.0, b.pair.0), Xor(a.pair.1, b.pair.1)))
  }

  function DropSize(tag: bv32): bv32 { tag & 0xffff_fc00 }

  /** The part that is stored. */
  function OnDisk(g: GState): GState { g.(tag := DropSize(g.tag)) }

  // ---- Exclusive-or ----

  lemma XorSelf(a: bv32)
    ensures Xor(a, a) == 0
  {
  }

  lemma DropSizeXor(a: bv32, b: bv32)
    ensures DropSize(Xor(a, b)) == Xor(DropSize(a), DropSize(b))
  {
    DropSizeApart(a, b, Xor(a, b), DropSize(a), DropSize(b));
  }

  lemma DropSizeApart(a: bv32, b: bv32, x: bv32, c: bv32, d: bv32)
    requires x == Xor(a, b) && c == DropSize(a) && d == DropSize(b)
    ensures DropSize(x) == Xor(c, d)
  {
  }

  lemma DropSizeTwice(a: bv32)
    ensures DropSize(DropSize(a)) == DropSize(a) && DropSize(0) == 0
  {
  }

  lemma GComm(a: GState, b: GState)
    ensures GXor(a, b) == GXor(b, a)
  {
    hide Xor;
    XorSwapped(a.tag, b.tag);
    XorSwapped(a.pair.0, b.pair.0);
    XorSwapped(a.pair.1, b.pair.1);
  }

  lemma GAssoc(a: GState, b: GState, c: GState)
    ensures GXor(GXor(a, b), c) == GXor(a, GXor(b, c))
  {
    hide Xor;
    XorAssoc(a.tag, b.tag, c.tag);
    XorAssoc(a.pair.0, b.pair.0, c.pair.0);
    XorAssoc(a.pair.1, b.pair.1, c.pair.1);
  }

  lemma GCancel(a: GState)
    ensures GXor(a, a) == ZERO && GXor(a, ZERO) == a
  {
    hide Xor;
    XorSelf(a.tag);
    XorSelf(a.pair.0);
    XorSelf(a.pair.1);
    XorZero(a.tag);
    XorZero(a.pair.0);
    XorZero(a.pair.1);
  }

  /** What is in twice drops out. */
  lemma GTwice(a: GState, b: GState)
    ensures GXor(GXor(a, b), b) == a
  {
    hide GXor;
    GAssoc(a, b, b);
    GCancel(b);
    GCancel(a);
  }

  lemma GSwap(a: GState, b: GState, c: GState)
    ensures GXor(GXor(a, b), c) == GXor(GXor(a, c), b)
  {
    hide GXor;
    GAssoc(a, b, c);
    GAssoc(a, c, b);
    GComm(b, c);
  }

  lemma OnDiskXor(a: GState, b: GState)
    ensures OnDisk(GXor(a, b)) == GXor(OnDisk(a), OnDisk(b))
  {
    hide Xor, DropSize;
    DropSizeXor(a.tag, b.tag);
  }

  lemma OnDiskTwice(a: GState)
    ensures OnDisk(OnDisk(a)) == OnDisk(a) && OnDisk(ZERO) == ZERO
  {
    hide DropSize;
    DropSizeTwice(a.tag);
  }

  // ---- Pending moves ----

  predicate HasMove(g: GState) { TypeOf(g.tag) & TYPE1 != 0 }

  function MoveId(g: GState): nat { IdOf(g.tag) }

  /** Pairs with a block in common. */
  predicate Overlap(p: Address, q: Address) {
    p.0 == q.0 || p.1 == q.1 || p.0 == q.1 || p.1 == q.0
  }

  predicate SamePair(p: Address, q: Address) { p == q || p == (q.1, q.0) }

  predicate HasMoveHere(g: GState, p: Address) { HasMove(g) && Overlap(g.pair, p) }

  /** The tag with a pending move of `id` put in, or taken out. */
  function MoveTag(tag: bv32, id: nat): bv32
    requires id < 0x3ff
  {
    WithType(tag, MkTag(DELETE, ToBits(id), 0))
  }

  function WithType(tag: bv32, move: bv32): bv32 { (tag & 0x8000_03ff) | move }

  function PrepMove(g: GState, id: nat, pair: Address): GState
    requires id < 0x3ff
  {
    GState(MoveTag(g.tag, id), pair)
  }

  function NoMove(g: GState): GState { GState(WithType(g.tag, 0), (0, 0)) }

  lemma MoveTagFields(tag: bv32, id: bv10)
    ensures var r := WithType(tag, MkTag(DELETE, id, 0)); TypeOf(r) == DELETE && IdBits(r) == id
  {
  }

  lemma NoMoveFields(tag: bv32)
    ensures TypeOf(WithType(tag, 0)) == 0
  {
  }

  lemma StoredFields(tag: bv32)
    ensures TypeOf(DropSize(tag)) == TypeOf(tag) && IdBits(DropSize(tag)) == IdBits(tag)
  {
  }

  /** A move put in is pending, also as far as the disk knows. */
  lemma MoveIsPending(g: GState, id: nat, pair: Address)
    requires id < 0x3ff
    ensures var m := OnDisk(PrepMove(g, id, pair)); HasMove(m) && MoveId(m) == id && m.pair == pair
  {
    hide WithType, MkTag, TypeOf, IdBits, DropSize;
    MoveTagFields(g.tag, ToBits(id));
    StoredFields(MoveTag(g.tag, id));
    assert DELETE & TYPE1 != 0;
  }

  lemma SameMove(g: GState)
    ensures HasMove(OnDisk(g)) == HasMove(g) && MoveId(OnDisk(g)) == MoveId(g) && OnDisk(g).pair == g.pair
  {
    hide TypeOf, IdBits, DropSize;
    StoredFields(g.tag);
  }

  // ---- Directories on disk ----

  datatype Entry = Entry(name: string, file: nat)

  /** A metadata pair: its blocks, the directory it is a part of, its entries in order, and the
      difference in global state stored with them. */
  datatype Meta = Meta(pair: Address, dir: nat, entries: seq<Entry>, stored: GState)

  /** The global state a mount finds: the differences of all pairs in the tail list. */
  function Total(disk: seq<Meta>): GState {
    if disk == [] then ZERO else GXor(Total(disk[..|disk| - 1]), disk[|disk| - 1].stored)
  }

  /** The entries a reader sees: a pending move hides its source. */
  function Seen(m: Meta, g: GState): seq<Entry> {
    if HasMoveHere(g, m.pair) && MoveId(g) < |m.entries|
    then m.entries[..MoveId(g)] + m.entries[MoveId(g) + 1..] else m.entries
  }

  function Row(dir: nat, entries: seq<Entry>): multiset<(nat, Entry)> {
    if entries == [] then multiset{}
    else Row(dir, entries[..|entries| - 1]) + multiset{(dir, entries[|entries| - 1])}
  }

  /** All that is listed, given a global state. */
  function Rows(disk: seq<Meta>, g: GState): multiset<(nat, Entry)> {
    if disk == [] then multiset{}
    else Rows(disk[..|disk| - 1], g) + Row(disk[|disk| - 1].dir, Seen(disk[|disk| - 1], g))
  }

  /** What the disk shows to whoever mounts it. */
  function Listing(disk: seq<Meta>): multiset<(nat, Entry)> { Rows(disk, Total(disk)) }

  predicate Distinct(disk: seq<Meta>) {
    forall i, j :: 0 <= i < j < |disk| ==> !Overlap(disk[i].pair, disk[j].pair)
  }

  lemma {:induction false} TotalUpdate(disk: seq<Meta>, k: nat, m: Meta)
    requires k < |disk|
    ensures Total(disk[k := m]) == GXor(GXor(Total(disk), disk[k].stored), m.stored)
    decreases |disk|
  {
    hide GXor;
    var n := |disk| - 1;
    var init, t, s := disk[..n], Total(disk[..n]), disk[k].stored;
    var next := disk[k := m];
    if k == n {
      assert next[..n] == init;
      GTwice(t, s);
    } else {
      assert next[..n] == init[k := m];
      TotalUpdate(init, k, m);
      var l := disk[n].stored;
      GSwap(GXor(t, s), m.stored, l);
      GSwap(t, s, l);
    }
  }

  function Without(disk: seq<Meta>, k: nat): (r: seq<Meta>)
    requires k < |disk|
    ensures |r| == |disk| - 1
    ensures forall i :: 0 <= i < |r| ==> r[i] == disk[if i < k then i else i + 1]
  {
    disk[..k] + disk[k + 1..]
  }

  lemma {:induction false} TotalWithout(disk: seq<Meta>, k: nat)
    requires k < |disk|
    ensures Total(Without(disk, k)) == GXor(Total(disk), disk[k].stored)
    decreases |disk|
  {
    hide GXor;
    var n := |disk| - 1;
    var init, t := disk[..n], Total(disk[..n]);
    if k == n {
      assert Without(disk, k) == init;
      GTwice(t, disk[k].stored);
    } else {
      assert Without(disk, k)[..n - 1] == Without(init, k);
      TotalWithout(init, k);
      GSwap(t, disk[k].stored, disk[n].stored);
    }
  }

  // ---- Listings ----

  lemma {:induction false} RowConcat(dir: nat, a: seq<Entry>, b: seq<Entry>)
    ensures Row(dir, a + b) == Row(dir, a) + Row(dir, b)
  {
    if b == [] {
      assert a + b == a;
    } else {
      assert (a + b)[..|a + b| - 1] == a + b[..|b| - 1];
      RowConcat(dir, a, b[..|b| - 1]);
    }
  }

  lemma RowOne(dir: nat, e: Entry)
    ensures Row(dir, [e]) == multiset{(dir, e)}
  {
    assert [e][..0] == [];
  }

  function Remove(es: seq<Entry>, id: nat): seq<Entry>
    requires id < |es|
  {
    es[..id] + es[id + 1..]
  }

  function Insert(es: seq<Entry>, id: nat, e: Entry): seq<Entry>
    requires id <= |es|
  {
    es[..id] + [e] + es[id..]
  }

  lemma RowRemove(dir: nat, es: seq<Entry>, id: nat)
    requires id < |es|
    ensures Row(dir, es) == Row(dir, Remove(es, id)) + multiset{(dir, es[id])}
  {
    assert es == es[..id] + [es[id]] + es[id + 1..];
    RowConcat(dir, es[..id] + [es[id]], es[id + 1..]);
    RowConcat(dir, es[..id], [es[id]]);
    RowConcat(dir, es[..id], es[id + 1..]);
    RowOne(dir, es[id]);
  }

  lemma RowInsert(dir: nat, es: seq<Entry>, id: nat, e: Entry)
    requires id <= |es|
    ensures Row(dir, Insert(es, id, e)) == Row(dir, es) + multiset{(dir, e)}
  {
    assert es == es[..id] + es[id..];
    RowConcat(dir, es[..id] + [e], es[id..]);
    RowConcat(dir, es[..id], [e]);
    RowConcat(dir, es[..id], es[id..]);
    RowOne(dir, e);
  }

  lemma {:induction false} RowsUpdate(disk: seq<Meta>, k: nat, m: Meta, g: GState)
    requires k < |disk|
    ensures Rows(disk[k := m], g) + Row(disk[k].dir, Seen(disk[k], g)) == Rows(disk, g) + Row(m.dir, Seen(m, g))
    decreases |disk|
  {
    hide Seen, Row;
    var n := |disk| - 1;
    if k == n {
      assert disk[k := m][..n] == disk[..n];
    } else {
      assert disk[k := m][..n] == disk[..n][k := m];
      RowsUpdate(disk[..n], k, m, g);
      AddBoth(Rows(disk[..n][k := m], g), Row(disk[k].dir, Seen(disk[k], g)),
              Rows(disk[..n], g), Row(m.dir, Seen(m, g)), Row(disk[n].dir, Seen(disk[n], g)));
    }
  }

  lemma AddBoth(a: multiset<(nat, Entry)>, x: multiset<(nat, Entry)>, b: multiset<(nat, Entry)>,
                y: multiset<(nat, Entry)>, more: multiset<(nat, Entry)>)
    requires a + x == b + y
    ensures a + more + x == b + more + y
  {
    assert a + more + x == (a + x) + more;
    assert b + more + y == (b + y) + more;
  }

  lemma {:induction false} RowsWithout(disk: seq<Meta>, k: nat, g: GState)
    requires k < |disk|
    ensures Rows(disk, g) == Rows(Without(disk, k), g) + Row(disk[k].dir, Seen(disk[k], g))
    decreases |disk|
  {
    hide Seen, Row;
    var n := |disk| - 1;
    if k == n {
      assert Without(disk, k) == disk[..n];
    } else {
      assert Without(disk, k)[..n - 1] == Without(disk[..n], k);
      RowsWithout(disk[..n], k, g);
    }
  }

  /** Global states that hide the same entries list the same. */
  lemma {:induction false} RowsSame(disk: seq<Meta>, g: GState, h: GState)
    requires forall i :: 0 <= i < |disk| ==> Seen(disk[i], g) == Seen(disk[i], h)
    ensures Rows(disk, g) == Rows(disk, h)
    decreases |disk|
  {
    hide Seen, Row;
    if disk == [] {
    } else {
      var init := disk[..|disk| - 1];
      assert forall i :: 0 <= i < |init| ==> init[i] == disk[i];
      RowsSame(init, g, h);
    }
  }

  lemma OnlyOnePair(p: Address, q: Address, r: Address)
    requires SamePair(r, q)
    ensures Overlap(r, q) && Overlap(r, p) == Overlap(p, q) == Overlap(q, p)
  {
  }

  /** A pending move takes exactly its source out of the listing. */
  lemma HiddenRow(disk: seq<Meta>, i: nat, g: GState, h: GState)
    requires Distinct(disk) && i < |disk| && HasMove(g) && SamePair(g.pair, disk[i].pair)
    requires MoveId(g) < |disk[i].entries| && !HasMove(h)
    ensures Rows(disk, h) == Rows(disk, g) + multiset{(disk[i].dir, disk[i].entries[MoveId(g)])}
  {
    hide Row, Rows, MoveId, HasMove;
    var rest := Without(disk, i);
    RowsWithout(disk, i, g);
    RowsWithout(disk, i, h);
    forall j | 0 <= j < |rest| ensures Seen(rest[j], g) == Seen(rest[j], h) {
      var o := if j < i then j else j + 1;
      assert rest[j] == disk[o];
      OnlyOnePair(disk[o].pair, disk[i].pair, g.pair);
      if o < i { assert !Overlap(disk[o].pair, disk[i].pair); } else { assert !Overlap(disk[i].pair, disk[o].pair); }
    }
    RowsSame(rest, g, h);
    RowRemove(disk[i].dir, disk[i].entries, MoveId(g));
  }

  // ---- The filesystem ----

  lemma DeltaMoves(total: GState, gdelta: GState, gdisk: GState, gstate: GState, had: GState, stored: GState)
    requires GXor(total, gdelta) == OnDisk(gdisk)
    requires stored == GXor(OnDisk(GXor(GXor(gstate, gdisk), gdelta)), had)
    requires OnDisk(gdelta) == gdelta
    ensures GXor(GXor(total, had), stored) == OnDisk(gstate)
  {
    hide GXor, OnDisk;
    var d := OnDisk(GXor(GXor(gstate, gdisk), gdelta));
    OnDiskXor(GXor(gstate, gdisk), gdelta);
    OnDiskXor(gstate, gdisk);
    var s, k := OnDisk(gstate), OnDisk(gdisk);
    assert d == GXor(GXor(s, k), gdelta);
    GComm(d, had);
    GAssoc(total, had, stored);
    GAssoc(had, had, d);
    GCancel(had);
    GComm(ZERO, d);
    GCancel(d);
    assert GXor(had, stored) == d;
    // total + (s + k + gdelta), where k == total + gdelta
    GComm(total, d);
    GAssoc(GXor(s, k), gdelta, total);
    GComm(gdelta, total);
    GTwice(s, k);
  }

  lemma StoredClear(gstate: GState, gdisk: GState, gdelta: GState, had: GState)
    requires OnDisk(had) == had
    ensures
      var stored := GXor(OnDisk(GXor(GXor(gstate, gdisk), gdelta)), had);
      OnDisk(stored) == stored
  {
    hide GXor, OnDisk;
    var d := GXor(GXor(gstate, gdisk), gdelta);
    OnDiskXor(OnDisk(d), had);
    OnDiskTwice(d);
  }

  lemma StolenSum(total: GState, stolen: GState, held: GState)
    ensures GXor(GXor(total, stolen), GXor(held, stolen)) == GXor(total, held)
  {
    hide GXor;
    GComm(held, stolen);
    GAssoc(GXor(total, stolen), stolen, held);
    GTwice(total, stolen);
  }

  lemma DistinctWithout(disk: seq<Meta>, k: nat)
    requires Distinct(disk) && k < |disk|
    ensures Distinct(Without(disk, k))
  {
    hide Overlap;
    var r := Without(disk, k);
    forall i, j | 0 <= i < j < |r| ensures !Overlap(r[i].pair, r[j].pair) {
      assert r[i] == disk[if i < k then i else i + 1] && r[j] == disk[if j < k then j else j + 1];
    }
  }

  lemma StillDistinct(disk: seq<Meta>, k: nat, m: Meta)
    requires Distinct(disk) && k < |disk| && SamePair(m.pair, disk[k].pair)
    ensures Distinct(disk[k := m])
  {
  }

  // ---- Which moves can be pending ----

  /** The move pending in `g` has its source in pair k. */
  predicate PendingAt(disk: seq<Meta>, g: GState, k: nat)
    requires k < |disk|
  {
    SamePair(g.pair, disk[k].pair) && MoveId(g) < |disk[k].entries|
  }

  /** The disk can be mounted: if a move is pending, its source is there. */
  ghost predicate Sound(disk: seq<Meta>) {
    && Distinct(disk)
    && (forall i :: 0 <= i < |disk| ==> OnDisk(disk[i].stored) == disk[i].stored)
    && (HasMove(Total(disk)) ==> exists k :: 0 <= k < |disk| && PendingAt(disk, Total(disk), k))
  }

  lemma InMemory(disk: seq<Meta>, gdisk: GState, gdelta: GState)
    requires GXor(Total(disk), gdelta) == OnDisk(gdisk) && gdelta == ZERO
    ensures Total(disk) == OnDisk(gdisk)
    ensures HasMove(Total(disk)) == HasMove(gdisk) && MoveId(Total(disk)) == MoveId(gdisk)
    ensures Total(disk).pair == gdisk.pair
  {
    hide GXor, OnDisk, Total, HasMove, MoveId;
    GCancel(Total(disk));
    SameMove(gdisk);
  }

  lemma FoundPending(disk: seq<Meta>, g: GState, k: nat)
    requires Distinct(disk) && k < |disk| && Overlap(g.pair, disk[k].pair)
    requires exists i :: 0 <= i < |disk| && PendingAt(disk, g, i)
    ensures PendingAt(disk, g, k)
  {
    var i :| 0 <= i < |disk| && PendingAt(disk, g, i);
    assert i < k ==> !Overlap(disk[i].pair, disk[k].pair);
    assert k < i ==> !Overlap(disk[k].pair, disk[i].pair);
    OnlyOnePair(disk[k].pair, disk[i].pair, g.pair);
  }

  lemma PendingSomewhere(disk: seq<Meta>, g: GState)
    requires Total(disk) == OnDisk(g) && Sound(disk) && HasMove(g)
    ensures exists k :: 0 <= k < |disk| && PendingAt(disk, g, k)
  {
    hide HasMove, MoveId, OnDisk, Total, Distinct;
    SameMove(g);
    var k :| 0 <= k < |disk| && PendingAt(disk, Total(disk), k);
    assert PendingAt(disk, g, k);
  }

  lemma NothingPending(disk: seq<Meta>, g: GState)
    requires Total(disk) == OnDisk(g) && !HasMove(g)
    ensures !HasMove(Total(disk))
  {
    hide HasMove, MoveId, OnDisk;
    SameMove(g);
  }

  // ---- Listings with and without a move ----

  lemma NoMoveRows(disk: seq<Meta>, g: GState)
    requires !HasMove(g)
    ensures Rows(disk, g) == Rows(disk, ZERO)
  {
    ZeroHasNoMove();
    hide HasMove, MoveId;
    RowsSame(disk, g, ZERO);
  }

  lemma ZeroHasNoMove()
    ensures !HasMove(ZERO)
  {
  }

  lemma RowsInMemory(disk: seq<Meta>, g: GState)
    ensures Rows(disk, OnDisk(g)) == Rows(disk, g)
  {
    hide HasMove, MoveId, OnDisk, Rows;
    SameMove(g);
    RowsSame(disk, OnDisk(g), g);
  }

  lemma ListingInMemory(disk: seq<Meta>, g: GState)
    requires Total(disk) == OnDisk(g)
    ensures Listing(disk) == Rows(disk, g)
  {
    hide OnDisk, Rows;
    RowsInMemory(disk, g);
  }

  /** Changing the entries of one pair changes the listing by them. */
  lemma ListingChanged(before: seq<Meta>, k: nat, after: seq<Meta>, g: GState)
    requires k < |before| == |after| && after[k].dir == before[k].dir
    requires forall i :: 0 <= i < |before| && i != k ==> after[i] == before[i]
    requires Total(after) == OnDisk(g) && !HasMove(g)
    ensures Listing(after) + Row(before[k].dir, before[k].entries)
         == Rows(before, g) + Row(before[k].dir, after[k].entries)
  {
    ZeroHasNoMove();
    hide HasMove, MoveId, OnDisk, Rows, Row, Listing;
    ListingInMemory(after, g);
    NoMoveRows(after, g);
    NoMoveRows(before, g);
    assert after == before[k := after[k]];
    RowsUpdate(before, k, after[k], ZERO);
  }

  lemma ListingRemoved(before: seq<Meta>, k: nat, id: nat, after: seq<Meta>, g: GState)
    requires k < |before| == |after| && after[k].dir == before[k].dir && id < |before[k].entries|
    requires after[k].entries == Remove(before[k].entries, id)
    requires forall i :: 0 <= i < |before| && i != k ==> after[i] == before[i]
    requires Total(after) == OnDisk(g) && !HasMove(g)
    ensures Listing(after) + multiset{(before[k].dir, before[k].entries[id])} == Rows(before, g)
  {
    hide HasMove, OnDisk, Rows, Row, Listing;
    ListingChanged(before, k, after, g);
    RowRemove(before[k].dir, before[k].entries, id);
    var kept, e := Row(before[k].dir, after[k].entries), multiset{(before[k].dir, before[k].entries[id])};
    assert Listing(after) + (kept + e) == (Listing(after) + e) + kept;
    Cancel(Listing(after) + e, Rows(before, g), kept);
  }

  lemma Cancel(a: multiset<(nat, Entry)>, b: multiset<(nat, Entry)>, c: multiset<(nat, Entry)>)
    requires a + c == b + c
    ensures a == b
  {
    assert a == (a + c) - c && b == (b + c) - c;
  }

  lemma ListingDropped(before: seq<Meta>, j: nat, k: nat, after: seq<Meta>, g: GState)
    requires j < k < |before| && |after| == |before| - 1 && |before[k].entries| == 1
    requires after[j].dir == before[j].dir && after[j].entries == before[j].entries
    requires forall i :: 0 <= i < |after| && i != j ==> after[i] == before[if i < k then i else i + 1]
    requires Total(after) == OnDisk(g) && !HasMove(g)
    ensures Listing(after) + multiset{(before[k].dir, before[k].entries[0])} == Rows(before, g)
  {
    ZeroHasNoMove();
    hide HasMove, MoveId, OnDisk, Rows, Row, Listing;
    var rest := Without(before, k);
    ListingChanged(rest, j, after, g);
    NoMoveRows(rest, g);
    NoMoveRows(before, g);
    RowsWithout(before, k, ZERO);
    assert before[k].entries == [before[k].entries[0]];
    RowOne(before[k].dir, before[k].entries[0]);
    Cancel(Listing(after), Rows(rest, g), Row(rest[j].dir, rest[j].entries));
  }

  lemma MoveHides(disk: seq<Meta>, k: nat, g: GState, h: GState)
    requires Distinct(disk) && k < |disk| && PendingAt(disk, g, k) && HasMove(g) && !HasMove(h)
    ensures Rows(disk, h) == Rows(disk, g) + multiset{(disk[k].dir, disk[k].entries[MoveId(g)])}
  {
    hide HasMove, MoveId, Rows;
    HiddenRow(disk, k, g, h);
  }

  lemma NoMoveIs(g: GState, had: GState)
    requires g == NoMove(had)
    ensures !HasMove(g)
  {
    hide WithType, TypeOf;
    NoMoveFields(had.tag);
    assert 0 as bv11 & TYPE1 == 0;
  }

  lemma MoveIsIn(had: GState, id: nat, pair: Address, g: GState)
    requires id < 0x3ff && g == PrepMove(had, id, pair)
    ensures HasMove(g) && MoveId(g) == id && g.pair == pair
  {
    hide WithType, MkTag, TypeOf, IdBits;
    MoveTagFields(had.tag, ToBits(id));
    assert DELETE & TYPE1 != 0;
  }

  lemma NothingPendingIsSound(disk: seq<Meta>)
    requires Distinct(disk) && !HasMove(Total(disk))
    requires forall i :: 0 <= i < |disk| ==> OnDisk(disk[i].stored) == disk[i].stored
    ensures Sound(disk)
  {
  }

  // ---- Renames ----

  /** Entries with one put at an id, in place of the one there or in front of it. */
  function Put(es: seq<Entry>, id: nat, replace: bool, e: Entry): seq<Entry>
    requires if replace then id < |es| else id <= |es|
  {
    Insert(if replace then Remove(es, id) else es, id, e)
  }

  /** The listing after a rename: the file left its old name and has its new one, and what had
      that name before, if anything, is gone. */
  ghost predicate Renamed(before: seq<Meta>, i: nat, a: nat, j: nat, b: nat, replace: bool, name: string,
                          after: multiset<(nat, Entry)>)
    requires i < |before| && a < |before[i].entries|
    requires j < |before| && (if replace then b < |before[j].entries| else true)
  {
    var e := before[i].entries[a];
    after + multiset{(before[i].dir, e)}
      + (if replace then multiset{(before[j].dir, before[j].entries[b])} else multiset{})
    == Listing(before) + multiset{(before[j].dir, Entry(name, e.file))}
  }

  lemma RowPut(dir: nat, es: seq<Entry>, id: nat, replace: bool, e: Entry)
    requires if replace then id < |es| else id <= |es|
    ensures Row(dir, Put(es, id, replace, e)) + (if replace then multiset{(dir, es[id])} else multiset{})
         == Row(dir, es) + multiset{(dir, e)}
  {
    hide Row;
    RowInsert(dir, if replace then Remove(es, id) else es, id, e);
    if replace { RowRemove(dir, es, id); }
  }

  // From what the pairs' rows say to what the listings say.
  lemma Balance(l: multiset<(nat, Entry)>, src: multiset<(nat, Entry)>, r: multiset<(nat, Entry)>,
                lb: multiset<(nat, Entry)>, r': multiset<(nat, Entry)>, rep: multiset<(nat, Entry)>,
                put: multiset<(nat, Entry)>)
    requires l + src + r == lb + r' && r' + rep == r + put
    ensures l + src + rep == lb + put
  {
    assert (l + src + rep) + (r + r') == (l + src + r) + (r' + rep);
    assert (lb + put) + (r + r') == (lb + r') + (r + put);
    Cancel(l + src + rep, lb + put, r + r');
  }

  lemma RenamedInPair(before: seq<Meta>, i: nat, a: nat, b: nat, replace: bool, name: string,
                      after: seq<Meta>, g: GState)
    requires i < |before| == |after| && a < |before[i].entries| && after[i].dir == before[i].dir
    requires if replace then b < |before[i].entries| && a != b else b <= |before[i].entries|
    requires
      var put := Put(before[i].entries, b, replace, Entry(name, before[i].entries[a].file));
      after[i].entries == Remove(put, if !replace && b <= a then a + 1 else a)
    requires forall k :: 0 <= k < |before| && k != i ==> after[k] == before[k]
    requires Total(after) == OnDisk(g) && Total(before) == OnDisk(g) && !HasMove(g)
    requires Distinct(after) && forall k :: 0 <= k < |after| ==> OnDisk(after[k].stored) == after[k].stored
    ensures Renamed(before, i, a, i, b, replace, name, Listing(after)) && Sound(after) && !HasMove(Total(after))
  {
    hide HasMove, MoveId, OnDisk, Rows, Row, Listing, Total;
    var es, dir, e := before[i].entries, before[i].dir, before[i].entries[a];
    var put := Put(es, b, replace, Entry(name, e.file));
    var at := if !replace && b <= a then a + 1 else a;
    assert put[at] == e;
    ListingChanged(before, i, after, g);
    ListingInMemory(before, g);
    RowRemove(dir, put, at);
    RowPut(dir, es, b, replace, Entry(name, e.file));
    var rep := if replace then multiset{(dir, es[b])} else multiset{};
    assert Listing(after) + multiset{(dir, e)} + Row(dir, es)
        == (Listing(after) + Row(dir, es)) + multiset{(dir, e)};
    assert Listing(before) + Row(dir, put)
        == (Listing(before) + Row(dir, after[i].entries)) + multiset{(dir, e)};
    Balance(Listing(after), multiset{(dir, e)}, Row(dir, es), Listing(before), Row(dir, put), rep,
            multiset{(dir, Entry(name, e.file))});
    NothingPending(after, g);
    NothingPendingIsSound(after);
  }

  lemma RenamedAcross(before: seq<Meta>, i: nat, a: nat, j: nat, b: nat, replace: bool, name: string,
                      middle: seq<Meta>, g: GState)
    requires i < |before| == |middle| && a < |before[i].entries| && j < |before| && i != j
    requires if replace then b < |before[j].entries| else b <= |before[j].entries|
    requires middle[j].entries == Put(before[j].entries, b, replace, Entry(name, before[i].entries[a].file))
    requires middle[j].dir == before[j].dir
    requires forall k :: 0 <= k < |before| && k != j ==> middle[k] == before[k]
    requires Total(middle) == OnDisk(g) && HasMove(g) && MoveId(g) == a && g.pair == before[i].pair
    requires !HasMove(Total(before))
    requires Distinct(middle) && forall k :: 0 <= k < |middle| ==> OnDisk(middle[k].stored) == middle[k].stored
    ensures Renamed(before, i, a, j, b, replace, name, Listing(middle)) && Sound(middle)
    ensures PendingAt(middle, g, i)
  {
    ZeroHasNoMove();
    hide HasMove, MoveId, OnDisk, Rows, Row, Listing, Total, Put, Distinct;
    var es, dir, e := before[j].entries, before[j].dir, before[i].entries[a];
    ListingIs(before);
    NoMoveRows(before, Total(before));
    MoveHides(middle, i, g, ZERO);
    ListingInMemory(middle, g);
    RowsUpdate(before, j, middle[j], ZERO);
    assert before[j := middle[j]] == middle;
    RowPut(dir, es, b, replace, Entry(name, e.file));
    var rep := if replace then multiset{(dir, es[b])} else multiset{};
    Balance(Listing(middle), multiset{(before[i].dir, e)}, Row(dir, es), Listing(before),
            Row(dir, middle[j].entries), rep, multiset{(dir, Entry(name, e.file))});
    SameMove(g);
    PendingIsSound(middle, g, i);
  }

  lemma ListingIs(disk: seq<Meta>)
    ensures Listing(disk) == Rows(disk, Total(disk))
  {
  }

  lemma PendingIsSound(disk: seq<Meta>, g: GState, k: nat)
    requires Total(disk) == OnDisk(g) && k < |disk| && PendingAt(disk, g, k)
    requires Distinct(disk) && forall i :: 0 <= i < |disk| ==> OnDisk(disk[i].stored) == disk[i].stored
    ensures Sound(disk)
  {
    hide HasMove, MoveId, OnDisk, Total, Distinct;
    SameMove(g);
    assert PendingAt(disk, Total(disk), k);
  }

  // ---- Mounting ----

  lemma {:induction false} TotalIsStored(disk: seq<Meta>)
    requires forall i :: 0 <= i < |disk| ==> OnDisk(disk[i].stored) == disk[i].stored
    ensures OnDisk(Total(disk)) == Total(disk)
    decreases |disk|
  {
    hide GXor, OnDisk;
    OnDiskTwice(ZERO);
    if disk == [] {
    } else {
      var init := disk[..|disk| - 1];
      TotalIsStored(init);
      OnDiskXor(Total(init), disk[|disk| - 1].stored);
    }
  }

  lemma CountOrphan(g: GState)
    requires OnDisk(g) == g
    ensures OnDisk(g.(tag := g.tag + 1)) == g
  {
    OneOrphan(g.tag);
  }

  lemma OneOrphan(tag: bv32)
    requires DropSize(tag) == tag
    ensures DropSize(tag + 1) == tag
  {
  }

  /** The pairs on disk, and the global state in memory. */
  class Filesystem {
    var disk: seq<Meta>
    var gstate: GState
    var gdisk: GState
    var gdelta: GState
    ghost var history: seq<seq<Meta>>

    /** What the pairs store, with what is held back in memory, is the state on disk. */
    ghost predicate Valid()
      reads this
    {
      && GXor(Total(disk), gdelta) == OnDisk(gdisk) && OnDisk(gdelta) == gdelta
      && Distinct(disk) && history != [] && history[|history| - 1] == disk
      && forall i :: 0 <= i < |disk| ==> OnDisk(disk[i].stored) == disk[i].stored
    }

    /** Mounts a disk: adds up the differences of all pairs. A set top bit says that there are
        orphans; their number starts at one. */
    constructor Mount(disk: seq<Meta>)
      requires Sound(disk)
      ensures Valid() && Sound(this.disk) && this.disk == disk && history == [disk]
      ensures gdelta == ZERO && gstate == gdisk && OnDisk(gdisk) == Total(disk)
      ensures Rows(disk, gdisk) == Listing(disk)
    {
      this.disk, gdelta, history := disk, ZERO, [disk];
      gstate, gdisk := ZERO, ZERO;
      new;
      hide GXor, OnDisk, Rows;
      var total := ZERO;
      for i := 0 to |disk|
        invariant total == Total(disk[..i])
        invariant Distinct(disk) && Sound(disk) && this.disk == disk && gdelta == ZERO && history == [disk]
      {
        // every pair adds its difference
        assert disk[..i + 1][..i] == disk[..i];
        total := GXor(total, disk[i].stored);
      }
      assert disk[..|disk|] == disk;
      TotalIsStored(disk);
      CountOrphan(total);
      gstate := total.(tag := if IsValid(total.tag) then total.tag else total.tag + 1);
      gdisk := gstate;
      GCancel(Total(disk));
      OnDiskTwice(ZERO);
      ListingInMemory(disk, gdisk);
    }

    /** The difference that is stored after a commit; an append
        writes none if nothing changed, which leaves the old one in force. */
    method TakeDelta(stored: GState, appended: bool) returns (next: GState)
      requires OnDisk(gdelta) == gdelta
      modifies this`gdisk, this`gdelta
      ensures next == GXor(old(OnDisk(GXor(GXor(gstate, gdisk), gdelta))), stored)
      ensures gdisk == gstate && gdelta == ZERO
    {
      hide GXor, OnDisk;
      var delta := if appended then GXor(gstate, gdisk) else GXor(gdisk, gstate);
      GComm(gstate, gdisk);
      delta := OnDisk(GXor(delta, gdelta));
      GComm(stored, ZERO);
      GCancel(stored);
      next := if appended && delta == ZERO then stored else GXor(delta, stored);
      gdisk := gstate;
      gdelta := ZERO;
    }

    /** Commits new entries to a pair, by appending or by compacting, which swaps its blocks. */
    method Commit(k: nat, entries: seq<Entry>, appended: bool)
      requires Valid() && k < |disk|
      modifies this
      ensures Valid() && gstate == old(gstate) && gdisk == gstate && gdelta == ZERO
      ensures Total(disk) == OnDisk(gstate)
      ensures |disk| == |old(disk)| && forall i :: 0 <= i < |disk| && i != k ==> disk[i] == old(disk)[i]
      ensures disk[k].entries == entries && disk[k].dir == old(disk)[k].dir
      ensures SamePair(disk[k].pair, old(disk)[k].pair)
      ensures history == old(history) + [disk]
    {
      hide GXor, OnDisk, Total;
      var m := disk[k];
      var stored := TakeDelta(m.stored, appended);
      DeltaMoves(Total(disk), old(gdelta), old(gdisk), gstate, m.stored, stored);
      StoredClear(gstate, old(gdisk), old(gdelta), m.stored);
      var pair := if appended then m.pair else (m.pair.1, m.pair.0);
      var next := Meta(pair, m.dir, entries, stored);
      TotalUpdate(disk, k, next);
      StillDistinct(disk, k, next);
      disk := disk[k := next];
      history := history + [disk];
      GCancel(Total(disk));
      OnDiskTwice(gstate);
    }

    /** Drops pair k from the list: its difference is taken over into memory, and
        goes out with the commit that makes pair j, before it in the list, skip it. */
    method Drop(j: nat, k: nat, appended: bool)
      requires Valid() && j < k < |disk|
      modifies this
      ensures Valid() && gstate == old(gstate) && gdisk == gstate && gdelta == ZERO
      ensures Total(disk) == OnDisk(gstate)
      ensures |disk| == |old(disk)| - 1
      ensures forall i :: 0 <= i < |disk| && i != j ==> disk[i] == old(disk)[if i < k then i else i + 1]
      ensures disk[j].entries == old(disk)[j].entries && disk[j].dir == old(disk)[j].dir
      ensures SamePair(disk[j].pair, old(disk)[j].pair)
      ensures history == old(history) + [disk]
    {
      hide GXor, OnDisk, Total;
      var m, gone := disk[j], disk[k];
      // its difference is owed now
      ghost var total, held := Total(disk), gdelta;
      OnDiskXor(gdelta, gone.stored);
      gdelta := GXor(gdelta, gone.stored);
      TotalWithout(disk, k);
      StolenSum(total, gone.stored, held);
      // and goes out with the commit that skips it
      var stored := TakeDelta(m.stored, appended);
      ghost var rest := Without(disk, k);
      DeltaMoves(Total(rest), GXor(held, gone.stored), old(gdisk), gstate, m.stored, stored);
      StoredClear(gstate, old(gdisk), GXor(held, gone.stored), m.stored);
      var pair := if appended then m.pair else (m.pair.1, m.pair.0);
      var next := Meta(pair, m.dir, m.entries, stored);
      TotalUpdate(rest, j, next);
      DistinctWithout(disk, k);
      StillDistinct(rest, j, next);
      disk := Without(disk, k)[j := next];
      history := history + [disk];
      GCancel(Total(disk));
      OnDiskTwice(gstate);
    }

    /** Deletes an entry of pair k. If that leaves nothing in a pair that another one continues
        into, the pair is dropped instead. */
    method Delete(k: nat, id: nat, pred: Option<nat>, appended: bool)
      requires Valid() && k < |disk| && id < |disk[k].entries| && (pred.Some? ==> pred.value < k)
      requires !HasMove(gstate)
      modifies this
      ensures Valid() && gstate == old(gstate) && gdisk == gstate && Total(disk) == OnDisk(gstate)
      ensures history == old(history) + [disk] && Sound(disk)
      ensures
        var m := old(disk[k]);
        Listing(disk) + multiset{(m.dir, m.entries[id])} == old(Rows(disk, gstate))
    {
      hide GXor, OnDisk, Total, Rows, Row, HasMove, Seen;
      ghost var before, m := disk, disk[k];
      if |disk[k].entries| == 1 && pred.Some? {
        Drop(pred.value, k, appended);
        ListingDropped(before, pred.value, k, disk, gstate);
      } else {
        Commit(k, Remove(disk[k].entries, id), appended);
        ListingRemoved(before, k, id, disk, gstate);
      }
      NothingPending(disk, gstate);
      NothingPendingIsSound(disk);
    }

    /** Finishes a move that power loss cut in two: deletes the source that it hides. */
    method DeMove(pred: Option<nat>, appended: bool)
      requires Valid() && gdelta == ZERO && gstate == gdisk && Sound(disk)
      requires pred.Some? ==> forall k :: 0 <= k <= pred.value && k < |disk| ==> !Overlap(gdisk.pair, disk[k].pair)
      modifies this
      ensures Valid() && Listing(disk) == old(Listing(disk)) && !HasMove(gdisk) && Sound(disk)
      ensures forall i :: |old(history)| <= i < |history| ==> Listing(history[i]) == old(Listing(disk))
    {
      hide GXor, OnDisk, Total, Rows, HasMove, MoveId, NoMove, Listing, Sound, Distinct;
      InMemory(disk, gdisk, gdelta);
      if !HasMove(gdisk) {
        return;
      }
      // find the pair that the source is in
      PendingSomewhere(disk, gdisk);
      ListingInMemory(disk, gdisk);
      var k := 0;
      while !Overlap(gdisk.pair, disk[k].pair)
        invariant 0 <= k < |disk|
        invariant exists i :: k <= i < |disk| && PendingAt(disk, gdisk, i)
        invariant forall i :: 0 <= i < k ==> !Overlap(gdisk.pair, disk[i].pair)
        decreases |disk| - k
      {
        k := k + 1;
      }
      ghost var before, pending := disk, gdisk;
      FoundPending(disk, gdisk, k);
      var moveId := MoveId(gdisk);
      gstate := NoMove(gstate);
      NoMoveIs(gstate, gdisk);
      MoveHides(before, k, pending, gstate);
      Delete(k, moveId, pred, appended);
      Cancel(Listing(disk), Rows(before, pending), multiset{(before[k].dir, before[k].entries[moveId])});
    }

    /** Renames entry a of pair i to entry b of pair j, in place of what is there or in front of
        it. Within a pair this is one commit; across pairs it is two, with the move pending in
        between. */
    method Rename(i: nat, a: nat, j: nat, b: nat, replace: bool, name: string,
                  pred: Option<nat>, appended: bool, appended': bool)
      requires Valid() && Sound(disk) && gdelta == ZERO && gdisk == gstate && !HasMove(gstate)
      requires i < |disk| && a < |disk[i].entries| && a < 0x3ff
      requires j < |disk| && (if replace then b < |disk[j].entries| else b <= |disk[j].entries|)
      requires replace && i == j ==> a != b
      requires pred.Some? ==> pred.value < i
      modifies this
      ensures Valid() && Sound(disk) && !HasMove(gdisk)
      ensures |history| > |old(history)| && history[..|old(history)|] == old(history)
      ensures Renamed(old(disk), i, a, j, b, replace, name, Listing(disk))
      ensures forall t :: |old(history)| <= t < |history| ==>
                Listing(history[t]) == Listing(disk) && Sound(history[t])
    {
      hide GXor, OnDisk, Total, Rows, Row, HasMove, NoMove, PrepMove, Seen, Listing, Sound, Distinct;
      ghost var before, h := disk, |history|;
      InMemory(disk, gdisk, gdelta);
      var e := disk[i].entries[a];
      var entries := Put(disk[j].entries, b, replace, Entry(name, e.file));
      if i == j {
        // the source may have been moved by the entry put in front of it
        var newOldId := if !replace && b <= a then a + 1 else a;
        Commit(j, Remove(entries, newOldId), appended);
        RenamedInPair(before, i, a, b, replace, name, disk, gstate);
        return;
      }
      gstate := PrepMove(gstate, a, disk[i].pair);
      Commit(j, entries, appended);
      ghost var middle, pending := disk, gstate;
      MoveIsIn(old(gstate), a, before[i].pair, pending);
      RenamedAcross(before, i, a, j, b, replace, name, middle, pending);
      assert history[h] == middle;
      // the source goes, and the move with it
      if HasMove(gstate) {
        gstate := NoMove(gstate);
        NoMoveIs(gstate, pending);
        MoveHides(middle, i, pending, gstate);
        ListingInMemory(middle, pending);
        Delete(i, a, pred, appended');
        Cancel(Listing(disk), Listing(middle), multiset{(middle[i].dir, middle[i].entries[a])});
      }
    }
  }

  /** What a mount after power loss and its first write make of any disk that a rename or a
      move's cleanup leaves behind: the same listing, and no move pending. */
  method Recover(disk: seq<Meta>, pred: Option<nat>, appended: bool) returns (fs: Filesystem)
    requires Sound(disk)
    requires pred.Some? ==>
               forall k :: 0 <= k <= pred.value && k < |disk| ==> !Overlap(Total(disk).pair, disk[k].pair)
    ensures Listing(fs.disk) == Listing(disk) && !HasMove(fs.gdisk) && Sound(fs.disk) && fs.Valid()
  {
    hide GXor, Rows, HasMove, Listing, Sound, Total, Distinct;
    fs := new Filesystem.Mount(disk);
    fs.DeMove(pred, appended);
  }

  // ---- One name at a time ----

  /** The file is listed once, there and nowhere else. */
  ghost predicate OnlyName(listing: multiset<(nat, Entry)>, dir: nat, name: string, file: nat) {
    && listing[(dir, Entry(name, file))] == 1
    && forall d: nat, n: string :: (d, n) != (dir, name) ==> listing[(d, Entry(n, file))] == 0
  }

  /** A renamed file has its new name, and no other. */
  lemma RenameMovesName(before: seq<Meta>, i: nat, a: nat, j: nat, b: nat, replace: bool, name: string,
                        after: multiset<(nat, Entry)>)
    requires i < |before| && a < |before[i].entries| && j < |before|
    requires replace ==> b < |before[j].entries| && before[j].entries[b].file != before[i].entries[a].file
    requires Renamed(before, i, a, j, b, replace, name, after)
    requires OnlyName(Listing(before), before[i].dir, before[i].entries[a].name, before[i].entries[a].file)
    ensures OnlyName(after, before[j].dir, name, before[i].entries[a].file)
  {
    hide Listing;
    var e := before[i].entries[a];
    var rep := if replace then multiset{(before[j].dir, before[j].entries[b])} else multiset{};
    var src, put := multiset{(before[i].dir, e)}, multiset{(before[j].dir, Entry(name, e.file))};
    forall d: nat, n: string
      ensures after[(d, Entry(n, e.file))] == if (d, n) == (before[j].dir, name) then 1 else 0
    {
      var x := (d, Entry(n, e.file));
      assert (after + src + rep)[x] == (Listing(before) + put)[x];
      assert after[x] + src[x] == Listing(before)[x] + put[x];
    }
  }
}
