/** The partition table, kept in two flash slots of which the older is rewritten: what is
    selected when power fails at any point, and how the slots alternate. */
module PartitionTable {
  import opened Wrappers
  import opened Octets

  const MAGIC := 0x54504642
  const MAX_ENTRIES := 16

  datatype Entry = Entry(ty: nat, device: nat, activeIndex: nat, name: string,
                         startAddress: (nat, nat), maxLen: (nat, nat), len: nat, age: nat)

  datatype Header = Header(magic: nat, version: nat, entryCnt: nat, age: nat)

  /** A table as it is stored: header and entries, each followed by a checksum. */
  datatype Table = Table(header: Header, headerCrc: nat, entries: seq<Entry>, entriesCrc: nat)

  /** A slot that was erased, or written in part, holds no table. */
  datatype Slot = Holds(table: Table) | Torn

  datatype Flash = Flash(slot0: Slot, slot1: Slot) {
    function At(side: bool): Slot { if side then slot1 else slot0 }

    function With(side: bool, s: Slot): Flash { if side then Flash(slot0, s) else Flash(s, slot1) }
  }

  datatype Error = Success | TableNotValid | EntryUpdateFail

  datatype IapParam = IapParam(startAddr: nat, inactiveIndex: nat, inactiveTable: bool)

  /** Where the first entry of a type is, or the end. */
  function TypeAt(entries: seq<Entry>, ty: nat): (r: nat)
    ensures r <= |entries|
    ensures forall i :: 0 <= i < r ==> entries[i].ty != ty
    ensures r < |entries| ==> entries[r].ty == ty
  {
    TypeFrom(entries, ty, 0)
  }

  function TypeFrom(entries: seq<Entry>, ty: nat, from: nat): (r: nat)
    requires from <= |entries|
    ensures from <= r <= |entries|
    ensures forall i :: from <= i < r ==> entries[i].ty != ty
    ensures r < |entries| ==> entries[r].ty == ty
    decreases |entries| - from
  {
    if from == |entries| || entries[from].ty == ty then from else TypeFrom(entries, ty, from + 1)
  }

  /** Only the entry of that type is changed, or one is added behind the others. */
  function Updated(entries: seq<Entry>, e: Entry): (r: seq<Entry>)
    ensures |r| >= |entries| && forall i :: 0 <= i < |entries| && i != TypeAt(entries, e.ty) ==> r[i] == entries[i]
    ensures TypeAt(entries, e.ty) < |r| && r[TypeAt(entries, e.ty)] == e
  {
    var i := TypeAt(entries, e.ty);
    if i < |entries| then entries[i := e] else entries + [e]
  }

  class Device {
    // the checksums are those of a library that is not part of this model
    const headerCrc: Header -> nat
    const entriesCrc: seq<Entry> -> nat
    var flash: Flash
    ghost var history: seq<Flash>

    constructor (headerCrc: Header -> nat, entriesCrc: seq<Entry> -> nat, flash: Flash)
      ensures this.flash == flash && history == [flash] && Recorded()
    {
      this.headerCrc, this.entriesCrc, this.flash, history := headerCrc, entriesCrc, flash, [flash];
    }

    ghost predicate Recorded()
      reads this
    {
      history != [] && history[|history| - 1] == flash
    }

    /** A table whose magic number, size and checksums are right. */
    predicate IsValid(s: Slot) {
      && s.Holds? && s.table.header.magic == MAGIC
      && s.table.header.entryCnt == |s.table.entries| <= MAX_ENTRIES
      && s.table.headerCrc == headerCrc(s.table.header)
      && s.table.entriesCrc == entriesCrc(s.table.entries)
    }

    /** The slot that is selected: the valid one, of two the younger, of two of one age the first. */
    function Active(f: Flash): Option<bool> {
      if IsValid(f.slot0) && IsValid(f.slot1) then
        Some(f.slot0.table.header.age < f.slot1.table.header.age)
      else if IsValid(f.slot0) then Some(false)
      else if IsValid(f.slot1) then Some(true)
      else None
    }

    function ActiveTable(f: Flash): Option<Table> {
      var a := Active(f);
      if a.None? then None else Some(f.At(a.value).table)
    }

    /** Reads both slots and selects one. */
    method GetActive() returns (side: Option<bool>, table: Option<Table>)
      ensures side == Active(flash) && table == ActiveTable(flash)
    {
      var s0, s1 := flash.slot0, flash.slot1;
      var v0, v1 := IsValid(s0), IsValid(s1);
      side, table := None, None;
      if v0 && v1 {
        if s0.table.header.age >= s1.table.header.age {
          side, table := Some(false), Some(s0.table);
        } else {
          side, table := Some(true), Some(s1.table);
        }
      } else if v0 {
        side, table := Some(false), Some(s0.table);
      } else if v1 {
        side, table := Some(true), Some(s1.table);
      }
    }

    method Erase(side: bool)
      requires Recorded()
      modifies this
      ensures flash == old(flash).With(side, Torn) && history == old(history) + [flash] && Recorded()
    {
      flash := flash.With(side, Torn);
      history := history + [flash];
    }

    method Write(side: bool, t: Table)
      requires Recorded()
      modifies this
      ensures flash == old(flash).With(side, Holds(t)) && history == old(history) + [flash] && Recorded()
    {
      flash := flash.With(side, Holds(t));
      history := history + [flash];
    }

    // ---- Updating one entry ----

    /** The table one generation on, with its checksums. */
    function Sealed(h: Header, entries: seq<Entry>): Table {
      var next := Header(h.magic, h.version, |entries|, (h.age + 1) % WORD);
      Table(next, headerCrc(next), entries, entriesCrc(entries))
    }

    /** The flash while and after slot `side` is rewritten: erased, then complete. */
    function Rewriting(before: Flash, side: bool, t: Table): seq<Flash> {
      [before.With(side, Torn), before.With(side, Holds(t))]
    }

    /** Replaces the first entry of the same type, or adds one, and writes the table to a slot. */
    method UpdateEntry(target: bool, t: Table, entry: Entry) returns (r: Error)
      requires Recorded() && t.header.entryCnt == |t.entries|
      modifies this
      ensures Recorded()
      ensures r == EntryUpdateFail <==> TypeAt(t.entries, entry.ty) == |t.entries| >= MAX_ENTRIES
      ensures r != EntryUpdateFail ==> r == Success
      ensures r == EntryUpdateFail ==> flash == old(flash) && history == old(history)
      ensures r == Success ==>
        var next := Sealed(t.header, Updated(t.entries, entry));
        && history == old(history) + Rewriting(old(flash), target, next)
        && flash == old(flash).With(target, Holds(next))
    {
      var entries := t.entries;
      var i := 0;
      while i < |entries| && entries[i].ty != entry.ty
        invariant i <= |entries| && entries == t.entries
        invariant TypeAt(entries, entry.ty) >= i
      {
        i := i + 1;
      }
      if i < |entries| {
        entries := entries[i := entry];
      } else if |entries| < MAX_ENTRIES {
        // a type that is not there yet goes behind the others
        entries := entries + [entry];
      } else {
        return EntryUpdateFail;
      }
      var header := Header(t.header.magic, t.header.version, |entries|, (t.header.age + 1) % WORD);
      var next := Table(header, headerCrc(header), entries, entriesCrc(entries));
      Erase(target);
      Write(target, next);
      r := Success;
    }

    // ---- What is selected when power fails ----

    /** Of a table that is being written to the slot not in use, nothing is seen until it is
        complete; then it is selected, exactly if its age did not wrap around. */
    lemma RewriteIsAtomic(f: Flash, entries: seq<Entry>)
      requires Active(f).Some? && |entries| <= MAX_ENTRIES
      ensures
        var a := Active(f).value;
        var old' := f.At(a).table;
        var next := Sealed(old'.header, entries);
        var states := Rewriting(f, !a, next);
        && ActiveTable(states[0]) == Some(old')
        && IsValid(states[1].At(!a))
        && (old'.header.age < WORD - 1 ==> Active(states[1]) == Some(!a) && ActiveTable(states[1]) == Some(next))
        && (old'.header.age == WORD - 1 ==> Active(states[1]) == Some(a) && ActiveTable(states[1]) == Some(old'))
    {
    }

    /** Erasing a slot leaves the selected table selected exactly if it is not in that slot, or
        the other slot holds the same. */
    lemma EraseKeepsSelected(f: Flash, side: bool)
      requires Active(f).Some?
      ensures ActiveTable(f.With(side, Torn)) == ActiveTable(f) <==>
                Active(f) != Some(side) || (IsValid(f.At(!side)) && f.At(!side).table == f.At(side).table)
    {
    }

    // ---- In-application programming ----

    /** The first entry of a table; `junk` is what lies in its place in a table without entries. */
    static function First(t: Table, junk: Entry): Entry { if |t.entries| > 0 then t.entries[0] else junk }

    /** Finds the firmware slot and the table slot that are not in use. */
    method GetIapPara(junk: Entry) returns (r: Error, para: IapParam)
      ensures r == (if Active(flash).None? then TableNotValid else Success)
      ensures r == Success ==>
        var fw := First(ActiveTable(flash).value, junk);
        && para.inactiveTable == !Active(flash).value
        && para.inactiveIndex == 1 - fw.activeIndex % 2
        && para.startAddr == (if fw.activeIndex % 2 == 0 then fw.startAddress.1 else fw.startAddress.0)
    {
      r, para := Success, IapParam(0, 0, false);
      var s0, s1 := flash.slot0, flash.slot1;
      var v0, v1 := IsValid(s0), IsValid(s1);
      var fw;
      if v0 && v1 {
        if s0.table.header.age >= s1.table.header.age {
          fw := First(s0.table, junk);
          para := para.(inactiveTable := true);
        } else {
          fw := First(s1.table, junk);
          para := para.(inactiveTable := false);
        }
      } else if v1 {
        fw := First(s1.table, junk);
        para := para.(inactiveTable := false);
      } else if v0 {
        fw := First(s0.table, junk);
        para := para.(inactiveTable := true);
      } else {
        return TableNotValid, para;
      }
      var inactive := if fw.activeIndex % 2 == 0 then 1 else 0;
      para := para.(startAddr := if inactive == 1 then fw.startAddress.1 else fw.startAddress.0,
                    inactiveIndex := inactive);
    }

    /** The entries with the other firmware slot in use. */
    static function Switched(entries: seq<Entry>): seq<Entry> {
      if entries == [] then []
      else entries[0 := entries[0].(activeIndex := 1 - entries[0].activeIndex % 2)]
    }

    /** Writes the table in use, with the firmware slot switched, to the slot not in use. Where
        the first entry would be in a table without entries, the checksum is written. */
    method SetIapPara(para: IapParam) returns (r: Error)
      requires Recorded() && Active(flash) == Some(!para.inactiveTable)
      modifies this
      ensures Recorded() && r == Success
      ensures
        var t := old(ActiveTable(flash)).value;
        history == old(history) + Rewriting(old(flash), para.inactiveTable, Sealed(t.header, Switched(t.entries)))
    {
      var t := flash.At(!para.inactiveTable).table;
      var entries := t.entries;
      if |entries| > 0 {
        var fw := entries[0];
        entries := entries[0 := fw.(activeIndex := if fw.activeIndex % 2 == 0 then 1 else 0)];
      }
      var header := Header(t.header.magic, t.header.version, t.header.entryCnt, (t.header.age + 1) % WORD);
      var next := Table(header, headerCrc(header), entries, entriesCrc(entries));
      Erase(para.inactiveTable);
      Write(para.inactiveTable, next);
      r := Success;
    }

    /** In every state from one point of the history on, a table is selected that was selected
        one step of a round before, or the one after it. */
    ghost predicate Between(states: seq<Flash>, first: Table, last: Table) {
      forall i :: 0 <= i < |states| ==> ActiveTable(states[i]) == Some(first) || ActiveTable(states[i]) == Some(last)
    }

    /** One update of the firmware: whenever power fails the table before or after is selected,
        and in the end the slots of table and firmware have both been switched. */
    method IapRound(junk: Entry) returns (para: IapParam)
      requires Recorded() && Active(flash).Some?
      requires ActiveTable(flash).value.header.age < WORD - 1
      modifies this
      ensures Recorded() && Active(flash) == Some(!old(Active(flash)).value)
      ensures
        var t, t' := old(ActiveTable(flash)).value, ActiveTable(flash).value;
        && t'.header.age == t.header.age + 1
        && t'.entries == Switched(t.entries)
        && |history| == |old(history)| + 2 && history[..|old(history)|] == old(history)
        && Between(history[|old(history)|..], t, t')
        && (t'.entries != [] ==> para.inactiveIndex == t'.entries[0].activeIndex)
    {
      ghost var before, h := flash, history;
      var r;
      r, para := GetIapPara(junk);
      r := SetIapPara(para);
      RewriteIsAtomic(before, Switched(ActiveTable(before).value.entries));
      ghost var states := history[|h|..];
      assert states == Rewriting(before, para.inactiveTable,
        Sealed(ActiveTable(before).value.header, Switched(ActiveTable(before).value.entries)));
      assert flash == states[1];
    }

    /** After n rounds, the first entry uses its slots by turns and the others are as before. */
    static predicate Rounds(before: seq<Entry>, after: seq<Entry>, n: nat) {
      && |after| == |before|
      && (after != [] ==>
            && after[1..] == before[1..]
            && after[0].activeIndex % 2 == (before[0].activeIndex + n) % 2
            && (n > 0 ==> after[0].activeIndex < 2))
    }

    /** Any number of rounds alternate between two firmware slots, as long as the age does not
        wrap around. */
    method IapRounds(n: nat, junk: Entry)
      requires Recorded() && Active(flash).Some?
      requires ActiveTable(flash).value.header.age + n < WORD
      modifies this
      ensures Active(flash) == Some(if n % 2 == 0 then old(Active(flash)).value else !old(Active(flash)).value)
      ensures
        var t, t' := old(ActiveTable(flash)).value, ActiveTable(flash).value;
        && t'.header.age == t.header.age + n
        && Rounds(t.entries, t'.entries, n)
    {
      ghost var t := ActiveTable(flash).value;
      for i := 0 to n
        invariant Recorded() && Active(flash).Some?
        invariant Active(flash).value == (if i % 2 == 0 then old(Active(flash)).value else !old(Active(flash)).value)
        invariant
          var now := ActiveTable(flash).value;
          now.header.age == t.header.age + i && Rounds(t.entries, now.entries, i)
      {
        ghost var now := ActiveTable(flash).value;
        var _ := IapRound(junk);
        assert now.entries != [] ==> Switched(now.entries)[1..] == now.entries[1..];
      }
    }
  }

  /** The boot library's view: the table that was selected when it started. */
  class Boot {
    const device: Device
    var activeIdx: bool
    var table: Table

    /** What is in memory is what is selected in flash. */
    predicate Fresh()
      reads this, device
    {
      device.Active(device.flash) == Some(activeIdx) && device.ActiveTable(device.flash) == Some(table)
    }

    constructor (device: Device)
      ensures this.device == device
    {
      this.device := device;
      activeIdx, table := false, Table(Header(0, 0, 0, 0), 0, [], 0);
    }

    /** Takes over the selected table, or fails where none is valid. */
    method Init() returns (ok: bool)
      modifies this
      ensures ok <==> device.IsValid(device.flash.slot0) || device.IsValid(device.flash.slot1)
      ensures if ok then Fresh() else unchanged(this)
    {
      var side, t := device.GetActive();
      if side.None? { return false; }
      activeIdx, table := side.value, t.value;
      return true;
    }

    /** Switches an entry to its other slot and writes the table to the slot that was not in use
        at the start. The table in memory stays as it was. */
    method UpdatePtable(entry: Entry) returns (r: Error, entry': Entry)
      requires Fresh() && device.Recorded()
      modifies device
      ensures device.Recorded() && unchanged(this)
      ensures entry' == entry.(activeIndex := if entry.activeIndex == 0 then 1 else 0, age := (entry.age + 1) % WORD)
      ensures r == EntryUpdateFail <==> TypeAt(table.entries, entry.ty) == |table.entries| >= MAX_ENTRIES
      ensures r == EntryUpdateFail ==> device.flash == old(device.flash) && device.history == old(device.history)
      ensures r == EntryUpdateFail || r == Success
      ensures r == Success ==>
        var next := device.Sealed(table.header, Updated(table.entries, entry'));
        && |device.history| == |old(device.history)| + 2
        && device.history[..|old(device.history)|] == old(device.history)
        && device.Between(device.history[|old(device.history)|..], table, next)
        && (device.ActiveTable(device.flash) == Some(next) <==> table.header.age < WORD - 1 || next == table)
        && (table.header.age < WORD - 1 ==> device.Active(device.flash) == Some(!activeIdx))
    {
      ghost var before, h := device.flash, device.history;
      // copy to the table to write, in case no reboot follows
      var copy := table;
      entry' := entry.(activeIndex := if entry.activeIndex == 0 then 1 else 0, age := (entry.age + 1) % WORD);
      r := device.UpdateEntry(!activeIdx, copy, entry');
      if r == Success {
        device.RewriteIsAtomic(before, Updated(table.entries, entry'));
        assert device.history[|h|..]
            == device.Rewriting(before, !activeIdx, device.Sealed(table.header, Updated(table.entries, entry')));
      }
    }

    /** A second update without a restart is not atomic: it erases the slot that the first one
        wrote and that is in use now, and what is selected then is the table before both. */
    lemma SecondUpdateIsNotAtomic(before: Flash, first: seq<Entry>)
      requires device.Active(before) == Some(activeIdx) && device.ActiveTable(before) == Some(table)
      requires table.header.age < WORD - 1 && |first| <= MAX_ENTRIES
      ensures
        var next := device.Sealed(table.header, first);
        var after := before.With(!activeIdx, Holds(next));
        && device.ActiveTable(after) == Some(next)
        && device.ActiveTable(after.With(!activeIdx, Torn)) == Some(table) != Some(next)
    {
      device.RewriteIsAtomic(before, first);
    }
  }
}
