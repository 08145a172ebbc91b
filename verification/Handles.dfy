/**
 * Handle tables: one table for global handles and one per process. A handle stands for a table index, and every
 * occupied entry owns one reference to its object.
 */
module Handles {
  import opened Bits
  import opened Lists
  import opened HandleValues

  const MIN_HANDLE_ENTRIES := 32

  /** Access rights, as the bits that are set. */
  type Rights = set<nat>

  /** An entry of a table: an object, its access rights and the two reserved flags. */
  datatype Entry = Empty | Used(obj: int, access: Rights, inherit: bool, closeProtect: bool)

  /** A handle table; its entries are those up to the last one in use. */
  datatype Table = Table(count: int, free: int, entries: seq<Entry>) {
    /** Everything below `free` is in use, and so is the last entry. */
    ghost predicate Inv() {
      && MIN_HANDLE_ENTRIES <= count <= MAX_HANDLE_ENTRIES
      && 0 <= free <= |entries| <= count
      && (forall i :: 0 <= i < free ==> entries[i].Used?)
      && (entries != [] ==> entries[|entries| - 1].Used?)
    }

    /** The entry at an index; there is nothing past the last one. */
    function At(i: int): Entry {
      if 0 <= i < |entries| then entries[i] else Empty
    }
  }

  /** The references to an object that entries own. */
  function Uses(entries: seq<Entry>, o: int): nat {
    if entries == [] then 0
    else Uses(entries[..|entries| - 1], o) + (if Owns(entries[|entries| - 1], o) then 1 else 0)
  }

  predicate Owns(e: Entry, o: int) {
    e.Used? && e.obj == o
  }

  function One(e: Entry, o: int): nat {
    if Owns(e, o) then 1 else 0
  }

  lemma {:induction false} UsesUpdate(entries: seq<Entry>, i: nat, e: Entry, o: int)
    requires i < |entries|
    ensures Uses(entries[i := e], o) == Uses(entries, o) - One(entries[i], o) + One(e, o)
    decreases |entries|
  {
    var n := |entries| - 1;
    if i < n {
      UsesUpdate(entries[..n], i, e, o);
      assert entries[i := e][..n] == entries[..n][i := e];
    } else {
      assert entries[i := e][..n] == entries[..n];
    }
  }

  lemma UsesAppend(entries: seq<Entry>, e: Entry, o: int)
    ensures Uses(entries + [e], o) == Uses(entries, o) + One(e, o)
  {
    assert (entries + [e])[..|entries|] == entries;
  }

  /** The first free entry from i on, or the one after the last. */
  function FreeFrom(entries: seq<Entry>, i: nat): (r: nat)
    requires i <= |entries|
    ensures i <= r <= |entries| && (r < |entries| ==> entries[r].Empty?)
    ensures forall k :: i <= k < r ==> entries[k].Used?
    decreases |entries| - i
  {
    if i == |entries| || entries[i].Empty? then i else FreeFrom(entries, i + 1)
  }

  function Grown(count: int): int {
    if count * 2 < MAX_HANDLE_ENTRIES then count * 2 else MAX_HANDLE_ENTRIES
  }

  function NewTable(count: int): Table {
    Table(if count < MIN_HANDLE_ENTRIES then MIN_HANDLE_ENTRIES else count, 0, [])
  }

  /** Puts an entry at the first free place; the table may have to grow. */
  function Alloc(t: Table, e: Entry, growOk: bool): Option<(Table, nat)>
    requires 0 <= t.free <= |t.entries|
  {
    var f := FreeFrom(t.entries, t.free);
    if f < |t.entries| then Some((t.(free := f + 1, entries := t.entries[f := e]), f))
    else if f < t.count then Some((t.(free := f + 1, entries := t.entries + [e]), f))
    else if growOk && Grown(t.count) != t.count then Some((Table(Grown(t.count), f + 1, t.entries + [e]), f))
    else None
  }

  /** Entries without the free ones at the end. */
  function Trim(entries: seq<Entry>): (r: seq<Entry>)
    ensures r <= entries && (r != [] ==> r[|r| - 1].Used?)
    ensures forall i :: |r| <= i < |entries| ==> entries[i].Empty?
  {
    if entries == [] || entries[|entries| - 1].Used? then entries else Trim(entries[..|entries| - 1])
  }

  function Shrink(t: Table, shrinkOk: bool): Table {
    var entries := Trim(t.entries);
    Table(if |entries| - 1 >= t.count / 4 || t.count < MIN_HANDLE_ENTRIES * 2 || !shrinkOk then t.count else t.count / 2,
          t.free, entries)
  }

  function Close(t: Table, i: nat, shrinkOk: bool): Table
    requires i < |t.entries|
  {
    var u := t.(entries := t.entries[i := Empty], free := if i < t.free then i else t.free);
    if i == |t.entries| - 1 then Shrink(u, shrinkOk) else u
  }

  function Inherited(e: Entry): Entry {
    if e.Used? && e.inherit then e else Empty
  }

  function InheritedEntries(entries: seq<Entry>): seq<Entry> {
    seq(|entries|, i requires 0 <= i < |entries| => Inherited(entries[i]))
  }

  /** The table of a new process, from its parent's. */
  function Copy(t: Table, shrinkOk: bool): Table {
    Shrink(NewTable(t.count).(entries := InheritedEntries(t.entries)), shrinkOk)
  }

  /** An allocation takes the lowest unused index and changes no other entry. */
  lemma AllocExact(t: Table, e: Entry, growOk: bool)
    requires t.Inv() && e.Used?
    ensures Alloc(t, e, growOk).None? <==>
            (forall i :: 0 <= i < t.count ==> t.At(i).Used?) && (!growOk || t.count == MAX_HANDLE_ENTRIES)
    ensures Alloc(t, e, growOk).Some? ==>
              var (u, i) := Alloc(t, e, growOk).value;
              && u.Inv() && i < MAX_HANDLE_ENTRIES && t.At(i).Empty? && (forall k :: 0 <= k < i ==> t.At(k).Used?)
              && u.At(i) == e && (forall k :: k != i ==> u.At(k) == t.At(k))
  {
    var f := FreeFrom(t.entries, t.free);
    assert t.At(f).Empty?;
  }

  lemma AllocUses(t: Table, e: Entry, growOk: bool, o: int)
    requires t.Inv() && Alloc(t, e, growOk).Some?
    ensures Uses(Alloc(t, e, growOk).value.0.entries, o) == Uses(t.entries, o) + One(e, o)
  {
    var f := FreeFrom(t.entries, t.free);
    if f < |t.entries| {
      UsesUpdate(t.entries, f, e, o);
    } else {
      UsesAppend(t.entries, e, o);
    }
  }

  lemma {:induction false} TrimUses(entries: seq<Entry>, o: int)
    ensures Uses(Trim(entries), o) == Uses(entries, o)
    decreases |entries|
  {
    if entries != [] && entries[|entries| - 1].Empty? {
      TrimUses(entries[..|entries| - 1], o);
    }
  }

  /** Shrinking a table loses no entry. */
  lemma ShrinkExact(t: Table, shrinkOk: bool, o: int)
    requires MIN_HANDLE_ENTRIES <= t.count <= MAX_HANDLE_ENTRIES && 0 <= t.free <= |t.entries| <= t.count
    requires forall i :: 0 <= i < t.free ==> t.entries[i].Used?
    ensures var u := Shrink(t, shrinkOk);
            u.Inv() && (forall k :: u.At(k) == t.At(k)) && Uses(u.entries, o) == Uses(t.entries, o)
  {
    hide Uses;
    TrimUses(t.entries, o);
    var r := Trim(t.entries);
    assert forall k :: 0 <= k < |r| ==> r[k] == t.entries[k];
    assert |r| < |t.entries| ==> t.entries[|r|].Empty?;
  }

  /** Closing an index frees it and changes no other entry. */
  lemma CloseExact(t: Table, i: nat, shrinkOk: bool, o: int)
    requires t.Inv() && t.At(i).Used?
    ensures var u := Close(t, i, shrinkOk);
            && u.Inv() && u.At(i).Empty? && (forall k :: k != i ==> u.At(k) == t.At(k))
            && Uses(u.entries, o) == Uses(t.entries, o) - One(t.At(i), o)
  {
    var u := t.(entries := t.entries[i := Empty], free := if i < t.free then i else t.free);
    UsesUpdate(t.entries, i, Empty, o);
    hide Uses, Trim, Shrink;
    if i == |t.entries| - 1 {
      ShrinkExact(u, shrinkOk, o);
    }
  }

  /** A new process inherits exactly the entries that are marked for it, at the same handles. */
  lemma CopyExact(t: Table, shrinkOk: bool)
    requires t.Inv()
    ensures Copy(t, shrinkOk).Inv() && forall k :: Copy(t, shrinkOk).At(k) == Inherited(t.At(k))
  {
    hide Uses, Trim, Shrink;
    ShrinkExact(NewTable(t.count).(entries := InheritedEntries(t.entries)), shrinkOk, 0);
  }

  /** The table of global handles at index 0, a table per process, and the reference counts of the objects. */
  datatype System = System(tables: seq<Option<Table>>, refs: map<int, int>) {
    ghost predicate Inv() {
      tables != [] && forall p :: 0 <= p < |tables| && tables[p].Some? ==> tables[p].value.Inv()
    }

    function Ref(o: int): int {
      if o in refs then refs[o] else 0
    }

    /** The references to an object that no handle owns. */
    function Elsewhere(o: int): int {
      Ref(o) - Total(tables, o)
    }

    function Adjust(o: int, change: int): System {
      this.(refs := refs[o := Ref(o) + change])
    }
  }

  function UsesIn(t: Option<Table>, o: int): nat {
    if t.None? then 0 else Uses(t.value.entries, o)
  }

  /** The references to an object that the handles in all tables own. */
  function Total(tables: seq<Option<Table>>, o: int): nat {
    if tables == [] then 0 else Total(tables[..|tables| - 1], o) + UsesIn(tables[|tables| - 1], o)
  }

  lemma {:induction false} TotalUpdate(tables: seq<Option<Table>>, p: nat, t: Option<Table>, o: int)
    requires p < |tables|
    ensures Total(tables[p := t], o) == Total(tables, o) - UsesIn(tables[p], o) + UsesIn(t, o)
    decreases |tables|
  {
    hide UsesIn;
    var n := |tables| - 1;
    if p < n {
      TotalUpdate(tables[..n], p, t, o);
      assert tables[p := t][..n] == tables[..n][p := t];
    } else {
      assert tables[p := t][..n] == tables[..n];
    }
  }

  lemma {:induction false} TotalAtLeast(tables: seq<Option<Table>>, p: nat, o: int)
    requires p < |tables|
    ensures Total(tables, o) >= UsesIn(tables[p], o)
    decreases |tables|
  {
    if p < |tables| - 1 {
      TotalAtLeast(tables[..|tables| - 1], p, o);
    }
  }

  lemma {:induction false} UsesPositive(entries: seq<Entry>, i: nat, o: int)
    requires i < |entries| && Owns(entries[i], o)
    ensures Uses(entries, o) > 0
    decreases |entries|
  {
    if i < |entries| - 1 {
      UsesPositive(entries[..|entries| - 1], i, o);
    }
  }

  /** The table and the index that a handle stands for in a process. */
  function Place(p: nat, h: nat): (nat, int) {
    if IsGlobal(h) then (0, HandleToIndex(Obfuscate(h))) else (p, HandleToIndex(h))
  }

  function EntryAt(s: System, p: nat, i: int): Entry {
    if p < |s.tables| && s.tables[p].Some? then s.tables[p].value.At(i) else Empty
  }

  function GetHandle(s: System, p: nat, h: nat): Entry {
    var (q, i) := Place(p, h);
    EntryAt(s, q, i)
  }

  datatype Status = Success | ProcessIsTerminating | InsufficientResources | NoMemory | InvalidHandle | NotClosable | AccessDenied

  datatype Outcome = Outcome(system: System, handle: nat, status: Status)

  /** Puts an entry in a table and takes a reference for it. */
  function AllocEntry(s: System, p: nat, e: Entry, growOk: bool): Outcome
    requires s.Inv() && p < |s.tables| && e.Used?
  {
    if s.tables[p].None? then Outcome(s, 0, ProcessIsTerminating)
    else
      match Alloc(s.tables[p].value, e, growOk)
      case None => Outcome(s, 0, InsufficientResources)
      case Some((t, i)) =>
        Outcome(s.(tables := s.tables[p := Some(t)]).Adjust(e.obj, 1), IndexToHandle(i), Success)
  }

  /** Allocates a global handle; the first one creates the global table. */
  function AllocGlobal(s: System, e: Entry, tableOk: bool, growOk: bool): Outcome
    requires s.Inv() && e.Used?
  {
    if s.tables[0].None? && !tableOk then Outcome(s, 0, NoMemory)
    else
      var u := if s.tables[0].None? then s.(tables := s.tables[0 := Some(NewTable(0))]) else s;
      var o := AllocEntry(u, 0, e, growOk);
      o.(handle := if o.handle == 0 then 0 else Obfuscate(o.handle))
  }

  function CloseHandle(s: System, p: nat, h: nat, closable: bool, shrinkOk: bool): Outcome {
    var e := GetHandle(s, p, h);
    if e.Empty? then Outcome(s, h, InvalidHandle)
    else if e.closeProtect || !closable then Outcome(s, h, NotClosable)
    else
      var (q, i) := Place(p, h);
      var t := s.tables[q].value;
      Outcome(s.(tables := s.tables[q := Some(Close(t, i, shrinkOk))]).Adjust(e.obj, -1), h, Success)
  }

  /** Changes the reference counts by one for every entry. */
  function AdjustAll(s: System, entries: seq<Entry>, change: int): System {
    if entries == [] then s
    else
      var u := AdjustAll(s, entries[..|entries| - 1], change);
      var e := entries[|entries| - 1];
      if e.Used? then u.Adjust(e.obj, change) else u
  }

  lemma {:induction false} AdjustAllRef(s: System, entries: seq<Entry>, change: int, o: int)
    requires change == 1 || change == -1
    ensures AdjustAll(s, entries, change).tables == s.tables
    ensures AdjustAll(s, entries, change).Ref(o) == s.Ref(o) + change * Uses(entries, o)
    decreases |entries|
  {
    if entries != [] {
      AdjustAllRef(s, entries[..|entries| - 1], change, o);
    }
  }

  lemma {:induction false} AdjustAllTables(s: System, tables: seq<Option<Table>>, entries: seq<Entry>, change: int)
    ensures AdjustAll(s.(tables := tables), entries, change) == AdjustAll(s, entries, change).(tables := tables)
    decreases |entries|
  {
    if entries != [] {
      AdjustAllTables(s, tables, entries[..|entries| - 1], change);
    }
  }

  /** The free entries at the end hold no reference. */
  lemma {:induction false} TrimAdjust(s: System, entries: seq<Entry>, change: int)
    ensures AdjustAll(s, Trim(entries), change) == AdjustAll(s, entries, change)
    decreases |entries|
  {
    if entries != [] && entries[|entries| - 1].Empty? {
      TrimAdjust(s, entries[..|entries| - 1], change);
    }
  }

  /** Gives a new process the inherited handles of its parent. */
  function CopyTable(s: System, p: nat, parent: nat, shrinkOk: bool): System
    requires p < |s.tables| && parent < |s.tables| && s.tables[parent].Some?
  {
    var t := Copy(s.tables[parent].value, shrinkOk);
    AdjustAll(s.(tables := s.tables[p := Some(t)]), t.entries, 1)
  }

  /** Closes all handles of a process. */
  function CloseProcessHandles(s: System, p: nat): System
    requires p < |s.tables|
  {
    if s.tables[p].None? then s
    else AdjustAll(s.(tables := s.tables[p := None]), s.tables[p].value.entries, -1)
  }

  /** A table changes and the reference counts follow. */
  lemma Balanced(s: System, u: System, p: nat, o: int)
    requires p < |s.tables| && |u.tables| == |s.tables| && u.tables == s.tables[p := u.tables[p]]
    requires u.Ref(o) - s.Ref(o) == UsesIn(u.tables[p], o) - UsesIn(s.tables[p], o)
    ensures u.Elsewhere(o) == s.Elsewhere(o)
  {
    TotalUpdate(s.tables, p, u.tables[p], o);
  }

  lemma AllocBalanced(s: System, p: nat, e: Entry, growOk: bool, o: int)
    requires s.Inv() && p < |s.tables| && e.Used?
    ensures AllocEntry(s, p, e, growOk).system.Elsewhere(o) == s.Elsewhere(o)
  {
    hide Uses, Total, FreeFrom;
    var u := AllocEntry(s, p, e, growOk).system;
    if s.tables[p].Some? && Alloc(s.tables[p].value, e, growOk).Some? {
      AllocUses(s.tables[p].value, e, growOk, o);
      hide Alloc;
      Balanced(s, u, p, o);
    }
  }

  /** Changing one table keeps the invariant if the new table is right. */
  lemma TableChanged(s: System, u: System, p: nat)
    requires s.Inv() && p < |s.tables| == |u.tables| && u.tables == s.tables[p := u.tables[p]]
    requires u.tables[p].Some? ==> u.tables[p].value.Inv()
    ensures u.Inv()
  {
    hide Table.Inv;
  }

  /** No entry changes but the one at index i of table p. */
  ghost predicate OnlyAt(s: System, u: System, p: nat, i: int) {
    forall q: nat, k: int :: (q != p || k != i) ==> EntryAt(u, q, k) == EntryAt(s, q, k)
  }

  lemma OneTableChanged(s: System, u: System, p: nat, i: int)
    requires p < |s.tables| == |u.tables| && u.tables == s.tables[p := u.tables[p]]
    requires s.tables[p].Some? && u.tables[p].Some?
    requires forall k :: k != i ==> u.tables[p].value.At(k) == s.tables[p].value.At(k)
    ensures OnlyAt(s, u, p, i)
  {
    hide Table.At;
  }

  /** A table has an entry that is not in use, or it can be made larger. */
  ghost predicate Room(t: Option<Table>, growOk: bool) {
    t.Some? && ((exists i :: 0 <= i < t.value.count && t.value.At(i).Empty?) || (growOk && t.value.count < MAX_HANDLE_ENTRIES))
  }

  /** An allocation succeeds exactly if the process has a table with room; the handle then stands for the new entry, and
      every other handle for what it did. */
  lemma AllocHandle(s: System, p: nat, e: Entry, growOk: bool)
    requires s.Inv() && p < |s.tables| && e.Used?
    ensures var o := AllocEntry(s, p, e, growOk);
            && o.system.Inv()
            && (o.status == ProcessIsTerminating <==> s.tables[p].None?) && (o.status == Success <==> Room(s.tables[p], growOk))
            && (o.status == Success ==>
                  && GetHandle(s, p, o.handle).Empty? && (p > 0 ==> GetHandle(o.system, p, o.handle) == e)
                  && 0 < o.handle <= MAX_LOCAL_HANDLE
                  && OnlyAt(s, o.system, p, HandleToIndex(o.handle)))
            && (o.status != Success ==> o.system == s && o.handle == 0)
  {
    hide FreeFrom, Obfuscate;
    var o := AllocEntry(s, p, e, growOk);
    if s.tables[p].Some? {
      AllocExact(s.tables[p].value, e, growOk);
    }
    if o.status == Success {
      LocalOrGlobal(Alloc(s.tables[p].value, e, growOk).value.1);
      hide Alloc, IsGlobal, Table.Inv, OnlyAt;
      TableChanged(s, o.system, p);
      OneTableChanged(s, o.system, p, HandleToIndex(o.handle));
    }
  }

  /** Creating a table changes no entry and no reference. */
  lemma NewTableCreated(s: System, p: nat, o: int)
    requires s.Inv() && p < |s.tables| && s.tables[p].None?
    ensures var u := s.(tables := s.tables[p := Some(NewTable(0))]);
            u.Inv() && u.Elsewhere(o) == s.Elsewhere(o) && Room(u.tables[p], false) && forall q: nat, k: int :: EntryAt(u, q, k) == EntryAt(s, q, k)
  {
    var u := s.(tables := s.tables[p := Some(NewTable(0))]);
    assert NewTable(0).At(0).Empty?;
    TableChanged(s, u, p);
    Balanced(s, u, p, o);
  }

  /** A global handle stands for its entry in every process. */
  lemma GlobalHandle(s: System, e: Entry, tableOk: bool, growOk: bool, o: int)
    requires s.Inv() && e.Used?
    ensures var r := AllocGlobal(s, e, tableOk, growOk);
            && r.system.Inv() && r.system.Elsewhere(o) == s.Elsewhere(o)
            && (r.status == Success <==> Room(s.tables[0], growOk) || (s.tables[0].None? && tableOk))
            && (r.status == Success ==> EntryAt(s, 0, HandleToIndex(Obfuscate(r.handle))).Empty?)
            && (r.status == Success ==> forall p: nat :: GetHandle(r.system, p, r.handle) == e)
            && (r.status == Success ==> OnlyAt(s, r.system, 0, HandleToIndex(Obfuscate(r.handle))))
            && (r.status != Success ==> r.handle == 0 && forall q: nat, k: int :: EntryAt(r.system, q, k) == EntryAt(s, q, k))
  {
    hide Alloc, NewTable, Xor, HandleToIndex, Total, Table.Inv;
    if s.tables[0].Some? || tableOk {
      var u := if s.tables[0].None? then s.(tables := s.tables[0 := Some(NewTable(0))]) else s;
      if s.tables[0].None? {
        NewTableCreated(s, 0, o);
      }
      AllocHandle(u, 0, e, growOk);
      AllocBalanced(u, 0, e, growOk, o);
      var r := AllocEntry(u, 0, e, growOk);
      AllocIndex(u, 0, e, growOk);
      hide AllocEntry;
      if r.status == Success {
        LocalOrGlobal(HandleToIndex(r.handle));
        XorTwice(r.handle, HANDLE_OBFUSCATOR);
      }
    }
  }

  /** The handle and the entry of an allocation. */
  lemma AllocIndex(s: System, p: nat, e: Entry, growOk: bool)
    requires s.Inv() && p < |s.tables| && e.Used?
    ensures var r := AllocEntry(s, p, e, growOk);
            r.status == Success ==>
              var i := HandleToIndex(r.handle);
              0 <= i < MAX_HANDLE_ENTRIES && r.handle == IndexToHandle(i)
              && EntryAt(s, p, i).Empty? && EntryAt(r.system, p, i) == e
  {
    hide FreeFrom;
    if s.tables[p].Some? && Alloc(s.tables[p].value, e, growOk).Some? {
      AllocExact(s.tables[p].value, e, growOk);
      hide Alloc;
    }
  }

  /** A closed handle stands for nothing, and every other handle for what it did; one reference is given up. */
  lemma CloseHandleExact(s: System, p: nat, h: nat, closable: bool, shrinkOk: bool, o: int)
    requires s.Inv()
    ensures var r := CloseHandle(s, p, h, closable, shrinkOk);
            && r.system.Inv() && r.system.Elsewhere(o) == s.Elsewhere(o)
            && (r.status == Success <==> GetHandle(s, p, h).Used? && !GetHandle(s, p, h).closeProtect && closable)
            && (r.status == Success ==>
                  GetHandle(r.system, p, h).Empty? && OnlyAt(s, r.system, Place(p, h).0, Place(p, h).1))
            && (r.status != Success ==> r.system == s)
  {
    hide Place, Total, Uses;
    var r := CloseHandle(s, p, h, closable, shrinkOk);
    if r.status == Success {
      var (q, i) := Place(p, h);
      CloseExact(s.tables[q].value, i, shrinkOk, o);
      hide Close, Table.Inv, OnlyAt;
      TableChanged(s, r.system, q);
      OneTableChanged(s, r.system, q, i);
      Balanced(s, r.system, q, o);
    }
  }

  /** A new process has the inherited handles of its parent and a reference for each. */
  lemma CopyTableExact(s: System, p: nat, parent: nat, shrinkOk: bool, o: int)
    requires s.Inv() && p < |s.tables| && parent < |s.tables| && s.tables[p].None? && s.tables[parent].Some?
    ensures var u := CopyTable(s, p, parent, shrinkOk);
            && u.Inv() && u.Elsewhere(o) == s.Elsewhere(o)
            && (forall i :: EntryAt(u, p, i) == Inherited(EntryAt(s, parent, i)))
            && (forall q: nat, i :: q != p ==> EntryAt(u, q, i) == EntryAt(s, q, i))
  {
    hide Total, Uses, Copy, AdjustAll, Table.Inv;
    var u := CopyTable(s, p, parent, shrinkOk);
    var t := Copy(s.tables[parent].value, shrinkOk);
    CopyExact(s.tables[parent].value, shrinkOk);
    AdjustAllRef(s.(tables := s.tables[p := Some(t)]), t.entries, 1, o);
    TableChanged(s, u, p);
    Balanced(s, u, p, o);
  }

  /** A process that exits gives up a reference for each of its handles. */
  lemma CloseProcessHandlesExact(s: System, p: nat, o: int)
    requires s.Inv() && p < |s.tables|
    ensures var u := CloseProcessHandles(s, p);
            && u.Inv() && u.Elsewhere(o) == s.Elsewhere(o)
            && (forall i :: EntryAt(u, p, i).Empty?)
            && (forall q: nat, i :: q != p ==> EntryAt(u, q, i) == EntryAt(s, q, i))
  {
    hide Total, Uses, AdjustAll, Table.Inv;
    if s.tables[p].Some? {
      var u := CloseProcessHandles(s, p);
      AdjustAllRef(s.(tables := s.tables[p := None]), s.tables[p].value.entries, -1, o);
      TableChanged(s, u, p);
      Balanced(s, u, p, o);
    }
  }

  /** What a duplication asks for, and what the object's access mapping and access check answer. */
  datatype Duplication = Duplication(
    src: nat, handle: nat, dst: nat, current: int, inherit: bool, sameAccess: bool, makeGlobal: bool, closeSource: bool,
    mapped: Rights, full: Rights, allowed: bool, granted: Rights, tableOk: bool, growOk: bool, closable: bool, shrinkOk: bool)

  /** The object that a duplication is about: a pseudo-handle stands for the current thread or process. */
  function SourceObject(s: System, d: Duplication): Option<int> {
    var e := GetHandle(s, d.src, d.handle);
    if IsPseudo(d.handle) then Some(d.current) else if e.Used? then Some(e.obj) else None
  }

  function SourceAccess(s: System, d: Duplication): Rights {
    var e := GetHandle(s, d.src, d.handle);
    if e.Used? then e.access else d.full
  }

  function WantedAccess(s: System, d: Duplication): Rights {
    if d.sameAccess then SourceAccess(s, d) else d.mapped
  }

  predicate MoreAccess(s: System, d: Duplication) {
    !(WantedAccess(s, d) <= SourceAccess(s, d))
  }

  /** The source handle itself becomes the duplicate. */
  predicate InPlace(s: System, d: Duplication) {
    var e := GetHandle(s, d.src, d.handle);
    !MoreAccess(s, d) && !d.makeGlobal && d.closeSource && d.src == d.dst && e.Used? && !e.closeProtect
  }

  function SetEntry(s: System, p: nat, i: nat, e: Entry): System
    requires p < |s.tables| && s.tables[p].Some? && i < |s.tables[p].value.entries|
  {
    var t := s.tables[p].value;
    s.(tables := s.tables[p := Some(t.(entries := t.entries[i := e]))])
  }

  function Duplicate(s: System, d: Duplication): Outcome
    requires s.Inv() && 0 < d.dst < |s.tables|
  {
    var source := SourceObject(s, d);
    if source.None? then Outcome(s, 0, InvalidHandle)
    else if MoreAccess(s, d) && !d.allowed then Outcome(s, 0, AccessDenied)
    else
      var access := if MoreAccess(s, d) then d.granted else WantedAccess(s, d);
      if d.makeGlobal then AllocGlobal(s, Used(source.value, access, false, false), d.tableOk, d.growOk)
      else if InPlace(s, d) then
        var e := GetHandle(s, d.src, d.handle);
        var (p, i) := Place(d.src, d.handle);
        Outcome(SetEntry(s, p, i, Used(e.obj, access, d.inherit, false)), d.handle, Success)
      else AllocEntry(s, d.dst, Used(source.value, access, d.inherit, false), d.growOk)
  }

  /** The request: duplicates a handle, and closes the source on demand whatever happened. */
  function DupHandle(s: System, d: Duplication): System
    requires s.Inv() && 0 < d.dst < |s.tables|
  {
    var r := Duplicate(s, d);
    if d.closeSource && (d.makeGlobal || d.src != d.dst || d.handle != r.handle)
    then CloseHandle(r.system, d.src, d.handle, d.closable, d.shrinkOk).system
    else r.system
  }

  /** Replacing an entry by one for the same object changes nothing else. */
  lemma SetEntryExact(s: System, p: nat, i: nat, e: Entry, o: int)
    requires s.Inv() && p < |s.tables| && s.tables[p].Some? && i < |s.tables[p].value.entries|
    requires e.Used? && Owns(s.tables[p].value.entries[i], e.obj)
    ensures var u := SetEntry(s, p, i, e);
            u.Inv() && u.Elsewhere(o) == s.Elsewhere(o) && EntryAt(u, p, i) == e && OnlyAt(s, u, p, i)
  {
    hide Total, Uses;
    var u := SetEntry(s, p, i, e);
    UsesUpdate(s.tables[p].value.entries, i, e, o);
    TableChanged(s, u, p);
    Balanced(s, u, p, o);
    OneTableChanged(s, u, p, i);
  }

  lemma PseudoEntry(s: System, p: nat, h: nat)
    requires s.Inv() && IsPseudo(h)
    ensures GetHandle(s, p, h).Empty?
  {
    PseudoHasNoEntry(h);
  }

  /** The flags that a mask selects take new values. */
  function WithFlags(e: Entry, mask: (bool, bool), flags: (bool, bool)): Entry
    requires e.Used?
  {
    e.(inherit := if mask.0 then flags.0 else e.inherit, closeProtect := if mask.1 then flags.1 else e.closeProtect)
  }

  /** Sets the reserved flags of a handle, inheritance and protection from closing. */
  function SetHandleFlags(s: System, p: nat, h: nat, mask: (bool, bool), flags: (bool, bool)): System {
    var e := GetHandle(s, p, h);
    if IsPseudo(h) || e.Empty? then s
    else
      var (q, i) := Place(p, h);
      SetEntry(s, q, i, WithFlags(e, mask, flags))
  }

  lemma SetHandleFlagsExact(s: System, p: nat, h: nat, mask: (bool, bool), flags: (bool, bool), o: int)
    requires s.Inv()
    ensures var u := SetHandleFlags(s, p, h, mask, flags);
            && u.Inv() && u.Elsewhere(o) == s.Elsewhere(o) && OnlyAt(s, u, Place(p, h).0, Place(p, h).1)
            && var (e, f) := (GetHandle(s, p, h), GetHandle(u, p, h));
               if e.Used? && !IsPseudo(h) then
                 && f.Used? && f.obj == e.obj && f.access == e.access
                 && (mask.0 ==> f.inherit == flags.0) && (mask.1 ==> f.closeProtect == flags.1)
                 && (!mask.0 ==> f.inherit == e.inherit) && (!mask.1 ==> f.closeProtect == e.closeProtect)
               else u == s
  {
    hide Place, Total, Table.Inv;
    var e := GetHandle(s, p, h);
    if e.Used? && !IsPseudo(h) {
      var (q, i) := Place(p, h);
      SetEntryExact(s, q, i, WithFlags(e, mask, flags), o);
    }
  }

  /** The access rights of a duplicate: the source's, or those asked for if the source has them, or those that the access
      check granted. */
  ghost predicate RightAccess(s: System, d: Duplication, access: Rights) {
    var e := GetHandle(s, d.src, d.handle);
    var has := if e.Used? then e.access else d.full;
    if d.sameAccess then access == has
    else if d.mapped <= has then access == d.mapped
    else access == d.granted && d.allowed
  }

  /** The duplicate is a new entry in a table that must have room, or it takes the place of its source. */
  ghost predicate CanPlace(s: System, d: Duplication)
    requires 0 < d.dst < |s.tables|
  {
    if d.makeGlobal then Room(s.tables[0], d.growOk) || (s.tables[0].None? && d.tableOk)
    else InPlace(s, d) || Room(s.tables[d.dst], d.growOk)
  }

  /** A duplicate stands for the source's object, with the access it should have, and is inherited on demand. It can be made
      exactly if there is a source, no access is asked for that neither the source nor the check gives, and there is a
      place for it; no other entry changes. */
  lemma DuplicateExact(s: System, d: Duplication, o: int)
    requires s.Inv() && 0 < d.dst < |s.tables|
    ensures var r := Duplicate(s, d);
            && r.system.Inv() && r.system.Elsewhere(o) == s.Elsewhere(o) && |r.system.tables| == |s.tables|
            && (r.status == Success <==>
                SourceObject(s, d).Some? && (exists access :: RightAccess(s, d, access)) && CanPlace(s, d))
            && (r.status == Success ==>
                  var e := GetHandle(r.system, d.dst, r.handle);
                  && e.Used? && SourceObject(s, d) == Some(e.obj) && RightAccess(s, d, e.access)
                  && (e.inherit <==> d.inherit && !d.makeGlobal) && !e.closeProtect
                  && OnlyAt(s, r.system, Place(d.dst, r.handle).0, Place(d.dst, r.handle).1)
                  && (if InPlace(s, d) then d.src == d.dst && r.handle == d.handle
                      else EntryAt(s, Place(d.dst, r.handle).0, Place(d.dst, r.handle).1).Empty?))
            && (r.status != Success ==> r.handle == 0 && forall q: nat, k: int :: EntryAt(r.system, q, k) == EntryAt(s, q, k))
  {
    AccessExact(s, d);
    if IsPseudo(d.handle) {
      PseudoEntry(s, d.src, d.handle);
    }
    hide Total, OnlyAt, Table.Inv, AllocEntry, AllocGlobal, SourceAccess, WantedAccess, IsPseudo, Room, RightAccess, Obfuscate,
         HandleToIndex;
    var source := SourceObject(s, d);
    if source.Some? && (MoreAccess(s, d) ==> d.allowed) {
      var access := if MoreAccess(s, d) then d.granted else WantedAccess(s, d);
      if d.makeGlobal {
        GlobalHandle(s, Used(source.value, access, false, false), d.tableOk, d.growOk, o);
        GlobalPlace(s, Used(source.value, access, false, false), d);
        AllocTables(s, d, Used(source.value, access, false, false));
      } else if InPlace(s, d) {
        var e := GetHandle(s, d.src, d.handle);
        var (p, i) := Place(d.src, d.handle);
        SetEntryExact(s, p, i, Used(e.obj, access, d.inherit, false), o);
      } else {
        AllocHandle(s, d.dst, Used(source.value, access, d.inherit, false), d.growOk);
        LocalPlace(s, Used(source.value, access, d.inherit, false), d);
        AllocBalanced(s, d.dst, Used(source.value, access, d.inherit, false), d.growOk, o);
        AllocTables(s, d, Used(source.value, access, d.inherit, false));
      }
    }
  }

  lemma AccessExact(s: System, d: Duplication)
    ensures var access := if MoreAccess(s, d) then d.granted else WantedAccess(s, d);
            RightAccess(s, d, access) <==> (MoreAccess(s, d) ==> d.allowed)
    ensures (exists access :: RightAccess(s, d, access)) <==> (MoreAccess(s, d) ==> d.allowed)
  {
    hide Place;
    var access := if MoreAccess(s, d) then d.granted else WantedAccess(s, d);
    assert RightAccess(s, d, access) <==> (MoreAccess(s, d) ==> d.allowed);
  }

  lemma AllocTables(s: System, d: Duplication, e: Entry)
    requires s.Inv() && d.dst < |s.tables| && e.Used?
    ensures |AllocGlobal(s, e, d.tableOk, d.growOk).system.tables| == |s.tables|
    ensures |AllocEntry(s, d.dst, e, d.growOk).system.tables| == |s.tables|
  {
    hide Alloc;
    if s.tables[0].None? {
      NewTableCreated(s, 0, 0);
    }
  }

  /** A new global handle stands for the same entry in every process, and a new local handle for one of its table. */
  lemma GlobalPlace(s: System, e: Entry, d: Duplication)
    requires s.Inv() && e.Used?
    ensures var r := AllocGlobal(s, e, d.tableOk, d.growOk);
            r.status == Success ==> Place(d.dst, r.handle) == (0, HandleToIndex(Obfuscate(r.handle)))
  {
    hide Alloc, NewTable, Xor, HandleToIndex, Total, Table.Inv;
    if s.tables[0].Some? || d.tableOk {
      var u := if s.tables[0].None? then s.(tables := s.tables[0 := Some(NewTable(0))]) else s;
      if s.tables[0].None? {
        NewTableCreated(s, 0, 0);
      }
      AllocHandle(u, 0, e, d.growOk);
      AllocIndex(u, 0, e, d.growOk);
      var r := AllocEntry(u, 0, e, d.growOk);
      hide AllocEntry;
      if r.status == Success {
        LocalOrGlobal(HandleToIndex(r.handle));
      }
    }
  }

  lemma LocalPlace(s: System, e: Entry, d: Duplication)
    requires s.Inv() && e.Used? && d.dst < |s.tables|
    ensures var r := AllocEntry(s, d.dst, e, d.growOk);
            r.status == Success ==>
              && Place(d.dst, r.handle) == (d.dst, HandleToIndex(r.handle))
              && EntryAt(s, d.dst, HandleToIndex(r.handle)).Empty?
  {
    hide Alloc, Xor, HandleToIndex, Total, Table.Inv;
    AllocIndex(s, d.dst, e, d.growOk);
    var r := AllocEntry(s, d.dst, e, d.growOk);
    hide AllocEntry;
    if r.status == Success {
      LocalOrGlobal(HandleToIndex(r.handle));
    }
  }

  /** The request leaves the duplicate, and closes the source on demand if that can be closed, whether or not there is a
      duplicate; if the duplicate takes the place of its source there is nothing left to close. No other entry changes. */
  lemma DupHandleExact(s: System, d: Duplication)
    requires s.Inv() && 0 < d.dst < |s.tables|
    ensures var (r, u, e) := (Duplicate(s, d), DupHandle(s, d), GetHandle(s, d.src, d.handle));
            var closes := d.closeSource && !InPlace(s, d) && e.Used? && !e.closeProtect && d.closable;
            && (r.status == Success ==> GetHandle(u, d.dst, r.handle) == GetHandle(r.system, d.dst, r.handle))
            && (closes ==> GetHandle(u, d.src, d.handle).Empty?)
            && (forall q: nat, k: int :: EntryAt(u, q, k) != EntryAt(s, q, k) ==>
                  (closes && Place(d.src, d.handle) == (q, k)) || (r.status == Success && Place(d.dst, r.handle) == (q, k)))
  {
    hide Total, Place, Table.Inv, Duplicate, CloseHandle, Room, RightAccess, IsPseudo, MoreAccess;
    AccessExact(s, d);
    var r := Duplicate(s, d);
    DuplicateExact(s, d, 0);
    if IsPseudo(d.handle) {
      PseudoEntry(r.system, d.src, d.handle);
    }
    NullHandle(s, d.src);
    var (q, i) := Place(d.src, d.handle);
    if !InPlace(s, d) {
      assert EntryAt(r.system, q, i).Used? || EntryAt(s, q, i).Used? ==> EntryAt(r.system, q, i) == EntryAt(s, q, i);
      assert EntryAt(s, q, i).Used? ==> d.makeGlobal || d.src != d.dst || d.handle != r.handle;
    } else {
      assert DupHandle(s, d) == r.system;
    }
    CloseHandleExact(r.system, d.src, d.handle, d.closable, d.shrinkOk, 0);
    var u := DupHandle(s, d);
    forall q': nat, k: int | EntryAt(u, q', k) != EntryAt(s, q', k)
      ensures (u != r.system && Place(d.src, d.handle) == (q', k)) || (r.status == Success && Place(d.dst, r.handle) == (q', k))
    {
      assert EntryAt(u, q', k) != EntryAt(r.system, q', k) || EntryAt(r.system, q', k) != EntryAt(s, q', k);
    }
  }

  lemma NullHandle(s: System, p: nat)
    ensures GetHandle(s, p, 0).Empty?
  {
    hide IsGlobal;
    GlobalBits(0);
  }

  datatype Step =
    | Create(p: nat)
    | Fork(p: nat, parent: nat, shrinkOk: bool)
    | Open(p: nat, entry: Entry, growOk: bool)
    | OpenGlobal(entry: Entry, tableOk: bool, growOk: bool)
    | Shut(p: nat, handle: nat, closable: bool, shrinkOk: bool)
    | Dup(d: Duplication)
    | SetFlags(p: nat, handle: nat, mask: (bool, bool), flags: (bool, bool))
    | Exit(p: nat)

  /** What the callers of the server see to: processes exist, a table is created once, and a parent is alive. */
  predicate Enabled(s: System, step: Step) {
    match step
    case Create(p) => 0 < p < |s.tables| && s.tables[p].None?
    case Fork(p, parent, _) =>
      0 < p < |s.tables| && s.tables[p].None? && 0 < parent < |s.tables| && s.tables[parent].Some?
    case Open(p, e, _) => 0 < p < |s.tables| && e.Used?
    case OpenGlobal(e, _, _) => e.Used?
    case Shut(_, _, _, _) => true
    case SetFlags(_, _, _, _) => true
    case Dup(d) => 0 < d.dst < |s.tables|
    case Exit(p) => 0 < p < |s.tables|
  }

  function Apply(s: System, step: Step): System
    requires s.Inv()
  {
    if !Enabled(s, step) then s
    else
      match step
      case Create(p) => s.(tables := s.tables[p := Some(NewTable(0))])
      case Fork(p, parent, shrinkOk) => CopyTable(s, p, parent, shrinkOk)
      case Open(p, e, growOk) => AllocEntry(s, p, e, growOk).system
      case OpenGlobal(e, tableOk, growOk) => AllocGlobal(s, e, tableOk, growOk).system
      case Shut(p, h, closable, shrinkOk) => CloseHandle(s, p, h, closable, shrinkOk).system
      case Dup(d) => DupHandle(s, d)
      case SetFlags(p, h, mask, flags) => SetHandleFlags(s, p, h, mask, flags)
      case Exit(p) => CloseProcessHandles(s, p)
  }

  /** Every step keeps the tables right and the references that no handle owns. */
  lemma StepKeepsInv(s: System, step: Step, o: int)
    requires s.Inv()
    ensures Apply(s, step).Inv() && Apply(s, step).Elsewhere(o) == s.Elsewhere(o)
  {
    hide Total, Place, OnlyAt, Table.Inv, CopyTable, AllocEntry, AllocGlobal, CloseHandle, Duplicate, SetHandleFlags, CloseProcessHandles, NewTable;
    if Enabled(s, step) {
      match step
      case Create(p) =>
        NewTableCreated(s, p, o);
      case Fork(p, parent, shrinkOk) =>
        CopyTableExact(s, p, parent, shrinkOk, o);
      case Open(p, e, growOk) =>
        AllocHandle(s, p, e, growOk);
        AllocBalanced(s, p, e, growOk, o);
      case OpenGlobal(e, tableOk, growOk) =>
        GlobalHandle(s, e, tableOk, growOk, o);
      case Shut(p, h, closable, shrinkOk) =>
        CloseHandleExact(s, p, h, closable, shrinkOk, o);
      case Dup(d) =>
        DuplicateExact(s, d, o);
        CloseHandleExact(Duplicate(s, d).system, d.src, d.handle, d.closable, d.shrinkOk, o);
      case SetFlags(p, h, mask, flags) =>
        SetHandleFlagsExact(s, p, h, mask, flags, o);
      case Exit(p) =>
        CloseProcessHandlesExact(s, p, o);
    }
  }

  ghost function Run(s: System, steps: seq<Step>): (u: System)
    requires s.Inv()
    ensures u.Inv()
    decreases |steps|
  {
    if steps == [] then s else StepKeepsInv(s, steps[0], 0); Run(Apply(s, steps[0]), steps[1..])
  }

  /** A step that sets the flags of a handle, or ends the process whose table the handle is in. */
  predicate Unprotects(step: Step, p: nat, h: nat) {
    || (step.SetFlags? && Place(step.p, step.handle) == Place(p, h))
    || (step.Exit? && step.p == Place(p, h).0)
  }

  lemma StepKeepsProtected(s: System, step: Step, p: nat, h: nat)
    requires s.Inv() && GetHandle(s, p, h).Used? && GetHandle(s, p, h).closeProtect && !Unprotects(step, p, h)
    ensures GetHandle(Apply(s, step), p, h) == GetHandle(s, p, h)
  {
    hide Total, Place, Table.Inv, CopyTable, AllocEntry, AllocGlobal, CloseHandle, DupHandle, SetHandleFlags, CloseProcessHandles,
         NewTable, Inherited, Obfuscate, HandleToIndex;
    var (q, i) := Place(p, h);
    if Enabled(s, step) {
      match step
      case Create(p') =>
        NewTableCreated(s, p', 0);
        assert EntryAt(Apply(s, step), q, i) == EntryAt(s, q, i);
      case Fork(p', parent, shrinkOk) =>
        CopyTableExact(s, p', parent, shrinkOk, 0);
      case Open(p', e, growOk) =>
        AllocHandle(s, p', e, growOk);
        AllocIndex(s, p', e, growOk);
      case OpenGlobal(e, tableOk, growOk) =>
        GlobalHandle(s, e, tableOk, growOk, 0);
      case Shut(p', h', closable, shrinkOk) =>
        CloseHandleExact(s, p', h', closable, shrinkOk, 0);
      case Dup(d) =>
        KeepsProtected(s, d, p, h);
      case SetFlags(p', h', mask, flags) =>
        SetHandleFlagsExact(s, p', h', mask, flags, 0);
      case Exit(p') =>
        CloseProcessHandlesExact(s, p', 0);
    }
  }

  lemma KeepsProtected(s: System, d: Duplication, p: nat, h: nat)
    requires s.Inv() && 0 < d.dst < |s.tables| && GetHandle(s, p, h).Used? && GetHandle(s, p, h).closeProtect
    ensures GetHandle(DupHandle(s, d), p, h) == GetHandle(s, p, h)
  {
    hide Total, Place, Table.Inv, Duplicate, DupHandle, Room, RightAccess, CanPlace, MoreAccess;
    DuplicateExact(s, d, 0);
    DupHandleExact(s, d);
    var (q, i) := Place(p, h);
    assert !InPlace(s, d) || Place(d.src, d.handle) != (q, i);
    assert EntryAt(DupHandle(s, d), q, i) == EntryAt(s, q, i);
  }

  /** Over every run, a handle that is protected from closing stands for the same entry until its flags are set or its
      process ends. */
  lemma {:induction false} ProtectedStays(s: System, steps: seq<Step>, p: nat, h: nat)
    requires s.Inv() && GetHandle(s, p, h).Used? && GetHandle(s, p, h).closeProtect
    requires forall step :: step in steps ==> !Unprotects(step, p, h)
    ensures GetHandle(Run(s, steps), p, h) == GetHandle(s, p, h)
    decreases |steps|
  {
    hide Apply, GetHandle, System.Inv, Unprotects;
    if steps != [] {
      StepKeepsInv(s, steps[0], 0);
      StepKeepsProtected(s, steps[0], p, h);
      ProtectedStays(Apply(s, steps[0]), steps[1..], p, h);
    }
  }

  /** Over every run, the references to an object are those of its handles and those from elsewhere. */
  lemma {:induction false} RunConserves(s: System, steps: seq<Step>, o: int)
    requires s.Inv()
    ensures Run(s, steps).Elsewhere(o) == s.Elsewhere(o)
    decreases |steps|
  {
    hide Apply, System.Elsewhere, System.Inv;
    if steps != [] {
      StepKeepsInv(s, steps[0], o);
      RunConserves(Apply(s, steps[0]), steps[1..], o);
    }
  }

  /** Over every run, an object with a handle has a reference: it is not freed. */
  lemma HandleKeepsObject(s: System, steps: seq<Step>, p: nat, h: nat)
    requires s.Inv() && (forall o :: s.Elsewhere(o) >= 0)
    ensures var u := Run(s, steps);
            GetHandle(u, p, h).Used? ==> u.Ref(GetHandle(u, p, h).obj) > 0
  {
    hide Place, Table.Inv;
    var u := Run(s, steps);
    var e := GetHandle(u, p, h);
    if e.Used? {
      var (q, i) := Place(p, h);
      UsesPositive(u.tables[q].value.entries, i, e.obj);
      TotalAtLeast(u.tables, q, e.obj);
      RunConserves(s, steps, e.obj);
    }
  }
}
