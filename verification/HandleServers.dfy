/** The handle tables as the server updates them, entry by entry. */
module HandleServers {
  import opened HandleValues
  import opened Lists
  import opened Handles

  class HandleServer {
    var tables: seq<Option<Table>>   // the global table, then a table per process
    var refs: map<int, int>

    function State(): System
      reads this
    {
      System(tables, refs)
    }

    ghost predicate Valid()
      reads this
    {
      State().Inv()
    }

    constructor (processes: nat)
      ensures Valid() && State() == System(seq(processes + 1, _ => None), map[])
    {
      tables := seq(processes + 1, _ => None);
      refs := map[];
    }

    /** Finds the first free entry, starting where there may be one. */
    static method FindFree(t: Table) returns (i: nat)
      requires t.Inv()
      ensures i == FreeFrom(t.entries, t.free) && i <= t.count
    {
      i := t.free;
      while i < |t.entries| && t.entries[i].Used?
        invariant t.free <= i <= |t.entries| && FreeFrom(t.entries, i) == FreeFrom(t.entries, t.free)
      {
        i := i + 1;
      }
    }

    /** Grows a handle table. It fails exactly if there is no memory or the table is as large as it can be; otherwise
        there is room for more entries, and the entries stay where they are. */
    static method GrowHandleTable(t: Table, growOk: bool) returns (r: Option<Table>)
      requires t.Inv()
      ensures r.None? <==> !growOk || t.count == MAX_HANDLE_ENTRIES
      ensures r.Some? ==>
                && r.value.Inv() && r.value.entries == t.entries && r.value.free == t.free
                && t.count < r.value.count <= MAX_HANDLE_ENTRIES
                && (r.value.count == 2 * t.count || r.value.count == MAX_HANDLE_ENTRIES < 2 * t.count)
    {
      var count := if t.count * 2 < MAX_HANDLE_ENTRIES then t.count * 2 else MAX_HANDLE_ENTRIES;
      if count == t.count || !growOk {
        return None;
      }
      return Some(t.(count := count));
    }

    /** Allocates the first free entry in a handle table. */
    static method AllocTableEntry(t: Table, e: Entry, growOk: bool) returns (r: Option<(Table, nat)>)
      requires t.Inv()
      ensures r == Alloc(t, e, growOk)
    {
      var i := FindFree(t);
      var u := t;
      if i >= t.count {
        var grown := GrowHandleTable(t, growOk);
        if grown.None? {
          return None;
        }
        u := grown.value;
      }
      if i < |u.entries| {
        u := u.(entries := u.entries[i := e]);
      } else {
        u := u.(entries := u.entries + [e]);
      }
      return Some((u.(free := i + 1), i));
    }

    /** Allocates an entry for an object and takes a reference to it. */
    method AllocEntry(p: nat, e: Entry, growOk: bool) returns (handle: nat, status: Status)
      requires Valid() && p < |tables| && e.Used?
      modifies this
      ensures Valid() && Handles.AllocEntry(old(State()), p, e, growOk) == Outcome(State(), handle, status)
    {
      assert Handles.AllocEntry(State(), p, e, growOk).system.Inv() by {
        AllocHandle(State(), p, e, growOk);
      }
      hide Table.Inv, Alloc;
      if tables[p].None? {
        return 0, ProcessIsTerminating;
      }
      var r := AllocTableEntry(tables[p].value, e, growOk);
      if r.None? {
        return 0, InsufficientResources;
      }
      var (t, i) := r.value;
      tables := tables[p := Some(t)];
      refs := refs[e.obj := State().Ref(e.obj) + 1];
      return IndexToHandle(i), Success;
    }

    /** Attempts to shrink a table. */
    static method ShrinkHandleTable(t: Table, shrinkOk: bool) returns (u: Table)
      requires t.count > 0
      ensures u == Shrink(t, shrinkOk)
    {
      var last := |t.entries| - 1;
      assert t.entries[..|t.entries|] == t.entries;
      while last >= 0 && t.entries[last].Empty?
        invariant -1 <= last < |t.entries| && Trim(t.entries[..last + 1]) == Trim(t.entries)
      {
        assert t.entries[..last + 1][..last] == t.entries[..last];
        last := last - 1;
      }
      u := t.(entries := t.entries[..last + 1]);
      if last >= t.count / 4 || t.count < MIN_HANDLE_ENTRIES * 2 || !shrinkOk {
        return;
      }
      u := u.(count := t.count / 2);
    }

    /** Closes a handle and releases its object. */
    method CloseHandle(p: nat, h: nat, closable: bool, shrinkOk: bool) returns (status: Status)
      requires Valid()
      modifies this
      ensures Valid() && Handles.CloseHandle(old(State()), p, h, closable, shrinkOk) == Outcome(State(), h, status)
    {
      CloseHandleExact(State(), p, h, closable, shrinkOk, 0);
      hide OnlyAt, Place, Shrink, System.Elsewhere;
      var e := GetHandle(State(), p, h);
      if e.Empty? {
        return InvalidHandle;
      }
      if e.closeProtect || !closable {
        return NotClosable;
      }
      var (q, i) := Place(p, h);
      var t := tables[q].value;
      var wasLast := i == |t.entries| - 1;
      assert t.Inv();
      t := t.(entries := t.entries[i := Empty]);
      if i < t.free {
        t := t.(free := i);
      }
      if wasLast {
        t := ShrinkHandleTable(t, shrinkOk);
      }
      tables := tables[q := Some(t)];
      refs := refs[e.obj := State().Ref(e.obj) - 1];
      return Success;
    }
  
    /** Drops the entries that are not inherited and takes a reference for the others. */
    method InheritEntries(from: seq<Entry>) returns (entries: seq<Entry>)
      modifies this`refs
      ensures entries == InheritedEntries(from)
      ensures State() == AdjustAll(old(State()), entries, 1)
    {
      ghost var kept := InheritedEntries(from);
      ghost var before := State();
      entries := from;
      var i := 0;
      assert kept[..0] == [];
      while i < |entries|
        invariant 0 <= i <= |entries| == |kept|
        invariant entries[..i] == kept[..i] && entries[i..] == from[i..]
        invariant State() == AdjustAll(before, kept[..i], 1)
      {
        assert entries[i] == from[i] && kept[i] == Inherited(entries[i]) && kept[..i + 1][..i] == kept[..i];
        if entries[i].Used? {
          if entries[i].inherit {
            refs := refs[entries[i].obj := State().Ref(entries[i].obj) + 1];
          } else {
            entries := entries[i := Empty];
          }
        }
        i := i + 1;
      }
      assert entries == kept[..i] == kept;
    }

    /** Copies the handle table of the parent process. */
    method CopyHandleTable(p: nat, parent: nat, shrinkOk: bool)
      requires Valid() && p < |tables| && parent < |tables| && tables[p].None? && tables[parent].Some?
      modifies this
      ensures Valid() && State() == CopyTable(old(State()), p, parent, shrinkOk)
    {
      assert CopyTable(State(), p, parent, shrinkOk).Inv() by {
        CopyTableExact(State(), p, parent, shrinkOk, 0);
      }
      var from := tables[parent].value;
      assert from.Inv();
      hide Table.Inv, Trim, AdjustAll;
      var entries := InheritEntries(from.entries);
      var t := ShrinkHandleTable(NewTable(from.count).(entries := entries), shrinkOk);
      TrimAdjust(old(State()), entries, 1);
      AdjustAllTables(old(State()), tables[p := Some(t)], t.entries, 1);
      tables := tables[p := Some(t)];
    }

    /** Closes all the process handles and frees the handle table. */
    method CloseProcessHandles(p: nat)
      requires Valid() && p < |tables|
      modifies this
      ensures Valid() && State() == Handles.CloseProcessHandles(old(State()), p)
    {
      assert Handles.CloseProcessHandles(State(), p).Inv() by {
        CloseProcessHandlesExact(State(), p, 0);
      }
      hide Table.Inv;
      if tables[p].None? {
        return;
      }
      var entries := tables[p].value.entries;
      tables := tables[p := None];
      ghost var before := State();
      var i := 0;
      assert entries[..0] == [];
      while i < |entries|
        invariant 0 <= i <= |entries| && State() == AdjustAll(before, entries[..i], -1)
      {
        assert entries[..i + 1][..i] == entries[..i];
        if entries[i].Used? {
          refs := refs[entries[i].obj := State().Ref(entries[i].obj) - 1];
        }
        i := i + 1;
      }
      assert entries[..i] == entries;
    }
  }
}
