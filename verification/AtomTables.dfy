/** The atom table as the server keeps it: an array of slots, and a hash chain per hash value. */
module AtomTables {
  import opened Atoms
  import opened Bits
  import opened Lists

  /** A chain holds exactly the slots of its hash value, each once. */
  ghost predicate ChainOk(slots: seq<Slot>, chain: seq<int>, h: int) {
    && NoRepeat(chain)
    && (forall i :: i in chain <==> 0 <= i < |slots| && slots[i].Used? && slots[i].entry.hash == h)
  }

  ghost predicate ChainsOk(slots: seq<Slot>, chains: seq<seq<int>>) {
    forall h :: 0 <= h < |chains| ==> ChainOk(slots, chains[h], h)
  }

  /** Changing an entry but not its hash leaves the chains right. */
  lemma EntryChanged(slots: seq<Slot>, chains: seq<seq<int>>, i: int, e: AtomEntry)
    requires ChainsOk(slots, chains) && 0 <= i < |slots| && slots[i].Used? && e.hash == slots[i].entry.hash
    ensures ChainsOk(slots[i := Used(e)], chains)
  {
  }

  /** A new entry goes to the front of its chain. */
  lemma EntryLinked(slots: seq<Slot>, chains: seq<seq<int>>, i: int, e: AtomEntry)
    requires ChainsOk(slots, chains) && 0 <= i <= |slots| && (i < |slots| ==> slots[i].Free?) && 0 <= e.hash < |chains|
    ensures ChainsOk(Put(slots, i, Used(e)), chains[e.hash := [i] + chains[e.hash]])
  {
  }

  /** A freed entry leaves its chain. */
  lemma EntryUnlinked(slots: seq<Slot>, chains: seq<seq<int>>, i: int)
    requires ChainsOk(slots, chains) && 0 <= i < |slots| && slots[i].Used? && 0 <= slots[i].entry.hash < |chains|
    ensures var h := slots[i].entry.hash;
            ChainsOk(slots[i := Free], chains[h := Without(chains[h], i)])
  {
    hide NoRepeat, Without;
    var at := slots[i].entry.hash;
    var after := chains[at := Without(chains[at], i)];
    forall h | 0 <= h < |chains|
      ensures ChainOk(slots[i := Free], after[h], h)
    {
      assert ChainOk(slots, chains[h], h);
      WithoutNoRepeat(chains[h], i);
      assert h != at ==> i !in chains[h];
    }
  }

  class AtomTable {
    const cm: CaseMap
    const entriesCount: int
    var count: int               // allocated handles
    var handles: seq<Slot>       // the handles up to the last one in use
    var entries: seq<seq<int>>   // the hash chains, as lists of slots

    function State(): Table
      reads this
    {
      Table(cm, entriesCount, count, handles)
    }

    ghost predicate Valid()
      reads this
    {
      State().Inv() && |entries| == entriesCount && ChainsOk(handles, entries)
    }

    constructor (cm: CaseMap, entriesCount: int)
      ensures Valid() && State() == Start(cm, entriesCount) && State().NamesDistinct()
    {
      var n := if entriesCount < MIN_HASH_SIZE || entriesCount > MAX_HASH_SIZE then HASH_SIZE else entriesCount;
      this.cm, this.entriesCount, count := cm, n, INITIAL_SLOTS;
      entries := seq(n, _ => []);
      handles := [];
    }

    /** Computes the hash code for a string. */
    method AtomHash(str: seq<WChar>) returns (hash: int)
      requires State().SizeOk()
      ensures hash == State().Bucket(str)
    {
      hide Mix;
      var acc: nat := 0;
      var i := 0;
      assert str[..0] == [];
      while i < |str|
        invariant 0 <= i <= |str| && acc == HashOf(cm, str[..i])
      {
        assert str[..i + 1][..i] == str[..i];
        acc := Mix(acc, cm.Upper(str[i]), i);
        i := i + 1;
      }
      assert str[..i] == str;
      hash := acc % entriesCount;
    }

    /** Finds an entry in its hash chain: what a search of the whole table would find. */
    method FindAtomEntry(str: seq<WChar>, hash: int) returns (slot: int)
      requires Valid() && hash == State().Bucket(str)
      ensures slot == Find(State(), str)
    {
      hide HashOf, SameName, FindFrom;
      var chain := entries[hash];
      assert ChainOk(handles, chain, hash);
      var k := 0;
      while k < |chain|
        invariant 0 <= k <= |chain|
        invariant forall m :: 0 <= m < k ==> !State().Holds(chain[m], str)
      {
        assert chain[k] in chain;
        if SameName(cm, handles[chain[k]].entry.str, str) {
          FindIs(State(), str, chain[k]);
          return chain[k];
        }
        k := k + 1;
      }
      assert forall i :: State().Matches(i, str) ==> i in chain;
      slot := -1;
    }

    /** Finds the slot for a new entry and grows the handles if they are full; -1 if they cannot grow. */
    method AddAtomEntry(growOk: bool) returns (slot: int)
      requires Valid()
      modifies this`count
      ensures var f := FreeFrom(handles, 0);
              if f == old(count) then
                if growOk && Grown(f) > f then slot == f && count == Grown(f) else slot == -1 && count == old(count)
              else slot == f && count == old(count)
    {
      var i := 0;
      while i < |handles| && handles[i].Used?
        invariant 0 <= i <= |handles| && FreeFrom(handles, i) == FreeFrom(handles, 0)
      {
        i := i + 1;
      }
      if i == count {
        var newSize := count + count / 2;
        if newSize > MAX_ATOMS {
          newSize := MAX_ATOMS;
        }
        if !(newSize > count && growOk) {
          return -1;
        }
        count := newSize;
      }
      slot := i;
    }

    method Add(str: seq<WChar>, entryOk: bool, growOk: bool) returns (atom: int, status: Status)
      requires Valid()
      modifies this
      ensures Valid() && AddAtom(old(State()), str, entryOk, growOk) == Outcome(State(), atom, status)
    {
      hide HashOf, SameName, FindFrom, Find, FreeFrom, Grown, ChainsOk, Table.ChainsDistinct, Table.SlotOk;
      AddExact(State(), str, entryOk, growOk);
      var hash := AtomHash(str);
      if |str| == 0 {
        return 0, NameInvalid;
      }
      if |str| > MAX_ATOM_LEN {
        return 0, InvalidParameter;
      }
      var slot := FindAtomEntry(str, hash);
      if slot != -1 {
        var e := handles[slot].entry;
        EntryChanged(handles, entries, slot, e.(count := e.count + 1));
        handles := handles[slot := Used(e.(count := e.count + 1))];
        return AtomOf(slot), Success;
      }
      if !entryOk {
        return 0, NoMemory;
      }
      slot := AddAtomEntry(growOk);
      if slot == -1 {
        return 0, NoMemory;
      }
      var e := AtomEntry(1, false, hash, str);
      EntryLinked(handles, entries, slot, e);
      handles := Put(handles, slot, Used(e));
      entries := entries[hash := [slot] + entries[hash]];
      return AtomOf(slot), Success;
    }

    method FindByName(str: seq<WChar>) returns (atom: int, status: Status)
      requires Valid()
      ensures FindAtom(State(), str) == Outcome(State(), atom, status)
    {
      if |str| == 0 {
        return 0, NameInvalid;
      }
      if |str| > MAX_ATOM_LEN {
        return 0, InvalidParameter;
      }
      var hash := AtomHash(str);
      var slot := FindAtomEntry(str, hash);
      if slot == -1 {
        return 0, NameNotFound;
      }
      return AtomOf(slot), Success;
    }

    /** Frees an entry. */
    method Unlink(i: int)
      requires State().SizeOk() && |entries| == entriesCount && ChainsOk(handles, entries)
      requires State().Live(i) && State().SlotOk(i)
      modifies this`handles, this`entries
      ensures handles == old(handles)[i := Free] && |entries| == entriesCount && ChainsOk(handles, entries)
    {
      hide HashOf, ChainsOk, Without;
      var hash := handles[i].entry.hash;
      EntryUnlinked(handles, entries, i);
      entries := entries[hash := Without(entries[hash], i)];
      handles := handles[i := Free];
    }

    method DeleteByAtom(atom: int, ifPinned: bool) returns (status: Status)
      requires Valid()
      modifies this
      ensures Valid() && DeleteAtom(old(State()), atom, ifPinned) == Outcome(State(), atom, status)
    {
      hide HashOf, SameName, ChainsOk, Table.ChainsDistinct;
      StepExact(State(), Delete(atom, ifPinned));
      var i := atom - MIN_STR_ATOM;
      if !(0 <= i < |handles| && handles[i].Used?) {
        return InvalidHandle;
      }
      assert State().SlotOk(i);
      var e := handles[i].entry;
      if e.pinned && !ifPinned {
        return WasLocked;
      }
      if e.count - 1 == 0 {
        Unlink(i);
      } else {
        EntryChanged(handles, entries, i, e.(count := e.count - 1));
        handles := handles[i := Used(e.(count := e.count - 1))];
      }
      return Success;
    }

    method GrabByAtom(atom: int) returns (status: Status)
      requires Valid()
      modifies this`handles
      ensures Valid() && GrabAtom(old(State()), atom) == Outcome(State(), atom, status)
    {
      hide HashOf, SameName, ChainsOk, Table.ChainsDistinct, Table.SlotOk;
      StepExact(State(), Grab(atom));
      if atom < MIN_STR_ATOM {
        return Success;
      }
      var i := atom - MIN_STR_ATOM;
      if !(i < |handles| && handles[i].Used?) {
        return InvalidHandle;
      }
      var e := handles[i].entry;
      EntryChanged(handles, entries, i, e.(count := e.count + 1));
      handles := handles[i := Used(e.(count := e.count + 1))];
      return Success;
    }

    method SetAtomInformation(atom: int, pinned: bool) returns (status: Status)
      requires Valid()
      modifies this`handles
      ensures Valid() && PinAtom(old(State()), atom, pinned) == Outcome(State(), atom, status)
    {
      hide HashOf, SameName, ChainsOk, Table.ChainsDistinct, Table.SlotOk;
      StepExact(State(), Pin(atom, pinned));
      var i := atom - MIN_STR_ATOM;
      if !(0 <= i < |handles| && handles[i].Used?) {
        return InvalidHandle;
      }
      if pinned {
        EntryChanged(handles, entries, i, handles[i].entry.(pinned := true));
        handles := handles[i := Used(handles[i].entry.(pinned := true))];
      }
      return Success;
    }

    /** Frees every entry, pinned ones only on demand. */
    method EmptyAtomTable(ifPinned: bool)
      requires Valid()
      modifies this
      ensures Valid() && State() == EmptyTable(old(State()), ifPinned)
    {
      hide HashOf, SameName, ChainsOk, Table.ChainsDistinct;
      StepExact(State(), Empty(ifPinned));
      ghost var before := State();
      var i := 0;
      while i < |handles|
        invariant 0 <= i <= |handles| && count == before.capacity && |handles| == |before.slots|
        invariant State().SizeOk() && |entries| == entriesCount && ChainsOk(handles, entries)
        invariant handles[..i] == EmptyTable(before, ifPinned).slots[..i] && handles[i..] == before.slots[i..]
      {
        assert before.SlotOk(i) && handles[i] == before.slots[i];
        if handles[i].Used? && (!handles[i].entry.pinned || ifPinned) {
          Unlink(i);
        }
        i := i + 1;
      }
      assert handles[..i] == handles && EmptyTable(before, ifPinned).slots[..i] == EmptyTable(before, ifPinned).slots;
      assert State() == Apply(before, Empty(ifPinned));
    }
  }
}
