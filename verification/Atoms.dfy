/**
 * Atom tables: what an atom table holds, as a sequence of slots, and what every operation does to it.
 * An atom is a slot number plus MIN_STR_ATOM; a name is found through a 16-bit hash of its upper-case
 * characters and compared in lower case.
 */
module Atoms {
  import opened Bits

  /** The case tables of the server. */
  datatype CaseMap = CaseMap(upper: WChar -> WChar, lower: WChar -> WChar) {
    function Upper(c: WChar): WChar { upper(c) }

    function Lower(c: WChar): WChar { lower(c) }

    /** Characters that are equal in lower case are equal in upper case. */
    ghost predicate Agrees() {
      forall c, d :: Lower(c) == Lower(d) ==> Upper(c) == Upper(d)
    }
  }

  const MIN_HASH_SIZE := 4
  const MAX_HASH_SIZE := 0x200
  const HASH_SIZE := 37
  const INITIAL_SLOTS := 64
  const MAX_ATOM_LEN := 255
  const MIN_STR_ATOM := 0xc000
  const MAX_ATOMS := 0x4000

  datatype Slot = Free | Used(entry: AtomEntry)

  datatype AtomEntry = AtomEntry(count: int, pinned: bool, hash: int, str: seq<WChar>)

  datatype Status = Success | NameInvalid | InvalidParameter | NoMemory | InvalidHandle | WasLocked | NameNotFound

  /** The comparison of names, in lower case. */
  predicate SameName(cm: CaseMap, s: seq<WChar>, t: seq<WChar>) {
    |s| == |t| && forall i :: 0 <= i < |s| ==> cm.Lower(s[i]) == cm.Lower(t[i])
  }

  /** Adds the upper-case character at a position to a 16-bit hash. */
  function Mix(hash: nat, c: WChar, position: nat): nat {
    Xor(hash, (c + position) % 0x10000)
  }

  /** The hash of a name, over its upper-case characters and their positions. */
  function HashOf(cm: CaseMap, s: seq<WChar>): nat {
    if s == [] then 0 else Mix(HashOf(cm, s[..|s| - 1]), cm.Upper(s[|s| - 1]), |s| - 1)
  }

  /** Names that compare equal have the same hash, if the case tables agree. */
  lemma {:induction false} SameNameSameHash(cm: CaseMap, s: seq<WChar>, t: seq<WChar>)
    requires cm.Agrees() && SameName(cm, s, t)
    ensures HashOf(cm, s) == HashOf(cm, t)
    decreases |s|
  {
    hide Mix;
    if s != [] {
      var n := |s| - 1;
      SameNameSameHash(cm, s[..n], t[..n]);
      assert cm.Lower(s[n]) == cm.Lower(t[n]);
    }
  }

  /** An atom table; the number of slots handed out so far is the last handle plus one. */
  datatype Table = Table(cm: CaseMap, size: int, capacity: int, slots: seq<Slot>) {
    predicate Live(i: int) {
      0 <= i < |slots| && slots[i].Used?
    }

    predicate SizeOk() {
      MIN_HASH_SIZE <= size <= MAX_HASH_SIZE
    }

    /** The hash chain of a name. */
    function Bucket(s: seq<WChar>): (h: int)
      requires SizeOk()
      ensures 0 <= h < size
    {
      HashOf(cm, s) % size
    }

    /** A slot holds this name. */
    predicate Holds(i: int, s: seq<WChar>) {
      Live(i) && SameName(cm, slots[i].entry.str, s)
    }

    /** A slot holds this name in the chain where the name is looked up. */
    predicate Matches(i: int, s: seq<WChar>)
      requires SizeOk()
    {
      Holds(i, s) && slots[i].entry.hash == Bucket(s)
    }

    ghost predicate SlotOk(i: int)
      requires SizeOk()
    {
      Live(i) ==>
        && slots[i].entry.count > 0
        && slots[i].entry.hash == Bucket(slots[i].entry.str)
        && 0 < |slots[i].entry.str| <= MAX_ATOM_LEN
    }

    /** No chain holds a name twice. */
    ghost predicate ChainsDistinct()
      requires SizeOk()
    {
      forall i, j, s :: Matches(i, s) && Matches(j, s) ==> i == j
    }

    /** What every operation keeps, whatever the case tables. */
    ghost predicate Inv() {
      && SizeOk() && INITIAL_SLOTS <= capacity <= MAX_ATOMS && |slots| <= capacity
      && (forall i :: SlotOk(i))
      && ChainsDistinct()
    }

    /** No two atoms have the same name. */
    ghost predicate NamesDistinct() {
      forall i, j, s :: Holds(i, s) && Holds(j, s) ==> i == j
    }

    /** An entry with this name is out of sight, in the chain of another hash value. */
    ghost predicate Hidden(s: seq<WChar>)
      requires SizeOk()
    {
      exists i :: Holds(i, s) && !Matches(i, s)
    }
  }

  function Start(cm: CaseMap, entriesCount: int): Table {
    Table(cm, if entriesCount < MIN_HASH_SIZE || entriesCount > MAX_HASH_SIZE then HASH_SIZE else entriesCount,
          INITIAL_SLOTS, [])
  }

  /** The first slot from i on that holds a name in its chain, or -1. */
  function FindFrom(t: Table, s: seq<WChar>, i: nat): (r: int)
    requires t.SizeOk() && i <= |t.slots|
    ensures r == -1 || (i <= r && t.Matches(r, s))
    ensures forall k :: i <= k && t.Matches(k, s) ==> r != -1 && r <= k
    decreases |t.slots| - i
  {
    if i == |t.slots| then -1 else if t.Matches(i, s) then i else FindFrom(t, s, i + 1)
  }

  /** Where a name is found, or -1. */
  function Find(t: Table, s: seq<WChar>): (r: int)
    requires t.SizeOk()
    ensures r == -1 || t.Matches(r, s)
    ensures forall k :: t.Matches(k, s) ==> r != -1 && r <= k
  {
    FindFrom(t, s, 0)
  }

  /** The lowest free slot from i on, or the first slot never handed out. */
  function FreeFrom(slots: seq<Slot>, i: nat): (r: int)
    requires i <= |slots|
    ensures i <= r <= |slots| && (r < |slots| ==> slots[r].Free?)
    ensures forall k :: i <= k < r ==> slots[k].Used?
    decreases |slots| - i
  {
    if i == |slots| || slots[i].Free? then i else FreeFrom(slots, i + 1)
  }

  function Put(slots: seq<Slot>, i: int, s: Slot): seq<Slot>
    requires 0 <= i <= |slots|
  {
    if i == |slots| then slots + [s] else slots[i := s]
  }

  datatype Outcome = Outcome(table: Table, atom: int, status: Status)

  function AtomOf(slot: int): int { MIN_STR_ATOM + slot }

  /** The new size of a full slot array, or the old one if it cannot grow. */
  function Grown(capacity: int): int {
    if capacity + capacity / 2 > MAX_ATOMS then MAX_ATOMS else capacity + capacity / 2
  }

  function AddAtom(t: Table, s: seq<WChar>, entryOk: bool, growOk: bool): Outcome
    requires t.SizeOk()
  {
    if s == [] then Outcome(t, 0, NameInvalid)
    else if |s| > MAX_ATOM_LEN then Outcome(t, 0, InvalidParameter)
    else
      var i := Find(t, s);
      if i != -1 then
        var e := t.slots[i].entry;
        Outcome(t.(slots := t.slots[i := Used(e.(count := e.count + 1))]), AtomOf(i), Success)
      else if !entryOk then Outcome(t, 0, NoMemory)
      else
        var f := FreeFrom(t.slots, 0);
        if f == t.capacity && !(growOk && Grown(f) > f) then Outcome(t, 0, NoMemory)
        else
          Outcome(t.(capacity := if f == t.capacity then Grown(f) else t.capacity,
                  slots := Put(t.slots, f, Used(AtomEntry(1, false, t.Bucket(s), s)))), AtomOf(f), Success)
  }

  function FindAtom(t: Table, s: seq<WChar>): Outcome
    requires t.SizeOk()
  {
    if s == [] then Outcome(t, 0, NameInvalid)
    else if |s| > MAX_ATOM_LEN then Outcome(t, 0, InvalidParameter)
    else if Find(t, s) == -1 then Outcome(t, 0, NameNotFound)
    else Outcome(t, AtomOf(Find(t, s)), Success)
  }

  function DeleteAtom(t: Table, atom: int, ifPinned: bool): Outcome {
    var i := atom - MIN_STR_ATOM;
    if !t.Live(i) then Outcome(t, atom, InvalidHandle)
    else
      var e := t.slots[i].entry;
      if e.pinned && !ifPinned then Outcome(t, atom, WasLocked)
      else
        Outcome(t.(slots := t.slots[i := if e.count == 1 then Free else Used(e.(count := e.count - 1))]),
                atom, Success)
  }

  function GrabAtom(t: Table, atom: int): Outcome {
    var i := atom - MIN_STR_ATOM;
    if atom < MIN_STR_ATOM then Outcome(t, atom, Success)
    else if !t.Live(i) then Outcome(t, atom, InvalidHandle)
    else
      var e := t.slots[i].entry;
      Outcome(t.(slots := t.slots[i := Used(e.(count := e.count + 1))]), atom, Success)
  }

  function PinAtom(t: Table, atom: int, pinned: bool): Outcome {
    var i := atom - MIN_STR_ATOM;
    if !t.Live(i) then Outcome(t, atom, InvalidHandle)
    else if !pinned then Outcome(t, atom, Success)
    else Outcome(t.(slots := t.slots[i := Used(t.slots[i].entry.(pinned := true))]), atom, Success)
  }

  function Emptied(s: Slot, ifPinned: bool): Slot {
    if s.Used? && (!s.entry.pinned || ifPinned) then Free else s
  }

  function EmptyTable(t: Table, ifPinned: bool): Table {
    t.(slots := seq(|t.slots|, i requires 0 <= i < |t.slots| => Emptied(t.slots[i], ifPinned)))
  }

  datatype Step =
    | Add(str: seq<WChar>, entryOk: bool, growOk: bool)
    | Lookup(str: seq<WChar>)
    | Delete(atom: int, ifPinned: bool)
    | Grab(atom: int)
    | Pin(atom: int, pinned: bool)
    | Empty(ifPinned: bool)

  function Apply(t: Table, step: Step): Table
    requires t.SizeOk()
  {
    match step
    case Add(str, entryOk, growOk) => AddAtom(t, str, entryOk, growOk).table
    case Lookup(str) => FindAtom(t, str).table
    case Delete(atom, ifPinned) => DeleteAtom(t, atom, ifPinned).table
    case Grab(atom) => GrabAtom(t, atom).table
    case Pin(atom, pinned) => PinAtom(t, atom, pinned).table
    case Empty(ifPinned) => EmptyTable(t, ifPinned)
  }

  /** A slot of u has the name and hash that it has in t. */
  predicate Kept(t: Table, u: Table, i: int) {
    u.Live(i) && t.Live(i) && u.slots[i].entry.str == t.slots[i].entry.str && u.slots[i].entry.hash == t.slots[i].entry.hash
  }

  /** Every slot of u was there in t, with the same name. */
  ghost predicate NothingNew(t: Table, u: Table) {
    u.cm == t.cm && u.size == t.size && forall i :: u.Live(i) ==> Kept(t, u, i) && u.slots[i].entry.count > 0
  }

  /** A step that adds no name keeps the invariant, and names that were distinct stay distinct. */
  lemma NothingNewKeepsInv(t: Table, u: Table)
    requires t.Inv() && NothingNew(t, u)
    requires INITIAL_SLOTS <= u.capacity <= MAX_ATOMS && |u.slots| <= u.capacity
    ensures u.Inv()
    ensures t.NamesDistinct() ==> u.NamesDistinct()
  {
    hide HashOf, SameName;
    forall i
      ensures u.SlotOk(i)
    {
      assert t.SlotOk(i);
      assert u.Live(i) ==> Kept(t, u, i);
    }
    forall i, s | u.Holds(i, s)
      ensures t.Holds(i, s)
    {
      assert Kept(t, u, i);
    }
    forall i, s | u.Matches(i, s)
      ensures t.Matches(i, s)
    {
      assert Kept(t, u, i);
    }
  }

  /** What a new entry does: nothing else changes. */
  ghost predicate IsAdded(t: Table, u: Table, f: int, s: seq<WChar>)
    requires t.SizeOk()
  {
    && u.cm == t.cm && u.size == t.size && !t.Live(f)
    && u.Live(f) && u.slots[f].entry == AtomEntry(1, false, t.Bucket(s), s)
    && forall i :: i != f ==> (u.Live(i) <==> t.Live(i)) && (u.Live(i) ==> u.slots[i] == t.slots[i])
  }

  /** Another slot that holds a name of the new entry already held the name that was added. */
  lemma AddedHolds(t: Table, u: Table, f: int, s: seq<WChar>, i: int, name: seq<WChar>)
    requires t.SizeOk() && IsAdded(t, u, f, s) && i != f && u.Holds(i, name)
    ensures t.Holds(i, name) && (u.Holds(f, name) ==> t.Holds(i, s))
    ensures u.Matches(i, name) ==> t.Matches(i, name)
    ensures u.Matches(i, name) && u.Matches(f, name) ==> t.Matches(i, s)
  {
    hide HashOf;
  }

  lemma AddedKeepsInv(t: Table, u: Table, f: int, s: seq<WChar>)
    requires t.Inv() && IsAdded(t, u, f, s) && Find(t, s) == -1 && 0 < |s| <= MAX_ATOM_LEN
    requires INITIAL_SLOTS <= u.capacity <= MAX_ATOMS && |u.slots| <= u.capacity
    ensures u.Inv()
  {
    hide HashOf, SameName;
    forall i
      ensures u.SlotOk(i)
    {
      assert t.SlotOk(i);
    }
    forall i, j, name | u.Matches(i, name) && u.Matches(j, name)
      ensures i == j
    {
      if i != f {
        AddedHolds(t, u, f, s, i, name);
      }
      if j != f {
        AddedHolds(t, u, f, s, j, name);
      }
    }
  }

  /** A new entry has a name of its own exactly if no entry with that name is hidden in another chain. */
  lemma AddedDistinct(t: Table, u: Table, f: int, s: seq<WChar>)
    requires t.Inv() && IsAdded(t, u, f, s) && Find(t, s) == -1 && t.NamesDistinct()
    ensures u.NamesDistinct() <==> !t.Hidden(s)
  {
    hide HashOf;
    assert u.Holds(f, s);
    forall i | t.Holds(i, s)
      ensures u.Holds(i, s) && i != f && t.Hidden(s)
    {
      assert !t.Matches(i, s);
    }
    if !t.Hidden(s) {
      forall i, j, name | u.Holds(i, name) && u.Holds(j, name)
        ensures i == j
      {
        if i != f {
          AddedHolds(t, u, f, s, i, name);
        }
        if j != f {
          AddedHolds(t, u, f, s, j, name);
        }
      }
    }
  }

  /** Adding a name puts a new entry in the table. */
  predicate AddsEntry(t: Table, s: seq<WChar>, entryOk: bool, growOk: bool)
    requires t.SizeOk()
  {
    Find(t, s) == -1 && AddAtom(t, s, entryOk, growOk).status == Success
  }

  lemma AddIsAdded(t: Table, s: seq<WChar>, entryOk: bool, growOk: bool)
    requires t.Inv() && AddsEntry(t, s, entryOk, growOk)
    ensures IsAdded(t, AddAtom(t, s, entryOk, growOk).table, FreeFrom(t.slots, 0), s)
    ensures 0 < |s| <= MAX_ATOM_LEN
    ensures AddAtom(t, s, entryOk, growOk).atom == AtomOf(FreeFrom(t.slots, 0))
  {
    hide HashOf, SameName, Find;
  }

  lemma AddCapacity(t: Table, s: seq<WChar>, entryOk: bool, growOk: bool)
    requires t.Inv()
    ensures var u := AddAtom(t, s, entryOk, growOk).table;
            INITIAL_SLOTS <= u.capacity <= MAX_ATOMS && |u.slots| <= u.capacity
  {
    hide HashOf, SameName, Find, Table.Bucket;
  }

  lemma AddCounts(t: Table, s: seq<WChar>, entryOk: bool, growOk: bool)
    requires t.Inv() && !AddsEntry(t, s, entryOk, growOk)
    ensures NothingNew(t, AddAtom(t, s, entryOk, growOk).table)
  {
    hide HashOf, SameName, Table.Bucket;
    var u := AddAtom(t, s, entryOk, growOk).table;
    forall i | u.Live(i)
      ensures Kept(t, u, i) && u.slots[i].entry.count > 0
    {
      assert t.SlotOk(i);
    }
  }

  /** Adding a name keeps the invariant, and keeps names distinct except where an equal name is hidden. */
  lemma AddExact(t: Table, s: seq<WChar>, entryOk: bool, growOk: bool)
    requires t.Inv()
    ensures var u := AddAtom(t, s, entryOk, growOk).table;
            u.Inv() && (t.NamesDistinct() ==> (u.NamesDistinct() <==> !(AddsEntry(t, s, entryOk, growOk) && t.Hidden(s))))
  {
    hide AddAtom, HashOf, SameName, IsAdded, NothingNew, Table.NamesDistinct, Table.Hidden;
    var u := AddAtom(t, s, entryOk, growOk).table;
    AddCapacity(t, s, entryOk, growOk);
    if AddsEntry(t, s, entryOk, growOk) {
      AddIsAdded(t, s, entryOk, growOk);
      AddedKeepsInv(t, u, FreeFrom(t.slots, 0), s);
      if t.NamesDistinct() {
        AddedDistinct(t, u, FreeFrom(t.slots, 0), s);
      }
    } else {
      AddCounts(t, s, entryOk, growOk);
      NothingNewKeepsInv(t, u);
    }
  }

  /** If the case tables agree, no entry is ever out of sight. */
  lemma NeverHidden(t: Table, s: seq<WChar>)
    requires t.Inv() && t.cm.Agrees()
    ensures !t.Hidden(s)
    ensures forall i :: t.Holds(i, s) <==> t.Matches(i, s)
  {
    hide HashOf;
    forall i | t.Holds(i, s)
      ensures t.Matches(i, s)
    {
      assert t.SlotOk(i);
      SameNameSameHash(t.cm, t.slots[i].entry.str, s);
    }
  }

  lemma OtherStepsAddNothing(t: Table, step: Step)
    requires t.Inv() && !step.Add?
    ensures NothingNew(t, Apply(t, step))
    ensures Apply(t, step).capacity == t.capacity && |Apply(t, step).slots| == |t.slots|
  {
    hide HashOf, SameName, Table.Bucket, Table.ChainsDistinct;
    var u := Apply(t, step);
    forall i | u.Live(i)
      ensures Kept(t, u, i) && u.slots[i].entry.count > 0
    {
      assert t.SlotOk(i);
    }
  }

  /** Every step keeps the invariant; names stay distinct unless an equal name is hidden from an addition. */
  lemma StepExact(t: Table, step: Step)
    requires t.Inv()
    ensures Apply(t, step).Inv() && Apply(t, step).cm == t.cm
    ensures t.NamesDistinct() ==>
              (Apply(t, step).NamesDistinct() <==>
               !(step.Add? && AddsEntry(t, step.str, step.entryOk, step.growOk) && t.Hidden(step.str)))
  {
    hide HashOf, SameName, Table.NamesDistinct, Table.Hidden;
    if step.Add? {
      AddExact(t, step.str, step.entryOk, step.growOk);
    } else {
      OtherStepsAddNothing(t, step);
      NothingNewKeepsInv(t, Apply(t, step));
    }
  }

  ghost function Run(t: Table, steps: seq<Step>): (u: Table)
    requires t.Inv()
    ensures u.Inv() && u.cm == t.cm
    decreases |steps|
  {
    if steps == [] then t else StepExact(t, steps[0]); Run(Apply(t, steps[0]), steps[1..])
  }

  /** Over every run of a table whose case tables agree, each name has at most one atom. */
  lemma {:induction false} RunKeepsNamesDistinct(t: Table, steps: seq<Step>)
    requires t.Inv() && t.cm.Agrees() && t.NamesDistinct()
    ensures Run(t, steps).NamesDistinct()
    decreases |steps|
  {
    hide Apply, HashOf, SameName, Table.NamesDistinct, Table.Hidden;
    if steps != [] {
      StepExact(t, steps[0]);
      if steps[0].Add? {
        NeverHidden(t, steps[0].str);
      }
      RunKeepsNamesDistinct(Apply(t, steps[0]), steps[1..]);
    }
  }

  /** Names that are equal in lower case have the same hash value in a table of this size. */
  ghost predicate OneChain(cm: CaseMap, size: int)
    requires size > 0
  {
    forall s, t :: SameName(cm, s, t) && 0 < |s| <= MAX_ATOM_LEN ==> HashOf(cm, s) % size == HashOf(cm, t) % size
  }

  lemma NotHidden(t: Table, s: seq<WChar>)
    requires t.Inv() && OneChain(t.cm, t.size)
    ensures !t.Hidden(s)
  {
    hide HashOf, SameName;
    forall i | t.Holds(i, s)
      ensures t.Matches(i, s)
    {
      assert t.SlotOk(i);
    }
  }

  lemma {:induction false} OneChainRun(t: Table, steps: seq<Step>)
    requires t.Inv() && OneChain(t.cm, t.size) && t.NamesDistinct()
    ensures Run(t, steps).NamesDistinct()
    decreases |steps|
  {
    hide Apply, HashOf, SameName, Table.NamesDistinct, Table.Hidden, OneChain;
    if steps != [] {
      StepExact(t, steps[0]);
      SizeStays(t, steps[0]);
      if steps[0].Add? {
        NotHidden(t, steps[0].str);
      }
      OneChainRun(Apply(t, steps[0]), steps[1..]);
    }
  }

  lemma SizeStays(t: Table, step: Step)
    requires t.SizeOk()
    ensures Apply(t, step).size == t.size
  {
  }

  lemma StartInv(cm: CaseMap, entriesCount: int)
    ensures var t := Start(cm, entriesCount); t.Inv() && t.NamesDistinct() && t.cm == cm
  {
  }

  /** Two names that compare equal and have different hash values get two atoms in a new table. */
  lemma TwoChains(cm: CaseMap, entriesCount: int, s: seq<WChar>, t: seq<WChar>)
    requires SameName(cm, s, t) && 0 < |s| <= MAX_ATOM_LEN && Start(cm, entriesCount).SizeOk()
    requires HashOf(cm, s) % Start(cm, entriesCount).size != HashOf(cm, t) % Start(cm, entriesCount).size
    ensures Start(cm, entriesCount).Inv()
    ensures !Run(Start(cm, entriesCount), [Add(s, true, true), Add(t, true, true)]).NamesDistinct()
  {
    hide HashOf, FindFrom;
    var start := Start(cm, entriesCount);
    StartInv(cm, entriesCount);
    AddExact(start, s, true, true);
    AddIsAdded(start, s, true, true);
    var u := AddAtom(start, s, true, true).table;
    assert u.slots == [Used(AtomEntry(1, false, start.Bucket(s), s))];
    assert u.Holds(0, t) && !u.Matches(0, t);
    assert Find(u, t) == -1;
    assert u.Hidden(t) && AddsEntry(u, t, true, true);
    AddExact(u, t, true, true);
    var steps := [Add(s, true, true), Add(t, true, true)];
    assert steps[1..] == [Add(t, true, true)] && steps[1..][1..] == [];
    assert Run(start, steps) == Run(u, steps[1..]);
  }

  /** Each name has at most one atom over every run of a new table exactly if names that are equal in lower case have the
      same hash value. */
  lemma NamesDistinctExactly(cm: CaseMap, entriesCount: int)
    ensures Start(cm, entriesCount).Inv()
    ensures (forall steps :: Run(Start(cm, entriesCount), steps).NamesDistinct()) <==>
            OneChain(cm, Start(cm, entriesCount).size)
  {
    hide HashOf, SameName, Table.NamesDistinct, Run, Table.Inv;
    StartInv(cm, entriesCount);
    var start := Start(cm, entriesCount);
    if OneChain(cm, start.size) {
      forall steps
        ensures Run(start, steps).NamesDistinct()
      {
        OneChainRun(start, steps);
      }
    } else {
      var s, t :| SameName(cm, s, t) && 0 < |s| <= MAX_ATOM_LEN && HashOf(cm, s) % start.size != HashOf(cm, t) % start.size;
      TwoChains(cm, entriesCount, s, t);
    }
  }

  /** Where a name matches decides where it is found. */
  lemma FindSame(t: Table, u: Table, s: seq<WChar>)
    requires t.SizeOk() && u.SizeOk() && forall i :: t.Matches(i, s) <==> u.Matches(i, s)
    ensures Find(t, s) == Find(u, s)
  {
    hide HashOf, SameName, FindFrom;
    assert Find(t, s) != -1 ==> t.Matches(Find(t, s), s);
    assert Find(u, s) != -1 ==> u.Matches(Find(u, s), s);
  }

  lemma FindIs(t: Table, s: seq<WChar>, i: int)
    requires t.Inv() && t.Matches(i, s)
    ensures Find(t, s) == i
  {
    hide HashOf, SameName, FindFrom;
    assert t.Matches(Find(t, s), s);
  }

  /** A name that has been added is found, at the atom that adding it returned. */
  lemma FindAfterAdd(t: Table, s: seq<WChar>, entryOk: bool, growOk: bool)
    requires t.Inv() && AddAtom(t, s, entryOk, growOk).status == Success
    ensures var o := AddAtom(t, s, entryOk, growOk);
            FindAtom(o.table, s) == Outcome(o.table, o.atom, Success)
  {
    var o := AddAtom(t, s, entryOk, growOk);
    AddExact(t, s, entryOk, growOk);
    hide HashOf, FindFrom;
    var i := o.atom - MIN_STR_ATOM;
    if AddsEntry(t, s, entryOk, growOk) {
      AddIsAdded(t, s, entryOk, growOk);
    }
    assert o.table.Matches(i, s);
    FindIs(o.table, s, i);
  }

  /** Over every run, an atom that is handed out or found is between 0xc000 and 0xffff. */
  lemma AtomInRange(t: Table, steps: seq<Step>, s: seq<WChar>, entryOk: bool, growOk: bool)
    requires t.Inv()
    ensures var u := Run(t, steps);
            && (AddAtom(u, s, entryOk, growOk).status == Success ==> 0xc000 <= AddAtom(u, s, entryOk, growOk).atom <= 0xffff)
            && (FindAtom(u, s).status == Success ==> 0xc000 <= FindAtom(u, s).atom <= 0xffff)
  {
    hide HashOf, SameName, FindFrom;
    var u := Run(t, steps);
    AddExact(u, s, entryOk, growOk);
    if AddAtom(u, s, entryOk, growOk).status == Success {
      FindAfterAdd(u, s, entryOk, growOk);
    }
  }

  /** Two tables hold the same atoms, names, counts and pins. */
  ghost predicate SameAtoms(t: Table, u: Table) {
    && u.cm == t.cm && u.size == t.size
    && forall i :: (u.Live(i) <==> t.Live(i)) && (u.Live(i) ==> u.slots[i] == t.slots[i])
  }

  lemma SameAtomsFind(t: Table, u: Table, s: seq<WChar>)
    requires t.SizeOk() && SameAtoms(t, u)
    ensures FindAtom(u, s) == FindAtom(t, s).(table := u)
  {
    hide HashOf, SameName;
    forall i
      ensures t.Matches(i, s) <==> u.Matches(i, s)
    {
    }
    FindSame(t, u, s);
  }

  /** Deleting the atom that adding a name returned undoes the addition. */
  lemma AddThenDelete(t: Table, s: seq<WChar>, entryOk: bool, growOk: bool)
    requires t.Inv() && AddAtom(t, s, entryOk, growOk).status == Success
    ensures var o := AddAtom(t, s, entryOk, growOk);
            SameAtoms(t, DeleteAtom(o.table, o.atom, true).table)
  {
    hide HashOf, SameName, FindFrom, Table.Bucket;
    var o := AddAtom(t, s, entryOk, growOk);
    var i := o.atom - MIN_STR_ATOM;
    if AddsEntry(t, s, entryOk, growOk) {
      AddIsAdded(t, s, entryOk, growOk);
    } else {
      assert t.SlotOk(i);
    }
  }

  /** A step that spares pinned atoms. */
  predicate SparesPinned(step: Step) {
    (step.Delete? ==> !step.ifPinned) && (step.Empty? ==> !step.ifPinned)
  }

  /** A slot holds a pinned atom with this name. */
  predicate Pinned(t: Table, i: int, name: seq<WChar>) {
    t.Live(i) && t.slots[i].entry.pinned && t.slots[i].entry.str == name
  }

  lemma StepKeepsPinned(t: Table, step: Step, i: int, name: seq<WChar>)
    requires t.Inv() && Pinned(t, i, name) && SparesPinned(step)
    ensures Pinned(Apply(t, step), i, name)
  {
    hide HashOf, SameName, Table.Bucket;
    if step.Add? && AddsEntry(t, step.str, step.entryOk, step.growOk) {
      AddIsAdded(t, step.str, step.entryOk, step.growOk);
    }
  }

  /** Over every run that spares pinned atoms, a pinned atom keeps its number and is found by its name. */
  lemma {:induction false} PinnedStays(t: Table, steps: seq<Step>, i: int, name: seq<WChar>)
    requires t.Inv() && Pinned(t, i, name) && forall step :: step in steps ==> SparesPinned(step)
    ensures Pinned(Run(t, steps), i, name) && Find(Run(t, steps), name) == i
    decreases |steps|
  {
    hide Apply, HashOf, Find, FindFrom;
    if steps == [] {
      assert t.SlotOk(i);
      assert t.Matches(i, name);
      FindIs(t, name, i);
    } else {
      StepExact(t, steps[0]);
      StepKeepsPinned(t, steps[0], i, name);
      PinnedStays(Apply(t, steps[0]), steps[1..], i, name);
    }
  }

  /** The deletions of an atom in a run. */
  function Deletions(steps: seq<Step>, atom: int): nat
    decreases |steps|
  {
    if steps == [] then 0
    else (if steps[0].Delete? && steps[0].atom == atom then 1 else 0) + Deletions(steps[1..], atom)
  }

  lemma StepKeepsReferences(t: Table, step: Step, i: int)
    requires t.Inv() && t.Live(i) && !step.Empty?
    requires t.slots[i].entry.count > Deletions([step], AtomOf(i))
    ensures Kept(t, Apply(t, step), i)
    ensures Apply(t, step).slots[i].entry.count >= t.slots[i].entry.count - Deletions([step], AtomOf(i))
  {
    hide HashOf, SameName, Table.Bucket;
    if step.Add? && AddsEntry(t, step.str, step.entryOk, step.growOk) {
      AddIsAdded(t, step.str, step.entryOk, step.growOk);
    }
  }

  /** Over every run that does not empty the table, an atom outlives fewer deletions than it has references. */
  lemma {:induction false} ReferencesHold(t: Table, steps: seq<Step>, i: int)
    requires t.Inv() && t.Live(i) && t.slots[i].entry.count > Deletions(steps, AtomOf(i))
    requires forall step :: step in steps ==> !step.Empty?
    ensures Kept(t, Run(t, steps), i)
    ensures Run(t, steps).slots[i].entry.count >= t.slots[i].entry.count - Deletions(steps, AtomOf(i))
    decreases |steps|
  {
    hide Apply, HashOf, SameName;
    if steps != [] {
      StepExact(t, steps[0]);
      assert [steps[0]][1..] == [];
      assert Deletions([steps[0]], AtomOf(i)) + Deletions(steps[1..], AtomOf(i)) == Deletions(steps, AtomOf(i));
      StepKeepsReferences(t, steps[0], i);
      ReferencesHold(Apply(t, steps[0]), steps[1..], i);
    }
  }

  // ----- what each operation does, atom by atom -----

  /** The references to an atom; there are none to one that is not in the table. */
  function References(t: Table, i: int): int {
    if t.Live(i) then t.slots[i].entry.count else 0
  }

  predicate IsPinned(t: Table, i: int) {
    t.Live(i) && t.slots[i].entry.pinned
  }

  /** The atoms that are in both tables have the same names. */
  ghost predicate SameNames(t: Table, u: Table) {
    forall i :: u.Live(i) && t.Live(i) ==> u.slots[i].entry.str == t.slots[i].entry.str
  }

  /** A name can be added exactly if its length is right and it is there already, or there is memory for an entry and a
      slot that is free, not yet handed out or to be had by making the table larger; then it has one reference more, and
      nothing else changes. */
  lemma AddCountsOne(t: Table, s: seq<WChar>, entryOk: bool, growOk: bool, i: int)
    requires t.Inv()
    ensures var o := AddAtom(t, s, entryOk, growOk);
            var free := (exists k :: 0 <= k < |t.slots| && t.slots[k].Free?) || |t.slots| < t.capacity;
            && (o.status == Success <==>
                0 < |s| <= MAX_ATOM_LEN
                && ((exists k :: t.Matches(k, s)) || (entryOk && (free || (growOk && t.capacity < MAX_ATOMS)))))
            && References(o.table, i) == References(t, i) + (if o.status == Success && AtomOf(i) == o.atom then 1 else 0)
            && (IsPinned(o.table, i) <==> IsPinned(t, i)) && (o.status == Success ==> o.table.Matches(o.atom - MIN_STR_ATOM, s))
            && SameNames(t, o.table)
  {
    hide HashOf, FindFrom, SameName;
    assert Find(t, s) != -1 <==> exists k :: t.Matches(k, s);
    if AddsEntry(t, s, entryOk, growOk) {
      AddIsAdded(t, s, entryOk, growOk);
      assert SameName(t.cm, s, s) by {
        SameAsItself(t.cm, s);
      }
    }
  }

  lemma SameAsItself(cm: CaseMap, s: seq<WChar>)
    ensures SameName(cm, s, s)
  {
  }

  /** A grab adds a reference to an atom that is in the table. */
  lemma GrabExact(t: Table, atom: int, i: int)
    ensures var o := GrabAtom(t, atom);
            && (o.status == Success <==> atom < MIN_STR_ATOM || t.Live(atom - MIN_STR_ATOM))
            && References(o.table, i) == References(t, i) + (if t.Live(i) && AtomOf(i) == atom then 1 else 0)
            && (o.table.Live(i) <==> t.Live(i)) && (IsPinned(o.table, i) <==> IsPinned(t, i)) && SameNames(t, o.table)
  {
  }

  /** A pin pins an atom that is in the table. */
  lemma PinExact(t: Table, atom: int, pinned: bool, i: int)
    ensures var o := PinAtom(t, atom, pinned);
            && (o.status == Success <==> t.Live(atom - MIN_STR_ATOM))
            && (IsPinned(o.table, i) <==> IsPinned(t, i) || (t.Live(i) && pinned && AtomOf(i) == atom))
            && References(o.table, i) == References(t, i) && (o.table.Live(i) <==> t.Live(i)) && SameNames(t, o.table)
  {
  }

  /** A deletion takes a reference away, unless the atom is pinned; without references it is gone. */
  lemma DeleteExact(t: Table, atom: int, ifPinned: bool, i: int)
    requires t.Inv()
    ensures var o := DeleteAtom(t, atom, ifPinned);
            && (o.status == InvalidHandle <==> !t.Live(atom - MIN_STR_ATOM))
            && (o.status == WasLocked <==> IsPinned(t, atom - MIN_STR_ATOM) && !ifPinned)
            && (o.status != InvalidHandle && o.status != WasLocked ==> o.status == Success)
            && References(o.table, i) == References(t, i) - (if o.status == Success && AtomOf(i) == atom then 1 else 0)
            && (o.table.Live(i) <==> References(o.table, i) > 0)
            && (o.table.Live(i) ==> (IsPinned(o.table, i) <==> IsPinned(t, i))) && SameNames(t, o.table)
  {
    hide HashOf, SameName, Table.Bucket, Table.ChainsDistinct;
    assert t.SlotOk(i);
  }

  /** Emptying the table leaves exactly the pinned atoms, or none. */
  lemma EmptyExact(t: Table, ifPinned: bool, i: int)
    ensures var u := EmptyTable(t, ifPinned);
            && (u.Live(i) <==> IsPinned(t, i) && !ifPinned)
            && (u.Live(i) ==> u.slots[i] == t.slots[i])
  {
  }

  /** After a grab an atom survives as many deletions as it had references before. */
  lemma GrabbedStays(t: Table, i: int, steps: seq<Step>)
    requires t.Inv() && t.Live(i) && Deletions(steps, AtomOf(i)) <= References(t, i)
    requires forall step :: step in steps ==> !step.Empty?
    ensures Run(t, [Grab(AtomOf(i))] + steps).Live(i)
    ensures Run(t, [Grab(AtomOf(i))] + steps).slots[i].entry.str == t.slots[i].entry.str
  {
    hide HashOf, SameName, Table.Bucket, Run;
    GrabExact(t, AtomOf(i), i);
    StepExact(t, Grab(AtomOf(i)));
    RunFirst(t, Grab(AtomOf(i)), steps);
    ReferencesHold(Apply(t, Grab(AtomOf(i))), steps, i);
  }

  /** After a pin an atom stays, and is found by its name, as long as pinned atoms are spared. */
  lemma PinnedFromThen(t: Table, i: int, steps: seq<Step>)
    requires t.Inv() && t.Live(i) && forall step :: step in steps ==> SparesPinned(step)
    ensures Find(Run(t, [Pin(AtomOf(i), true)] + steps), t.slots[i].entry.str) == i
  {
    hide HashOf, SameName, Table.Bucket, Run, Find;
    PinExact(t, AtomOf(i), true, i);
    StepExact(t, Pin(AtomOf(i), true));
    RunFirst(t, Pin(AtomOf(i), true), steps);
    PinnedStays(Apply(t, Pin(AtomOf(i), true)), steps, i, t.slots[i].entry.str);
  }

  lemma RunFirst(t: Table, step: Step, steps: seq<Step>)
    requires t.Inv()
    ensures Apply(t, step).Inv() && Run(t, [step] + steps) == Run(Apply(t, step), steps)
  {
    hide Apply, HashOf, SameName;
    StepExact(t, step);
    assert ([step] + steps)[1..] == steps;
  }

  // Capital I with a dot above, and the letters i and I, in the case tables of the server.
  const DOTTED_CAPITAL_I: WChar := 0x130
  const SMALL_I: WChar := 0x69
  const CAPITAL_I: WChar := 0x49

  /** The case tables of the server at these letters. */
  predicate HasDottedI(cm: CaseMap) {
    && cm.Lower(DOTTED_CAPITAL_I) == SMALL_I && cm.Lower(SMALL_I) == SMALL_I
    && cm.Upper(DOTTED_CAPITAL_I) == DOTTED_CAPITAL_I && cm.Upper(SMALL_I) == CAPITAL_I
  }

  lemma DottedIHash(cm: CaseMap)
    requires HasDottedI(cm)
    ensures HashOf(cm, [DOTTED_CAPITAL_I]) == DOTTED_CAPITAL_I && HashOf(cm, [SMALL_I]) == CAPITAL_I
  {
    hide Xor;
    assert [DOTTED_CAPITAL_I][..0] == [] && [SMALL_I][..0] == [];
    assert HashOf(cm, []) == 0;
    XorNothing(DOTTED_CAPITAL_I);
    XorNothing(CAPITAL_I);
  }

  /** With the server's case tables, two names that compare equal get two atoms. */
  lemma EqualNamesTwoAtoms(cm: CaseMap)
    requires HasDottedI(cm)
    ensures SameName(cm, [DOTTED_CAPITAL_I], [SMALL_I])
    ensures var t := AddAtom(Start(cm, HASH_SIZE), [DOTTED_CAPITAL_I], true, true).table;
            t.Inv() && t.NamesDistinct() && t.Hidden([SMALL_I]) &&
            AddAtom(t, [SMALL_I], true, true).status == Success &&
            !AddAtom(t, [SMALL_I], true, true).table.NamesDistinct()
  {
    hide HashOf;
    DottedIHash(cm);
    var start := Start(cm, HASH_SIZE);
    AddExact(start, [DOTTED_CAPITAL_I], true, true);
    var t := AddAtom(start, [DOTTED_CAPITAL_I], true, true).table;
    assert t.slots == [Used(AtomEntry(1, false, 8, [DOTTED_CAPITAL_I]))];
    assert t.Bucket([SMALL_I]) == 36;
    assert t.Holds(0, [SMALL_I]) && !t.Matches(0, [SMALL_I]);
    AddExact(t, [SMALL_I], true, true);
  }
}
