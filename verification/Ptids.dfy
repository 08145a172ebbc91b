/** Process and thread ids: slots of a growing array, with a list of freed ids linked through the slots. */
module Ptids {
  import opened Lists

  const PTID_OFFSET := 8

  /** The owners of the ids handed out so far, the freed ids, oldest first, and the size of the array. */
  datatype Ids = Ids(capacity: nat, owners: seq<Option<int>>, free: seq<nat>) {
    ghost predicate Inv() {
      && |owners| <= capacity && (capacity == 0 || capacity >= 64)
      && (forall i, j :: 0 <= i < j < |free| ==> free[i] != free[j])
      && (forall i: nat :: i in free <==> i < |owners| && owners[i].None?)
    }

    /** The owner of an id. */
    function Owner(id: nat): Option<int> {
      if PTID_OFFSET <= id < PTID_OFFSET + |owners| then owners[id - PTID_OFFSET] else None
    }

    /** Slots that were never handed out. */
    function Fresh(): int {
      capacity - |owners|
    }
  }

  function Grown(capacity: nat): nat {
    if capacity + capacity / 2 == 0 then 64 else capacity + capacity / 2
  }

  /** Gives an id to an owner: a slot never used, then the id freed first, then a slot of a larger array. */
  function Alloc(s: Ids, owner: int, growOk: bool): (Ids, nat) {
    if |s.owners| < s.capacity then (s.(owners := s.owners + [Some(owner)]), |s.owners| + PTID_OFFSET)
    else if s.free != [] && s.free[0] < |s.owners| then
      (s.(owners := s.owners[s.free[0] := Some(owner)], free := s.free[1..]), s.free[0] + PTID_OFFSET)
    else if growOk then (Ids(Grown(s.capacity), s.owners + [Some(owner)], s.free), |s.owners| + PTID_OFFSET)
    else (s, 0)
  }

  function Free(s: Ids, id: nat): Ids
    requires s.Owner(id).Some?
  {
    s.(owners := s.owners[id - PTID_OFFSET := None], free := s.free + [id - PTID_OFFSET])
  }

  /** The slots whose ids had owners and have none now. */
  ghost function FreedIds(s: Ids): set<nat> {
    set i: nat | i < |s.owners| && s.owners[i].None?
  }

  lemma FreedCount(s: Ids)
    requires s.Inv()
    ensures |FreedIds(s)| == |s.free| && (FreedIds(s) == {} <==> s.free == [])
  {
    Cardinality(s.free, FreedIds(s));
  }

  lemma {:induction false} Cardinality(s: seq<nat>, x: set<nat>)
    requires (forall i, j :: 0 <= i < j < |s| ==> s[i] != s[j]) && forall i :: i in x <==> i in s
    ensures |x| == |s|
    decreases |s|
  {
    if s == [] {
      assert x == {};
    } else {
      assert s == [s[0]] + s[1..];
      Cardinality(s[1..], x - {s[0]});
    }
  }

  /** A new id had no owner; it leads to its owner, and every other id to the owner it had. */
  lemma AllocExact(s: Ids, owner: int, growOk: bool)
    requires s.Inv()
    ensures var (u, id) := Alloc(s, owner, growOk);
            && u.Inv()
            && (id == 0 <==> !growOk && s.Fresh() == 0 && s.free == [])
            && (if id == 0 then u == s else id >= PTID_OFFSET && s.Owner(id).None? && u.Owner(id) == Some(owner))
            && (id != 0 ==> (id < PTID_OFFSET + |s.owners| <==> s.Fresh() == 0 && FreedIds(s) != {}))
            && (id != 0 && id >= PTID_OFFSET + |s.owners| ==> id == PTID_OFFSET + |s.owners|)
            && (forall k: nat :: k != id ==> u.Owner(k) == s.Owner(k))
  {
    var (u, id) := Alloc(s, owner, growOk);
    assert s.free != [] ==> s.free[0] in s.free;
    FreedCount(s);
    if u.free != s.free {
      TakesFreed(s, u);
    }
    if |u.owners| > |s.owners| {
      assert forall i: nat :: i in u.free <==> i < |s.owners| && s.owners[i].None?;
    }
  }

  /** The id that was freed first is no longer free. */
  lemma TakesFreed(s: Ids, u: Ids)
    requires s.Inv() && s.free != [] && u.free == s.free[1..]
    ensures s.free[0] in s.free && forall i: nat :: i in u.free <==> i in s.free && i != s.free[0]
  {
    assert s.free == [s.free[0]] + u.free;
  }

  lemma FreeExact(s: Ids, id: nat)
    requires s.Inv() && s.Owner(id).Some?
    ensures var u := Free(s, id);
            u.Inv() && u.Owner(id).None? && forall k: nat :: k != id ==> u.Owner(k) == s.Owner(k)
  {
  }

  datatype Step = New(owner: int, growOk: bool) | Release(id: nat)

  /** An id is freed once; freeing an id that has no owner is a mistake of the caller. */
  function Apply(s: Ids, step: Step): Ids {
    match step
    case New(owner, growOk) => Alloc(s, owner, growOk).0
    case Release(id) => if s.Owner(id).Some? then Free(s, id) else s
  }

  lemma StepKeepsInv(s: Ids, step: Step)
    requires s.Inv()
    ensures Apply(s, step).Inv()
  {
    hide Ids.Inv;
    match step
    case New(owner, growOk) =>
      AllocExact(s, owner, growOk);
    case Release(id) =>
      if s.Owner(id).Some? {
        FreeExact(s, id);
      }
  }

  ghost function Run(s: Ids, steps: seq<Step>): (u: Ids)
    requires s.Inv()
    ensures u.Inv()
    decreases |steps|
  {
    if steps == [] then s else StepKeepsInv(s, steps[0]); Run(Apply(s, steps[0]), steps[1..])
  }

  function News(steps: seq<Step>): nat
    decreases |steps|
  {
    if steps == [] then 0 else (if steps[0].New? then 1 else 0) + News(steps[1..])
  }

  /** Each allocation brings a freed id at most one place nearer to its next owner. */
  lemma StepKeepsWaiting(s: Ids, step: Step, i: nat, k: nat) returns (j: nat)
    requires s.Inv() && k < |s.free| && s.free[k] == i
    requires s.Fresh() + k >= News([step])
    ensures var u := Apply(s, step);
            j < |u.free| && u.free[j] == i && u.Fresh() + j >= s.Fresh() + k - News([step])
  {
    assert [step][1..] == [];
    assert s.free[0] in s.free;
    j := if step.New? && s.Fresh() == 0 then k - 1 else k;
  }

  /** Over every run, a freed id has no owner until every slot never used and every id freed before it is taken. */
  lemma {:induction false} ReusedLate(s: Ids, steps: seq<Step>, i: nat, k: nat)
    requires s.Inv() && k < |s.free| && s.free[k] == i
    requires s.Fresh() + k >= News(steps)
    ensures Run(s, steps).Owner(i + PTID_OFFSET).None?
    decreases |steps|
  {
    if steps == [] {
      assert i in s.free;
    } else {
      hide Apply, Ids.Inv;
      StepKeepsInv(s, steps[0]);
      assert [steps[0]][1..] == [];
      assert News([steps[0]]) + News(steps[1..]) == News(steps);
      var j := StepKeepsWaiting(s, steps[0], i, k);
      ReusedLate(Apply(s, steps[0]), steps[1..], i, j);
    }
  }

  /** Freed ids are taken in the order in which they were freed: the later one waits as long as the earlier one does. */
  lemma TakenInOrder(s: Ids, step: Step, k: nat, l: nat) returns (m: nat)
    requires s.Inv() && k < l < |s.free|
    ensures var u := Apply(s, step);
            && m < |u.free| && u.free[m] == s.free[l]
            && (u.Owner(s.free[k] + PTID_OFFSET).Some? || exists j :: 0 <= j < m && u.free[j] == s.free[k])
  {
    var u := Apply(s, step);
    assert s.free[0] in s.free && s.free[k] in s.free;
    m := if step.New? && s.Fresh() == 0 then l - 1 else l;
    var j := if step.New? && s.Fresh() == 0 then k - 1 else k;
    assert j >= 0 ==> u.free[j] == s.free[k];
  }

  /** The id has an owner at some time of the run. */
  ghost predicate EverOwned(s: Ids, steps: seq<Step>, id: nat)
    requires s.Inv()
    decreases |steps|
  {
    || s.Owner(id).Some?
    || (steps != [] && (StepKeepsInv(s, steps[0]); EverOwned(Apply(s, steps[0]), steps[1..], id)))
  }

  /** Over every run, an id gets an owner only after every id freed before it has had one. */
  lemma {:induction false} ReusedInOrder(s: Ids, steps: seq<Step>, k: nat, l: nat)
    requires s.Inv() && k < l < |s.free|
    ensures EverOwned(s, steps, s.free[l] + PTID_OFFSET) ==> EverOwned(s, steps, s.free[k] + PTID_OFFSET)
    decreases |steps|
  {
    assert s.free[l] in s.free;
    if steps != [] {
      hide Apply, Ids.Inv;
      StepKeepsInv(s, steps[0]);
      var u := Apply(s, steps[0]);
      var m := TakenInOrder(s, steps[0], k, l);
      if u.Owner(s.free[k] + PTID_OFFSET).None? {
        var j :| 0 <= j < m && u.free[j] == s.free[k];
        ReusedInOrder(u, steps[1..], j, m);
      }
    }
  }

  // ----- the order of reuse, by what is released when -----

  lemma {:induction false} OwnersGrow(s: Ids, steps: seq<Step>)
    requires s.Inv()
    ensures |s.owners| <= |Run(s, steps).owners|
    decreases |steps|
  {
    if steps != [] {
      StepKeepsInv(s, steps[0]);
      OwnersGrow(Apply(s, steps[0]), steps[1..]);
    }
  }

  lemma {:induction false} NeverOwned(s: Ids, steps: seq<Step>, id: nat)
    requires s.Inv() && !EverOwned(s, steps, id)
    ensures Run(s, steps).Owner(id).None?
    decreases |steps|
  {
    hide Apply, Ids.Inv;
    if steps != [] {
      StepKeepsInv(s, steps[0]);
      NeverOwned(Apply(s, steps[0]), steps[1..], id);
    }
  }

  /** Over every run: if `a` is released, then other things happen in which it gets no owner, and then `b` is released, `b`
      gets no owner before `a` does. */
  lemma FirstInFirstOut(s: Ids, a: nat, between: seq<Step>, b: nat, after: seq<Step>)
    requires s.Inv() && s.Owner(a).Some? && !EverOwned(Run(s, [Release(a)]), between, a)
    requires Run(Run(s, [Release(a)]), between).Owner(b).Some?
    ensures var u := Run(Run(Run(s, [Release(a)]), between), [Release(b)]);
            EverOwned(u, after, b) ==> EverOwned(u, after, a)
  {
    hide EverOwned;
    var s1 := Run(s, [Release(a)]);
    OneStep(s, Release(a));
    var s2 := Run(s1, between);
    OneStep(s2, Release(b));
    OwnersGrow(s1, between);
    NeverOwned(s1, between, a);
    var u := Run(s2, [Release(b)]);
    var k := PlaceOf(s2, a - PTID_OFFSET);
    assert u.free == s2.free + [b - PTID_OFFSET] && u.free[k] == s2.free[k];
    ReusedInOrder(u, after, k, |s2.free|);
  }

  lemma OneStep(s: Ids, step: Step)
    requires s.Inv()
    ensures Run(s, [step]) == Apply(s, step)
  {
    hide Apply, Ids.Inv;
    StepKeepsInv(s, step);
    assert [step][1..] == [];
    assert Run(Apply(s, step), []) == Apply(s, step);
  }

  lemma PlaceOf(s: Ids, i: nat) returns (k: nat)
    requires s.Inv() && i < |s.owners| && s.owners[i].None?
    ensures k < |s.free| && s.free[k] == i
  {
    assert i in s.free;
    k :| 0 <= k < |s.free| && s.free[k] == i;
  }

  /** Over every run: an id that has just been released gets no owner before all slots never used and all ids released
      before it and still free have been given away. */
  lemma ReleasedWaits(s: Ids, id: nat, steps: seq<Step>)
    requires s.Inv() && s.Owner(id).Some? && News(steps) <= s.Fresh() + |FreedIds(s)|
    ensures Run(Run(s, [Release(id)]), steps).Owner(id).None?
  {
    FreedCount(s);
    OneStep(s, Release(id));
    ReusedLate(Run(s, [Release(id)]), steps, id - PTID_OFFSET, |s.free|);
  }

  datatype PtidEntry = PtidEntry(ptr: Option<int>, next: nat)

  function Owners(entries: seq<PtidEntry>): (r: seq<Option<int>>)
    ensures |r| == |entries| && forall i :: 0 <= i < |entries| ==> r[i] == entries[i].ptr
  {
    seq(|entries|, i requires 0 <= i < |entries| => entries[i].ptr)
  }

  lemma OwnersUpdate(entries: seq<PtidEntry>, i: nat, e: PtidEntry)
    requires i < |entries|
    ensures Owners(entries[i := e]) == Owners(entries)[i := e.ptr]
    ensures e.ptr == entries[i].ptr ==> Owners(entries[i := e]) == Owners(entries)
  {
  }

  /** The freed ids are linked through their entries, from the first to the last. */
  ghost predicate Linked(entries: seq<PtidEntry>, free: seq<nat>, nextFree: nat, lastFree: nat) {
    && (forall k :: 0 <= k < |free| ==> free[k] < |entries|)
    && (if free == [] then nextFree == 0 && lastFree == 0
        else nextFree == free[0] + PTID_OFFSET && lastFree == free[|free| - 1] + PTID_OFFSET)
    && (forall k :: 0 <= k < |free| ==>
                      entries[free[k]].next == if k == |free| - 1 then 0 else free[k + 1] + PTID_OFFSET)
  }

  ghost predicate NotIn(i: nat, free: seq<nat>) {
    forall k :: 0 <= k < |free| ==> free[k] != i
  }

  lemma FirstNotIn(s: Ids)
    requires s.Inv() && s.free != []
    ensures NotIn(s.free[0], s.free[1..])
  {
  }

  lemma LinkedAppend(entries: seq<PtidEntry>, e: PtidEntry, free: seq<nat>, nextFree: nat, lastFree: nat)
    requires Linked(entries, free, nextFree, lastFree)
    ensures Linked(entries + [e], free, nextFree, lastFree)
  {
  }

  /** Taking the first freed id off the list leaves the others linked. */
  lemma LinkedPop(entries: seq<PtidEntry>, ptr: Option<int>, free: seq<nat>, nextFree: nat, lastFree: nat)
    requires Linked(entries, free, nextFree, lastFree) && free != [] && NotIn(free[0], free[1..])
    ensures var i := free[0];
            var next := entries[i].next;
            Linked(entries[i := entries[i].(ptr := ptr)], free[1..], next, if next == 0 then 0 else lastFree)
  {
    var i, rest := free[0], free[1..];
    assert entries[free[0]].next == if |free| == 1 then 0 else free[1] + PTID_OFFSET;
    var after := entries[i := entries[i].(ptr := ptr)];
    forall k | 0 <= k < |rest|
      ensures rest[k] < |after| && after[rest[k]].next == if k == |rest| - 1 then 0 else rest[k + 1] + PTID_OFFSET
    {
      assert rest[k] == free[k + 1] && rest[k] != i;
      assert entries[free[k + 1]].next == if k + 1 == |free| - 1 then 0 else free[k + 2] + PTID_OFFSET;
    }
  }

  /** No freed id but the last is the last. */
  ghost predicate LastOnce(free: seq<nat>) {
    forall k :: 0 <= k < |free| - 1 ==> free[k] != free[|free| - 1]
  }

  lemma LastNotBefore(s: Ids)
    requires s.Inv()
    ensures LastOnce(s.free)
  {
  }

  lemma OwnerNotIn(s: Ids, id: nat)
    requires s.Inv() && s.Owner(id).Some?
    ensures NotIn(id - PTID_OFFSET, s.free)
  {
  }

  /** A freed id is linked behind the last one. */
  lemma LinkedPush(entries: seq<PtidEntry>, i: nat, free: seq<nat>, nextFree: nat, lastFree: nat)
    requires Linked(entries, free, nextFree, lastFree) && i < |entries| && NotIn(i, free) && LastOnce(free)
    ensures lastFree != 0 <==> free != []
    ensures lastFree != 0 ==> PTID_OFFSET <= lastFree < PTID_OFFSET + |entries|
    ensures var freed := entries[i := PtidEntry(None, 0)];
            var j := lastFree - PTID_OFFSET;
            Linked(if lastFree != 0 then freed[j := freed[j].(next := i + PTID_OFFSET)] else freed, free + [i],
                   if lastFree != 0 then nextFree else i + PTID_OFFSET, i + PTID_OFFSET)
            && (lastFree != 0 ==> freed[j].ptr == entries[j].ptr)
  {
  }

  class PtidTable {
    var entries: seq<PtidEntry>   // the entries used so far
    var allocatedEntries: nat
    var nextFree: nat
    var lastFree: nat
    ghost var free: seq<nat>

    ghost function State(): Ids
      reads this
    {
      Ids(allocatedEntries, Owners(entries), free)
    }

    ghost predicate Valid()
      reads this
    {
      State().Inv() && Linked(entries, free, nextFree, lastFree)
    }

    constructor ()
      ensures Valid() && State() == Ids(0, [], [])
    {
      entries, allocatedEntries, nextFree, lastFree, free := [], 0, 0, 0, [];
    }

    /** The list is empty exactly if no id is free. */
    lemma FreeLinks()
      requires Valid()
      ensures nextFree == 0 <==> free == []
      ensures free != [] ==> nextFree == free[0] + PTID_OFFSET && free[0] < |entries|
    {
    }

    /** Allocates a new process or thread id. */
    method AllocPtid(ptr: int, growOk: bool) returns (id: nat)
      requires Valid()
      modifies this
      ensures Valid() && Alloc(old(State()), ptr, growOk) == (State(), id)
    {
      hide Ids.Inv, Linked, NotIn, Owners;
      assert Alloc(State(), ptr, growOk).0.Inv() by {
        AllocExact(State(), ptr, growOk);
      }
      FreeLinks();
      var added := PtidEntry(Some(ptr), 0);
      LinkedAppend(entries, added, free, nextFree, lastFree);
      if |entries| < allocatedEntries {
        id := |entries| + PTID_OFFSET;
        entries := entries + [added];
      } else if nextFree != 0 {
        id := nextFree;
        var i := id - PTID_OFFSET;
        FirstNotIn(State());
        LinkedPop(entries, Some(ptr), free, nextFree, lastFree);
        OwnersUpdate(entries, i, entries[i].(ptr := Some(ptr)));
        nextFree := entries[i].next;
        if nextFree == 0 {
          lastFree := 0;
        }
        entries := entries[i := entries[i].(ptr := Some(ptr))];
        free := free[1..];
      } else {
        var count := allocatedEntries + allocatedEntries / 2;
        if count == 0 {
          count := 64;
        }
        if !growOk {
          return 0;
        }
        allocatedEntries := count;
        id := |entries| + PTID_OFFSET;
        entries := entries + [added];
      }
      assert State() == Alloc(old(State()), ptr, growOk).0;
    }

    /** Frees a process or thread id, at the end of the list so that it is not reused too early. */
    method FreePtid(id: nat)
      requires Valid() && State().Owner(id).Some?
      modifies this
      ensures Valid() && State() == Free(old(State()), id)
    {
      hide Ids.Inv, Linked, NotIn, Owners;
      var i := id - PTID_OFFSET;
      FreeExact(State(), id);
      LastNotBefore(State());
      OwnerNotIn(State(), id);
      LinkedPush(entries, i, free, nextFree, lastFree);
      var freed := PtidEntry(None, 0);
      OwnersUpdate(entries, i, freed);
      entries := entries[i := freed];
      if lastFree != 0 {
        var j := lastFree - PTID_OFFSET;
        OwnersUpdate(entries, j, entries[j].(next := id));
        entries := entries[j := entries[j].(next := id)];
      } else {
        nextFree := id;
      }
      lastFree := id;
      free := free + [i];
    }

    /** Retrieves the owner of an id. */
    method GetPtidEntry(id: nat) returns (ptr: Option<int>)
      ensures ptr == State().Owner(id)
    {
      if id < PTID_OFFSET {
        return None;
      }
      if id - PTID_OFFSET >= |entries| {
        return None;
      }
      return entries[id - PTID_OFFSET].ptr;
    }
  }
}
