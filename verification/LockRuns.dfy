/** Runs of the lock lists: exactly when the Unix locks stay on the locked bytes. */
module LockRuns {
  import Lists
  import opened LockRanges
  import opened LinkedHoles
  import opened LockOrder
  import opened LockSpec
  import opened LockMirrors

  // ----- adding a lock -----

  lemma AddHolders(s: LockState, l: FileLock, inode: int, b: int)
    requires GoodLocks(s) && l.fd in s.inodes && l.WellFormed()
    ensures GoodLocks(AddLock(s, l))
    ensures HeldBeside(AddLock(s, l), {}, inode, b) <==> HeldBeside(s, {}, inode, b) || (inode == s.inodes[l.fd] && l.Has(b))
  {
    var t := AddLock(s, l);
    AddInodes(s, l);
    if HeldBeside(s, {}, inode, b) {
      var id :| id in s.locks && Inodes(s)[id] == inode && s.locks[id].Has(b);
      assert Inodes(t)[id] == inode && t.locks[id].Has(b);
    }
    if inode == s.inodes[l.fd] && l.Has(b) {
      assert Inodes(t)[s.next] == inode && t.locks[s.next].Has(b);
    }
    if HeldBeside(t, {}, inode, b) {
      var id :| id in t.locks && Inodes(t)[id] == inode && t.locks[id].Has(b);
      if id != s.next {
        assert Inodes(s)[id] == inode && s.locks[id].Has(b);
      }
    }
  }

  /** Adding a lock with its Unix lock keeps the mirror exact. */
  lemma AddMirror(s: LockState, l: FileLock)
    requires GoodLocks(s) && MirrorExact(s) && l.fd in s.inodes && l.WellFormed()
    ensures GoodLocks(AddLock(SetUnix(s, l), l)) && MirrorExact(AddLock(SetUnix(s, l), l))
  {
    hide HeldBeside;
    var u := SetUnix(s, l);
    var t := AddLock(u, l);
    AddInodes(u, l);
    forall inode, b
      ensures (inode, b) in t.unix <==> 0 <= b <= t.maxOffset && HeldBeside(t, {}, inode, b)
    {
      SameHolders(s, u, inode, b);
      AddHolders(u, l, inode, b);
    }
  }

  /** Without its Unix lock, exactly if there is nothing to be locked or other locks have it. */
  lemma AddUnset(s: LockState, l: FileLock)
    requires GoodLocks(s) && MirrorExact(s) && l.fd in s.inodes && l.WellFormed()
    ensures GoodLocks(AddLock(s, l))
    ensures MirrorExact(AddLock(s, l)) <==>
            forall b: Pos :: b <= s.maxOffset && l.Has(b) ==> HeldBeside(s, {}, s.inodes[l.fd], b)
  {
    hide HeldBeside;
    var t := AddLock(s, l);
    AddInodes(s, l);
    forall inode, b
      ensures HeldBeside(t, {}, inode, b) <==> HeldBeside(s, {}, inode, b) || (inode == s.inodes[l.fd] && l.Has(b))
    {
      AddHolders(s, l, inode, b);
    }
  }

  /** Where an exclusive lock may be added, no lock has any of its bytes. */
  lemma NoneHeld(s: LockState, l: FileLock, b: int)
    requires ListsAgree(s) && l.fd in s.inodes && l.WellFormed() && !l.shared && l.Has(b)
    requires AllLive(s, At(s.inodeLocks, s.inodes[l.fd]))
    requires var ids := At(s.inodeLocks, s.inodes[l.fd]); FirstBlocking(s, ids, l.fd, false, l.start, l.end) == |ids|
    ensures !HeldBeside(s, {}, s.inodes[l.fd], b)
  {
  }

  // ----- one step -----

  /** The lock that a step asks for. */
  function Asked(step: Step): FileLock
    requires step.LockFd?
  {
    FileLock(step.shared, step.start, EndPos(step.start, step.count), step.fd, step.process)
  }

  /** The lock that an unlock request finds, or none. */
  ghost function Found(s: LockState, fd: int, start: Pos, count: Pos): (r: set<int>)
    requires ListsAgree(s)
    ensures forall id :: id in r ==> id in s.locks
  {
    ListsLive(s, fd);
    var ids := At(s.fdLocks, fd);
    var k := FirstMatching(s, ids, start, EndPos(start, count));
    if k < |ids| then {ids[k]} else {}
  }

  /** No hole is taken out of a list while its link back is out of date. */
  ghost predicate LinksKept(s: LockState, step: Step)
    requires ListsAgree(s)
  {
    match step
    case LockFd(_, _, _, _, _, _, _, _) => true
    case UnlockFd(fd, start, count, _) => forall id :: id in Found(s, fd, start, count) ==> CleanRemoval(s, id)
    case ProcessExit(process, starved) =>
      ListsLive(s, process);
      ListedOnce(s.procLocks, Processes(s), process);
      CleanEach(s, At(s.procLocks, process), starved)
    case FdDestroy(fd, _) => CleanClose(s, fd)
  }

  /** Every Unix lock that is wanted is set, every buffer that is needed is there, and no byte is left behind. */
  ghost predicate Served(s: LockState, step: Step)
    requires ListsAgree(s)
  {
    match step
    case LockFd(_, _, _, _, shared, _, _, reply) =>
      Apply(s, step).1 == Done && NeedsUnix(s, Asked(step)) ==> shared || reply != BadFile
    case UnlockFd(fd, start, count, bufferOk) =>
      forall id :: id in Found(s, fd, start, count) ==> bufferOk || Alone(s, id) || Covered(s, id)
    case ProcessExit(process, starved) =>
      ListsLive(s, process);
      ListedOnce(s.procLocks, Processes(s), process);
      EachServed(s, At(s.procLocks, process), starved)
    case FdDestroy(fd, bufferOk) =>
      if bufferOk || AloneInHull(s, fd) then !exists b: Pos :: LeavesByte(s, fd, b)
      else !exists b: Pos :: OnlyByte(s, fd, b)
  }

  lemma LockMirror(s: LockState, step: Step)
    requires Inv(s) && MirrorExact(s) && step.LockFd?
    ensures GoodLocks(Apply(s, step).0) && (MirrorExact(Apply(s, step).0) <==> Served(s, step))
  {
    hide ListsOf, NoConflicts, HeldBeside, AddLock, SetUnix;
    if Apply(s, step).1 == Done {
      var l := Asked(step);
      ListsLive(s, s.inodes[l.fd]);
      if !NeedsUnix(s, l) || (step.reply == BadFile && !l.shared) {
        AddUnset(s, l);
        if NeedsUnix(s, l) {
          NoneHeld(s, l, l.start);
        }
      } else {
        AddMirror(s, l);
      }
    }
  }

  lemma UnlockMirror(s: LockState, step: Step)
    requires Inv(s) && MirrorExact(s) && step.UnlockFd? && LinksKept(s, step)
    ensures GoodLocks(Apply(s, step).0) && (MirrorExact(Apply(s, step).0) <==> Served(s, step))
  {
    hide ListsOf, NoConflicts, MirrorExact, RemoveLock, CleanRemoval, Alone, Covered;
    ListsLive(s, step.fd);
    var ids := At(s.fdLocks, step.fd);
    var k := FirstMatching(s, ids, step.start, EndPos(step.start, step.count));
    if k < |ids| {
      assert Found(s, step.fd, step.start, step.count) == {ids[k]};
      assert CleanRemoval(s, ids[k]);
      RemoveLockMirror(s, ids[k], step.bufferOk);
    }
  }

  /** As long as the links stay right, the mirror stays exact exactly if the step is served. */
  lemma StepMirror(s: LockState, step: Step)
    requires Inv(s) && MirrorExact(s) && LinksKept(s, step)
    ensures GoodLocks(Apply(s, step).0) && (MirrorExact(Apply(s, step).0) <==> Served(s, step))
  {
    hide ListsOf, NoConflicts, MirrorExact, CleanEach, EachServed, CleanClose, RemoveEach, AloneInHull, LeavesByte, OnlyByte;
    match step
    case LockFd(_, _, _, _, _, _, _, _) => LockMirror(s, step);
    case UnlockFd(_, _, _, _) => UnlockMirror(s, step);
    case ProcessExit(process, starved) =>
      ListsLive(s, process);
      ListedOnce(s.procLocks, Processes(s), process);
      RemoveEachMirror(s, At(s.procLocks, process), starved);
    case FdDestroy(fd, bufferOk) => FdDestroyMirror(s, fd, bufferOk);
  }

  // ----- runs -----

  lemma StartMirror(inodes: map<int, int>, maxOffset: Offset)
    ensures MirrorExact(Start(inodes, maxOffset))
  {
  }

  ghost predicate LinksKeptAlong(s: LockState, steps: seq<Step>)
    requires Inv(s)
    decreases |steps|
  {
    steps == [] ||
    (StepKeepsInv(s, steps[0]); LinksKept(s, steps[0]) && LinksKeptAlong(Apply(s, steps[0]).0, steps[1..]))
  }

  ghost predicate ServedAlong(s: LockState, steps: seq<Step>)
    requires Inv(s)
    decreases |steps|
  {
    steps == [] ||
    (StepKeepsInv(s, steps[0]); Served(s, steps[0]) && ServedAlong(Apply(s, steps[0]).0, steps[1..]))
  }

  /** The mirror is exact in every state of the run. */
  ghost predicate ExactAlong(s: LockState, steps: seq<Step>)
    requires Inv(s)
    decreases |steps|
  {
    && MirrorExact(s)
    && (steps == [] || (StepKeepsInv(s, steps[0]); ExactAlong(Apply(s, steps[0]).0, steps[1..])))
  }

  /** As long as the links stay right, the Unix locks are on exactly the locked bytes all along a run exactly if every
      step is served. */
  lemma {:induction false} MirrorAlong(s: LockState, steps: seq<Step>)
    requires Inv(s) && MirrorExact(s) && LinksKeptAlong(s, steps)
    ensures ExactAlong(s, steps) <==> ServedAlong(s, steps)
    decreases |steps|
  {
    hide MirrorExact, ListsOf, NoConflicts, LinksKept, Served, Apply;
    if steps != [] {
      StepKeepsInv(s, steps[0]);
      StepMirror(s, steps[0]);
      if MirrorExact(Apply(s, steps[0]).0) {
        MirrorAlong(Apply(s, steps[0]).0, steps[1..]);
      }
    }
  }

  /** So they are at the end of the run. */
  lemma {:induction false} ReachableMirror(s: LockState, steps: seq<Step>)
    requires Inv(s) && MirrorExact(s) && LinksKeptAlong(s, steps) && ServedAlong(s, steps)
    ensures MirrorExact(Run(s, steps))
    decreases |steps|
  {
    hide MirrorExact, ListsOf, NoConflicts, LinksKept, Served, Apply;
    if steps != [] {
      StepKeepsInv(s, steps[0]);
      StepMirror(s, steps[0]);
      ReachableMirror(Apply(s, steps[0]).0, steps[1..]);
    }
  }

  // ----- locks that are listed by where they start -----

  ghost predicate SortedIds(locks: map<int, FileLock>, ids: seq<int>) {
    forall i, j :: 0 <= i < j < |ids| && ids[i] in locks && ids[j] in locks ==> locks[ids[i]].start <= locks[ids[j]].start
  }

  /** On every inode the locks are listed in ascending order of their starts. */
  ghost predicate Sorted(s: LockState) {
    forall inode :: SortedIds(s.locks, At(s.inodeLocks, inode))
  }

  lemma {:induction false} WithoutSorted(locks: map<int, FileLock>, ids: seq<int>, gone: set<int>)
    requires SortedIds(locks, ids)
    ensures SortedIds(locks - gone, Without(ids, gone))
    decreases |ids|
  {
    if ids != [] {
      var rest := Without(ids[1..], gone);
      WithoutSorted(locks, ids[1..], gone);
      WithoutMembers(ids[1..], gone);
      forall j | 0 <= j < |rest| && ids[0] in locks && rest[j] in locks
        ensures locks[ids[0]].start <= locks[rest[j]].start
      {
        WithoutMember(ids[1..], gone, rest[j]);
      }
    }
  }

  lemma DropSorted(s: LockState, gone: set<int>)
    requires Sorted(s)
    ensures Sorted(DropLocks(s, gone))
  {
    var t := DropLocks(s, gone);
    forall inode
      ensures SortedIds(t.locks, At(t.inodeLocks, inode))
    {
      assert SortedIds(s.locks, At(s.inodeLocks, inode));
      WithoutSorted(s.locks, At(s.inodeLocks, inode), gone);
    }
  }

  lemma SortedArea(s: LockState, inode: int, start: Pos, end: Pos)
    requires ListsAgree(s) && Sorted(s)
    ensures CleanArea(s, inode, start, end)
  {
    hide ListsOf, CutAll, HoleLinks.WellLinked, EndBy;
    if start != end && start <= s.maxOffset {
      ListsLive(s, inode);
      assert SortedIds(s.locks, At(s.inodeLocks, inode));
      var order := AscendingClean(InodeLocks(s, inode), start, ClipEnd(end, s.maxOffset), POS_LIMIT);
    }
  }

  lemma RemoveSorted(s: LockState, id: int, bufferOk: bool)
    requires ListsAgree(s) && Sorted(s) && id in s.locks
    ensures CleanRemoval(s, id) && Sorted(RemoveLock(s, id, bufferOk))
  {
    hide ListsOf, CleanArea, DropLocks, AreaUnlocked;
    DropKeepsLists(s, {id});
    DropSorted(s, {id});
    SortedArea(DropLocks(s, {id}), s.inodes[s.locks[id].fd], s.locks[id].start, s.locks[id].end);
  }

  lemma {:induction false} EachSorted(s: LockState, ids: seq<int>, starved: set<int>)
    requires ListsAgree(s) && Sorted(s) && AllLive(s, ids) && Lists.NoRepeat(ids)
    ensures CleanEach(s, ids, starved) && Sorted(RemoveEach(s, ids, starved))
    decreases |ids|
  {
    hide ListsOf, CleanRemoval, RemoveLock, Sorted;
    if ids != [] {
      RemoveKeepsLists(s, ids, ids[0] !in starved);
      RemoveSorted(s, ids[0], ids[0] !in starved);
      EachSorted(RemoveLock(s, ids[0], ids[0] !in starved), ids[1..], starved);
    }
  }

  /** A new lock starts no earlier than the other locks on its file. */
  ghost predicate StartsLast(s: LockState, step: Step)
    requires GoodLocks(s)
  {
    step.LockFd? && step.fd in s.inodes ==>
      forall id :: id in s.locks && Inodes(s)[id] == s.inodes[step.fd] ==> s.locks[id].start <= step.start
  }

  /** Then the links stay right in every step. */
  lemma StepSorted(s: LockState, step: Step)
    requires Inv(s) && Sorted(s) && StartsLast(s, step)
    ensures LinksKept(s, step) && Sorted(Apply(s, step).0)
  {
    hide ListsOf, NoConflicts, CleanRemoval, RemoveLock, Sorted, AddLock, DropLocks, CleanArea, UnixBytes, CleanEach,
      RemoveEach, FdUnlocked;
    match step
    case LockFd(fd, _, _, _, _, _, _, _) =>
      if Apply(s, step).1 == Done {
        AddSorted(s, step);
        SortedIgnoresUnix(s, SetUnix(s, Asked(step)), Asked(step));
      }
    case UnlockFd(fd, start, count, bufferOk) =>
      forall id | id in Found(s, fd, start, count)
        ensures CleanRemoval(s, id) && Sorted(RemoveLock(s, id, bufferOk))
      {
        RemoveSorted(s, id, bufferOk);
      }
      FoundOne(s, step);
    case ProcessExit(process, starved) =>
      ListsLive(s, process);
      ListedOnce(s.procLocks, Processes(s), process);
      EachSorted(s, At(s.procLocks, process), starved);
    case FdDestroy(fd, bufferOk) =>
      DropKeepsLists(s, OnFd(s, fd));
      DropSorted(s, OnFd(s, fd));
      ListsLive(s, fd);
      var start, end := HullStart(s, At(s.fdLocks, fd)), HullEnd(s, At(s.fdLocks, fd));
      if start < end && fd in s.inodes {
        SortedArea(DropLocks(s, OnFd(s, fd)), s.inodes[fd], start, (end + 1) % POS_LIMIT);
      }
      UnlockSorted(DropLocks(s, OnFd(s, fd)), FdUnlocked(s, fd, bufferOk));
  }

  lemma UnlockSorted(s: LockState, bytes: iset<(int, int)>)
    requires Sorted(s)
    ensures Sorted(Unlock(s, bytes))
  {
  }

  lemma FoundOne(s: LockState, step: Step)
    requires ListsAgree(s) && step.UnlockFd?
    ensures var found := Found(s, step.fd, step.start, step.count);
            if found == {} then Apply(s, step).0 == s
            else exists id :: id in found && Apply(s, step).0 == RemoveLock(s, id, step.bufferOk)
  {
    hide RemoveLock, ListsOf;
    ListsLive(s, step.fd);
    var ids := At(s.fdLocks, step.fd);
    var k := FirstMatching(s, ids, step.start, EndPos(step.start, step.count));
    if k < |ids| {
      assert ids[k] in Found(s, step.fd, step.start, step.count);
      assert Apply(s, step).0 == RemoveLock(s, ids[k], step.bufferOk);
    }
  }

  lemma AddSorted(s: LockState, step: Step)
    requires ListsAgree(s) && Sorted(s) && step.LockFd? && StartsLast(s, step) && step.fd in s.inodes
    ensures Sorted(AddLock(s, Asked(step)))
  {
    hide ListsOf;
    var l := Asked(step);
    var t := AddLock(s, l);
    forall inode
      ensures SortedIds(t.locks, At(t.inodeLocks, inode))
    {
      var ids := At(s.inodeLocks, inode);
      assert SortedIds(s.locks, ids);
      forall k | 0 <= k < |ids|
        ensures ids[k] in s.locks && ids[k] < s.next && Inodes(s)[ids[k]] == inode
      {
        ListedOwner(s.inodeLocks, Inodes(s), inode, k);
      }
    }
  }

  lemma SortedIgnoresUnix(s: LockState, u: LockState, l: FileLock)
    requires l.fd in s.inodes && u == s.(unix := u.unix, writes := u.writes) && Sorted(AddLock(s, l))
    ensures Sorted(AddLock(u, l))
  {
  }

  ghost predicate StartsLastAlong(s: LockState, steps: seq<Step>)
    requires Inv(s)
    decreases |steps|
  {
    steps == [] ||
    (StepKeepsInv(s, steps[0]); StartsLast(s, steps[0]) && StartsLastAlong(Apply(s, steps[0]).0, steps[1..]))
  }

  /** The links stay right all along a run in which every new lock starts no earlier than the others on its file. */
  lemma {:induction false} SortedRun(s: LockState, steps: seq<Step>)
    requires Inv(s) && Sorted(s) && StartsLastAlong(s, steps)
    ensures LinksKeptAlong(s, steps)
    decreases |steps|
  {
    hide ListsOf, NoConflicts, LinksKept, StartsLast, Apply, Sorted;
    if steps != [] {
      StepKeepsInv(s, steps[0]);
      StepSorted(s, steps[0]);
      SortedRun(Apply(s, steps[0]).0, steps[1..]);
    }
  }
}
