/** Runs of the lock lists: exactly when every locked byte keeps its Unix lock, whatever becomes of the others. */
module LockSafety {
  import Lists
  import opened LockRanges
  import opened LinkedHoles
  import opened LockedHoles
  import opened LockSpec
  import opened LockMirrors
  import opened LockRuns

  /** Every byte of a lock has a Unix lock, as far as Unix offsets go. */
  ghost predicate AllGuarded(s: LockState)
    requires GoodLocks(s)
  {
    forall inode, b :: 0 <= b <= s.maxOffset && HeldBeside(s, {}, inode, b) ==> (inode, b) in s.unix
  }

  /** No hole of the area stays that was to be taken out and then unlocks something. */
  ghost predicate SafeArea(s: LockState, inode: int, start: Pos, end: Pos)
    requires ListsAgree(s)
  {
    start != end && start <= s.maxOffset ==>
      !ReturnsAny(InodeLocks(s, inode), start, ClipEnd(end, s.maxOffset), s.maxOffset)
  }

  /** Then no byte of a lock is unlocked, with or without a buffer, and whatever holes are lost. */
  lemma AreaSafe(s: LockState, inode: int, start: Pos, end: Pos, bufferOk: bool, b: int)
    requires ListsAgree(s) && (end == 0 || start <= end) && SafeArea(s, inode, start, end)
    requires (inode, b) in AreaUnlocked(s, inode, start, end, bufferOk)
    ensures !HeldBeside(s, {}, inode, b)
  {
    hide ListsOf, HeldBeside, ReturnsAny, Locked, InodeLocks, UnlocksSome;
    InodeLocksOk(s, inode);
    UnlocksOnlyFree(InodeLocks(s, inode), Area(start, ClipEnd(end, s.maxOffset), s.maxOffset), b);
  }

  // ----- one step -----

  ghost predicate SafeRemoval(s: LockState, id: int)
    requires ListsAgree(s) && id in s.locks
  {
    DropKeepsLists(s, {id});
    SafeArea(DropLocks(s, {id}), s.inodes[s.locks[id].fd], s.locks[id].start, s.locks[id].end)
  }

  ghost predicate SafeEach(s: LockState, ids: seq<int>, starved: set<int>)
    requires ListsAgree(s) && AllLive(s, ids) && Lists.NoRepeat(ids)
    decreases |ids|
  {
    ids == [] ||
    (RemoveKeepsLists(s, ids, ids[0] !in starved);
     SafeRemoval(s, ids[0]) && SafeEach(RemoveLock(s, ids[0], ids[0] !in starved), ids[1..], starved))
  }

  ghost predicate SafeClose(s: LockState, fd: int)
    requires ListsAgree(s)
  {
    ListsLive(s, fd);
    DropKeepsLists(s, OnFd(s, fd));
    var start, end := HullStart(s, At(s.fdLocks, fd)), HullEnd(s, At(s.fdLocks, fd));
    start < end && fd in s.inodes ==> SafeArea(DropLocks(s, OnFd(s, fd)), s.inodes[fd], start, (end + 1) % POS_LIMIT)
  }

  /** In no area that the step searches does a hole stay that was to be taken out. */
  ghost predicate LinksSafe(s: LockState, step: Step)
    requires ListsAgree(s)
  {
    match step
    case LockFd(_, _, _, _, _, _, _, _) => true
    case UnlockFd(fd, start, count, _) => forall id :: id in Found(s, fd, start, count) ==> SafeRemoval(s, id)
    case ProcessExit(process, starved) =>
      ListsLive(s, process);
      ListedOnce(s.procLocks, Processes(s), process);
      SafeEach(s, At(s.procLocks, process), starved)
    case FdDestroy(fd, _) => SafeClose(s, fd)
  }

  /** A lock that is added gets its Unix lock, or there is one on all its bytes. */
  ghost predicate LockSet(s: LockState, step: Step)
    requires ListsAgree(s)
  {
    step.LockFd? && Apply(s, step).1 == Done && NeedsUnix(s, Asked(step)) && !step.shared && step.reply == BadFile ==>
      UnixBytes(s, Asked(step)) <= s.unix
  }

  lemma AddGuarded(s: LockState, l: FileLock)
    requires GoodLocks(s) && AllGuarded(s) && l.fd in s.inodes && l.WellFormed()
    ensures GoodLocks(AddLock(s, l)) && (AllGuarded(AddLock(s, l)) <==> UnixBytes(s, l) <= s.unix)
  {
    hide HeldBeside;
    var t := AddLock(s, l);
    AddInodes(s, l);
    forall inode, b
      ensures HeldBeside(t, {}, inode, b) <==> HeldBeside(s, {}, inode, b) || (inode == s.inodes[l.fd] && l.Has(b))
    {
      AddHolders(s, l, inode, b);
    }
  }

  lemma SetGuarded(s: LockState, l: FileLock)
    requires GoodLocks(s) && AllGuarded(s) && l.fd in s.inodes
    ensures GoodLocks(SetUnix(s, l)) && AllGuarded(SetUnix(s, l)) && UnixBytes(SetUnix(s, l), l) <= SetUnix(s, l).unix
  {
    hide HeldBeside;
    forall inode, b
      ensures HeldBeside(SetUnix(s, l), {}, inode, b) <==> HeldBeside(s, {}, inode, b)
    {
      SameHolders(s, SetUnix(s, l), inode, b);
    }
  }

  lemma LockGuarded(s: LockState, step: Step)
    requires Inv(s) && AllGuarded(s) && step.LockFd?
    ensures GoodLocks(Apply(s, step).0) && (AllGuarded(Apply(s, step).0) <==> LockSet(s, step))
  {
    hide ListsOf, NoConflicts, AllGuarded, FirstBlocking, AddLock, SetUnix;
    if Apply(s, step).1 == Done {
      var l := Asked(step);
      ListsLive(s, s.inodes[l.fd]);
      AddGuarded(s, l);
      SetGuarded(s, l);
      SetFields(s, l);
      AddGuarded(SetUnix(s, l), l);
    }
  }

  lemma SetFields(s: LockState, l: FileLock)
    requires l.fd in s.inodes
    ensures SetUnix(s, l).inodes == s.inodes
  {
  }

  /** Taking locks off the lists and unlocking only what no lock has keeps the others guarded. */
  lemma UnlockGuarded(s: LockState, gone: set<int>, bytes: iset<(int, int)>)
    requires ListsAgree(s) && AllGuarded(s) && ListsAgree(DropLocks(s, gone))
    requires forall inode, b :: (inode, b) in bytes ==> !HeldBeside(DropLocks(s, gone), {}, inode, b)
    ensures var t := Unlock(DropLocks(s, gone), bytes); GoodLocks(t) && AllGuarded(t)
  {
    hide ListsOf, HeldBeside, DropLocks;
    var d, t := DropLocks(s, gone), Unlock(DropLocks(s, gone), bytes);
    DropUnix(s, gone);
    forall inode, b | 0 <= b <= t.maxOffset && HeldBeside(t, {}, inode, b)
      ensures (inode, b) in t.unix
    {
      SameHolders(d, t, inode, b);
      DropHolders(s, gone, inode, b);
      HeldMonotonic(s, gone, inode, b);
    }
  }

  lemma DropUnix(s: LockState, gone: set<int>)
    ensures DropLocks(s, gone).unix == s.unix && DropLocks(s, gone).maxOffset == s.maxOffset
    ensures DropLocks(s, gone).inodes == s.inodes
  {
  }

  lemma RemoveGuarded(s: LockState, id: int, bufferOk: bool)
    requires ListsAgree(s) && AllGuarded(s) && id in s.locks && SafeRemoval(s, id)
    ensures GoodLocks(RemoveLock(s, id, bufferOk)) && AllGuarded(RemoveLock(s, id, bufferOk))
  {
    hide ListsOf, HeldBeside, DropLocks, AllGuarded, SafeArea, AreaUnlocked;
    var l, d := s.locks[id], DropLocks(s, {id});
    DropKeepsLists(s, {id});
    GoodLock(s, id);
    var bytes := AreaUnlocked(d, s.inodes[l.fd], l.start, l.end, bufferOk);
    forall inode, b | (inode, b) in bytes
      ensures !HeldBeside(d, {}, inode, b)
    {
      AreaInode(d, s.inodes[l.fd], l.start, l.end, bufferOk, inode, b);
      AreaSafe(d, s.inodes[l.fd], l.start, l.end, bufferOk, b);
    }
    UnlockGuarded(s, {id}, bytes);
  }

  lemma AreaInode(s: LockState, inode: int, start: Pos, end: Pos, bufferOk: bool, other: int, b: int)
    requires ListsAgree(s) && (other, b) in AreaUnlocked(s, inode, start, end, bufferOk)
    ensures other == inode
  {
  }

  lemma {:induction false} EachGuarded(s: LockState, ids: seq<int>, starved: set<int>)
    requires ListsAgree(s) && AllGuarded(s) && AllLive(s, ids) && Lists.NoRepeat(ids) && SafeEach(s, ids, starved)
    ensures GoodLocks(RemoveEach(s, ids, starved)) && AllGuarded(RemoveEach(s, ids, starved))
    decreases |ids|
  {
    hide ListsOf, RemoveLock, SafeRemoval, AllGuarded;
    if ids != [] {
      RemoveKeepsLists(s, ids, ids[0] !in starved);
      RemoveGuarded(s, ids[0], ids[0] !in starved);
      EachGuarded(RemoveLock(s, ids[0], ids[0] !in starved), ids[1..], starved);
    }
  }

  lemma CloseGuarded(s: LockState, fd: int, bufferOk: bool)
    requires ListsAgree(s) && AllGuarded(s) && SafeClose(s, fd)
    ensures var t := Unlock(DropLocks(s, OnFd(s, fd)), FdUnlocked(s, fd, bufferOk)); GoodLocks(t) && AllGuarded(t)
  {
    hide ListsOf, HeldBeside, DropLocks, AllGuarded, SafeArea, AreaUnlocked, OnFd, HullStart, HullEnd;
    ListsLive(s, fd);
    DropKeepsLists(s, OnFd(s, fd));
    var d := DropLocks(s, OnFd(s, fd));
    var start, end := HullStart(s, At(s.fdLocks, fd)), HullEnd(s, At(s.fdLocks, fd));
    forall inode, b | (inode, b) in FdUnlocked(s, fd, bufferOk)
      ensures !HeldBeside(d, {}, inode, b)
    {
      AreaInode(d, s.inodes[fd], start, (end + 1) % POS_LIMIT, bufferOk, inode, b);
      AreaSafe(d, s.inodes[fd], start, (end + 1) % POS_LIMIT, bufferOk, b);
    }
    UnlockGuarded(s, OnFd(s, fd), FdUnlocked(s, fd, bufferOk));
  }

  /** Every locked byte keeps its Unix lock in a step with safe links exactly if a lock that is added gets its own. */
  lemma StepGuarded(s: LockState, step: Step)
    requires Inv(s) && AllGuarded(s) && LinksSafe(s, step)
    ensures GoodLocks(Apply(s, step).0) && (AllGuarded(Apply(s, step).0) <==> LockSet(s, step))
  {
    hide ListsOf, NoConflicts, AllGuarded, SafeEach, SafeClose, RemoveEach, SafeRemoval, RemoveLock, FdUnlocked, DropLocks;
    match step
    case LockFd(_, _, _, _, _, _, _, _) => LockGuarded(s, step);
    case UnlockFd(fd, start, count, bufferOk) =>
      FoundOne(s, step);
      forall id | id in Found(s, fd, start, count)
        ensures GoodLocks(RemoveLock(s, id, bufferOk)) && AllGuarded(RemoveLock(s, id, bufferOk))
      {
        RemoveGuarded(s, id, bufferOk);
      }
    case ProcessExit(process, starved) =>
      ListsLive(s, process);
      ListedOnce(s.procLocks, Processes(s), process);
      EachGuarded(s, At(s.procLocks, process), starved);
    case FdDestroy(fd, bufferOk) => CloseGuarded(s, fd, bufferOk);
  }

  // ----- links that stay right are safe -----

  lemma CleanAreaSafe(s: LockState, inode: int, start: Pos, end: Pos)
    requires ListsAgree(s) && (end == 0 || start <= end) && CleanArea(s, inode, start, end)
    ensures SafeArea(s, inode, start, end)
  {
    hide ListsOf, ReturnsAny, InodeLocks, CutAll, Locked, HeldBeside;
    InodeLocksOk(s, inode);
    if start != end && start <= s.maxOffset {
      CleanIsSafe(InodeLocks(s, inode), Area(start, ClipEnd(end, s.maxOffset), s.maxOffset));
    }
  }

  lemma CleanRemovalSafe(s: LockState, id: int)
    requires ListsAgree(s) && id in s.locks && CleanRemoval(s, id)
    ensures SafeRemoval(s, id)
  {
    hide ListsOf, SafeArea, CleanArea, DropLocks;
    DropKeepsLists(s, {id});
    GoodLock(s, id);
    CleanAreaSafe(DropLocks(s, {id}), s.inodes[s.locks[id].fd], s.locks[id].start, s.locks[id].end);
  }

  lemma {:induction false} CleanEachSafe(s: LockState, ids: seq<int>, starved: set<int>)
    requires ListsAgree(s) && AllLive(s, ids) && Lists.NoRepeat(ids) && CleanEach(s, ids, starved)
    ensures SafeEach(s, ids, starved)
    decreases |ids|
  {
    hide ListsOf, RemoveLock, SafeRemoval, CleanRemoval;
    if ids != [] {
      RemoveKeepsLists(s, ids, ids[0] !in starved);
      CleanRemovalSafe(s, ids[0]);
      CleanEachSafe(RemoveLock(s, ids[0], ids[0] !in starved), ids[1..], starved);
    }
  }

  /** A step that takes out no hole over a stale link is safe. */
  lemma KeptIsSafe(s: LockState, step: Step)
    requires ListsAgree(s) && LinksKept(s, step)
    ensures LinksSafe(s, step)
  {
    hide ListsOf, SafeRemoval, CleanRemoval, SafeArea, CleanArea, DropLocks, OnFd, HullStart, HullEnd, SafeEach, CleanEach;
    match step
    case LockFd(_, _, _, _, _, _, _, _) =>
    case UnlockFd(fd, start, count, _) =>
      forall id | id in Found(s, fd, start, count)
        ensures SafeRemoval(s, id)
      {
        CleanRemovalSafe(s, id);
      }
    case ProcessExit(process, starved) =>
      ListsLive(s, process);
      ListedOnce(s.procLocks, Processes(s), process);
      CleanEachSafe(s, At(s.procLocks, process), starved);
    case FdDestroy(fd, _) =>
      ListsLive(s, fd);
      DropKeepsLists(s, OnFd(s, fd));
      var start, end := HullStart(s, At(s.fdLocks, fd)), HullEnd(s, At(s.fdLocks, fd));
      if start < end && fd in s.inodes {
        CleanAreaSafe(DropLocks(s, OnFd(s, fd)), s.inodes[fd], start, (end + 1) % POS_LIMIT);
      }
  }

  // ----- runs -----

  ghost predicate LinksSafeAlong(s: LockState, steps: seq<Step>)
    requires Inv(s)
    decreases |steps|
  {
    steps == [] ||
    (StepKeepsInv(s, steps[0]); LinksSafe(s, steps[0]) && LinksSafeAlong(Apply(s, steps[0]).0, steps[1..]))
  }

  ghost predicate LocksSetAlong(s: LockState, steps: seq<Step>)
    requires Inv(s)
    decreases |steps|
  {
    steps == [] ||
    (StepKeepsInv(s, steps[0]); LockSet(s, steps[0]) && LocksSetAlong(Apply(s, steps[0]).0, steps[1..]))
  }

  ghost predicate GuardedAlong(s: LockState, steps: seq<Step>)
    requires Inv(s)
    decreases |steps|
  {
    && AllGuarded(s)
    && (steps == [] || (StepKeepsInv(s, steps[0]); GuardedAlong(Apply(s, steps[0]).0, steps[1..])))
  }

  /** As long as no hole stays that was to be taken out, every locked byte has its Unix lock all along a run exactly if
      every lock that is added gets its own: missing buffers and lost holes do not matter. */
  lemma {:induction false} GuardedExactly(s: LockState, steps: seq<Step>)
    requires Inv(s) && AllGuarded(s) && LinksSafeAlong(s, steps)
    ensures GuardedAlong(s, steps) <==> LocksSetAlong(s, steps)
    decreases |steps|
  {
    hide AllGuarded, ListsOf, NoConflicts, LinksSafe, LockSet, Apply;
    if steps != [] {
      StepKeepsInv(s, steps[0]);
      StepGuarded(s, steps[0]);
      if AllGuarded(Apply(s, steps[0]).0) {
        GuardedExactly(Apply(s, steps[0]).0, steps[1..]);
      }
    }
  }

  /** So it is along every run in which each new lock starts no earlier than the others on its file. */
  lemma {:induction false} SortedSafe(s: LockState, steps: seq<Step>)
    requires Inv(s) && Sorted(s) && StartsLastAlong(s, steps)
    ensures LinksSafeAlong(s, steps)
    decreases |steps|
  {
    hide ListsOf, NoConflicts, LinksKept, LinksSafe, StartsLast, Apply, Sorted;
    if steps != [] {
      StepKeepsInv(s, steps[0]);
      StepSorted(s, steps[0]);
      KeptIsSafe(s, steps[0]);
      SortedSafe(Apply(s, steps[0]).0, steps[1..]);
    }
  }

  lemma StartGuarded(inodes: map<int, int>, maxOffset: Offset)
    ensures AllGuarded(Start(inodes, maxOffset)) && Sorted(Start(inodes, maxOffset))
  {
  }

  /** A run that starts without locks, and in which each new lock starts no earlier than the others on its file, keeps a
      Unix lock on every locked byte all along exactly if every lock gets its own. */
  lemma GuardedIfSorted(inodes: map<int, int>, maxOffset: Offset, steps: seq<Step>)
    requires StartsLastAlong(Start(inodes, maxOffset), steps)
    ensures GuardedAlong(Start(inodes, maxOffset), steps) <==> LocksSetAlong(Start(inodes, maxOffset), steps)
  {
    hide AllGuarded, Sorted, StartsLastAlong, GuardedAlong, LocksSetAlong, LinksSafeAlong;
    StartGuarded(inodes, maxOffset);
    SortedSafe(Start(inodes, maxOffset), steps);
    GuardedExactly(Start(inodes, maxOffset), steps);
  }
}
