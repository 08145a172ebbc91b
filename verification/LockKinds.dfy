/** Read and write locks among the Unix locks. */
module LockKinds {
  import Lists
  import opened LockRanges
  import opened LockSpec
  import opened LockMirrors
  import opened LockRuns

  /** Some lock of the kind has byte `b` of the inode. */
  ghost predicate HeldAs(s: LockState, shared: bool, inode: int, b: int)
    requires GoodLocks(s)
  {
    exists id :: id in s.locks && Inodes(s)[id] == inode && s.locks[id].shared == shared && s.locks[id].Has(b)
  }

  /** A byte with a Unix write lock belongs to an exclusive lock, and no shared lock has it. */
  ghost predicate KindsSound(s: LockState)
    requires GoodLocks(s)
  {
    forall inode, b :: (inode, b) in s.writes ==>
      (inode, b) in s.unix && HeldAs(s, false, inode, b) && !HeldAs(s, true, inode, b)
  }

  /** There are Unix write locks on exactly the bytes of the exclusive locks. */
  ghost predicate KindsExact(s: LockState)
    requires GoodLocks(s)
  {
    forall inode, b :: (inode, b) in s.writes <==> 0 <= b <= s.maxOffset && HeldAs(s, false, inode, b)
  }

  lemma HeldByKind(s: LockState, inode: int, b: int)
    requires GoodLocks(s)
    ensures HeldBeside(s, {}, inode, b) <==> HeldAs(s, false, inode, b) || HeldAs(s, true, inode, b)
  {
  }

  // ----- removing locks -----

  /** Locks go, and Unix locks with them, of both kinds alike. */
  ghost predicate Shrunk(s: LockState, t: LockState) {
    && t.inodes == s.inodes && t.maxOffset == s.maxOffset
    && (forall id :: id in t.locks ==> id in s.locks && t.locks[id] == s.locks[id])
    && t.unix <= s.unix && t.writes <= s.writes
    && (forall x :: x in s.writes && x in t.unix ==> x in t.writes)
    && (forall x :: x in t.writes && x in s.unix ==> x in t.unix)
  }

  lemma ShrunkKinds(s: LockState, t: LockState)
    requires GoodLocks(s) && GoodLocks(t) && Shrunk(s, t) && MirrorExact(s) && MirrorExact(t) && KindsSound(s)
    ensures KindsSound(t) && (KindsExact(s) ==> KindsExact(t))
  {
  }

  lemma UnlockShrinks(s: LockState, gone: set<int>, bytes: iset<(int, int)>)
    ensures Shrunk(s, Unlock(DropLocks(s, gone), bytes))
  {
  }

  lemma {:induction false} EachShrinks(s: LockState, ids: seq<int>, starved: set<int>)
    requires ListsAgree(s) && AllLive(s, ids) && Lists.NoRepeat(ids)
    ensures Shrunk(s, RemoveEach(s, ids, starved))
    decreases |ids|
  {
    hide ListsOf, AreaUnlocked, DropLocks;
    if ids != [] {
      var ok := ids[0] !in starved;
      RemoveKeepsLists(s, ids, ok);
      OneShrinks(s, ids[0], ok);
      EachShrinks(RemoveLock(s, ids[0], ok), ids[1..], starved);
    }
  }

  lemma OneShrinks(s: LockState, id: int, bufferOk: bool)
    requires ListsAgree(s) && id in s.locks
    ensures Shrunk(s, RemoveLock(s, id, bufferOk))
  {
  }

  lemma StepShrinks(s: LockState, step: Step)
    requires Inv(s) && !step.LockFd?
    ensures Shrunk(s, Apply(s, step).0)
  {
    hide ListsOf, NoConflicts, AreaUnlocked, DropLocks, Shrunk, RemoveLock, RemoveEach, FdUnlocked;
    match step
    case UnlockFd(fd, _, _, bufferOk) =>
      ListsLive(s, fd);
      UnlockShrinksNot(s);
      FoundOne(s, step);
      forall id | id in Found(s, fd, step.start, step.count)
        ensures Shrunk(s, RemoveLock(s, id, bufferOk))
      {
        OneShrinks(s, id, bufferOk);
      }
    case ProcessExit(process, starved) =>
      ListsLive(s, process);
      ListedOnce(s.procLocks, Processes(s), process);
      EachShrinks(s, At(s.procLocks, process), starved);
    case FdDestroy(fd, bufferOk) => UnlockShrinks(s, OnFd(s, fd), FdUnlocked(s, fd, bufferOk));
  }

  lemma UnlockShrinksNot(s: LockState)
    ensures Shrunk(s, s)
  {
  }

  // ----- adding a lock -----

  lemma AddHeldAs(s: LockState, l: FileLock, shared: bool, inode: int, b: int)
    requires GoodLocks(s) && l.fd in s.inodes && l.WellFormed()
    ensures GoodLocks(AddLock(s, l))
    ensures HeldAs(AddLock(s, l), shared, inode, b) <==>
            HeldAs(s, shared, inode, b) || (shared == l.shared && inode == s.inodes[l.fd] && l.Has(b))
  {
    var t := AddLock(s, l);
    AddInodes(s, l);
    if HeldAs(s, shared, inode, b) {
      var id :| id in s.locks && Inodes(s)[id] == inode && s.locks[id].shared == shared && s.locks[id].Has(b);
      assert Inodes(t)[id] == inode && t.locks[id].Has(b);
    }
    if shared == l.shared && inode == s.inodes[l.fd] && l.Has(b) {
      assert Inodes(t)[s.next] == inode && t.locks[s.next].Has(b);
    }
    if HeldAs(t, shared, inode, b) {
      var id :| id in t.locks && Inodes(t)[id] == inode && t.locks[id].shared == shared && t.locks[id].Has(b);
      if id != s.next {
        assert Inodes(s)[id] == inode && s.locks[id].Has(b);
      }
    }
  }

  lemma SameHeldAs(s: LockState, u: LockState, shared: bool, inode: int, b: int)
    requires GoodLocks(s) && GoodLocks(u) && s.locks == u.locks && s.inodes == u.inodes
    ensures HeldAs(s, shared, inode, b) <==> HeldAs(u, shared, inode, b)
  {
  }

  /** A shared lock is set over a byte of an exclusive lock, which then has a read lock only. */
  ghost predicate Downgrades(s: LockState, step: Step)
    requires Inv(s)
  {
    && step.LockFd? && step.shared && Apply(s, step).1 == Done
    && exists b: Pos :: b <= s.maxOffset && Asked(step).Has(b) && HeldAs(s, false, s.inodes[step.fd], b)
  }

  lemma SetKinds(s: LockState, l: FileLock)
    requires ListsAgree(s) && MirrorExact(s) && KindsSound(s) && l.fd in s.inodes && l.WellFormed()
    requires !l.shared ==> forall b :: l.Has(b) ==> !HeldBeside(s, {}, s.inodes[l.fd], b)
    ensures var t := AddLock(SetUnix(s, l), l);
            && GoodLocks(t) && KindsSound(t)
            && (KindsExact(s) ==>
                (KindsExact(t) <==>
                 !(l.shared && exists b: Pos :: b <= s.maxOffset && l.Has(b) && HeldAs(s, false, s.inodes[l.fd], b))))
  {
    hide HeldAs, HeldBeside, ListsOf, AddLock;
    var u := SetUnix(s, l);
    var t := AddLock(u, l);
    AddInodes(u, l);
    AddLocksOnly(u, l);
    forall inode, b
      ensures HeldBeside(s, {}, inode, b) <==> HeldAs(s, false, inode, b) || HeldAs(s, true, inode, b)
      ensures forall shared :: HeldAs(t, shared, inode, b) <==>
                HeldAs(s, shared, inode, b) || (shared == l.shared && inode == s.inodes[l.fd] && l.Has(b))
    {
      HeldByKind(s, inode, b);
      forall shared
        ensures HeldAs(t, shared, inode, b) <==>
                HeldAs(s, shared, inode, b) || (shared == l.shared && inode == s.inodes[l.fd] && l.Has(b))
      {
        SameHeldAs(s, u, shared, inode, b);
        AddHeldAs(u, l, shared, inode, b);
      }
    }
  }

  lemma AddLocksOnly(s: LockState, l: FileLock)
    requires l.fd in s.inodes
    ensures var t := AddLock(s, l);
            t.unix == s.unix && t.writes == s.writes && t.maxOffset == s.maxOffset && t.inodes == s.inodes
  {
  }

  /** A lock without any byte that can have a Unix lock changes no kind. */
  lemma UnsetKinds(s: LockState, l: FileLock)
    requires ListsAgree(s) && MirrorExact(s) && KindsSound(s) && l.fd in s.inodes && l.WellFormed() && !NeedsUnix(s, l)
    ensures GoodLocks(AddLock(s, l)) && KindsSound(AddLock(s, l)) && (KindsExact(s) ==> KindsExact(AddLock(s, l)))
  {
    hide HeldAs, HeldBeside, ListsOf, AddLock;
    var t := AddLock(s, l);
    AddInodes(s, l);
    AddLocksOnly(s, l);
    forall shared, inode, b
      ensures HeldAs(t, shared, inode, b) <==>
              HeldAs(s, shared, inode, b) || (shared == l.shared && inode == s.inodes[l.fd] && l.Has(b))
    {
      AddHeldAs(s, l, shared, inode, b);
    }
  }

  lemma LockKind(s: LockState, step: Step)
    requires Inv(s) && MirrorExact(s) && KindsSound(s) && step.LockFd? && Served(s, step)
    ensures GoodLocks(Apply(s, step).0) && KindsSound(Apply(s, step).0)
    ensures KindsExact(s) ==> (KindsExact(Apply(s, step).0) <==> !Downgrades(s, step))
  {
    hide ListsOf, NoConflicts, HeldAs, HeldBeside, AddLock, SetUnix, MirrorExact, KindsSound, KindsExact;
    if Apply(s, step).1 == Done {
      var l := Asked(step);
      ListsLive(s, s.inodes[l.fd]);
      if NeedsUnix(s, l) {
        if !l.shared {
          forall b | l.Has(b)
            ensures !HeldBeside(s, {}, s.inodes[l.fd], b)
          {
            NoneHeld(s, l, b);
          }
        }
        SetKinds(s, l);
      } else {
        UnsetKinds(s, l);
      }
    }
  }

  /** Along served steps a Unix write lock belongs to an exclusive lock alone, and the kinds stay exact unless a
      shared lock is set over an exclusive one. */
  lemma StepKinds(s: LockState, step: Step)
    requires Inv(s) && MirrorExact(s) && KindsSound(s) && LinksKept(s, step) && Served(s, step)
    ensures GoodLocks(Apply(s, step).0) && KindsSound(Apply(s, step).0)
    ensures KindsExact(s) ==> (KindsExact(Apply(s, step).0) <==> !Downgrades(s, step))
  {
    hide ListsOf, NoConflicts, MirrorExact, KindsSound, KindsExact, LinksKept, Served, Apply, Shrunk;
    StepMirror(s, step);
    if step.LockFd? {
      LockKind(s, step);
    } else {
      StepShrinks(s, step);
      ShrunkKinds(s, Apply(s, step).0);
    }
  }

  // ----- runs -----

  lemma StartKinds(inodes: map<int, int>, maxOffset: Offset)
    ensures KindsSound(Start(inodes, maxOffset)) && KindsExact(Start(inodes, maxOffset))
  {
  }

  ghost predicate KindsAlong(s: LockState, steps: seq<Step>)
    requires Inv(s)
    decreases |steps|
  {
    && KindsExact(s)
    && (steps == [] || (StepKeepsInv(s, steps[0]); KindsAlong(Apply(s, steps[0]).0, steps[1..])))
  }

  ghost predicate NoDowngrade(s: LockState, steps: seq<Step>)
    requires Inv(s)
    decreases |steps|
  {
    steps == [] ||
    (StepKeepsInv(s, steps[0]); !Downgrades(s, steps[0]) && NoDowngrade(Apply(s, steps[0]).0, steps[1..]))
  }

  /** In every state that a served run reaches, a byte with a Unix write lock belongs to an exclusive lock alone. */
  lemma {:induction false} ReachableKinds(s: LockState, steps: seq<Step>)
    requires Inv(s) && MirrorExact(s) && KindsSound(s) && LinksKeptAlong(s, steps) && ServedAlong(s, steps)
    ensures KindsSound(Run(s, steps))
    decreases |steps|
  {
    hide MirrorExact, ListsOf, NoConflicts, LinksKept, Served, Apply, KindsSound, KindsExact;
    if steps != [] {
      StepKeepsInv(s, steps[0]);
      StepMirror(s, steps[0]);
      StepKinds(s, steps[0]);
      ReachableKinds(Apply(s, steps[0]).0, steps[1..]);
    }
  }

  /** The write locks are on exactly the bytes of the exclusive locks all along a served run, exactly if no shared lock
      is ever set over an exclusive one. */
  lemma {:induction false} KindsAlongExact(s: LockState, steps: seq<Step>)
    requires Inv(s) && MirrorExact(s) && KindsSound(s) && KindsExact(s) && LinksKeptAlong(s, steps) && ServedAlong(s, steps)
    ensures KindsAlong(s, steps) <==> NoDowngrade(s, steps)
    decreases |steps|
  {
    hide MirrorExact, ListsOf, NoConflicts, LinksKept, Served, Apply, KindsSound, KindsExact, Downgrades;
    if steps != [] {
      StepKeepsInv(s, steps[0]);
      StepMirror(s, steps[0]);
      StepKinds(s, steps[0]);
      if KindsExact(Apply(s, steps[0]).0) {
        KindsAlongExact(Apply(s, steps[0]).0, steps[1..]);
      }
    }
  }

  /** This is so for every served run that starts without locks. */
  lemma KindsFromStart(inodes: map<int, int>, maxOffset: Offset, steps: seq<Step>)
    requires LinksKeptAlong(Start(inodes, maxOffset), steps) && ServedAlong(Start(inodes, maxOffset), steps)
    ensures KindsSound(Run(Start(inodes, maxOffset), steps))
    ensures KindsAlong(Start(inodes, maxOffset), steps) <==> NoDowngrade(Start(inodes, maxOffset), steps)
  {
    hide MirrorExact, KindsSound, KindsExact, LinksKeptAlong, ServedAlong, KindsAlong, NoDowngrade, Run;
    StartMirror(inodes, maxOffset);
    StartKinds(inodes, maxOffset);
    ReachableKinds(Start(inodes, maxOffset), steps);
    KindsAlongExact(Start(inodes, maxOffset), steps);
  }
}
