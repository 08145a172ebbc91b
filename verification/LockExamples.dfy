/** Runs after which the Unix locks are not those of the locks. */
module LockExamples {
  import Lists
  import opened LockRanges
  import opened HoleLinks
  import opened LinkedHoles
  import opened LockOrder
  import opened LockSpec
  import opened LockMirrors
  import opened LockRuns
  import opened LockedHoles
  import opened LockSafety

  ghost predicate Free(s: LockState, fd: int, shared: bool, start: Pos, end: Pos) {
    forall id :: id in s.locks ==> !Blocks(s.locks[id], fd, shared, start, end)
  }

  lemma NotBlocking(s: LockState, fd: int, shared: bool, start: Pos, end: Pos, id: int)
    requires Free(s, fd, shared, start, end) && id in s.locks
    ensures !Blocks(s.locks[id], fd, shared, start, end)
  {
  }

  /** A lock that nothing stands in the way of, and its Unix lock. */
  lemma Unblocked(s: LockState, step: Step)
    requires Inv(s) && MirrorExact(s) && step.LockFd? && step.fd in s.inodes && step.lockOk && step.reply == Granted
    requires var l := Asked(step); l.WellFormed() && NeedsUnix(s, l)
    requires Free(s, step.fd, step.shared, step.start, EndPos(step.start, step.count))
    ensures Apply(s, step) == (AddLock(SetUnix(s, Asked(step)), Asked(step)), Done)
    ensures Inv(Apply(s, step).0) && MirrorExact(Apply(s, step).0)
  {
    hide ListsOf, NoConflicts, HeldBeside, AddLock, SetUnix, MirrorExact, Free, Blocks;
    ListsLive(s, s.inodes[step.fd]);
    var ids := At(s.inodeLocks, s.inodes[step.fd]);
    forall k | 0 <= k < |ids|
      ensures !Blocks(s.locks[ids[k]], step.fd, step.shared, step.start, EndPos(step.start, step.count))
    {
      NotBlocking(s, step.fd, step.shared, step.start, EndPos(step.start, step.count), ids[k]);
    }
    StepKeepsInv(s, step);
    LockMirror(s, step);
  }

  /** A lock on byte 7 by fd 1. */
  const ONE_BYTE := LockFd(1, 1, 7, 1, false, false, true, Granted)

  lemma OneByteReached()
    ensures var s := Run(Start(map[1 := 1], 1000), [ONE_BYTE]);
            && s.locks == map[0 := FileLock(false, 7, 8, 1, 1)] && s.inodes == map[1 := 1] && s.maxOffset == 1000
            && MirrorExact(s)
  {
    hide Inv, MirrorExact;
    var start := Start(map[1 := 1], 1000);
    StartMirror(map[1 := 1], 1000);
    Unblocked(start, ONE_BYTE);
    assert [ONE_BYTE][1..] == [];
  }

  lemma OneByteLeft(s: LockState)
    requires GoodLocks(s) && s.locks == map[0 := FileLock(false, 7, 8, 1, 1)]
    requires s.inodes == map[1 := 1] && s.maxOffset == 1000
    ensures LeavesByte(s, 1, 7)
  {
    assert Owns(s, 1, 0) && s.locks[0].Has(7);
  }

  /** Closing an fd that has locked one byte of a file leaves the Unix lock on that byte. */
  lemma OneByteStaysLocked()
    ensures var s := Run(Start(map[1 := 1], 1000), [ONE_BYTE]);
            MirrorExact(s) && LeavesByte(s, 1, 7) && !MirrorExact(Run(s, [FdDestroy(1, true)]))
  {
    hide Run, MirrorExact, LeavesByte, CleanClose, Apply, ListsOf, NoConflicts;
    var s := Run(Start(map[1 := 1], 1000), [ONE_BYTE]);
    OneByteReached();
    OneByteLeft(s);
    NoneLeftListed(s);
    FdDestroyMirror(s, 1, true);
    OneStep(s, FdDestroy(1, true));
  }

  /** Where there is no other lock there is nothing to be linked. */
  lemma NoneLeftListed(s: LockState)
    requires ListsAgree(s) && s.locks == map[0 := FileLock(false, 7, 8, 1, 1)]
    ensures CleanClose(s, 1)
  {
    hide ListsOf;
    ListsLive(s, 1);
    var ids := At(s.fdLocks, 1);
    forall k | 0 <= k < |ids|
      ensures ids[k] == 0
    {
    }
    WithinSeven(s, ids);
  }

  lemma {:induction false} WithinSeven(s: LockState, ids: seq<int>)
    requires s.locks == map[0 := FileLock(false, 7, 8, 1, 1)] && AllLive(s, ids)
    ensures HullStart(s, ids) >= 7 >= HullEnd(s, ids)
    decreases |ids|
  {
    if ids != [] {
      WithinSeven(s, ids[..|ids| - 1]);
    }
  }

  lemma OneStep(s: LockState, step: Step)
    requires Inv(s)
    ensures Run(s, [step]) == Apply(s, step).0
  {
  }

  // ----- several locks by one fd -----

  /** A request for a lock by fd 1. */
  function LockStep(l: FileLock): Step
    requires l.start < l.end
  {
    LockFd(1, 1, l.start, l.end - l.start, l.shared, false, true, Granted)
  }

  /** Locks that fd 1 can have side by side, if they are asked for in this order. */
  predicate ByOne(locks: seq<FileLock>) {
    && (forall i :: 0 <= i < |locks| ==>
          locks[i].start < locks[i].end <= 1000 && locks[i].fd == 1 && locks[i].process == 1)
    && (forall i, j :: 0 <= i < j < |locks| ==>
          !Blocks(locks[i], 1, locks[j].shared, locks[j].start, locks[j].end))
  }

  function LockSteps(locks: seq<FileLock>): (r: seq<Step>)
    requires ByOne(locks)
    ensures |r| == |locks| && forall i :: 0 <= i < |locks| ==> r[i] == LockStep(locks[i])
  {
    seq(|locks|, i requires 0 <= i < |locks| => LockStep(locks[i]))
  }

  function Ids(n: nat): (r: seq<int>)
    ensures |r| == n && forall i :: 0 <= i < n ==> r[i] == i
  {
    seq(n, i => i)
  }

  /** The first locks are there, and nothing else. */
  ghost predicate Holding(s: LockState, locks: seq<FileLock>, n: nat) {
    && n <= |locks| && s.inodes == map[1 := 1] && s.maxOffset == 1000 && s.next == n
    && (forall i :: i in s.locks <==> 0 <= i < n) && (forall i :: i in s.locks ==> s.locks[i] == locks[i])
    && At(s.inodeLocks, 1) == Ids(n) && At(s.fdLocks, 1) == Ids(n)
  }

  lemma HoldAdd(s: LockState, locks: seq<FileLock>, n: nat)
    requires Holding(s, locks, n) && n < |locks| && locks[n].fd == 1
    ensures Holding(AddLock(SetUnix(s, locks[n]), locks[n]), locks, n + 1)
  {
    hide UnixBytes;
    assert Ids(n) + [n] == Ids(n + 1);
  }

  lemma HoldFree(s: LockState, locks: seq<FileLock>, n: nat)
    requires Holding(s, locks, n) && n < |locks| && ByOne(locks)
    ensures Free(s, 1, locks[n].shared, locks[n].start, locks[n].end)
  {
  }

  lemma StepAsks(l: FileLock)
    requires l.start < l.end && l.fd == 1 && l.process == 1
    ensures LockStep(l).LockFd? && Asked(LockStep(l)) == l && EndPos(l.start, l.end - l.start) == l.end
  {
  }

  lemma HoldNext(s: LockState, locks: seq<FileLock>, n: nat)
    requires Inv(s) && MirrorExact(s) && Holding(s, locks, n) && n < |locks| && ByOne(locks)
    ensures var t := Apply(s, LockStep(locks[n])).0; Inv(t) && MirrorExact(t) && Holding(t, locks, n + 1)
  {
    hide ListsOf, NoConflicts, MirrorExact, SetUnix, AddLock, Blocks, Apply, Free, Asked;
    StepAsks(locks[n]);
    HoldFree(s, locks, n);
    HoldAdd(s, locks, n);
    Unblocked(s, LockStep(locks[n]));
  }

  lemma {:induction false} HoldAll(s: LockState, locks: seq<FileLock>, n: nat)
    requires Inv(s) && MirrorExact(s) && Holding(s, locks, n) && n <= |locks| && ByOne(locks)
    ensures var t := Run(s, LockSteps(locks)[n..]); MirrorExact(t) && Holding(t, locks, |locks|)
    decreases |locks| - n
  {
    hide ListsOf, NoConflicts, MirrorExact, Holding, Apply;
    if n < |locks| {
      HoldNext(s, locks, n);
      HoldAll(Apply(s, LockStep(locks[n])).0, locks, n + 1);
      assert LockSteps(locks)[n..][1..] == LockSteps(locks)[n + 1..];
    }
  }

  /** After requests for all these locks they are all there, with their Unix locks. */
  lemma HeldAfter(locks: seq<FileLock>)
    requires ByOne(locks)
    ensures var s := Run(Start(map[1 := 1], 1000), LockSteps(locks));
            Inv(s) && MirrorExact(s) && Holding(s, locks, |locks|)
  {
    hide MirrorExact, Run, LockSteps;
    StartMirror(map[1 := 1], 1000);
    HoldAll(Start(map[1 := 1], 1000), locks, 0);
    assert LockSteps(locks)[0..] == LockSteps(locks);
  }

  /** The last lock is the only one on its range. */
  predicate LastAlone(locks: seq<FileLock>, n: nat, l: FileLock) {
    && |locks| == n + 1 && locks[n] == l && ByOne(locks)
    && forall i :: 0 <= i < n ==> !(locks[i].start == l.start && locks[i].end == l.end)
  }

  /** The locks that are left when the last one is gone. */
  lemma LeftLocks(s: LockState, locks: seq<FileLock>, n: nat, l: FileLock)
    requires ListsAgree(s) && Holding(s, locks, n + 1) && LastAlone(locks, n, l)
    ensures ListsAgree(DropLocks(s, {n})) && InodeLocks(DropLocks(s, {n}), 1) == locks[..n]
  {
    hide ListsOf, DropLocks, ByOne, GoodLocks;
    DropKeepsLists(s, {n});
    var d := DropLocks(s, {n});
    ListsLive(d, 1);
    HoldingDrop(s, locks, n);
    var held := InodeLocks(d, 1);
    assert |held| == n;
    forall i | 0 <= i < n
      ensures held[i] == locks[i]
    {
      assert At(d.inodeLocks, 1)[i] == i;
    }
  }

  lemma HoldingDrop(s: LockState, locks: seq<FileLock>, n: nat)
    requires Holding(s, locks, n + 1)
    ensures var d := DropLocks(s, {n});
            At(d.inodeLocks, 1) == Ids(n) && forall i :: 0 <= i < n ==> i in d.locks && d.locks[i] == locks[i]
  {
    hide Without;
    assert Ids(n + 1) == Ids(n) + [n];
    DropLast(Ids(n), n);
  }

  lemma FindsLast(s: LockState, locks: seq<FileLock>, n: nat, l: FileLock)
    requires ListsAgree(s) && Holding(s, locks, n + 1) && LastAlone(locks, n, l) && l.start < l.end
    ensures Found(s, 1, l.start, l.end - l.start) == {n}
  {
    hide ListsOf, ByOne, GoodLocks;
    ListsLive(s, 1);
    var ids := At(s.fdLocks, 1);
    assert EndPos(l.start, l.end - l.start) == l.end;
    var k := FirstMatching(s, ids, l.start, l.end);
    assert ids[n] == n && s.locks[ids[n]] == l;
    assert forall i :: 0 <= i < n ==> ids[i] == i && s.locks[ids[i]] == locks[i];
  }

  lemma {:induction false} DropLast(ids: seq<int>, n: int)
    requires n !in ids
    ensures Without(ids + [n], {n}) == ids
    decreases |ids|
  {
    if ids != [] {
      DropLast(ids[1..], n);
      assert (ids + [n])[1..] == ids[1..] + [n];
    }
  }

  /** The last lock is unlocked. */
  lemma UnlockLast(s: LockState, locks: seq<FileLock>, n: nat, l: FileLock)
    requires Inv(s) && Holding(s, locks, n + 1) && LastAlone(locks, n, l) && l.start < l.end && n in s.locks
    ensures ListsAgree(DropLocks(s, {n})) && InodeLocks(DropLocks(s, {n}), 1) == locks[..n]
    ensures var t := Run(s, [UnlockFd(1, l.start, l.end - l.start, true)]);
            Inv(t) && t == Unlock(DropLocks(s, {n}), AreaUnlocked(DropLocks(s, {n}), 1, l.start, l.end, true))
  {
    hide ListsOf, NoConflicts, AreaUnlocked, InodeLocks, Found, DropLocks, Apply, Run;
    LeftLocks(s, locks, n, l);
    FindsLast(s, locks, n, l);
    var step := UnlockFd(1, l.start, l.end - l.start, true);
    FoundOne(s, step);
    StepKeepsInv(s, step);
    OneStep(s, step);
  }

  // ----- a hole that is lost -----

  /** Exclusive locks on 10..20, 2..4 and 20..100, and a shared one on 0..100. */
  function FourLocks(): (r: seq<FileLock>)
    ensures |r| == 4 && r[3] == FileLock(true, 0, 100, 1, 1) && r[..3] == ThreeLocks()
  {
    ThreeLocks() + [FileLock(true, 0, 100, 1, 1)]
  }

  lemma FourByOne()
    ensures LastAlone(FourLocks(), 3, FileLock(true, 0, 100, 1, 1))
  {
  }

  /** Nothing is unlocked at a byte that the links do not lead to. */
  lemma NotReached(s: LockState)
    requires ListsAgree(s) && InodeLocks(s, 1) == ThreeLocks() && s.maxOffset == 1000
    ensures (1, 5) !in AreaUnlocked(s, 1, 0, 100, true)
  {
    hide CutAll, ListsOf, InodeLocks, CountOverlaps, Reached;
    HoleIsLost();
    assert !UnlocksSome([Spans.Span(0, 2)], 1000, 5);
  }

  /** A run after which the Unix lock on bytes 4..10 stays, though no lock is left on them and there was a buffer: the
      links of the holes did not lead there. */
  lemma HoleStaysLocked()
    ensures ByOne(FourLocks())
    ensures var s := Run(Start(map[1 := 1], 1000), LockSteps(FourLocks()));
            var t := Run(s, [UnlockFd(1, 0, 100, true)]);
            MirrorExact(s) && GoodLocks(t) && LeftBehind(t, 1, 5) && !MirrorExact(t)
  {
    hide ListsOf, NoConflicts, Apply, FourLocks, Run, AreaUnlocked, DropLocks, InodeLocks, LockSteps, MirrorExact;
    FourByOne();
    HeldAfter(FourLocks());
    var s := Run(Start(map[1 := 1], 1000), LockSteps(FourLocks()));
    UnlockLast(s, FourLocks(), 3, FileLock(true, 0, 100, 1, 1));
    HoleLeft(s, Run(s, [UnlockFd(1, 0, 100, true)]));
  }

  lemma HoleLeft(s: LockState, t: LockState)
    requires Inv(s) && MirrorExact(s) && Holding(s, FourLocks(), 4) && ListsAgree(DropLocks(s, {3})) && Inv(t)
    requires InodeLocks(DropLocks(s, {3}), 1) == ThreeLocks()
    requires t == Unlock(DropLocks(s, {3}), AreaUnlocked(DropLocks(s, {3}), 1, 0, 100, true))
    ensures LeftBehind(t, 1, 5) && !MirrorExact(t)
  {
    hide ListsOf, NoConflicts, AreaUnlocked, InodeLocks, FourLocks, DropLocks, HeldBeside, Locked, GoodLocks;
    var d := DropLocks(s, {3});
    DropFields(s, {3});
    NotReached(d);
    InodeLocksOk(d, 1);
    FreeAmongThree();
    SameHolders(d, t, 1, 5);
    ThirdHolds(s);
  }

  lemma DropFields(s: LockState, gone: set<int>)
    ensures var d := DropLocks(s, gone); d.unix == s.unix && d.maxOffset == s.maxOffset && d.inodes == s.inodes
  {
  }

  lemma FreeAmongThree()
    ensures !Locked(ThreeLocks(), 5)
  {
  }

  lemma ThirdHolds(s: LockState)
    requires GoodLocks(s) && Holding(s, FourLocks(), 4)
    ensures HeldBeside(s, {}, 1, 5) && 0 <= 5 <= s.maxOffset
  {
    hide FourLocks;
    assert 3 in s.locks && s.locks[3].Has(5);
    HeldBy(s, 3, 1, 5);
  }

  // ----- a lock that is unlocked -----

  /** Exclusive locks on 50..60, 20..30, 0..20 and 60..120, in this order. */
  function FourParts(): (r: seq<FileLock>)
    ensures |r| == 4
  {
    [FileLock(false, 50, 60, 1, 1), FileLock(false, 20, 30, 1, 1), FileLock(false, 0, 20, 1, 1), FileLock(false, 60, 120, 1, 1)]
  }

  lemma CutParts()
    ensures CutAll(FourParts(), 0, 100).buffer ==
            Buffer([Hole(NONE, NONE, 20, 20), Hole(NONE, 0, 120, 100), Hole(1, NONE, 30, 50)], 2)
  {
    var locks := FourParts();
    assert locks[..3][..2] == locks[..2] && locks[..2][..1] == locks[..1] && locks[..1][..0] == [];
    assert CutAll(locks[..1][..0], 0, 100) == Cutting(Buffer([Hole(NONE, NONE, 0, 100)], 0), false);
    var one := Buffer([Hole(1, NONE, 0, 50), Hole(NONE, 0, 60, 100)], 0);
    assert CutAll(locks[..1], 0, 100) == Cutting(one, false);
    var two := Buffer([Hole(2, NONE, 0, 20), Hole(NONE, 0, 60, 100), Hole(1, 0, 30, 50)], 0);
    assert CutAll(locks[..2], 0, 100) == Cutting(two, false);
    var three := Buffer([Hole(2, NONE, 20, 20), Hole(NONE, 0, 60, 100), Hole(1, NONE, 30, 50)], 2);
    assert CutAll(locks[..3], 0, 100).buffer == three;
    assert CutFrom(three, 2, locks[3], 3) == CutFrom(three, 1, locks[3], 2);
  }

  /** The hole 60..100 stays in the list, as one from 120 to 100. */
  lemma HoleReturns()
    ensures Reached(CutAll(FourParts(), 0, 100).buffer) == [Spans.Span(30, 50), Spans.Span(120, 100)]
  {
    hide CutAll;
    CutParts();
    var b := Buffer([Hole(NONE, NONE, 20, 20), Hole(NONE, 0, 120, 100), Hole(1, NONE, 30, 50)], 2);
    assert Follow(b, NONE, 1) == [];
    assert Follow(b, 1, 2) == [Spans.Span(120, 100)];
  }

  /** The four locks, and a shared one on 0..100. */
  function FiveLocks(): (r: seq<FileLock>)
    ensures |r| == 5 && r[4] == FileLock(true, 0, 100, 1, 1) && r[..4] == FourParts()
  {
    FourParts() + [FileLock(true, 0, 100, 1, 1)]
  }

  lemma FiveByOne()
    ensures LastAlone(FiveLocks(), 4, FileLock(true, 0, 100, 1, 1))
  {
  }

  lemma LockReached(s: LockState)
    requires ListsAgree(s) && InodeLocks(s, 1) == FourParts() && s.maxOffset == 1000
    ensures (1, 110) in AreaUnlocked(s, 1, 0, 100, true)
  {
    hide CutAll, ListsOf, InodeLocks, CountOverlaps, Reached;
    HoleReturns();
    assert UnlockHas([Spans.Span(30, 50), Spans.Span(120, 100)][1], 1000, 110);
  }

  /** A run after which a lock on 60..120 has no Unix lock on bytes 100..120: unlocking the range 0..100 took it away. */
  lemma LockIsUnlocked()
    ensures ByOne(FiveLocks())
    ensures var s := Run(Start(map[1 := 1], 1000), LockSteps(FiveLocks()));
            var t := Run(s, [UnlockFd(1, 0, 100, true)]);
            MirrorExact(s) && GoodLocks(t) && HeldBeside(t, {}, 1, 110) && (1, 110) !in t.unix && !AllGuarded(t)
  {
    hide ListsOf, NoConflicts, Apply, FiveLocks, Run, AreaUnlocked, DropLocks, InodeLocks, LockSteps, MirrorExact;
    FiveByOne();
    HeldAfter(FiveLocks());
    var s := Run(Start(map[1 := 1], 1000), LockSteps(FiveLocks()));
    UnlockLast(s, FiveLocks(), 4, FileLock(true, 0, 100, 1, 1));
    LockLeft(s, Run(s, [UnlockFd(1, 0, 100, true)]));
  }

  lemma LockLeft(s: LockState, t: LockState)
    requires Inv(s) && Holding(s, FiveLocks(), 5) && ListsAgree(DropLocks(s, {4})) && Inv(t)
    requires InodeLocks(DropLocks(s, {4}), 1) == FourParts()
    requires t == Unlock(DropLocks(s, {4}), AreaUnlocked(DropLocks(s, {4}), 1, 0, 100, true))
    ensures HeldBeside(t, {}, 1, 110) && (1, 110) !in t.unix && !AllGuarded(t)
  {
    hide ListsOf, NoConflicts, AreaUnlocked, InodeLocks, FiveLocks, DropLocks, HeldBeside, GoodLocks;
    var d := DropLocks(s, {4});
    DropFields(s, {4});
    LockReached(d);
    InodeLocksOk(d, 1);
    assert FourParts()[3].Has(110);
    assert Locked(FourParts(), 110);
    SameHolders(d, t, 1, 110);
  }
}
