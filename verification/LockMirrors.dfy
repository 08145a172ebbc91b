/** The Unix locks that mirror the locks of the server: when they are on exactly the locked bytes. */
module LockMirrors {
  import Lists
  import opened LockRanges
  import opened LinkedHoles
  import opened LockSpec

  /** Some lock other than those in `gone` has byte `b` of the inode. */
  ghost predicate HeldBeside(s: LockState, gone: set<int>, inode: int, b: int)
    requires GoodLocks(s)
  {
    exists id :: id in s.locks && id !in gone && Inodes(s)[id] == inode && s.locks[id].Has(b)
  }

  /** The server has a Unix lock on exactly the bytes of its locks, as far as Unix offsets go. */
  ghost predicate MirrorExact(s: LockState)
    requires GoodLocks(s)
  {
    forall inode, b :: (inode, b) in s.unix <==> 0 <= b <= s.maxOffset && HeldBeside(s, {}, inode, b)
  }

  /** The bytes that only the locks in `gone` have. */
  ghost function Freed(s: LockState, gone: set<int>): iset<(int, int)>
    requires GoodLocks(s)
  {
    iset inode: int, b: int |
      0 <= b <= s.maxOffset && HeldBeside(s, {}, inode, b) && !HeldBeside(s, gone, inode, b) :: (inode, b)
  }

  /** Removes locks, and the Unix locks on the bytes that are no longer locked. */
  ghost function RemoveLocks(s: LockState, gone: set<int>): LockState
    requires GoodLocks(s)
  {
    Unlock(DropLocks(s, gone), Freed(s, gone))
  }

  /** The bytes of an area that no lock has. */
  ghost function AreaFreed(s: LockState, inode: int, start: Pos, end: Pos): iset<(int, int)>
    requires GoodLocks(s)
  {
    iset b: int | InClip(start, end, s.maxOffset, b) && !HeldBeside(s, {}, inode, b) :: (inode, b)
  }

  // ----- what is unlocked in an area -----

  lemma GoodLock(s: LockState, id: int)
    requires GoodLocks(s) && id in s.locks
    ensures s.locks[id].WellFormed() && s.locks[id].fd in s.inodes && id < s.next
  {
  }

  lemma HeldBy(s: LockState, id: int, inode: int, b: int)
    requires GoodLocks(s) && id in s.locks && Inodes(s)[id] == inode && s.locks[id].Has(b)
    ensures HeldBeside(s, {}, inode, b)
  {
  }

  lemma LockedMeansHeld(s: LockState, inode: int, held: seq<FileLock>, b: int)
    requires ListsAgree(s)
    requires var ids := At(s.inodeLocks, inode);
             |held| == |ids| && forall k :: 0 <= k < |ids| ==> ids[k] in s.locks && held[k] == s.locks[ids[k]]
    ensures Locked(held, b) <==> HeldBeside(s, {}, inode, b)
  {
    hide ListsOf;
    var ids := At(s.inodeLocks, inode);
    if k :| 0 <= k < |held| && held[k].Has(b) {
      ListedOwner(s.inodeLocks, Inodes(s), inode, k);
      HeldBy(s, ids[k], inode, b);
    }
    if HeldBeside(s, {}, inode, b) {
      var id :| id in s.locks && Inodes(s)[id] == inode && s.locks[id].Has(b);
      ListedLive(s.inodeLocks, Inodes(s), inode);
      assert id in Inodes(s);
      var k :| 0 <= k < |ids| && ids[k] == id;
      assert held[k].Has(b);
    }
  }

  lemma InodeLocksOk(s: LockState, inode: int)
    requires ListsAgree(s)
    ensures AllWellFormed(InodeLocks(s, inode))
    ensures forall b :: Locked(InodeLocks(s, inode), b) <==> HeldBeside(s, {}, inode, b)
  {
    hide ListsOf, HeldBeside;
    ListsLive(s, inode);
    var ids := At(s.inodeLocks, inode);
    forall k | 0 <= k < |ids|
      ensures InodeLocks(s, inode)[k].WellFormed()
    {
      GoodLock(s, ids[k]);
    }
    forall b
      ensures Locked(InodeLocks(s, inode), b) <==> HeldBeside(s, {}, inode, b)
    {
      LockedMeansHeld(s, inode, InodeLocks(s, inode), b);
    }
  }

  /** No lock on the inode overlaps the area, so that no buffer is needed. */
  ghost predicate NoneOverlaps(s: LockState, inode: int, start: Pos, end: Pos)
    requires ListsAgree(s)
  {
    CountOverlaps(InodeLocks(s, inode), start, ClipEnd(end, s.maxOffset)) == 0
  }

  /** The links of the holes stay right, as far as they are built. */
  ghost predicate CleanArea(s: LockState, inode: int, start: Pos, end: Pos)
    requires ListsAgree(s)
  {
    start != end && start <= s.maxOffset ==> CleanLinks(InodeLocks(s, inode), start, end, s.maxOffset)
  }

  lemma AreaExact(s: LockState, inode: int, start: Pos, end: Pos, bufferOk: bool)
    requires ListsAgree(s) && (end == 0 || start <= end) && CleanArea(s, inode, start, end)
    requires bufferOk || NoneOverlaps(s, inode, start, end)
    ensures AreaUnlocked(s, inode, start, end, bufferOk) == AreaFreed(s, inode, start, end)
  {
    hide ListsOf, HeldBeside, Unlocks, CleanLinks, Locked, InodeLocks;
    InodeLocksOk(s, inode);
    forall b | 0 <= b <= s.maxOffset
      ensures Unlocks(InodeLocks(s, inode), start, end, s.maxOffset, bufferOk, b) <==>
              InClip(start, end, s.maxOffset, b) && !HeldBeside(s, {}, inode, b)
    {
      UnlocksExact(InodeLocks(s, inode), start, end, s.maxOffset, bufferOk, b);
    }
  }

  lemma AreaStarved(s: LockState, inode: int, start: Pos, end: Pos)
    requires ListsAgree(s) && !NoneOverlaps(s, inode, start, end)
    ensures AreaUnlocked(s, inode, start, end, false) == iset{}
  {
  }

  // ----- removing locks -----

  lemma DropHolders(s: LockState, gone: set<int>, inode: int, b: int)
    requires GoodLocks(s)
    ensures GoodLocks(DropLocks(s, gone))
    ensures HeldBeside(DropLocks(s, gone), {}, inode, b) <==> HeldBeside(s, gone, inode, b)
  {
    var t := DropLocks(s, gone);
    DropInodes(s, gone);
    forall id
      ensures id in t.locks <==> id in s.locks && id !in gone
      ensures id in t.locks ==> t.locks[id] == s.locks[id] && Inodes(t)[id] == Inodes(s)[id]
    {
    }
  }

  /** Removing locks with their Unix locks keeps the mirror exact. */
  lemma RemoveMirror(s: LockState, gone: set<int>)
    requires GoodLocks(s) && MirrorExact(s)
    ensures GoodLocks(RemoveLocks(s, gone)) && MirrorExact(RemoveLocks(s, gone))
  {
    hide HeldBeside;
    var t := RemoveLocks(s, gone);
    forall inode, b
      ensures (inode, b) in t.unix <==> 0 <= b <= t.maxOffset && HeldBeside(t, {}, inode, b)
    {
      DropHolders(s, gone, inode, b);
      SameHolders(DropLocks(s, gone), t, inode, b);
      HeldMonotonic(s, gone, inode, b);
    }
  }

  lemma SameHolders(s: LockState, t: LockState, inode: int, b: int)
    requires GoodLocks(s) && GoodLocks(t) && s.locks == t.locks && s.inodes == t.inodes
    ensures HeldBeside(s, {}, inode, b) <==> HeldBeside(t, {}, inode, b)
  {
  }

  lemma HeldMonotonic(s: LockState, gone: set<int>, inode: int, b: int)
    requires GoodLocks(s)
    ensures HeldBeside(s, gone, inode, b) ==> HeldBeside(s, {}, inode, b)
  {
  }

  /** The bytes of one lock that no other lock has. */
  lemma FreedOne(s: LockState, id: int)
    requires GoodLocks(s) && id in s.locks
    ensures var l, d := s.locks[id], DropLocks(s, {id});
            && GoodLocks(d)
            && Freed(s, {id}) == AreaFreed(d, Inodes(s)[id], l.start, l.end)
  {
    var l, d := s.locks[id], DropLocks(s, {id});
    forall inode, b
      ensures (inode, b) in Freed(s, {id}) <==>
              inode == Inodes(s)[id] && InClip(l.start, l.end, s.maxOffset, b) && !HeldBeside(d, {}, inode, b)
    {
      DropHolders(s, {id}, inode, b);
      if inode == Inodes(s)[id] && l.Has(b) {
        assert HeldBeside(s, {}, inode, b);
      }
    }
    DropInodes(s, {id});
  }

  /** The area of a lock that is removed, seen once the lock is off the lists. */
  ghost predicate CleanRemoval(s: LockState, id: int)
    requires ListsAgree(s) && id in s.locks
  {
    DropKeepsLists(s, {id});
    CleanArea(DropLocks(s, {id}), s.inodes[s.locks[id].fd], s.locks[id].start, s.locks[id].end)
  }

  /** No other lock overlaps the lock. */
  ghost predicate Alone(s: LockState, id: int)
    requires ListsAgree(s) && id in s.locks
  {
    DropKeepsLists(s, {id});
    NoneOverlaps(DropLocks(s, {id}), s.inodes[s.locks[id].fd], s.locks[id].start, s.locks[id].end)
  }

  /** Other locks have all the bytes of the lock. */
  ghost predicate Covered(s: LockState, id: int)
    requires ListsAgree(s) && id in s.locks
  {
    forall b: Pos :: b <= s.maxOffset && s.locks[id].Has(b) ==> HeldBeside(s, {id}, s.inodes[s.locks[id].fd], b)
  }

  lemma RemoveLockIs(s: LockState, id: int, bufferOk: bool)
    requires ListsAgree(s) && id in s.locks && CleanRemoval(s, id)
    ensures RemoveLock(s, id, bufferOk) == if bufferOk || Alone(s, id) then RemoveLocks(s, {id}) else DropLocks(s, {id})
  {
    hide ListsOf, HeldBeside, CleanArea, Freed, AreaFreed, AreaUnlocked, NoneOverlaps, DropLocks;
    var l, d := s.locks[id], DropLocks(s, {id});
    DropKeepsLists(s, {id});
    if bufferOk || Alone(s, id) {
      GoodLock(s, id);
      FreedOne(s, id);
      AreaExact(d, s.inodes[l.fd], l.start, l.end, bufferOk);
    } else {
      AreaStarved(d, s.inodes[l.fd], l.start, l.end);
      UnlockNothing(d);
    }
  }

  /** A Unix lock is left on a byte that no lock has. */
  ghost predicate LeftBehind(s: LockState, inode: int, b: int)
    requires GoodLocks(s)
  {
    (inode, b) in s.unix && !HeldBeside(s, {}, inode, b)
  }

  /** Removing a lock keeps the mirror exact unless the buffer is missing, and needed, and there is something to be
      unlocked. */
  lemma RemoveLockMirror(s: LockState, id: int, bufferOk: bool)
    requires ListsAgree(s) && MirrorExact(s) && id in s.locks && CleanRemoval(s, id)
    ensures var t := RemoveLock(s, id, bufferOk);
            && GoodLocks(t) && (MirrorExact(t) <==> bufferOk || Alone(s, id) || Covered(s, id))
            && (!MirrorExact(t) ==> exists inode, b :: LeftBehind(t, inode, b))
  {
    hide ListsOf, HeldBeside, CleanRemoval, Alone, Freed;
    var t, d := RemoveLock(s, id, bufferOk), DropLocks(s, {id});
    RemoveLockIs(s, id, bufferOk);
    if bufferOk || Alone(s, id) {
      RemoveMirror(s, {id});
    } else {
      DropInodes(s, {id});
      DropMirror(s, id);
    }
  }

  lemma DropMirror(s: LockState, id: int)
    requires ListsAgree(s) && MirrorExact(s) && id in s.locks
    ensures var d := DropLocks(s, {id});
            && GoodLocks(d) && (MirrorExact(d) <==> Covered(s, id))
            && (!MirrorExact(d) ==> exists inode, b :: LeftBehind(d, inode, b))
  {
    hide HeldBeside, ListsOf;
    var l, inode, d := s.locks[id], s.inodes[s.locks[id].fd], DropLocks(s, {id});
    DropInodes(s, {id});
    forall i, b
      ensures HeldBeside(d, {}, i, b) <==> HeldBeside(s, {id}, i, b)
      ensures HeldBeside(s, {}, i, b) <==> HeldBeside(s, {id}, i, b) || (i == inode && l.Has(b))
    {
      DropHolders(s, {id}, i, b);
      HeldByOne(s, id, i, b);
    }
    if !Covered(s, id) {
      var b: Pos :| b <= s.maxOffset && l.Has(b) && !HeldBeside(s, {id}, inode, b);
      assert LeftBehind(d, inode, b);
    }
  }

  lemma HeldByOne(s: LockState, id: int, inode: int, b: int)
    requires GoodLocks(s) && id in s.locks
    ensures HeldBeside(s, {}, inode, b) <==>
            HeldBeside(s, {id}, inode, b) || (inode == s.inodes[s.locks[id].fd] && s.locks[id].Has(b))
  {
    if inode == s.inodes[s.locks[id].fd] && s.locks[id].Has(b) {
      assert Inodes(s)[id] == inode;
    }
  }

  // ----- a process exits -----

  /** The links stay right while the locks of the list are removed one after the other. */
  ghost predicate CleanEach(s: LockState, ids: seq<int>, starved: set<int>)
    requires ListsAgree(s) && AllLive(s, ids) && Lists.NoRepeat(ids)
    decreases |ids|
  {
    ids == [] ||
    (RemoveKeepsLists(s, ids, ids[0] !in starved);
     CleanRemoval(s, ids[0]) && CleanEach(RemoveLock(s, ids[0], ids[0] !in starved), ids[1..], starved))
  }

  /** Whenever one of them is removed without a buffer, none is needed or nothing is to be unlocked. */
  ghost predicate EachServed(s: LockState, ids: seq<int>, starved: set<int>)
    requires ListsAgree(s) && AllLive(s, ids) && Lists.NoRepeat(ids)
    decreases |ids|
  {
    ids == [] ||
    (RemoveKeepsLists(s, ids, ids[0] !in starved);
     && (ids[0] in starved ==> Alone(s, ids[0]) || Covered(s, ids[0]))
     && EachServed(RemoveLock(s, ids[0], ids[0] !in starved), ids[1..], starved))
  }

  lemma {:induction false} RemoveEachMirror(s: LockState, ids: seq<int>, starved: set<int>)
    requires ListsAgree(s) && MirrorExact(s) && AllLive(s, ids) && Lists.NoRepeat(ids) && CleanEach(s, ids, starved)
    ensures var t := RemoveEach(s, ids, starved); GoodLocks(t) && (MirrorExact(t) <==> EachServed(s, ids, starved))
    decreases |ids|
  {
    hide ListsOf, HeldBeside, CleanRemoval, RemoveLock, Alone, Covered;
    if ids != [] {
      var ok := ids[0] !in starved;
      var t := RemoveLock(s, ids[0], ok);
      RemoveKeepsLists(s, ids, ok);
      RemoveLockMirror(s, ids[0], ok);
      if MirrorExact(t) {
        RemoveEachMirror(t, ids[1..], starved);
      } else {
        var inode, b :| LeftBehind(t, inode, b);
        LeftForGood(t, ids[1..], starved, inode, b);
      }
    }
  }

  /** What is left behind is not unlocked by removing other locks. */
  lemma {:induction false} LeftForGood(s: LockState, ids: seq<int>, starved: set<int>, inode: int, b: int)
    requires ListsAgree(s) && AllLive(s, ids) && Lists.NoRepeat(ids) && CleanEach(s, ids, starved) && LeftBehind(s, inode, b)
    ensures var t := RemoveEach(s, ids, starved); GoodLocks(t) && LeftBehind(t, inode, b) && !MirrorExact(t)
    decreases |ids|
  {
    hide ListsOf, HeldBeside, CleanRemoval, RemoveLock, Alone;
    if ids != [] {
      var ok := ids[0] !in starved;
      RemoveKeepsLists(s, ids, ok);
      LeftAfter(s, ids[0], ok, inode, b);
      LeftForGood(RemoveLock(s, ids[0], ok), ids[1..], starved, inode, b);
    }
  }

  lemma LeftAfter(s: LockState, id: int, bufferOk: bool, inode: int, b: int)
    requires ListsAgree(s) && id in s.locks && CleanRemoval(s, id) && LeftBehind(s, inode, b)
    ensures GoodLocks(RemoveLock(s, id, bufferOk)) && LeftBehind(RemoveLock(s, id, bufferOk), inode, b)
  {
    hide ListsOf, HeldBeside, CleanRemoval, Alone, RemoveLock;
    RemoveLockIs(s, id, bufferOk);
    DropHolders(s, {id}, inode, b);
    HeldMonotonic(s, {id}, inode, b);
    RemoveLockLists(s, id, bufferOk);
    SameHolders(DropLocks(s, {id}), RemoveLock(s, id, bufferOk), inode, b);
  }

  lemma HeldBesideBoth(s: LockState, a: set<int>, b: set<int>, inode: int, x: int)
    requires GoodLocks(s)
    ensures GoodLocks(RemoveLocks(s, a))
    ensures HeldBeside(RemoveLocks(s, a), b, inode, x) <==> HeldBeside(s, a + b, inode, x)
  {
  }

  /** Removing locks one after the other, each with its Unix locks, is the same as removing them all at once. */
  lemma RemoveComposes(s: LockState, a: set<int>, b: set<int>)
    requires GoodLocks(s)
    ensures GoodLocks(RemoveLocks(s, a))
    ensures RemoveLocks(RemoveLocks(s, a), b) == RemoveLocks(s, a + b)
  {
    hide HeldBeside, Without;
    var t := RemoveLocks(s, a);
    DropInodes(s, a);
    DropComposes(s, a, b);
    forall inode, x
      ensures (inode, x) in Freed(s, a) || (inode, x) in Freed(t, b) <==> (inode, x) in Freed(s, a + b)
    {
      HeldBesideBoth(s, a, b, inode, x);
      HeldBesideBoth(s, a, {}, inode, x);
      assert a + {} == a;
      HeldMonotonic(s, a, inode, x);
      HeldMonotonic(t, b, inode, x);
    }
    assert s.unix - Freed(s, a) - Freed(t, b) == s.unix - Freed(s, a + b);
    assert s.writes - Freed(s, a) - Freed(t, b) == s.writes - Freed(s, a + b);
  }

  lemma RemoveNone(s: LockState)
    requires GoodLocks(s)
    ensures RemoveLocks(s, {}) == s
  {
    hide HeldBeside, DropLocks;
    DropNone(s);
    assert Freed(s, {}) == iset{};
    UnlockNothing(s);
  }

  /** With right links and a buffer for each, removing the locks of a list one after the other removes the Unix locks on
      exactly the bytes that only they have. */
  lemma {:induction false} RemoveEachIs(s: LockState, ids: seq<int>)
    requires ListsAgree(s) && AllLive(s, ids) && Lists.NoRepeat(ids) && CleanEach(s, ids, {})
    ensures RemoveEach(s, ids, {}) == RemoveLocks(s, set id | id in ids)
    decreases |ids|
  {
    hide ListsOf, HeldBeside, CleanRemoval, RemoveLock, RemoveLocks, Alone;
    if ids == [] {
      RemoveNone(s);
      assert (set id | id in ids) == {};
    } else {
      var rest := set id | id in ids[1..];
      RemoveKeepsLists(s, ids, true);
      RemoveLockIs(s, ids[0], true);
      RemoveEachIs(RemoveLock(s, ids[0], true), ids[1..]);
      RemoveComposes(s, {ids[0]}, rest);
      assert ids == [ids[0]] + ids[1..];
      assert (set id | id in ids) == {ids[0]} + rest;
    }
  }

  // ----- closing an fd -----

  /** `remove_fd_locks` asks for the Unix locks in the hull to be removed. The call does nothing for a hull of all
      2^64 bytes, because the exclusive end then wraps to the start; and there is no call for a hull of one byte. */
  predicate HullTried(s: LockState, ids: seq<int>)
    requires AllLive(s, ids)
  {
    var start, end := HullStart(s, ids), HullEnd(s, ids);
    start < end && start != (end + 1) % POS_LIMIT
  }

  /** The Unix locks that closing an fd removes: the unlocked bytes of its hull, if they are tried at all. */
  ghost function FdFreed(s: LockState, fd: int): iset<(int, int)>
    requires ListsAgree(s)
  {
    ListsLive(s, fd);
    var ids := At(s.fdLocks, fd);
    var start, end := HullStart(s, ids), HullEnd(s, ids);
    iset inode: int, b: int |
      fd in s.inodes && inode == s.inodes[fd] && HullTried(s, ids) && start <= b <= end && b <= s.maxOffset
      && !HeldBeside(s, OnFd(s, fd), inode, b) :: (inode, b)
  }

  lemma {:induction false} HullBounds(s: LockState, ids: seq<int>, k: nat)
    requires AllLive(s, ids) && k < |ids|
    ensures HullStart(s, ids) <= s.locks[ids[k]].start
    ensures if s.locks[ids[k]].end == 0 then HullEnd(s, ids) == POS_LIMIT - 1
            else s.locks[ids[k]].end - 1 <= HullEnd(s, ids)
    decreases |ids|
  {
    var n := |ids| - 1;
    if k < n {
      HullBounds(s, ids[..n], k);
    }
  }

  lemma {:induction false} HullWithin(s: LockState, ids: seq<int>, b: Pos)
    requires AllLive(s, ids)
    requires forall k :: 0 <= k < |ids| ==> b <= s.locks[ids[k]].start && 0 < s.locks[ids[k]].end <= b + 1
    ensures b <= HullStart(s, ids) && HullEnd(s, ids) <= b
    decreases |ids|
  {
    if ids != [] {
      HullWithin(s, ids[..|ids| - 1], b);
    }
  }

  /** The lock is on the fd. */
  predicate Owns(s: LockState, fd: int, id: int) {
    id in s.locks && s.locks[id].fd == fd
  }

  /** All locks of the fd lie within one byte. */
  ghost predicate WithinByte(s: LockState, fd: int, b: Pos) {
    forall id :: Owns(s, fd, id) ==> b <= s.locks[id].start && 0 < s.locks[id].end <= b + 1
  }

  /** One lock of the fd starts at byte zero, and one has no end. */
  ghost predicate SpansAll(s: LockState, fd: int) {
    && (exists id :: Owns(s, fd, id) && s.locks[id].start == 0)
    && (exists id :: Owns(s, fd, id) && s.locks[id].end == 0)
  }

  /** Only the locks of the fd have byte `b`. */
  ghost predicate OnlyByte(s: LockState, fd: int, b: Pos)
    requires GoodLocks(s)
  {
    && fd in s.inodes && b <= s.maxOffset
    && (exists id :: Owns(s, fd, id) && s.locks[id].Has(b))
    && !HeldBeside(s, OnFd(s, fd), s.inodes[fd], b)
  }

  /** Only the locks of the fd have byte `b`, and they lie within that byte or span all bytes. */
  ghost predicate LeavesByte(s: LockState, fd: int, b: Pos)
    requires GoodLocks(s)
  {
    OnlyByte(s, fd, b) && (WithinByte(s, fd, b) || SpansAll(s, fd))
  }

  lemma {:induction false} HullAttained(s: LockState, ids: seq<int>)
    requires AllLive(s, ids)
    ensures HullStart(s, ids) == 0 ==> exists k :: 0 <= k < |ids| && s.locks[ids[k]].start == 0
    ensures HullEnd(s, ids) == POS_LIMIT - 1 ==> exists k :: 0 <= k < |ids| && s.locks[ids[k]].end == 0
    decreases |ids|
  {
    if ids != [] {
      var n := |ids| - 1;
      HullAttained(s, ids[..n]);
      if HullStart(s, ids) == 0 && s.locks[ids[n]].start != 0 {
        var k :| 0 <= k < n && s.locks[ids[..n][k]].start == 0;
        assert s.locks[ids[k]].start == 0;
      }
      if HullEnd(s, ids) == POS_LIMIT - 1 && s.locks[ids[n]].end != 0 {
        var k :| 0 <= k < n && s.locks[ids[..n][k]].end == 0;
        assert s.locks[ids[k]].end == 0;
      }
    }
  }

  /** The hull is not tried exactly for locks within one byte or spanning all bytes. */
  lemma UntriedHull(s: LockState, fd: int, b: Pos)
    requires ListsAgree(s) && AllLive(s, At(s.fdLocks, fd)) && b < POS_LIMIT - 1
    requires exists id :: Owns(s, fd, id) && s.locks[id].Has(b)
    ensures !HullTried(s, At(s.fdLocks, fd)) <==> WithinByte(s, fd, b) || SpansAll(s, fd)
  {
    hide ListsOf;
    var ids := At(s.fdLocks, fd);
    var id :| Owns(s, fd, id) && s.locks[id].Has(b);
    forall k | 0 <= k < |ids|
      ensures s.locks[ids[k]].fd == fd
    {
      ListedOwner(s.fdLocks, Fds(s), fd, k);
    }
    HullBound(s, fd, id);
    if WithinByte(s, fd, b) {
      forall k | 0 <= k < |ids|
        ensures b <= s.locks[ids[k]].start && 0 < s.locks[ids[k]].end <= b + 1
      {
        InByte(s, fd, b, ids[k]);
      }
      HullWithin(s, ids, b);
    }
    if SpansAll(s, fd) {
      var i :| Owns(s, fd, i) && s.locks[i].start == 0;
      var j :| Owns(s, fd, j) && s.locks[j].end == 0;
      HullBound(s, fd, i);
      HullBound(s, fd, j);
    }
    if !HullTried(s, ids) {
      if HullStart(s, ids) < HullEnd(s, ids) {
        HullAttained(s, ids);
        var k :| 0 <= k < |ids| && s.locks[ids[k]].start == 0;
        var m :| 0 <= m < |ids| && s.locks[ids[m]].end == 0;
        assert Owns(s, fd, ids[k]) && Owns(s, fd, ids[m]);
      } else {
        forall m | Owns(s, fd, m)
          ensures b <= s.locks[m].start && 0 < s.locks[m].end <= b + 1
        {
          HullBound(s, fd, m);
        }
      }
    }
  }

  lemma InByte(s: LockState, fd: int, b: Pos, id: int)
    requires WithinByte(s, fd, b) && Owns(s, fd, id)
    ensures b <= s.locks[id].start && 0 < s.locks[id].end <= b + 1
  {
  }

  lemma HullBound(s: LockState, fd: int, id: int)
    requires ListsAgree(s) && AllLive(s, At(s.fdLocks, fd)) && Owns(s, fd, id)
    ensures HullStart(s, At(s.fdLocks, fd)) <= s.locks[id].start
    ensures if s.locks[id].end == 0 then HullEnd(s, At(s.fdLocks, fd)) == POS_LIMIT - 1
            else s.locks[id].end - 1 <= HullEnd(s, At(s.fdLocks, fd))
  {
    var ids := At(s.fdLocks, fd);
    ListedLive(s.fdLocks, Fds(s), fd);
    assert id in Fds(s) && Fds(s)[id] == fd;
    var k :| 0 <= k < |ids| && ids[k] == id;
    HullBounds(s, ids, k);
  }

  lemma HeldBySome(s: LockState, fd: int, inode: int, b: int)
    requires GoodLocks(s)
    ensures HeldBeside(s, {}, inode, b) <==>
            HeldBeside(s, OnFd(s, fd), inode, b) ||
            (exists id :: Owns(s, fd, id) && s.inodes[fd] == inode && s.locks[id].Has(b))
  {
  }

  /** What closing an fd frees is what `remove_unix_locks` frees in the hull, once the locks are gone. */
  lemma FdFreedIs(s: LockState, fd: int)
    requires ListsAgree(s)
    ensures var ids, d := At(s.fdLocks, fd), DropLocks(s, OnFd(s, fd));
            && AllLive(s, ids) && GoodLocks(d)
            && var start, end := HullStart(s, ids), HullEnd(s, ids);
            && (FdFreed(s, fd) == if start < end && fd in s.inodes
                                  then AreaFreed(d, s.inodes[fd], start, (end + 1) % POS_LIMIT) else iset{})
            && (start < end ==> (end + 1) % POS_LIMIT == 0 || start <= (end + 1) % POS_LIMIT)
  {
    hide HeldBeside, ListsOf, DropLocks, OnFd, HullStart, HullEnd;
    var ids, d := At(s.fdLocks, fd), DropLocks(s, OnFd(s, fd));
    ListedLive(s.fdLocks, Fds(s), fd);
    DropInodes(s, OnFd(s, fd));
    var start, end := HullStart(s, ids), HullEnd(s, ids);
    if start < end && fd in s.inodes {
      var inode := s.inodes[fd];
      forall b
        ensures (inode, b) in FdFreed(s, fd) <==> (inode, b) in AreaFreed(d, inode, start, (end + 1) % POS_LIMIT)
      {
        DropHolders(s, OnFd(s, fd), inode, b);
        DropLocksOnly(s, OnFd(s, fd));
      }
    }
  }

  /** The links of the holes in the hull stay right. */
  ghost predicate CleanClose(s: LockState, fd: int)
    requires ListsAgree(s)
  {
    ListsLive(s, fd);
    DropKeepsLists(s, OnFd(s, fd));
    var start, end := HullStart(s, At(s.fdLocks, fd)), HullEnd(s, At(s.fdLocks, fd));
    start < end && fd in s.inodes ==> CleanArea(DropLocks(s, OnFd(s, fd)), s.inodes[fd], start, (end + 1) % POS_LIMIT)
  }

  /** No lock of another fd overlaps the hull. */
  ghost predicate AloneInHull(s: LockState, fd: int)
    requires ListsAgree(s)
  {
    ListsLive(s, fd);
    DropKeepsLists(s, OnFd(s, fd));
    var start, end := HullStart(s, At(s.fdLocks, fd)), HullEnd(s, At(s.fdLocks, fd));
    start < end && fd in s.inodes ==> NoneOverlaps(DropLocks(s, OnFd(s, fd)), s.inodes[fd], start, (end + 1) % POS_LIMIT)
  }

  lemma FdUnlockedIs(s: LockState, fd: int, bufferOk: bool)
    requires ListsAgree(s) && CleanClose(s, fd)
    ensures FdUnlocked(s, fd, bufferOk) == if bufferOk || AloneInHull(s, fd) then FdFreed(s, fd) else iset{}
  {
    hide HeldBeside, ListsOf, DropLocks, AreaUnlocked, AreaFreed, FdFreed, CleanArea, NoneOverlaps, HullStart, HullEnd, OnFd;
    ListsLive(s, fd);
    DropKeepsLists(s, OnFd(s, fd));
    FdFreedIs(s, fd);
    var d := DropLocks(s, OnFd(s, fd));
    var start, end := HullStart(s, At(s.fdLocks, fd)), HullEnd(s, At(s.fdLocks, fd));
    if start < end && fd in s.inodes {
      if bufferOk || AloneInHull(s, fd) {
        AreaExact(d, s.inodes[fd], start, (end + 1) % POS_LIMIT, bufferOk);
      } else {
        AreaStarved(d, s.inodes[fd], start, (end + 1) % POS_LIMIT);
      }
    }
  }

  lemma AfterDestroy(s: LockState, fd: int, bytes: iset<(int, int)>, inode: int, b: int)
    requires Inv(s) && MirrorExact(s)
    ensures var t := Unlock(DropLocks(s, OnFd(s, fd)), bytes);
            && GoodLocks(t)
            && (HeldBeside(t, {}, inode, b) <==> HeldBeside(s, OnFd(s, fd), inode, b))
            && ((inode, b) in t.unix <==> 0 <= b <= s.maxOffset && HeldBeside(s, {}, inode, b) && (inode, b) !in bytes)
  {
    hide HeldBeside, ListsOf;
    DropHolders(s, OnFd(s, fd), inode, b);
    SameHolders(DropLocks(s, OnFd(s, fd)), Unlock(DropLocks(s, OnFd(s, fd)), bytes), inode, b);
  }

  /** The mirror is exact after the fd is closed, if all bytes that only its locks have are unlocked. */
  lemma CloseMirror(s: LockState, fd: int, bytes: iset<(int, int)>)
    requires Inv(s) && MirrorExact(s)
    requires forall inode, b :: (inode, b) in bytes ==> !HeldBeside(s, OnFd(s, fd), inode, b)
    ensures var t := Unlock(DropLocks(s, OnFd(s, fd)), bytes);
            GoodLocks(t) && (MirrorExact(t) <==> forall b: Pos :: OnlyByte(s, fd, b) ==> (s.inodes[fd], b) in bytes)
  {
    hide HeldBeside, ListsOf;
    var t := Unlock(DropLocks(s, OnFd(s, fd)), bytes);
    forall inode, b
      ensures GoodLocks(t)
      ensures HeldBeside(t, {}, inode, b) <==> HeldBeside(s, OnFd(s, fd), inode, b)
      ensures (inode, b) in t.unix <==> 0 <= b <= s.maxOffset && HeldBeside(s, {}, inode, b) && (inode, b) !in bytes
      ensures HeldBeside(s, {}, inode, b) <==>
              HeldBeside(s, OnFd(s, fd), inode, b) ||
              (exists id :: Owns(s, fd, id) && s.inodes[fd] == inode && s.locks[id].Has(b))
    {
      AfterDestroy(s, fd, bytes, inode, b);
      HeldBySome(s, fd, inode, b);
    }
    DropInodes(s, OnFd(s, fd));
    if b: Pos :| OnlyByte(s, fd, b) && (s.inodes[fd], b) !in bytes {
      assert (s.inodes[fd], b) in t.unix;
    }
  }

  /** Closing an fd keeps the mirror exact unless a byte is left behind; without a buffer where one is needed, all
      bytes are that only this fd has locked. */
  lemma FdDestroyMirror(s: LockState, fd: int, bufferOk: bool)
    requires Inv(s) && MirrorExact(s) && CleanClose(s, fd)
    ensures var t := Apply(s, FdDestroy(fd, bufferOk)).0;
            && GoodLocks(t)
            && (MirrorExact(t) <==> if bufferOk || AloneInHull(s, fd) then !exists b: Pos :: LeavesByte(s, fd, b)
                                    else !exists b: Pos :: OnlyByte(s, fd, b))
  {
    hide HeldBeside, ListsOf, CleanClose, AloneInHull, FdUnlocked, DropLocks, HullTried, OnFd, WithinByte, SpansAll;
    FdUnlockedIs(s, fd, bufferOk);
    FdFreedNotHeld(s, fd);
    CloseMirror(s, fd, FdUnlocked(s, fd, bufferOk));
    if bufferOk || AloneInHull(s, fd) {
      forall b: Pos | OnlyByte(s, fd, b)
        ensures (s.inodes[fd], b) in FdFreed(s, fd) <==> !LeavesByte(s, fd, b)
      {
        ByteFreed(s, fd, b);
      }
    }
  }

  lemma FdFreedNotHeld(s: LockState, fd: int)
    requires ListsAgree(s)
    ensures forall inode, b :: (inode, b) in FdFreed(s, fd) ==> !HeldBeside(s, OnFd(s, fd), inode, b)
  {
  }

  lemma ByteFreed(s: LockState, fd: int, b: Pos)
    requires Inv(s) && OnlyByte(s, fd, b)
    ensures (s.inodes[fd], b) in FdFreed(s, fd) <==> !LeavesByte(s, fd, b)
  {
    hide HeldBeside, ListsOf, HullTried, WithinByte, SpansAll, HullStart, HullEnd;
    var id :| Owns(s, fd, id) && s.locks[id].Has(b);
    ListsLive(s, fd);
    HullBound(s, fd, id);
    UntriedHull(s, fd, b);
  }
}
