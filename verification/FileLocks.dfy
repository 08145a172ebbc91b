/** The lock lists of the server, changed in place. */
module FileLocks {
  import Lists
  import opened Spans
  import opened LockRanges
  import opened HoleLinks
  import opened LinkedHoles
  import opened HoleBuffers
  import opened LockSpec

  class LockTable {
    const inodes: map<int, int>
    const maxOffset: Offset
    var locks: map<int, FileLock>
    var fdLocks: map<int, seq<int>>
    var inodeLocks: map<int, seq<int>>
    var procLocks: map<int, seq<int>>
    var next: int
    ghost var unix: iset<(int, int)>    // the Unix locks that the kernel holds for the server
    ghost var writes: iset<(int, int)>  // those that are write locks

    ghost function State(): LockState
      reads this
    {
      LockState(inodes, maxOffset, locks, fdLocks, inodeLocks, procLocks, unix, writes, next)
    }

    ghost predicate Valid()
      reads this
    {
      Inv(State())
    }

    constructor (inodes: map<int, int>, maxOffset: Offset)
      ensures Valid() && State() == Start(inodes, maxOffset)
    {
      this.inodes, this.maxOffset := inodes, maxOffset;
      locks, fdLocks, inodeLocks, procLocks := map[], map[], map[], map[];
      next, unix, writes := 0, iset{}, iset{};
    }

    /** Clears the Unix locks of a hole. */
    method ClearUnixLock(inode: int, hole: Span)
      modifies this`unix, this`writes
      ensures State() == Unlock(old(State()), HoleBytes(inode, hole, maxOffset))
    {
      unix, writes := unix - HoleBytes(inode, hole, maxOffset), writes - HoleBytes(inode, hole, maxOffset);
    }

    /** Removes the Unix locks for all bytes in the area that are no longer locked, if there is a buffer for the holes. */
    method RemoveUnixLocks(inode: int, start: Pos, limit: Pos, bufferOk: bool)
      requires ListsAgree(State())
      modifies this`unix, this`writes
      ensures State() == Unlock(old(State()), AreaUnlocked(old(State()), inode, start, limit, bufferOk))
    {
      hide ListsOf, Unlocks;
      ghost var s := State();
      if start == limit || start > maxOffset {
        NothingUnlocked(s, inode, start, limit, bufferOk);
        return;
      }
      var end := ClipEnd(limit, maxOffset);
      ListsLive(s, inode);
      var ids := At(inodeLocks, inode);
      var held := LocksOf(locks, ids);
      var count := CountLocks(held, start, end);
      if count == 0 {
        ClearUnixLock(inode, Span(start, end));
        WholeUnlocked(s, inode, start, limit, bufferOk);
        return;
      }
      if !bufferOk {
        NoBuffer(s, inode, start, limit);
        return;
      }
      var r, rank := LinkHoles(held, start, end);
      ClearHoles(inode, r.buffer, rank);
      ReachedUnlocked(s, inode, start, limit);
    }

    /** Clears the Unix locks for all the holes. */
    method ClearHoles(inode: int, b: Buffer, ghost rank: seq<int>)
      requires Ranked(b, rank)
      modifies this`unix, this`writes
      ensures State() == Unlock(old(State()), SomeBytes(inode, Reached(b), maxOffset))
    {
      hide Ranked, Within, UnlockHas;
      var cur := b.first;
      ghost var seen: seq<Span>, steps: nat := [], |b.holes|;
      FirstWithin(b, rank);
      WithinHas(b, rank, cur, steps);
      NoBytes(State(), inode, maxOffset);
      while cur != NONE
        invariant Within(b, rank, cur, steps) && (cur == NONE || b.Has(cur))
        invariant seen + Follow(b, cur, steps) == Reached(b)
        invariant State() == Unlock(old(State()), SomeBytes(inode, seen, maxOffset))
        decreases steps
      {
        var h := b.holes[cur];
        NextWithin(b, rank, cur, steps);
        WithinHas(b, rank, h.next, steps - 1);
        ClearUnixLock(inode, Span(h.start, h.end));
        MoreBytes(old(State()), inode, seen, Span(h.start, h.end), maxOffset);
        seen := seen + [Span(h.start, h.end)];
        cur, steps := h.next, steps - 1;
      }
      assert seen + [] == seen;
    }

    /** Removes an existing lock. */
    method RemoveLock(id: int, removeUnix: bool, bufferOk: bool)
      requires Valid() && id in locks
      modifies this
      ensures Valid()
      ensures State() == if removeUnix then LockSpec.RemoveLock(old(State()), id, bufferOk) else DropLocks(old(State()), {id})
    {
      hide ListsOf, NoConflicts, AreaUnlocked;
      ghost var s := State();
      DropKeepsInv(s, {id});
      GoodLockThere(s, id);
      UnlistOne(fdLocks, Fds(s), id);
      UnlistOne(inodeLocks, Inodes(s), id);
      UnlistOne(procLocks, Processes(s), id);
      var l := locks[id];
      var inode := inodes[l.fd];
      fdLocks := fdLocks[l.fd := Without(fdLocks[l.fd], {id})];
      inodeLocks := inodeLocks[inode := Without(inodeLocks[inode], {id})];
      procLocks := procLocks[l.process := Without(procLocks[l.process], {id})];
      locks := locks - {id};
      assert State() == DropLocks(s, {id});
      if removeUnix {
        RemoveUnixLocks(inode, l.start, l.end, bufferOk);
        InvIgnoresUnix(DropLocks(s, {id}), unix, writes);
      }
    }

    /** Tries to set a Unix lock for the range; `reply` is what the file system answers. */
    method SetUnixLock(l: FileLock, reply: UnixReply) returns (ok: bool)
      requires l.fd in inodes
      modifies this`unix, this`writes
      ensures ok <==> !NeedsUnix(old(State()), l) || reply == Granted || (reply == BadFile && !l.shared)
      ensures State() == if NeedsUnix(old(State()), l) && reply == Granted then SetUnix(old(State()), l) else old(State())
    {
      if l.start == l.end || l.start > maxOffset {
        return true;
      }
      if reply == Granted {
        ghost var bytes := UnixBytes(State(), l);
        unix, writes := unix + bytes, if l.shared then writes - bytes else writes + bytes;
        return true;
      }
      ok := reply == BadFile && !l.shared;
    }

    /** Creates a new lock, if the lock object can be allocated and the Unix lock set. */
    method AddLock(l: FileLock, wait: bool, lockOk: bool, reply: UnixReply) returns (outcome: Outcome)
      requires l.fd in inodes
      modifies this
      ensures (State(), outcome) == if lockOk then TryLock(old(State()), l, wait, reply) else (old(State()), NoMemory)
    {
      hide UnixBytes;
      if !lockOk {
        return NoMemory;
      }
      var ok := SetUnixLock(l, reply);
      if !ok {
        outcome := match reply
          case Conflict => if wait then Retry else LockConflict
          case BadFile => AccessDenied
          case _ => Failure;
        return;
      }
      outcome := Done;
      var inode := inodes[l.fd];
      locks := locks[next := l];
      fdLocks := fdLocks[l.fd := At(fdLocks, l.fd) + [next]];
      inodeLocks := inodeLocks[inode := At(inodeLocks, inode) + [next]];
      procLocks := procLocks[l.process := At(procLocks, l.process) + [next]];
      next := next + 1;
    }

    /** Looks for a lock on the file that keeps the new one from being added. */
    method FindBlocking(ids: seq<int>, fd: int, shared: bool, start: Pos, end: Pos) returns (i: nat)
      requires AllLive(State(), ids)
      ensures i == FirstBlocking(State(), ids, fd, shared, start, end)
    {
      i := 0;
      while i < |ids|
        invariant 0 <= i <= |ids|
        invariant forall k :: 0 <= k < i ==> !Blocks(locks[ids[k]], fd, shared, start, end)
      {
        var lock := locks[ids[i]];
        if lock.Overlaps(start, end) && !(shared && (lock.shared || lock.fd == fd)) {
          return;
        }
        i := i + 1;
      }
    }

    /** Adds a lock on an fd. */
    method LockFd(fd: int, process: int, start: Pos, count: Pos, shared: bool, wait: bool, lockOk: bool, reply: UnixReply)
      returns (outcome: Outcome)
      requires Valid()
      modifies this
      ensures Valid()
      ensures (State(), outcome) == Apply(old(State()), Step.LockFd(fd, process, start, count, shared, wait, lockOk, reply))
    {
      hide Apply, Inv, TryLock, FirstBlocking, EndPos;
      ghost var s, step := State(), Step.LockFd(fd, process, start, count, shared, wait, lockOk, reply);
      StepKeepsInv(s, step);
      LockCases(s, step);
      var end := EndPos(start, count);
      if fd !in inodes {
        return InvalidDevice;
      }
      if end != 0 && end < start {
        return InvalidParameter;
      }
      var ids := At(inodeLocks, inodes[fd]);
      var i := FindBlocking(ids, fd, shared, start, end);
      if i < |ids| {
        return if wait then Pending(ids[i]) else LockConflict;
      }
      outcome := AddLock(FileLock(shared, start, end, fd, process), wait, lockOk, reply);
    }

    /** Removes a lock on an fd. */
    method UnlockFd(fd: int, start: Pos, count: Pos, bufferOk: bool) returns (outcome: Outcome)
      requires Valid()
      modifies this
      ensures Valid()
      ensures (State(), outcome) == Apply(old(State()), Step.UnlockFd(fd, start, count, bufferOk))
    {
      hide ListsOf, NoConflicts, DropLocks, LockSpec.RemoveLock;
      ghost var s := State();
      var end := EndPos(start, count);
      var ids := At(fdLocks, fd);
      ListsLive(s, fd);
      var i := 0;
      while i < |ids|
        invariant 0 <= i <= |ids| && State() == s
        invariant forall k :: 0 <= k < i ==> !(locks[ids[k]].start == start && locks[ids[k]].end == end)
      {
        if locks[ids[i]].start == start && locks[ids[i]].end == end {
          assert FirstMatching(s, ids, start, end) == i;
          RemoveLock(ids[i], true, bufferOk);
          return Done;
        }
        i := i + 1;
      }
      outcome := LockConflict;
    }

    /** Removes all locks owned by a given process; there is no buffer for those in `starved`. */
    method RemoveProcessLocks(process: int, starved: set<int>)
      requires Valid()
      modifies this
      ensures Valid()
      ensures (State(), Done) == Apply(old(State()), ProcessExit(process, starved))
    {
      hide ListsOf, NoConflicts, DropLocks, LockSpec.RemoveLock, RemoveEach, Lists.NoRepeat;
      ghost var s := State();
      ghost var ids, n := At(procLocks, process), 0;
      ListsLive(s, process);
      ListedOnce(procLocks, Processes(s), process);
      NoneRemoved(s, ids, starved);
      while At(procLocks, process) != []
        invariant Valid() && 0 <= n <= |ids| && At(procLocks, process) == ids[n..] && Lists.NoRepeat(ids[..n])
        invariant State() == RemoveEach(s, ids[..n], starved)
        decreases |ids| - n
      {
        var id := At(procLocks, process)[0];
        ListedOwner(procLocks, Processes(State()), process, 0);
        HeadRemoved(State(), process);
        NextRemoved(s, ids, n, starved);
        RemoveLock(id, true, id !in starved);
        RemoveEachSnoc(s, ids[..n], id, starved);
        n := n + 1;
      }
      assert ids[..n] == ids;
    }

    /** Takes all locks on a given fd off the lists, and works out the range that they span. */
    method DropFdLocks(fd: int) returns (start: Pos, end: Pos)
      requires Valid()
      modifies this
      ensures Valid()
      ensures State() == DropLocks(old(State()), OnFd(old(State()), fd))
      ensures var ids := At(old(fdLocks), fd);
              AllLive(old(State()), ids) && start == HullStart(old(State()), ids) && end == HullEnd(old(State()), ids)
    {
      hide ListsOf, NoConflicts, DropLocks, Without, OnFd, HullStart, HullEnd;
      ghost var s := State();
      ghost var ids := At(fdLocks, fd);
      ghost var gone: set<int>, k := {}, 0;
      start, end := POS_LIMIT - 1, 0;
      DropNone(s);
      ListedLive(fdLocks, Fds(s), fd);
      assert AllLive(s, ids);
      NoHull(s);
      assert ids[..0] == [];
      while At(fdLocks, fd) != []
        invariant Valid() && State() == DropLocks(s, gone) && gone <= OnFd(s, fd)
        invariant 0 <= k <= |ids| && At(fdLocks, fd) == ids[k..]
        invariant start == HullStart(s, ids[..k]) && end == HullEnd(s, ids[..k])
        decreases |ids| - k
      {
        var id := At(fdLocks, fd)[0];
        ListedOwner(fdLocks, Fds(State()), fd, 0);
        DropsFirst(s, gone, fd, id);
        var l := locks[id];
        HullStep(s, ids, k);
        if l.start < start {
          start := l.start;
        }
        if l.end == 0 || l.end > end {
          end := if l.end == 0 then POS_LIMIT - 1 else l.end - 1;
        }
        RemoveLock(id, false, true);
        gone, k := gone + {id}, k + 1;
      }
      assert ids[..k] == ids;
      NoneLeftOnFd(s, fd, gone);
    }

    /** Removes all locks on a given fd. */
    method RemoveFdLocks(fd: int, bufferOk: bool)
      requires Valid()
      modifies this
      ensures Valid()
      ensures (State(), Done) == Apply(old(State()), FdDestroy(fd, bufferOk))
    {
      hide ListsOf, NoConflicts, DropLocks, AreaUnlocked, OnFd, HullStart, HullEnd;
      ghost var s := State();
      ListsLive(s, fd);
      DropKeepsLists(s, OnFd(s, fd));
      DropLocksOnly(s, OnFd(s, fd));
      var start, end := DropFdLocks(fd);
      if start < end && fd in inodes {
        RemoveUnixLocks(inodes[fd], start, (end + 1) % POS_LIMIT, bufferOk);
      } else {
        UnlockNothing(DropLocks(s, OnFd(s, fd)));
      }
      InvIgnoresUnix(DropLocks(s, OnFd(s, fd)), unix, writes);
    }
  }

  lemma LockCases(s: LockState, step: Step)
    requires Inv(s) && step.LockFd?
    ensures ListsAgree(s)
    ensures var end := EndPos(step.start, step.count);
            if step.fd !in s.inodes then Apply(s, step) == (s, InvalidDevice)
            else if end != 0 && end < step.start then Apply(s, step) == (s, InvalidParameter)
            else
              var ids := At(s.inodeLocks, s.inodes[step.fd]);
              && AllLive(s, ids)
              && var k := FirstBlocking(s, ids, step.fd, step.shared, step.start, end);
              Apply(s, step) ==
                if k < |ids| then (s, if step.wait then Pending(ids[k]) else LockConflict)
                else if !step.lockOk then (s, NoMemory)
                else TryLock(s, FileLock(step.shared, step.start, end, step.fd, step.process), step.wait, step.reply)
  {
    hide ListsOf, TryLock, FirstBlocking, EndPos;
    if step.fd in s.inodes {
      ListsLive(s, s.inodes[step.fd]);
    }
  }

  lemma NoHull(s: LockState)
    ensures HullStart(s, []) == POS_LIMIT - 1 && HullEnd(s, []) == 0
  {
  }

  lemma HullStep(s: LockState, ids: seq<int>, k: nat)
    requires AllLive(s, ids) && k < |ids|
    ensures AllLive(s, ids[..k]) && AllLive(s, ids[..k + 1])
    ensures var l, h := s.locks[ids[k]], HullStart(s, ids[..k]);
            HullStart(s, ids[..k + 1]) == if l.start < h then l.start else h
    ensures var l, h := s.locks[ids[k]], HullEnd(s, ids[..k]);
            HullEnd(s, ids[..k + 1]) == if l.end == 0 then POS_LIMIT - 1 else if l.end > h then l.end - 1 else h
  {
    assert ids[..k + 1][..k] == ids[..k];
  }

  /** The head of the list is dropped, and the rest of the list stays. */
  lemma DropsFirst(s: LockState, gone: set<int>, fd: int, id: int)
    requires ListsAgree(DropLocks(s, gone)) && At(DropLocks(s, gone).fdLocks, fd) != []
    requires id == At(DropLocks(s, gone).fdLocks, fd)[0]
    ensures DropLocks(DropLocks(s, gone), {id}) == DropLocks(s, gone + {id})
    ensures At(DropLocks(s, gone + {id}).fdLocks, fd) == At(DropLocks(s, gone).fdLocks, fd)[1..]
    ensures id in OnFd(s, fd) && id !in gone && DropLocks(s, gone).locks[id] == s.locks[id]
  {
    var t := DropLocks(s, gone);
    DropComposes(s, gone, {id});
    ListedOwner(t.fdLocks, Fds(t), fd, 0);
    var ids := At(t.fdLocks, fd);
    assert ids[0] !in ids[1..];
    WithoutAbsent(ids[1..], id);
    assert At(DropLocks(t, {id}).fdLocks, fd) == Without(ids, {id});
  }

  lemma NoneLeftOnFd(s: LockState, fd: int, gone: set<int>)
    requires GoodLocks(s) && ListsAgree(DropLocks(s, gone)) && gone <= OnFd(s, fd)
    requires At(DropLocks(s, gone).fdLocks, fd) == []
    ensures gone == OnFd(s, fd)
  {
    hide Without;
    var t := DropLocks(s, gone);
    assert forall id :: id in Fds(t) ==> Fds(t)[id] != fd;
    assert forall id :: id in OnFd(s, fd) && id !in gone ==> id in Fds(t) && Fds(t)[id] == fd;
  }

  lemma GoodLockThere(s: LockState, id: int)
    requires ListsAgree(s) && id in s.locks
    ensures s.locks[id].fd in s.inodes && Inodes(s)[id] == s.inodes[s.locks[id].fd]
  {
  }

  // ----- removing the locks of a process -----

  lemma NoneRemoved(s: LockState, ids: seq<int>, starved: set<int>)
    requires ListsAgree(s)
    ensures ids[..0] == [] && Lists.NoRepeat(ids[..0]) && AllLive(s, ids[..0]) && RemoveEach(s, ids[..0], starved) == s
  {
  }

  /** The head of the list goes, and the rest of the list stays. */
  lemma HeadRemoved(s: LockState, process: int)
    requires ListsAgree(s) && At(s.procLocks, process) != []
    ensures var ids := At(s.procLocks, process);
            && ids[0] in s.locks
            && forall ok :: At(LockSpec.RemoveLock(s, ids[0], ok).procLocks, process) == ids[1..]
  {
    hide ListsOf, LockSpec.RemoveLock;
    var ids := At(s.procLocks, process);
    ListsLive(s, process);
    ListedOnce(s.procLocks, Processes(s), process);
    WithoutAbsent(ids[1..], ids[0]);
    forall ok
      ensures At(LockSpec.RemoveLock(s, ids[0], ok).procLocks, process) == ids[1..]
    {
      RemoveLockLists(s, ids[0], ok);
    }
  }

  lemma NextRemoved(s: LockState, ids: seq<int>, n: nat, starved: set<int>)
    requires n < |ids| && Lists.NoRepeat(ids)
    ensures ids[..n] + [ids[n]] == ids[..n + 1] && Lists.NoRepeat(ids[..n + 1]) && ids[n..][1..] == ids[n + 1..]
  {
  }

  lemma {:induction false} RemoveEachSnoc(s: LockState, ids: seq<int>, id: int, starved: set<int>)
    requires Inv(s) && AllLive(s, ids + [id]) && Lists.NoRepeat(ids + [id]) && AllLive(s, ids) && Lists.NoRepeat(ids)
    ensures var t := RemoveEach(s, ids, starved); ListsAgree(t) && id in t.locks
    ensures RemoveEach(s, ids + [id], starved) == LockSpec.RemoveLock(RemoveEach(s, ids, starved), id, id !in starved)
    decreases |ids|
  {
    hide ListsOf, LockSpec.RemoveLock, NoConflicts;
    assert (ids + [id])[|ids|] == id;
    if ids == [] {
      RemoveKeepsLists(s, [id], id !in starved);
      var t := LockSpec.RemoveLock(s, id, id !in starved);
      assert RemoveEach(t, [id][1..], starved) == t;
    } else {
      var first := ids[0] !in starved;
      assert (ids + [id])[0] == ids[0] && (ids + [id])[1..] == ids[1..] + [id];
      RemoveKeepsLists(s, ids + [id], first);
      RemoveKeepsLists(s, ids, first);
      RemoveKeepsInv(s, ids[0], first);
      RemoveEachSnoc(LockSpec.RemoveLock(s, ids[0], first), ids[1..], id, starved);
    }
  }

  // ----- unlocking holes -----

  ghost function HoleBytes(inode: int, hole: Span, maxOffset: Offset): iset<(int, int)> {
    iset b: int | 0 <= b <= maxOffset && UnlockHas(hole, maxOffset, b) :: (inode, b)
  }

  ghost function SomeBytes(inode: int, holes: seq<Span>, maxOffset: Offset): iset<(int, int)> {
    iset b: int | 0 <= b <= maxOffset && UnlocksSome(holes, maxOffset, b) :: (inode, b)
  }

  lemma NoBytes(s: LockState, inode: int, maxOffset: Offset)
    ensures Unlock(s, SomeBytes(inode, [], maxOffset)) == s
  {
  }

  lemma MoreBytes(s: LockState, inode: int, seen: seq<Span>, hole: Span, maxOffset: Offset)
    ensures Unlock(Unlock(s, SomeBytes(inode, seen, maxOffset)), HoleBytes(inode, hole, maxOffset)) ==
            Unlock(s, SomeBytes(inode, seen + [hole], maxOffset))
  {
    hide UnlockHas;
    var a, b := SomeBytes(inode, seen, maxOffset), HoleBytes(inode, hole, maxOffset);
    var c := SomeBytes(inode, seen + [hole], maxOffset);
    forall x
      ensures UnlocksSome(seen + [hole], maxOffset, x) <==> UnlocksSome(seen, maxOffset, x) || UnlockHas(hole, maxOffset, x)
    {
      MoreUnlocked(seen, hole, maxOffset, x);
    }
    assert s.unix - a - b == s.unix - c && s.writes - a - b == s.writes - c;
  }

  lemma MoreUnlocked(seen: seq<Span>, hole: Span, maxOffset: Offset, x: int)
    ensures UnlocksSome(seen + [hole], maxOffset, x) <==> UnlocksSome(seen, maxOffset, x) || UnlockHas(hole, maxOffset, x)
  {
    var all := seen + [hole];
    if i :| 0 <= i < |seen| && UnlockHas(seen[i], maxOffset, x) {
      assert UnlockHas(all[i], maxOffset, x);
    }
    if UnlockHas(hole, maxOffset, x) {
      assert UnlockHas(all[|seen|], maxOffset, x);
    }
  }

  lemma NothingUnlocked(s: LockState, inode: int, start: Pos, limit: Pos, bufferOk: bool)
    requires ListsAgree(s) && (start == limit || start > s.maxOffset)
    ensures Unlock(s, AreaUnlocked(s, inode, start, limit, bufferOk)) == s
  {
  }

  lemma NoBuffer(s: LockState, inode: int, start: Pos, limit: Pos)
    requires ListsAgree(s) && CountOverlaps(InodeLocks(s, inode), start, ClipEnd(limit, s.maxOffset)) > 0
    ensures Unlock(s, AreaUnlocked(s, inode, start, limit, false)) == s
  {
  }

  lemma WholeUnlocked(s: LockState, inode: int, start: Pos, limit: Pos, bufferOk: bool)
    requires ListsAgree(s) && start != limit && start <= s.maxOffset
    requires CountOverlaps(InodeLocks(s, inode), start, ClipEnd(limit, s.maxOffset)) == 0
    ensures AreaUnlocked(s, inode, start, limit, bufferOk) ==
            HoleBytes(inode, Span(start, ClipEnd(limit, s.maxOffset)), s.maxOffset)
  {
    hide InodeLocks, ListsOf, CutAll, Reached, UnlockHas;
    var end := ClipEnd(limit, s.maxOffset);
    NoneOverlapping(InodeLocks(s, inode), start, end);
    forall b
      ensures UnlocksSome([Span(start, end)], s.maxOffset, b) <==> UnlockHas(Span(start, end), s.maxOffset, b)
    {
      MoreUnlocked([], Span(start, end), s.maxOffset, b);
      assert [] + [Span(start, end)] == [Span(start, end)];
    }
  }

  lemma ReachedUnlocked(s: LockState, inode: int, start: Pos, limit: Pos)
    requires ListsAgree(s) && start != limit && start <= s.maxOffset
    ensures var b := CutAll(InodeLocks(s, inode), start, ClipEnd(limit, s.maxOffset)).buffer;
            AreaUnlocked(s, inode, start, limit, true) == SomeBytes(inode, Reached(b), s.maxOffset)
  {
  }
}
