/** What requests for locks are answered, and which locks there are after each step. */
module LockOutcomes {
  import Lists
  import opened LockRanges
  import opened LockSpec
  import opened LockMirrors
  import opened LockRuns

  /** Lock `id` is on the file, overlaps the range of the request, and may not exist beside it: one of the two is
      exclusive, and they are not by the same fd with the request a shared one. */
  ghost predicate InTheWay(s: LockState, step: Step, id: int)
    requires GoodLocks(s) && step.LockFd? && step.fd in s.inodes
  {
    && id in s.locks && Inodes(s)[id] == s.inodes[step.fd]
    && s.locks[id].Overlaps(step.start, EndPos(step.start, step.count))
    && (!step.shared || (!s.locks[id].shared && s.locks[id].fd != step.fd))
  }

  /** The request ends within the 64-bit positions. */
  predicate Fits(step: Step)
    requires step.LockFd?
  {
    step.start + step.count <= POS_LIMIT
  }

  /** The lock has exactly the bytes that were asked for. */
  lemma AskedBytes(step: Step, b: Pos)
    requires step.LockFd? && Fits(step)
    ensures Asked(step).Has(b) <==> step.start <= b < step.start + step.count
    ensures Asked(step).WellFormed()
  {
  }

  lemma FitsExactly(step: Step)
    requires step.LockFd?
    ensures var end := EndPos(step.start, step.count); !Fits(step) <==> end != 0 && end < step.start
  {
  }

  /** The first lock in the way is the one that stops the request. */
  lemma FirstInTheWay(s: LockState, step: Step)
    requires ListsAgree(s) && step.LockFd? && step.fd in s.inodes
    ensures var ids := At(s.inodeLocks, s.inodes[step.fd]);
            && AllLive(s, ids)
            && var k := FirstBlocking(s, ids, step.fd, step.shared, step.start, EndPos(step.start, step.count));
            && (k < |ids| <==> exists id :: InTheWay(s, step, id))
            && (k < |ids| ==> InTheWay(s, step, ids[k]) && forall i :: 0 <= i < k ==> !InTheWay(s, step, ids[i]))
  {
    hide ListsOf;
    var inode := s.inodes[step.fd];
    var ids := At(s.inodeLocks, inode);
    ListsLive(s, inode);
    forall i | 0 <= i < |ids|
      ensures InTheWay(s, step, ids[i]) <==>
              Blocks(s.locks[ids[i]], step.fd, step.shared, step.start, EndPos(step.start, step.count))
    {
      ListedOwner(s.inodeLocks, Inodes(s), inode, i);
    }
    if id :| InTheWay(s, step, id) {
      ListedLive(s.inodeLocks, Inodes(s), inode);
      assert id in Inodes(s);
    }
  }

  /** A request for a lock is stopped exactly if another lock is in the way; which outcome it then has. */
  lemma LockStops(s: LockState, step: Step)
    requires Inv(s) && step.LockFd?
    ensures var (t, outcome) := Apply(s, step);
            if step.fd !in s.inodes then t == s && outcome == InvalidDevice
            else if !Fits(step) then t == s && outcome == InvalidParameter
            else if exists id :: InTheWay(s, step, id) then
              && t == s
              && (if step.wait then outcome.Pending? && InTheWay(s, step, outcome.owner) else outcome == LockConflict)
            else !outcome.Pending? && (t, outcome) == Granting(s, step)
  {
    hide ListsOf, NoConflicts, TryLock, FirstBlocking, InTheWay;
    FitsExactly(step);
    if step.fd in s.inodes {
      FirstInTheWay(s, step);
      NotPending(s, step);
    }
  }

  ghost function Granting(s: LockState, step: Step): (LockState, Outcome)
    requires step.LockFd? && step.fd in s.inodes
  {
    if step.lockOk then TryLock(s, Asked(step), step.wait, step.reply) else (s, NoMemory)
  }

  lemma NotPending(s: LockState, step: Step)
    requires step.LockFd? && step.fd in s.inodes
    ensures !Granting(s, step).1.Pending?
  {
  }

  /** There is nothing for a Unix lock to lock. */
  predicate Untouched(s: LockState, step: Step)
    requires step.LockFd?
  {
    step.count == 0 || step.start > s.maxOffset
  }

  /** One lock is new, and it is the one that was asked for, last on its lists; nothing else changes but Unix locks. */
  ghost predicate AddsOne(s: LockState, t: LockState, step: Step)
    requires step.LockFd? && step.fd in s.inodes
  {
    && s.next !in s.locks && s.next in t.locks && t.locks == s.locks[s.next := t.locks[s.next]] && t.next == s.next + 1
    && var l := t.locks[s.next];
    && l.fd == step.fd && l.process == step.process && l.shared == step.shared && l.start == step.start
    && (forall b: Pos :: l.Has(b) <==> step.start <= b < step.start + step.count)
    && t.inodes == s.inodes && t.maxOffset == s.maxOffset
    && At(t.fdLocks, step.fd) == At(s.fdLocks, step.fd) + [s.next]
    && At(t.inodeLocks, s.inodes[step.fd]) == At(s.inodeLocks, s.inodes[step.fd]) + [s.next]
    && At(t.procLocks, step.process) == At(s.procLocks, step.process) + [s.next]
  }

  /** The Unix locks after a lock is set: exactly its bytes are added, up to the largest offset. */
  ghost predicate SetsUnix(s: LockState, t: LockState, step: Step)
    requires step.LockFd? && step.fd in s.inodes
  {
    forall inode, b ::
      var mine := inode == s.inodes[step.fd] && 0 <= b <= s.maxOffset && step.start <= b < step.start + step.count;
      && ((inode, b) in t.unix <==> (inode, b) in s.unix || mine)
      && ((inode, b) in t.writes <==> if mine then !step.shared else (inode, b) in s.writes)
  }

  /** Exactly when a lock that nothing is in the way of is added, and what is then there. */
  lemma LockGranted(s: LockState, step: Step)
    requires Inv(s) && step.LockFd? && step.fd in s.inodes && Fits(step) && !exists id :: InTheWay(s, step, id)
    ensures var (t, outcome) := Apply(s, step);
            && (outcome == Done <==> step.lockOk && (|| Untouched(s, step) || step.reply == Granted
                                                     || (step.reply == BadFile && !step.shared)))
            && (if outcome == Done then
                  && AddsOne(s, t, step)
                  && (if !Untouched(s, step) && step.reply == Granted then SetsUnix(s, t, step)
                      else t.unix == s.unix && t.writes == s.writes)
                else t == s)
            && (!step.lockOk ==> outcome == NoMemory)
            && (step.lockOk && !Untouched(s, step) ==>
                  match step.reply
                  case Granted => outcome == Done
                  case Conflict => outcome == if step.wait then Retry else LockConflict
                  case BadFile => outcome == if step.shared then AccessDenied else Done
                  case Failed => outcome == Failure)
  {
    hide ListsOf, NoConflicts, InTheWay, Inv, GoodLocks;
    LockStops(s, step);
    var l := Asked(step);
    NeedsExactly(s, step);
    if step.lockOk && (Untouched(s, step) || step.reply == Granted || (step.reply == BadFile && !step.shared)) {
      AddsAsked(s, step);
    }
  }

  lemma NeedsExactly(s: LockState, step: Step)
    requires step.LockFd? && Fits(step)
    ensures NeedsUnix(s, Asked(step)) <==> !Untouched(s, step)
  {
  }

  lemma AddsAsked(s: LockState, step: Step)
    requires Inv(s) && step.LockFd? && step.fd in s.inodes && Fits(step)
    ensures AddsOne(s, AddLock(s, Asked(step)), step) && AddLock(s, Asked(step)).unix == s.unix
    ensures AddLock(s, Asked(step)).writes == s.writes
    ensures AddsOne(s, AddLock(SetUnix(s, Asked(step)), Asked(step)), step)
    ensures SetsUnix(s, AddLock(SetUnix(s, Asked(step)), Asked(step)), step)
  {
    hide ListsOf, NoConflicts, FileLock.Has, SetUnix, SetsUnix;
    assert s.next !in s.locks;
    SetsAsked(s, step);
    forall b: Pos
      ensures Asked(step).Has(b) <==> step.start <= b < step.start + step.count
    {
      AskedBytes(step, b);
    }
  }

  lemma SetsAsked(s: LockState, step: Step)
    requires step.LockFd? && step.fd in s.inodes && Fits(step)
    ensures var u := SetUnix(s, Asked(step)); u == s.(unix := u.unix, writes := u.writes)
    ensures SetsUnix(s, AddLock(SetUnix(s, Asked(step)), Asked(step)), step)
  {
    hide FileLock.Has;
    forall b: Pos
      ensures Asked(step).Has(b) <==> step.start <= b < step.start + step.count
    {
      AskedBytes(step, b);
    }
  }

  // ----- which locks go -----

  /** An unlock request is answered by removing one lock of the fd with exactly this range, if there is one. */
  lemma UnlockRemoves(s: LockState, step: Step)
    requires Inv(s) && step.UnlockFd?
    ensures var (t, outcome) := Apply(s, step);
            var end := EndPos(step.start, step.count);
            if exists id :: id in s.locks && s.locks[id].fd == step.fd && s.locks[id].start == step.start && s.locks[id].end == end
            then outcome == Done &&
                 exists id :: && id in s.locks && s.locks[id].fd == step.fd && s.locks[id].start == step.start
                              && s.locks[id].end == end && t.locks == s.locks - {id}
            else outcome == LockConflict && t == s
  {
    hide ListsOf, NoConflicts, RemoveLock;
    var ids, end := At(s.fdLocks, step.fd), EndPos(step.start, step.count);
    ListsLive(s, step.fd);
    var k := FirstMatching(s, ids, step.start, end);
    if k < |ids| {
      ListedOwner(s.fdLocks, Fds(s), step.fd, k);
      LocksAfterRemoval(s, ids[k], step.bufferOk);
      var id: int := ids[k];
      assert id in s.locks && s.locks[id].fd == step.fd && s.locks[id].start == step.start && s.locks[id].end == end;
    } else {
      forall id | id in s.locks && s.locks[id].fd == step.fd
        ensures !(s.locks[id].start == step.start && s.locks[id].end == end)
      {
        var i := PlaceOnFd(s, step.fd, id);
      }
    }
  }

  lemma PlaceOnFd(s: LockState, fd: int, id: int) returns (i: nat)
    requires ListsAgree(s) && id in s.locks && s.locks[id].fd == fd
    ensures i < |At(s.fdLocks, fd)| && At(s.fdLocks, fd)[i] == id
  {
    hide ListsOf;
    ListedLive(s.fdLocks, Fds(s), fd);
    assert id in Fds(s);
    i :| 0 <= i < |At(s.fdLocks, fd)| && At(s.fdLocks, fd)[i] == id;
  }

  lemma LocksAfterRemoval(s: LockState, id: int, bufferOk: bool)
    requires ListsAgree(s) && id in s.locks
    ensures RemoveLock(s, id, bufferOk).locks == s.locks - {id}
  {
  }

  lemma {:induction false} LocksAfterEach(s: LockState, ids: seq<int>, starved: set<int>)
    requires ListsAgree(s) && AllLive(s, ids) && Lists.NoRepeat(ids)
    ensures RemoveEach(s, ids, starved).locks == s.locks - (set id | id in ids)
    decreases |ids|
  {
    hide ListsOf, RemoveLock;
    if ids != [] {
      RemoveKeepsLists(s, ids, ids[0] !in starved);
      LocksAfterRemoval(s, ids[0], ids[0] !in starved);
      LocksAfterEach(RemoveLock(s, ids[0], ids[0] !in starved), ids[1..], starved);
      assert (set id | id in ids) == {ids[0]} + (set id | id in ids[1..]);
    }
  }

  /** The death of a process removes exactly its locks, and closing an fd exactly those of the fd. */
  lemma LocksLeft(s: LockState, step: Step)
    requires Inv(s) && (step.ProcessExit? || step.FdDestroy?)
    ensures var t := Apply(s, step).0;
            forall id :: id in t.locks <==>
              id in s.locks && (if step.ProcessExit? then s.locks[id].process != step.process else s.locks[id].fd != step.fd)
    ensures forall id :: id in Apply(s, step).0.locks ==> Apply(s, step).0.locks[id] == s.locks[id]
  {
    hide ListsOf, NoConflicts, RemoveEach, FdUnlocked;
    if step.ProcessExit? {
      var ids := At(s.procLocks, step.process);
      ListsLive(s, step.process);
      ListedOnce(s.procLocks, Processes(s), step.process);
      LocksAfterEach(s, ids, step.starved);
      forall id: int
        ensures id in ids <==> id in s.locks && s.locks[id].process == step.process
      {
        ListedHere(s.procLocks, Processes(s), step.process, id);
      }
    }
  }
}
