/** The lock lists of the server as a step system, with the Unix locks that mirror them. */
module LockSpec {
  import opened LockRanges
  import opened LinkedHoles
  import Lists

  /** File descriptors, inodes and processes are numbered; `inodes` gives the inode of each regular file's fd.
      `unix` holds the bytes of each inode for which the server has a Unix lock, `writes` those with a write lock. */
  datatype LockState = LockState(
    inodes: map<int, int>,
    maxOffset: Offset,
    locks: map<int, FileLock>,
    fdLocks: map<int, seq<int>>,
    inodeLocks: map<int, seq<int>>,
    procLocks: map<int, seq<int>>,
    unix: iset<(int, int)>,
    writes: iset<(int, int)>,
    next: int)

  function At(lists: map<int, seq<int>>, key: int): seq<int> {
    if key in lists then lists[key] else []
  }

  predicate AllLive(s: LockState, ids: seq<int>) {
    forall k :: 0 <= k < |ids| ==> ids[k] in s.locks
  }

  // ----- what every step keeps -----

  ghost predicate GoodLocks(s: LockState) {
    forall id :: id in s.locks ==> id < s.next && s.locks[id].WellFormed() && s.locks[id].fd in s.inodes
  }

  /** The fd, the inode and the process of every lock. */
  ghost function Fds(s: LockState): map<int, int> {
    map id | id in s.locks :: s.locks[id].fd
  }

  ghost function Inodes(s: LockState): map<int, int>
    requires GoodLocks(s)
  {
    map id | id in s.locks :: s.inodes[s.locks[id].fd]
  }

  ghost function Processes(s: LockState): map<int, int> {
    map id | id in s.locks :: s.locks[id].process
  }

  /** Every list holds exactly the locks of its owner, each once. */
  ghost predicate ListsOf(lists: map<int, seq<int>>, owners: map<int, int>) {
    && (forall k :: Lists.NoRepeat(At(lists, k)))
    && (forall k, id :: id in At(lists, k) <==> id in owners && owners[id] == k)
  }

  /** The fd, inode and process lists hold the same locks. */
  ghost predicate ListsAgree(s: LockState) {
    && GoodLocks(s)
    && ListsOf(s.fdLocks, Fds(s))
    && ListsOf(s.inodeLocks, Inodes(s))
    && ListsOf(s.procLocks, Processes(s))
  }

  /** Two overlapping locks may exist side by side. */
  predicate MayCoexist(l: FileLock, m: FileLock) {
    (l.shared && m.shared) || (l.fd == m.fd && (l.shared || m.shared))
  }

  ghost predicate NoConflicts(locks: map<int, FileLock>, inodes: map<int, int>)
    requires locks.Keys == inodes.Keys
  {
    forall i, j :: i in locks && j in locks && i != j && inodes[i] == inodes[j] ==>
      locks[i].Overlaps(locks[j].start, locks[j].end) ==> MayCoexist(locks[i], locks[j])
  }

  ghost predicate Inv(s: LockState) {
    ListsAgree(s) && NoConflicts(s.locks, Inodes(s))
  }

  // ----- the lists -----

  lemma ListedHere(lists: map<int, seq<int>>, owners: map<int, int>, key: int, id: int)
    requires ListsOf(lists, owners)
    ensures id in At(lists, key) <==> id in owners && owners[id] == key
  {
  }

  lemma ListedLive(lists: map<int, seq<int>>, owners: map<int, int>, key: int)
    requires ListsOf(lists, owners)
    ensures forall k :: 0 <= k < |At(lists, key)| ==> At(lists, key)[k] in owners
    ensures forall id :: id in owners && owners[id] == key ==> exists k :: 0 <= k < |At(lists, key)| && At(lists, key)[k] == id
  {
    var ids := At(lists, key);
    forall k | 0 <= k < |ids|
      ensures ids[k] in owners
    {
      ListedHere(lists, owners, key, ids[k]);
    }
    forall id | id in owners && owners[id] == key
      ensures exists k :: 0 <= k < |ids| && ids[k] == id
    {
      ListedHere(lists, owners, key, id);
    }
  }

  lemma ListedOwner(lists: map<int, seq<int>>, owners: map<int, int>, key: int, k: nat)
    requires ListsOf(lists, owners) && k < |At(lists, key)|
    ensures At(lists, key)[k] in owners && owners[At(lists, key)[k]] == key
  {
    assert At(lists, key)[k] in At(lists, key);
  }

  lemma ListsLive(s: LockState, key: int)
    requires ListsAgree(s)
    ensures AllLive(s, At(s.fdLocks, key)) && AllLive(s, At(s.inodeLocks, key)) && AllLive(s, At(s.procLocks, key))
  {
    hide ListsOf;
    ListedLive(s.fdLocks, Fds(s), key);
    ListedLive(s.inodeLocks, Inodes(s), key);
    ListedLive(s.procLocks, Processes(s), key);
  }

  // ----- steps -----

  datatype Outcome =
    | Done | InvalidDevice | InvalidParameter | LockConflict | Pending(owner: int) | Retry | NoMemory
    | AccessDenied | Failure

  /** What the file system answers when a Unix lock is set: a bad file is one that is not open for such a lock. */
  datatype UnixReply = Granted | Conflict | BadFile | Failed

  function Without(ids: seq<int>, gone: set<int>): seq<int> {
    if ids == [] then []
    else if ids[0] in gone then Without(ids[1..], gone)
    else [ids[0]] + Without(ids[1..], gone)
  }

  /** Takes locks off all three lists. */
  ghost function DropLocks(s: LockState, gone: set<int>): LockState {
    s.(locks := s.locks - gone,
       fdLocks := map k | k in s.fdLocks :: Without(s.fdLocks[k], gone),
       inodeLocks := map k | k in s.inodeLocks :: Without(s.inodeLocks[k], gone),
       procLocks := map k | k in s.procLocks :: Without(s.procLocks[k], gone))
  }

  /** The locks of a list. */
  function LocksOf(locks: map<int, FileLock>, ids: seq<int>): (r: seq<FileLock>)
    requires forall k :: 0 <= k < |ids| ==> ids[k] in locks
    ensures |r| == |ids| && forall k :: 0 <= k < |ids| ==> r[k] == locks[ids[k]]
  {
    seq(|ids|, k requires 0 <= k < |ids| => locks[ids[k]])
  }

  ghost function InodeLocks(s: LockState, inode: int): seq<FileLock>
    requires ListsAgree(s)
  {
    ListsLive(s, inode);
    LocksOf(s.locks, At(s.inodeLocks, inode))
  }

  /** The Unix locks that `remove_unix_locks` removes from an area. */
  ghost function AreaUnlocked(s: LockState, inode: int, start: Pos, end: Pos, bufferOk: bool): iset<(int, int)>
    requires ListsAgree(s)
  {
    iset b: int |
      0 <= b <= s.maxOffset && Unlocks(InodeLocks(s, inode), start, end, s.maxOffset, bufferOk, b) :: (inode, b)
  }

  ghost function Unlock(s: LockState, bytes: iset<(int, int)>): LockState {
    s.(unix := s.unix - bytes, writes := s.writes - bytes)
  }

  lemma UnlockNothing(s: LockState)
    ensures Unlock(s, iset{}) == s
  {
  }

  /** Removes a lock, and then the Unix locks on its bytes that no other lock has, or so it should. */
  ghost function RemoveLock(s: LockState, id: int, bufferOk: bool): LockState
    requires ListsAgree(s) && id in s.locks
  {
    var l, d := s.locks[id], DropLocks(s, {id});
    DropKeepsLists(s, {id});
    Unlock(d, AreaUnlocked(d, s.inodes[l.fd], l.start, l.end, bufferOk))
  }

  /** Removes the locks of a list one after the other; no buffer is allocated for those in `starved`. */
  ghost function RemoveEach(s: LockState, ids: seq<int>, starved: set<int>): LockState
    requires ListsAgree(s) && AllLive(s, ids) && Lists.NoRepeat(ids)
    decreases |ids|
  {
    if ids == [] then s
    else
      RemoveKeepsLists(s, ids, ids[0] !in starved);
      RemoveEach(RemoveLock(s, ids[0], ids[0] !in starved), ids[1..], starved)
  }

  ghost function UnixBytes(s: LockState, l: FileLock): iset<(int, int)>
    requires l.fd in s.inodes
  {
    iset b: int | 0 <= b <= s.maxOffset && l.Has(b) :: (s.inodes[l.fd], b)
  }

  /** Sets a read or write lock, which takes the place of the lock that was there. */
  ghost function SetUnix(s: LockState, l: FileLock): LockState
    requires l.fd in s.inodes
  {
    var bytes := UnixBytes(s, l);
    s.(unix := s.unix + bytes, writes := if l.shared then s.writes - bytes else s.writes + bytes)
  }

  /** There is nothing to be set for an empty range, or for one beyond the largest Unix offset. */
  predicate NeedsUnix(s: LockState, l: FileLock) {
    l.start != l.end && l.start <= s.maxOffset
  }

  /** Adds a lock to all three lists. */
  ghost function AddLock(s: LockState, l: FileLock): LockState
    requires l.fd in s.inodes
  {
    var inode := s.inodes[l.fd];
    s.(locks := s.locks[s.next := l],
       fdLocks := s.fdLocks[l.fd := At(s.fdLocks, l.fd) + [s.next]],
       inodeLocks := s.inodeLocks[inode := At(s.inodeLocks, inode) + [s.next]],
       procLocks := s.procLocks[l.process := At(s.procLocks, l.process) + [s.next]],
       next := s.next + 1)
  }

  /** An existing lock keeps a new one from being added. */
  predicate Blocks(l: FileLock, fd: int, shared: bool, start: Pos, end: Pos) {
    l.Overlaps(start, end) && !(shared && (l.shared || l.fd == fd))
  }

  function FirstBlocking(s: LockState, ids: seq<int>, fd: int, shared: bool, start: Pos, end: Pos): (r: int)
    requires AllLive(s, ids)
    ensures 0 <= r <= |ids|
    ensures forall k :: 0 <= k < r ==> !Blocks(s.locks[ids[k]], fd, shared, start, end)
    ensures r < |ids| ==> Blocks(s.locks[ids[r]], fd, shared, start, end)
  {
    if ids == [] || Blocks(s.locks[ids[0]], fd, shared, start, end) then 0
    else
      var r := FirstBlocking(s, ids[1..], fd, shared, start, end);
      assert forall k :: 0 < k < 1 + r ==> ids[k] == ids[1..][k - 1];
      1 + r
  }

  function FirstMatching(s: LockState, ids: seq<int>, start: Pos, end: Pos): (r: int)
    requires AllLive(s, ids)
    ensures 0 <= r <= |ids|
    ensures forall k :: 0 <= k < r ==> !(s.locks[ids[k]].start == start && s.locks[ids[k]].end == end)
    ensures r < |ids| ==> s.locks[ids[r]].start == start && s.locks[ids[r]].end == end
  {
    if ids == [] || (s.locks[ids[0]].start == start && s.locks[ids[0]].end == end) then 0
    else
      var r := FirstMatching(s, ids[1..], start, end);
      assert forall k :: 0 < k < 1 + r ==> ids[k] == ids[1..][k - 1];
      1 + r
  }

  function EndPos(start: Pos, count: Pos): Pos {
    (start + count) % POS_LIMIT
  }

  /** The requests and events that change the lock lists. `lockOk` says whether the lock object can be allocated,
      `bufferOk` and `starved` whether the buffer for the holes can be. */
  datatype Step =
    | LockFd(fd: int, process: int, start: Pos, count: Pos, shared: bool, wait: bool, lockOk: bool, reply: UnixReply)
    | UnlockFd(fd: int, start: Pos, count: Pos, bufferOk: bool)
    | ProcessExit(process: int, starved: set<int>)
    | FdDestroy(fd: int, bufferOk: bool)

  ghost function OnFd(s: LockState, fd: int): set<int> {
    set id | id in s.locks && s.locks[id].fd == fd
  }

  /** The range that `remove_fd_locks` works out from the locks of the fd, with an inclusive end. */
  function HullStart(s: LockState, ids: seq<int>): Pos
    requires AllLive(s, ids)
  {
    if ids == [] then POS_LIMIT - 1
    else
      var n := |ids| - 1;
      var h := HullStart(s, ids[..n]);
      if s.locks[ids[n]].start < h then s.locks[ids[n]].start else h
  }

  function HullEnd(s: LockState, ids: seq<int>): Pos
    requires AllLive(s, ids)
  {
    if ids == [] then 0
    else
      var n := |ids| - 1;
      var h := HullEnd(s, ids[..n]);
      var end := s.locks[ids[n]].end;
      if end == 0 then POS_LIMIT - 1 else if end > h then end - 1 else h
  }

  /** The Unix locks that closing an fd removes. */
  ghost function FdUnlocked(s: LockState, fd: int, bufferOk: bool): iset<(int, int)>
    requires ListsAgree(s)
  {
    ListsLive(s, fd);
    DropKeepsLists(s, OnFd(s, fd));
    var ids, d := At(s.fdLocks, fd), DropLocks(s, OnFd(s, fd));
    var start, end := HullStart(s, ids), HullEnd(s, ids);
    if start < end && fd in s.inodes then AreaUnlocked(d, s.inodes[fd], start, (end + 1) % POS_LIMIT, bufferOk) else iset{}
  }

  /** Adds a lock with its Unix lock. A write lock on a file that cannot have one is done without. */
  ghost function TryLock(s: LockState, l: FileLock, wait: bool, reply: UnixReply): (LockState, Outcome)
    requires l.fd in s.inodes
  {
    if !NeedsUnix(s, l) || (reply == BadFile && !l.shared) then (AddLock(s, l), Done)
    else if reply == Granted then (AddLock(SetUnix(s, l), l), Done)
    else if reply == Conflict then (s, if wait then Retry else LockConflict)
    else if reply == BadFile then (s, AccessDenied)
    else (s, Failure)
  }

  ghost function Apply(s: LockState, step: Step): (LockState, Outcome)
    requires ListsAgree(s)
  {
    match step
    case LockFd(fd, process, start, count, shared, wait, lockOk, reply) =>
      var end := EndPos(start, count);
      if fd !in s.inodes then (s, InvalidDevice)
      else if end != 0 && end < start then (s, InvalidParameter)
      else
        ListsLive(s, s.inodes[fd]);
        var ids := At(s.inodeLocks, s.inodes[fd]);
        var k := FirstBlocking(s, ids, fd, shared, start, end);
        if k < |ids| then (s, if wait then Pending(ids[k]) else LockConflict)
        else if !lockOk then (s, NoMemory)
        else TryLock(s, FileLock(shared, start, end, fd, process), wait, reply)
    case UnlockFd(fd, start, count, bufferOk) =>
      ListsLive(s, fd);
      var ids := At(s.fdLocks, fd);
      var k := FirstMatching(s, ids, start, EndPos(start, count));
      if k < |ids| then (RemoveLock(s, ids[k], bufferOk), Done) else (s, LockConflict)
    case ProcessExit(process, starved) =>
      ListsLive(s, process);
      ListedOnce(s.procLocks, Processes(s), process);
      (RemoveEach(s, At(s.procLocks, process), starved), Done)
    case FdDestroy(fd, bufferOk) => (Unlock(DropLocks(s, OnFd(s, fd)), FdUnlocked(s, fd, bufferOk)), Done)
  }

  // ----- removing locks -----

  lemma {:induction false} WithoutMembers(ids: seq<int>, gone: set<int>)
    ensures forall x :: x in Without(ids, gone) <==> x in ids && x !in gone
    ensures Lists.NoRepeat(ids) ==> Lists.NoRepeat(Without(ids, gone))
    decreases |ids|
  {
    if ids != [] {
      WithoutMembers(ids[1..], gone);
      assert ids == [ids[0]] + ids[1..];
      if Lists.NoRepeat(ids) {
        assert ids[0] !in ids[1..];
      }
    }
  }

  /** Every list without some of its entries. */
  ghost predicate Dropped(lists: map<int, seq<int>>, lists': map<int, seq<int>>, gone: set<int>) {
    lists'.Keys == lists.Keys && forall k :: k in lists ==> lists'[k] == Without(lists[k], gone)
  }

  lemma DropFromLists(lists: map<int, seq<int>>, lists': map<int, seq<int>>, owners: map<int, int>, gone: set<int>)
    requires ListsOf(lists, owners) && Dropped(lists, lists', gone)
    ensures ListsOf(lists', owners - gone)
  {
    hide ListsOf, Dropped;
    forall k
      ensures Lists.NoRepeat(At(lists', k))
    {
      DropFromList(lists, lists', owners, gone, k, 0);
    }
    forall k, id
      ensures id in At(lists', k) <==> id in owners - gone && (owners - gone)[id] == k
    {
      DropFromList(lists, lists', owners, gone, k, id);
    }
    ListsFrom(lists', owners - gone);
  }

  lemma DropFromList(lists: map<int, seq<int>>, lists': map<int, seq<int>>, owners: map<int, int>, gone: set<int>,
                     k: int, id: int)
    requires ListsOf(lists, owners) && Dropped(lists, lists', gone)
    ensures Lists.NoRepeat(At(lists', k))
    ensures id in At(lists', k) <==> id in owners - gone && (owners - gone)[id] == k
  {
    hide ListsOf;
    ListedOnce(lists, owners, k);
    ListedHere(lists, owners, k, id);
    WithoutMembers(At(lists, k), gone);
    WithoutMember(At(lists, k), gone, id);
  }

  lemma ListsFrom(lists: map<int, seq<int>>, owners: map<int, int>)
    requires forall k :: Lists.NoRepeat(At(lists, k))
    requires forall k, id :: id in At(lists, k) <==> id in owners && owners[id] == k
    ensures ListsOf(lists, owners)
  {
  }

  lemma WithoutMember(ids: seq<int>, gone: set<int>, id: int)
    ensures id in Without(ids, gone) <==> id in ids && id !in gone
  {
    WithoutMembers(ids, gone);
  }

  lemma DropInodes(s: LockState, gone: set<int>)
    requires GoodLocks(s)
    ensures GoodLocks(DropLocks(s, gone)) && Inodes(DropLocks(s, gone)) == Inodes(s) - gone
  {
  }

  lemma FewerConflicts(locks: map<int, FileLock>, inodes: map<int, int>, gone: set<int>)
    requires locks.Keys == inodes.Keys && NoConflicts(locks, inodes)
    ensures NoConflicts(locks - gone, inodes - gone)
  {
  }

  lemma ListedOnce(lists: map<int, seq<int>>, owners: map<int, int>, key: int)
    requires ListsOf(lists, owners)
    ensures Lists.NoRepeat(At(lists, key))
  {
  }

  lemma DropKeepsLists(s: LockState, gone: set<int>)
    requires ListsAgree(s)
    ensures ListsAgree(DropLocks(s, gone)) && Inodes(DropLocks(s, gone)) == Inodes(s) - gone
  {
    hide ListsOf, Dropped, DropLocks, GoodLocks;
    var t := DropLocks(s, gone);
    DropInodes(s, gone);
    DropOwners(s, gone);
    DropLists(s, gone);
    DropFromLists(s.fdLocks, t.fdLocks, Fds(s), gone);
    DropFromLists(s.inodeLocks, t.inodeLocks, Inodes(s), gone);
    DropFromLists(s.procLocks, t.procLocks, Processes(s), gone);
  }

  lemma DropOwners(s: LockState, gone: set<int>)
    ensures Fds(DropLocks(s, gone)) == Fds(s) - gone && Processes(DropLocks(s, gone)) == Processes(s) - gone
  {
    hide Without;
    var t := DropLocks(s, gone);
    assert Fds(t) == Fds(s) - gone;
    assert Processes(t) == Processes(s) - gone;
  }

  lemma DropLists(s: LockState, gone: set<int>)
    ensures var t := DropLocks(s, gone);
            && Dropped(s.fdLocks, t.fdLocks, gone)
            && Dropped(s.inodeLocks, t.inodeLocks, gone)
            && Dropped(s.procLocks, t.procLocks, gone)
  {
  }

  lemma DropKeepsInv(s: LockState, gone: set<int>)
    requires Inv(s)
    ensures Inv(DropLocks(s, gone))
  {
    hide ListsOf, NoConflicts, DropLocks;
    DropKeepsLists(s, gone);
    FewerConflicts(s.locks, Inodes(s), gone);
    DropLocksOnly(s, gone);
  }

  lemma DropLocksOnly(s: LockState, gone: set<int>)
    ensures DropLocks(s, gone).locks == s.locks - gone && DropLocks(s, gone).inodes == s.inodes
    ensures DropLocks(s, gone).maxOffset == s.maxOffset
    ensures DropLocks(s, gone).unix == s.unix && DropLocks(s, gone).writes == s.writes
  {
  }

  /** The lists do not depend on the Unix locks. */
  lemma ListsIgnoreUnix(s: LockState, unix: iset<(int, int)>, writes: iset<(int, int)>)
    requires ListsAgree(s)
    ensures ListsAgree(s.(unix := unix, writes := writes)) && Inodes(s.(unix := unix, writes := writes)) == Inodes(s)
  {
  }

  lemma InvIgnoresUnix(s: LockState, unix: iset<(int, int)>, writes: iset<(int, int)>)
    requires Inv(s)
    ensures Inv(s.(unix := unix, writes := writes))
  {
  }

  lemma RemoveLockLists(s: LockState, id: int, bufferOk: bool)
    requires ListsAgree(s) && id in s.locks
    ensures ListsAgree(RemoveLock(s, id, bufferOk)) && RemoveLock(s, id, bufferOk).locks == s.locks - {id}
    ensures var t := RemoveLock(s, id, bufferOk); t == DropLocks(s, {id}).(unix := t.unix, writes := t.writes)
  {
    hide ListsOf, DropLocks, Unlocks;
    DropKeepsLists(s, {id});
    DropLocksOnly(s, {id});
    var t := RemoveLock(s, id, bufferOk);
    ListsIgnoreUnix(DropLocks(s, {id}), t.unix, t.writes);
  }

  lemma RemoveKeepsLists(s: LockState, ids: seq<int>, bufferOk: bool)
    requires ListsAgree(s) && AllLive(s, ids) && Lists.NoRepeat(ids) && ids != []
    ensures ListsAgree(RemoveLock(s, ids[0], bufferOk))
    ensures AllLive(RemoveLock(s, ids[0], bufferOk), ids[1..]) && Lists.NoRepeat(ids[1..])
  {
    hide ListsOf, RemoveLock;
    RemoveLockLists(s, ids[0], bufferOk);
  }

  lemma {:induction false} RemoveEachLists(s: LockState, ids: seq<int>, starved: set<int>)
    requires Inv(s) && AllLive(s, ids) && Lists.NoRepeat(ids)
    ensures Inv(RemoveEach(s, ids, starved))
    decreases |ids|
  {
    hide ListsOf, RemoveLock, NoConflicts, DropLocks;
    if ids != [] {
      var t := RemoveLock(s, ids[0], ids[0] !in starved);
      RemoveKeepsLists(s, ids, ids[0] !in starved);
      RemoveLockLists(s, ids[0], ids[0] !in starved);
      DropKeepsInv(s, {ids[0]});
      InvIgnoresUnix(DropLocks(s, {ids[0]}), t.unix, t.writes);
      RemoveEachLists(t, ids[1..], starved);
    }
  }

  lemma {:induction false} WithoutTwice(ids: seq<int>, a: set<int>, b: set<int>)
    ensures Without(Without(ids, a), b) == Without(ids, a + b)
    decreases |ids|
  {
    if ids != [] {
      WithoutTwice(ids[1..], a, b);
      if ids[0] !in a {
        var rest := Without(ids[1..], a);
        assert ([ids[0]] + rest)[1..] == rest;
      }
    }
  }

  lemma {:induction false} WithoutAbsent(ids: seq<int>, id: int)
    requires id !in ids
    ensures Without(ids, {id}) == ids
    decreases |ids|
  {
    if ids != [] {
      WithoutAbsent(ids[1..], id);
    }
  }

  lemma {:induction false} WithoutNone(ids: seq<int>)
    ensures Without(ids, {}) == ids
    decreases |ids|
  {
    if ids != [] {
      WithoutNone(ids[1..]);
    }
  }

  lemma DropNone(s: LockState)
    ensures DropLocks(s, {}) == s
  {
    forall ids: seq<int>
      ensures Without(ids, {}) == ids
    {
      WithoutNone(ids);
    }
    assert s.locks - {} == s.locks;
  }

  lemma DropComposes(s: LockState, a: set<int>, b: set<int>)
    ensures DropLocks(DropLocks(s, a), b) == DropLocks(s, a + b)
  {
    hide Without;
    ListsCompose(s.fdLocks, a, b);
    ListsCompose(s.inodeLocks, a, b);
    ListsCompose(s.procLocks, a, b);
    assert s.locks - a - b == s.locks - (a + b);
  }

  lemma ListsCompose(lists: map<int, seq<int>>, a: set<int>, b: set<int>)
    ensures var once := map k | k in lists :: Without(lists[k], a);
            (map k | k in once :: Without(once[k], b)) == map k | k in lists :: Without(lists[k], a + b)
  {
    forall k | k in lists
      ensures Without(Without(lists[k], a), b) == Without(lists[k], a + b)
    {
      WithoutTwice(lists[k], a, b);
    }
  }

  /** Taking a lock off its owner's list takes it off all lists of that kind. */
  lemma UnlistOne(lists: map<int, seq<int>>, owners: map<int, int>, id: int)
    requires ListsOf(lists, owners) && id in owners
    ensures owners[id] in lists
    ensures lists[owners[id] := Without(lists[owners[id]], {id})] == map k | k in lists :: Without(lists[k], {id})
  {
    assert id in At(lists, owners[id]);
    forall k | k in lists && k != owners[id]
      ensures Without(lists[k], {id}) == lists[k]
    {
      assert id !in At(lists, k);
      WithoutAbsent(lists[k], id);
    }
  }

  // ----- adding a lock -----

  lemma AddToLists(lists: map<int, seq<int>>, owners: map<int, int>, key: int, id: int)
    requires ListsOf(lists, owners) && id !in owners
    ensures ListsOf(lists[key := At(lists, key) + [id]], owners[id := key])
  {
    var lists' := lists[key := At(lists, key) + [id]];
    forall k
      ensures At(lists', k) == if k == key then At(lists, key) + [id] else At(lists, k)
    {
    }
    assert id !in At(lists, key);
  }

  lemma AddInodes(s: LockState, l: FileLock)
    requires GoodLocks(s) && l.fd in s.inodes && l.WellFormed()
    ensures s.next !in s.locks && GoodLocks(AddLock(s, l))
    ensures Inodes(AddLock(s, l)) == Inodes(s)[s.next := s.inodes[l.fd]]
  {
  }

  lemma AddKeepsLists(s: LockState, l: FileLock)
    requires ListsAgree(s) && l.fd in s.inodes && l.WellFormed()
    ensures ListsAgree(AddLock(s, l))
  {
    hide ListsOf;
    var t := AddLock(s, l);
    AddInodes(s, l);
    AddToLists(s.fdLocks, Fds(s), l.fd, s.next);
    AddToLists(s.inodeLocks, Inodes(s), s.inodes[l.fd], s.next);
    AddToLists(s.procLocks, Processes(s), l.process, s.next);
    assert Fds(t) == Fds(s)[s.next := l.fd];
    assert Processes(t) == Processes(s)[s.next := l.process];
  }

  lemma AddKeepsInv(s: LockState, l: FileLock)
    requires Inv(s) && l.fd in s.inodes && l.WellFormed()
    requires forall id :: id in s.locks && Inodes(s)[id] == s.inodes[l.fd] ==>
                            !Blocks(s.locks[id], l.fd, l.shared, l.start, l.end)
    ensures Inv(AddLock(s, l))
  {
    AddInodes(s, l);
    AddKeepsLists(s, l);
  }

  // ----- every run -----

  lemma LockKeepsInv(s: LockState, fd: int, process: int, start: Pos, end: Pos, shared: bool)
    requires Inv(s) && fd in s.inodes && (end == 0 || start <= end)
    requires AllLive(s, At(s.inodeLocks, s.inodes[fd]))
    requires FirstBlocking(s, At(s.inodeLocks, s.inodes[fd]), fd, shared, start, end) == |At(s.inodeLocks, s.inodes[fd])|
    ensures Inv(AddLock(s, FileLock(shared, start, end, fd, process)))
  {
    hide ListsOf, NoConflicts, AddLock;
    ListedLive(s.inodeLocks, Inodes(s), s.inodes[fd]);
    AddKeepsInv(s, FileLock(shared, start, end, fd, process));
  }

  /** No step breaks the agreement of the lists or lets conflicting locks in. */
  lemma StepKeepsInv(s: LockState, step: Step)
    requires Inv(s)
    ensures Inv(Apply(s, step).0)
  {
    hide ListsOf, NoConflicts, AddLock, DropLocks, Unlocks, FdUnlocked, RemoveEach, RemoveLock, UnixBytes;
    match step
    case LockFd(fd, process, start, count, shared, wait, lockOk, reply) =>
      if Apply(s, step).1 == Done {
        ListedLive(s.inodeLocks, Inodes(s), s.inodes[fd]);
        LockKeepsInv(s, fd, process, start, EndPos(start, count), shared);
        AddThenSet(s, FileLock(shared, start, EndPos(start, count), fd, process));
      }
    case UnlockFd(fd, start, count, bufferOk) =>
      ListsLive(s, fd);
      var ids := At(s.fdLocks, fd);
      var k := FirstMatching(s, ids, start, EndPos(start, count));
      if k < |ids| {
        RemoveKeepsInv(s, ids[k], bufferOk);
      }
    case ProcessExit(process, starved) =>
      ListsLive(s, process);
      ListedOnce(s.procLocks, Processes(s), process);
      RemoveEachLists(s, At(s.procLocks, process), starved);
    case FdDestroy(fd, bufferOk) =>
      DropKeepsInv(s, OnFd(s, fd));
      var t := Apply(s, step).0;
      InvIgnoresUnix(DropLocks(s, OnFd(s, fd)), t.unix, t.writes);
  }

  lemma RemoveKeepsInv(s: LockState, id: int, bufferOk: bool)
    requires Inv(s) && id in s.locks
    ensures Inv(RemoveLock(s, id, bufferOk))
  {
    hide ListsOf, RemoveLock, NoConflicts, DropLocks;
    var t := RemoveLock(s, id, bufferOk);
    RemoveLockLists(s, id, bufferOk);
    DropKeepsInv(s, {id});
    InvIgnoresUnix(DropLocks(s, {id}), t.unix, t.writes);
  }

  /** It does not matter to the lists whether the Unix lock is set. */
  lemma AddThenSet(s: LockState, l: FileLock)
    requires l.fd in s.inodes && Inv(AddLock(s, l))
    ensures Inv(AddLock(SetUnix(s, l), l))
  {
  }

  ghost function Start(inodes: map<int, int>, maxOffset: Offset): (s: LockState)
    ensures Inv(s)
  {
    LockState(inodes, maxOffset, map[], map[], map[], map[], iset{}, iset{}, 0)
  }

  /** In every state that a run reaches, the lists agree and overlapping locks may coexist. */
  ghost function Run(s: LockState, steps: seq<Step>): (t: LockState)
    requires Inv(s)
    ensures Inv(t)
    decreases |steps|
  {
    if steps == [] then s
    else
      StepKeepsInv(s, steps[0]);
      Run(Apply(s, steps[0]).0, steps[1..])
  }
}
