/** Asynchronous I/O requests on a file descriptor: what waking them up may change. */
module AsyncSpec {
  import opened Lists

  datatype Status = Pending | Alerted | Other(code: int)

  datatype QueueKind = ReadQueue | WriteQueue | WaitQueue

  /** Who made a request, and the status block of the client that it is for. */
  datatype Owner = Owner(thread: int, process: int, iosb: int)

  /** Selects requests by what is given. */
  datatype Filter = Filter(process: Option<int>, thread: Option<int>, iosb: Option<int>)
  {
    predicate Matches(o: Owner) {
      && (process.None? || process.value == o.process)
      && (thread.None? || thread.value == o.thread)
      && (iosb.None? || iosb.value == o.iosb)
    }
  }

  /** Selects every request. */
  const ANY := Filter(None, None, None)

  /** A request. `apc` says whether an APC is preallocated, `apcsOut` counts the APCs whose result has not come back,
      `refs` is the reference count, of which `handles` belong to callers and `pins` to a call in progress, `completed`
      counts final completions, and `lost` says that its APC was released without a result. */
  datatype AsyncRequest = AsyncRequest(
    status: Status, queue: QueueKind, owner: Owner,
    apc: bool, apcsOut: nat, refs: int, handles: nat, pins: nat, completed: nat, lost: bool)
  {
    /** A request waits, or has an APC out, or is complete, or its APC is lost: exactly one of these. There is a
        pending reference exactly while it waits, and a preallocated APC at most then. */
    predicate Consistent() {
      && (apc ==> status == Pending)
      && refs == handles + pins + apcsOut + (if status == Pending then 1 else 0)
      && apcsOut + completed + (if status == Pending then 1 else 0) + (if lost then 1 else 0) == 1
    }

    /** It waits, has an APC out and is complete at most once in all, and exactly once if and only if its APC was not
        lost. */
    predicate AtMostOne() {
      var count := apcsOut + completed + (if status == Pending then 1 else 0);
      count <= 1 && (count == 1 <==> !lost)
    }
  }

  /** All requests of a file descriptor. `deaf` are the threads that no APC can be queued to, and `ends` is what the
      requests that are destroyed were in the end. */
  datatype Requests = Requests(
    asyncs: map<int, AsyncRequest>, readQ: seq<int>, writeQ: seq<int>, waitQ: seq<int>,
    next: int, deaf: set<int>, ends: map<int, AsyncRequest>)
  {
    /** The first requests of the read and write queues. */
    ghost function Heads(): set<int> {
      (if readQ == [] then {} else {readQ[0]}) + (if writeQ == [] then {} else {writeQ[0]})
    }

    function QueueOf(kind: QueueKind): seq<int> {
      match kind case ReadQueue => readQ case WriteQueue => writeQ case WaitQueue => waitQ
    }
  }

  // ----- what every operation keeps -----

  ghost predicate Ascending(q: seq<int>) {
    forall i, j :: 0 <= i < j < |q| ==> q[i] < q[j]
  }

  /** A queue holds exactly its requests, in the order in which they were made. */
  ghost predicate QueueHolds(q: seq<int>, asyncs: map<int, AsyncRequest>, kind: QueueKind) {
    && Ascending(q)
    && (forall x :: x in q <==> x in asyncs && asyncs[x].queue == kind)
  }

  ghost predicate AllAlive(asyncs: map<int, AsyncRequest>) {
    forall x :: x in asyncs ==> asyncs[x].Consistent() && asyncs[x].refs > 0
  }

  /** Requests are destroyed without references left, so they were complete or their APC was lost. */
  ghost predicate AllEnded(ends: map<int, AsyncRequest>) {
    forall x :: x in ends ==> ends[x].Consistent() && ends[x].refs == 0
  }

  ghost predicate Inv(s: Requests) {
    && AllAlive(s.asyncs) && AllEnded(s.ends)
    && QueueHolds(s.readQ, s.asyncs, ReadQueue)
    && QueueHolds(s.writeQ, s.asyncs, WriteQueue)
    && QueueHolds(s.waitQ, s.asyncs, WaitQueue)
    && 0 <= s.next && (forall x :: x in s.ends ==> 0 <= x < s.next)
    && (forall x :: x in s.asyncs ==> 0 <= x < s.next && x !in s.ends)
    && (forall x :: 0 <= x < s.next ==> x in s.asyncs || x in s.ends)
  }

  /** A destroyed request was complete exactly if its APC was not lost. */
  lemma EndedHow(s: Requests, x: int)
    requires Inv(s) && x in s.ends
    ensures s.ends[x].completed == 1 <==> !s.ends[x].lost
    ensures s.ends[x].completed <= 1
  {
  }

  ghost function PendingSet(asyncs: map<int, AsyncRequest>): set<int> {
    set x | x in asyncs && asyncs[x].status == Pending
  }

  // ----- what a wake-up may change -----

  /** The APC of the request can be queued. */
  predicate Queueable(a: AsyncRequest, deaf: set<int>) {
    a.apc && a.owner.thread !in deaf
  }

  /** A request that waits for an APC that cannot be queued, and that only its queue refers to: terminating it destroys
      it. */
  predicate Doomed(a: AsyncRequest, deaf: set<int>) {
    a.status == Pending && a.handles == 0 && a.pins == 0 && !Queueable(a, deaf)
  }

  /** What terminating a request changes in it. One that was waiting has its APC out or lost, the latter exactly if
      the APC could not be queued; one that was not only gets a new status. */
  predicate TerminatedFrom(b: AsyncRequest, a: AsyncRequest, deaf: set<int>) {
    if a.status == Pending then a == b
    else if b.status != Pending then a == b.(status := a.status)
    else
      && a.queue == b.queue && a.owner == b.owner
      && a.handles == b.handles && a.pins == b.pins && a.completed == b.completed
      && (a.lost <==> !Queueable(b, deaf))
  }

  /** A request is destroyed in the course of this only if it was doomed, and its APC is lost. */
  predicate EndedFrom(b: AsyncRequest, a: AsyncRequest, deaf: set<int>) {
    && Doomed(b, deaf)
    && a.lost && a.status != Pending && a.queue == b.queue && a.owner == b.owner
  }

  /** Everything ahead of the request on its queue has been destroyed. */
  ghost predicate AheadGone(s: Requests, t: Requests, y: int)
    requires y in s.asyncs
  {
    forall z :: z in s.asyncs && s.asyncs[z].queue == s.asyncs[y].queue && z < y ==> z !in t.asyncs
  }

  ghost predicate MovesOne(s: Requests, t: Requests, asked: set<int>, y: int) {
    && (y in t.asyncs ==> y in s.asyncs)
    && (y in t.ends ==> y in s.ends || y in s.asyncs)
    && (y in s.ends ==> y in t.ends && t.ends[y] == s.ends[y])
    && (y in s.asyncs ==>
          if y in t.asyncs then
            && (y !in asked && y !in t.Heads() ==> t.asyncs[y] == s.asyncs[y])
            && (y !in asked ==> t.asyncs[y] == s.asyncs[y] || t.asyncs[y].status == Alerted)
            && TerminatedFrom(s.asyncs[y], t.asyncs[y], s.deaf)
            && (y in s.Heads() ==> y in t.Heads())
          else
            && y in t.ends && EndedFrom(s.asyncs[y], t.ends[y], s.deaf)
            && (y !in asked ==> s.asyncs[y].queue != WaitQueue && AheadGone(s, t, y)))
  }

  /** Only the requests in `asked` and the heads of the read and write queues are terminated, and the heads only
      alerted. A head that is destroyed leaves its place to the next request, so the others are destroyed in the order
      of their queue. */
  ghost predicate Moves(s: Requests, t: Requests, asked: set<int>) {
    && t.next == s.next && t.deaf == s.deaf
    && forall y :: MovesOne(s, t, asked, y)
  }

  lemma MovesAt(s: Requests, t: Requests, asked: set<int>, y: int)
    requires Moves(s, t, asked)
    ensures MovesOne(s, t, asked, y) && t.deaf == s.deaf && t.next == s.next
  {
  }

  /** A request that a call holds is not destroyed. */
  lemma MovesHeld(s: Requests, t: Requests, asked: set<int>, x: int)
    requires Moves(s, t, asked) && x in s.asyncs && (s.asyncs[x].pins > 0 || s.asyncs[x].status != Pending)
    ensures x in t.asyncs && TerminatedFrom(s.asyncs[x], t.asyncs[x], s.deaf)
    ensures x !in asked ==> t.asyncs[x] == s.asyncs[x] || (t.asyncs[x].status == Alerted && x in t.Heads())
  {
    assert MovesOne(s, t, asked, x);
  }

  lemma MovesKeep(s: Requests, t: Requests, asked: set<int>, x: int)
    requires Moves(s, t, asked) && x in t.asyncs
    ensures x in s.asyncs && t.asyncs[x].queue == s.asyncs[x].queue && t.asyncs[x].owner == s.asyncs[x].owner
  {
    assert MovesOne(s, t, asked, x);
  }

  /** A request that is destroyed stays as it was in the end. */
  lemma MovesEnd(s: Requests, t: Requests, asked: set<int>, x: int)
    requires Moves(s, t, asked) && x in s.ends && x !in s.asyncs
    ensures x in t.ends && x !in t.asyncs && t.ends[x] == s.ends[x]
  {
    assert MovesOne(s, t, asked, x);
  }

  lemma MovesNot(s: Requests, asked: set<int>)
    requires Inv(s)
    ensures Moves(s, s, asked)
  {
  }

  lemma MovesTrans(s: Requests, t: Requests, u: Requests, asked: set<int>, asked': set<int>)
    requires Moves(s, t, asked) && Moves(t, u, asked') && asked' <= asked
    ensures Moves(s, u, asked)
  {
    forall y
      ensures MovesOne(s, u, asked, y)
    {
      assert MovesOne(s, t, asked, y) && MovesOne(t, u, asked', y);
      if y in s.asyncs && y !in u.asyncs && y !in asked {
        AheadTrans(s, t, u, asked, asked', y);
      }
    }
  }

  lemma AheadTrans(s: Requests, t: Requests, u: Requests, asked: set<int>, asked': set<int>, y: int)
    requires Moves(s, t, asked) && Moves(t, u, asked') && asked' <= asked && y in s.asyncs && y !in u.asyncs && y !in asked
    ensures AheadGone(s, u, y)
  {
    MovesAt(s, t, asked, y);
    MovesAt(t, u, asked', y);
    forall z | z in s.asyncs && s.asyncs[z].queue == s.asyncs[y].queue && z < y
      ensures z !in u.asyncs
    {
      MovesAt(s, t, asked, z);
      MovesAt(t, u, asked', z);
    }
  }

  lemma NoMorePending(s: Requests, t: Requests, asked: set<int>)
    requires Moves(s, t, asked)
    ensures |PendingSet(t.asyncs)| <= |PendingSet(s.asyncs)|
  {
    forall y | y in PendingSet(t.asyncs)
      ensures y in PendingSet(s.asyncs)
    {
      assert MovesOne(s, t, asked, y);
    }
    SubsetSize(PendingSet(t.asyncs), PendingSet(s.asyncs));
  }

  lemma SubsetSize(a: set<int>, b: set<int>)
    requires a <= b
    ensures |a| <= |b|
  {
    assert b == a + (b - a);
  }

  // ----- a head that waits -----

  /** The head of the queue waits to be alerted. */
  ghost predicate Waiting(s: Requests, kind: QueueKind) {
    var q := s.QueueOf(kind);
    q != [] && q[0] in s.asyncs && s.asyncs[q[0]].status == Pending
  }

  lemma HeadFirst(s: Requests, kind: QueueKind, x: int)
    requires Inv(s) && x in s.asyncs && s.asyncs[x].queue == kind
    ensures var q := s.QueueOf(kind); q != [] && q[0] <= x && q[0] in s.asyncs && s.asyncs[q[0]].queue == kind
  {
    var q := s.QueueOf(kind);
    assert x in q && QueueHolds(q, s.asyncs, kind);
    assert q[0] in q;
  }

  /** The request that was the head of a queue is gone or no longer waits. */
  ghost predicate HeadDone(s: Requests, t: Requests, kind: QueueKind) {
    var q := s.QueueOf(kind);
    q != [] && q[0] in t.asyncs ==> t.asyncs[q[0]].status != Pending
  }

  /** Once that is so it stays so. */
  lemma HeadDoneStays(s: Requests, t: Requests, u: Requests, kind: QueueKind)
    requires HeadDone(s, t, kind) && Moves(t, u, {})
    ensures HeadDone(s, u, kind)
  {
    hide Inv, Moves;
    if s.QueueOf(kind) != [] {
      var h: int := s.QueueOf(kind)[0];
      MovesAt(t, u, {}, h);
    }
  }

  /** A head that is still there is still the head. */
  lemma HeadDoneLater(s: Requests, t: Requests, u: Requests, kind: QueueKind)
    requires Inv(s) && Inv(t) && Moves(s, t, {}) && Moves(t, u, {}) && HeadDone(t, u, kind)
    ensures HeadDone(s, u, kind)
  {
    hide Inv, Moves;
    if s.QueueOf(kind) != [] {
      var h: int := s.QueueOf(kind)[0];
      if h in u.asyncs {
        MovesKeep(t, u, {}, h);
        InQueue(s, h);
        MovesKeep(s, t, {}, h);
        HeadFirst(t, kind, h);
        var g: int := t.QueueOf(kind)[0];
        MovesKeep(s, t, {}, g);
        HeadFirst(s, kind, g);
      }
    }
  }

  /** Waking up others does not make a head wait. */
  lemma StaysAlerted(s: Requests, t: Requests, asked: set<int>, kind: QueueKind)
    requires Inv(s) && Inv(t) && Moves(s, t, asked)
    ensures Waiting(t, kind) ==> Waiting(s, kind)
  {
    hide Inv;
    if Waiting(t, kind) {
      var h: int := t.QueueOf(kind)[0];
      InQueue(t, h);
      MovesAt(s, t, asked, h);
      HeadFirst(s, kind, h);
      var g: int := s.QueueOf(kind)[0];
      MovesAt(s, t, asked, g);
      if s.asyncs[g].status != Pending {
        HeadFirst(t, kind, g);
      }
    }
  }

  // ----- changing one request -----

  function Put(s: Requests, x: int, a: AsyncRequest): Requests {
    s.(asyncs := s.asyncs[x := a])
  }

  lemma InQueue(s: Requests, x: int)
    requires Inv(s)
    ensures x in s.readQ <==> x in s.asyncs && s.asyncs[x].queue == ReadQueue
    ensures x in s.writeQ <==> x in s.asyncs && s.asyncs[x].queue == WriteQueue
    ensures x in s.waitQ <==> x in s.asyncs && s.asyncs[x].queue == WaitQueue
  {
  }

  lemma PutInv(s: Requests, x: int, a: AsyncRequest)
    requires Inv(s) && x in s.asyncs && a.Consistent() && a.refs > 0 && a.queue == s.asyncs[x].queue
    ensures Inv(Put(s, x, a))
  {
  }

  /** A request that was not waiting gets a new status. */
  lemma NewStatus(s: Requests, x: int, status: Status)
    requires Inv(s) && x in s.asyncs && s.asyncs[x].status != Pending && status != Pending
    ensures Inv(Put(s, x, s.asyncs[x].(status := status)))
    ensures Moves(s, Put(s, x, s.asyncs[x].(status := status)), {x})
  {
    var t := Put(s, x, s.asyncs[x].(status := status));
    PutInv(s, x, s.asyncs[x].(status := status));
    forall y
      ensures MovesOne(s, t, {x}, y)
    {
    }
  }

  /** A request that is no longer waiting: its APC is out or lost, and the pending reference is still held. */
  function TakeApc(a: AsyncRequest, status: Status, queued: bool): AsyncRequest {
    a.(status := status, apc := false, apcsOut := a.apcsOut + (if queued then 1 else 0), lost := !queued,
       refs := a.refs + (if queued then 1 else 0), pins := a.pins + 1)
  }

  lemma TakesApc(s: Requests, x: int, status: Status)
    requires Inv(s) && x in s.asyncs && s.asyncs[x].status == Pending && status != Pending
    ensures var t := Put(s, x, TakeApc(s.asyncs[x], status, Queueable(s.asyncs[x], s.deaf)));
            Inv(t) && |PendingSet(t.asyncs)| < |PendingSet(s.asyncs)|
  {
    var t := Put(s, x, TakeApc(s.asyncs[x], status, Queueable(s.asyncs[x], s.deaf)));
    assert s.asyncs[x].Consistent();
    PutInv(s, x, t.asyncs[x]);
    assert PendingSet(t.asyncs) == PendingSet(s.asyncs) - {x};
  }

  /** One reference that a call held is released. */
  function Unpinned(a: AsyncRequest): AsyncRequest
    requires a.pins > 0
  {
    a.(pins := a.pins - 1, refs := a.refs - 1)
  }

  /** A request without references is destroyed. */
  function Destroy(s: Requests, x: int): Requests
    requires x in s.asyncs && s.asyncs[x].pins > 0
  {
    s.(asyncs := s.asyncs - {x}, ends := s.ends[x := Unpinned(s.asyncs[x])],
       readQ := Without(s.readQ, x), writeQ := Without(s.writeQ, x), waitQ := Without(s.waitQ, x))
  }

  lemma {:induction false} WithoutAscending(q: seq<int>, x: int)
    requires Ascending(q)
    ensures Ascending(Without(q, x))
    decreases |q|
  {
    if q != [] {
      var rest := Without(q[1..], x);
      WithoutAscending(q[1..], x);
      forall i | 0 <= i < |rest|
        ensures q[0] < rest[i]
      {
        assert rest[i] in q[1..];
      }
    }
  }

  lemma WithoutHolds(q: seq<int>, asyncs: map<int, AsyncRequest>, kind: QueueKind, x: int)
    requires QueueHolds(q, asyncs, kind)
    ensures QueueHolds(Without(q, x), asyncs - {x}, kind)
  {
    WithoutAscending(q, x);
  }

  lemma DestroyInv(s: Requests, x: int)
    requires Inv(s) && x in s.asyncs && s.asyncs[x].pins > 0 && s.asyncs[x].refs == 1
    ensures Inv(Destroy(s, x))
  {
    WithoutHolds(s.readQ, s.asyncs, ReadQueue, x);
    WithoutHolds(s.writeQ, s.asyncs, WriteQueue, x);
    WithoutHolds(s.waitQ, s.asyncs, WaitQueue, x);
    assert s.asyncs[x].Consistent();
  }

  lemma DestroyHeads(s: Requests, x: int, y: int)
    requires x in s.asyncs && s.asyncs[x].pins > 0 && y in s.Heads() && y != x
    ensures y in Destroy(s, x).Heads()
  {
  }

  /** The state after one reference that a call held is released. */
  function Release(s: Requests, x: int): Requests
    requires x in s.asyncs && s.asyncs[x].pins > 0
  {
    if s.asyncs[x].refs > 1 then Put(s, x, Unpinned(s.asyncs[x])) else Destroy(s, x)
  }

  lemma ReleaseInv(s: Requests, x: int)
    requires Inv(s) && x in s.asyncs && s.asyncs[x].pins > 0
    ensures Inv(Release(s, x)) && |PendingSet(Release(s, x).asyncs)| <= |PendingSet(s.asyncs)|
  {
    assert s.asyncs[x].Consistent();
    if s.asyncs[x].refs > 1 {
      PutInv(s, x, Unpinned(s.asyncs[x]));
      assert PendingSet(Release(s, x).asyncs) == PendingSet(s.asyncs);
    } else {
      DestroyInv(s, x);
      SubsetSize(PendingSet(Release(s, x).asyncs), PendingSet(s.asyncs));
    }
  }

  /** Terminating a waiting request: its APC is queued or lost, others may be alerted, and the pending reference goes. */
  lemma Terminated(s: Requests, x: int, status: Status, t: Requests)
    requires Inv(s) && x in s.asyncs && s.asyncs[x].status == Pending && status != Pending
    requires Moves(Put(s, x, TakeApc(s.asyncs[x], status, Queueable(s.asyncs[x], s.deaf))), t, {})
    ensures x in t.asyncs && t.asyncs[x].pins > 0 && t.asyncs[x].queue == s.asyncs[x].queue
    ensures t.asyncs[x].status == status || (t.asyncs[x].status == Alerted && x in t.Heads())
    ensures t.asyncs[x].refs > 1 <==> Queueable(s.asyncs[x], s.deaf) || s.asyncs[x].handles > 0 || s.asyncs[x].pins > 0
    ensures Moves(s, Release(t, x), {x})
  {
    var m := Put(s, x, TakeApc(s.asyncs[x], status, Queueable(s.asyncs[x], s.deaf)));
    assert s.asyncs[x].Consistent();
    MovesAt(m, t, {}, x);
    assert x in m.asyncs && x in t.asyncs;
    var u := Release(t, x);
    forall y
      ensures MovesOne(s, u, {x}, y)
    {
      MovesAt(m, t, {}, y);
      ReleasedOne(s, x, status, m, t, y);
    }
  }

  lemma ReleasedOne(s: Requests, x: int, status: Status, m: Requests, t: Requests, y: int)
    requires Inv(s) && x in s.asyncs && s.asyncs[x].status == Pending && status != Pending
    requires m == Put(s, x, TakeApc(s.asyncs[x], status, Queueable(s.asyncs[x], s.deaf)))
    requires MovesOne(m, t, {}, y) && MovesOne(m, t, {}, x) && x in t.asyncs && t.asyncs[x].pins > 0
    ensures MovesOne(s, Release(t, x), {x}, y)
  {
    assert s.asyncs[x].Consistent();
    assert m.Heads() == s.Heads();
    if y == x {
      ReleasedSelf(s, x, status, m, t);
    } else {
      ReleasedOther(s, x, m, t, y);
    }
  }

  lemma ReleasedSelf(s: Requests, x: int, status: Status, m: Requests, t: Requests)
    requires x in s.asyncs && s.asyncs[x].status == Pending && status != Pending && s.asyncs[x].Consistent()
    requires x !in s.ends
    requires m == Put(s, x, TakeApc(s.asyncs[x], status, Queueable(s.asyncs[x], s.deaf))) && m.Heads() == s.Heads()
    requires MovesOne(m, t, {}, x) && x in t.asyncs && t.asyncs[x].pins > 0
    ensures MovesOne(s, Release(t, x), {x}, x)
  {
  }

  lemma ReleasedOther(s: Requests, x: int, m: Requests, t: Requests, y: int)
    requires x in s.asyncs && x in m.asyncs && m == Put(s, x, m.asyncs[x]) && m.Heads() == s.Heads() && y != x
    requires m.asyncs[x].queue == s.asyncs[x].queue && m.deaf == s.deaf
    requires MovesOne(m, t, {}, y) && x in t.asyncs && t.asyncs[x].pins > 0
    ensures MovesOne(s, Release(t, x), {x}, y)
  {
    if y in t.Heads() && t.asyncs[x].refs <= 1 {
      DestroyHeads(t, x, y);
    }
  }

  // ----- a new request -----

  function Enqueue(s: Requests, a: AsyncRequest): Requests {
    var x := s.next;
    s.(asyncs := s.asyncs[x := a], next := x + 1,
       readQ := if a.queue == ReadQueue then s.readQ + [x] else s.readQ,
       writeQ := if a.queue == WriteQueue then s.writeQ + [x] else s.writeQ,
       waitQ := if a.queue == WaitQueue then s.waitQ + [x] else s.waitQ)
  }

  lemma EnqueueHolds(q: seq<int>, asyncs: map<int, AsyncRequest>, kind: QueueKind, x: int, a: AsyncRequest)
    requires QueueHolds(q, asyncs, kind) && forall y :: y in asyncs ==> y < x
    ensures QueueHolds(if a.queue == kind then q + [x] else q, asyncs[x := a], kind)
  {
    forall i | 0 <= i < |q|
      ensures q[i] < x
    {
      assert q[i] in q;
    }
  }

  lemma EnqueueInv(s: Requests, a: AsyncRequest)
    requires Inv(s) && a.Consistent() && a.refs > 0
    ensures Inv(Enqueue(s, a)) && s.next !in s.asyncs && s.next !in s.ends
  {
    hide QueueHolds;
    assert forall y :: y in s.asyncs ==> y < s.next;
    EnqueueHolds(s.readQ, s.asyncs, ReadQueue, s.next, a);
    EnqueueHolds(s.writeQ, s.asyncs, WriteQueue, s.next, a);
    EnqueueHolds(s.waitQ, s.asyncs, WaitQueue, s.next, a);
  }

  /** A request as it is, or as it was in the end. */
  function Latest(s: Requests, x: int): AsyncRequest
    requires x in s.asyncs || x in s.ends
  {
    if x in s.asyncs then s.asyncs[x] else s.ends[x]
  }

  /** A request that has been restarted is not complete. If it waits, it has an APC exactly if one was allocated; if it
      does not, that APC is out, or lost exactly if there is none or it could not be queued. */
  predicate Restarted(b: AsyncRequest, a: AsyncRequest, apcOk: bool, deaf: set<int>) {
    && a.completed == 0 && a.queue == b.queue && a.owner == b.owner
    && (if a.status == Pending then !a.lost && a.apc == apcOk else a.lost <==> !(apcOk && b.owner.thread !in deaf))
  }

  // ----- between calls -----

  /** No call is in progress. */
  ghost predicate NoPins(s: Requests) {
    forall x :: x in s.asyncs ==> s.asyncs[x].pins == 0
  }

  lemma MovesNoPins(s: Requests, t: Requests, asked: set<int>)
    requires Moves(s, t, asked) && NoPins(s)
    ensures NoPins(t)
  {
    forall x | x in t.asyncs
      ensures t.asyncs[x].pins == 0
    {
      assert MovesOne(s, t, asked, x);
    }
  }

  /** The requests that the filter selects. */
  ghost function AllSelected(asyncs: map<int, AsyncRequest>, filter: Filter): set<int> {
    set x | x in asyncs && filter.Matches(asyncs[x].owner)
  }

  /** The requests on the queue that the filter selects. */
  ghost function Selected(asyncs: map<int, AsyncRequest>, kind: QueueKind, filter: Filter): set<int> {
    set x | x in asyncs && asyncs[x].queue == kind && filter.Matches(asyncs[x].owner)
  }

  /** No APC is lost, and none can be as things are. */
  ghost predicate NoneLost(s: Requests) {
    && s.deaf == {}
    && (forall x :: x in s.asyncs ==> !s.asyncs[x].lost && (s.asyncs[x].status == Pending ==> s.asyncs[x].apc))
    && (forall x :: x in s.ends ==> !s.ends[x].lost)
  }

  lemma MovesNone(s: Requests, t: Requests, asked: set<int>)
    requires Moves(s, t, asked) && Inv(t) && NoneLost(s)
    ensures NoneLost(t)
  {
    forall x
      ensures x in t.asyncs ==> !t.asyncs[x].lost && (t.asyncs[x].status == Pending ==> t.asyncs[x].apc)
      ensures x in t.ends ==> !t.ends[x].lost
    {
      assert MovesOne(s, t, asked, x);
    }
  }

  /** A call that loses no APC of its own loses none. */
  lemma StillNone(s: Requests, a: AsyncRequest, t: Requests, u: Requests, x: int)
    requires x in s.asyncs && x in t.asyncs && t.asyncs[x].pins > 0
    requires Moves(Put(s, x, a), t, {x}) && Moves(Release(t, x), u, {}) && Inv(t) && Inv(u)
    requires a.lost ==> s.asyncs[x].lost
    ensures NoneLost(s) && (a.status == Pending ==> a.apc || s.asyncs[x] == a.(handles := a.handles + 1, pins := 0)) ==>
              NoneLost(u)
  {
    if NoneLost(s) && (a.status == Pending ==> a.apc || s.asyncs[x] == a.(handles := a.handles + 1, pins := 0)) {
      MovesNone(Put(s, x, a), t, {x});
      MovesNone(Release(t, x), u, {});
    }
  }

  // ----- waking up a whole queue -----

  ghost predicate WokenIn(s: Requests, x: int, status: Status) {
    x in s.asyncs && (s.asyncs[x].status == status || (s.asyncs[x].status == Alerted && x in s.Heads()))
  }

  /** Request `x` is to be woken up, `y` is behind it on the queue, and all requests up to `y` are doomed. */
  ghost predicate CutOffAt(s: Requests, kind: QueueKind, filter: Filter, x: int, y: int) {
    && x in s.asyncs && s.asyncs[x].queue == kind && filter.Matches(s.asyncs[x].owner)
    && y in s.asyncs && s.asyncs[y].queue == kind && x < y
    && forall z :: z in s.asyncs && s.asyncs[z].queue == kind && z <= y ==> Doomed(s.asyncs[z], s.deaf)
  }

  /** Waking up the selected requests can destroy the one where the loop goes on. */
  ghost predicate CutOff(s: Requests, kind: QueueKind, filter: Filter) {
    kind != WaitQueue && exists x, y :: CutOffAt(s, kind, filter, x, y)
  }

  /** They are destroyed up to that one. */
  ghost predicate CutShortAt(s: Requests, t: Requests, kind: QueueKind, filter: Filter, x: int, y: int) {
    && CutOffAt(s, kind, filter, x, y)
    && forall z :: z in s.asyncs && s.asyncs[z].queue == kind && z <= y ==> z !in t.asyncs
  }

  ghost predicate CutShort(s: Requests, t: Requests, kind: QueueKind, filter: Filter) {
    kind != WaitQueue && exists x, y :: CutShortAt(s, t, kind, filter, x, y)
  }

  /** The first two requests of a queue are doomed. */
  predicate FirstTwoDoomed(s: Requests, kind: QueueKind) {
    var q := s.QueueOf(kind);
    && kind != WaitQueue && |q| >= 2
    && q[0] in s.asyncs && Doomed(s.asyncs[q[0]], s.deaf)
    && q[1] in s.asyncs && Doomed(s.asyncs[q[1]], s.deaf)
  }

  /** If every request is selected, it is enough to look at the first two. */
  lemma CutOffAny(s: Requests, kind: QueueKind)
    requires Inv(s)
    ensures CutOff(s, kind, ANY) <==> FirstTwoDoomed(s, kind)
  {
    var q := s.QueueOf(kind);
    assert QueueHolds(q, s.asyncs, kind);
    if x, y :| CutOffAt(s, kind, ANY, x, y) {
      assert x in q && y in q;
      assert q[0] in q && q[1] in q;
    }
    if FirstTwoDoomed(s, kind) {
      assert q[0] in q && q[1] in q;
      assert CutOffAt(s, kind, ANY, q[0], q[1]);
    }
  }

  lemma CutShortOff(s: Requests, t: Requests, kind: QueueKind, filter: Filter)
    requires CutShort(s, t, kind, filter)
    ensures CutOff(s, kind, filter)
  {
    var x, y :| CutShortAt(s, t, kind, filter, x, y);
    assert CutOffAt(s, kind, filter, x, y);
  }

  /** Of a queue that is cut short at least the first two requests are gone. */
  lemma FirstTwoGone(s: Requests, t: Requests, kind: QueueKind)
    requires Inv(s) && CutShort(s, t, kind, ANY)
    ensures var q := s.QueueOf(kind); |q| >= 2 && q[0] !in t.asyncs && q[1] !in t.asyncs
  {
    var q := s.QueueOf(kind);
    assert QueueHolds(q, s.asyncs, kind);
    var x, y :| CutShortAt(s, t, kind, ANY, x, y);
    assert x in q && y in q;
    assert q[0] in q && q[1] in q;
  }

  /** Without lost APCs no request is doomed. */
  lemma NoneCutOff(s: Requests, kind: QueueKind, filter: Filter)
    requires NoneLost(s)
    ensures !CutOff(s, kind, filter)
  {
  }

  /** The loop is cut off only if everything up to the place where it goes on was doomed. */
  lemma CutOffHow(s: Requests, t: Requests, u: Requests, kind: QueueKind, filter: Filter, asked: set<int>, x: int, y: int)
    requires Moves(s, t, asked) && Moves(t, u, {x}) && Moves(s, u, asked)
    requires x in s.asyncs && s.asyncs[x].queue == kind && filter.Matches(s.asyncs[x].owner)
    requires y in s.asyncs && s.asyncs[y].queue == kind && x < y && y in t.asyncs && y !in u.asyncs
    ensures CutShort(s, u, kind, filter)
  {
    MovesAt(s, t, asked, y);
    MovesAt(t, u, {x}, y);
    forall z | z in s.asyncs && s.asyncs[z].queue == kind && z <= y
      ensures Doomed(s.asyncs[z], s.deaf) && z !in u.asyncs
    {
      MovesAt(s, t, asked, z);
      MovesAt(t, u, {x}, z);
      MovesAt(s, u, asked, z);
    }
    assert CutShortAt(s, u, kind, filter, x, y);
  }

  /** What is doomed afterwards was doomed before, and so was what is destroyed. */
  lemma CutOffBefore(s: Requests, t: Requests, asked: set<int>, kind: QueueKind, filter: Filter)
    requires Moves(s, t, asked) && CutOff(t, kind, filter)
    ensures CutOff(s, kind, filter)
  {
    var x, y :| CutOffAt(t, kind, filter, x, y);
    MovesKeep(s, t, asked, x);
    MovesKeep(s, t, asked, y);
    forall z | z in s.asyncs && s.asyncs[z].queue == kind && z <= y
      ensures Doomed(s.asyncs[z], s.deaf)
    {
      MovesAt(s, t, asked, z);
    }
    assert CutOffAt(s, kind, filter, x, y);
  }

  /** A request that has been woken up stays so while others are. */
  lemma StaysWoken(s: Requests, t: Requests, asked: set<int>, x: int, status: Status)
    requires Moves(s, t, asked) && x in t.asyncs && x !in asked && status != Pending
    ensures WokenIn(s, x, status) ==> WokenIn(t, x, status)
  {
    MovesAt(s, t, asked, x);
  }

  /** A doomed request that is alive still waits. */
  lemma DoomedWaits(s: Requests, t: Requests, asked: set<int>, x: int)
    requires Inv(s) && Inv(t) && Moves(s, t, asked) && x in s.asyncs && Doomed(s.asyncs[x], s.deaf) && x in t.asyncs
    ensures t.asyncs[x].status == Pending && t.asyncs[x].queue == s.asyncs[x].queue
  {
    MovesAt(s, t, asked, x);
    assert s.asyncs[x].Consistent() && t.asyncs[x].Consistent() && t.asyncs[x].refs > 0;
  }

  /** If no head is left waiting, nothing is left of requests that were all doomed. */
  lemma DoomedGone(s: Requests, t: Requests, asked: set<int>, kind: QueueKind, filter: Filter, x: int, y: int, n: int)
    requires Inv(s) && Inv(t) && Moves(s, t, asked) && !Waiting(t, kind)
    requires CutOffAt(s, kind, filter, x, y) && n in s.asyncs && s.asyncs[n].queue == kind && n <= y
    ensures n !in t.asyncs
  {
    hide Inv, Moves;
    if n in t.asyncs {
      DoomedWaits(s, t, asked, n);
      HeadFirst(t, kind, n);
      var h: int := t.QueueOf(kind)[0];
      MovesAt(s, t, asked, h);
      DoomedWaits(s, t, asked, h);
    }
  }

  /** The requests of a queue are destroyed from its head on, unless they are asked for. */
  lemma RestAlive(s: Requests, t: Requests, x: int, q: seq<int>, kind: QueueKind, i: nat)
    requires Moves(s, t, {x}) && Ascending(q) && i < |q| && q[i] in t.asyncs && x < q[i]
    requires forall k :: i <= k < |q| ==> q[k] in s.asyncs && s.asyncs[q[k]].queue == kind
    ensures forall k :: i <= k < |q| ==> q[k] in t.asyncs && t.asyncs[q[k]].queue == kind
  {
    forall k | i <= k < |q|
      ensures q[k] in t.asyncs && t.asyncs[q[k]].queue == kind
    {
      MovesAt(s, t, {x}, q[k]);
    }
  }

  /** The number of selected requests on a list. */
  function Count(q: seq<int>, asyncs: map<int, AsyncRequest>, filter: Filter): nat
    requires forall k :: 0 <= k < |q| ==> q[k] in asyncs
  {
    if q == [] then 0
    else Count(q[..|q| - 1], asyncs, filter) + (if filter.Matches(asyncs[q[|q| - 1]].owner) then 1 else 0)
  }

  ghost function SelectedIn(q: seq<int>, asyncs: map<int, AsyncRequest>, filter: Filter): set<int> {
    set x | x in q && x in asyncs && filter.Matches(asyncs[x].owner)
  }

  lemma SelectedNext(rest: seq<int>, last: int, asyncs: map<int, AsyncRequest>, filter: Filter)
    requires last in asyncs && last !in rest
    ensures |SelectedIn(rest + [last], asyncs, filter)| ==
            |SelectedIn(rest, asyncs, filter)| + (if filter.Matches(asyncs[last].owner) then 1 else 0)
  {
    var some, all := SelectedIn(rest, asyncs, filter), SelectedIn(rest + [last], asyncs, filter);
    if filter.Matches(asyncs[last].owner) {
      assert all == some + {last};
    } else {
      assert all == some;
    }
  }

  lemma {:induction false} CountSet(q: seq<int>, asyncs: map<int, AsyncRequest>, filter: Filter)
    requires Ascending(q) && forall k :: 0 <= k < |q| ==> q[k] in asyncs
    ensures Count(q, asyncs, filter) == |SelectedIn(q, asyncs, filter)|
    decreases |q|
  {
    hide SelectedIn, Filter.Matches;
    if q == [] {
      NoneSelectedIn(asyncs, filter);
    } else {
      var last, rest: seq<int> := q[|q| - 1], q[..|q| - 1];
      CountSet(rest, asyncs, filter);
      assert q == rest + [last];
      SelectedNext(rest, last, asyncs, filter);
    }
  }

  lemma NoneSelectedIn(asyncs: map<int, AsyncRequest>, filter: Filter)
    ensures SelectedIn([], asyncs, filter) == {}
  {
  }

  lemma CountNone(q: seq<int>, asyncs: map<int, AsyncRequest>, filter: Filter, x: int)
    requires Ascending(q) && forall k :: 0 <= k < |q| ==> q[k] in asyncs
    requires Count(q, asyncs, filter) == 0 && x in asyncs && filter.Matches(asyncs[x].owner)
    ensures x !in q
  {
    CountSet(q, asyncs, filter);
    assert x !in SelectedIn(q, asyncs, filter);
  }

  lemma CountNext(q: seq<int>, i: nat, asyncs: map<int, AsyncRequest>, filter: Filter)
    requires i < |q| && forall k :: 0 <= k < |q| ==> q[k] in asyncs
    ensures Count(q[..i + 1], asyncs, filter) ==
            Count(q[..i], asyncs, filter) + (if filter.Matches(asyncs[q[i]].owner) then 1 else 0)
  {
    assert q[..i + 1][..i] == q[..i];
  }

  lemma CountSelected(s: Requests, kind: QueueKind, filter: Filter)
    requires Inv(s) && forall k :: 0 <= k < |s.QueueOf(kind)| ==> s.QueueOf(kind)[k] in s.asyncs
    ensures Count(s.QueueOf(kind), s.asyncs, filter) == |Selected(s.asyncs, kind, filter)|
    ensures Selected(s.asyncs, kind, filter) == {} ==> !CutOff(s, kind, filter)
  {
    var q := s.QueueOf(kind);
    assert QueueHolds(q, s.asyncs, kind);
    CountSet(q, s.asyncs, filter);
    forall x: int
      ensures x in SelectedIn(q, s.asyncs, filter) <==> x in Selected(s.asyncs, kind, filter)
    {
      InQueue(s, x);
    }
    assert SelectedIn(q, s.asyncs, filter) == Selected(s.asyncs, kind, filter);
    if x, y :| CutOffAt(s, kind, filter, x, y) {
      assert x in Selected(s.asyncs, kind, filter);
    }
  }
}
