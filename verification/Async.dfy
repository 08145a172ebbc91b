/** Asynchronous I/O requests on a file descriptor, and the polling that alerts them. */
module Async {
  import opened AsyncSpec
  import opened Lists

  const CANCELLED := Other(0xC0000120)

  /** Poll events: data to read, room to write, error or hangup. */
  datatype Events = Events(pollIn: bool, pollOut: bool, error: bool)
  {
    /** The events alert the head of the queue. */
    predicate Alert(kind: QueueKind) {
      match kind case ReadQueue => pollIn || error case WriteQueue => pollOut || error case WaitQueue => false
    }
  }

  class AsyncFd {
    const regularFile: bool
    const answers: nat -> Events             // what the operating system answers each time it is asked
    var polls: nat                           // how often it has been asked
    var asyncs: map<int, AsyncRequest>
    var readQ: seq<int>
    var writeQ: seq<int>
    var waitQ: seq<int>
    var next: int
    var dead: set<int>                       // threads that are terminated
    var refusing: set<int>                   // threads that cannot be signalled at present
    ghost var ends: map<int, AsyncRequest>   // the requests that are destroyed
    var polled: Events                       // what the server polls the descriptor for
    var removed: bool                        // the descriptor is no longer polled at all

    ghost function State(): Requests
      reads this
    {
      Requests(asyncs, readQ, writeQ, waitQ, next, dead + refusing, ends)
    }

    /** Whether the first request of a queue is waiting to be alerted. */
    predicate AsyncWaiting(q: seq<int>)
      reads this`asyncs
    {
      q != [] && q[0] in asyncs && asyncs[q[0]].status == Pending
    }

    /** The default `get_poll_events` routine. */
    function GetPollEvents(): Events
      reads this`asyncs, this`readQ, this`writeQ
    {
      Events(AsyncWaiting(readQ), AsyncWaiting(writeQ), false)
    }

    /** The descriptor is polled for exactly what the heads of the queues wait for. */
    ghost predicate PollOk()
      reads this
    {
      !regularFile && !removed ==> polled == GetPollEvents()
    }

    /** What every operation keeps. */
    ghost predicate Valid()
      reads this
    {
      Inv(State()) && NoPins(State()) && PollOk()
    }

    /** From now on the operating system answers that the descriptor is ready for the requests of the queue. */
    ghost predicate AlwaysReady(kind: QueueKind)
      reads this`polls
    {
      regularFile || forall n: nat :: polls <= n ==> answers(n).Alert(kind)
    }

    constructor (regularFile: bool, answers: nat -> Events)
      ensures Valid() && State() == Requests(map[], [], [], [], 0, {}, map[])
      ensures this.regularFile == regularFile && this.answers == answers
      ensures dead == {} && refusing == {}
    {
      this.regularFile, this.answers, polls := regularFile, answers, 0;
      asyncs, readQ, writeQ, waitQ, next, ends := map[], [], [], [], 0, map[];
      dead, refusing := {}, {};
      polled, removed := Events(false, false, false), false;
    }

    /** Sets the events that the server waits for on this descriptor; once removed, it is not restarted. */
    method SetFdEvents(remove: bool, events: Events)
      modifies this`polled, this`removed
      ensures remove ==> removed
      ensures !remove ==> removed == old(removed) && (!removed ==> polled == events)
    {
      if remove {
        removed := true;
        polled := Events(false, false, true);
      } else if !removed {
        polled := events;
      }
    }

    /** Notifies the client of the new status of its request. A request that waits is given its APC, which is lost if
        there is none or its thread does not take it; the pending reference goes, perhaps the last one. A request that
        does not wait only gets the new status. */
    method AsyncTerminate(x: int, status: Status)
      requires Inv(State()) && x in asyncs && status != Pending
      modifies this
      ensures Inv(State()) && Moves(old(State()), State(), {x})
      ensures x in asyncs ==> asyncs[x].status == status || (asyncs[x].status == Alerted && x in State().Heads())
      ensures x in asyncs <==> !(old(asyncs[x].status) == Pending && !old(Queueable(asyncs[x], dead + refusing)) &&
                                 old(asyncs[x].handles) == 0 && old(asyncs[x].pins) == 0)
      ensures old(PollOk()) || (old(asyncs[x].status) == Pending && old(asyncs[x].queue) != WaitQueue) ==> PollOk()
      ensures old(asyncs[x].status) == Pending && old(asyncs[x].queue) != WaitQueue && old(AlwaysReady(asyncs[x].queue)) ==>
                !Waiting(State(), old(asyncs[x].queue))
      ensures dead == old(dead) && refusing == old(refusing) && old(polls) <= polls
      decreases |PendingSet(asyncs)|, 0
    {
      hide Moves, Inv, Waiting, Release;
      ghost var s := State();
      var a := asyncs[x];
      if a.status != Pending {
        NewStatus(s, x, status);
        asyncs := asyncs[x := a.(status := status)];
        return;
      }
      TakesApc(s, x, status);
      InQueue(s, x);
      asyncs := asyncs[x := TakeApc(a, status, Queueable(a, dead + refusing))];
      AsyncReselect(a.queue);
      ghost var t := State();
      Terminated(s, x, status, t);
      NoMorePending(Put(s, x, TakeApc(a, status, Queueable(a, dead + refusing))), t, {});
      AsyncRelease(x);
      AfterRelease(s, t, State(), x, status);
      ReleaseWaiting(t, x, a.queue);
    }

    /** Takes a request off its queue for good. */
    method AsyncDestroy(x: int)
      requires Inv(State()) && x in asyncs && asyncs[x].pins > 0
      modifies this`asyncs, this`ends, this`readQ, this`writeQ, this`waitQ
      ensures State() == Destroy(old(State()), x)
      ensures old(asyncs[x].queue) == WaitQueue ==> readQ == old(readQ) && writeQ == old(writeQ)
    {
      hide Inv, Without;
      WaitsNowhere(State(), x);
      var a := asyncs[x];
      ends, asyncs := ends[x := Unpinned(a)], asyncs - {x};
      match a.queue {
        case ReadQueue => readQ := Without(readQ, x);
        case WriteQueue => writeQ := Without(writeQ, x);
        case WaitQueue => waitQ := Without(waitQ, x);
      }
    }

    /** Releases a reference to a request; the last reference destroys it. */
    method AsyncRelease(x: int)
      requires Inv(State()) && x in asyncs && asyncs[x].pins > 0
      modifies this
      ensures Inv(State()) && Moves(Release(old(State()), x), State(), {})
      ensures x in asyncs <==> old(asyncs[x].refs) > 1
      ensures x in asyncs ==> State() == Release(old(State()), x)
      ensures old(PollOk()) || (x !in asyncs && old(asyncs[x].queue) != WaitQueue) ==> PollOk()
      ensures x !in asyncs && old(asyncs[x].queue) != WaitQueue && old(AlwaysReady(asyncs[x].queue)) ==>
                !Waiting(State(), old(asyncs[x].queue))
      ensures dead == old(dead) && refusing == old(refusing) && old(polls) <= polls
      decreases |PendingSet(asyncs)|, 4
    {
      hide Moves, Inv;
      ghost var s := State();
      ReleaseInv(s, x);
      MovesNot(Release(s, x), {});
      var a := asyncs[x];
      InQueue(s, x);
      if a.refs > 1 {
        asyncs := asyncs[x := Unpinned(a)];
        return;
      }
      AsyncDestroy(x);
      AsyncReselect(a.queue);
      MovesEnd(Destroy(s, x), State(), {}, x);
    }

    /** Chooses the events to poll for after the state of a queue has changed. */
    method AsyncReselect(queue: QueueKind)
      requires Inv(State())
      modifies this
      ensures Inv(State()) && Moves(old(State()), State(), {})
      ensures queue != WaitQueue ==> PollOk()
      ensures queue == WaitQueue ==> unchanged(this)
      ensures queue != WaitQueue && old(AlwaysReady(queue)) ==> !Waiting(State(), queue)
      ensures dead == old(dead) && refusing == old(refusing) && old(polls) <= polls
      decreases |PendingSet(asyncs)|, 3
    {
      hide Moves, Inv;
      ghost var s := State();
      MovesNot(s, {});
      if queue != WaitQueue {
        var pollEvents := GetPollEvents();
        var events := CheckFdEvents(pollEvents);
        if events.pollIn || events.pollOut || events.error {
          PollEvent(events);
          StaysAlerted(s, State(), {}, queue);
        } else {
          SetFdEvents(false, pollEvents);
        }
      }
    }

    /** What the operating system reports now: regular files are always ready. */
    method CheckFdEvents(wanted: Events) returns (events: Events)
      modifies this`polls
      ensures if regularFile then events == wanted && polls == old(polls)
              else events.pollIn == (wanted.pollIn && answers(old(polls)).pollIn) &&
                   events.pollOut == (wanted.pollOut && answers(old(polls)).pollOut) &&
                   events.error == answers(old(polls)).error && polls == old(polls) + 1
    {
      if regularFile {
        return wanted;
      }
      var answer := answers(polls);
      polls := polls + 1;
      events := Events(wanted.pollIn && answer.pollIn, wanted.pollOut && answer.pollOut, answer.error);
    }

    /** The default handler for poll events: it alerts the heads of the read and write queues. */
    method PollEvent(events: Events)
      requires Inv(State())
      modifies this
      ensures Inv(State()) && Moves(old(State()), State(), {})
      ensures PollOk()
      ensures events.error ==> removed
      ensures forall kind :: events.Alert(kind) ==> HeadDone(old(State()), State(), kind)
      ensures forall kind :: events.Alert(kind) && old(AlwaysReady(kind)) ==> !Waiting(State(), kind)
      ensures dead == old(dead) && refusing == old(refusing) && old(polls) <= polls
      decreases |PendingSet(asyncs)|, 2
    {
      hide Moves, Inv;
      ghost var s := State();
      MovesNot(s, {});
      if events.pollIn || events.error {
        AsyncWakeUpFirst(ReadQueue);
      }
      ghost var t := State();
      assert events.Alert(ReadQueue) ==> HeadDone(s, t, ReadQueue);
      NoMorePending(s, t, {});
      MovesNot(t, {});
      if events.pollOut || events.error {
        AsyncWakeUpFirst(WriteQueue);
      }
      MovesTrans(s, t, State(), {}, {});
      StaysAlerted(t, State(), {}, ReadQueue);
      if events.Alert(ReadQueue) {
        HeadDoneStays(s, t, State(), ReadQueue);
      }
      if events.Alert(WriteQueue) {
        HeadDoneLater(s, t, State(), WriteQueue);
      }
      UpdatePolling(events);
    }

    /** If an error occurred, the descriptor is no longer polled, to avoid busy-looping. */
    method UpdatePolling(events: Events)
      modifies this`polled, this`removed
      ensures PollOk() && (events.error ==> removed)
    {
      if events.error {
        SetFdEvents(true, events);
      } else if !regularFile {
        SetFdEvents(false, GetPollEvents());
      }
    }

    /** Alerts the first request of the read or write queue. */
    method AsyncWakeUpFirst(kind: QueueKind)
      requires Inv(State()) && kind != WaitQueue
      modifies this
      ensures Inv(State()) && Moves(old(State()), State(), {})
      ensures var q := old(State()).QueueOf(kind); q != [] && q[0] in asyncs ==> asyncs[q[0]].status == Alerted
      ensures old(AlwaysReady(kind)) ==> !Waiting(State(), kind)
      ensures dead == old(dead) && refusing == old(refusing) && old(polls) <= polls
      decreases |PendingSet(asyncs)|, 1
    {
      hide Moves, Inv;
      ghost var s := State();
      MovesNot(s, {});
      var q := if kind == ReadQueue then readQ else writeQ;
      if q != [] {
        InQueue(s, q[0]);
        AsyncTerminate(q[0], Alerted);
        HeadAsked(s, State(), q[0]);
        StaysAlerted(s, State(), {}, kind);
      }
    }

    // ----- requests -----

    /** A caller terminates a request, whatever its state. */
    method Terminate(x: int, status: Status)
      requires Valid() && x in asyncs && status != Pending
      modifies this
      ensures Valid() && Moves(old(State()), State(), {x})
      ensures dead == old(dead) && refusing == old(refusing) && old(polls) <= polls
      ensures x in asyncs ==> WokenIn(State(), x, status)
      ensures x in asyncs <==> !(old(asyncs[x].status) == Pending && !old(Queueable(asyncs[x], dead + refusing)) &&
                                 old(asyncs[x].handles) == 0)
      ensures old(asyncs[x].status) == Pending && old(asyncs[x].queue) != WaitQueue && old(AlwaysReady(asyncs[x].queue)) ==>
                !Waiting(State(), old(asyncs[x].queue))
    {
      hide Moves, Inv;
      ghost var s := State();
      AsyncTerminate(x, status);
      MovesNoPins(s, State(), {x});
    }

    /** Releases the reference that a call held on a request; `s` and `a` are what it began with. */
    method ReleaseAfter(ghost s: Requests, ghost a: AsyncRequest, x: int)
      requires Inv(State()) && NoPins(s) && x in s.asyncs && a.pins == 1 && Moves(Put(s, x, a), State(), {x})
      requires x in asyncs && asyncs[x].pins == 1
      modifies this
      ensures Inv(State()) && NoPins(State())
      ensures Moves(Release(old(State()), x), State(), {})
      ensures x in asyncs <==> old(asyncs[x].refs) > 1
      ensures x in asyncs ==> State() == Release(old(State()), x)
      ensures old(PollOk()) || (x !in asyncs && old(asyncs[x].queue) != WaitQueue) ==> PollOk()
      ensures dead == old(dead) && refusing == old(refusing)
    {
      hide Moves, Inv;
      PinsAt(s, a, State(), x);
      ghost var t := State();
      AsyncRelease(x);
      MovesNoPins(Release(t, x), State(), {});
    }

    /** The callback has a final result, and the APC is released. */
    method Complete(x: int, result: Status)
      requires Valid() && x in asyncs && asyncs[x].apcsOut > 0 && result != Pending
      modifies this
      ensures Valid() && (x in asyncs || x in ends) && (x in asyncs <==> old(asyncs[x].handles) > 0)
      ensures var a := Latest(State(), x); a.status == result && a.completed == 1 && !a.lost
      ensures old(NoneLost(State())) ==> NoneLost(State())
    {
      hide Moves, Inv, NoneLost;
      ghost var s := State();
      AliveAt(s, x);
      InQueue(s, x);
      var a := asyncs[x];
      var b := a.(apcsOut := a.apcsOut - 1, pins := 1, status := result, completed := a.completed + 1);
      PutInv(s, x, b);
      asyncs := asyncs[x := b];
      ghost var m := State();
      MovesNot(m, {x});
      ReleaseAfter(s, b, x);
      EndAfter(m, State(), x);
      StillNone(s, b, m, State(), x);
    }

    /** A request that waits again is polled for, or terminated with the status it was given in the meantime. */
    method Resume(x: int, status: Status)
      requires Inv(State()) && x in asyncs && asyncs[x].status == Pending && asyncs[x].pins == 1 && status != Pending
      modifies this
      ensures Inv(State()) && Moves(old(State()), State(), {x})
      ensures x in asyncs && TerminatedFrom(old(asyncs[x]), asyncs[x], dead + refusing)
      ensures status == Alerted ==> asyncs[x].status in {Pending, Alerted}
      ensures asyncs[x].status == Pending || asyncs[x].status == status ||
              (asyncs[x].status == Alerted && x in State().Heads())
      ensures old(PollOk()) || old(asyncs[x].queue) != WaitQueue ==> PollOk()
      ensures dead == old(dead) && refusing == old(refusing)
    {
      hide Moves, Inv;
      ghost var s := State();
      if status != Alerted {
        AsyncTerminate(x, status);
      } else {
        AsyncReselect(asyncs[x].queue);
        MovesHeld(s, State(), {}, x);
        MovesMore(s, State(), {}, {x});
      }
      MovesHeld(s, State(), {x}, x);
    }

    /** The callback has no result yet: the request waits again, or is terminated with the status it was given in the
        meantime. */
    method Restart(x: int, apcOk: bool)
      requires Valid() && x in asyncs && asyncs[x].apcsOut > 0
      modifies this
      ensures Valid() && (x in asyncs || x in ends)
      ensures Restarted(old(asyncs[x]), Latest(State(), x), apcOk, dead + refusing)
      ensures x in asyncs <==> !(Latest(State(), x).lost && old(asyncs[x].handles) == 0)
      ensures x in asyncs && old(asyncs[x].status) == Alerted ==> asyncs[x].status in {Pending, Alerted}
      ensures x in asyncs && asyncs[x].status != Pending ==>
                asyncs[x].status == old(asyncs[x].status) || (asyncs[x].status == Alerted && x in State().Heads())
      ensures old(NoneLost(State())) && apcOk ==> NoneLost(State())
    {
      hide Moves, Inv, NoneLost, Queueable;
      ghost var s := State();
      AliveAt(s, x);
      InQueue(s, x);
      var a := asyncs[x];
      var b := PutBack(a, apcOk);
      PutInv(s, x, b);
      asyncs := asyncs[x := b];
      Resume(x, a.status);
      AliveAt(State(), x);
      ghost var t := State();
      ReleaseAfter(s, b, x);
      EndAfter(t, State(), x);
      StillNone(s, b, t, State(), x);
      RestartedHow(a, b, t.asyncs[x], apcOk, dead + refusing);
    }

    /** Stores the result of the client-side callback. Results come only for an APC that is out. */
    method SetResult(x: int, result: Status, apcOk: bool)
      requires Valid() && x in asyncs && asyncs[x].apcsOut > 0
      modifies this
      ensures Valid() && (x in asyncs || x in ends)
      ensures var a := Latest(State(), x);
              if result == Pending then Restarted(old(asyncs[x]), a, apcOk, dead + refusing)
              else a.status == result && a.completed == 1 && !a.lost
      ensures result == Pending && x in asyncs && old(asyncs[x].status) == Alerted ==> asyncs[x].status in {Pending, Alerted}
      ensures old(NoneLost(State())) && (result == Pending ==> apcOk) ==> NoneLost(State())
    {
      if result == Pending {
        Restart(x, apcOk);
      } else {
        Complete(x, result);
      }
    }

    /** Creates a request at the end of a queue. */
    method CreateAsync(a: AsyncRequest) returns (x: int)
      requires Inv(State()) && a.Consistent() && a.refs > 0
      modifies this`asyncs, this`next, this`readQ, this`writeQ, this`waitQ
      ensures x == old(next) && State() == Enqueue(old(State()), a)
      ensures a.queue == WaitQueue && old(PollOk()) ==> PollOk()
    {
      hide Inv;
      HeadsKnown(State());
      x := next;
      asyncs, next := asyncs[x := a], next + 1;
      match a.queue {
        case ReadQueue => readQ := readQ + [x];
        case WriteQueue => writeQ := writeQ + [x];
        case WaitQueue => waitQ := waitQ + [x];
      }
    }

    /** Puts a new request on a queue, and polls for it; a regular file is always ready. */
    method QueueAsync(kind: QueueKind, owner: Owner, apcOk: bool) returns (x: int)
      requires Valid()
      modifies this
      ensures Valid() && x == old(next) && x in asyncs && asyncs[x].handles == 1 && asyncs[x].completed == 0
      ensures Moves(Enqueue(old(State()), NewRequest(kind, owner, apcOk)), State(), {})
      ensures kind == WaitQueue || !regularFile ==> State() == Enqueue(old(State()), NewRequest(kind, owner, apcOk))
      ensures asyncs[x].status != Pending ==> (asyncs[x].lost <==> !(apcOk && owner.thread !in dead + refusing))
      ensures old(NoneLost(State())) && apcOk ==> NoneLost(State())
      ensures dead == old(dead) && refusing == old(refusing)
    {
      hide Moves, Inv, Enqueue, NoneLost;
      ghost var s := State();
      var a := NewRequest(kind, owner, apcOk);
      EnqueueInv(s, a);
      EnqueueRest(s, a);
      x := CreateAsync(a);
      ghost var m := State();
      MovesNot(m, {});
      if kind != WaitQueue {
        if !regularFile {
          SetFdEvents(false, GetPollEvents());
        } else {
          AsyncWakeUpFirst(kind);
          RegularPoll();
        }
      }
      MovesCalled(m, State(), {}, x);
      MovesNoPins(m, State(), {});
      if apcOk && NoneLost(s) {
        MovesNone(m, State(), {});
      }
    }

    lemma RegularPoll()
      ensures regularFile ==> PollOk()
    {
    }

    /** A caller lets go of a request; the last reference destroys it. */
    method ReleaseHandle(x: int)
      requires Valid() && x in asyncs && asyncs[x].handles > 0
      modifies this
      ensures Valid() && (x in asyncs || x in ends) && (x in asyncs <==> old(asyncs[x].refs) > 1)
      ensures Latest(State(), x) == old(asyncs[x]).(handles := old(asyncs[x].handles) - 1, refs := old(asyncs[x].refs) - 1)
      ensures x in asyncs ==> State() == Put(old(State()), x, asyncs[x])
      ensures x !in asyncs ==> (ends[x].completed == 1 <==> !ends[x].lost)
      ensures old(NoneLost(State())) ==> NoneLost(State())
      ensures dead == old(dead) && refusing == old(refusing)
    {
      hide Moves, Inv, NoneLost;
      ghost var s := State();
      AliveAt(s, x);
      InQueue(s, x);
      var b := asyncs[x].(handles := asyncs[x].handles - 1, pins := 1);
      PutInv(s, x, b);
      asyncs := asyncs[x := b];
      ghost var m := State();
      MovesNot(m, {x});
      ReleaseAfter(s, b, x);
      EndAfter(m, State(), x);
      StillNone(s, b, m, State(), x);
      if x !in asyncs {
        EndedHow(State(), x);
      }
    }

    /** An APC that is out is released without a result: its thread dies, or its handle cannot be allocated or is
        closed. */
    method LoseApc(x: int)
      requires Valid() && x in asyncs && asyncs[x].apcsOut > 0
      modifies this
      ensures Valid() && (x in asyncs || x in ends) && (x in asyncs <==> old(asyncs[x].handles) > 0)
      ensures var a := Latest(State(), x); a.lost && a.completed == 0 && a.apcsOut == 0 && a.status == old(asyncs[x].status)
      ensures forall y :: y != x ==> Settled(old(State()), State(), y)
      ensures dead == old(dead) && refusing == old(refusing)
    {
      hide Moves, Inv;
      ghost var s := State();
      AliveAt(s, x);
      InQueue(s, x);
      var b := asyncs[x].(apcsOut := 0, pins := 1, lost := true);
      PutInv(s, x, b);
      asyncs := asyncs[x := b];
      ghost var m := State();
      MovesNot(m, {x});
      ReleaseAfter(s, b, x);
      EndAfter(m, State(), x);
      forall y | y != x
        ensures Settled(s, State(), y)
      {
        MovesAt(Release(m, x), State(), {}, y);
      }
    }

    /** A thread is killed: no APC can be queued to it any more, and those that are still on its queue are lost. */
    method ThreadDies(thread: int, queued: seq<int>)
      requires Valid()
      requires forall k :: 0 <= k < |queued| ==> queued[k] in asyncs && asyncs[queued[k]].owner.thread == thread
      requires forall k :: 0 <= k < |queued| ==> asyncs[queued[k]].apcsOut > 0
      requires forall j, k :: 0 <= j < k < |queued| ==> queued[j] != queued[k]
      modifies this
      ensures Valid() && dead == old(dead) + {thread} && refusing == old(refusing)
      ensures forall k :: 0 <= k < |queued| ==> LostIn(State(), queued[k])
    {
      hide Moves, Inv;
      DeafLists(State(), dead + {thread} + refusing);
      forall k | 0 <= k < |queued|
        ensures asyncs[queued[k]].status != Pending
      {
        AliveAt(State(), queued[k]);
      }
      dead := dead + {thread};
      var i := 0;
      while i < |queued|
        invariant 0 <= i <= |queued| && Valid() && dead == old(dead) + {thread} && refusing == old(refusing)
        invariant forall k :: 0 <= k < i ==> LostIn(State(), queued[k])
        invariant forall k :: i <= k < |queued| ==>
                    queued[k] in asyncs && asyncs[queued[k]].apcsOut > 0 && asyncs[queued[k]].status != Pending
      {
        ghost var before := State();
        LoseApc(queued[i]);
        forall k | 0 <= k < |queued| && k != i
          ensures k < i ==> LostIn(State(), queued[k])
          ensures i < k ==> queued[k] in asyncs && asyncs[queued[k]].apcsOut > 0 && asyncs[queued[k]].status != Pending
        {
          StaysSettled(before, State(), queued[i], queued[k]);
        }
        i := i + 1;
      }
    }

    /** Some threads can be signalled, and others cannot. */
    method SetRefusing(threads: set<int>)
      requires Valid()
      modifies this`refusing
      ensures Valid() && refusing == threads
    {
      hide Moves, Inv;
      DeafLists(State(), dead + threads);
      refusing := threads;
    }

    /** Wakes up one selected request; `s` is the state at the beginning of the loop. Whether the request where the loop
        goes on is still there. */
    method WakeAt(ghost s: Requests, q: seq<int>, kind: QueueKind, i: nat, filter: Filter, status: Status) returns (ok: bool)
      requires Valid() && status != Pending && q == s.QueueOf(kind) && i < |q| && Inv(s) && Ascending(q)
      requires Moves(s, State(), Selected(s.asyncs, kind, filter)) && AllWoken(s, State(), q[..i], filter, status)
      requires forall k :: 0 <= k < |q| ==> q[k] in s.asyncs && s.asyncs[q[k]].queue == kind
      requires forall k :: i <= k < |q| ==> q[k] in asyncs && asyncs[q[k]].queue == kind
      requires filter.Matches(s.asyncs[q[i]].owner)
      modifies this
      ensures Valid() && dead == old(dead) && refusing == old(refusing) && old(polls) <= polls
      ensures Moves(s, State(), Selected(s.asyncs, kind, filter))
      ensures !ok ==> CutShort(s, State(), kind, filter) && CutOff(s, kind, filter)
      ensures ok ==> AllWoken(s, State(), q[..i + 1], filter, status)
      ensures ok ==> forall k :: i + 1 <= k < |q| ==> q[k] in asyncs && asyncs[q[k]].queue == kind
      ensures ok && old(State()) == s && old(AlwaysReady(kind)) && Count(q[..i], s.asyncs, filter) == 0 ==>
                !CutOff(s, kind, filter)
    {
      hide Moves, Inv, CutOff, CutShort, Selected, AllWoken, WokenIn, Waiting, Count, Doomed, Queueable, NoPins, PollOk;
      var x := q[i];
      ghost var t, ready := State(), AlwaysReady(kind);
      Terminate(x, status);
      SelectedAt(s, kind, filter, x);
      MovesTrans(s, t, State(), Selected(s.asyncs, kind, filter), {x});
      ok := !(i + 1 < |q| && q[i + 1] !in asyncs);
      if !ok {
        CutOffHow(s, t, State(), kind, filter, Selected(s.asyncs, kind, filter), x, q[i + 1]);
        CutShortOff(s, State(), kind, filter);
      } else {
        WokenNext(s, t, State(), q, kind, i, filter, status);
        if t == s && ready && Count(q[..i], s.asyncs, filter) == 0 {
          NotCutOff(s, State(), kind, filter, i);
        }
      }
    }

    /** Wakes up the selected requests on a queue. The place where to go on is read before a request is woken up; if the
        request there is destroyed in the meantime, there is no way to go on. */
    method WakeEach(kind: QueueKind, filter: Filter, status: Status) returns (ok: bool, woken: nat)
      requires Valid() && status != Pending
      modifies this
      ensures Valid() && dead == old(dead) && refusing == old(refusing) && old(polls) <= polls
      ensures Moves(old(State()), State(), Selected(old(asyncs), kind, filter))
      ensures ok ==> forall x :: x in asyncs && asyncs[x].queue == kind && filter.Matches(asyncs[x].owner) ==>
                       WokenIn(State(), x, status)
      ensures ok ==> woken == |Selected(old(asyncs), kind, filter)|
      ensures Selected(old(asyncs), kind, filter) == {} ==> State() == old(State()) && polls == old(polls)
      ensures !ok ==> CutShort(old(State()), State(), kind, filter) && old(CutOff(State(), kind, filter))
      ensures old(CutOff(State(), kind, filter) && AlwaysReady(kind)) ==> !ok
    {
      hide Moves, Inv, CutOff, CutShort, Selected, AllWoken, WokenIn, Waiting, Count, Doomed, Queueable, NoPins, PollOk,
        Ascending, AlwaysReady, Filter.Matches;
      ghost var s, ready := State(), AlwaysReady(kind);
      var q := match kind case ReadQueue => readQ case WriteQueue => writeQ case WaitQueue => waitQ;
      QueueAt(s, kind);
      MovesNot(s, Selected(s.asyncs, kind, filter));
      WokenNone(s, q, filter, status);
      ok, woken := true, 0;
      var i := 0;
      while i < |q|
        invariant 0 <= i <= |q| && Valid() && dead == old(dead) && refusing == old(refusing) && old(polls) <= polls
        invariant Moves(s, State(), Selected(s.asyncs, kind, filter))
        invariant forall k :: i <= k < |q| ==> q[k] in asyncs && asyncs[q[k]].queue == kind
        invariant AllWoken(s, State(), q[..i], filter, status)
        invariant woken == Count(q[..i], s.asyncs, filter)
        invariant woken == 0 ==> State() == s && polls == old(polls)
        invariant woken > 0 && ready ==> !CutOff(s, kind, filter)
      {
        MovesKeep(s, State(), Selected(s.asyncs, kind, filter), q[i]);
        if filter.Matches(asyncs[q[i]].owner) {
          SelectedAt(s, kind, filter, q[i]);
          ok := WakeAt(s, q, kind, i, filter, status);
          if !ok {
            return;
          }
          woken := woken + 1;
        } else {
          WokenSkip(s, State(), q, i, filter, status);
        }
        CountNext(q, i, s.asyncs, filter);
        i := i + 1;
      }
      assert q[..|q|] == q;
      WokenAll(s, State(), q, kind, filter, status);
      CountSelected(s, kind, filter);
    }

    /** Wakes up the requests of a process or a thread, or those for one status block; nothing if none of these is
        given. */
    method AsyncWakeUpBy(kind: QueueKind, filter: Filter, status: Status) returns (ok: bool, woken: nat)
      requires Valid() && status != Pending
      modifies this
      ensures Valid() && dead == old(dead) && refusing == old(refusing) && old(polls) <= polls
      ensures filter == ANY ==> ok && woken == 0 && unchanged(this)
      ensures Moves(old(State()), State(), Selected(old(asyncs), kind, filter))
      ensures ok && filter != ANY ==>
                && woken == |Selected(old(asyncs), kind, filter)|
                && (forall x :: x in asyncs && asyncs[x].queue == kind && filter.Matches(asyncs[x].owner) ==>
                                  WokenIn(State(), x, status))
      ensures Selected(old(asyncs), kind, filter) == {} ==> State() == old(State()) && polls == old(polls)
      ensures !ok ==> CutShort(old(State()), State(), kind, filter) && old(CutOff(State(), kind, filter))
      ensures old(CutOff(State(), kind, filter) && AlwaysReady(kind)) && filter != ANY ==> !ok
    {
      hide Moves, Inv, CutOff, CutShort, Selected;
      if filter == ANY {
        MovesNot(State(), Selected(asyncs, kind, filter));
        return true, 0;
      }
      ok, woken := WakeEach(kind, filter, status);
    }

    /** Cancels the selected requests on all queues. It is an error if a status block is given and no request is for
        it. */
    method CancelAsync(filter: Filter) returns (ok: bool, notFound: bool)
      requires Valid()
      modifies this
      ensures Valid() && dead == old(dead) && refusing == old(refusing)
      ensures filter == ANY ==> ok && !notFound && unchanged(this)
      ensures Moves(old(State()), State(), AllSelected(old(asyncs), filter))
      ensures ok && filter != ANY ==>
                forall x :: x in asyncs && filter.Matches(asyncs[x].owner) ==> WokenIn(State(), x, CANCELLED)
      ensures filter != ANY ==> (notFound <==> filter.iosb.Some? && AllSelected(old(asyncs), filter) == {})
      ensures !ok ==> old(CutOff(State(), ReadQueue, filter) || CutOff(State(), WriteQueue, filter))
      ensures old(CutOff(State(), ReadQueue, filter) && AlwaysReady(ReadQueue)) && filter != ANY ==> !ok
      ensures filter != ANY && Selected(old(asyncs), ReadQueue, filter) == {} ==>
                old(CutOff(State(), WriteQueue, filter) && AlwaysReady(WriteQueue)) ==> !ok
    {
      hide Moves, Inv, CutOff, CutShort, Selected, AllSelected, WokenIn, NoPins, PollOk;
      ghost var s, all := State(), AllSelected(asyncs, filter);
      var n, m, k: nat;
      notFound := false;
      ok, n := AsyncWakeUpBy(ReadQueue, filter, CANCELLED);
      ghost var t := State();
      SelectedPart(s, s, {}, ReadQueue, filter);
      MovesMore(s, t, Selected(s.asyncs, ReadQueue, filter), all);
      if !ok {
        CutOffSelected(s, ReadQueue, filter);
        return;
      }
      ok, m := AsyncWakeUpBy(WriteQueue, filter, CANCELLED);
      ghost var u := State();
      SelectedPart(s, t, all, WriteQueue, filter);
      MovesTrans(s, t, u, all, Selected(t.asyncs, WriteQueue, filter));
      if !ok {
        CutOffBefore(s, t, all, WriteQueue, filter);
        CutOffSelected(s, WriteQueue, filter);
        return;
      }
      ok, k := AsyncWakeUpBy(WaitQueue, filter, CANCELLED);
      SelectedPart(s, u, all, WaitQueue, filter);
      MovesTrans(s, u, State(), all, Selected(u.asyncs, WaitQueue, filter));
      NoWaitCutOff(u, filter);
      if filter != ANY {
        CancelWoken(t, u, State(), filter);
        NoneSelected(s, t, u, filter, n, m, k);
      }
      notFound := n + m + k == 0 && filter.iosb.Some?;
    }

    /** Wakes up all requests on a queue. */
    method AsyncWakeUp(kind: QueueKind, status: Status) returns (ok: bool)
      requires Valid() && status != Pending && status != Alerted
      modifies this
      ensures Valid() && dead == old(dead) && refusing == old(refusing) && old(polls) <= polls
      ensures Moves(old(State()), State(), Selected(old(asyncs), kind, ANY))
      ensures ok ==> forall x :: x in asyncs && asyncs[x].queue == kind ==> WokenIn(State(), x, status)
      ensures !ok ==> old(FirstTwoDoomed(State(), kind))
      ensures !ok ==> var q := old(State()).QueueOf(kind); |q| >= 2 && q[0] !in asyncs && q[1] !in asyncs
      ensures old(FirstTwoDoomed(State(), kind) && AlwaysReady(kind)) ==> !ok
    {
      hide Moves, Inv, CutOff, CutShort, Selected, FirstTwoDoomed;
      ghost var s := State();
      CutOffAny(s, kind);
      var woken;
      ok, woken := WakeEach(kind, ANY, status);
      if !ok {
        FirstTwoGone(s, State(), kind);
      }
    }
  }

  /** A request is on one queue only. */
  lemma WaitsNowhere(s: Requests, x: int)
    requires Inv(s) && x in s.asyncs
    ensures s.asyncs[x].queue != ReadQueue ==> Without(s.readQ, x) == s.readQ
    ensures s.asyncs[x].queue != WriteQueue ==> Without(s.writeQ, x) == s.writeQ
    ensures s.asyncs[x].queue != WaitQueue ==> Without(s.waitQ, x) == s.waitQ
  {
    InQueue(s, x);
    if s.asyncs[x].queue != ReadQueue {
      WithoutAbsent(s.readQ, x);
    }
    if s.asyncs[x].queue != WriteQueue {
      WithoutAbsent(s.writeQ, x);
    }
    if s.asyncs[x].queue != WaitQueue {
      WithoutAbsent(s.waitQ, x);
    }
  }

  /** Alerting a head counts as a change to the heads only. */
  lemma HeadAsked(s: Requests, t: Requests, x: int)
    requires Inv(s) && Moves(s, t, {x}) && x in s.Heads() && (x in t.asyncs ==> t.asyncs[x].status == Alerted)
    ensures Moves(s, t, {})
  {
    InQueue(s, x);
    forall z | z in s.asyncs && x in s.asyncs && s.asyncs[z].queue == s.asyncs[x].queue
      ensures x <= z
    {
      HeadFirst(s, s.asyncs[x].queue, z);
    }
    forall y
      ensures MovesOne(s, t, {}, y)
    {
      assert MovesOne(s, t, {x}, y);
    }
  }

  lemma AfterRelease(s: Requests, t: Requests, u: Requests, x: int, status: Status)
    requires x in t.asyncs && t.asyncs[x].pins > 0
    requires Moves(s, Release(t, x), {x}) && Moves(Release(t, x), u, {})
    requires t.asyncs[x].status == status || (t.asyncs[x].status == Alerted && x in t.Heads())
    ensures Moves(s, u, {x})
    ensures x in u.asyncs ==> u.asyncs[x].status == status || (u.asyncs[x].status == Alerted && x in u.Heads())
  {
    MovesTrans(s, Release(t, x), u, {x}, {});
    MovesAt(Release(t, x), u, {}, x);
  }

  /** Releasing a reference that is not the last does not make a head wait. */
  lemma ReleaseWaiting(t: Requests, x: int, kind: QueueKind)
    requires x in t.asyncs && t.asyncs[x].pins > 0
    ensures t.asyncs[x].refs > 1 && Waiting(Release(t, x), kind) ==> Waiting(t, kind)
  {
  }

  lemma AliveAt(s: Requests, x: int)
    requires Inv(s) && x in s.asyncs
    ensures s.asyncs[x].Consistent() && s.asyncs[x].refs > 0
  {
  }

  lemma MovesMore(s: Requests, t: Requests, asked: set<int>, asked': set<int>)
    requires Moves(s, t, asked) && asked <= asked'
    ensures Moves(s, t, asked')
  {
    forall y
      ensures MovesOne(s, t, asked', y)
    {
      assert MovesOne(s, t, asked, y);
    }
  }

  /** Only the request of the call is held by it. */
  lemma PinsAt(s: Requests, a: AsyncRequest, t: Requests, x: int)
    requires NoPins(s) && x in s.asyncs && a.pins == 1 && Moves(Put(s, x, a), t, {x})
    requires x in t.asyncs && t.asyncs[x].pins == 1
    ensures NoPins(Release(t, x))
  {
    var u := Release(t, x);
    forall y | y in u.asyncs
      ensures u.asyncs[y].pins == 0
    {
      assert MovesOne(Put(s, x, a), t, {x}, y);
    }
  }

  /** The heads of the queues are requests. */
  lemma HeadsKnown(s: Requests)
    requires Inv(s)
    ensures s.readQ != [] ==> s.readQ[0] in s.asyncs
    ensures s.writeQ != [] ==> s.writeQ[0] in s.asyncs
    ensures s.next !in s.asyncs
  {
    if s.readQ != [] {
      InQueue(s, s.readQ[0]);
    }
    if s.writeQ != [] {
      InQueue(s, s.writeQ[0]);
    }
  }

  /** A request that is released stays as it was then. */
  lemma EndAfter(t: Requests, u: Requests, x: int)
    requires x in t.asyncs && t.asyncs[x].pins > 0 && Moves(Release(t, x), u, {}) && Inv(t)
    requires (x in u.asyncs <==> t.asyncs[x].refs > 1) && (x in u.asyncs ==> u == Release(t, x))
    ensures x in u.asyncs || x in u.ends
    ensures Latest(u, x) == Unpinned(t.asyncs[x])
  {
    hide Inv;
    if x !in u.asyncs {
      MovesAt(Release(t, x), u, {}, x);
    }
  }

  /** A request that waits again: the reference of its APC is held by the call. */
  function PutBack(a: AsyncRequest, apcOk: bool): AsyncRequest
    requires a.apcsOut > 0
  {
    a.(apcsOut := a.apcsOut - 1, pins := 1, status := Pending, apc := apcOk, refs := a.refs + 1)
  }

  lemma RestartedHow(a: AsyncRequest, b: AsyncRequest, c: AsyncRequest, apcOk: bool, deaf: set<int>)
    requires a.Consistent() && a.apcsOut > 0 && a.pins == 0 && b == PutBack(a, apcOk) && TerminatedFrom(b, c, deaf) && c.Consistent()
    requires c.pins > 0
    ensures Restarted(a, Unpinned(c), apcOk, deaf)
    ensures c.refs > 1 <==> !(c.lost && a.handles == 0)
  {
  }

  /** A new request waits, with a reference for its caller and one for the queue. */
  function NewRequest(kind: QueueKind, owner: Owner, apcOk: bool): AsyncRequest {
    AsyncRequest(Pending, kind, owner, apcOk, 0, 2, 1, 0, 0, false)
  }

  lemma EnqueueRest(s: Requests, a: AsyncRequest)
    requires Inv(s) && NoPins(s) && a.pins == 0
    ensures s.next in Enqueue(s, a).asyncs && Enqueue(s, a).asyncs[s.next] == a && NoPins(Enqueue(s, a))
    ensures NoneLost(s) && !a.lost && a.apc ==> NoneLost(Enqueue(s, a))
    ensures Enqueue(s, a).deaf == s.deaf
  {
  }

  /** A request that a caller has is not destroyed. */
  lemma MovesCalled(s: Requests, t: Requests, asked: set<int>, x: int)
    requires Moves(s, t, asked) && x in s.asyncs && s.asyncs[x].handles > 0
    ensures x in t.asyncs && TerminatedFrom(s.asyncs[x], t.asyncs[x], s.deaf)
  {
    assert MovesOne(s, t, asked, x);
  }

  ghost predicate LostIn(s: Requests, x: int) {
    (x in s.asyncs || x in s.ends) && Latest(s, x).lost && Latest(s, x).completed == 0
  }

  /** What other calls may change in a request that does not wait, or is destroyed. */
  ghost predicate Settled(s: Requests, t: Requests, y: int) {
    && (y in s.asyncs && s.asyncs[y].status != Pending ==>
          y in t.asyncs && t.asyncs[y].status != Pending && t.asyncs[y] == s.asyncs[y].(status := t.asyncs[y].status))
    && (y in s.ends && y !in s.asyncs ==> y in t.ends && y !in t.asyncs && t.ends[y] == s.ends[y])
  }

  lemma StaysSettled(s: Requests, t: Requests, x: int, y: int)
    requires Inv(s) && x != y && forall z :: z != x ==> Settled(s, t, z)
    ensures LostIn(s, y) ==> LostIn(t, y)
    ensures y in s.asyncs && s.asyncs[y].apcsOut > 0 ==>
              y in t.asyncs && t.asyncs[y].apcsOut > 0 && t.asyncs[y].status != Pending
  {
    assert Settled(s, t, y);
    if y in s.asyncs {
      AliveAt(s, y);
    }
  }

  lemma DeafLists(s: Requests, deaf: set<int>)
    requires Inv(s)
    ensures Inv(s.(deaf := deaf)) && (NoPins(s) ==> NoPins(s.(deaf := deaf)))
  {
  }

  // ----- waking up a whole queue -----

  lemma QueueAt(s: Requests, kind: QueueKind)
    requires Inv(s)
    ensures var q := s.QueueOf(kind);
            Ascending(q) && forall k :: 0 <= k < |q| ==> q[k] in s.asyncs && s.asyncs[q[k]].queue == kind
  {
    var q := s.QueueOf(kind);
    assert QueueHolds(q, s.asyncs, kind);
    forall k | 0 <= k < |q|
      ensures q[k] in s.asyncs && s.asyncs[q[k]].queue == kind
    {
      assert q[k] in q;
    }
  }

  lemma SelectedAt(s: Requests, kind: QueueKind, filter: Filter, x: int)
    ensures x in Selected(s.asyncs, kind, filter) <==>
            x in s.asyncs && s.asyncs[x].queue == kind && filter.Matches(s.asyncs[x].owner)
  {
  }

  /** Of the requests on the list those that are selected and left have been woken up. */
  ghost predicate AllWoken(s: Requests, t: Requests, list: seq<int>, filter: Filter, status: Status) {
    forall k :: 0 <= k < |list| && list[k] in s.asyncs && filter.Matches(s.asyncs[list[k]].owner) && list[k] in t.asyncs ==>
      WokenIn(t, list[k], status)
  }

  lemma WokenNext(s: Requests, t: Requests, u: Requests, q: seq<int>, kind: QueueKind, i: nat, filter: Filter, status: Status)
    requires i < |q| && Moves(t, u, {q[i]}) && status != Pending && Ascending(q)
    requires q[i] in u.asyncs ==> WokenIn(u, q[i], status)
    requires AllWoken(s, t, q[..i], filter, status)
    requires forall k :: i <= k < |q| ==> q[k] in t.asyncs && t.asyncs[q[k]].queue == kind
    requires i + 1 < |q| ==> q[i + 1] in u.asyncs
    ensures AllWoken(s, u, q[..i + 1], filter, status)
    ensures forall k :: i + 1 <= k < |q| ==> q[k] in u.asyncs && u.asyncs[q[k]].queue == kind
  {
    hide Moves;
    forall k | 0 <= k < i + 1 && q[k] in s.asyncs && filter.Matches(s.asyncs[q[k]].owner) && q[k] in u.asyncs
      ensures WokenIn(u, q[k], status)
    {
      MovesAt(t, u, {q[i]}, q[k]);
      if k < i {
        assert q[..i][k] == q[k];
      }
    }
    if i + 1 < |q| {
      RestAlive(t, u, q[i], q, kind, i + 1);
    }
  }
  lemma WokenNone(s: Requests, q: seq<int>, filter: Filter, status: Status)
    ensures q[..0] == [] && AllWoken(s, s, q[..0], filter, status) && Count(q[..0], s.asyncs, filter) == 0
  {
  }

  lemma WokenSkip(s: Requests, t: Requests, q: seq<int>, i: nat, filter: Filter, status: Status)
    requires i < |q| && AllWoken(s, t, q[..i], filter, status)
    requires q[i] in s.asyncs && !filter.Matches(s.asyncs[q[i]].owner)
    ensures AllWoken(s, t, q[..i + 1], filter, status)
  {
    forall k | 0 <= k < i + 1 && q[k] in s.asyncs && filter.Matches(s.asyncs[q[k]].owner) && q[k] in t.asyncs
      ensures WokenIn(t, q[k], status)
    {
      assert q[..i][k] == q[k];
    }
  }

  lemma WokenAll(s: Requests, t: Requests, q: seq<int>, kind: QueueKind, filter: Filter, status: Status)
    requires Inv(s) && Moves(s, t, Selected(s.asyncs, kind, filter)) && q == s.QueueOf(kind)
    requires AllWoken(s, t, q, filter, status)
    ensures forall x :: x in t.asyncs && t.asyncs[x].queue == kind && filter.Matches(t.asyncs[x].owner) ==>
              WokenIn(t, x, status)
  {
    hide Inv, Moves, Selected;
    forall x | x in t.asyncs && t.asyncs[x].queue == kind && filter.Matches(t.asyncs[x].owner)
      ensures WokenIn(t, x, status)
    {
      MovesAt(s, t, Selected(s.asyncs, kind, filter), x);
      InQueue(s, x);
      assert x in q;
    }
  }

  /** If the first selected request is woken up without cutting off the loop, although no head is left waiting, then the
      loop is not cut off at all. */
  lemma NotCutOff(s: Requests, t: Requests, kind: QueueKind, filter: Filter, i: nat)
    requires var q := s.QueueOf(kind);
             && i < |q| && (forall k :: 0 <= k < |q| ==> q[k] in s.asyncs && s.asyncs[q[k]].queue == kind) && Ascending(q)
             && Count(q[..i], s.asyncs, filter) == 0
             && Moves(s, t, {q[i]}) && Inv(s) && Inv(t) && (i + 1 < |q| ==> q[i + 1] in t.asyncs)
             && (s.asyncs[q[i]].status == Pending && kind != WaitQueue ==> !Waiting(t, kind))
    ensures !CutOff(s, kind, filter)
  {
    hide Inv, Moves;
    var q := s.QueueOf(kind);
    if CutOff(s, kind, filter) {
      var x, y :| CutOffAt(s, kind, filter, x, y);
      var j := PlaceOf(s, kind, x);
      var k := PlaceOf(s, kind, y);
      CountNone(q[..i], s.asyncs, filter, x);
      assert i <= j < k;
      assert q[i] <= x && q[i + 1] <= y;
      DoomedGone(s, t, {q[i]}, kind, filter, x, y, q[i + 1]);
    }
  }

  /** Where a request is on its queue. */
  lemma PlaceOf(s: Requests, kind: QueueKind, x: int) returns (k: nat)
    requires Inv(s) && x in s.asyncs && s.asyncs[x].queue == kind
    ensures k < |s.QueueOf(kind)| && s.QueueOf(kind)[k] == x
  {
    InQueue(s, x);
    k :| 0 <= k < |s.QueueOf(kind)| && s.QueueOf(kind)[k] == x;
  }

  // ----- cancelling requests on all queues -----

  lemma SelectedPart(s: Requests, t: Requests, asked: set<int>, kind: QueueKind, filter: Filter)
    requires s == t || Moves(s, t, asked)
    ensures Selected(t.asyncs, kind, filter) <= AllSelected(s.asyncs, filter)
  {
    forall x | x in Selected(t.asyncs, kind, filter)
      ensures x in AllSelected(s.asyncs, filter)
    {
      if s != t {
        MovesKeep(s, t, asked, x);
      }
    }
  }

  lemma CutOffSelected(s: Requests, kind: QueueKind, filter: Filter)
    requires CutOff(s, kind, filter)
    ensures AllSelected(s.asyncs, filter) != {}
  {
    var x, y :| CutOffAt(s, kind, filter, x, y);
    assert x in AllSelected(s.asyncs, filter);
  }

  lemma NoWaitCutOff(s: Requests, filter: Filter)
    ensures !CutOff(s, WaitQueue, filter)
  {
  }

  ghost predicate KindWoken(s: Requests, kind: QueueKind, filter: Filter) {
    forall x :: x in s.asyncs && s.asyncs[x].queue == kind && filter.Matches(s.asyncs[x].owner) ==>
      WokenIn(s, x, CANCELLED)
  }

  lemma KindStaysWoken(s: Requests, t: Requests, kind: QueueKind, other: QueueKind, filter: Filter)
    requires Moves(s, t, Selected(s.asyncs, other, filter)) && kind != other && KindWoken(s, kind, filter)
    ensures KindWoken(t, kind, filter)
  {
    hide Moves;
    forall x | x in t.asyncs && t.asyncs[x].queue == kind && filter.Matches(t.asyncs[x].owner)
      ensures WokenIn(t, x, CANCELLED)
    {
      MovesKeep(s, t, Selected(s.asyncs, other, filter), x);
      StaysWoken(s, t, Selected(s.asyncs, other, filter), x, CANCELLED);
    }
  }

  lemma CancelWoken(t: Requests, u: Requests, v: Requests, filter: Filter)
    requires Moves(t, u, Selected(t.asyncs, WriteQueue, filter)) && Moves(u, v, Selected(u.asyncs, WaitQueue, filter))
    requires KindWoken(t, ReadQueue, filter) && KindWoken(u, WriteQueue, filter) && KindWoken(v, WaitQueue, filter)
    ensures forall x :: x in v.asyncs && filter.Matches(v.asyncs[x].owner) ==> WokenIn(v, x, CANCELLED)
  {
    hide Moves, WokenIn;
    KindStaysWoken(t, u, ReadQueue, WriteQueue, filter);
    KindStaysWoken(u, v, ReadQueue, WaitQueue, filter);
    KindStaysWoken(u, v, WriteQueue, WaitQueue, filter);
  }

  /** Nothing is cancelled exactly if nothing was selected to begin with. */
  lemma NoneSelected(s: Requests, t: Requests, u: Requests, filter: Filter, n: nat, m: nat, k: nat)
    requires n == |Selected(s.asyncs, ReadQueue, filter)| && (Selected(s.asyncs, ReadQueue, filter) == {} ==> t == s)
    requires m == |Selected(t.asyncs, WriteQueue, filter)| && (Selected(t.asyncs, WriteQueue, filter) == {} ==> u == t)
    requires k == |Selected(u.asyncs, WaitQueue, filter)|
    ensures n + m + k == 0 <==> AllSelected(s.asyncs, filter) == {}
  {
    forall x
      ensures x in AllSelected(s.asyncs, filter) <==>
              || x in Selected(s.asyncs, ReadQueue, filter) || x in Selected(s.asyncs, WriteQueue, filter)
              || x in Selected(s.asyncs, WaitQueue, filter)
    {
    }
  }

  // ----- runs -----

  /** A request or event; one for a request that does not exist, or a result without an APC, does not happen. */
  datatype Step =
    | Queue(kind: QueueKind, owner: Owner, apcOk: bool)
    | Cancel(x: int, status: Status)
    | Result(x: int, result: Status, apcOk: bool)
    | Poll(events: Events)
    | CloseHandle(x: int)
    | WakeAll(kind: QueueKind, code: int)
    | CancelBy(filter: Filter)
    | LoseResult(x: int)
    | Kill(thread: int, queued: seq<int>)
    | Refuse(threads: set<int>)

  /** Every APC is allocated and can be queued, and none is dropped. */
  predicate Safe(step: Step) {
    match step
    case Queue(_, _, apcOk) => apcOk
    case Result(_, _, apcOk) => apcOk
    case LoseResult(_) => false
    case Kill(_, _) => false
    case Refuse(threads) => threads == {}
    case _ => true
  }

  /** The APCs that are on the queue of a thread are out. */
  predicate OnThread(asyncs: map<int, AsyncRequest>, thread: int, queued: seq<int>) {
    && (forall k :: 0 <= k < |queued| ==>
          queued[k] in asyncs && asyncs[queued[k]].owner.thread == thread && asyncs[queued[k]].apcsOut > 0)
    && (forall j, k :: 0 <= j < k < |queued| ==> queued[j] != queued[k])
  }

  /** The step wakes up doomed requests one after the other. */
  ghost predicate Breaks(s: Requests, step: Step) {
    match step
    case WakeAll(kind, _) => FirstTwoDoomed(s, kind)
    case CancelBy(filter) => filter != ANY && (CutOff(s, ReadQueue, filter) || CutOff(s, WriteQueue, filter))
    case _ => false
  }

  /** It does so at a time when the descriptor is ready for them. */
  ghost predicate MustBreak(fd: AsyncFd, step: Step)
    reads fd
  {
    match step
    case WakeAll(kind, _) => FirstTwoDoomed(fd.State(), kind) && fd.AlwaysReady(kind)
    case CancelBy(filter) =>
      && filter != ANY
      && (|| (CutOff(fd.State(), ReadQueue, filter) && fd.AlwaysReady(ReadQueue))
          || (CutOff(fd.State(), WriteQueue, filter) && fd.AlwaysReady(WriteQueue) &&
              Selected(fd.asyncs, ReadQueue, filter) == {}))
    case _ => false
  }

  /** Whether the step came to its end. It does not if a request has been destroyed where it wants to go on, and then the
      source goes on from memory that it has freed. */
  method Handle(fd: AsyncFd, step: Step) returns (ok: bool)
    requires fd.Valid()
    modifies fd
    ensures fd.Valid()
    ensures !ok ==> old(Breaks(fd.State(), step))
    ensures old(MustBreak(fd, step)) ==> !ok
    ensures old(NoneLost(fd.State())) && Safe(step) ==> ok && NoneLost(fd.State())
  {
    hide Moves, Inv, NoneLost, CutOff, FirstTwoDoomed, Selected, AllSelected;
    ghost var s := fd.State();
    ok := true;
    match step {
      case Queue(kind, owner, apcOk) => var _ := fd.QueueAsync(kind, owner, apcOk);
      case Cancel(x, status) =>
        if x in fd.asyncs && status != Pending {
          fd.Terminate(x, status);
          NoneAfter(s, fd.State(), {x});
        }
      case Result(x, result, apcOk) =>
        if x in fd.asyncs && fd.asyncs[x].apcsOut > 0 {
          fd.SetResult(x, result, apcOk);
        }
      case Poll(events) =>
        fd.PollEvent(events);
        MovesNoPins(s, fd.State(), {});
        NoneAfter(s, fd.State(), {});
      case CloseHandle(x) =>
        if x in fd.asyncs && fd.asyncs[x].handles > 0 {
          fd.ReleaseHandle(x);
        }
      case WakeAll(kind, code) =>
        CutOffAny(s, kind);
        ok := fd.AsyncWakeUp(kind, Other(code));
        NoneAfter(s, fd.State(), Selected(s.asyncs, kind, ANY));
        NoneBreaks(s, ANY);
      case CancelBy(filter) =>
        var notFound;
        ok, notFound := fd.CancelAsync(filter);
        NoneAfter(s, fd.State(), AllSelected(s.asyncs, filter));
        NoneBreaks(s, filter);
      case LoseResult(x) =>
        if x in fd.asyncs && fd.asyncs[x].apcsOut > 0 {
          fd.LoseApc(x);
        }
      case Kill(thread, queued) =>
        if OnThread(fd.asyncs, thread, queued) {
          fd.ThreadDies(thread, queued);
        }
      case Refuse(threads) =>
        NoneDeaf(s, fd.dead, fd.refusing);
        fd.SetRefusing(threads);
        NoneStill(s, fd.State());
    }
  }

  lemma NoneBreaks(s: Requests, filter: Filter)
    ensures NoneLost(s) ==> forall kind :: !CutOff(s, kind, filter)
  {
    if NoneLost(s) {
      forall kind
        ensures !CutOff(s, kind, filter)
      {
        NoneCutOff(s, kind, filter);
      }
    }
  }

  lemma NoneAfter(s: Requests, t: Requests, asked: set<int>)
    requires Moves(s, t, asked) && Inv(t)
    ensures NoneLost(s) ==> NoneLost(t)
  {
    if NoneLost(s) {
      MovesNone(s, t, asked);
    }
  }

  lemma NoneDeaf(s: Requests, dead: set<int>, refusing: set<int>)
    requires s.deaf == dead + refusing
    ensures NoneLost(s) ==> dead == {}
  {
  }

  lemma NoneStill(s: Requests, t: Requests)
    requires t == s.(deaf := t.deaf)
    ensures NoneLost(s) && t.deaf == {} ==> NoneLost(t)
  {
  }

  /** Along every run, up to a step that does not come to its end, every request that was ever made waits, has an APC out
      and is complete at most once in all, and exactly once if and only if its APC was not lost. Those that are
      destroyed neither wait nor have an APC out. The descriptor is polled for exactly what the heads of its queues wait
      for. If every APC is allocated and can be queued and none is dropped, then none is lost and all steps come to
      their end; otherwise the run stops only where doomed requests are woken up one after the other. */
  method Run(regularFile: bool, answers: nat -> Events, steps: seq<Step>)
    returns (fd: AsyncFd, done: nat, ghost before: Requests)
    ensures fd.Valid() && done <= |steps|
    ensures done < |steps| ==> Breaks(before, steps[done])
    ensures forall x :: 0 <= x < fd.next ==> (x in fd.asyncs || x in fd.ends) && Latest(fd.State(), x).AtMostOne()
    ensures forall x :: x in fd.ends ==>
              && fd.ends[x].status != Pending && fd.ends[x].apcsOut == 0 && fd.ends[x].refs == 0
              && (fd.ends[x].completed == 1 <==> !fd.ends[x].lost)
    ensures !fd.regularFile && !fd.removed ==> fd.polled == fd.GetPollEvents()
    ensures (forall i :: 0 <= i < |steps| ==> Safe(steps[i])) ==> done == |steps| && NoneLost(fd.State())
  {
    hide Inv, NoneLost, Breaks, MustBreak;
    fd := new AsyncFd(regularFile, answers);
    NoneYet();
    done, before := 0, fd.State();
    while done < |steps|
      invariant 0 <= done <= |steps| && fd.Valid() && fresh(fd)
      invariant (forall k :: 0 <= k < done ==> Safe(steps[k])) ==> NoneLost(fd.State())
    {
      before := fd.State();
      var ok := Handle(fd, steps[done]);
      if !ok {
        break;
      }
      done := done + 1;
    }
    EveryRequest(fd.State());
  }

  lemma EveryRequest(s: Requests)
    requires Inv(s)
    ensures forall x :: 0 <= x < s.next ==> (x in s.asyncs || x in s.ends) && Latest(s, x).AtMostOne()
    ensures forall x :: x in s.ends ==>
              && s.ends[x].status != Pending && s.ends[x].apcsOut == 0 && s.ends[x].refs == 0
              && (s.ends[x].completed == 1 <==> !s.ends[x].lost)
  {
  }

  lemma NoneYet()
    ensures NoneLost(Requests(map[], [], [], [], 0, {}, map[]))
  {
  }

  /** A request whose APC could not be allocated is terminated: it is gone, with no APC out and not complete. */
  method UnallocatedRequest() returns (fd: AsyncFd)
    ensures fd.Valid() && 0 in fd.ends && fd.ends[0].lost && fd.ends[0].completed == 0
  {
    hide Moves, Inv;
    fd := new AsyncFd(false, _ => Events(false, false, false));
    var x := fd.QueueAsync(WaitQueue, Owner(1, 1, 1), false);
    fd.ReleaseHandle(x);
    ghost var s := fd.State();
    fd.Terminate(x, Other(0));
    GoneAfter(s, fd.State(), x);
  }

  /** A request is terminated, and its thread dies before it takes the APC: the same. */
  method OrphanedRequest() returns (fd: AsyncFd)
    ensures fd.Valid() && 0 in fd.ends && fd.ends[0].lost && fd.ends[0].completed == 0
  {
    hide Moves, Inv;
    fd := new AsyncFd(false, _ => Events(false, false, false));
    var x := fd.QueueAsync(WaitQueue, Owner(1, 1, 1), true);
    fd.ReleaseHandle(x);
    ghost var s := fd.State();
    fd.Terminate(x, Other(0));
    MovesAt(s, fd.State(), {x}, x);
    AliveAt(fd.State(), x);
    fd.LoseApc(x);
  }

  /** Two requests for reading are made without APCs, their callers let go of them, and the volume is dismounted while
      there is data to read: the second is destroyed with the first, and the loop would go on from it. */
  method BrokenWakeUp() returns (fd: AsyncFd, ok: bool)
    ensures fd.Valid() && !ok && 0 in fd.ends && 1 in fd.ends
  {
    hide Moves, Inv, Enqueue, FirstTwoDoomed, Put, NoneLost;
    fd := new AsyncFd(false, _ => Events(true, false, false));
    ghost var start := fd.State();
    var x := fd.QueueAsync(ReadQueue, Owner(1, 1, 1), false);
    var y := fd.QueueAsync(ReadQueue, Owner(1, 1, 2), false);
    TwoQueued(start, NewRequest(ReadQueue, Owner(1, 1, 1), false), NewRequest(ReadQueue, Owner(1, 1, 2), false));
    ghost var queued := fd.State();
    fd.ReleaseHandle(x);
    PutAt(queued, x, fd.asyncs[x], y);
    ghost var one := fd.State();
    fd.ReleaseHandle(y);
    PutAt(one, y, fd.asyncs[y], x);
    ghost var s := fd.State();
    assert s.readQ == [0, 1];
    assert FirstTwoDoomed(s, ReadQueue) by {
      TwoDoomed(s);
    }
    ok := fd.AsyncWakeUp(ReadQueue, Other(0xC000026E));
    MovesAt(s, fd.State(), Selected(s.asyncs, ReadQueue, ANY), x);
    MovesAt(s, fd.State(), Selected(s.asyncs, ReadQueue, ANY), y);
  }

  lemma TwoQueued(s: Requests, a: AsyncRequest, b: AsyncRequest)
    requires s.readQ == [] && s.next == 0 && a.queue == ReadQueue && b.queue == ReadQueue
    ensures var t := Enqueue(Enqueue(s, a), b);
            && Enqueue(s, a).next == 1 && t.readQ == [0, 1] && t.deaf == s.deaf
            && 0 in t.asyncs && t.asyncs[0] == a && 1 in t.asyncs && t.asyncs[1] == b
  {
  }

  lemma PutAt(s: Requests, x: int, a: AsyncRequest, y: int)
    ensures var t := Put(s, x, a);
            && t.readQ == s.readQ && t.deaf == s.deaf && x in t.asyncs && t.asyncs[x] == a
            && (y != x && y in s.asyncs ==> y in t.asyncs && t.asyncs[y] == s.asyncs[y])
  {
  }

  lemma TwoDoomed(s: Requests)
    requires s.readQ == [0, 1] && 0 in s.asyncs && Doomed(s.asyncs[0], s.deaf) && 1 in s.asyncs && Doomed(s.asyncs[1], s.deaf)
    ensures FirstTwoDoomed(s, ReadQueue)
  {
  }

  lemma GoneAfter(s: Requests, t: Requests, x: int)
    requires Moves(s, t, {x}) && Inv(t) && x in s.asyncs && x !in t.asyncs
    ensures x in t.ends && t.ends[x].lost && t.ends[x].completed == 0
  {
    MovesAt(s, t, {x}, x);
  }
}
