/** Debug events as a step system: how threads report to a debugger, and how their process stays suspended meanwhile. */
module DebugSpec {
  import opened Lists

  datatype EventState = Queued | Sent

  datatype DebugEvent = DebugEvent(sender: int, state: EventState)

  /** Processes, threads and debugger threads are numbered, and so are events, in the order of their generation.
      `outside` counts the suspensions of each process that do not come from events, and `sentTo` remembers
      the last event of each thread that was sent. */
  datatype DebugState = DebugState(
    process: map<int, int>,
    debugger: map<int, int>,
    queue: map<int, seq<int>>,
    events: map<int, DebugEvent>,
    debugEvent: map<int, int>,
    suspend: map<int, int>,
    next: int,
    outside: map<int, int>,
    sentTo: map<int, int>)
  {
    function QueueOf(d: int): seq<int> {
      if d in queue then queue[d] else []
    }

    function SuspendCount(p: int): int {
      if p in suspend then suspend[p] else 0
    }

    function Outside(p: int): int {
      if p in outside then outside[p] else 0
    }

    function LastSent(t: int): int {
      if t in sentTo then sentTo[t] else -1
    }

    predicate Linked(e: int) {
      e in events && events[e].sender in process && process[events[e].sender] in debugger
    }

    function ProcessOf(e: int): int
      requires Linked(e)
    {
      process[events[e].sender]
    }

    predicate StoppedFor(t: int, e: int) {
      t in debugEvent && debugEvent[t] == e
    }

    /** The linked events of a process. */
    ghost function EventsOf(p: int): set<int> {
      set e | e in events && events[e].sender in process && process[events[e].sender] == p
    }

    // ----- what every step keeps -----

    /** An event is sent exactly while its thread is stopped for it, and no later event of the thread was sent before. */
    ghost predicate EventOk(e: int) {
      && Linked(e) && e < next
      && (events[e].state == Sent <==> StoppedFor(events[e].sender, e))
      && (events[e].state == Queued ==> LastSent(events[e].sender) < e)
    }

    ghost predicate ThreadOk(t: int) {
      && LastSent(t) < next
      && (t in debugEvent ==> debugEvent[t] in events && events[debugEvent[t]].sender == t)
    }

    ghost predicate QueueOk(d: int) {
      && Increasing(QueueOf(d))
      && (forall e :: e in QueueOf(d) <==> Linked(e) && debugger[ProcessOf(e)] == d)
    }

    /** The suspend count is the number of outside suspensions plus the number of linked events. */
    ghost predicate ProcessOk(p: int) {
      Outside(p) >= 0 && SuspendCount(p) == Outside(p) + |EventsOf(p)|
    }

    ghost predicate Inv() {
      && (forall e :: e in events ==> EventOk(e))
      && (forall t :: ThreadOk(t))
      && (forall d :: QueueOk(d))
      && (forall p :: ProcessOk(p))
    }
  }

  ghost predicate Increasing(ids: seq<int>) {
    forall i, j :: 0 <= i < j < |ids| ==> ids[i] < ids[j]
  }

  lemma {:induction false} WithoutIncreasing(ids: seq<int>, e: int)
    requires Increasing(ids)
    ensures Increasing(Without(ids, e))
    decreases |ids|
  {
    if ids != [] {
      var rest := ids[1..];
      hide Increasing;
      assert ids == [ids[0]] + rest;
      WithoutIncreasing(rest, e);
      if ids[0] != e {
        ConsIncreasing(ids[0], Without(rest, e));
      }
    }
  }

  lemma ConsIncreasing(x: int, rest: seq<int>)
    requires Increasing(rest) && forall y :: y in rest ==> x < y
    ensures Increasing([x] + rest)
  {
    assert forall k :: 0 <= k < |rest| ==> rest[k] in rest;
  }

  // ----- steps -----

  /** A thread generates an event; nothing happens if its process is not being debugged. */
  function Generate(s: DebugState, thread: int): DebugState
    requires thread in s.process
  {
    var p := s.process[thread];
    if p !in s.debugger then s
    else
      var d := s.debugger[p];
      s.(events := s.events[s.next := DebugEvent(thread, Queued)],
         queue := s.queue[d := s.QueueOf(d) + [s.next]],
         suspend := s.suspend[p := s.SuspendCount(p) + 1],
         next := s.next + 1)
  }

  /** An event can be sent: it was not sent before, and its thread is not busy with another one. */
  predicate Ready(s: DebugState, e: int) {
    e in s.events && s.events[e].state == Queued && s.events[e].sender !in s.debugEvent
  }

  function FirstReady(s: DebugState, ids: seq<int>): (i: nat)
    ensures i <= |ids|
    ensures i < |ids| ==> Ready(s, ids[i])
    ensures forall k :: 0 <= k < i ==> !Ready(s, ids[k])
  {
    if ids == [] || Ready(s, ids[0]) then 0
    else
      var i := FirstReady(s, ids[1..]);
      assert forall k :: 0 < k < 1 + i ==> ids[k] == ids[1..][k - 1];
      1 + i
  }

  /** The debugger is given an event. */
  function Send(s: DebugState, e: int): DebugState
    requires e in s.events
  {
    var t := s.events[e].sender;
    s.(events := s.events[e := DebugEvent(t, Sent)], debugEvent := s.debugEvent[t := e], sentTo := s.sentTo[t := e])
  }

  /** An event is continued: it leaves its queue, its thread is free, and its process is resumed once. */
  function Finish(s: DebugState, e: int): DebugState
    requires s.Linked(e)
  {
    var t := s.events[e].sender;
    var p := s.process[t];
    var d := s.debugger[p];
    s.(events := s.events - {e},
       queue := s.queue[d := Without(s.QueueOf(d), e)],
       debugEvent := if s.StoppedFor(t, e) then s.debugEvent - {t} else s.debugEvent,
       suspend := s.suspend[p := s.SuspendCount(p) - 1])
  }

  function Suspend(s: DebugState, p: int): DebugState {
    s.(suspend := s.suspend[p := s.SuspendCount(p) + 1], outside := s.outside[p := s.Outside(p) + 1])
  }

  function Resume(s: DebugState, p: int): DebugState {
    s.(suspend := s.suspend[p := s.SuspendCount(p) - 1], outside := s.outside[p := s.Outside(p) - 1])
  }

  // ----- each step keeps the invariant -----

  lemma NextIsFresh(s: DebugState, d: int)
    requires s.Inv()
    ensures s.next !in s.events
    ensures forall k :: 0 <= k < |s.QueueOf(d)| ==> s.QueueOf(d)[k] < s.next
  {
    assert s.next in s.events ==> s.EventOk(s.next);
    assert s.QueueOk(d);
    forall k | 0 <= k < |s.QueueOf(d)|
      ensures s.QueueOf(d)[k] < s.next
    {
      QueuedEvent(s, d, s.QueueOf(d)[k]);
    }
  }

  lemma QueuedEvent(s: DebugState, d: int, e: int)
    requires s.Inv() && e in s.QueueOf(d)
    ensures s.Linked(e) && s.EventOk(e) && s.debugger[s.ProcessOf(e)] == d
  {
    assert s.QueueOk(d);
  }

  lemma GenerateQueue(s: DebugState, thread: int, d: int)
    requires s.Inv() && thread in s.process
    ensures Generate(s, thread).QueueOk(d)
  {
    hide DebugState.Inv, DebugState.EventOk, DebugState.ThreadOk, DebugState.ProcessOk, Increasing;
    NextIsFresh(s, d);
    QueueHolds(s, d);
    var t := Generate(s, thread);
    if t != s {
      SnocIncreasing(s.QueueOf(d), s.next);
      forall e
        ensures e in t.QueueOf(d) <==> t.Linked(e) && t.debugger[t.ProcessOf(e)] == d
      {
        GenerateQueued(s, thread, d, e);
      }
    }
  }

  lemma QueueHolds(s: DebugState, d: int)
    requires s.Inv()
    ensures s.QueueOk(d)
  {
  }

  lemma SnocIncreasing(ids: seq<int>, x: int)
    requires Increasing(ids) && forall k :: 0 <= k < |ids| ==> ids[k] < x
    ensures Increasing(ids + [x])
  {
  }

  lemma GenerateQueued(s: DebugState, thread: int, d: int, e: int)
    requires s.QueueOk(d) && thread in s.process && s.process[thread] in s.debugger && s.next !in s.events
    ensures var t := Generate(s, thread); e in t.QueueOf(d) <==> t.Linked(e) && t.debugger[t.ProcessOf(e)] == d
  {
  }

  lemma ProcessHolds(s: DebugState, q: int)
    requires s.Inv()
    ensures s.ProcessOk(q)
  {
  }

  lemma GenerateCount(s: DebugState, thread: int, q: int)
    requires s.next !in s.events && thread in s.process && Generate(s, thread) != s
    ensures |Generate(s, thread).EventsOf(q)| == |s.EventsOf(q)| + if q == s.process[thread] then 1 else 0
  {
    var t := Generate(s, thread);
    forall e
      ensures e in t.EventsOf(q) <==> e in s.EventsOf(q) || (e == s.next && q == s.process[thread])
    {
      GenerateMember(s, thread, q, e);
    }
    hide Generate, DebugState.EventsOf;
    assert s.next !in s.EventsOf(q) by {
      GenerateMember(s, thread, q, s.next);
    }
    assert t.EventsOf(q) == if q == s.process[thread] then s.EventsOf(q) + {s.next} else s.EventsOf(q);
  }

  lemma GenerateMember(s: DebugState, thread: int, q: int, e: int)
    requires s.next !in s.events && thread in s.process && Generate(s, thread) != s
    ensures e in Generate(s, thread).EventsOf(q) <==> e in s.EventsOf(q) || (e == s.next && q == s.process[thread])
    ensures s.next !in s.EventsOf(q)
  {
  }

  lemma GenerateProcess(s: DebugState, thread: int, q: int)
    requires s.Inv() && thread in s.process
    ensures Generate(s, thread).ProcessOk(q)
  {
    hide DebugState.Inv, DebugState.EventsOf;
    NextIsFresh(s, 0);
    ProcessHolds(s, q);
    if Generate(s, thread) != s {
      GenerateCount(s, thread, q);
    }
  }

  lemma GenerateEvents(s: DebugState, thread: int, e: int)
    requires s.Inv() && thread in s.process && e in Generate(s, thread).events
    ensures Generate(s, thread).EventOk(e)
  {
    hide DebugState.ProcessOk, DebugState.QueueOk;
    assert e in s.events ==> s.EventOk(e);
    NextIsFresh(s, 0);
    assert s.ThreadOk(thread);
  }

  lemma GenerateKeepsInv(s: DebugState, thread: int)
    requires s.Inv() && thread in s.process
    ensures Generate(s, thread).Inv()
  {
    hide DebugState.EventOk, DebugState.ProcessOk, DebugState.QueueOk;
    var t := Generate(s, thread);
    forall e | e in t.events ensures t.EventOk(e) { GenerateEvents(s, thread, e); }
    forall d ensures t.QueueOk(d) { GenerateQueue(s, thread, d); }
    forall q ensures t.ProcessOk(q) { GenerateProcess(s, thread, q); }
    NextIsFresh(s, 0);
    forall x ensures t.ThreadOk(x) { assert s.ThreadOk(x); }
  }

  /** No other linked event of the same thread was generated before. */
  ghost predicate Earliest(s: DebugState, e: int) {
    e in s.events && forall x :: x in s.events && s.events[x].sender == s.events[e].sender ==> e <= x
  }

  /** The debugger gets the first event of its thread: earlier ones are done with. */
  lemma SendsEarliest(s: DebugState, d: int)
    requires s.Inv() && FirstReady(s, s.QueueOf(d)) < |s.QueueOf(d)|
    ensures Earliest(s, s.QueueOf(d)[FirstReady(s, s.QueueOf(d))])
  {
    var ids := s.QueueOf(d);
    var i := FirstReady(s, ids);
    QueuedEvent(s, d, ids[i]);
    forall x | x in s.events && s.events[x].sender == s.events[ids[i]].sender
      ensures ids[i] <= x
    {
      assert s.EventOk(x) && s.QueueOk(d);
      assert x in ids;
      var k :| 0 <= k < |ids| && ids[k] == x;
    }
  }

  lemma SendKeepsInv(s: DebugState, e: int)
    requires s.Inv() && Ready(s, e) && Earliest(s, e)
    ensures Send(s, e).Inv()
  {
    var u := Send(s, e);
    assert s.EventOk(e);
    forall x | x in u.events
      ensures u.EventOk(x)
    {
      SendEvents(s, e, x);
    }
    SendRest(s, e);
  }

  lemma SendEvents(s: DebugState, e: int, x: int)
    requires s.Inv() && Ready(s, e) && Earliest(s, e) && x in s.events
    ensures Send(s, e).EventOk(x)
  {
    hide DebugState.ProcessOk, DebugState.QueueOk;
    assert s.EventOk(e) && s.EventOk(x);
  }

  lemma SendRest(s: DebugState, e: int)
    requires s.Inv() && Ready(s, e) && Earliest(s, e)
    ensures var u := Send(s, e);
            (forall t :: u.ThreadOk(t)) && (forall d :: u.QueueOk(d)) && (forall p :: u.ProcessOk(p))
  {
    hide DebugState.EventOk;
    var u := Send(s, e);
    assert e < s.next by { Numbered(s, e); }
    forall t ensures u.ThreadOk(t) { assert s.ThreadOk(t); }
    forall d ensures u.QueueOk(d) {
      assert s.QueueOk(d);
      assert forall x :: u.Linked(x) <==> s.Linked(x);
    }
    forall p ensures u.ProcessOk(p) {
      assert s.ProcessOk(p);
      assert u.EventsOf(p) == s.EventsOf(p);
    }
  }

  lemma Numbered(s: DebugState, e: int)
    requires s.Inv() && e in s.events
    ensures e < s.next && s.Linked(e)
  {
  }

  lemma FinishProcess(s: DebugState, e: int, q: int)
    requires s.Inv() && e in s.events && s.Linked(e)
    ensures Finish(s, e).ProcessOk(q)
  {
    hide DebugState.EventOk, DebugState.ThreadOk, DebugState.QueueOk;
    assert s.ProcessOk(q);
    assert Finish(s, e).EventsOf(q) == s.EventsOf(q) - {e};
    assert q == s.ProcessOf(e) <==> e in s.EventsOf(q);
  }

  lemma FinishQueue(s: DebugState, e: int, d: int)
    requires s.Inv() && e in s.events && s.Linked(e)
    ensures Finish(s, e).QueueOk(d)
  {
    hide DebugState.EventOk, DebugState.ThreadOk, DebugState.ProcessOk, Without;
    assert s.QueueOk(d);
    WithoutIncreasing(s.QueueOf(d), e);
  }

  lemma FinishEvents(s: DebugState, e: int, x: int)
    requires s.Inv() && e in s.events && s.Linked(e) && x in s.events && x != e
    ensures Finish(s, e).EventOk(x)
  {
    hide DebugState.ProcessOk, DebugState.QueueOk, Without;
    assert s.EventOk(e) && s.EventOk(x);
  }

  lemma FinishKeepsInv(s: DebugState, e: int)
    requires s.Inv() && e in s.events && s.Linked(e)
    ensures Finish(s, e).Inv()
  {
    hide DebugState.EventOk, DebugState.ProcessOk, DebugState.QueueOk, Without;
    var u := Finish(s, e);
    forall x | x in u.events ensures u.EventOk(x) { FinishEvents(s, e, x); }
    forall d ensures u.QueueOk(d) { FinishQueue(s, e, d); }
    forall q ensures u.ProcessOk(q) { FinishProcess(s, e, q); }
    forall t ensures u.ThreadOk(t) { assert s.ThreadOk(t); }
  }

  lemma CountsChange(s: DebugState, p: int, n: int)
    requires s.Inv() && s.Outside(p) + n >= 0
    ensures s.(suspend := s.suspend[p := s.SuspendCount(p) + n], outside := s.outside[p := s.Outside(p) + n]).Inv()
  {
    hide DebugState.QueueOf;
    var u := s.(suspend := s.suspend[p := s.SuspendCount(p) + n], outside := s.outside[p := s.Outside(p) + n]);
    forall e | e in u.events ensures u.EventOk(e) { assert s.EventOk(e); }
    forall t ensures u.ThreadOk(t) { assert s.ThreadOk(t); }
    SameQueues(s, u);
    forall q ensures u.ProcessOk(q) {
      assert s.ProcessOk(q) && s.ProcessOk(p);
      assert u.EventsOf(q) == s.EventsOf(q);
    }
  }

  lemma SameQueues(s: DebugState, u: DebugState)
    requires s.Inv() && u.queue == s.queue && u.events == s.events && u.process == s.process && u.debugger == s.debugger
    ensures forall d :: u.QueueOk(d)
  {
    hide DebugState.EventOk, DebugState.ProcessOk, DebugState.ThreadOk;
    forall d ensures u.QueueOk(d) {
      assert s.QueueOk(d);
      forall e
        ensures e in u.QueueOf(d) <==> u.Linked(e) && u.debugger[u.ProcessOf(e)] == d
      {
        assert e in s.QueueOf(d) <==> s.Linked(e) && s.debugger[s.ProcessOf(e)] == d;
      }
    }
  }

  // ----- attaching and detaching -----

  /** A process without debugger has no linked events, so it may be given one. */
  lemma SetDebuggerKeepsInv(s: DebugState, p: int, d: int)
    requires s.Inv() && p !in s.debugger
    ensures s.(debugger := s.debugger[p := d]).Inv()
  {
    var u := s.(debugger := s.debugger[p := d]);
    forall e | e in u.events ensures u.EventOk(e) && s.EventOk(e) { assert s.EventOk(e); }
    forall t ensures u.ThreadOk(t) { assert s.ThreadOk(t); }
    forall q ensures u.ProcessOk(q) {
      assert s.ProcessOk(q);
      assert u.EventsOf(q) == s.EventsOf(q);
    }
    forall c ensures u.QueueOk(c) { SetDebuggerQueue(s, p, d, c); }
  }

  lemma SetDebuggerQueue(s: DebugState, p: int, d: int, c: int)
    requires s.Inv() && p !in s.debugger
    ensures s.(debugger := s.debugger[p := d]).QueueOk(c)
  {
    hide DebugState.ProcessOk, DebugState.ThreadOk;
    var u := s.(debugger := s.debugger[p := d]);
    assert s.QueueOk(c);
    forall e
      ensures e in u.QueueOf(c) <==> u.Linked(e) && u.debugger[u.ProcessOf(e)] == c
    {
      assert e in s.events ==> s.EventOk(e);
    }
  }

  /** A process whose events are all gone may lose its debugger. */
  lemma ClearDebuggerKeepsInv(s: DebugState, p: int)
    requires s.Inv() && s.EventsOf(p) == {}
    ensures s.(debugger := s.debugger - {p}).Inv()
  {
    var u := s.(debugger := s.debugger - {p});
    forall e | e in u.events
      ensures u.EventOk(e)
    {
      assert s.EventOk(e) && e !in s.EventsOf(p);
    }
    forall t ensures u.ThreadOk(t) { assert s.ThreadOk(t); }
    forall q ensures u.ProcessOk(q) {
      assert s.ProcessOk(q);
      assert u.EventsOf(q) == s.EventsOf(q);
    }
    forall c ensures u.QueueOk(c) { ClearDebuggerQueue(s, p, c); }
  }

  lemma ClearDebuggerQueue(s: DebugState, p: int, c: int)
    requires s.Inv() && s.EventsOf(p) == {}
    ensures s.(debugger := s.debugger - {p}).QueueOk(c)
  {
    hide DebugState.ProcessOk, DebugState.ThreadOk;
    var u := s.(debugger := s.debugger - {p});
    assert s.QueueOk(c);
    forall e
      ensures e in u.QueueOf(c) <==> u.Linked(e) && u.debugger[u.ProcessOf(e)] == c
    {
      assert e in s.events ==> s.EventOk(e) && e !in s.EventsOf(p);
    }
  }

  /** The startup events of a process that a debugger attaches to. */
  function GenerateAll(s: DebugState, threads: seq<int>): DebugState
    requires forall i :: 0 <= i < |threads| ==> threads[i] in s.process
    decreases |threads|
  {
    if threads == [] then s else GenerateAll(Generate(s, threads[0]), threads[1..])
  }

  lemma {:induction false} GenerateAllKeepsInv(s: DebugState, threads: seq<int>)
    requires s.Inv() && forall i :: 0 <= i < |threads| ==> threads[i] in s.process
    ensures GenerateAll(s, threads).Inv() && GenerateAll(s, threads).outside == s.outside
    ensures GenerateAll(s, threads).process == s.process && GenerateAll(s, threads).sentTo == s.sentTo
    ensures s.next <= GenerateAll(s, threads).next
    decreases |threads|
  {
    if threads != [] {
      GenerateKeepsInv(s, threads[0]);
      GenerateAllKeepsInv(Generate(s, threads[0]), threads[1..]);
    }
  }

  /** All listed events of a process are continued, in the order of the queue. */
  function FinishAll(s: DebugState, ids: seq<int>, p: int): DebugState
    decreases |ids|
  {
    if ids == [] then s
    else
      var u := FinishAll(s, ids[..|ids| - 1], p);
      var e := ids[|ids| - 1];
      if u.Linked(e) && u.ProcessOf(e) == p then Finish(u, e) else u
  }

  lemma {:induction false} FinishAllKeepsInv(s: DebugState, ids: seq<int>, p: int)
    requires s.Inv()
    ensures var u := FinishAll(s, ids, p);
            && u.Inv() && u.outside == s.outside && u.debugger == s.debugger && u.process == s.process
            && u.sentTo == s.sentTo && u.next == s.next
            && u.EventsOf(p) == s.EventsOf(p) - set e | e in ids
    decreases |ids|
  {
    hide DebugState.Inv;
    if ids != [] {
      var n := |ids| - 1;
      FinishAllKeepsInv(s, ids[..n], p);
      assert ids == ids[..n] + [ids[n]];
      FinishOf(FinishAll(s, ids[..n], p), ids[n], p);
    }
  }

  lemma FinishOf(u: DebugState, e: int, p: int)
    requires u.Inv()
    ensures var v := if u.Linked(e) && u.ProcessOf(e) == p then Finish(u, e) else u;
            v.Inv() && v.EventsOf(p) == u.EventsOf(p) - {e}
  {
    if u.Linked(e) && u.ProcessOf(e) == p {
      FinishKeepsInv(u, e);
      assert Finish(u, e).EventsOf(p) == u.EventsOf(p) - {e};
    } else if e in u.events {
      Numbered(u, e);
    }
  }

  function Attach(s: DebugState, p: int, d: int): DebugState {
    Suspend(s, p).(debugger := s.debugger[p := d])
  }

  lemma AttachKeepsInv(s: DebugState, p: int, d: int)
    requires s.Inv() && p !in s.debugger
    ensures Attach(s, p, d).Inv() && Attach(s, p, d).Outside(p) > 0
  {
    hide DebugState.Inv;
    OutsideNonNegative(s, p);
    CountsChange(s, p, 1);
    SetDebuggerKeepsInv(Suspend(s, p), p, d);
  }

  lemma OutsideNonNegative(s: DebugState, p: int)
    requires s.Inv()
    ensures s.Outside(p) >= 0
  {
    assert s.ProcessOk(p);
  }

  /** The events of the process are continued, and it loses its debugger. */
  function Detach(s: DebugState, p: int): DebugState
    requires p in s.debugger
  {
    var u := FinishAll(Suspend(s, p), s.QueueOf(s.debugger[p]), p);
    Resume(u.(debugger := u.debugger - {p}), p)
  }

  lemma DetachKeepsInv(s: DebugState, p: int)
    requires s.Inv() && p in s.debugger
    ensures Detach(s, p).Inv() && Detach(s, p).EventsOf(p) == {} && p !in Detach(s, p).debugger
    ensures Detach(s, p).sentTo == s.sentTo && Detach(s, p).next == s.next && Detach(s, p).process == s.process
  {
    hide DebugState.Inv, DebugState.EventsOf, FinishAll;
    var ids := s.QueueOf(s.debugger[p]);
    OutsideNonNegative(s, p);
    CountsChange(s, p, 1);
    var u := Suspend(s, p);
    FinishAllKeepsInv(u, ids, p);
    AllQueued(u, p);
    var v := FinishAll(u, ids, p);
    ClearDebuggerKeepsInv(v, p);
    CountsChange(v.(debugger := v.debugger - {p}), p, -1);
    SameEvents(v, Detach(s, p), p);
  }

  lemma AllQueued(s: DebugState, p: int)
    requires s.Inv() && p in s.debugger
    ensures s.EventsOf(p) - (set e | e in s.QueueOf(s.debugger[p])) == {}
  {
    forall e | e in s.EventsOf(p)
      ensures e in s.QueueOf(s.debugger[p])
    {
      Numbered(s, e);
      assert s.QueueOk(s.debugger[p]);
    }
  }

  lemma SameEvents(s: DebugState, u: DebugState, p: int)
    requires u.events == s.events && u.process == s.process
    ensures u.EventsOf(p) == s.EventsOf(p)
  {
  }

  // ----- runs -----

  /** A request or event. Attaching takes the conditions that are checked elsewhere as `allowed`, whether the debug
      flag of the process could be set, and the threads that get startup events. */
  datatype Step =
    | GenerateStep(thread: int)
    | WaitStep(debugger: int)
    | ContinueStep(debugger: int, process: int, thread: int)
    | AttachStep(process: int, debugger: int, allowed: bool, flagOk: bool, threads: seq<int>)
    | DetachStep(process: int, debugger: int)
    | SuspendStep(process: int)
    | ResumeStep(process: int)

  datatype Reply = Nothing | EventSent(event: int) | Accepted | Denied

  function Apply(s: DebugState, step: Step): (DebugState, Reply) {
    match step
    case GenerateStep(thread) => if thread in s.process then (Generate(s, thread), Nothing) else (s, Nothing)
    case WaitStep(d) =>
      var ids := s.QueueOf(d);
      var i := FirstReady(s, ids);
      if i < |ids| then (Send(s, ids[i]), EventSent(ids[i])) else (s, Nothing)
    case ContinueStep(d, p, t) =>
      if p in s.debugger && s.debugger[p] == d && t in s.process && s.process[t] == p && t in s.debugEvent
         && s.Linked(s.debugEvent[t])
      then (Finish(s, s.debugEvent[t]), Accepted) else (s, Denied)
    case AttachStep(p, d, allowed, flagOk, threads) =>
      if p in s.debugger || !allowed then (s, Denied)
      else if !flagOk then (Resume(Suspend(s, p), p), Denied)
      else
        var u := Attach(s, p, d);
        var v := if forall i :: 0 <= i < |threads| ==> threads[i] in s.process then GenerateAll(u, threads) else u;
        (Resume(v, p), Accepted)
    case DetachStep(p, d) => if p in s.debugger && s.debugger[p] == d then (Detach(s, p), Accepted) else (s, Denied)
    case SuspendStep(p) => (Suspend(s, p), Nothing)
    case ResumeStep(p) => if s.Outside(p) > 0 then (Resume(s, p), Nothing) else (s, Nothing)
  }

  lemma StepKeepsInv(s: DebugState, step: Step)
    requires s.Inv()
    ensures Apply(s, step).0.Inv()
  {
    hide DebugState.Inv, GenerateAll, Detach, Attach, Send, Finish;
    match step
    case GenerateStep(thread) => if thread in s.process { GenerateKeepsInv(s, thread); }
    case WaitStep(d) =>
      var ids := s.QueueOf(d);
      if FirstReady(s, ids) < |ids| {
        SendsEarliest(s, d);
        SendKeepsInv(s, ids[FirstReady(s, ids)]);
      }
    case ContinueStep(d, p, t) =>
      if t in s.debugEvent && s.Linked(s.debugEvent[t]) { FinishKeepsInv(s, s.debugEvent[t]); }
    case AttachStep(p, d, allowed, flagOk, threads) =>
      if p !in s.debugger && allowed { AttachStepKeepsInv(s, p, d, flagOk, threads); }
    case DetachStep(p, d) => if p in s.debugger { DetachKeepsInv(s, p); }
    case SuspendStep(p) =>
      OutsideNonNegative(s, p);
      CountsChange(s, p, 1);
    case ResumeStep(p) => if s.Outside(p) > 0 { CountsChange(s, p, -1); }
  }

  lemma AttachStepKeepsInv(s: DebugState, p: int, d: int, flagOk: bool, threads: seq<int>)
    requires s.Inv() && p !in s.debugger
    ensures Apply(s, AttachStep(p, d, true, flagOk, threads)).0.Inv()
  {
    hide DebugState.Inv, GenerateAll;
    AttachKeepsInv(s, p, d);
    var u := Attach(s, p, d);
    if !flagOk {
      OutsideNonNegative(s, p);
      CountsChange(s, p, 1);
      CountsChange(Suspend(s, p), p, -1);
    } else if forall i :: 0 <= i < |threads| ==> threads[i] in s.process {
      GenerateAllKeepsInv(u, threads);
      CountsChange(GenerateAll(u, threads), p, -1);
    } else {
      CountsChange(u, p, -1);
    }
  }

  /** Along every run, threads are stopped for at most one sent event, and suspend counts add up. */
  function Run(s: DebugState, steps: seq<Step>): (u: DebugState)
    requires s.Inv()
    ensures u.Inv()
    decreases |steps|
  {
    if steps == [] then s
    else
      StepKeepsInv(s, steps[0]);
      Run(Apply(s, steps[0]).0, steps[1..])
  }

  // ----- the exit of a debugger -----

  function DetachSteps(ps: seq<int>, d: int): (r: seq<Step>)
    ensures |r| == |ps| && forall i :: 0 <= i < |ps| ==> r[i] == DetachStep(ps[i], d)
  {
    seq(|ps|, i requires 0 <= i < |ps| => DetachStep(ps[i], d))
  }

  lemma DetachClears(s: DebugState, p: int)
    requires s.Inv() && p in s.debugger
    ensures Detach(s, p).debugger == s.debugger - {p}
  {
    hide DebugState.Inv, FinishAll;
    OutsideNonNegative(s, p);
    CountsChange(s, p, 1);
    FinishAllKeepsInv(Suspend(s, p), s.QueueOf(s.debugger[p]), p);
  }

  /** Detaching a list of processes takes the debugger from those that had it, and from no other. */
  lemma {:induction false} DetachEach(s: DebugState, ps: seq<int>, d: int)
    requires s.Inv()
    ensures var u := Run(s, DetachSteps(ps, d));
            forall p :: p in u.debugger <==> p in s.debugger && !(s.debugger[p] == d && p in ps)
    ensures var u := Run(s, DetachSteps(ps, d)); forall p :: p in u.debugger ==> u.debugger[p] == s.debugger[p]
    decreases |ps|
  {
    hide DebugState.Inv, Detach;
    if ps != [] {
      StepKeepsInv(s, DetachStep(ps[0], d));
      var t := Apply(s, DetachStep(ps[0], d)).0;
      if ps[0] in s.debugger && s.debugger[ps[0]] == d {
        DetachClears(s, ps[0]);
      }
      assert DetachSteps(ps, d)[1..] == DetachSteps(ps[1..], d);
      DetachEach(t, ps[1..], d);
    }
  }

  /** When a debugger exits, its processes are detached; if these are all that it debugs, its queue is empty then, and
      there is nothing to be freed with it. */
  lemma ExitEmptiesQueue(s: DebugState, ps: seq<int>, d: int)
    requires s.Inv() && forall p :: p in s.debugger && s.debugger[p] == d ==> p in ps
    ensures var u := Run(s, DetachSteps(ps, d));
            u.Inv() && u.QueueOf(d) == [] && forall p :: p in u.debugger ==> u.debugger[p] != d
  {
    hide Run, DetachSteps;
    DetachEach(s, ps, d);
    var u := Run(s, DetachSteps(ps, d));
    assert u.QueueOk(d);
    if u.QueueOf(d) != [] {
      SomeIn(u.QueueOf(d));
    }
  }

  lemma SomeIn(q: seq<int>)
    requires q != []
    ensures exists e :: e in q
  {
    var e: int := q[0];
    assert e in q;
  }

  /** The events that are sent along a run, each with its thread. */
  function Trace(s: DebugState, steps: seq<Step>): seq<(int, int)>
    decreases |steps|
  {
    if steps == [] then []
    else
      var (u, reply) := Apply(s, steps[0]);
      var rest := Trace(u, steps[1..]);
      if reply.EventSent? && reply.event in s.events then [(s.events[reply.event].sender, reply.event)] + rest else rest
  }

  lemma {:induction false} GenerateAllSendsNothing(s: DebugState, threads: seq<int>)
    requires forall i :: 0 <= i < |threads| ==> threads[i] in s.process
    ensures GenerateAll(s, threads).sentTo == s.sentTo
    decreases |threads|
  {
    if threads != [] {
      GenerateAllSendsNothing(Generate(s, threads[0]), threads[1..]);
    }
  }

  lemma AttachSendsNothing(s: DebugState, p: int, d: int, threads: seq<int>)
    requires forall i :: 0 <= i < |threads| ==> threads[i] in s.process
    ensures Resume(GenerateAll(Attach(s, p, d), threads), p).sentTo == s.sentTo
  {
    hide GenerateAll;
    GenerateAllSendsNothing(Attach(s, p, d), threads);
  }

  lemma GenerateSendsNothing(s: DebugState, thread: int)
    requires thread in s.process
    ensures Generate(s, thread).sentTo == s.sentTo
  {
  }

  lemma FinishSendsNothing(s: DebugState, e: int)
    ensures s.Linked(e) ==> Finish(s, e).sentTo == s.sentTo
  {
  }

  lemma OthersSendNothing(s: DebugState, step: Step)
    requires s.Inv() && !Apply(s, step).1.EventSent?
    ensures Apply(s, step).0.sentTo == s.sentTo
  {
    hide DebugState.Inv, GenerateAll, Detach, FirstReady, Generate, Finish, Send, Attach, DebugState.Linked,
      DebugState.Outside, DebugState.SuspendCount, DebugState.QueueOf, DebugState.StoppedFor, Without;
    match step
    case GenerateStep(thread) => if thread in s.process { GenerateSendsNothing(s, thread); }
    case ContinueStep(d, p, t) => if t in s.debugEvent { FinishSendsNothing(s, s.debugEvent[t]); }
    case AttachStep(_, _, _, _, _) => AttachStepSendsNothing(s, step);
    case DetachStep(p, d) => if p in s.debugger { DetachKeepsInv(s, p); }
    case _ =>
  }

  lemma AttachStepSendsNothing(s: DebugState, step: Step)
    requires s.Inv() && step.AttachStep?
    ensures Apply(s, step).0.sentTo == s.sentTo
  {
    hide DebugState.Inv, GenerateAll, Generate, Suspend, Resume, Attach, FirstReady, Finish, Detach, Send;
    var p, u := step.process, Attach(s, step.process, step.debugger);
    SuspendSendsNothing(s, p);
    SuspendSendsNothing(Suspend(s, p), p);
    SuspendSendsNothing(u, p);
    if forall i :: 0 <= i < |step.threads| ==> step.threads[i] in s.process {
      AttachSendsNothing(s, p, step.debugger, step.threads);
    }
    AttachesOnly(s, p, step.debugger);
  }

  lemma SuspendSendsNothing(s: DebugState, p: int)
    ensures Suspend(s, p).sentTo == s.sentTo && Resume(s, p).sentTo == s.sentTo
  {
  }

  lemma AttachesOnly(s: DebugState, p: int, d: int)
    ensures Attach(s, p, d).sentTo == s.sentTo
  {
  }

  lemma SendsLater(s: DebugState, step: Step)
    requires s.Inv() && Apply(s, step).1.EventSent?
    ensures var e := Apply(s, step).1.event;
            && e in s.events
            && var t := s.events[e].sender;
            s.LastSent(t) < e && Apply(s, step).0.sentTo == s.sentTo[t := e]
  {
    var ids := s.QueueOf(step.debugger);
    var e := ids[FirstReady(s, ids)];
    assert s.EventOk(e);
  }

  lemma {:induction false} SentAfter(s: DebugState, steps: seq<Step>, k: nat)
    requires s.Inv() && k < |Trace(s, steps)|
    ensures s.LastSent(Trace(s, steps)[k].0) < Trace(s, steps)[k].1
    decreases |steps|
  {
    hide DebugState.Inv, Apply;
    StepKeepsInv(s, steps[0]);
    var (u, reply) := Apply(s, steps[0]);
    if reply.EventSent? {
      SendsLater(s, steps[0]);
      if k > 0 {
        SentAfter(u, steps[1..], k - 1);
      }
    } else {
      OthersSendNothing(s, steps[0]);
      SentAfter(u, steps[1..], k);
    }
  }

  /** The events of a thread reach the debugger in the order in which the thread generated them. */
  lemma {:induction false} SentInOrder(s: DebugState, steps: seq<Step>, i: nat, j: nat)
    requires s.Inv() && i < j < |Trace(s, steps)| && Trace(s, steps)[i].0 == Trace(s, steps)[j].0
    ensures Trace(s, steps)[i].1 < Trace(s, steps)[j].1
    decreases |steps|
  {
    hide DebugState.Inv, Apply;
    StepKeepsInv(s, steps[0]);
    var (u, reply) := Apply(s, steps[0]);
    if reply.EventSent? {
      SendsLater(s, steps[0]);
      if i == 0 {
        SentAfter(u, steps[1..], j - 1);
      } else {
        SentInOrder(u, steps[1..], i - 1, j - 1);
      }
    } else {
      SentInOrder(u, steps[1..], i, j);
    }
  }
}
