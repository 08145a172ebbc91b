/** What each step does to debug events, and what becomes of an event over a run. */
module DebugOutcomes {
  import opened Lists
  import opened DebugSpec

  /** Nothing has changed but the events and queues, and the suspend count of process `p` by `n`. */
  ghost predicate OnlyCounts(s: DebugState, t: DebugState, p: int, n: int) {
    && t.process == s.process && t.sentTo == s.sentTo
    && (forall q :: t.Outside(q) == s.Outside(q))
    && (forall q :: t.SuspendCount(q) == s.SuspendCount(q) + if q == p then n else 0)
  }

  function Numbers(from: int, n: nat): (r: seq<int>)
    ensures |r| == n && forall i :: 0 <= i < n ==> r[i] == from + i
  {
    seq(n, i => from + i)
  }

  /** The threads have reported one event each, in this order, at the end of the queue of the debugger. */
  ghost predicate Reports(s: DebugState, t: DebugState, d: int, threads: seq<int>) {
    && t.next == s.next + |threads|
    && t.QueueOf(d) == s.QueueOf(d) + Numbers(s.next, |threads|)
    && (forall e :: e != d ==> t.QueueOf(e) == s.QueueOf(e))
    && (forall e :: e in t.events <==> e in s.events || s.next <= e < s.next + |threads|)
    && (forall e :: e in s.events && e < s.next ==> t.events[e] == s.events[e])
    && (forall e :: s.next <= e < s.next + |threads| ==> t.events[e] == DebugEvent(threads[e - s.next], Queued))
  }

  /** A thread of a process that is debugged reports an event, which goes to the end of the queue; others report
      nothing. */
  lemma GenerateExact(s: DebugState, thread: int)
    requires s.Inv() && thread in s.process
    ensures var t, p := Generate(s, thread), s.process[thread];
            if p !in s.debugger then t == s
            else
              && Reports(s, t, s.debugger[p], [thread]) && OnlyCounts(s, t, p, 1)
              && t.debugger == s.debugger && t.debugEvent == s.debugEvent
  {
    hide DebugState.Inv;
    if s.process[thread] in s.debugger {
      NextIsFresh(s, 0);
      assert Numbers(s.next, 1) == [s.next];
    }
  }

  lemma {:induction false} GenerateAllExact(s: DebugState, p: int, threads: seq<int>)
    requires s.Inv() && p in s.debugger
    requires forall i :: 0 <= i < |threads| ==> threads[i] in s.process && s.process[threads[i]] == p
    ensures var t := GenerateAll(s, threads);
            && Reports(s, t, s.debugger[p], threads) && OnlyCounts(s, t, p, |threads|)
            && t.debugger == s.debugger && t.debugEvent == s.debugEvent
    decreases |threads|
  {
    hide DebugState.Inv, Generate, Reports, OnlyCounts;
    if threads == [] {
      ReportsNone(s, s.debugger[p], p);
    } else {
      GenerateExact(s, threads[0]);
      GenerateKeepsInv(s, threads[0]);
      var u := Generate(s, threads[0]);
      EventsBelow(s);
      SameProcesses(s, u, p);
      GenerateAllExact(u, p, threads[1..]);
      ReportsMore(s, u, GenerateAll(u, threads[1..]), s.debugger[p], p, threads);
    }
  }

  lemma SameProcesses(s: DebugState, u: DebugState, p: int)
    requires OnlyCounts(s, u, p, 1)
    ensures u.process == s.process
  {
  }

  lemma EventsBelow(s: DebugState)
    requires s.Inv()
    ensures forall e :: e in s.events ==> e < s.next
  {
    forall e | e in s.events
      ensures e < s.next
    {
      assert s.EventOk(e);
    }
  }

  lemma ReportsNone(s: DebugState, d: int, p: int)
    ensures Reports(s, s, d, []) && OnlyCounts(s, s, p, 0)
  {
    assert Numbers(s.next, 0) == [];
  }

  lemma ReportsMore(s: DebugState, u: DebugState, t: DebugState, d: int, p: int, threads: seq<int>)
    requires threads != [] && Reports(s, u, d, [threads[0]]) && OnlyCounts(s, u, p, 1)
    requires Reports(u, t, d, threads[1..]) && OnlyCounts(u, t, p, |threads| - 1)
    requires forall e :: e in s.events ==> e < s.next
    ensures Reports(s, t, d, threads) && OnlyCounts(s, t, p, |threads|)
  {
    hide OnlyCounts;
    var n := |threads|;
    CountsMore(s, u, t, p, 1, n - 1);
    assert Numbers(s.next, 1) + Numbers(s.next + 1, n - 1) == Numbers(s.next, n);
    assert s.QueueOf(d) + Numbers(s.next, 1) + Numbers(s.next + 1, n - 1) == s.QueueOf(d) + Numbers(s.next, n);
  }

  lemma CountsMore(s: DebugState, u: DebugState, t: DebugState, p: int, n: int, m: int)
    requires OnlyCounts(s, u, p, n) && OnlyCounts(u, t, p, m)
    ensures OnlyCounts(s, t, p, n + m)
  {
  }

  // ----- attaching, waiting, continuing and detaching -----

  /** An attach is accepted exactly if it is allowed, the process has no debugger and its flag can be set. Then the
      process has this debugger, and every startup thread has reported an event; otherwise nothing changes. */
  lemma AttachExact(s: DebugState, p: int, d: int, allowed: bool, flagOk: bool, threads: seq<int>)
    requires s.Inv() && forall i :: 0 <= i < |threads| ==> threads[i] in s.process && s.process[threads[i]] == p
    ensures var (t, reply) := Apply(s, AttachStep(p, d, allowed, flagOk, threads));
            if p !in s.debugger && allowed && flagOk then
              && reply == Accepted && t.debugger == s.debugger[p := d] && t.debugEvent == s.debugEvent
              && Reports(s, t, d, threads) && OnlyCounts(s, t, p, |threads|)
            else
              && reply == Denied && t.debugger == s.debugger && t.events == s.events && t.queue == s.queue
              && t.debugEvent == s.debugEvent && t.next == s.next && OnlyCounts(s, t, p, 0)
  {
    hide Apply, DebugState.Inv, GenerateAll, Reports, OnlyCounts, DebugState.SuspendCount, DebugState.Outside;
    AttachIs(s, p, d, allowed, flagOk, threads);
    if p !in s.debugger && allowed && flagOk {
      var u := Attach(s, p, d);
      AttachKeepsInv(s, p, d);
      GenerateAllExact(u, p, threads);
      ReportsFrom(s, u, GenerateAll(u, threads), Resume(GenerateAll(u, threads), p), d, threads);
      CountsBack(s, u, GenerateAll(u, threads), p, |threads|);
    } else {
      CountsBack(s, Suspend(s, p), Suspend(s, p), p, 0);
    }
  }

  lemma AttachIs(s: DebugState, p: int, d: int, allowed: bool, flagOk: bool, threads: seq<int>)
    ensures var known := forall i :: 0 <= i < |threads| ==> threads[i] in s.process;
            Apply(s, AttachStep(p, d, allowed, flagOk, threads)) ==
            if p in s.debugger || !allowed then (s, Denied)
            else if !flagOk then (Resume(Suspend(s, p), p), Denied)
            else (Resume(if known then GenerateAll(Attach(s, p, d), threads) else Attach(s, p, d), p), Accepted)
  {
    hide GenerateAll;
  }

  lemma ReportsFrom(s: DebugState, u: DebugState, v: DebugState, t: DebugState, d: int, threads: seq<int>)
    requires Reports(u, v, d, threads) && u.events == s.events && u.queue == s.queue && u.next == s.next
    requires t.events == v.events && t.queue == v.queue && t.next == v.next
    ensures Reports(s, t, d, threads)
  {
    forall e
      ensures t.QueueOf(e) == v.QueueOf(e) && u.QueueOf(e) == s.QueueOf(e)
    {
    }
  }

  /** Suspending a process and resuming it later leaves the counts as they are without that. */
  lemma CountsBack(s: DebugState, u: DebugState, v: DebugState, p: int, n: int)
    requires u.suspend == Suspend(s, p).suspend && u.outside == Suspend(s, p).outside
    requires u.process == s.process && u.sentTo == s.sentTo && (OnlyCounts(u, v, p, n) || (v == u && n == 0))
    ensures OnlyCounts(s, s, p, 0) && OnlyCounts(s, Resume(v, p), p, n)
  {
    var t := Resume(v, p);
    forall q
      ensures t.SuspendCount(q) == s.SuspendCount(q) + (if q == p then n else 0) && t.Outside(q) == s.Outside(q)
    {
      assert v.SuspendCount(q) == u.SuspendCount(q) + (if q == p then n else 0) && v.Outside(q) == u.Outside(q);
    }
  }

  /** An event that can be sent to debugger `d`. */
  predicate ReadyFor(s: DebugState, d: int, e: int) {
    && e in s.events && s.Linked(e) && s.debugger[s.ProcessOf(e)] == d
    && s.events[e].state == Queued && s.events[e].sender !in s.debugEvent
  }

  /** A debugger that waits is given the oldest event that can be sent to it, if there is one, and only this changes. */
  lemma WaitExact(s: DebugState, d: int)
    requires s.Inv()
    ensures var (t, reply) := Apply(s, WaitStep(d));
            if exists e :: ReadyFor(s, d, e) then
              && reply.EventSent? && ReadyFor(s, d, reply.event) && (forall e :: ReadyFor(s, d, e) ==> reply.event <= e)
              && t.events == s.events[reply.event := s.events[reply.event].(state := Sent)]
              && t.debugEvent == s.debugEvent[s.events[reply.event].sender := reply.event]
              && t.queue == s.queue && t.debugger == s.debugger && t.suspend == s.suspend && t.next == s.next
            else reply == Nothing && t == s
  {
    hide DebugState.Inv;
    var ids := s.QueueOf(d);
    QueueHolds(s, d);
    var i := FirstReady(s, ids);
    forall e: int | ReadyFor(s, d, e)
      ensures i < |ids| && ids[i] <= e
    {
      assert e in ids;
      var k :| 0 <= k < |ids| && ids[k] == e;
      assert Ready(s, ids[k]);
    }
    if i < |ids| {
      QueuedEvent(s, d, ids[i]);
      assert ReadyFor(s, d, ids[i]);
    }
  }

  /** A continue is accepted exactly if the thread belongs to the process, the process to the debugger, and an event of
      the thread has been sent. That event is gone then, the thread is free, and the process is resumed once. */
  lemma ContinueExact(s: DebugState, d: int, p: int, thread: int)
    requires s.Inv()
    ensures var (t, reply) := Apply(s, ContinueStep(d, p, thread));
            if && p in s.debugger && s.debugger[p] == d && thread in s.process && s.process[thread] == p
               && exists e :: e in s.events && s.events[e].sender == thread && s.events[e].state == Sent
            then
              && reply == Accepted && thread in s.debugEvent
              && var e := s.debugEvent[thread];
              && e in s.events && s.events[e].sender == thread && s.events[e].state == Sent
              && t.events == s.events - {e} && t.debugEvent == s.debugEvent - {thread} && t.debugger == s.debugger
              && (forall x :: x in t.QueueOf(d) <==> x in s.QueueOf(d) && x != e)
              && (forall q :: q != d ==> t.QueueOf(q) == s.QueueOf(q)) && t.next == s.next && OnlyCounts(s, t, p, -1)
            else reply == Denied && t == s
  {
    forall e | e in s.events && s.events[e].sender == thread
      ensures s.EventOk(e)
    {
    }
    assert s.ThreadOk(thread);
  }

  /** A detach is accepted exactly if the process has this debugger. Then exactly its events are gone, and it is
      suspended only as often as from outside. */
  lemma DetachExact(s: DebugState, p: int, d: int)
    requires s.Inv()
    ensures var (t, reply) := Apply(s, DetachStep(p, d));
            if p in s.debugger && s.debugger[p] == d then
              && reply == Accepted && t.debugger == s.debugger - {p} && t.process == s.process && t.next == s.next
              && (forall e :: e in t.events <==> e in s.events && e !in s.EventsOf(p))
              && (forall e :: e in t.events ==> t.events[e] == s.events[e])
              && (forall q :: t.Outside(q) == s.Outside(q))
              && (forall q :: t.SuspendCount(q) == if q == p then s.Outside(p) else s.SuspendCount(q))
            else reply == Denied && t == s
  {
    hide DebugState.Inv, FinishAll, Finish, DebugState.EventsOf;
    if p in s.debugger && s.debugger[p] == d {
      DetachClears(s, p);
      DetachKeepsInv(s, p);
      OutsideNonNegative(s, p);
      CountsChange(s, p, 1);
      var u, ids := Suspend(s, p), s.QueueOf(d);
      FinishAllKeepsInv(u, ids, p);
      FinishAllRest(u, ids, p);
      EventsQueued(s, p);
      ProcessHolds(Detach(s, p), p);
      forall q
        ensures Detach(s, p).SuspendCount(q) == if q == p then s.Outside(p) else s.SuspendCount(q)
        ensures Detach(s, p).Outside(q) == s.Outside(q)
      {
        assert q != p ==> FinishAll(u, ids, p).SuspendCount(q) == u.SuspendCount(q);
      }
    }
  }

  lemma EventsQueued(s: DebugState, p: int)
    requires s.Inv() && p in s.debugger
    ensures forall e :: e in s.EventsOf(p) <==> e in s.events && e in s.QueueOf(s.debugger[p]) && OfProcess(s, e, p)
  {
    forall e
      ensures e in s.EventsOf(p) <==> e in s.events && e in s.QueueOf(s.debugger[p]) && OfProcess(s, e, p)
    {
      if e in s.events {
        assert s.EventOk(e);
      }
      assert s.QueueOk(s.debugger[p]);
    }
  }

  predicate OfProcess(s: DebugState, e: int, p: int) {
    e in s.events && s.events[e].sender in s.process && s.process[s.events[e].sender] == p
  }

  /** Of the listed events exactly those of the process are continued. */
  lemma {:induction false} FinishAllRest(s: DebugState, ids: seq<int>, p: int)
    requires s.Inv() && p in s.debugger
    ensures var u := FinishAll(s, ids, p);
            && (forall e :: e in u.events <==> e in s.events && !(e in ids && OfProcess(s, e, p)))
            && (forall e :: e in u.events ==> u.events[e] == s.events[e])
            && (forall q :: q != p ==> u.SuspendCount(q) == s.SuspendCount(q))
    decreases |ids|
  {
    hide DebugState.Inv;
    if ids != [] {
      var n := |ids| - 1;
      var u := FinishAll(s, ids[..n], p);
      assert ids == ids[..n] + [ids[n]];
      FinishAllKeepsInv(s, ids[..n], p);
      FinishAllRest(s, ids[..n], p);
    }
  }

  // ----- what becomes of an event -----

  /** The step continues the event, or detaches its process. */
  predicate Ends(s: DebugState, step: Step, e: int) {
    match step
    case ContinueStep(d, p, thread) =>
      && p in s.debugger && s.debugger[p] == d && thread in s.process && s.process[thread] == p
      && e in s.events && s.events[e].sender == thread && s.events[e].state == Sent
    case DetachStep(p, d) => p in s.debugger && s.debugger[p] == d && OfProcess(s, e, p)
    case _ => false
  }

  lemma {:induction false} GenerateAllKeeps(s: DebugState, threads: seq<int>, e: int)
    requires s.Inv() && forall i :: 0 <= i < |threads| ==> threads[i] in s.process
    ensures var t := GenerateAll(s, threads);
            && (e in s.events ==> e in t.events && t.events[e] == s.events[e])
            && (e in t.events && e !in s.events ==> e >= s.next)
    decreases |threads|
  {
    hide DebugState.Inv;
    if threads != [] {
      NextIsFresh(s, 0);
      GenerateKeepsInv(s, threads[0]);
      GenerateAllKeeps(Generate(s, threads[0]), threads[1..], e);
    }
  }

  /** An event is there after a step exactly if it was there and the step does not end it, unless it is new; it has been
      sent exactly if it had been, or the step sends it. */
  lemma StepEvents(s: DebugState, step: Step, e: int)
    requires s.Inv() && e < s.next
    ensures var (t, reply) := Apply(s, step);
            && (e in t.events <==> e in s.events && !Ends(s, step, e))
            && (e in t.events ==> t.events[e].sender == s.events[e].sender)
            && (e in t.events ==> (t.events[e].state == Sent <==> s.events[e].state == Sent || reply == EventSent(e)))
            && t.next >= s.next && t.process == s.process
  {
    hide DebugState.Inv, Apply, Detach, DebugState.EventsOf, OnlyCounts, Reports, Finish;
    match step
    case GenerateStep(thread) =>
      GenerateEvents(s, thread, e);
    case WaitStep(d) =>
      WaitExact(s, d);
      WaitKeeps(s, d);
    case ContinueStep(d, p, thread) =>
      ContinueExact(s, d, p, thread);
      OneSent(s, thread, e);
      ContinueKeeps(s, d, p, thread);
    case AttachStep(p, d, allowed, flagOk, threads) =>
      AttachEvents(s, step, e);
    case DetachStep(p, d) =>
      DetachExact(s, p, d);
      OfProcessExactly(s, e, p);
    case SuspendStep(p) => SuspendEvents(s, step);
    case ResumeStep(p) => SuspendEvents(s, step);
  }

  lemma GenerateEvents(s: DebugState, thread: int, e: int)
    requires s.Inv() && e < s.next
    ensures var (t, reply) := Apply(s, GenerateStep(thread));
            && (e in t.events <==> e in s.events) && (e in t.events ==> t.events[e] == s.events[e])
            && t.next >= s.next && t.process == s.process && reply == Nothing
  {
  }

  lemma WaitKeeps(s: DebugState, d: int)
    ensures Apply(s, WaitStep(d)).0.process == s.process
  {
  }

  lemma ContinueKeeps(s: DebugState, d: int, p: int, thread: int)
    ensures var (t, reply) := Apply(s, ContinueStep(d, p, thread)); t.process == s.process && !reply.EventSent?
  {
  }

  /** A thread has at most one event that has been sent, the one that it is stopped for. */
  lemma OneSent(s: DebugState, thread: int, e: int)
    requires s.Inv()
    ensures e in s.events && s.events[e].sender == thread && s.events[e].state == Sent ==>
              thread in s.debugEvent && s.debugEvent[thread] == e
  {
    if e in s.events {
      assert s.EventOk(e);
    }
  }

  lemma AttachEvents(s: DebugState, step: Step, e: int)
    requires s.Inv() && step.AttachStep? && e < s.next
    ensures var (t, reply) := Apply(s, step);
            && (e in t.events <==> e in s.events) && (e in t.events ==> t.events[e] == s.events[e])
            && t.next >= s.next && t.process == s.process && !reply.EventSent?
  {
    hide Apply, DebugState.Inv, GenerateAll, Attach, Suspend, Resume;
    AttachIs(s, step.process, step.debugger, step.allowed, step.flagOk, step.threads);
    CountsOnly(s, step.process, step.debugger);
    if step.process !in s.debugger && step.allowed && step.flagOk {
      var u := Attach(s, step.process, step.debugger);
      AttachKeepsInv(s, step.process, step.debugger);
      if forall i :: 0 <= i < |step.threads| ==> step.threads[i] in s.process {
        GenerateAllKeepsInv(u, step.threads);
        GenerateAllKeeps(u, step.threads, e);
        u := GenerateAll(u, step.threads);
      }
      CountsOnly(u, step.process, step.debugger);
    } else {
      CountsOnly(Suspend(s, step.process), step.process, step.debugger);
    }
  }

  lemma CountsOnly(s: DebugState, p: int, d: int)
    ensures Resume(s, p).events == s.events && Resume(s, p).next == s.next && Resume(s, p).process == s.process
    ensures Suspend(s, p).events == s.events && Suspend(s, p).next == s.next && Suspend(s, p).process == s.process
    ensures Attach(s, p, d).events == s.events && Attach(s, p, d).next == s.next && Attach(s, p, d).process == s.process
  {
  }

  lemma OfProcessExactly(s: DebugState, e: int, p: int)
    ensures e in s.EventsOf(p) <==> OfProcess(s, e, p)
  {
  }

  /** Suspending a process from outside, or resuming one that is suspended from outside, changes its counts by one. */
  lemma SuspendEvents(s: DebugState, step: Step)
    requires step.SuspendStep? || step.ResumeStep?
    ensures var (t, reply) := Apply(s, step);
            t.events == s.events && t.next == s.next && t.process == s.process && t.queue == s.queue && reply == Nothing
    ensures var t := Apply(s, step).0;
            var n := if step.SuspendStep? then 1 else if s.Outside(step.process) > 0 then -1 else 0;
            forall q :: && t.Outside(q) == s.Outside(q) + (if q == step.process then n else 0)
                        && t.SuspendCount(q) == s.SuspendCount(q) + (if q == step.process then n else 0)
  {
  }

  ghost predicate EndsAlong(s: DebugState, steps: seq<Step>, e: int)
    decreases |steps|
  {
    steps != [] && (Ends(s, steps[0], e) || EndsAlong(Apply(s, steps[0]).0, steps[1..], e))
  }

  /** Over every run: an event that has been reported stays, with its sender, exactly until it is continued or its
      process is detached. */
  lemma {:induction false} EventStays(s: DebugState, steps: seq<Step>, e: int)
    requires s.Inv() && e in s.events
    ensures e in Run(s, steps).events <==> !EndsAlong(s, steps, e)
    ensures e in Run(s, steps).events ==> Run(s, steps).events[e].sender == s.events[e].sender
    decreases |steps|
  {
    hide DebugState.Inv, Apply, Ends;
    EventsBelow(s);
    if steps != [] {
      StepKeepsInv(s, steps[0]);
      StepEvents(s, steps[0], e);
      var t := Apply(s, steps[0]).0;
      if e in t.events {
        EventStays(t, steps[1..], e);
      } else {
        StaysGone(t, steps[1..], e);
      }
    }
  }

  lemma {:induction false} StaysGone(s: DebugState, steps: seq<Step>, e: int)
    requires s.Inv() && e !in s.events && e < s.next
    ensures e !in Run(s, steps).events
    decreases |steps|
  {
    hide DebugState.Inv, Apply, Ends;
    if steps != [] {
      StepKeepsInv(s, steps[0]);
      StepEvents(s, steps[0], e);
      StaysGone(Apply(s, steps[0]).0, steps[1..], e);
    }
  }

  /** Over every run: an event that has not been continued has been sent exactly if it is in the trace of the run, or had
      been sent before. */
  lemma {:induction false} SentExactly(s: DebugState, steps: seq<Step>, e: int)
    requires s.Inv() && e in s.events && e in Run(s, steps).events
    ensures Run(s, steps).events[e].state == Sent <==>
            s.events[e].state == Sent || (s.events[e].sender, e) in Trace(s, steps)
    decreases |steps|
  {
    hide DebugState.Inv, Apply, Ends;
    EventsBelow(s);
    if steps != [] {
      StepKeepsInv(s, steps[0]);
      StepEvents(s, steps[0], e);
      var (t, reply) := Apply(s, steps[0]);
      if e !in t.events {
        StaysGone(t, steps[1..], e);
      } else {
        SentExactly(t, steps[1..], e);
        var pair := (s.events[e].sender, e);
        var rest := Trace(t, steps[1..]);
        assert pair in Trace(s, steps) <==> reply == EventSent(e) || pair in rest;
      }
    }
  }
}
