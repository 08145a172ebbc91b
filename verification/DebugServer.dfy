/** The debug-event queues of the server, changed in place. */
module DebugServer {
  import opened DebugSpec
  import opened Lists
  import opened Suspends

  class DebugQueues {
    const process: map<int, int>
    const counts: SuspendCounts
    var debugger: map<int, int>
    var queue: map<int, seq<int>>
    var events: map<int, DebugEvent>
    var debugEvent: map<int, int>
    var next: int
    ghost var outside: map<int, int>
    ghost var sentTo: map<int, int>

    ghost function State(): DebugState
      reads this, counts
    {
      DebugState(process, debugger, queue, events, debugEvent, counts.processCount, next, outside, sentTo)
    }

    /** The queues are in order, and exactly the suspended threads are stopped. */
    ghost predicate Valid()
      reads this, counts
    {
      State().Inv() && counts.Valid() && counts.process == process
    }

    constructor (threads: seq<int>, process: map<int, int>)
      requires (forall i :: 0 <= i < |threads| ==> threads[i] in process) && (forall t :: t in process ==> t in threads)
      ensures Valid() && events == map[] && debugger == map[] && this.process == process && fresh(counts)
    {
      this.process := process;
      counts := new SuspendCounts(threads, process);
      debugger, queue, events, debugEvent, next := map[], map[], map[], map[], 0;
      outside, sentTo := map[], map[];
      new;
      assert forall p :: State().EventsOf(p) == {};
      assert forall p :: State().ProcessOk(p);
    }

    function QueueOf(d: int): seq<int>
      reads this
    {
      if d in queue then queue[d] else []
    }

    /** A thread is stopped exactly while it or its process is suspended from outside, or a thread of its process has
        reported an event that is not continued. */
    lemma StoppedExactly(t: int)
      requires Valid() && t in process
      ensures t in counts.stopped <==>
              counts.ThreadCount(t) > 0 || State().Outside(process[t]) > 0 || State().EventsOf(process[t]) != {}
    {
      assert State().ProcessOk(process[t]);
      assert counts.ProcessCount(process[t]) == State().SuspendCount(process[t]);
    }

    /** Generates a debug event and queues it. */
    method GenerateDebugEvent(thread: int)
      requires Valid() && thread in process
      modifies this, counts
      ensures Valid() && State() == Generate(old(State()), thread)
    {
      hide SuspendCounts.Valid, DebugState.Inv;
      ghost var s := State();
      GenerateKeepsInv(s, thread);
      var p := process[thread];
      if p in debugger {
        var d := debugger[p];
        var event := next;
        events, next := events[event := DebugEvent(thread, Queued)], next + 1;
        queue := queue[d := QueueOf(d) + [event]];
        counts.SuspendProcess(p);
      }
    }

    /** Finds the next event that can be sent to the debugger. */
    method FindEventToSend(d: int) returns (i: nat)
      requires Valid()
      ensures i == FirstReady(State(), QueueOf(d))
    {
      i := 0;
      var ids := QueueOf(d);
      while i < |ids|
        invariant i <= |ids|
        invariant forall k :: 0 <= k < i ==> !Ready(State(), ids[k])
      {
        QueuedEvent(State(), d, ids[i]);
        var event := events[ids[i]];
        if event.state != Sent && event.sender !in debugEvent {
          assert Ready(State(), ids[i]);
          return;
        }
        i := i + 1;
      }
    }

    /** The debugger waits for an event; it gets the first one of a thread that is not busy. */
    method WaitDebugEvent(d: int) returns (reply: Reply)
      requires Valid()
      modifies this, counts
      ensures Valid() && (State(), reply) == Apply(old(State()), WaitStep(d))
    {
      hide SuspendCounts.Valid, DebugState.Inv;
      StepKeepsInv(State(), WaitStep(d));
      var i := FindEventToSend(d);
      if i == |QueueOf(d)| {
        return Nothing;
      }
      var e := QueueOf(d)[i];
      var t := events[e].sender;
      events := events[e := events[e].(state := Sent)];
      debugEvent := debugEvent[t := e];
      sentTo := sentTo[t := e];
      reply := EventSent(e);
    }

    /** Unlinks a continued event, frees its thread, and resumes its process. */
    method FinishEvent(e: int)
      requires Valid() && State().Linked(e)
      modifies this, counts
      ensures Valid() && State() == Finish(old(State()), e)
    {
      hide SuspendCounts.Valid, DebugState.Inv;
      ghost var s := State();
      FinishKeepsInv(s, e);
      EventSuspends(s, e);
      var t := events[e].sender;
      var d := debugger[process[t]];
      queue := queue[d := Without(QueueOf(d), e)];
      if t in debugEvent && debugEvent[t] == e {
        debugEvent := debugEvent - {t};
      }
      events := events - {e};
      counts.ResumeProcess(process[t]);
    }

    /** Continues the event that a thread is stopped for. */
    method ContinueDebugEvent(d: int, p: int, t: int) returns (reply: Reply)
      requires Valid()
      modifies this, counts
      ensures Valid() && (State(), reply) == Apply(old(State()), ContinueStep(d, p, t))
    {
      hide SuspendCounts.Valid, DebugState.Inv, Finish;
      ghost var s := State();
      if p in debugger && debugger[p] == d && t in process && process[t] == p {
        var ids := QueueOf(d);
        var i := 0;
        while i < |ids|
          invariant 0 <= i <= |ids| && Valid() && State() == s
          invariant forall k :: 0 <= k < i ==> !s.StoppedFor(t, ids[k])
        {
          QueuedEvent(s, d, ids[i]);
          var event := events[ids[i]];
          if event.state == Sent && event.sender == t {
            assert debugEvent[t] == ids[i];
            FinishEvent(ids[i]);
            return Accepted;
          }
          NotStoppedFor(s, d, t, i);
          i := i + 1;
        }
        StoppedInQueue(s, d, t);
      }
      return Denied;
    }

    /** A suspension that does not come from an event. */
    method SuspendFromOutside(p: int)
      requires Valid()
      modifies this, counts
      ensures Valid() && State() == Suspend(old(State()), p)
    {
      hide SuspendCounts.Valid, DebugState.Inv;
      OutsideNonNegative(State(), p);
      CountsChange(State(), p, 1);
      ghost var n := State().Outside(p);
      counts.SuspendProcess(p);
      outside := outside[p := n + 1];
    }

    method ResumeFromOutside(p: int)
      requires Valid() && State().Outside(p) > 0
      modifies this, counts
      ensures Valid() && State() == Resume(old(State()), p)
    {
      hide SuspendCounts.Valid, DebugState.Inv;
      SuspendedOutside(State(), p);
      CountsChange(State(), p, -1);
      ghost var n := State().Outside(p);
      counts.ResumeProcess(p);
      outside := outside[p := n - 1];
    }

    /** Generates the startup events of a process. */
    method GenerateStartupEvents(threads: seq<int>)
      requires Valid() && forall i :: 0 <= i < |threads| ==> threads[i] in process
      modifies this, counts
      ensures Valid() && State() == GenerateAll(old(State()), threads)
    {
      hide SuspendCounts.Valid, DebugState.Inv, Generate;
      ghost var s := State();
      var i := 0;
      assert threads[0..] == threads;
      while i < |threads|
        invariant 0 <= i <= |threads| && Valid()
        invariant GenerateAll(State(), threads[i..]) == GenerateAll(s, threads)
      {
        assert threads[i..][0] == threads[i] && threads[i..][1..] == threads[i + 1..];
        GenerateDebugEvent(threads[i]);
        i := i + 1;
      }
    }

    /** Continues all events of a process. */
    method FinishEventsOf(p: int, d: int)
      requires Valid() && p in debugger
      modifies this, counts
      ensures Valid() && State() == FinishAll(old(State()), old(QueueOf(d)), p)
    {
      hide SuspendCounts.Valid, DebugState.Inv, Finish;
      ghost var u := State();
      var ids := QueueOf(d);
      var i := 0;
      assert ids[..0] == [];
      while i < |ids|
        invariant 0 <= i <= |ids| && Valid() && State() == FinishAll(u, ids[..i], p) && p in debugger
      {
        var e := ids[i];
        assert ids[..i + 1][..i] == ids[..i];
        FinishAllKeepsInv(u, ids[..i + 1], p);
        if e in events && events[e].sender in process && process[events[e].sender] == p {
          FinishEvent(e);
        }
        i := i + 1;
      }
      assert ids[..i] == ids;
    }

    /** Attaches a process to a debugger; `allowed` stands for the checks on the process and on the console, `flagOk`
        for setting its debug flag. The startup events are generated while the process is suspended. */
    method DebuggerAttach(p: int, d: int, allowed: bool, flagOk: bool, threads: seq<int>) returns (reply: Reply)
      requires Valid() && forall i :: 0 <= i < |threads| ==> threads[i] in process
      modifies this, counts
      ensures Valid() && (State(), reply) == Apply(old(State()), AttachStep(p, d, allowed, flagOk, threads))
    {
      hide SuspendCounts.Valid, DebugState.Inv, Generate, GenerateAll, DebugState.Outside, DebugState.SuspendCount;
      ghost var s := State();
      if p in debugger || !allowed {
        return Denied;
      }
      AttachKeepsInv(s, p, d);
      AttachOutside(s, p, d, threads);
      SuspendFromOutside(p);
      if !flagOk {
        ResumeFromOutside(p);
        return Denied;
      }
      debugger := debugger[p := d];
      assert State() == Attach(s, p, d);
      GenerateStartupEvents(threads);
      ResumeFromOutside(p);
      reply := Accepted;
    }

    /** Detaches a process from its debugger: all of its events are continued. */
    method DebuggerDetach(p: int, d: int) returns (reply: Reply)
      requires Valid()
      modifies this, counts
      ensures Valid() && (State(), reply) == Apply(old(State()), DetachStep(p, d))
    {
      hide SuspendCounts.Valid, DebugState.Inv, FinishAll, DebugState.EventsOf, DebugState.Outside,
        DebugState.SuspendCount;
      ghost var s := State();
      if p !in debugger || debugger[p] != d {
        return Denied;
      }
      SuspendFromOutside(p);
      FinishEventsOf(p, d);
      DetachOutside(s, p);
      debugger := debugger - {p};
      ResumeFromOutside(p);
      reply := Accepted;
    }

    /** A debugger exits without killing its processes: those of the list that it debugs are detached. */
    method DetachDebuggedProcesses(d: int, ps: seq<int>)
      requires Valid()
      modifies this, counts
      ensures Valid() && State() == Run(old(State()), DetachSteps(ps, d))
      ensures old(forall p :: p in debugger && debugger[p] == d ==> p in ps) ==>
                QueueOf(d) == [] && forall p :: p in debugger ==> debugger[p] != d
    {
      hide SuspendCounts.Valid, DebugState.Inv, Apply;
      ghost var s := State();
      var i := 0;
      assert ps[0..] == ps;
      while i < |ps|
        invariant 0 <= i <= |ps| && Valid() && Run(State(), DetachSteps(ps[i..], d)) == Run(s, DetachSteps(ps, d))
      {
        assert DetachSteps(ps[i..], d)[1..] == DetachSteps(ps[i + 1..], d);
        var reply := DebuggerDetach(ps[i], d);
        i := i + 1;
      }
      if forall p :: p in s.debugger && s.debugger[p] == d ==> p in ps {
        ExitEmptiesQueue(s, ps, d);
      }
    }
  }

  lemma AttachOutside(s: DebugState, p: int, d: int, threads: seq<int>)
    requires s.Inv() && p !in s.debugger && forall i :: 0 <= i < |threads| ==> threads[i] in s.process
    ensures Suspend(s, p).Outside(p) > 0 && GenerateAll(Attach(s, p, d), threads).Outside(p) > 0
  {
    hide DebugState.Inv;
    OutsideNonNegative(s, p);
    AttachKeepsInv(s, p, d);
    GenerateAllKeepsInv(Attach(s, p, d), threads);
  }

  lemma DetachOutside(s: DebugState, p: int)
    requires s.Inv() && p in s.debugger
    ensures var v := FinishAll(Suspend(s, p), s.QueueOf(s.debugger[p]), p);
            v.(debugger := v.debugger - {p}).Inv() && v.(debugger := v.debugger - {p}).Outside(p) > 0
  {
    hide DebugState.Inv, DebugState.EventsOf, FinishAll;
    OutsideNonNegative(s, p);
    CountsChange(s, p, 1);
    var u := Suspend(s, p);
    FinishAllKeepsInv(u, s.QueueOf(s.debugger[p]), p);
    AllQueued(u, p);
    ClearDebuggerKeepsInv(FinishAll(u, s.QueueOf(s.debugger[p]), p), p);
  }

  lemma SuspendedOutside(s: DebugState, p: int)
    requires s.Inv() && s.Outside(p) > 0
    ensures p in s.suspend && s.suspend[p] > 0
  {
    assert s.ProcessOk(p);
  }

  lemma EventSuspends(s: DebugState, e: int)
    requires s.Inv() && s.Linked(e)
    ensures s.ProcessOf(e) in s.suspend && s.suspend[s.ProcessOf(e)] > 0
  {
    assert s.ProcessOk(s.ProcessOf(e));
    assert e in s.EventsOf(s.ProcessOf(e));
    assert |s.EventsOf(s.ProcessOf(e))| > 0;
  }

  lemma NotStoppedFor(s: DebugState, d: int, t: int, i: nat)
    requires s.Inv() && i < |s.QueueOf(d)| && s.QueueOf(d)[i] in s.events
    requires var event := s.events[s.QueueOf(d)[i]]; !(event.state == Sent && event.sender == t)
    ensures !s.StoppedFor(t, s.QueueOf(d)[i])
  {
    assert s.ThreadOk(t) && s.EventOk(s.QueueOf(d)[i]);
  }

  /** The event that a thread is stopped for is in the queue of its debugger. */
  lemma StoppedInQueue(s: DebugState, d: int, t: int)
    requires s.Inv() && t in s.process && s.process[t] in s.debugger && s.debugger[s.process[t]] == d
    ensures t in s.debugEvent ==> exists k :: 0 <= k < |s.QueueOf(d)| && s.StoppedFor(t, s.QueueOf(d)[k])
  {
    if t in s.debugEvent {
      var e := s.debugEvent[t];
      assert s.ThreadOk(t) && s.EventOk(e) && s.QueueOk(d);
      assert e in s.QueueOf(d);
      var k :| 0 <= k < |s.QueueOf(d)| && s.QueueOf(d)[k] == e;
      assert s.StoppedFor(t, s.QueueOf(d)[k]);
    }
  }
}
