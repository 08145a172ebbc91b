/** Suspend counts of processes and threads, and the threads that are stopped for them. */
module Suspends {

  const MAX_SUSPEND_COUNT := 127

  class SuspendCounts {
    const threads: seq<int>          // all threads, those of a process in the order of its list
    const process: map<int, int>     // the process of each thread
    var processCount: map<int, int>
    var threadCount: map<int, int>
    var stopped: set<int>            // the threads that were told to stop and have not been woken since

    function ProcessCount(p: int): int
      reads this`processCount
    {
      if p in processCount then processCount[p] else 0
    }

    function ThreadCount(t: int): int
      reads this`threadCount
    {
      if t in threadCount then threadCount[t] else 0
    }

    /** A thread is suspended by itself or with its process. */
    predicate Suspended(t: int)
      requires t in process
      reads this
    {
      ThreadCount(t) + ProcessCount(process[t]) > 0
    }

    /** Exactly the suspended threads are stopped. */
    ghost predicate Valid()
      reads this
    {
      && (forall i :: 0 <= i < |threads| ==> threads[i] in process)
      && (forall t :: t in process ==> t in threads)
      && (forall p :: p in processCount ==> processCount[p] >= 0)
      && (forall t :: t in threadCount ==> 0 <= threadCount[t] <= MAX_SUSPEND_COUNT)
      && (forall t :: t in stopped <==> t in process && Suspended(t))
    }

    constructor (threads: seq<int>, process: map<int, int>)
      requires (forall i :: 0 <= i < |threads| ==> threads[i] in process) && (forall t :: t in process ==> t in threads)
      ensures Valid() && stopped == {} && processCount == map[] && threadCount == map[]
      ensures this.threads == threads && this.process == process
    {
      this.threads, this.process := threads, process;
      processCount, threadCount, stopped := map[], map[], {};
    }

    /** Stops or wakes all threads of a process that are not suspended by themselves. */
    method TellThreads(p: int, stop: bool)
      requires forall i :: 0 <= i < |threads| ==> threads[i] in process
      modifies this`stopped
      ensures forall t :: t in stopped <==>
                if t in threads && process[t] == p && ThreadCount(t) == 0 then stop else t in old(stopped)
    {
      var i := 0;
      while i < |threads|
        invariant 0 <= i <= |threads|
        invariant forall t :: t in stopped <==>
                    if t in threads[..i] && process[t] == p && ThreadCount(t) == 0 then stop else t in old(stopped)
      {
        var t := threads[i];
        if process[t] == p && ThreadCount(t) == 0 {
          stopped := if stop then stopped + {t} else stopped - {t};
        }
        assert threads[..i + 1] == threads[..i] + [t];
        i := i + 1;
      }
      assert threads[..i] == threads;
    }

    /** Suspends all the threads of a process; they are stopped when the count leaves zero. */
    method SuspendProcess(p: int)
      requires Valid()
      modifies this`processCount, this`stopped
      ensures Valid() && processCount == old(processCount)[p := old(ProcessCount(p)) + 1]
    {
      var before := ProcessCount(p);
      processCount := processCount[p := before + 1];
      if before == 0 {
        TellThreads(p, true);
      }
    }

    /** Resumes all the threads of a process; they are woken when the count gets back to zero. */
    method ResumeProcess(p: int)
      requires Valid() && ProcessCount(p) > 0
      modifies this`processCount, this`stopped
      ensures Valid() && processCount == old(processCount)[p := old(ProcessCount(p)) - 1]
    {
      var after := ProcessCount(p) - 1;
      processCount := processCount[p := after];
      if after == 0 {
        TellThreads(p, false);
      }
    }

    /** Suspends a thread, up to a limit. */
    method SuspendThread(t: int) returns (ok: bool, count: int)
      requires Valid() && t in process
      modifies this`threadCount, this`stopped
      ensures Valid() && count == old(ThreadCount(t)) && (ok <==> count < MAX_SUSPEND_COUNT)
      ensures threadCount == if ok then old(threadCount)[t := count + 1] else old(threadCount)
    {
      count := ThreadCount(t);
      ok := count < MAX_SUSPEND_COUNT;
      if ok {
        if ProcessCount(process[t]) + count == 0 {
          stopped := stopped + {t};
        }
        threadCount := threadCount[t := count + 1];
      }
    }

    method ResumeThread(t: int) returns (count: int)
      requires Valid() && t in process
      modifies this`threadCount, this`stopped
      ensures Valid() && count == old(ThreadCount(t))
      ensures threadCount == if count > 0 then old(threadCount)[t := count - 1] else old(threadCount)
    {
      count := ThreadCount(t);
      if count > 0 {
        threadCount := threadCount[t := count - 1];
        if count - 1 + ProcessCount(process[t]) == 0 {
          stopped := stopped - {t};
        }
      }
    }
  }
}
