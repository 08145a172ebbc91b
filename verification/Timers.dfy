/** The sorted timer list of the server, and what a pass over the expired timers fires. */
module Timers {

  /** A timer expires at an absolute time, counted in ticks of 100 nanoseconds. */
  datatype Timer = Timer(when: int, id: int)

  /** What a callback does to the timers. */
  datatype Action = Add(when: int, id: int) | Remove(id: int)

  type Callbacks = int -> seq<Action>

  predicate Sorted(s: seq<Timer>) {
    forall i, j :: 0 <= i < j < |s| ==> s[i].when <= s[j].when
  }

  /** Times that are not positive are relative. */
  function Effective(when: int, now: int): int {
    if when > 0 then when else now - when
  }

  /** The place before the first timer that does not expire earlier. */
  function Place(s: seq<Timer>, when: int): (n: nat)
    ensures n <= |s| && (n < |s| ==> s[n].when >= when) && forall i :: 0 <= i < n ==> s[i].when < when
  {
    if s == [] || s[0].when >= when then 0 else 1 + Place(s[1..], when)
  }

  function Insert(s: seq<Timer>, t: Timer): seq<Timer> {
    var n := Place(s, t.when);
    s[..n] + [t] + s[n..]
  }

  function Without(s: seq<Timer>, id: int): seq<Timer> {
    if s == [] then [] else if s[0].id == id then Without(s[1..], id) else [s[0]] + Without(s[1..], id)
  }

  /** Adding a timer keeps the list sorted and loses none. */
  lemma InsertSorted(s: seq<Timer>, t: Timer)
    requires Sorted(s)
    ensures Sorted(Insert(s, t)) && multiset(Insert(s, t)) == multiset(s) + multiset{t}
  {
    InsertOrdered(s, t);
    hide Sorted, Place;
    InsertCounts(s, t, Place(s, t.when));
  }

  lemma InsertCounts(s: seq<Timer>, t: Timer, n: nat)
    requires n <= |s|
    ensures multiset(s[..n] + [t] + s[n..]) == multiset(s) + multiset{t}
  {
    assert s == s[..n] + s[n..];
  }

  lemma InsertOrdered(s: seq<Timer>, t: Timer)
    requires Sorted(s)
    ensures Sorted(Insert(s, t))
  {
    var n, r := Place(s, t.when), Insert(s, t);
    forall i | 0 <= i < |r|
      ensures r[i] == if i < n then s[i] else if i == n then t else s[i - 1]
    {
    }
    hide Insert, Place;
    forall i, j | 0 <= i < j < |r|
      ensures r[i].when <= r[j].when
    {
      assert n < |s| ==> s[n].when >= t.when;
    }
  }

  /** The new timer comes after those that expire earlier and before all others. */
  lemma InsertBefore(s: seq<Timer>, t: Timer) returns (n: nat)
    requires Sorted(s)
    ensures n <= |s| && Insert(s, t) == s[..n] + [t] + s[n..]
    ensures forall i :: 0 <= i < |s| ==> (s[i].when < t.when <==> i < n)
  {
    n := Place(s, t.when);
  }

  lemma PrependSorted(t: Timer, r: seq<Timer>)
    requires Sorted(r) && forall i :: 0 <= i < |r| ==> t.when <= r[i].when
    ensures Sorted([t] + r)
  {
  }

  lemma {:induction false} WithoutExact(s: seq<Timer>, id: int)
    ensures forall t :: t in Without(s, id) <==> t in s && t.id != id
    ensures Sorted(s) ==> Sorted(Without(s, id))
    ensures |Without(s, id)| <= |s|
    decreases |s|
  {
    if s != [] {
      WithoutExact(s[1..], id);
      assert s == [s[0]] + s[1..];
      var r := Without(s[1..], id);
      if Sorted(s) {
        SortedTail(s);
        forall i | 0 <= i < |r|
          ensures s[0].when <= r[i].when
        {
          assert r[i] in r && r[i] in s[1..];
        }
        PrependSorted(s[0], r);
      }
    }
  }

  lemma {:induction false} WithoutCounts(s: seq<Timer>, id: int, t: Timer)
    ensures multiset(Without(s, id))[t] == if t.id == id then 0 else multiset(s)[t]
    decreases |s|
  {
    if s != [] {
      WithoutCounts(s[1..], id, t);
      assert s == [s[0]] + s[1..];
    }
  }

  lemma WithoutFewer(s: seq<Timer>, id: int)
    ensures multiset(Without(s, id)) <= multiset(s)
  {
    hide Without;
    forall t ensures multiset(Without(s, id))[t] <= multiset(s)[t] {
      WithoutCounts(s, id, t);
    }
  }

  /** The time at each reading of the clock; every use of the current time is a new reading. */
  type Clock = nat -> int

  ghost predicate NeverBack(clock: Clock) {
    forall i, j :: 0 <= i <= j ==> clock(i) <= clock(j)
  }

  /** How many timers at the front have expired, when each is compared with a new reading. */
  function Taken(s: seq<Timer>, clock: Clock, n: nat): (k: nat)
    ensures k <= |s|
    decreases |s|
  {
    if s == [] || s[0].when > clock(n) then 0 else 1 + Taken(s[1..], clock, n + 1)
  }

  /** Each of these had expired at its reading, and the next timer, if there is one, had not. */
  lemma {:induction false} TakenSplits(s: seq<Timer>, clock: Clock, n: nat)
    ensures var k := Taken(s, clock, n);
            (k < |s| ==> s[k].when > clock(n + k)) && forall i :: 0 <= i < k ==> s[i].when <= clock(n + i)
    decreases |s|
  {
    if s != [] && s[0].when <= clock(n) {
      TakenSplits(s[1..], clock, n + 1);
      var k := Taken(s[1..], clock, n + 1);
      assert forall i :: 0 < i < 1 + k ==> s[i] == s[1..][i - 1] && n + i == n + 1 + (i - 1);
      assert 1 + k < |s| ==> s[1 + k] == s[1..][k] && n + (1 + k) == n + 1 + k;
    }
  }

  /** What had expired at the first reading is taken, and nothing that has not expired at its own. */
  lemma TakenExactly(s: seq<Timer>, clock: Clock, n: nat, i: nat)
    requires Sorted(s) && NeverBack(clock) && i < |s|
    ensures s[i].when <= clock(n) ==> i < Taken(s, clock, n)
    ensures i < Taken(s, clock, n) ==> s[i].when <= clock(n + i)
  {
    TakenSplits(s, clock, n);
    assert clock(n) <= clock(n + Taken(s, clock, n));
  }

  /** The pending timers, and the expired ones whose callbacks are still to be called. */
  datatype Timers = Timers(pending: seq<Timer>, expired: seq<Timer>)

  function Perform(s: Timers, now: int, a: Action): Timers {
    match a
    case Add(when, id) => s.(pending := Insert(s.pending, Timer(Effective(when, now), id)))
    case Remove(id) => Timers(Without(s.pending, id), Without(s.expired, id))
  }

  lemma RemoveAnyTime(s: Timers, now: int, now': int, id: int)
    ensures Perform(s, now, Remove(id)) == Perform(s, now', Remove(id))
  {
  }

  function PerformAll(s: Timers, clock: Clock, n: nat, actions: seq<Action>): Timers
    decreases |actions|
  {
    if actions == [] then s else PerformAll(Perform(s, clock(n), actions[0]), clock, n + 1, actions[1..])
  }

  lemma {:induction false} PerformAllExact(s: Timers, clock: Clock, n: nat, actions: seq<Action>)
    requires Sorted(s.pending) && Sorted(s.expired)
    ensures var u := PerformAll(s, clock, n, actions);
            && Sorted(u.pending) && Sorted(u.expired)
            && |u.expired| <= |s.expired| && multiset(u.expired) <= multiset(s.expired)
            && (forall t :: t in u.expired <==> t in s.expired && Remove(t.id) !in actions)
    decreases |actions|
  {
    if actions != [] {
      var u := Perform(s, clock(n), actions[0]);
      assert actions == [actions[0]] + actions[1..];
      match actions[0] {
        case Add(when, id) =>
          InsertSorted(s.pending, Timer(Effective(when, clock(n)), id));
        case Remove(id) =>
          WithoutExact(s.pending, id);
          WithoutExact(s.expired, id);
          WithoutFewer(s.expired, id);
      }
      PerformAllExact(u, clock, n + 1, actions[1..]);
    }
  }

  /** The callbacks of the expired timers, called in turn. */
  ghost function FireAll(s: Timers, clock: Clock, n: nat, cb: Callbacks): (seq<Timer>, seq<Timer>, nat)
    requires Sorted(s.pending) && Sorted(s.expired)
    decreases |s.expired|
  {
    if s.expired == [] then (s.pending, [], n)
    else
      var t := s.expired[0];
      var rest := Timers(s.pending, s.expired[1..]);
      PerformAllExact(rest, clock, n, cb(t.id));
      var (pending, fired, m) := FireAll(PerformAll(rest, clock, n, cb(t.id)), clock, n + |cb(t.id)|, cb);
      (pending, [t] + fired, m)
  }

  lemma FireFirst(s: Timers, clock: Clock, n: nat, cb: Callbacks)
    requires Sorted(s.pending) && Sorted(s.expired) && s.expired != []
    ensures var actions := cb(s.expired[0].id);
            var next := PerformAll(Timers(s.pending, s.expired[1..]), clock, n, actions);
            && Sorted(next.pending) && Sorted(next.expired) && |next.expired| < |s.expired|
            && var rest := FireAll(next, clock, n + |actions|, cb);
               FireAll(s, clock, n, cb) == (rest.0, [s.expired[0]] + rest.1, rest.2)
  {
    hide PerformAll, Sorted;
    SortedTail(s.expired);
    PerformAllExact(Timers(s.pending, s.expired[1..]), clock, n, cb(s.expired[0].id));
  }

  lemma FireNone(s: Timers, clock: Clock, n: nat, cb: Callbacks)
    requires Sorted(s.pending) && s.expired == []
    ensures FireAll(s, clock, n, cb) == (s.pending, [], n)
  {
  }

  predicate Removes(cb: Callbacks, u: Timer, t: Timer) {
    Remove(t.id) in cb(u.id)
  }

  /** Only expired timers fire, once and in order, and a timer stays out exactly if one that fired before removed it. */
  ghost predicate FiredOk(expired: seq<Timer>, fired: seq<Timer>, cb: Callbacks) {
    && Sorted(fired) && multiset(fired) <= multiset(expired)
    && (forall t :: t in expired && t !in fired ==> exists u :: u in fired && Removes(cb, u, t))
    && (forall i, j :: 0 <= i < j < |fired| ==> !Removes(cb, fired[i], fired[j]))
  }

  lemma FiredFirst(expired: seq<Timer>, next: seq<Timer>, fired: seq<Timer>, cb: Callbacks)
    requires Sorted(expired) && expired != [] && FiredOk(next, fired, cb)
    requires multiset(next) <= multiset(expired[1..])
    requires forall t :: t in next <==> t in expired[1..] && !Removes(cb, expired[0], t)
    ensures FiredOk(expired, [expired[0]] + fired, cb)
  {
    var t := expired[0];
    assert expired == [t] + expired[1..];
    forall i | 0 <= i < |fired|
      ensures t.when <= fired[i].when && !Removes(cb, t, fired[i])
    {
      assert fired[i] in multiset(fired) && fired[i] in multiset(next) && fired[i] in expired[1..];
    }
    PrependSorted(t, fired);
    forall v | v in expired && v !in [t] + fired
      ensures exists u :: u in [t] + fired && Removes(cb, u, v)
    {
      if v in next {
        var u :| u in fired && Removes(cb, u, v);
        assert u in [t] + fired;
      } else {
        assert t in [t] + fired && Removes(cb, t, v);
      }
    }
  }

  lemma {:induction false} FiresExactly(s: Timers, clock: Clock, n: nat, cb: Callbacks)
    requires Sorted(s.pending) && Sorted(s.expired)
    ensures var (pending, fired, _) := FireAll(s, clock, n, cb); Sorted(pending) && FiredOk(s.expired, fired, cb)
    decreases |s.expired|
  {
    hide PerformAll, FireAll, Sorted;
    if s.expired == [] {
      FireNone(s, clock, n, cb);
      NoneFired(cb);
    } else {
      hide FiredOk;
      var t := s.expired[0];
      FireFirst(s, clock, n, cb);
      SortedTail(s.expired);
      var rest := Timers(s.pending, s.expired[1..]);
      PerformAllExact(rest, clock, n, cb(t.id));
      var next := PerformAll(rest, clock, n, cb(t.id));
      FiresExactly(next, clock, n + |cb(t.id)|, cb);
      FiredFirst(s.expired, next.expired, FireAll(next, clock, n + |cb(t.id)|, cb).1, cb);
    }
  }

  lemma NoneFired(cb: Callbacks)
    ensures FiredOk([], [], cb)
  {
  }

  /** Callbacks that only add timers stop none from firing. */
  lemma {:induction false} AddersFireAll(s: Timers, clock: Clock, n: nat, cb: Callbacks)
    requires Sorted(s.pending) && Sorted(s.expired) && forall id, a :: a in cb(id) ==> a.Add?
    ensures FireAll(s, clock, n, cb).1 == s.expired
    decreases |s.expired|
  {
    hide PerformAll, FireAll, Sorted;
    if s.expired == [] {
      FireNone(s, clock, n, cb);
    } else {
      var t := s.expired[0];
      FireFirst(s, clock, n, cb);
      AddersKeepExpired(Timers(s.pending, s.expired[1..]), clock, n, cb(t.id));
      AddersFireAll(PerformAll(Timers(s.pending, s.expired[1..]), clock, n, cb(t.id)), clock, n + |cb(t.id)|, cb);
      assert s.expired == [t] + s.expired[1..];
    }
  }

  lemma {:induction false} AddersKeepExpired(s: Timers, clock: Clock, n: nat, actions: seq<Action>)
    requires forall a :: a in actions ==> a.Add?
    ensures PerformAll(s, clock, n, actions).expired == s.expired
    decreases |actions|
  {
    if actions != [] {
      assert actions[0] in actions;
      AddersKeepExpired(Perform(s, clock(n), actions[0]), clock, n + 1, actions[1..]);
    }
  }

  // ----- what a pass leaves on the list -----

  /** Whether an action, at some time, puts a timer on the list: with the expiry it asks for, or, if that is not positive,
      with one that far from the time. */
  predicate Puts(a: Action, now: int, t: Timer) {
    a.Add? && a.id == t.id && (a.when > 0 ==> t.when == a.when) && (a.when <= 0 ==> t.when + a.when == now)
  }

  /** How often actions put a timer on the list with no removal after. */
  function Copies(actions: seq<Action>, clock: Clock, n: nat, t: Timer): nat
    decreases |actions|
  {
    if actions == [] then 0
    else (if Puts(actions[0], clock(n), t) && Remove(t.id) !in actions[1..] then 1 else 0)
         + Copies(actions[1..], clock, n + 1, t)
  }

  /** The action at some place puts a timer on the list, and none after it removes it. */
  predicate LeavesAt(actions: seq<Action>, clock: Clock, n: nat, t: Timer, i: int) {
    0 <= i < |actions| && Puts(actions[i], clock(n + i), t) && Remove(t.id) !in actions[i + 1..]
  }

  ghost predicate Leaves(actions: seq<Action>, clock: Clock, n: nat, t: Timer) {
    exists i :: LeavesAt(actions, clock, n, t, i)
  }

  lemma LeavesNext(actions: seq<Action>, clock: Clock, n: nat, t: Timer, i: int)
    requires actions != [] && i >= 0
    ensures LeavesAt(actions, clock, n, t, i + 1) <==> LeavesAt(actions[1..], clock, n + 1, t, i)
  {
    hide Puts;
    if i + 1 < |actions| {
      assert actions[1..][i] == actions[i + 1] && n + 1 + i == n + (i + 1) && actions[1..][i + 1..] == actions[i + 1 + 1..];
    }
  }

  lemma {:induction false} SomeCopies(actions: seq<Action>, clock: Clock, n: nat, t: Timer)
    ensures Copies(actions, clock, n, t) > 0 <==> Leaves(actions, clock, n, t)
    decreases |actions|
  {
    hide Puts, LeavesAt;
    if actions == [] {
      NothingLeft(clock, n, t);
    } else {
      LeavesFirst(actions, clock, n, t);
      var rest := actions[1..];
      SomeCopies(rest, clock, n + 1, t);
      if Leaves(rest, clock, n + 1, t) {
        var i :| LeavesAt(rest, clock, n + 1, t, i);
        LeavesFrom(rest, clock, n + 1, t, i);
        LeavesNext(actions, clock, n, t, i);
      }
      if Leaves(actions, clock, n, t) {
        var i :| LeavesAt(actions, clock, n, t, i);
        LeavesFrom(actions, clock, n, t, i);
        if i > 0 {
          LeavesNext(actions, clock, n, t, i - 1);
        }
      }
    }
  }

  lemma NothingLeft(clock: Clock, n: nat, t: Timer)
    ensures !Leaves([], clock, n, t)
  {
  }

  lemma LeavesFirst(actions: seq<Action>, clock: Clock, n: nat, t: Timer)
    requires actions != []
    ensures LeavesAt(actions, clock, n, t, 0) <==> Puts(actions[0], clock(n), t) && Remove(t.id) !in actions[1..]
  {
    hide Puts;
  }

  lemma LeavesFrom(actions: seq<Action>, clock: Clock, n: nat, t: Timer, i: int)
    requires LeavesAt(actions, clock, n, t, i)
    ensures i >= 0
  {
  }

  lemma {:induction false} CopiesOfBoth(a: seq<Action>, b: seq<Action>, clock: Clock, n: nat, t: Timer)
    ensures Copies(a + b, clock, n, t) ==
            (if Remove(t.id) in b then 0 else Copies(a, clock, n, t)) + Copies(b, clock, n + |a|, t)
    decreases |a|
  {
    if a == [] {
      assert a + b == b;
    } else {
      assert (a + b)[1..] == a[1..] + b;
      CopiesOfBoth(a[1..], b, clock, n + 1, t);
    }
  }

  lemma PerformLeaves(s: Timers, now: int, a: Action, t: Timer)
    requires Sorted(s.pending)
    ensures Sorted(Perform(s, now, a).pending)
    ensures multiset(Perform(s, now, a).pending)[t] ==
            if a == Remove(t.id) then 0 else multiset(s.pending)[t] + (if Puts(a, now, t) then 1 else 0)
  {
    hide Sorted, Insert, Without;
    match a {
      case Add(when, id) =>
        InsertSorted(s.pending, Timer(Effective(when, now), id));
      case Remove(id) =>
        WithoutExact(s.pending, id);
        WithoutCounts(s.pending, id, t);
    }
  }

  lemma FirstAction(actions: seq<Action>, now: int, t: Timer)
    requires actions != []
    ensures Remove(t.id) in actions <==> actions[0] == Remove(t.id) || Remove(t.id) in actions[1..]
    ensures Puts(actions[0], now, t) ==> actions[0] != Remove(t.id)
  {
    assert actions == [actions[0]] + actions[1..];
  }

  /** What actions leave on the list: each timer as often as it was there, unless they remove it, and as often as they
      add it for good. */
  lemma {:induction false} PerformAllLeaves(s: Timers, clock: Clock, n: nat, actions: seq<Action>, t: Timer)
    requires Sorted(s.pending)
    ensures multiset(PerformAll(s, clock, n, actions).pending)[t] ==
            (if Remove(t.id) in actions then 0 else multiset(s.pending)[t]) + Copies(actions, clock, n, t)
    decreases |actions|
  {
    if actions != [] {
      hide Sorted, Perform, Puts;
      FirstAction(actions, clock(n), t);
      PerformLeaves(s, clock(n), actions[0], t);
      PerformAllLeaves(Perform(s, clock(n), actions[0]), clock, n + 1, actions[1..], t);
    }
  }

  /** All that the callbacks of some timers do, in order. */
  function Done(fired: seq<Timer>, cb: Callbacks): seq<Action> {
    if fired == [] then [] else cb(fired[0].id) + Done(fired[1..], cb)
  }

  lemma {:induction false} DoneRemoves(fired: seq<Timer>, cb: Callbacks, t: Timer)
    ensures Remove(t.id) in Done(fired, cb) <==> exists u :: u in fired && Removes(cb, u, t)
    decreases |fired|
  {
    if fired != [] {
      var rest := fired[1..];
      DoneRemoves(rest, cb, t);
      assert fired == [fired[0]] + rest;
      assert Removes(cb, fired[0], t) <==> Remove(t.id) in cb(fired[0].id);
      assert Removes(cb, fired[0], t) ==> fired[0] in fired && Removes(cb, fired[0], t);
      assert forall u :: u in fired <==> u == fired[0] || u in rest;
    }
  }

  lemma {:induction false} FireLeaves(s: Timers, clock: Clock, n: nat, cb: Callbacks, t: Timer)
    requires Sorted(s.pending) && Sorted(s.expired)
    ensures var (left, fired, m) := FireAll(s, clock, n, cb);
            && m == n + |Done(fired, cb)|
            && multiset(left)[t] == (if Remove(t.id) in Done(fired, cb) then 0 else multiset(s.pending)[t])
                                    + Copies(Done(fired, cb), clock, n, t)
    decreases |s.expired|
  {
    hide PerformAll, FireAll, Sorted, Copies;
    if s.expired == [] {
      FireNone(s, clock, n, cb);
      NoCopies(clock, n, t);
    } else {
      var actions := cb(s.expired[0].id);
      var rest := Timers(s.pending, s.expired[1..]);
      FireFirst(s, clock, n, cb);
      var next := PerformAll(rest, clock, n, actions);
      PerformAllLeaves(rest, clock, n, actions, t);
      FireLeaves(next, clock, n + |actions|, cb, t);
      var later := FireAll(next, clock, n + |actions|, cb).1;
      assert ([s.expired[0]] + later)[1..] == later;
      CopiesOfBoth(actions, Done(later, cb), clock, n, t);
    }
  }

  lemma NoCopies(clock: Clock, n: nat, t: Timer)
    ensures Copies([], clock, n, t) == 0
  {
  }

  /** The low 32 bits of a number, read as a signed integer. */
  function Int32(x: int): int {
    var y := x % 0x1_0000_0000;
    if y >= 0x8000_0000 then y - 0x1_0000_0000 else y
  }

  /** The time until a timer expires in milliseconds, computed in unsigned 64 bits and cut to a signed integer. */
  function Wait(when: int, now: int): (ms: int)
    ensures ms >= 0
  {
    var ticks := (when - now + 9999) % 0x1_0000_0000_0000_0000;
    var diff := Int32(ticks / 10000);
    if diff < 0 then 0 else diff
  }

  /** Milliseconds that cover the time until a timer, and no more. */
  function Ceiling(ticks: int): (ms: int)
    ensures (ms - 1) * 10000 < ticks <= ms * 10000
  {
    (ticks + 9999) / 10000
  }

  /** The wait for a timer in the future is rounded up, exactly if that is less than 2^31 milliseconds. */
  lemma WaitForFuture(when: int, now: int)
    requires now < when < now + 0x7fff_ffff_ffff_0000
    ensures Wait(when, now) == Ceiling(when - now) <==> Ceiling(when - now) < 0x8000_0000
  {
  }

  /** The milliseconds, less a constant, by which a timer is overdue, as the wrapped division counts them. */
  function Overdue(when: int, now: int): int {
    (now - when - 1616) / 10000
  }

  lemma WrappedQuotient(when: int, now: int)
    requires now - 0x8000_0000_0000_0000 <= when <= now - 10000
    ensures (when - now + 9999) % 0x1_0000_0000_0000_0000 / 10000 == 1844674407370955 - Overdue(when, now)
  {
    var d := when - now + 9999;
    assert d % 0x1_0000_0000_0000_0000 == d + 0x1_0000_0000_0000_0000;
    assert 0x1_0000_0000_0000_0000 == 1844674407370955 * 10000 + 1616;
  }

  /** There is no wait for a timer that is due exactly in the first half of every 2^32 milliseconds, counted from
      about thirteen days before. */
  lemma WaitIfDue(when: int, now: int)
    requires now - 0x8000_0000_0000_0000 <= when <= now
    ensures Wait(when, now) == 0 <==>
            now - when < 10000 || (Overdue(when, now) + 1161359157) % 0x1_0000_0000 <= 0x8000_0000
  {
    if now - when >= 10000 {
      WrappedQuotient(when, now);
      var m := Overdue(when, now);
      WrapsTo(m);
    }
  }

  lemma WrapsTo(m: int)
    ensures Int32(1844674407370955 - m) <= 0 <==> (m + 1161359157) % 0x1_0000_0000 <= 0x8000_0000
  {
    var k := m + 1161359157;
    var q, r := k / 0x1_0000_0000, k % 0x1_0000_0000;
    assert 1844674407370955 - m == 429497 * 0x1_0000_0000 - k;
    if r == 0 {
      LowBits(1844674407370955 - m, 429497 - q, 0);
    } else {
      LowBits(1844674407370955 - m, 429496 - q, 0x1_0000_0000 - r);
    }
  }

  lemma LowBits(x: int, q: int, r: int)
    requires x == q * 0x1_0000_0000 + r && 0 <= r < 0x1_0000_0000
    ensures x % 0x1_0000_0000 == r
  {
  }

  /** There is no wait for a timer that is up to eleven days overdue. */
  lemma NoWaitIfDue(when: int, now: int)
    requires now - 9_861_244_910_000 <= when <= now
    ensures Wait(when, now) == 0
  {
    hide Wait;
    WaitIfDue(when, now);
  }

  /** A little more than eleven days, in units of 100 nanoseconds. */
  const LONG_AGO := 9_861_244_930_000

  /** Longer ago the difference wraps around: a timer that is due is waited for. */
  lemma WaitThoughDue(now: int)
    ensures Wait(now - LONG_AGO, now) > 2_000_000_000
  {
    var d := 9999 - LONG_AGO;
    assert d % 0x1_0000_0000_0000_0000 == d + 0x1_0000_0000_0000_0000;
    var q := (d + 0x1_0000_0000_0000_0000) / 10000;
    assert q % 0x1_0000_0000 == q - 429496 * 0x1_0000_0000;
  }

  class TimerList {
    var pending: seq<Timer>
    var expired: seq<Timer>     // timers taken off the list whose callbacks are still to be called

    constructor ()
      ensures pending == [] && expired == []
    {
      pending, expired := [], [];
    }

    function State(): Timers
      reads this
    {
      Timers(pending, expired)
    }

    ghost predicate Valid()
      reads this
    {
      Sorted(pending) && Sorted(expired)
    }

    /** Adds a timer to the list. */
    method AddTimeoutUser(when: int, id: int, now: int)
      requires Valid()
      modifies this`pending
      ensures Valid() && State() == Perform(old(State()), now, Add(when, id))
      ensures exists t :: Puts(Add(when, id), now, t) && multiset(pending) == multiset(old(pending)) + multiset{t}
    {
      var t := Timer(if when > 0 then when else now - when, id);
      assert Puts(Add(when, id), now, t);
      hide Sorted, Insert, Puts;
      InsertSorted(pending, t);
      AddInOrder(t);
    }

    /** Puts a timer before the first that does not expire earlier. */
    method AddInOrder(t: Timer)
      modifies this`pending
      ensures pending == Insert(old(pending), t)
    {
      hide Place;
      var i := 0;
      while i < |pending| && pending[i].when < t.when
        invariant pending == old(pending) && 0 <= i <= Place(pending, t.when)
      {
        i := i + 1;
      }
      pending := pending[..i] + [t] + pending[i..];
    }

    /** Removes a timer from whichever list it is on. */
    method RemoveTimeoutUser(id: int)
      requires Valid()
      modifies this
      ensures Valid() && State() == Perform(old(State()), 0, Remove(id))
      ensures forall t :: multiset(pending)[t] == if t.id == id then 0 else multiset(old(pending))[t]
      ensures forall t :: multiset(expired)[t] == if t.id == id then 0 else multiset(old(expired))[t]
    {
      hide Sorted, Without;
      WithoutExact(pending, id);
      WithoutExact(expired, id);
      forall t ensures multiset(Without(pending, id))[t] == if t.id == id then 0 else multiset(pending)[t] {
        WithoutCounts(pending, id, t);
      }
      forall t ensures multiset(Without(expired, id))[t] == if t.id == id then 0 else multiset(expired)[t] {
        WithoutCounts(expired, id, t);
      }
      pending, expired := Without(pending, id), Without(expired, id);
    }

    /** Calls a callback, which reads the clock for every timer that it adds. */
    method Call(actions: seq<Action>, clock: Clock, n: nat)
      requires Valid()
      modifies this
      ensures Valid() && State() == PerformAll(old(State()), clock, n, actions)
    {
      hide Sorted, Perform;
      var i := 0;
      assert actions[0..] == actions;
      while i < |actions|
        invariant 0 <= i <= |actions| && Valid()
        invariant PerformAll(State(), clock, n + i, actions[i..]) == PerformAll(old(State()), clock, n, actions)
      {
        assert actions[i..][1..] == actions[i + 1..];
        match actions[i] {
          case Add(when, id) => AddTimeoutUser(when, id, clock(n + i));
          case Remove(id) =>
            RemoveAnyTime(State(), 0, clock(n + i), id);
            RemoveTimeoutUser(id);
        }
        i := i + 1;
      }
    }

    /** Takes the expired timers off the list; the clock is read for each. */
    method TakeExpired(clock: Clock) returns (n: nat)
      requires Valid() && expired == []
      modifies this
      ensures n == Taken(old(pending), clock, 0)
      ensures Valid() && pending == old(pending)[n..] && expired == old(pending)[..n]
    {
      hide Sorted;
      ghost var all := pending;
      n := 0;
      while pending != [] && pending[0].when <= clock(n)
        invariant n <= |all| && expired == all[..n] && pending == all[n..]
        invariant n + Taken(pending, clock, n) == Taken(all, clock, 0)
        decreases |pending|
      {
        assert all[n..][1..] == all[n + 1..];
        expired := expired + [pending[0]];
        pending := pending[1..];
        n := n + 1;
      }
      PartsSorted(all, n);
    }

    /** Calls the callbacks of the expired timers. */
    method FireExpired(clock: Clock, n: nat, cb: Callbacks) returns (m: nat, ghost fired: seq<Timer>)
      requires Valid()
      modifies this
      ensures Valid() && expired == [] && (pending, fired, m) == FireAll(old(State()), clock, n, cb)
    {
      hide FireAll, PerformAll, Sorted;
      m, fired := n, [];
      ghost var left := FireAll(State(), clock, n, cb).1;
      while expired != []
        invariant Valid() && FireAll(old(State()), clock, n, cb).0 == FireAll(State(), clock, m, cb).0
        invariant FireAll(State(), clock, m, cb).1 == left && FireAll(old(State()), clock, n, cb).1 == fired + left
        invariant FireAll(old(State()), clock, n, cb).2 == FireAll(State(), clock, m, cb).2
        decreases |expired|
      {
        FireFirst(State(), clock, m, cb);
        var t := expired[0];
        SortedTail(expired);
        expired := expired[1..];
        Call(cb(t.id), clock, m);
        fired, left := fired + [t], left[1..];
        m := m + |cb(t.id)|;
      }
      FireNone(State(), clock, m, cb);
      assert fired + left == fired;
    }

    /** Calls the callbacks of the timers that have expired, and returns the time until the next timer. */
    method GetNextTimeout(clock: Clock, cb: Callbacks) returns (wait: int, ghost fired: seq<Timer>)
      requires Valid() && expired == []
      modifies this
      ensures Valid() && expired == []
      ensures (pending, fired) == Pass(old(pending), clock, cb)
      ensures wait == PassWait(old(pending), clock, cb)
      ensures NeverBack(clock) ==> forall t :: t in pending <==> Remains(old(pending), fired, clock, cb, t)
      ensures wait == -1 <==> pending == []
      ensures wait != -1 ==> wait == Wait(pending[0].when, clock(LastReading(old(pending), fired, clock, cb)))
    {
      hide FireAll, Taken, Remains, Wait, LastReading;
      if NeverBack(clock) {
        forall t ensures t in Pass(pending, clock, cb).0 <==> Remains(pending, Pass(pending, clock, cb).1, clock, cb, t) {
          PassLeaves(pending, clock, cb, t);
        }
      }
      PassReads(pending, clock, cb);
      if pending == [] {
        FireNone(State(), clock, 1, cb);
        return -1, [];
      }
      var n := TakeExpired(clock);
      var m;
      m, fired := FireExpired(clock, n + 1, cb);
      if pending != [] {
        return Wait(pending[0].when, clock(m)), fired;
      }
      return -1, fired;
    }
  }

  /** The timers after a pass over the list, those that fired, and the number of the next reading of the clock. */
  ghost function PassAll(pending: seq<Timer>, clock: Clock, cb: Callbacks): (seq<Timer>, seq<Timer>, nat)
    requires Sorted(pending)
  {
    var n := Taken(pending, clock, 0);
    FireAll(Timers(pending[n..], pending[..n]), clock, n + 1, cb)
  }

  ghost function Pass(pending: seq<Timer>, clock: Clock, cb: Callbacks): (seq<Timer>, seq<Timer>)
    requires Sorted(pending)
  {
    (PassAll(pending, clock, cb).0, PassAll(pending, clock, cb).1)
  }

  ghost function PassWait(pending: seq<Timer>, clock: Clock, cb: Callbacks): int
    requires Sorted(pending)
  {
    var (left, _, m) := PassAll(pending, clock, cb);
    if left == [] then -1 else Wait(left[0].when, clock(m))
  }

  /** A timer that had expired when the pass began fires, once, unless one that fired before removes it; and whatever fires
      had expired at its own reading of the clock. */
  lemma PassExactly(pending: seq<Timer>, clock: Clock, cb: Callbacks)
    requires Sorted(pending) && NeverBack(clock)
    ensures var (left, fired) := Pass(pending, clock, cb);
            && Sorted(left) && Sorted(fired) && multiset(fired) <= multiset(pending)
            && (forall t :: t in pending && t.when <= clock(0) ==> t in fired || exists u :: u in fired && Removes(cb, u, t))
            && (forall t :: t in fired ==> exists i :: 0 <= i < |pending| && pending[i] == t && t.when <= clock(i))
  {
    hide FireAll, Taken, Sorted, Removes, FiredOk, NeverBack;
    var n := Taken(pending, clock, 0);
    var s := Timers(pending[n..], pending[..n]);
    PartsSorted(pending, n);
    FiresExactly(s, clock, n + 1, cb);
    var fired := Pass(pending, clock, cb).1;
    FiredFacts(s.expired, fired, cb);
    FirstPart(pending, n);
    forall t | t in pending && t.when <= clock(0)
      ensures t in fired || exists u :: u in fired && Removes(cb, u, t)
    {
      DueTaken(pending, clock, t);
      FiredIn(s.expired, fired, cb, t);
    }
    forall t | t in fired
      ensures exists i :: 0 <= i < |pending| && pending[i] == t && t.when <= clock(i)
    {
      FiredIn(s.expired, fired, cb, t);
      TakenDue(pending, clock, t);
    }
  }

  lemma FiredFacts(expired: seq<Timer>, fired: seq<Timer>, cb: Callbacks)
    requires FiredOk(expired, fired, cb)
    ensures Sorted(fired) && multiset(fired) <= multiset(expired)
  {
  }

  lemma FirstPart(s: seq<Timer>, n: nat)
    requires n <= |s|
    ensures multiset(s[..n]) <= multiset(s)
  {
    assert s == s[..n] + s[n..];
  }

  /** A timer is on the list after a pass if it was on it, did not fire and was not removed by a callback that was called,
      or if a callback added it and none removed it after. */
  ghost predicate Remains(pending: seq<Timer>, fired: seq<Timer>, clock: Clock, cb: Callbacks, t: Timer) {
    || (t in pending && t !in fired && !exists u :: u in fired && Removes(cb, u, t))
    || Leaves(Done(fired, cb), clock, Taken(pending, clock, 0) + 1, t)
  }

  /** The number of the reading that the wait is counted from: one for each timer that had expired, one for the first that
      had not, and one for each action. */
  ghost function LastReading(pending: seq<Timer>, fired: seq<Timer>, clock: Clock, cb: Callbacks): nat {
    Taken(pending, clock, 0) + 1 + |Done(fired, cb)|
  }

  lemma PassReads(pending: seq<Timer>, clock: Clock, cb: Callbacks)
    requires Sorted(pending)
    ensures PassAll(pending, clock, cb).2 == LastReading(pending, Pass(pending, clock, cb).1, clock, cb)
  {
    hide FireAll, Taken, Sorted;
    var n := Taken(pending, clock, 0);
    PartsSorted(pending, n);
    FireLeaves(Timers(pending[n..], pending[..n]), clock, n + 1, cb, Timer(0, 0));
  }

  /** A pass leaves exactly the timers that neither fired nor were removed, and those added for good. */
  lemma PassLeaves(pending: seq<Timer>, clock: Clock, cb: Callbacks, t: Timer)
    requires Sorted(pending) && NeverBack(clock)
    ensures var (left, fired) := Pass(pending, clock, cb); t in left <==> Remains(pending, fired, clock, cb, t)
  {
    hide FireAll, Taken, Sorted, Removes, Leaves, Done, FiredOk;
    var n := Taken(pending, clock, 0);
    var s := Timers(pending[n..], pending[..n]);
    PartsSorted(pending, n);
    FiresExactly(s, clock, n + 1, cb);
    var fired := FireAll(s, clock, n + 1, cb).1;
    LeftIs(s, clock, n + 1, cb, t);
    FiredIn(s.expired, fired, cb, t);
    assert pending == pending[..n] + pending[n..];
    if t in pending[n..] {
      NotTaken(pending, clock, t);
    }
  }

  lemma LeftIs(s: Timers, clock: Clock, n: nat, cb: Callbacks, t: Timer)
    requires Sorted(s.pending) && Sorted(s.expired)
    ensures var (left, fired, _) := FireAll(s, clock, n, cb);
            t in left <==> (t in s.pending && !exists u :: u in fired && Removes(cb, u, t)) || Leaves(Done(fired, cb), clock, n, t)
  {
    hide FireAll, Sorted, Removes, Leaves, Done, Copies;
    FireLeaves(s, clock, n, cb, t);
    var fired := FireAll(s, clock, n, cb).1;
    SomeCopies(Done(fired, cb), clock, n, t);
    DoneRemoves(fired, cb, t);
  }

  lemma FiredIn(expired: seq<Timer>, fired: seq<Timer>, cb: Callbacks, t: Timer)
    requires FiredOk(expired, fired, cb)
    ensures t in fired ==> t in expired
    ensures t in expired && t !in fired ==> exists u :: u in fired && Removes(cb, u, t)
  {
    hide Sorted, Removes;
    assert t in fired ==> t in multiset(fired) && t in multiset(expired);
  }

  lemma NotTaken(s: seq<Timer>, clock: Clock, t: Timer)
    requires Sorted(s) && NeverBack(clock) && t in s[Taken(s, clock, 0)..]
    ensures t !in s[..Taken(s, clock, 0)]
  {
    var n := Taken(s, clock, 0);
    TakenSplits(s, clock, 0);
    assert s[n] == s[n..][0];
    forall i | 0 <= i < n
      ensures s[i].when < s[n].when
    {
      assert clock(i) <= clock(n);
    }
  }

  /** After a pass there is no wait exactly if no timer remains; otherwise it is the wait for the earliest that remains. */
  lemma PassWaits(pending: seq<Timer>, clock: Clock, cb: Callbacks)
    requires Sorted(pending) && NeverBack(clock)
    ensures var fired := Pass(pending, clock, cb).1;
            var wait := PassWait(pending, clock, cb);
            && (wait == -1 <==> forall t :: !Remains(pending, fired, clock, cb, t))
            && (wait != -1 ==>
                exists t :: Remains(pending, fired, clock, cb, t)
                            && (forall u :: Remains(pending, fired, clock, cb, u) ==> t.when <= u.when)
                            && wait == Wait(t.when, clock(LastReading(pending, fired, clock, cb))))
  {
    hide PassAll, Remains, Wait, LastReading;
    var (left, fired) := Pass(pending, clock, cb);
    forall t ensures t in left <==> Remains(pending, fired, clock, cb, t) {
      PassLeaves(pending, clock, cb, t);
    }
    PassReads(pending, clock, cb);
    PassExactly(pending, clock, cb);
    if left != [] {
      assert left[0] in left;
    }
  }

  lemma PartsSorted(s: seq<Timer>, n: nat)
    requires Sorted(s) && n <= |s|
    ensures Sorted(s[n..]) && Sorted(s[..n])
  {
  }

  lemma DueTaken(s: seq<Timer>, clock: Clock, t: Timer)
    requires Sorted(s) && NeverBack(clock) && t in s && t.when <= clock(0)
    ensures t in s[..Taken(s, clock, 0)]
  {
    TakenSplits(s, clock, 0);
    assert clock(0) <= clock(Taken(s, clock, 0));
  }

  lemma TakenDue(s: seq<Timer>, clock: Clock, t: Timer)
    requires Sorted(s) && NeverBack(clock) && t in s[..Taken(s, clock, 0)]
    ensures exists i :: 0 <= i < |s| && s[i] == t && t.when <= clock(i)
  {
    TakenSplits(s, clock, 0);
  }

  /** A periodic timer that has not been called for long is waited for though it is due: it fires, its callback adds the
      next expiration, one period after the last, and that is long past, too. */
  method PeriodicThoughDue(now: int, period: int) returns (list: TimerList, wait: int)
    requires period > 0 && now > LONG_AGO + period * 10000
    ensures list.pending == [Timer(now - LONG_AGO, 0)] && list.pending[0].when <= now && wait > 2_000_000_000
  {
    hide Wait, Remains, LastReading, PassAll, NeverBack;
    var when := now - LONG_AGO - period * 10000;
    list := new TimerList();
    list.AddTimeoutUser(when, 0, when);
    assert list.pending == [Timer(when, 0)];
    var cb: Callbacks := id => [Add(when + period * 10000, 0)];
    var clock: Clock := i => now;
    ghost var fired;
    OverduePass(now, when, clock, cb);
    WaitThoughDue(now);
    wait, fired := list.GetNextTimeout(clock, cb);
  }

  lemma OverduePass(now: int, when: int, clock: Clock, cb: Callbacks)
    requires now > LONG_AGO && when <= now && (forall i :: clock(i) == now) && cb(0) == [Add(now - LONG_AGO, 0)]
    ensures PassAll([Timer(when, 0)], clock, cb).0 == [Timer(now - LONG_AGO, 0)]
  {
    var list := [Timer(when, 0)];
    assert Taken(list, clock, 0) == 1;
    var s := Timers(list[1..], list[..1]);
    FireFirst(s, clock, 2, cb);
    var next := PerformAll(Timers([], []), clock, 2, cb(0));
    assert s.expired[1..] == [] && s.pending == [];
    assert next == Perform(Timers([], []), now, Add(now - LONG_AGO, 0));
  }

  lemma SortedTail(s: seq<Timer>)
    requires Sorted(s) && s != []
    ensures Sorted(s[1..])
  {
  }
}
