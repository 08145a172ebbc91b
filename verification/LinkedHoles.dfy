/** The search for unlocked holes in a range, on the linked buffer. */
module LinkedHoles {
  import opened Spans
  import opened LockRanges
  import opened HoleLinks

  /** A buffer, and whether a hole was taken out of it while the link back from the hole was out of date. */
  datatype Cutting = Cutting(buffer: Buffer, stale: bool)

  /** Goes through the holes touched by a lock, from `cur` on, as far as `steps` holes. */
  function CutFrom(b: Buffer, cur: int, lock: FileLock, steps: nat): Cutting
    decreases steps
  {
    if steps == 0 || !b.Has(cur) then Cutting(b, false)
    else
      var c := b.holes[cur];
      if c.end <= lock.start then CutFrom(b, c.next, lock, steps - 1)
      else if lock.end != 0 && c.start >= lock.end then Cutting(b, false)
      else if c.start >= lock.start then
        var shrunk := Resize(b, cur, lock.end, c.end);
        if lock.end != 0 && lock.end < c.end then Cutting(shrunk, false)
        else
          var rest := CutFrom(RemoveHole(shrunk, cur), c.next, lock, steps - 1);
          rest.(stale := rest.stale || Stale(b, cur))
      else if lock.end == 0 || c.end <= lock.end then
        CutFrom(Resize(b, cur, c.start, lock.start), c.next, lock, steps - 1)
      else Cutting(SplitHole(b, cur, lock.start, lock.end), false)
  }

  /** The buffer after all the locks that overlap the range, in the order of the list. */
  function CutAll(locks: seq<FileLock>, start: Pos, end: Pos): Cutting {
    if locks == [] then Cutting(Buffer([Hole(NONE, NONE, start, end)], 0), false)
    else
      var n := |locks| - 1;
      var before := CutAll(locks[..n], start, end);
      if locks[n].IsEmpty() || !locks[n].Overlaps(start, end) then before
      else
        var after := CutFrom(before.buffer, before.buffer.first, locks[n], |before.buffer.holes|);
        after.(stale := before.stale || after.stale)
  }

  // ----- one lock -----

  /** As long as no link back is out of date, the list loses exactly the bytes of the lock. */
  lemma {:induction false} CutExact(b: Buffer, order: seq<int>, k: nat, holes: seq<Span>, lock: FileLock, steps: nat)
    returns (after: seq<int>)
    requires Linked(b, order) && k <= |order| && |order| - k <= steps && lock.WellFormed() && !lock.IsEmpty()
    requires Cut(SpansOf(b, order)[..k], SpansOf(b, order)[k..], holes, lock)
    ensures var r := CutFrom(b, Placed(order, k), lock, steps);
            !r.stale ==> Linked(r.buffer, after) && CutOut(SpansOf(r.buffer, after), holes, lock)
    decreases steps
  {
    hide Linked, Cut, CutOut, Stale, RemoveHole, SplitHole, Resize;
    after := order;
    var spans := SpansOf(b, order);
    var finished, rest := spans[..k], spans[k..];
    assert finished + rest == spans;
    if k == |order| {
      CutDone(finished, rest, holes, lock);
      return;
    }
    LinkAt(b, order, k);
    var cur := order[k];
    var c := b.holes[cur];
    assert rest[0] == Span(c.start, c.end) && rest[1..] == spans[k + 1..];
    if c.end <= lock.start {
      CutSkip(finished, rest, holes, lock);
      assert finished + [rest[0]] == spans[..k + 1];
      after := CutExact(b, order, k + 1, holes, lock, steps - 1);
    } else if lock.end != 0 && c.start >= lock.end {
      CutDone(finished, rest, holes, lock);
    } else if c.start >= lock.start {
      after := CutFirst(b, order, k, holes, lock, steps);
    } else if lock.end == 0 || c.end <= lock.end {
      CutEnd(finished, rest, holes, lock);
      ResizeLinked(b, order, k, c.start, lock.start);
      var shrunk := SpansOf(Resize(b, cur, c.start, lock.start), order);
      assert shrunk[..k + 1] == finished + [Span(c.start, lock.start)] && shrunk[k + 1..] == rest[1..];
      after := CutExact(Resize(b, cur, c.start, lock.start), order, k + 1, holes, lock, steps - 1);
    } else {
      CutSplit(finished, rest, holes, lock);
      SplitLinked(b, order, k, lock.start, lock.end);
      after := order[..k + 1] + [|b.holes|] + order[k + 1..];
    }
  }

  lemma {:induction false} CutFirst(b: Buffer, order: seq<int>, k: nat, holes: seq<Span>, lock: FileLock, steps: nat)
    returns (after: seq<int>)
    requires Linked(b, order) && k < |order| <= k + steps && lock.WellFormed() && !lock.IsEmpty()
    requires b.Has(order[k]) && NextOk(b, order, k)
    requires Cut(SpansOf(b, order)[..k], SpansOf(b, order)[k..], holes, lock)
    requires var c := b.SpanAt(order[k]); lock.start <= c.left && lock.start < c.right && (lock.end == 0 || c.left < lock.end)
    ensures var r := CutFrom(b, Placed(order, k), lock, steps);
            !r.stale ==> Linked(r.buffer, after) && CutOut(SpansOf(r.buffer, after), holes, lock)
    decreases steps, 0
  {
    hide Linked, Cut, CutOut, Stale, RemoveHole, Resize;
    after := order;
    var spans := SpansOf(b, order);
    var finished, rest := spans[..k], spans[k..];
    var cur := order[k];
    var c := b.holes[cur];
    var shrunk := Resize(b, cur, lock.end, c.end);
    ResizeLinked(b, order, k, lock.end, c.end);
    var thinner := SpansOf(shrunk, order);
    assert thinner[..k] == finished && thinner[k + 1..] == rest[1..];
    if lock.end != 0 && lock.end < c.end {
      CutStart(finished, rest, holes, lock);
      assert thinner == finished + [Span(lock.end, c.end)] + rest[1..];
    } else if !Stale(b, cur) {
      CutRemove(finished, rest, holes, lock);
      StaleResized(b, cur, lock.end, c.end);
      RemoveLinked(shrunk, order, k);
      var fewer := order[..k] + order[k + 1..];
      assert SpansOf(RemoveHole(shrunk, cur), fewer)[..k] == finished;
      assert SpansOf(RemoveHole(shrunk, cur), fewer)[k..] == rest[1..];
      assert Placed(fewer, k) == c.next;
      after := CutExact(RemoveHole(shrunk, cur), fewer, k, holes, lock, steps - 1);
    }
  }

  lemma StaleResized(b: Buffer, cur: int, start: int, end: int)
    requires b.Has(cur)
    ensures Resize(b, cur, start, end).Has(cur) && (Stale(Resize(b, cur, start, end), cur) <==> Stale(b, cur))
    ensures Resize(b, cur, start, end).holes[cur].next == b.holes[cur].next
    ensures Resize(b, cur, start, end).holes[cur].prev == b.holes[cur].prev
    ensures |Resize(b, cur, start, end).holes| == |b.holes|
  {
  }

  /** A hole inside the lock is shrunk to nothing and taken out. */
  lemma CutInside(b: Buffer, cur: int, lock: FileLock, steps: nat)
    requires b.Has(cur) && steps > 0 && lock.start <= b.SpanAt(cur).left && lock.start < b.SpanAt(cur).right
    requires lock.end == 0 || (b.SpanAt(cur).left < lock.end && b.SpanAt(cur).right <= lock.end)
    ensures var c := b.holes[cur];
            var after := RemoveHole(Resize(b, cur, lock.end, c.end), cur);
            CutFrom(b, cur, lock, steps).buffer == CutFrom(after, c.next, lock, steps - 1).buffer
  {
  }

  // ----- a link back that is out of date -----

  /** The remaining holes start inside or after the lock. */
  ghost predicate FromLock(b: Buffer, order: seq<int>, k: nat, lock: FileLock) {
    forall j :: k <= j < |order| ==> lock.start <= b.SpanAt(order[j]).left && lock.start < b.SpanAt(order[j]).right
  }

  /** From a right link back on, the holes inside the lock are all taken out of the list. */
  lemma {:induction false} SwallowClean(b: Buffer, order: seq<int>, k: nat, lock: FileLock, steps: nat)
    requires Linked(b, order) && 0 < k <= |order| && FromLock(b, order, k, lock)
    requires k < |order| && b.Has(order[k]) ==> b.holes[order[k]].prev == order[k - 1]
    ensures !CutFrom(b, Placed(order, k), lock, steps).stale
    decreases steps
  {
    hide Linked, Stale, RemoveHole, Resize;
    if steps > 0 && k < |order| {
      LinkAt(b, order, k);
      var cur, c := order[k], b.holes[order[k]];
      assert b.SpanAt(cur).left == c.start;
      if !(lock.end != 0 && (c.start >= lock.end || lock.end < c.end)) {
        var shrunk := Resize(b, cur, lock.end, c.end);
        ResizeLinked(b, order, k, lock.end, c.end);
        StaleResized(b, cur, lock.end, c.end);
        var after, fewer := RemoveHole(shrunk, cur), order[..k] + order[k + 1..];
        RemoveLinked(shrunk, order, k);
        NextBack(shrunk, order, k);
        RemoveSpans(shrunk, cur, fewer);
        forall j | k <= j < |fewer|
          ensures after.SpanAt(fewer[j]) == b.SpanAt(order[j + 1])
        {
          assert SpansOf(after, fewer)[j] == SpansOf(shrunk, order)[j + 1];
        }
        assert Placed(fewer, k) == c.next;
        SwallowClean(after, fewer, k, lock, steps - 1);
      }
    }
  }

  lemma NextBack(b: Buffer, order: seq<int>, k: nat)
    requires Chain(b, order) && k < |order| && b.Has(order[k])
    ensures k + 1 < |order| ==>
              b.Has(order[k + 1]) && RemoveHole(b, order[k]).holes[order[k + 1]].prev == b.holes[order[k]].prev
  {
    InChain(b, order);
    assert NextOk(b, order, k);
  }

  /** From a link back to a hole outside the list on, nothing is taken out of the list. */
  lemma {:induction false} SwallowFails(b: Buffer, order: seq<int>, k: nat, p: int, lock: FileLock, steps: nat)
    requires Chain(b, order) && 0 < k <= |order| && FromLock(b, order, k, lock) && b.Has(p) && p !in order
    requires k < |order| && b.Has(order[k]) ==> b.holes[order[k]].prev == p
    ensures var r := CutFrom(b, Placed(order, k), lock, steps).buffer;
            Chain(r, order) && SpansOf(r, order)[..k] == SpansOf(b, order)[..k]
    decreases steps
  {
    hide Chain, Stale, RemoveHole, Resize;
    if steps > 0 && k < |order| {
      InChain(b, order);
      NextInChain(b, order, k);
      var cur, c := order[k], b.holes[order[k]];
      assert b.SpanAt(cur).left == c.start;
      if !(lock.end != 0 && c.start >= lock.end) {
        var shrunk := Resize(b, cur, lock.end, c.end);
        ResizeChain(b, order, k, lock.end, c.end);
        StaleResized(b, cur, lock.end, c.end);
        if !(lock.end != 0 && lock.end < c.end) {
          RemoveFails(shrunk, order, k);
          InChain(shrunk, order);
          var after := RemoveHole(shrunk, cur);
          forall j | k < j < |order|
            ensures after.SpanAt(order[j]) == b.SpanAt(order[j])
          {
            assert SpansOf(after, order)[j] == SpansOf(b, order)[j];
          }
          InChain(after, order);
          RemoveSize(shrunk, cur);
          SwallowFails(after, order, k + 1, p, lock, steps - 1);
          var r := CutFrom(after, Placed(order, k + 1), lock, steps - 1).buffer;
          assert SpansOf(r, order)[..k] == SpansOf(r, order)[..k + 1][..k];
          assert SpansOf(b, order)[..k] == SpansOf(after, order)[..k + 1][..k];
        }
      }
    }
  }

  lemma NextInChain(b: Buffer, order: seq<int>, k: nat)
    requires Chain(b, order) && k < |order|
    ensures NextOk(b, order, k)
  {
  }

  lemma RemoveSize(b: Buffer, cur: int)
    requires b.Has(cur)
    ensures |RemoveHole(b, cur).holes| == |b.holes|
  {
  }

  /** Once a hole is taken out while its link back is out of date, the links no longer lead to exactly the right holes:
      one is missing, or one is there that should be gone. */
  lemma {:induction false} StaleIsWrong(b: Buffer, order: seq<int>, k: nat, holes: seq<Span>, lock: FileLock, steps: nat)
    requires Linked(b, order) && k <= |order| && |order| - k <= steps && lock.WellFormed() && !lock.IsEmpty()
    requires Cut(SpansOf(b, order)[..k], SpansOf(b, order)[k..], holes, lock)
    ensures var r := CutFrom(b, Placed(order, k), lock, steps); r.stale ==> !CutOut(Reached(r.buffer), holes, lock)
    decreases steps
  {
    hide Linked, Cut, CutOut, Stale, RemoveHole, SplitHole, Resize, Reached;
    if k < |order| {
      var spans := SpansOf(b, order);
      var finished, rest := spans[..k], spans[k..];
      LinkAt(b, order, k);
      var cur := order[k];
      var c := b.holes[cur];
      assert rest[0] == Span(c.start, c.end) && rest[1..] == spans[k + 1..];
      if c.end <= lock.start {
        CutSkip(finished, rest, holes, lock);
        assert finished + [rest[0]] == spans[..k + 1];
        StaleIsWrong(b, order, k + 1, holes, lock, steps - 1);
      } else if lock.end != 0 && c.start >= lock.end {
      } else if c.start >= lock.start {
        StaleFirst(b, order, k, holes, lock, steps);
      } else if lock.end == 0 || c.end <= lock.end {
        CutEnd(finished, rest, holes, lock);
        ResizeLinked(b, order, k, c.start, lock.start);
        var shrunk := SpansOf(Resize(b, cur, c.start, lock.start), order);
        assert shrunk[..k + 1] == finished + [Span(c.start, lock.start)] && shrunk[k + 1..] == rest[1..];
        StaleIsWrong(Resize(b, cur, c.start, lock.start), order, k + 1, holes, lock, steps - 1);
      }
    }
  }

  lemma {:induction false} StaleFirst(b: Buffer, order: seq<int>, k: nat, holes: seq<Span>, lock: FileLock, steps: nat)
    requires Linked(b, order) && k < |order| <= k + steps && lock.WellFormed() && !lock.IsEmpty()
    requires b.Has(order[k]) && NextOk(b, order, k)
    requires Cut(SpansOf(b, order)[..k], SpansOf(b, order)[k..], holes, lock)
    requires var c := b.SpanAt(order[k]); lock.start <= c.left && lock.start < c.right && (lock.end == 0 || c.left < lock.end)
    ensures var r := CutFrom(b, Placed(order, k), lock, steps); r.stale ==> !CutOut(Reached(r.buffer), holes, lock)
    decreases steps, 0
  {
    hide Linked, Cut, CutOut, Stale, RemoveHole, Resize, Reached;
    var spans := SpansOf(b, order);
    var finished, rest := spans[..k], spans[k..];
    var cur := order[k];
    var c := b.holes[cur];
    if !(lock.end != 0 && lock.end < c.end) {
      var shrunk := Resize(b, cur, lock.end, c.end);
      ResizeLinked(b, order, k, lock.end, c.end);
      StaleResized(b, cur, lock.end, c.end);
      if !Stale(b, cur) {
        CutRemove(finished, rest, holes, lock);
        RemoveLinked(shrunk, order, k);
        var fewer := order[..k] + order[k + 1..];
        assert SpansOf(RemoveHole(shrunk, cur), fewer)[..k] == finished;
        assert SpansOf(RemoveHole(shrunk, cur), fewer)[k..] == rest[1..];
        assert Placed(fewer, k) == c.next;
        StaleIsWrong(RemoveHole(shrunk, cur), fewer, k, holes, lock, steps - 1);
      } else if j :| 0 <= j < |order| && order[j] == c.prev {
        LosesHole(b, order, j, k, holes, lock, steps);
      } else {
        KeepsHole(b, order, k, holes, lock, steps);
      }
    }
  }

  /** The link back leads to a hole further up: the holes in between are lost. */
  lemma LosesHole(b: Buffer, order: seq<int>, j: nat, k: nat, holes: seq<Span>, lock: FileLock, steps: nat)
    requires Linked(b, order) && j < |order| && k < |order| <= k + steps && lock.WellFormed() && !lock.IsEmpty()
    requires b.Has(order[k]) && NextOk(b, order, k) && Stale(b, order[k]) && b.holes[order[k]].prev == order[j]
    requires Cut(SpansOf(b, order)[..k], SpansOf(b, order)[k..], holes, lock)
    requires var c := b.SpanAt(order[k]);
             && lock.start <= c.left && lock.start < c.right
             && (lock.end == 0 || (c.left < lock.end && c.right <= lock.end))
    ensures !CutOut(Reached(CutFrom(b, Placed(order, k), lock, steps).buffer), holes, lock)
  {
    hide Linked, Cut, CutOut, Stale, RemoveHole, Resize, Reached, CutFrom, SpansOf;
    LinkAt(b, order, k);
    CutInside(b, order[k], lock, steps);
    assert j < k - 1;
    var spans, cur, c := SpansOf(b, order), order[k], b.holes[order[k]];
    var shrunk := Resize(b, cur, lock.end, c.end);
    ResizeLinked(b, order, k, lock.end, c.end);
    StaleResized(b, cur, lock.end, c.end);
    var after, fewer := RemoveHole(shrunk, cur), order[..j + 1] + order[k + 1..];
    RemoveSkips(shrunk, order, j, k);
    RemoveSpans(shrunk, cur, fewer);
    var left := SpansOf(after, fewer);
    assert left[..j + 1] == spans[..j + 1] && left[j + 1..] == spans[k + 1..];
    assert left == spans[..j + 1] + spans[k + 1..];
    LinkedIsChain(shrunk, order);
    NextBack(shrunk, order, k);
    CutShorter(spans, j, k, holes, lock);
    forall i | j + 1 <= i < |fewer|
      ensures lock.start <= after.SpanAt(fewer[i]).left < after.SpanAt(fewer[i]).right
    {
      assert left[i] == spans[i + k - j];
      CutLater(spans, k, i + k - j, holes, lock);
    }
    assert Placed(fewer, j + 1) == c.next;
    SwallowClean(after, fewer, j + 1, lock, steps - 1);
    var end := CutExact(after, fewer, j + 1, left, lock, steps - 1);
    var r := CutFrom(b, cur, lock, steps).buffer;
    LinkedIsChain(r, end);
    ReachedChain(r, end);
    LostByte(Reached(r), spans, j, k, holes, lock);
  }

  lemma LinkedIsChain(b: Buffer, order: seq<int>)
    requires Linked(b, order)
    ensures Chain(b, order)
  {
  }

  lemma CutShorter(spans: seq<Span>, j: nat, k: nat, holes: seq<Span>, lock: FileLock)
    requires j < k < |spans| && Cut(spans[..k], spans[k..], holes, lock)
    ensures Cut(spans[..j + 1], spans[k + 1..], spans[..j + 1] + spans[k + 1..], lock)
  {
    var s, t := spans[..j + 1], spans[k + 1..];
    assert spans[..k] + spans[k..] == spans;
    forall b
      ensures InSpans(s, b) || (InSpans(t, b) && !lock.Has(b)) <==> InSpans(s + t, b) && !lock.Has(b)
    {
      InConcat(s, t, b);
      assert spans[..k] == s + spans[j + 1..k];
      InConcat(s, spans[j + 1..k], b);
    }
  }

  lemma CutLater(spans: seq<Span>, k: nat, i: nat, holes: seq<Span>, lock: FileLock)
    requires k < i < |spans| && Cut(spans[..k], spans[k..], holes, lock) && lock.start < spans[k].right
    ensures lock.start <= spans[i].left < spans[i].right
  {
    assert spans[..k] + spans[k..] == spans;
  }

  /** The first byte of a hole that was lost is not in the holes that are left. */
  lemma LostByte(reached: seq<Span>, spans: seq<Span>, j: nat, k: nat, holes: seq<Span>, lock: FileLock)
    requires j + 1 < k < |spans| && Cut(spans[..k], spans[k..], holes, lock)
    requires CutOut(reached, spans[..j + 1] + spans[k + 1..], lock)
    ensures !CutOut(reached, holes, lock)
  {
    var x := spans[j + 1].left;
    assert spans[..k] + spans[k..] == spans;
    assert spans[j + 1].Has(x);
    assert spans[..k][j + 1].Has(x);
    assert InSpans(spans[..k], x);
    assert !InSpans(spans[..j + 1] + spans[k + 1..], x);
  }

  /** The link back leads to a hole that is no longer in the list: the hole stays, with bytes of the lock or none. */
  lemma KeepsHole(b: Buffer, order: seq<int>, k: nat, holes: seq<Span>, lock: FileLock, steps: nat)
    requires Linked(b, order) && k < |order| <= k + steps && lock.WellFormed() && !lock.IsEmpty()
    requires b.Has(order[k]) && NextOk(b, order, k) && Stale(b, order[k]) && b.holes[order[k]].prev !in order
    requires Cut(SpansOf(b, order)[..k], SpansOf(b, order)[k..], holes, lock)
    requires var c := b.SpanAt(order[k]);
             && lock.start <= c.left && lock.start < c.right
             && (lock.end == 0 || (c.left < lock.end && c.right <= lock.end))
    ensures !CutOut(Reached(CutFrom(b, Placed(order, k), lock, steps).buffer), holes, lock)
  {
    hide Linked, Chain, Cut, CutOut, Stale, RemoveHole, Resize, Reached, CutFrom, SpansOf;
    LinkAt(b, order, k);
    CutInside(b, order[k], lock, steps);
    var spans, cur, c := SpansOf(b, order), order[k], b.holes[order[k]];
    var shrunk := Resize(b, cur, lock.end, c.end);
    ResizeLinked(b, order, k, lock.end, c.end);
    StaleResized(b, cur, lock.end, c.end);
    LinkedIsChain(shrunk, order);
    InChain(shrunk, order);
    RemoveFails(shrunk, order, k);
    RemoveSize(shrunk, cur);
    var after := RemoveHole(shrunk, cur);
    forall i | k + 1 <= i < |order|
      ensures lock.start <= after.SpanAt(order[i]).left < after.SpanAt(order[i]).right
    {
      assert SpansOf(after, order)[i] == spans[i];
      CutLater(spans, k, i, holes, lock);
    }
    SwallowFails(after, order, k + 1, c.prev, lock, steps - 1);
    var r := CutFrom(b, cur, lock, steps).buffer;
    ReachedChain(r, order);
    assert Reached(r)[k] == SpansOf(after, order)[..k + 1][k];
    KeptSpan(Reached(r), k, c.end, holes, lock);
  }

  lemma KeptSpan(reached: seq<Span>, k: nat, end: int, holes: seq<Span>, lock: FileLock)
    requires k < |reached| && reached[k] == Span(lock.end, end) && !lock.IsEmpty()
    requires lock.start < end && (lock.end == 0 || end <= lock.end)
    ensures !CutOut(reached, holes, lock)
  {
    if lock.end == 0 {
      assert reached[k].Has(lock.start) && lock.Has(lock.start);
      assert InSpans(reached, lock.start);
    }
  }

  // ----- all locks -----

  ghost predicate AllWellFormed(locks: seq<FileLock>) {
    forall i :: 0 <= i < |locks| ==> locks[i].WellFormed()
  }

  lemma {:induction false} CutAllExact(locks: seq<FileLock>, start: Pos, end: Pos) returns (order: seq<int>)
    requires AllWellFormed(locks) && start < end
    ensures var r := CutAll(locks, start, end);
            !r.stale ==> Linked(r.buffer, order) && Unlocked(SpansOf(r.buffer, order), locks, start, end)
    decreases |locks|
  {
    hide Linked, Unlocked, CutOut, Cut, CutFrom, SpansOf;
    if locks == [] {
      order := [0];
      OneHole(start, end);
      NoLocks(start, end);
    } else {
      var n := |locks| - 1;
      var before := CutAll(locks[..n], start, end);
      order := CutAllExact(locks[..n], start, end);
      assert locks == locks[..n] + [locks[n]];
      if !before.stale {
        var holes := SpansOf(before.buffer, order);
        if locks[n].IsEmpty() || !locks[n].Overlaps(start, end) {
          OtherLock(holes, locks[..n], locks[n], start, end);
        } else {
          order := CutNext(before.buffer, order, locks[..n], locks[n], start, end);
        }
      }
    }
  }

  lemma OneHole(start: int, end: int)
    ensures Linked(Buffer([Hole(NONE, NONE, start, end)], 0), [0])
    ensures SpansOf(Buffer([Hole(NONE, NONE, start, end)], 0), [0]) == [Span(start, end)]
  {
  }

  lemma CutNext(b: Buffer, order: seq<int>, locks: seq<FileLock>, lock: FileLock, start: Pos, end: Pos)
    returns (after: seq<int>)
    requires Linked(b, order) && Unlocked(SpansOf(b, order), locks, start, end) && lock.WellFormed() && !lock.IsEmpty()
    ensures var r := CutFrom(b, b.first, lock, |b.holes|);
            if r.stale then !Unlocked(Reached(r.buffer), locks + [lock], start, end)
            else Linked(r.buffer, after) && Unlocked(SpansOf(r.buffer, after), locks + [lock], start, end)
  {
    hide CutOut, Cut, CutFrom, SpansOf, Reached, GapOrdered;
    var holes, r := SpansOf(b, order), CutFrom(b, b.first, lock, |b.holes|);
    CutStartsWhole(holes, lock);
    assert holes[..0] == [] && holes[0..] == holes;
    after := CutExact(b, order, 0, holes, lock, |b.holes|);
    StaleIsWrong(b, order, 0, holes, lock, |b.holes|);
    if r.stale {
      if Unlocked(Reached(r.buffer), locks + [lock], start, end) {
        CutOfUnlocked(Reached(r.buffer), holes, locks, lock, start, end);
      }
    } else {
      NextLock(SpansOf(r.buffer, after), holes, locks, lock, start, end);
    }
  }

  lemma CutOfUnlocked(cut: seq<Span>, holes: seq<Span>, locks: seq<FileLock>, l: FileLock, start: int, end: int)
    requires Unlocked(holes, locks, start, end) && Unlocked(cut, locks + [l], start, end)
    ensures CutOut(cut, holes, l)
  {
    forall b
      ensures InSpans(cut, b) <==> InSpans(holes, b) && !l.Has(b)
    {
      LockedSnoc(locks, l, b);
    }
  }

  /** The links lead to exactly the bytes that none of the first `i` locks has. */
  ghost predicate RightAfter(locks: seq<FileLock>, start: Pos, end: Pos, i: int) {
    0 <= i <= |locks| ==> Unlocked(Reached(CutAll(locks[..i], start, end).buffer), locks[..i], start, end)
  }

  /** The links lead to exactly the unlocked holes, unless a hole was taken out while its link back was out of date. */
  lemma LinksExact(locks: seq<FileLock>, start: Pos, end: Pos)
    requires AllWellFormed(locks) && start < end
    ensures !CutAll(locks, start, end).stale ==> Unlocked(Reached(CutAll(locks, start, end).buffer), locks, start, end)
  {
    hide Unlocked, Reached, CutAll;
    var order := CutAllExact(locks, start, end);
    if !CutAll(locks, start, end).stale {
      ReachedChain(CutAll(locks, start, end).buffer, order);
    }
  }

  lemma {:induction false} StaleStays(locks: seq<FileLock>, start: Pos, end: Pos, i: nat)
    requires i <= |locks|
    ensures CutAll(locks[..i], start, end).stale ==> CutAll(locks, start, end).stale
    decreases |locks|
  {
    if i == |locks| {
      assert locks[..i] == locks;
    } else {
      var n := |locks| - 1;
      assert locks[..n][..i] == locks[..i];
      StaleStays(locks[..n], start, end, i);
    }
  }

  /** They do so after every lock exactly if that never happens. */
  lemma LinksExactThroughout(locks: seq<FileLock>, start: Pos, end: Pos)
    requires AllWellFormed(locks) && start < end
    ensures (forall i :: RightAfter(locks, start, end, i)) <==> !CutAll(locks, start, end).stale
  {
    hide Unlocked, Reached, CutAll;
    if CutAll(locks, start, end).stale {
      FirstStale(locks, start, end);
    } else {
      forall i
        ensures RightAfter(locks, start, end, i)
      {
        if 0 <= i <= |locks| {
          StaleStays(locks, start, end, i);
          LinksExact(locks[..i], start, end);
        }
      }
    }
  }

  lemma {:induction false} FirstStale(locks: seq<FileLock>, start: Pos, end: Pos)
    requires AllWellFormed(locks) && start < end && CutAll(locks, start, end).stale
    ensures exists i :: !RightAfter(locks, start, end, i)
    decreases |locks|
  {
    hide Unlocked, Reached, CutFrom;
    var n := |locks| - 1;
    var before := CutAll(locks[..n], start, end);
    if before.stale {
      FirstStale(locks[..n], start, end);
      var i :| !RightAfter(locks[..n], start, end, i);
      assert locks[..n][..i] == locks[..i];
      assert !RightAfter(locks, start, end, i);
    } else {
      var order := CutAllExact(locks[..n], start, end);
      var after := CutNext(before.buffer, order, locks[..n], locks[n], start, end);
      assert locks[..n] + [locks[n]] == locks && locks[..|locks|] == locks;
      assert !RightAfter(locks, start, end, |locks|);
    }
  }

  // ----- what is unlocked -----

  /** The bytes that unlocking a hole reaches. A length of zero runs to the end of the file, and a negative length
      counts back from the start. */
  predicate UnlockHas(h: Span, maxOffset: Offset, b: int) {
    && h.left != h.right && h.left <= maxOffset
    && (if h.right == 0 || h.right > maxOffset then h.left <= b
        else if h.left < h.right then h.left <= b < h.right
        else h.right <= b < h.left)
  }

  /** `remove_unix_locks` removes the Unix lock on byte `b`. There is nothing to be done without a buffer, except
      when no lock overlaps the range. */
  ghost predicate Unlocks(locks: seq<FileLock>, start: Pos, limit: Pos, maxOffset: Offset, bufferOk: bool, b: int) {
    && start != limit && start <= maxOffset
    && var end := ClipEnd(limit, maxOffset);
    && (bufferOk || CountOverlaps(locks, start, end) == 0)
    && UnlocksSome(Reached(CutAll(locks, start, end).buffer), maxOffset, b)
  }

  ghost predicate UnlocksSome(holes: seq<Span>, maxOffset: Offset, b: int) {
    exists i :: 0 <= i < |holes| && UnlockHas(holes[i], maxOffset, b)
  }

  predicate CleanLinks(locks: seq<FileLock>, start: Pos, limit: Pos, maxOffset: Offset) {
    !CutAll(locks, start, ClipEnd(limit, maxOffset)).stale
  }

  /** If the links stay right and there is a buffer where one is needed, then exactly the bytes that no lock has are
      unlocked. */
  lemma UnlocksExact(locks: seq<FileLock>, start: Pos, limit: Pos, maxOffset: Offset, bufferOk: bool, b: int)
    requires AllWellFormed(locks) && (limit == 0 || start <= limit) && b <= maxOffset
    requires start != limit && start <= maxOffset ==> CleanLinks(locks, start, limit, maxOffset)
    requires bufferOk || CountOverlaps(locks, start, ClipEnd(limit, maxOffset)) == 0
    ensures Unlocks(locks, start, limit, maxOffset, bufferOk, b) <==> InClip(start, limit, maxOffset, b) && !Locked(locks, b)
  {
    hide Locked, Reached, CutAll, GapOrdered, InSpans;
    if start != limit && start <= maxOffset {
      var end := ClipEnd(limit, maxOffset);
      LinksExact(locks, start, end);
      UnlocksInSpans(Reached(CutAll(locks, start, end).buffer), locks, start, end, maxOffset, b);
    }
  }

  lemma UnlocksInSpans(holes: seq<Span>, locks: seq<FileLock>, start: Pos, end: Pos, maxOffset: Offset, b: int)
    requires Unlocked(holes, locks, start, end) && end <= maxOffset + 1 && b <= maxOffset
    ensures UnlocksSome(holes, maxOffset, b) <==> start <= b < end && !Locked(locks, b)
  {
    hide Locked;
    forall i | 0 <= i < |holes|
      ensures UnlockHas(holes[i], maxOffset, b) <==> holes[i].Has(b)
    {
      assert holes[i].Has(holes[i].left) && InSpans(holes, holes[i].left);
      assert holes[i].Has(holes[i].right - 1) && InSpans(holes, holes[i].right - 1);
    }
  }

  /** Then the links lead to the holes that the search on sequences finds. */
  lemma SameHoles(locks: seq<FileLock>, start: Pos, limit: Pos, maxOffset: Offset, holes: seq<Span>)
    requires AllWellFormed(locks) && start != limit && (limit == 0 || start < limit) && start <= maxOffset
    requires GapOrdered(holes) && forall b :: InSpans(holes, b) <==> InClip(start, limit, maxOffset, b) && !Locked(locks, b)
    requires CleanLinks(locks, start, limit, maxOffset)
    ensures Reached(CutAll(locks, start, ClipEnd(limit, maxOffset)).buffer) == holes
  {
    hide Locked, Reached, CutAll, GapOrdered, InSpans;
    LinksExact(locks, start, ClipEnd(limit, maxOffset));
    SpansUnique(holes, Reached(CutAll(locks, start, ClipEnd(limit, maxOffset)).buffer));
  }
}
