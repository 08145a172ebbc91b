/** Locks that are listed by where they start, for which the links of the holes stay right; and locks that are not. */
module LockOrder {
  import opened Spans
  import opened LockRanges
  import opened HoleLinks
  import opened LinkedHoles

  predicate Counted(l: FileLock, start: Pos, end: Pos) {
    !l.IsEmpty() && l.Overlaps(start, end)
  }

  /** The locks that overlap the range are listed in ascending order of their starts. */
  ghost predicate Ascending(locks: seq<FileLock>, start: Pos, end: Pos) {
    forall i, j :: 0 <= i < j < |locks| && Counted(locks[i], start, end) && Counted(locks[j], start, end) ==>
      locks[i].start <= locks[j].start
  }

  /** All holes but the last one end by `x`. */
  ghost predicate EndBy(b: Buffer, order: seq<int>, x: int) {
    forall k :: 0 <= k < |order| - 1 ==> b.SpanAt(order[k]).right <= x
  }

  /** Only the last hole is changed, and the links back stay right. */
  lemma {:induction false} CutLast(b: Buffer, order: seq<int>, k: nat, lock: FileLock, steps: nat) returns (after: seq<int>)
    requires WellLinked(b, order) && EndBy(b, order, lock.start) && k <= |order| && |order| - k <= steps
    ensures var r := CutFrom(b, Placed(order, k), lock, steps);
            !r.stale && WellLinked(r.buffer, after) && EndBy(r.buffer, after, lock.start)
    decreases steps
  {
    hide WellLinked, Stale, RemoveHole, SplitHole, Resize;
    after := order;
    if k < |order| {
      PlaceOk(b, order, k);
      var cur, c := order[k], b.holes[order[k]];
      assert SpansOf(b, order)[k] == b.SpanAt(cur);
      if c.end <= lock.start {
        after := CutLast(b, order, k + 1, lock, steps - 1);
      } else {
        assert k == |order| - 1 && c.next == NONE;
        after := CutEndHole(b, order, lock, steps);
      }
    }
  }

  lemma PlaceOk(b: Buffer, order: seq<int>, k: nat)
    requires WellLinked(b, order) && k < |order|
    ensures b.Has(order[k]) && b.holes[order[k]].next == Placed(order, k + 1) && !Stale(b, order[k])
  {
    LinkAt(b, order, k);
    assert PrevOk(b, order, k);
  }

  lemma ResizeWell(b: Buffer, order: seq<int>, k: nat, start: int, end: int)
    requires WellLinked(b, order) && k < |order| && b.Has(order[k])
    ensures WellLinked(Resize(b, order[k], start, end), order)
    ensures SpansOf(Resize(b, order[k], start, end), order) == SpansOf(b, order)[k := Span(start, end)]
  {
    var after := Resize(b, order[k], start, end);
    ResizeLinked(b, order, k, start, end);
    forall j
      ensures PrevOk(after, order, j)
    {
      assert PrevOk(b, order, j);
    }
  }

  lemma SameEnds(b: Buffer, order: seq<int>, b': Buffer, order': seq<int>, x: int)
    requires EndBy(b, order, x) && |SpansOf(b', order')| <= |order|
    requires order != []
    requires || SpansOf(b', order') <= SpansOf(b, order)
             || (order' == order && SpansOf(b', order)[..|order| - 1] == SpansOf(b, order)[..|order| - 1])
    ensures EndBy(b', order', x)
  {
    forall k | 0 <= k < |order'| - 1
      ensures b'.SpanAt(order'[k]) == b.SpanAt(order[k])
    {
      assert SpansOf(b', order')[k] == SpansOf(b, order)[k];
    }
  }

  lemma CutEndHole(b: Buffer, order: seq<int>, lock: FileLock, steps: nat) returns (after: seq<int>)
    requires WellLinked(b, order) && EndBy(b, order, lock.start) && order != [] && steps > 0
    requires var k := |order| - 1; b.Has(order[k]) && b.holes[order[k]].next == NONE && lock.start < b.holes[order[k]].end
    ensures var r := CutFrom(b, order[|order| - 1], lock, steps);
            !r.stale && WellLinked(r.buffer, after) && EndBy(r.buffer, after, lock.start)
  {
    hide WellLinked, Stale, RemoveHole, SplitHole, Resize, EndBy;
    after := order;
    var k := |order| - 1;
    var cur, c := order[k], b.holes[order[k]];
    PlaceOk(b, order, k);
    if lock.end != 0 && c.start >= lock.end {
    } else if c.start >= lock.start {
      var shrunk := Resize(b, cur, lock.end, c.end);
      ResizeWell(b, order, k, lock.end, c.end);
      SameEnds(b, order, shrunk, order, lock.start);
      StaleResized(b, cur, lock.end, c.end);
      if !(lock.end != 0 && lock.end < c.end) {
        after := order[..k] + order[k + 1..];
        RemoveKeepsLinks(shrunk, order, k);
        RemoveSpans(shrunk, cur, after);
        assert after == order[..k];
        SameEnds(b, order, RemoveHole(shrunk, cur), after, lock.start);
      }
    } else if lock.end == 0 || c.end <= lock.end {
      ResizeWell(b, order, k, c.start, lock.start);
      SameEnds(b, order, Resize(b, cur, c.start, lock.start), order, lock.start);
    } else {
      after := order[..k + 1] + [|b.holes|] + order[k + 1..];
      SplitKeepsLinks(b, order, k, lock.start, lock.end);
      SplitEnds(b, order, lock);
    }
  }

  lemma SplitEnds(b: Buffer, order: seq<int>, lock: FileLock)
    requires WellLinked(b, order) && EndBy(b, order, lock.start) && order != [] && b.Has(order[|order| - 1])
    ensures var k := |order| - 1;
            EndBy(SplitHole(b, order[k], lock.start, lock.end), order[..k + 1] + [|b.holes|] + order[k + 1..], lock.start)
  {
    var k := |order| - 1;
    var after, placed := SplitHole(b, order[k], lock.start, lock.end), order[..k + 1] + [|b.holes|] + order[k + 1..];
    InChain(b, order);
    forall j | 0 <= j < |placed| - 1
      ensures after.SpanAt(placed[j]).right <= lock.start
    {
      assert placed[j] == order[j];
      if j < k {
        assert b.SpanAt(order[j]).right <= lock.start;
      }
    }
  }

  /** No link back is out of date when a hole is taken out, if the locks are listed by where they start. */
  lemma {:induction false} AscendingClean(locks: seq<FileLock>, start: Pos, end: Pos, x: int) returns (order: seq<int>)
    requires Ascending(locks, start, end)
    requires forall i :: 0 <= i < |locks| && Counted(locks[i], start, end) ==> locks[i].start <= x
    ensures var r := CutAll(locks, start, end); !r.stale && WellLinked(r.buffer, order) && EndBy(r.buffer, order, x)
    decreases |locks|
  {
    hide WellLinked, CutFrom;
    if locks == [] {
      order := [0];
      OneWellLinked(start, end);
    } else {
      var n := |locks| - 1;
      var l, b := locks[n], CutAll(locks[..n], start, end).buffer;
      if Counted(l, start, end) {
        order := AscendingClean(locks[..n], start, end, l.start);
        StartsThere(b, order);
        order := CutLast(b, order, 0, l, |b.holes|);
      } else {
        order := AscendingClean(locks[..n], start, end, x);
      }
    }
  }

  lemma StartsThere(b: Buffer, order: seq<int>)
    requires WellLinked(b, order)
    ensures b.first == Placed(order, 0) && |order| <= |b.holes|
  {
  }

  lemma OneWellLinked(start: int, end: int)
    ensures WellLinked(Buffer([Hole(NONE, NONE, start, end)], 0), [0])
  {
  }

  // ----- a hole that is lost -----

  /** Locks on 10..20, 2..4 and 20..100, in this order. */
  function ThreeLocks(): seq<FileLock> {
    [FileLock(false, 10, 20, 1, 1), FileLock(false, 2, 4, 1, 1), FileLock(false, 20, 100, 1, 1)]
  }

  lemma CutThree()
    ensures CutAll(ThreeLocks(), 0, 100) ==
            Cutting(Buffer([Hole(NONE, NONE, 0, 2), Hole(NONE, 0, 100, 100), Hole(1, 0, 4, 10)], 0), true)
  {
    var locks := ThreeLocks();
    assert locks[..2][..1] == locks[..1] && locks[..1][..0] == [];
    assert CutAll(locks[..1][..0], 0, 100) == Cutting(Buffer([Hole(NONE, NONE, 0, 100)], 0), false);
    var one := Buffer([Hole(1, NONE, 0, 10), Hole(NONE, 0, 20, 100)], 0);
    assert CutAll(locks[..1], 0, 100) == Cutting(one, false);
    var two := Buffer([Hole(2, NONE, 0, 2), Hole(NONE, 0, 20, 100), Hole(1, 0, 4, 10)], 0);
    assert CutAll(locks[..2], 0, 100) == Cutting(two, false);
    assert CutFrom(two, 2, locks[2], 2) == CutFrom(two, 1, locks[2], 1);
    assert CutFrom(two, 0, locks[2], 3) == CutFrom(two, 2, locks[2], 2);
  }

  /** No lock covers the hole 4..10 and it is in the buffer, but the links do not lead to it. */
  lemma HoleIsLost()
    ensures Reached(CutAll(ThreeLocks(), 0, 100).buffer) == [Span(0, 2)]
    ensures !Unlocked([Span(0, 2)], ThreeLocks(), 0, 100)
  {
    hide CutAll;
    CutThree();
    var b := Buffer([Hole(NONE, NONE, 0, 2), Hole(NONE, 0, 100, 100), Hole(1, 0, 4, 10)], 0);
    assert Follow(b, NONE, 2) == [];
    assert !InSpans([Span(0, 2)], 5);
    assert !Locked(ThreeLocks(), 5);
  }

  /** A further lock on 4..10 makes the result right again: that a link is out of date does not always show. */
  lemma StaleButRight()
    ensures var locks := ThreeLocks() + [FileLock(false, 4, 10, 1, 1)];
            && CutAll(locks, 0, 100).stale
            && Unlocked(Reached(CutAll(locks, 0, 100).buffer), locks, 0, 100)
  {
    var locks := ThreeLocks() + [FileLock(false, 4, 10, 1, 1)];
    assert locks[..3] == ThreeLocks();
    CutThree();
    var b := CutAll(ThreeLocks(), 0, 100).buffer;
    assert CutAll(locks, 0, 100) == Cutting(b, true);
    assert Reached(b) == [Span(0, 2)];
    forall x
      ensures InSpans([Span(0, 2)], x) <==> 0 <= x < 100 && !Locked(locks, x)
    {
      HeadSpan([Span(0, 2)], x);
      assert locks[0].Has(x) || locks[1].Has(x) || locks[2].Has(x) || locks[3].Has(x) ==> Locked(locks, x);
    }
  }
}
