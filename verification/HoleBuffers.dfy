/** The loops that build the linked list of holes and run through it. */
module HoleBuffers {
  import opened Spans
  import opened LockRanges
  import opened HoleLinks
  import opened LinkedHoles

  /** Links forward go up in rank and links back go down, also for holes that are no longer in the list. */
  ghost predicate RankOk(b: Buffer, rank: seq<int>, i: int) {
    b.Has(i) && |rank| == |b.holes| ==>
      && 0 <= rank[i] < |b.holes|
      && var h := b.holes[i];
      && (h.next == NONE || (b.Has(h.next) && rank[i] < rank[h.next]))
      && (h.prev == NONE || (b.Has(h.prev) && rank[h.prev] < rank[i]))
  }

  ghost predicate Ranked(b: Buffer, rank: seq<int>) {
    && |rank| == |b.holes| && (b.first == NONE || b.Has(b.first))
    && forall i :: RankOk(b, rank, i)
  }

  ghost function SplitRank(rank: seq<int>, cur: int): seq<int>
    requires 0 <= cur < |rank|
  {
    seq(|rank|, i requires 0 <= i < |rank| => if rank[i] > rank[cur] then rank[i] + 1 else rank[i]) + [rank[cur] + 1]
  }

  lemma ResizeRanked(b: Buffer, rank: seq<int>, cur: int, start: int, end: int)
    requires Ranked(b, rank) && b.Has(cur)
    ensures Ranked(Resize(b, cur, start, end), rank)
  {
    forall i
      ensures RankOk(Resize(b, cur, start, end), rank, i)
    {
      assert RankOk(b, rank, i);
    }
  }

  lemma RemoveRanked(b: Buffer, rank: seq<int>, cur: int)
    requires Ranked(b, rank) && b.Has(cur)
    ensures Ranked(RemoveHole(b, cur), rank)
  {
    assert RankOk(b, rank, cur);
    forall i
      ensures RankOk(RemoveHole(b, cur), rank, i)
    {
      assert RankOk(b, rank, i);
    }
  }

  lemma SplitRanked(b: Buffer, rank: seq<int>, cur: int, lockStart: int, lockEnd: int)
    requires Ranked(b, rank) && b.Has(cur)
    ensures Ranked(SplitHole(b, cur, lockStart, lockEnd), SplitRank(rank, cur))
  {
    assert RankOk(b, rank, cur);
    forall i
      ensures RankOk(SplitHole(b, cur, lockStart, lockEnd), SplitRank(rank, cur), i)
    {
      assert RankOk(b, rank, i);
    }
  }

  /** The rest of the way from a hole is no longer than the buffer. */
  ghost predicate Within(b: Buffer, rank: seq<int>, cur: int, steps: int) {
    && (cur == NONE || b.Has(cur))
    && (b.Has(cur) && |rank| == |b.holes| ==> |b.holes| - rank[cur] <= steps)
  }

  lemma NextWithin(b: Buffer, rank: seq<int>, cur: int, steps: int)
    requires Ranked(b, rank) && b.Has(cur) && Within(b, rank, cur, steps)
    ensures steps > 0 && Within(b, rank, b.holes[cur].next, steps - 1)
  {
    assert RankOk(b, rank, cur);
  }

  lemma FirstWithin(b: Buffer, rank: seq<int>)
    requires Ranked(b, rank)
    ensures Within(b, rank, b.first, |b.holes|)
  {
    assert RankOk(b, rank, b.first);
  }

  /** Goes through all the holes touched by a lock. */
  method CutLock(b: Buffer, ghost rank: seq<int>, lock: FileLock) returns (r: Cutting, ghost rank': seq<int>)
    requires Ranked(b, rank)
    ensures r == CutFrom(b, b.first, lock, |b.holes|) && Ranked(r.buffer, rank')
    ensures |b.holes| <= |r.buffer.holes| <= |b.holes| + 1
  {
    hide Ranked, Within, Stale, RemoveHole, SplitHole, Resize;
    r, rank' := Cutting(b, false), rank;
    var cur := b.first;
    ghost var steps := |b.holes|;
    FirstWithin(b, rank);
    WithinHas(b, rank, cur, steps);
    while cur != NONE
      invariant Ranked(r.buffer, rank) && Within(r.buffer, rank, cur, steps) && (cur == NONE || r.buffer.Has(cur))
      invariant steps >= 0 && |r.buffer.holes| == |b.holes|
      invariant var rest := CutFrom(r.buffer, cur, lock, steps);
                CutFrom(b, b.first, lock, |b.holes|) == rest.(stale := r.stale || rest.stale)
      decreases steps
    {
      ghost var before := r.buffer;
      var c := r.buffer.holes[cur];
      NextWithin(before, rank, cur, steps);
      if c.end <= lock.start {
        WithinHas(before, rank, c.next, steps - 1);
      } else if lock.end != 0 && c.start >= lock.end {
        return;
      } else if c.start >= lock.start {
        var shrunk := Resize(r.buffer, cur, lock.end, c.end);
        ResizeRanked(before, rank, cur, lock.end, c.end);
        StaleResized(before, cur, lock.end, c.end);
        if lock.end != 0 && lock.end < c.end {
          r := r.(buffer := shrunk);
          return;
        }
        RemoveRanked(shrunk, rank, cur);
        RemoveSize(shrunk, cur);
        r := Cutting(RemoveHole(shrunk, cur), r.stale || Stale(r.buffer, cur));
        SameWithin(before, r.buffer, rank, c.next, steps - 1);
      } else if lock.end == 0 || c.end <= lock.end {
        assert c.start < lock.start;
        ResizeRanked(before, rank, cur, c.start, lock.start);
        StaleResized(before, cur, c.start, lock.start);
        r := r.(buffer := Resize(r.buffer, cur, c.start, lock.start));
        SameWithin(before, r.buffer, rank, c.next, steps - 1);
      } else {
        assert lock.end < c.end && (lock.WellFormed() && !lock.IsEmpty() ==> lock.start < lock.end);
        SplitRanked(before, rank, cur, lock.start, lock.end);
        SplitSize(before, cur, lock.start, lock.end);
        r := r.(buffer := SplitHole(r.buffer, cur, lock.start, lock.end));
        rank' := SplitRank(rank, cur);
        return;
      }
      cur := c.next;
      steps := steps - 1;
    }
  }

  lemma WithinHas(b: Buffer, rank: seq<int>, cur: int, steps: int)
    requires Within(b, rank, cur, steps)
    ensures cur == NONE || b.Has(cur)
  {
  }

  lemma SameWithin(b: Buffer, b': Buffer, rank: seq<int>, cur: int, steps: int)
    requires Within(b, rank, cur, steps) && |b'.holes| == |b.holes|
    ensures Within(b', rank, cur, steps) && (cur == NONE || b'.Has(cur))
  {
  }

  lemma SplitSize(b: Buffer, cur: int, lockStart: int, lockEnd: int)
    requires b.Has(cur)
    ensures |SplitHole(b, cur, lockStart, lockEnd).holes| == |b.holes| + 1
  {
  }

  /** Once there are no more holes at all, the other locks do not matter. */
  lemma {:induction false} NoMoreHoles(locks: seq<FileLock>, start: Pos, end: Pos, i: nat)
    requires i <= |locks| && CutAll(locks[..i], start, end).buffer.first == NONE
    ensures CutAll(locks, start, end) == CutAll(locks[..i], start, end)
    decreases |locks|
  {
    if i == |locks| {
      assert locks[..i] == locks;
    } else {
      var n := |locks| - 1;
      assert locks[..n][..i] == locks[..i];
      NoMoreHoles(locks[..n], start, end, i);
    }
  }

  /** Builds a list of unlocked holes in the specified area. There is one hole more than there are locks at most. */
  method LinkHoles(locks: seq<FileLock>, start: Pos, end: Pos) returns (r: Cutting, ghost rank: seq<int>)
    ensures r == CutAll(locks, start, end) && Ranked(r.buffer, rank)
    ensures |r.buffer.holes| <= CountOverlaps(locks, start, end) + 1
  {
    hide Ranked, CutFrom;
    r, rank := Cutting(Buffer([Hole(NONE, NONE, start, end)], 0), false), [0];
    OneRanked(start, end);
    assert locks[..0] == [];
    var i := 0;
    while i < |locks|
      invariant 0 <= i <= |locks| && r == CutAll(locks[..i], start, end) && Ranked(r.buffer, rank)
      invariant |r.buffer.holes| <= CountOverlaps(locks[..i], start, end) + 1
    {
      var lock := locks[i];
      assert locks[..i + 1][..i] == locks[..i];
      if !lock.IsEmpty() && lock.Overlaps(start, end) {
        var cut;
        cut, rank := CutLock(r.buffer, rank, lock);
        r := cut.(stale := r.stale || cut.stale);
        if r.buffer.first == NONE {
          NoMoreHoles(locks, start, end, i + 1);
          CountMonotonic(locks, i + 1, start, end);
          return;
        }
      }
      i := i + 1;
    }
    assert locks[..i] == locks;
  }

  lemma OneRanked(start: int, end: int)
    ensures Ranked(Buffer([Hole(NONE, NONE, start, end)], 0), [0])
  {
  }

  /** Counts the locks overlapping the specified area. */
  method CountLocks(locks: seq<FileLock>, start: Pos, end: Pos) returns (count: nat)
    ensures count == CountOverlaps(locks, start, end)
  {
    count := 0;
    var i := 0;
    assert locks[..0] == [];
    while i < |locks|
      invariant 0 <= i <= |locks| && count == CountOverlaps(locks[..i], start, end)
    {
      assert locks[..i + 1][..i] == locks[..i];
      if !locks[i].IsEmpty() && locks[i].Overlaps(start, end) {
        count := count + 1;
      }
      i := i + 1;
    }
    assert locks[..i] == locks;
  }

  /** Where no lock overlaps, the whole range is one hole. */
  lemma {:induction false} NoneOverlapping(locks: seq<FileLock>, start: Pos, end: Pos)
    requires CountOverlaps(locks, start, end) == 0
    ensures Reached(CutAll(locks, start, end).buffer) == [Span(start, end)]
    decreases |locks|
  {
    if locks == [] {
      assert Follow(Buffer([Hole(NONE, NONE, start, end)], 0), NONE, 0) == [];
    } else {
      NoneOverlapping(locks[..|locks| - 1], start, end);
    }
  }
}
