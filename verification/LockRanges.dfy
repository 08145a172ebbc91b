/** Byte ranges of file locks, and the search for unlocked holes in a range. */
module LockRanges {
  import opened Spans

  /** File positions are unsigned 64-bit numbers. */
  const POS_LIMIT := 0x1_0000_0000_0000_0000

  type Pos = n: int | 0 <= n < POS_LIMIT

  /** The largest offset of a Unix lock, which is smaller than the largest position. */
  type Offset = n: int | 0 <= n < POS_LIMIT - 1

  /** A lock on the bytes from `start` up to `end`; an end of zero stands for 2^64. */
  datatype FileLock = FileLock(shared: bool, start: Pos, end: Pos, fd: int, process: int) {
    predicate Overlaps(s: Pos, e: Pos) {
      if end != 0 && s >= end then false
      else if e != 0 && start >= e then false
      else true
    }

    predicate IsEmpty() {
      start == end
    }

    /** The bytes for which a Unix lock is wanted: none for an empty range. */
    predicate Has(b: int) {
      !IsEmpty() && start <= b && (end == 0 || b < end)
    }

    /** The range does not wrap around the end of the 64-bit positions. */
    predicate WellFormed() {
      end == 0 || start <= end
    }
  }

  /** Non-empty locks overlap exactly when they have a byte in common. */
  lemma OverlapMeansCommonByte(l: FileLock, m: FileLock)
    requires l.WellFormed() && m.WellFormed() && !l.IsEmpty() && !m.IsEmpty()
    ensures l.Overlaps(m.start, m.end) <==> exists b: Pos :: l.Has(b) && m.Has(b)
  {
    if l.Overlaps(m.start, m.end) {
      var b: Pos := Max(l.start, m.start);
      assert l.Has(b) && m.Has(b);
    }
  }

  ghost predicate Locked(locks: seq<FileLock>, b: int) {
    exists i :: 0 <= i < |locks| && locks[i].Has(b)
  }

  lemma LockedSnoc(locks: seq<FileLock>, l: FileLock, b: int)
    ensures Locked(locks + [l], b) <==> Locked(locks, b) || l.Has(b)
  {
    var all := locks + [l];
    if i :| 0 <= i < |locks| && locks[i].Has(b) {
      assert all[i].Has(b);
    }
    if l.Has(b) {
      assert all[|locks|].Has(b);
    }
  }

  // ----- cutting one lock out of a list of holes -----

  /** Some holes are done, the rest have still to be compared with the lock. */
  ghost predicate Cut(finished: seq<Span>, rest: seq<Span>, holes: seq<Span>, lock: FileLock) {
    && GapOrdered(finished + rest)
    && (forall b :: InSpans(finished, b) || (InSpans(rest, b) && !lock.Has(b)) <==> InSpans(holes, b) && !lock.Has(b))
  }

  lemma HeadSpan(s: seq<Span>, b: int)
    requires s != []
    ensures InSpans(s, b) <==> s[0].Has(b) || InSpans(s[1..], b)
  {
  }

  lemma AfterHead(finished: seq<Span>, rest: seq<Span>, b: int)
    requires GapOrdered(finished + rest) && rest != [] && InSpans(rest[1..], b)
    ensures rest[0].right < b
  {
    var i :| 0 <= i < |rest| - 1 && rest[1..][i].Has(b);
    assert (finished + rest)[|finished|] == rest[0];
    assert (finished + rest)[|finished| + 1 + i] == rest[1..][i];
  }

  /** Replaces the first of the remaining holes by `p`, which lies inside it. */
  lemma ReplaceOrdered(finished: seq<Span>, rest: seq<Span>, p: Span)
    requires GapOrdered(finished + rest) && rest != []
    requires rest[0].left <= p.left < p.right <= rest[0].right
    ensures GapOrdered(finished + [p] + rest[1..])
  {
    var s := finished + rest;
    var t := finished + [p] + rest[1..];
    forall i | 0 <= i < |t|
      ensures t[i].left < t[i].right
    {
      assert s[i].left < s[i].right;
    }
    forall i, j | 0 <= i < j < |t|
      ensures t[i].right < t[j].left
    {
      assert s[i].right < s[j].left;
    }
  }

  lemma RemoveOrdered(finished: seq<Span>, rest: seq<Span>)
    requires GapOrdered(finished + rest) && rest != []
    ensures GapOrdered(finished + rest[1..])
  {
    var s := finished + rest;
    var t := finished + rest[1..];
    var n := |finished|;
    forall i | 0 <= i < |t|
      ensures t[i].left < t[i].right
    {
      assert t[i] == s[if i < n then i else i + 1];
    }
    forall i, j | 0 <= i < j < |t|
      ensures t[i].right < t[j].left
    {
      assert s[if i < n then i else i + 1].right < s[if j < n then j else j + 1].left;
    }
  }

  lemma SplitOrdered(finished: seq<Span>, rest: seq<Span>, mid: int, mid': int)
    requires GapOrdered(finished + rest) && rest != []
    requires rest[0].left < mid < mid' < rest[0].right
    ensures GapOrdered(finished + [Span(rest[0].left, mid), Span(mid', rest[0].right)] + rest[1..])
  {
    var s := finished + rest;
    var n := |finished|;
    var t := finished + [Span(rest[0].left, mid), Span(mid', rest[0].right)] + rest[1..];
    assert s[n] == rest[0];
    forall i | 0 <= i < |t|
      ensures t[i].left < t[i].right
    {
      assert i < n ==> t[i] == s[i];
      assert i > n + 1 ==> t[i] == s[i - 1];
    }
    forall i, j | 0 <= i < j < |t|
      ensures t[i].right < t[j].left
    {
      var i', j' := if i <= n then i else i - 1, if j <= n then j else j - 1;
      if i' < j' {
        assert s[i'].right < s[j'].left;
      }
    }
  }

  /** The first remaining hole lies before the lock. */
  lemma CutSkip(finished: seq<Span>, rest: seq<Span>, holes: seq<Span>, lock: FileLock)
    requires Cut(finished, rest, holes, lock) && rest != [] && rest[0].right <= lock.start
    ensures Cut(finished + [rest[0]], rest[1..], holes, lock)
  {
    assert finished + rest == finished + [rest[0]] + rest[1..];
    forall b
      ensures InSpans(finished + [rest[0]], b) || (InSpans(rest[1..], b) && !lock.Has(b)) <==> InSpans(holes, b) && !lock.Has(b)
    {
      InAppend(finished, rest[0], b);
      HeadSpan(rest, b);
    }
  }

  /** The first remaining hole starts inside the lock and is used up. */
  lemma CutRemove(finished: seq<Span>, rest: seq<Span>, holes: seq<Span>, lock: FileLock)
    requires Cut(finished, rest, holes, lock) && lock.WellFormed() && !lock.IsEmpty() && rest != []
    requires lock.start <= rest[0].left && (lock.end == 0 || rest[0].right <= lock.end)
    ensures Cut(finished, rest[1..], holes, lock)
  {
    RemoveOrdered(finished, rest);
    forall b
      ensures InSpans(finished, b) || (InSpans(rest[1..], b) && !lock.Has(b)) <==> InSpans(holes, b) && !lock.Has(b)
    {
      HeadSpan(rest, b);
    }
  }

  /** The first remaining hole ends inside the lock and loses its end. */
  lemma CutEnd(finished: seq<Span>, rest: seq<Span>, holes: seq<Span>, lock: FileLock)
    requires Cut(finished, rest, holes, lock) && lock.WellFormed() && !lock.IsEmpty() && rest != []
    requires rest[0].left < lock.start < rest[0].right && (lock.end == 0 || rest[0].right <= lock.end)
    ensures Cut(finished + [Span(rest[0].left, lock.start)], rest[1..], holes, lock)
  {
    var p := Span(rest[0].left, lock.start);
    ReplaceOrdered(finished, rest, p);
    forall b
      ensures InSpans(finished + [p], b) || (InSpans(rest[1..], b) && !lock.Has(b)) <==> InSpans(holes, b) && !lock.Has(b)
    {
      InAppend(finished, p, b);
      HeadSpan(rest, b);
    }
  }

  /** The remaining holes all lie after the lock. */
  lemma CutDone(finished: seq<Span>, rest: seq<Span>, holes: seq<Span>, lock: FileLock)
    requires Cut(finished, rest, holes, lock)
    requires rest != [] ==> lock.end != 0 && lock.end <= rest[0].left
    ensures CutOut(finished + rest, holes, lock)
  {
    forall b
      ensures InSpans(finished + rest, b) <==> InSpans(holes, b) && !lock.Has(b)
    {
      InConcat(finished, rest, b);
      if InSpans(rest, b) {
        HeadSpan(rest, b);
        if InSpans(rest[1..], b) {
          AfterHead(finished, rest, b);
        }
        assert (finished + rest)[|finished|] == rest[0];
      }
    }
  }

  /** The first remaining hole loses its start, and the lock ends there. */
  lemma CutStart(finished: seq<Span>, rest: seq<Span>, holes: seq<Span>, lock: FileLock)
    requires Cut(finished, rest, holes, lock) && lock.WellFormed() && !lock.IsEmpty() && rest != []
    requires lock.start <= rest[0].left < lock.end < rest[0].right
    ensures CutOut(finished + [Span(lock.end, rest[0].right)] + rest[1..], holes, lock)
  {
    var p := Span(lock.end, rest[0].right);
    ReplaceOrdered(finished, rest, p);
    var t := finished + [p] + rest[1..];
    forall b
      ensures InSpans(t, b) <==> InSpans(holes, b) && !lock.Has(b)
    {
      InConcat(finished + [p], rest[1..], b);
      InAppend(finished, p, b);
      HeadSpan(rest, b);
      if InSpans(rest[1..], b) {
        AfterHead(finished, rest, b);
      }
    }
  }

  /** The lock lies inside the first remaining hole, which is split in two. */
  lemma CutSplit(finished: seq<Span>, rest: seq<Span>, holes: seq<Span>, lock: FileLock)
    requires Cut(finished, rest, holes, lock) && lock.WellFormed() && !lock.IsEmpty() && rest != []
    requires rest[0].left < lock.start && lock.end != 0 && lock.end < rest[0].right
    ensures CutOut(finished + [Span(rest[0].left, lock.start), Span(lock.end, rest[0].right)] + rest[1..], holes, lock)
  {
    var p, q := Span(rest[0].left, lock.start), Span(lock.end, rest[0].right);
    SplitOrdered(finished, rest, lock.start, lock.end);
    var t := finished + [p, q] + rest[1..];
    assert finished + [p, q] == finished + [p] + [q];
    forall b
      ensures InSpans(t, b) <==> InSpans(holes, b) && !lock.Has(b)
    {
      InConcat(finished + [p, q], rest[1..], b);
      InAppend(finished, p, b);
      InAppend(finished + [p], q, b);
      HeadSpan(rest, b);
      if InSpans(rest[1..], b) {
        AfterHead(finished, rest, b);
      }
    }
  }

  /** `cut` is `holes` without the bytes of the lock. */
  ghost predicate CutOut(cut: seq<Span>, holes: seq<Span>, lock: FileLock) {
    GapOrdered(cut) && forall b :: InSpans(cut, b) <==> InSpans(holes, b) && !lock.Has(b)
  }

  /** Goes through all the holes touched by a lock, and says whether one of them was split. */
  method CutLock(holes: seq<Span>, lock: FileLock) returns (cut: seq<Span>, split: bool)
    requires GapOrdered(holes) && lock.WellFormed() && !lock.IsEmpty()
    ensures CutOut(cut, holes, lock)
    ensures |cut| <= if split then |holes| + 1 else |holes|
  {
    hide Cut, CutOut, GapOrdered, InFrom;
    cut, split := holes, false;
    var cur := 0;
    ghost var finished, rest := [], holes;
    CutStartsWhole(holes, lock);
    while cur < |cut|
      invariant cur == |finished| && cut == finished + rest && |cut| <= |holes|
      invariant Cut(finished, rest, holes, lock)
      decreases |rest|
    {
      assert cut[cur] == rest[0];
      assert cut[..cur] == finished && cut[cur + 1..] == rest[1..];
      if cut[cur].right <= lock.start {
        CutSkip(finished, rest, holes, lock);
        finished, rest := finished + [rest[0]], rest[1..];
        cur := cur + 1;
      } else if lock.end != 0 && cut[cur].left >= lock.end {
        break;
      } else if cut[cur].left >= lock.start {
        if lock.end != 0 && lock.end < cut[cur].right {
          CutStart(finished, rest, holes, lock);
          cut := cut[..cur] + [Span(lock.end, cut[cur].right)] + cut[cur + 1..];
          return;
        }
        CutRemove(finished, rest, holes, lock);
        cut := cut[..cur] + cut[cur + 1..];
        rest := rest[1..];
      } else if lock.end == 0 || cut[cur].right <= lock.end {
        CutEnd(finished, rest, holes, lock);
        cut := cut[..cur] + [Span(cut[cur].left, lock.start)] + cut[cur + 1..];
        finished, rest := finished + [Span(rest[0].left, lock.start)], rest[1..];
        cur := cur + 1;
      } else {
        CutSplit(finished, rest, holes, lock);
        cut := cut[..cur] + [Span(cut[cur].left, lock.start), Span(lock.end, cut[cur].right)] + cut[cur + 1..];
        split := true;
        return;
      }
    }
    CutDone(finished, rest, holes, lock);
  }

  lemma CutStartsWhole(holes: seq<Span>, lock: FileLock)
    requires GapOrdered(holes)
    ensures Cut([], holes, holes, lock)
  {
  }

  // ----- all holes of a range -----

  /** The bytes from `start` up to `end` that a Unix lock can have. */
  predicate InClip(start: Pos, end: Pos, maxOffset: Offset, b: int) {
    start != end && start <= b <= maxOffset && (end == 0 || b < end)
  }

  /** The end of a range, clipped at the largest Unix offset. */
  function ClipEnd(limit: Pos, maxOffset: Offset): Pos {
    if limit == 0 || limit > maxOffset then maxOffset + 1 else limit
  }

  /** How many non-empty locks overlap a range. */
  function CountOverlaps(locks: seq<FileLock>, start: Pos, end: Pos): nat {
    if locks == [] then 0
    else
      var n := |locks| - 1;
      CountOverlaps(locks[..n], start, end) + if !locks[n].IsEmpty() && locks[n].Overlaps(start, end) then 1 else 0
  }

  /** The holes are the bytes from `start` up to `end` that none of the locks has. */
  ghost predicate Unlocked(holes: seq<Span>, locks: seq<FileLock>, start: int, end: int) {
    GapOrdered(holes) && forall b :: InSpans(holes, b) <==> start <= b < end && !Locked(locks, b)
  }

  lemma NoLocks(start: int, end: int)
    requires start < end
    ensures Unlocked([Span(start, end)], [], start, end)
  {
    forall b
      ensures InSpans([Span(start, end)], b) <==> start <= b < end && !Locked([], b)
    {
      HeadSpan([Span(start, end)], b);
    }
  }

  lemma NextLock(cut: seq<Span>, holes: seq<Span>, locks: seq<FileLock>, l: FileLock, start: int, end: int)
    requires Unlocked(holes, locks, start, end) && CutOut(cut, holes, l)
    ensures Unlocked(cut, locks + [l], start, end)
  {
    forall b
      ensures InSpans(cut, b) <==> start <= b < end && !Locked(locks + [l], b)
    {
      LockedSnoc(locks, l, b);
    }
  }

  lemma OtherLock(holes: seq<Span>, locks: seq<FileLock>, l: FileLock, start: Pos, end: Pos)
    requires Unlocked(holes, locks, start, end) && l.WellFormed() && end != 0
    requires l.IsEmpty() || !l.Overlaps(start, end)
    ensures Unlocked(holes, locks + [l], start, end)
  {
    forall b
      ensures InSpans(holes, b) <==> start <= b < end && !Locked(locks + [l], b)
    {
      LockedSnoc(locks, l, b);
    }
  }

  lemma NoHolesLeft(locks: seq<FileLock>, more: seq<FileLock>, start: int, end: int)
    requires Unlocked([], locks, start, end)
    ensures Unlocked([], locks + more, start, end)
  {
    forall b | start <= b < end
      ensures Locked(locks + more, b)
    {
      assert !InSpans([], b);
      var i :| 0 <= i < |locks| && locks[i].Has(b);
      assert (locks + more)[i].Has(b);
    }
  }

  lemma {:induction false} CountMonotonic(locks: seq<FileLock>, i: nat, start: Pos, end: Pos)
    requires i <= |locks|
    ensures CountOverlaps(locks[..i], start, end) <= CountOverlaps(locks, start, end)
    decreases |locks|
  {
    if i == |locks| {
      assert locks[..i] == locks;
    } else {
      var n := |locks| - 1;
      assert locks[..n][..i] == locks[..i];
      CountMonotonic(locks[..n], i, start, end);
    }
  }

  /** Finds the holes in the specified area that are no longer locked; `used` is the room that they take up. */
  method FindHoles(locks: seq<FileLock>, start: Pos, limit: Pos, maxOffset: Offset) returns (holes: seq<Span>, used: nat)
    requires limit == 0 || start <= limit
    requires forall i :: 0 <= i < |locks| ==> locks[i].WellFormed()
    ensures GapOrdered(holes)
    ensures forall b :: InSpans(holes, b) <==> InClip(start, limit, maxOffset, b) && !Locked(locks, b)
    ensures |holes| <= used <= CountOverlaps(locks, start, ClipEnd(limit, maxOffset)) + 1
  {
    hide CutOut, GapOrdered;
    if start == limit || start > maxOffset {
      NoSpans();
      return [], 0;
    }
    var end := ClipEnd(limit, maxOffset);
    assert forall b :: InClip(start, limit, maxOffset, b) <==> start <= b < end;
    holes, used := [Span(start, end)], 1;
    NoLocks(start, end);
    var i := 0;
    assert locks[..0] == [];
    while i < |locks|
      invariant 0 <= i <= |locks| && |holes| <= used <= CountOverlaps(locks[..i], start, end) + 1
      invariant Unlocked(holes, locks[..i], start, end)
    {
      var lock := locks[i];
      assert locks[..i + 1] == locks[..i] + [lock];
      assert locks[..i + 1][..i] == locks[..i];
      if lock.IsEmpty() || !lock.Overlaps(start, end) {
        OtherLock(holes, locks[..i], lock, start, end);
      } else {
        var cut, split := CutLock(holes, lock);
        NextLock(cut, holes, locks[..i], lock, start, end);
        holes := cut;
        if split {
          used := used + 1;
        }
        if holes == [] {
          assert locks == locks[..i + 1] + locks[i + 1..];
          NoHolesLeft(locks[..i + 1], locks[i + 1..], start, end);
          CountMonotonic(locks, i + 1, start, end);
          return;
        }
      }
      i := i + 1;
    }
    assert locks[..i] == locks;
  }

  lemma NoSpans()
    ensures GapOrdered([]) && forall b :: !InSpans([], b)
  {
  }
}
