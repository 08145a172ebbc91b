/** Whether the links of the holes lead to bytes of a lock, also when links back are out of date. */
module LockedHoles {
  import opened Lists
  import opened Spans
  import opened LockRanges
  import opened HoleLinks
  import opened LinkedHoles

  // ----- taking out a hole over a link to one that is gone -----

  /** The places of the holes that the links lead to. */
  function Places(b: Buffer, cur: int, steps: nat): seq<int>
    decreases steps
  {
    if steps == 0 || !b.Has(cur) then [] else [cur] + Places(b, b.holes[cur].next, steps - 1)
  }

  lemma {:induction false} PlacesChain(b: Buffer, order: seq<int>, k: nat, steps: nat)
    requires Chain(b, order) && k <= |order| && |order| - k <= steps
    ensures Places(b, Placed(order, k), steps) == order[k..]
    decreases steps
  {
    if k < |order| {
      assert NextOk(b, order, k);
      PlacesChain(b, order, k + 1, steps - 1);
    }
  }

  /** The link back leads to a hole that is no longer in the list, so that taking out this one leaves it there. */
  predicate Dangling(b: Buffer, cur: int)
    requires b.Has(cur)
  {
    var p := b.holes[cur].prev;
    b.Has(p) && p !in Places(b, b.first, |b.holes|)
  }

  /** Going through the holes touched by a lock as in `CutFrom`, a hole stays although it was to be taken out, and now
      starts at the end of the lock, which is not where it ends: what is then unlocked lies between the two. */
  predicate Returns(b: Buffer, cur: int, lock: FileLock, steps: nat, maxOffset: Offset)
    decreases steps
  {
    steps > 0 && b.Has(cur) &&
    var c := b.holes[cur];
    if c.end <= lock.start then Returns(b, c.next, lock, steps - 1, maxOffset)
    else if lock.end != 0 && c.start >= lock.end then false
    else if c.start >= lock.start then
      var shrunk := Resize(b, cur, lock.end, c.end);
      && !(lock.end != 0 && lock.end < c.end)
      && (|| (Dangling(b, cur) && lock.end != c.end && lock.end <= maxOffset)
          || Returns(RemoveHole(shrunk, cur), c.next, lock, steps - 1, maxOffset))
    else if lock.end == 0 || c.end <= lock.end then
      Returns(Resize(b, cur, c.start, lock.start), c.next, lock, steps - 1, maxOffset)
    else false
  }

  /** This happens for some lock of the list. */
  predicate ReturnsAny(locks: seq<FileLock>, start: Pos, end: Pos, maxOffset: Offset) {
    locks != [] &&
    var n := |locks| - 1;
    var b := CutAll(locks[..n], start, end).buffer;
    || ReturnsAny(locks[..n], start, end, maxOffset)
    || (!locks[n].IsEmpty() && locks[n].Overlaps(start, end) && Returns(b, b.first, locks[n], |b.holes|, maxOffset))
  }

  // ----- lists whose links back may be out of date in any way -----

  /** The link back does not lead to the hole itself or to one behind it. */
  ghost predicate NotAhead(b: Buffer, order: seq<int>, k: int) {
    0 <= k < |order| && b.Has(order[k]) ==>
      var p := b.holes[order[k]].prev;
      (p == NONE || b.Has(p)) && forall j :: k <= j < |order| ==> order[j] != p
  }

  ghost predicate Loose(b: Buffer, order: seq<int>) {
    Chain(b, order) && forall k :: NotAhead(b, order, k)
  }

  lemma LooseAt(b: Buffer, order: seq<int>, k: nat)
    requires Loose(b, order) && k < |order|
    ensures NextOk(b, order, k) && NotAhead(b, order, k) && b.Has(order[k]) && Chain(b, order)
    ensures Dangling(b, order[k]) <==> b.Has(b.holes[order[k]].prev) && b.holes[order[k]].prev !in order
  {
    assert NextOk(b, order, k) && NotAhead(b, order, k);
    PlacesChain(b, order, 0, |b.holes|);
  }

  lemma ResizeLoose(b: Buffer, order: seq<int>, k: nat, start: int, end: int)
    requires Loose(b, order) && k < |order| && b.Has(order[k])
    ensures Loose(Resize(b, order[k], start, end), order)
    ensures SpansOf(Resize(b, order[k], start, end), order) == SpansOf(b, order)[k := Span(start, end)]
  {
    ResizeChain(b, order, k, start, end);
    forall j
      ensures NotAhead(Resize(b, order[k], start, end), order, j)
    {
      assert NotAhead(b, order, j);
    }
  }

  lemma SplitLoose(b: Buffer, order: seq<int>, k: nat, lockStart: int, lockEnd: int)
    requires Loose(b, order) && k < |order| && b.Has(order[k])
    ensures var after, placed := SplitHole(b, order[k], lockStart, lockEnd), order[..k + 1] + [|b.holes|] + order[k + 1..];
            && Loose(after, placed)
            && SpansOf(after, placed) == SpansOf(b, order)[..k] +
                 [Span(b.holes[order[k]].start, lockStart), Span(lockEnd, b.holes[order[k]].end)] + SpansOf(b, order)[k + 1..]
  {
    var after := SplitHole(b, order[k], lockStart, lockEnd);
    var placed := order[..k + 1] + [|b.holes|] + order[k + 1..];
    InChain(b, order);
    forall j
      ensures NextOk(after, placed, j) && NotAhead(after, placed, j)
    {
      SplitNext(b, order, k, lockStart, lockEnd, j);
      assert NotAhead(b, order, if j <= k then j else j - 1);
    }
  }

  /** Taking out a hole without a link back takes out all the holes before it as well. */
  lemma RemoveAll(b: Buffer, order: seq<int>, k: nat)
    requires Loose(b, order) && k < |order| && b.Has(order[k]) && !b.Has(b.holes[order[k]].prev)
    ensures Loose(RemoveHole(b, order[k]), order[k + 1..])
  {
    var after, placed := RemoveHole(b, order[k]), order[k + 1..];
    InChain(b, order);
    assert NextOk(b, order, k) && NotAhead(b, order, k);
    forall j
      ensures NextOk(after, placed, j) && NotAhead(after, placed, j)
    {
      assert NextOk(b, order, j + k + 1) && NotAhead(b, order, j + k + 1);
    }
  }

  /** Taking out a hole also takes out those between it and the one that its link back leads to. */
  lemma RemoveBetween(b: Buffer, order: seq<int>, j: nat, k: nat)
    requires Loose(b, order) && j < k < |order| && b.Has(order[k]) && b.holes[order[k]].prev == order[j]
    ensures Loose(RemoveHole(b, order[k]), order[..j + 1] + order[k + 1..])
  {
    var after, placed := RemoveHole(b, order[k]), order[..j + 1] + order[k + 1..];
    InChain(b, order);
    assert NextOk(b, order, k);
    forall i
      ensures NextOk(after, placed, i) && NotAhead(after, placed, i)
    {
      SkipNext(b, order, j, k, i);
      assert NotAhead(b, order, if i <= j then i else i + k - j);
    }
  }

  /** A hole whose link back leads out of the list stays in the list. */
  lemma RemoveNone(b: Buffer, order: seq<int>, k: nat)
    requires Loose(b, order) && k < |order| && b.Has(order[k])
    requires b.Has(b.holes[order[k]].prev) && b.holes[order[k]].prev !in order
    ensures Loose(RemoveHole(b, order[k]), order)
  {
    RemoveFails(b, order, k);
    assert NextOk(b, order, k);
    forall j
      ensures NotAhead(RemoveHole(b, order[k]), order, j)
    {
      assert NotAhead(b, order, j);
    }
  }

  // ----- the holes -----

  /** The range that is searched for holes, and the largest offset of a Unix lock. */
  datatype Area = Area(start: Pos, end: Pos, maxOffset: Offset)

  /** A hole that is not empty has no byte of a lock; another one unlocks nothing. */
  ghost predicate Tame(h: Span, locks: seq<FileLock>, area: Area) {
    if h.left < h.right then area.start <= h.left && h.right <= area.end && forall x :: h.Has(x) ==> !Locked(locks, x)
    else h.left == h.right || h.left > area.maxOffset
  }

  /** One hole comes before another. With `slack` it may start behind it, but not behind the end of the lock. */
  predicate Before(x: Span, y: Span, slack: bool, lock: FileLock) {
    && x.right <= y.right
    && (y.left < y.right ==>
          x.right <= y.left && (x.left <= y.left || (slack && x.left <= lock.end && lock.start < x.right)))
  }

  /** The holes are in order, and up to place `k` they have no byte of the next lock either. */
  ghost predicate Tidy(sp: seq<Span>, k: int, locks: seq<FileLock>, lock: FileLock, area: Area) {
    && (forall i :: 0 <= i < |sp| ==> Tame(sp[i], if i < k then locks + [lock] else locks, area))
    && (forall i, j :: 0 <= i < j < |sp| ==> Before(sp[i], sp[j], i < k <= j, lock))
  }

  lemma TameMore(h: Span, locks: seq<FileLock>, lock: FileLock, area: Area)
    requires Tame(h, locks, area)
    requires h.left < h.right ==> h.right <= lock.start || (lock.end != 0 && lock.end <= h.left)
    ensures Tame(h, locks + [lock], area)
  {
    forall x | h.Has(x)
      ensures !Locked(locks + [lock], x)
    {
      LockedSnoc(locks, lock, x);
    }
  }

  lemma TamePart(h: Span, g: Span, locks: seq<FileLock>, area: Area)
    requires Tame(h, locks, area) && h.left <= g.left < g.right <= h.right
    ensures Tame(g, locks, area)
  {
    forall x | g.Has(x)
      ensures !Locked(locks, x)
    {
      assert h.Has(x);
    }
  }

  lemma TidyAt(sp: seq<Span>, k: int, locks: seq<FileLock>, lock: FileLock, area: Area, i: nat)
    requires Tidy(sp, k, locks, lock, area) && i < |sp|
    ensures Tame(sp[i], if i < k then locks + [lock] else locks, area)
  {
  }

  /** A hole before the lock. */
  lemma TidySkip(sp: seq<Span>, k: nat, locks: seq<FileLock>, lock: FileLock, area: Area)
    requires Tidy(sp, k, locks, lock, area) && k < |sp| && sp[k].right <= lock.start
    ensures Tidy(sp, k + 1, locks, lock, area)
  {
    TameMore(sp[k], locks, lock, area);
  }

  /** The lock ends before this hole. */
  lemma TidyBreak(sp: seq<Span>, k: nat, locks: seq<FileLock>, lock: FileLock, area: Area)
    requires Tidy(sp, k, locks, lock, area) && k < |sp| && lock.end != 0 && sp[k].left >= lock.end
    ensures Tidy(sp, |sp|, locks, lock, area)
  {
    forall i | 0 <= i < |sp|
      ensures Tame(sp[i], locks + [lock], area)
    {
      TidyAt(sp, k, locks, lock, area, i);
      if k <= i {
        assert k < i ==> Before(sp[k], sp[i], false, lock);
        TameMore(sp[i], locks, lock, area);
      }
    }
    forall i, j | 0 <= i < j < |sp|
      ensures Before(sp[i], sp[j], false, lock)
    {
      assert Before(sp[i], sp[j], i < k <= j, lock);
      assert k < j ==> Before(sp[k], sp[j], false, lock);
    }
  }

  /** The hole is changed in place. */
  lemma TidyUpdate(sp: seq<Span>, k: nat, g: Span, n: nat, locks: seq<FileLock>, lock: FileLock, area: Area)
    requires Tidy(sp, k, locks, lock, area) && k < |sp| && k < n <= |sp| && (n == k + 1 || n == |sp|)
    requires Tame(g, locks + [lock], area) && lock.start < sp[k].right
    requires forall i :: 0 <= i < k ==> Before(sp[i], g, false, lock)
    requires forall j :: k < j < |sp| ==> Before(g, sp[j], n == k + 1, lock)
    requires n > k + 1 ==> lock.end != 0 && lock.end <= sp[k].right && sp[k].left < sp[k].right
    ensures Tidy(sp[k := g], n, locks, lock, area)
  {
    var t := sp[k := g];
    forall i | 0 <= i < |t|
      ensures Tame(t[i], if i < n then locks + [lock] else locks, area)
    {
      TidyAt(sp, k, locks, lock, area, i);
      if k < i < n {
        assert Before(sp[k], sp[i], false, lock);
        TameMore(sp[i], locks, lock, area);
      }
    }
    forall i, j | 0 <= i < j < |t|
      ensures Before(t[i], t[j], i < n <= j, lock)
    {
      if i != k && j != k {
        assert Before(sp[i], sp[j], i < k <= j, lock);
        if i < k < j {
          assert Before(sp[i], sp[k], true, lock) && Before(sp[k], sp[j], false, lock);
        }
      }
    }
  }

  /** The lock is in the middle of the hole. */
  lemma TidySplit(sp: seq<Span>, k: nat, locks: seq<FileLock>, lock: FileLock, area: Area)
    requires Tidy(sp, k, locks, lock, area) && k < |sp|
    requires sp[k].left < lock.start < lock.end < sp[k].right
    ensures var t := sp[..k] + [Span(sp[k].left, lock.start), Span(lock.end, sp[k].right)] + sp[k + 1..];
            Tidy(t, |t|, locks, lock, area)
  {
    var x, y := Span(sp[k].left, lock.start), Span(lock.end, sp[k].right);
    var t := sp[..k] + [x, y] + sp[k + 1..];
    TidyAt(sp, k, locks, lock, area, k);
    TamePart(sp[k], x, locks, area);
    TamePart(sp[k], y, locks, area);
    TameMore(x, locks, lock, area);
    TameMore(y, locks, lock, area);
    forall i | 0 <= i < |t|
      ensures Tame(t[i], locks + [lock], area)
    {
      if i < k {
        TidyAt(sp, k, locks, lock, area, i);
      } else if k + 1 < i {
        TidyAt(sp, k, locks, lock, area, i - 1);
        assert Before(sp[k], sp[i - 1], false, lock);
        TameMore(sp[i - 1], locks, lock, area);
      }
    }
    forall i, j | 0 <= i < j < |t|
      ensures Before(t[i], t[j], false, lock)
    {
      var i', j' := if i <= k then i else i - 1, if j <= k then j else j - 1;
      assert i' < j' ==> Before(sp[i'], sp[j'], i' < k <= j', lock);
      assert i' < k ==> Before(sp[i'], sp[k], true, lock);
      assert k < j' ==> Before(sp[k], sp[j'], false, lock);
    }
  }

  /** Holes are taken out of the list. */
  lemma TidyFewer(sp: seq<Span>, m: nat, k: nat, locks: seq<FileLock>, lock: FileLock, area: Area)
    requires Tidy(sp, k, locks, lock, area) && m <= k < |sp|
    ensures Tidy(sp[..m] + sp[k + 1..], m, locks, lock, area)
  {
    var t := sp[..m] + sp[k + 1..];
    forall i | 0 <= i < |t|
      ensures Tame(t[i], if i < m then locks + [lock] else locks, area)
    {
      TidyAt(sp, k, locks, lock, area, if i < m then i else i + k + 1 - m);
    }
    forall i, j | 0 <= i < j < |t|
      ensures Before(t[i], t[j], i < m <= j, lock)
    {
      var i', j' := if i < m then i else i + k + 1 - m, if j < m then j else j + k + 1 - m;
      assert Before(sp[i'], sp[j'], i' < k <= j', lock);
    }
  }

  // ----- one lock -----

  /** A byte of the lock is unlocked. */
  ghost predicate Frees(b: Buffer, lock: FileLock, maxOffset: Offset) {
    exists x :: x <= maxOffset && lock.Has(x) && UnlocksSome(Reached(b), maxOffset, x)
  }

  /** A lock leaves no hole with its bytes, unless a hole stays that was to be taken out. */
  lemma {:induction false} CutTidy(b: Buffer, order: seq<int>, k: nat, locks: seq<FileLock>, lock: FileLock, steps: nat,
                                   area: Area)
    returns (after: seq<int>)
    requires Loose(b, order) && k <= |order| && |order| - k <= steps
    requires lock.WellFormed() && !lock.IsEmpty() && lock.start <= area.maxOffset
    requires Tidy(SpansOf(b, order), k, locks, lock, area)
    ensures var r := CutFrom(b, Placed(order, k), lock, steps).buffer;
            if Returns(b, Placed(order, k), lock, steps, area.maxOffset) then Frees(r, lock, area.maxOffset)
            else Loose(r, after) && Tidy(SpansOf(r, after), |after|, locks, lock, area)
    decreases steps
  {
    hide Loose, Tidy, Dangling, Frees, RemoveHole, SplitHole, Resize, Tame;
    after := order;
    var sp := SpansOf(b, order);
    if k < |order| {
      LooseAt(b, order, k);
      var cur, c := order[k], b.holes[order[k]];
      assert sp[k] == Span(c.start, c.end);
      if c.end <= lock.start {
        TidySkip(sp, k, locks, lock, area);
        after := CutTidy(b, order, k + 1, locks, lock, steps - 1, area);
      } else if lock.end != 0 && c.start >= lock.end {
        TidyBreak(sp, k, locks, lock, area);
      } else if c.start >= lock.start {
        after := CutTidyFirst(b, order, k, locks, lock, steps, area);
      } else if lock.end == 0 || c.end <= lock.end {
        TidyEnd(sp, k, locks, lock, area);
        ResizeLoose(b, order, k, c.start, lock.start);
        after := CutTidy(Resize(b, cur, c.start, lock.start), order, k + 1, locks, lock, steps - 1, area);
      } else {
        TidySplit(sp, k, locks, lock, area);
        SplitLoose(b, order, k, lock.start, lock.end);
        after := order[..k + 1] + [|b.holes|] + order[k + 1..];
      }
    }
  }

  /** The lock is larger than the hole: the hole is shrunk from its end. */
  lemma TidyEnd(sp: seq<Span>, k: nat, locks: seq<FileLock>, lock: FileLock, area: Area)
    requires Tidy(sp, k, locks, lock, area) && k < |sp| && sp[k].left < lock.start < sp[k].right
    ensures Tidy(sp[k := Span(sp[k].left, lock.start)], k + 1, locks, lock, area)
  {
    var g := Span(sp[k].left, lock.start);
    TidyAt(sp, k, locks, lock, area, k);
    TamePart(sp[k], g, locks, area);
    TameMore(g, locks, lock, area);
    assert forall i :: 0 <= i < k ==> Before(sp[i], sp[k], true, lock);
    assert forall j :: k < j < |sp| ==> Before(sp[k], sp[j], false, lock);
    TidyUpdate(sp, k, g, k + 1, locks, lock, area);
  }

  /** The hole is shrunk from its start. */
  lemma TidyStart(sp: seq<Span>, k: nat, locks: seq<FileLock>, lock: FileLock, area: Area)
    requires Tidy(sp, k, locks, lock, area) && k < |sp|
    requires lock.start <= sp[k].left < lock.end < sp[k].right
    ensures Tidy(sp[k := Span(lock.end, sp[k].right)], |sp|, locks, lock, area)
  {
    var g := Span(lock.end, sp[k].right);
    TidyAt(sp, k, locks, lock, area, k);
    TamePart(sp[k], g, locks, area);
    TameMore(g, locks, lock, area);
    assert forall i :: 0 <= i < k ==> Before(sp[i], sp[k], true, lock);
    assert forall j :: k < j < |sp| ==> Before(sp[k], sp[j], false, lock);
    TidyUpdate(sp, k, g, |sp|, locks, lock, area);
  }

  /** The hole stays, and is empty or beyond the largest offset. */
  lemma TidyKeep(sp: seq<Span>, k: nat, locks: seq<FileLock>, lock: FileLock, area: Area)
    requires Tidy(sp, k, locks, lock, area) && k < |sp|
    requires lock.start <= sp[k].left && lock.start < sp[k].right <= lock.end
    requires lock.end == sp[k].right || lock.end > area.maxOffset
    ensures Tidy(sp[k := Span(lock.end, sp[k].right)], k + 1, locks, lock, area)
  {
    var g := Span(lock.end, sp[k].right);
    assert forall i :: 0 <= i < k ==> Before(sp[i], sp[k], true, lock);
    assert forall j :: k < j < |sp| ==> Before(sp[k], sp[j], false, lock);
    TidyUpdate(sp, k, g, k + 1, locks, lock, area);
  }

  /** The lock starts before the hole. */
  lemma {:induction false} CutTidyFirst(b: Buffer, order: seq<int>, k: nat, locks: seq<FileLock>, lock: FileLock, steps: nat,
                                        area: Area)
    returns (after: seq<int>)
    requires Loose(b, order) && k < |order| <= k + steps && b.Has(order[k])
    requires lock.WellFormed() && !lock.IsEmpty() && lock.start <= area.maxOffset
    requires Tidy(SpansOf(b, order), k, locks, lock, area)
    requires var c := b.SpanAt(order[k]); lock.start <= c.left && lock.start < c.right && (lock.end == 0 || c.left < lock.end)
    ensures var r := CutFrom(b, Placed(order, k), lock, steps).buffer;
            if Returns(b, Placed(order, k), lock, steps, area.maxOffset) then Frees(r, lock, area.maxOffset)
            else Loose(r, after) && Tidy(SpansOf(r, after), |after|, locks, lock, area)
    decreases steps, 0
  {
    hide Loose, Tidy, Dangling, Frees, RemoveHole, Resize, Tame;
    after := order;
    var sp := SpansOf(b, order);
    LooseAt(b, order, k);
    var cur, c := order[k], b.holes[order[k]];
    var shrunk := Resize(b, cur, lock.end, c.end);
    ResizeLoose(b, order, k, lock.end, c.end);
    StaleResized(b, cur, lock.end, c.end);
    assert sp[k] == Span(c.start, c.end);
    if lock.end != 0 && lock.end < c.end {
      TidyStart(sp, k, locks, lock, area);
    } else if Dangling(b, cur) {
      if lock.end != c.end && lock.end <= area.maxOffset {
        KeptFrees(b, order, k, locks, lock, steps, area);
      } else {
        TidyKeep(sp, k, locks, lock, area);
        RemoveNone(shrunk, order, k);
        RemoveSpans(shrunk, cur, order);
        after := CutTidy(RemoveHole(shrunk, cur), order, k + 1, locks, lock, steps - 1, area);
      }
    } else {
      var m, fewer := TakenOut(shrunk, order, k);
      TidyFewer(sp, m, k, locks, lock, area);
      RemoveSpans(shrunk, cur, fewer);
      assert SpansOf(RemoveHole(shrunk, cur), fewer) == sp[..m] + sp[k + 1..];
      assert Placed(fewer, m) == c.next;
      after := CutTidy(RemoveHole(shrunk, cur), fewer, m, locks, lock, steps - 1, area);
    }
  }

  /** A hole whose link back is in the list or missing is taken out of the list. */
  lemma TakenOut(b: Buffer, order: seq<int>, k: nat) returns (m: nat, fewer: seq<int>)
    requires Loose(b, order) && k < |order| && b.Has(order[k])
    requires !(b.Has(b.holes[order[k]].prev) && b.holes[order[k]].prev !in order)
    ensures m <= k && fewer == order[..m] + order[k + 1..] && Loose(RemoveHole(b, order[k]), fewer)
  {
    hide RemoveHole;
    var p := b.holes[order[k]].prev;
    if !b.Has(p) {
      RemoveAll(b, order, k);
      m, fewer := 0, order[k + 1..];
      assert order[..0] + order[k + 1..] == order[k + 1..];
    } else {
      var j :| 0 <= j < |order| && order[j] == p;
      assert NotAhead(b, order, k);
      RemoveBetween(b, order, j, k);
      m, fewer := j + 1, order[..j + 1] + order[k + 1..];
    }
  }

  /** A hole that stays is unlocked from the end of the lock back to its own end. */
  lemma KeptFrees(b: Buffer, order: seq<int>, k: nat, locks: seq<FileLock>, lock: FileLock, steps: nat, area: Area)
    requires Loose(b, order) && k < |order| <= k + steps && b.Has(order[k]) && Dangling(b, order[k])
    requires lock.WellFormed() && !lock.IsEmpty() && lock.start <= area.maxOffset
    requires Tidy(SpansOf(b, order), k, locks, lock, area)
    requires var c := b.SpanAt(order[k]);
             && lock.start <= c.left && lock.start < c.right
             && (lock.end == 0 || (c.left < lock.end && c.right <= lock.end))
             && lock.end != c.right && lock.end <= area.maxOffset
    ensures Frees(CutFrom(b, Placed(order, k), lock, steps).buffer, lock, area.maxOffset)
  {
    hide Loose, Chain, Tidy, Dangling, Stale, RemoveHole, Resize, Reached, CutFrom, SpansOf, Tame;
    LooseAt(b, order, k);
    CutInside(b, order[k], lock, steps);
    var sp, cur, c := SpansOf(b, order), order[k], b.holes[order[k]];
    var shrunk := Resize(b, cur, lock.end, c.end);
    ResizeChain(b, order, k, lock.end, c.end);
    StaleResized(b, cur, lock.end, c.end);
    InChain(shrunk, order);
    RemoveFails(shrunk, order, k);
    RemoveSize(shrunk, cur);
    var after := RemoveHole(shrunk, cur);
    forall i | k + 1 <= i < |order|
      ensures lock.start <= after.SpanAt(order[i]).left && lock.start < after.SpanAt(order[i]).right
    {
      assert SpansOf(after, order)[i] == sp[i];
      TidyLater(sp, k, i, locks, lock, area);
    }
    SwallowFails(after, order, k + 1, c.prev, lock, steps - 1);
    var r := CutFrom(b, cur, lock, steps).buffer;
    ReachedChain(r, order);
    assert Reached(r)[k] == SpansOf(after, order)[..k + 1][k];
    FreesAt(r, k, c.end, lock, area.maxOffset);
  }

  lemma TidyLater(sp: seq<Span>, k: nat, i: nat, locks: seq<FileLock>, lock: FileLock, area: Area)
    requires Tidy(sp, k, locks, lock, area) && k < i < |sp| && lock.start < sp[k].right
    ensures lock.start <= sp[i].left && lock.start < sp[i].right
  {
    assert Before(sp[k], sp[i], false, lock);
  }

  lemma FreesAt(b: Buffer, k: nat, end: int, lock: FileLock, maxOffset: Offset)
    requires k < |Reached(b)| && Reached(b)[k] == Span(lock.end, end) && !lock.IsEmpty()
    requires lock.start <= maxOffset && lock.start < end && (lock.end == 0 || end < lock.end) && lock.end <= maxOffset
    ensures Frees(b, lock, maxOffset)
  {
    hide Reached;
    var x := if lock.end == 0 then lock.start else end;
    assert UnlockHas(Reached(b)[k], maxOffset, x);
    assert lock.Has(x) && UnlocksSome(Reached(b), maxOffset, x);
  }

  // ----- all locks -----

  /** What is unlocked after the first `i` locks has no byte of these, and lies in the range. */
  ghost predicate OnlyFree(locks: seq<FileLock>, area: Area, i: int) {
    0 <= i <= |locks| ==>
      forall x :: x <= area.maxOffset &&
                  UnlocksSome(Reached(CutAll(locks[..i], area.start, area.end).buffer), area.maxOffset, x) ==>
        area.start <= x < area.end && !Locked(locks[..i], x)
  }

  lemma OneLoose(area: Area, next: FileLock)
    requires area.start < area.end
    ensures var b := Buffer([Hole(NONE, NONE, area.start, area.end)], 0);
            Loose(b, [0]) && Tidy(SpansOf(b, [0]), 0, [], next, area)
  {
  }

  lemma LooseSize(b: Buffer, order: seq<int>)
    requires Loose(b, order)
    ensures |order| <= |b.holes| && b.first == Placed(order, 0) && Chain(b, order)
  {
  }

  /** Before the next lock, no hole has been gone through. */
  lemma TidyNext(sp: seq<Span>, locks: seq<FileLock>, lock: FileLock, area: Area, next: FileLock)
    requires Tidy(sp, |sp|, locks, lock, area)
    ensures Tidy(sp, 0, locks + [lock], next, area)
  {
    forall i, j | 0 <= i < j < |sp|
      ensures Before(sp[i], sp[j], false, next)
    {
      assert Before(sp[i], sp[j], false, lock);
    }
  }

  /** A lock outside the range. */
  lemma TidyAway(sp: seq<Span>, locks: seq<FileLock>, lock: FileLock, area: Area, next: FileLock)
    requires Tidy(sp, 0, locks, lock, area) && area.start < area.end
    requires lock.IsEmpty() || !lock.Overlaps(area.start, area.end)
    ensures Tidy(sp, 0, locks + [lock], next, area)
  {
    forall i | 0 <= i < |sp|
      ensures Tame(sp[i], locks + [lock], area)
    {
      TidyAt(sp, 0, locks, lock, area, i);
      forall x
        ensures Locked(locks + [lock], x) <==> Locked(locks, x) || lock.Has(x)
      {
        LockedSnoc(locks, lock, x);
      }
    }
    forall i, j | 0 <= i < j < |sp|
      ensures Before(sp[i], sp[j], false, next)
    {
      assert Before(sp[i], sp[j], false, lock);
    }
  }

  lemma {:induction false} CutAllTidy(locks: seq<FileLock>, area: Area, next: FileLock) returns (order: seq<int>)
    requires AllWellFormed(locks) && area.start < area.end <= area.maxOffset + 1
    requires !ReturnsAny(locks, area.start, area.end, area.maxOffset)
    ensures var b := CutAll(locks, area.start, area.end).buffer;
            Loose(b, order) && Tidy(SpansOf(b, order), 0, locks, next, area)
    decreases |locks|
  {
    hide Loose, Tidy, CutFrom, SpansOf, Returns;
    if locks == [] {
      order := [0];
      OneLoose(area, next);
    } else {
      var n := |locks| - 1;
      var b, l := CutAll(locks[..n], area.start, area.end).buffer, locks[n];
      assert locks[..n] + [l] == locks;
      order := CutAllTidy(locks[..n], area, l);
      if l.IsEmpty() || !l.Overlaps(area.start, area.end) {
        TidyAway(SpansOf(b, order), locks[..n], l, area, next);
      } else {
        LooseSize(b, order);
        order := CutTidy(b, order, 0, locks[..n], l, |b.holes|, area);
        TidyNext(SpansOf(CutAll(locks, area.start, area.end).buffer, order), locks[..n], l, area, next);
      }
    }
  }

  lemma TidyFree(sp: seq<Span>, locks: seq<FileLock>, lock: FileLock, area: Area, x: int)
    requires Tidy(sp, 0, locks, lock, area) && area.end <= area.maxOffset + 1
    requires UnlocksSome(sp, area.maxOffset, x) && x <= area.maxOffset
    ensures area.start <= x < area.end && !Locked(locks, x)
  {
    var i :| 0 <= i < |sp| && UnlockHas(sp[i], area.maxOffset, x);
    TidyAt(sp, 0, locks, lock, area, i);
    assert sp[i].Has(x);
  }

  /** If no hole stays in this way, nothing is unlocked that a lock has, whatever holes are lost. */
  lemma UnlocksOnlyFree(locks: seq<FileLock>, area: Area, x: int)
    requires AllWellFormed(locks) && area.start < area.end <= area.maxOffset + 1
    requires !ReturnsAny(locks, area.start, area.end, area.maxOffset) && x <= area.maxOffset
    requires UnlocksSome(Reached(CutAll(locks, area.start, area.end).buffer), area.maxOffset, x)
    ensures area.start <= x < area.end && !Locked(locks, x)
  {
    hide Loose, Tidy, CutAll, SpansOf, ReturnsAny, Reached;
    var b, next := CutAll(locks, area.start, area.end).buffer, FileLock(false, 0, 1, 0, 0);
    var order := CutAllTidy(locks, area, next);
    LooseSize(b, order);
    ReachedChain(b, order);
    TidyFree(Reached(b), locks, next, area, x);
  }

  lemma {:induction false} ReturnsLater(locks: seq<FileLock>, area: Area, i: nat)
    requires i <= |locks| && ReturnsAny(locks[..i], area.start, area.end, area.maxOffset)
    ensures ReturnsAny(locks, area.start, area.end, area.maxOffset)
    decreases |locks|
  {
    if i == |locks| {
      assert locks[..i] == locks;
    } else {
      assert locks[..|locks| - 1][..i] == locks[..i];
      ReturnsLater(locks[..|locks| - 1], area, i);
    }
  }

  lemma {:induction false} FirstReturn(locks: seq<FileLock>, area: Area) returns (i: nat)
    requires AllWellFormed(locks) && area.start < area.end <= area.maxOffset + 1
    requires ReturnsAny(locks, area.start, area.end, area.maxOffset)
    ensures i <= |locks| && !OnlyFree(locks, area, i)
    decreases |locks|
  {
    hide Loose, Tidy, CutFrom, SpansOf, Returns, Reached;
    var n := |locks| - 1;
    if ReturnsAny(locks[..n], area.start, area.end, area.maxOffset) {
      i := FirstReturn(locks[..n], area);
      assert locks[..n][..i] == locks[..i];
    } else {
      var b, l := CutAll(locks[..n], area.start, area.end).buffer, locks[n];
      var order := CutAllTidy(locks[..n], area, l);
      LooseSize(b, order);
      order := CutTidy(b, order, 0, locks[..n], l, |b.holes|, area);
      i := |locks|;
      assert locks[..i] == locks;
      var x :| x <= area.maxOffset && l.Has(x) &&
               UnlocksSome(Reached(CutAll(locks, area.start, area.end).buffer), area.maxOffset, x);
      assert locks[n].Has(x);
      assert Locked(locks, x);
    }
  }

  /** Exactly then this holds after every lock. */
  lemma OnlyFreeThroughout(locks: seq<FileLock>, area: Area)
    requires AllWellFormed(locks) && area.start < area.end <= area.maxOffset + 1
    ensures (forall i :: OnlyFree(locks, area, i)) <==> !ReturnsAny(locks, area.start, area.end, area.maxOffset)
  {
    hide CutAll, Reached, ReturnsAny, Locked, UnlocksSome;
    if ReturnsAny(locks, area.start, area.end, area.maxOffset) {
      var i := FirstReturn(locks, area);
    } else {
      forall i
        ensures OnlyFree(locks, area, i)
      {
        if 0 <= i <= |locks| {
          if ReturnsAny(locks[..i], area.start, area.end, area.maxOffset) {
            ReturnsLater(locks, area, i);
          }
          forall x | x <= area.maxOffset &&
                     UnlocksSome(Reached(CutAll(locks[..i], area.start, area.end).buffer), area.maxOffset, x)
            ensures area.start <= x < area.end && !Locked(locks[..i], x)
          {
            UnlocksOnlyFree(locks[..i], area, x);
          }
        }
      }
    }
  }

  /** Links that stay right are safe. */
  lemma CleanIsSafe(locks: seq<FileLock>, area: Area)
    requires AllWellFormed(locks) && area.start < area.end <= area.maxOffset + 1
    requires !CutAll(locks, area.start, area.end).stale
    ensures !ReturnsAny(locks, area.start, area.end, area.maxOffset)
  {
    hide CutAll, ReturnsAny, Unlocked, Reached, UnlocksSome, Locked;
    LinksExactThroughout(locks, area.start, area.end);
    forall i
      ensures OnlyFree(locks, area, i)
    {
      if 0 <= i <= |locks| {
        assert RightAfter(locks, area.start, area.end, i);
        forall x | x <= area.maxOffset
          ensures UnlocksSome(Reached(CutAll(locks[..i], area.start, area.end).buffer), area.maxOffset, x) ==>
                  area.start <= x < area.end && !Locked(locks[..i], x)
        {
          UnlocksInSpans(Reached(CutAll(locks[..i], area.start, area.end).buffer), locks[..i], area.start, area.end,
                         area.maxOffset, x);
        }
      }
    }
    OnlyFreeThroughout(locks, area);
  }
}
