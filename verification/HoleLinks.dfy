/** The list of unlocked holes as it is linked in a buffer, and the steps that change the links. */
module HoleLinks {
  import opened Lists
  import opened Spans

  const NONE := -1

  /** A hole of the buffer; links are places in the buffer. */
  datatype Hole = Hole(next: int, prev: int, start: int, end: int)

  /** The holes allocated so far, and the place of the first hole of the list. */
  datatype Buffer = Buffer(holes: seq<Hole>, first: int) {
    predicate Has(i: int) {
      0 <= i < |holes|
    }

    function SpanAt(i: int): Span {
      if Has(i) then Span(holes[i].start, holes[i].end) else Span(0, 0)
    }
  }

  function Placed(order: seq<int>, k: int): int {
    if 0 <= k < |order| then order[k] else NONE
  }

  // ----- the steps -----

  /** A lock in the middle of a hole splits it: the new hole goes to the end of the buffer. */
  function SplitHole(b: Buffer, cur: int, lockStart: int, lockEnd: int): Buffer
    requires b.Has(cur)
  {
    var c := b.holes[cur];
    b.(holes := b.holes[cur := c.(next := |b.holes|, end := lockStart)] + [Hole(c.next, cur, lockEnd, c.end)])
  }

  /** An empty hole is taken out of the list. */
  function RemoveHole(b: Buffer, cur: int): Buffer
    requires b.Has(cur)
  {
    var c := b.holes[cur];
    var relinked := if b.Has(c.next) then b.holes[c.next := b.holes[c.next].(prev := c.prev)] else b.holes;
    if b.Has(c.prev) then Buffer(relinked[c.prev := relinked[c.prev].(next := c.next)], b.first)
    else Buffer(relinked, c.next)
  }

  function Resize(b: Buffer, cur: int, start: int, end: int): Buffer
    requires b.Has(cur)
  {
    b.(holes := b.holes[cur := b.holes[cur].(start := start, end := end)])
  }

  /** What the link back from a hole leads to does not lead to the hole. */
  predicate Stale(b: Buffer, cur: int)
    requires b.Has(cur)
  {
    var p := b.holes[cur].prev;
    if b.Has(p) then b.holes[p].next != cur else b.first != cur
  }

  /** The holes that the links lead to. */
  function Follow(b: Buffer, cur: int, steps: nat): seq<Span>
    decreases steps
  {
    if steps == 0 || !b.Has(cur) then []
    else [b.SpanAt(cur)] + Follow(b, b.holes[cur].next, steps - 1)
  }

  function Reached(b: Buffer): seq<Span> {
    Follow(b, b.first, |b.holes|)
  }

  // ----- lists with the right links forward -----

  ghost predicate NextOk(b: Buffer, order: seq<int>, k: int) {
    0 <= k < |order| ==> b.Has(order[k]) && b.holes[order[k]].next == Placed(order, k + 1)
  }

  /** The list consists of these holes, in this order. */
  ghost predicate Chain(b: Buffer, order: seq<int>) {
    && NoRepeat(order) && |order| <= |b.holes| && b.first == Placed(order, 0)
    && forall k :: NextOk(b, order, k)
  }

  /** The link back from the hole at place `k` of the order may be out of date, but then it leads to a hole further
      up, or to one that is no longer in the list, and that hole does not lead here. */
  ghost predicate BackOk(b: Buffer, order: seq<int>, k: int) {
    0 <= k < |order| && b.Has(order[k]) ==>
      var p := b.holes[order[k]].prev;
      && (forall j :: k <= j < |order| ==> order[j] != p)
      && (if b.Has(p) then b.holes[p].next == order[k] ==> p == Placed(order, k - 1) else p == NONE && k == 0)
  }

  ghost predicate Linked(b: Buffer, order: seq<int>) {
    Chain(b, order) && forall k :: BackOk(b, order, k)
  }

  function SpansOf(b: Buffer, order: seq<int>): (s: seq<Span>)
    ensures |s| == |order| && forall k :: 0 <= k < |order| ==> s[k] == b.SpanAt(order[k])
  {
    seq(|order|, k requires 0 <= k < |order| => b.SpanAt(order[k]))
  }

  lemma InChain(b: Buffer, order: seq<int>)
    requires Chain(b, order)
    ensures forall k :: 0 <= k < |order| ==> b.Has(order[k])
  {
    forall k | 0 <= k < |order|
      ensures b.Has(order[k])
    {
      assert NextOk(b, order, k);
    }
  }

  /** A link back is out of date exactly if it does not lead to the hole before. */
  lemma LinkAt(b: Buffer, order: seq<int>, k: nat)
    requires Linked(b, order) && k < |order|
    ensures NextOk(b, order, k) && BackOk(b, order, k) && b.Has(order[k])
    ensures Stale(b, order[k]) <==> b.holes[order[k]].prev != Placed(order, k - 1)
  {
    assert NextOk(b, order, k) && BackOk(b, order, k);
    assert NextOk(b, order, k - 1);
  }

  /** The links of a list lead to all its holes. */
  lemma {:induction false} FollowChain(b: Buffer, order: seq<int>, k: nat, steps: nat)
    requires Chain(b, order) && k <= |order| && |order| - k <= steps
    ensures Follow(b, Placed(order, k), steps) == SpansOf(b, order)[k..]
    decreases steps
  {
    if k < |order| {
      assert NextOk(b, order, k);
      FollowChain(b, order, k + 1, steps - 1);
    }
  }

  lemma ReachedChain(b: Buffer, order: seq<int>)
    requires Chain(b, order)
    ensures Reached(b) == SpansOf(b, order)
  {
    FollowChain(b, order, 0, |b.holes|);
  }

  lemma ResizeChain(b: Buffer, order: seq<int>, k: nat, start: int, end: int)
    requires Chain(b, order) && k < |order| && b.Has(order[k])
    ensures Chain(Resize(b, order[k], start, end), order)
    ensures SpansOf(Resize(b, order[k], start, end), order) == SpansOf(b, order)[k := Span(start, end)]
  {
    var after := Resize(b, order[k], start, end);
    forall j
      ensures NextOk(after, order, j)
    {
      assert NextOk(b, order, j);
    }
  }

  lemma ResizeLinked(b: Buffer, order: seq<int>, k: nat, start: int, end: int)
    requires Linked(b, order) && k < |order| && b.Has(order[k])
    ensures Linked(Resize(b, order[k], start, end), order)
    ensures SpansOf(Resize(b, order[k], start, end), order) == SpansOf(b, order)[k := Span(start, end)]
  {
    var after := Resize(b, order[k], start, end);
    ResizeChain(b, order, k, start, end);
    forall j
      ensures BackOk(after, order, j)
    {
      assert BackOk(b, order, j);
    }
  }

  /** A split hole is followed by its second half. */
  lemma SplitLinked(b: Buffer, order: seq<int>, k: nat, lockStart: int, lockEnd: int)
    requires Linked(b, order) && k < |order| && b.Has(order[k])
    ensures var after, placed := SplitHole(b, order[k], lockStart, lockEnd), order[..k + 1] + [|b.holes|] + order[k + 1..];
            && Linked(after, placed)
            && SpansOf(after, placed) == SpansOf(b, order)[..k] +
                 [Span(b.holes[order[k]].start, lockStart), Span(lockEnd, b.holes[order[k]].end)] + SpansOf(b, order)[k + 1..]
  {
    var after := SplitHole(b, order[k], lockStart, lockEnd);
    var placed := order[..k + 1] + [|b.holes|] + order[k + 1..];
    InChain(b, order);
    forall j
      ensures NextOk(after, placed, j) && BackOk(after, placed, j)
    {
      SplitNext(b, order, k, lockStart, lockEnd, j);
      SplitBack(b, order, k, lockStart, lockEnd, j);
    }
  }

  lemma SplitNext(b: Buffer, order: seq<int>, k: nat, lockStart: int, lockEnd: int, j: int)
    requires Chain(b, order) && k < |order| && b.Has(order[k])
    ensures NextOk(SplitHole(b, order[k], lockStart, lockEnd), order[..k + 1] + [|b.holes|] + order[k + 1..], j)
  {
    assert NextOk(b, order, k) && NextOk(b, order, if j <= k then j else j - 1);
  }

  lemma SplitBack(b: Buffer, order: seq<int>, k: nat, lockStart: int, lockEnd: int, j: int)
    requires Linked(b, order) && k < |order| && b.Has(order[k])
    ensures BackOk(SplitHole(b, order[k], lockStart, lockEnd), order[..k + 1] + [|b.holes|] + order[k + 1..], j)
  {
    InChain(b, order);
    assert BackOk(b, order, if j <= k then j else j - 1);
  }

  /** Taking out the first hole. */
  lemma RemoveHead(b: Buffer, order: seq<int>)
    requires Linked(b, order) && order != [] && b.Has(order[0]) && !b.Has(b.holes[order[0]].prev)
    ensures Linked(RemoveHole(b, order[0]), order[1..])
  {
    var after, placed := RemoveHole(b, order[0]), order[1..];
    forall j
      ensures NextOk(after, placed, j) && BackOk(after, placed, j)
    {
      assert NextOk(b, order, 0) && BackOk(b, order, 0);
      assert NextOk(b, order, j + 1) && BackOk(b, order, j + 1);
    }
  }

  /** Taking out a hole also takes out the holes between it and the one that its link back leads to. */
  lemma RemoveSkips(b: Buffer, order: seq<int>, j: nat, k: nat)
    requires Linked(b, order) && j < k < |order| && b.Has(order[k]) && b.holes[order[k]].prev == order[j]
    ensures Linked(RemoveHole(b, order[k]), order[..j + 1] + order[k + 1..])
  {
    var after, placed := RemoveHole(b, order[k]), order[..j + 1] + order[k + 1..];
    InChain(b, order);
    forall i
      ensures NextOk(after, placed, i) && BackOk(after, placed, i)
    {
      SkipNext(b, order, j, k, i);
      SkipBack(b, order, j, k, i);
    }
  }

  lemma SkipNext(b: Buffer, order: seq<int>, j: nat, k: nat, i: int)
    requires Chain(b, order) && j < k < |order| && b.Has(order[k]) && b.holes[order[k]].prev == order[j]
    ensures NextOk(RemoveHole(b, order[k]), order[..j + 1] + order[k + 1..], i)
  {
    assert NextOk(b, order, k) && NextOk(b, order, if i <= j then i else i + k - j);
  }

  lemma SkipBack(b: Buffer, order: seq<int>, j: nat, k: nat, i: int)
    requires Linked(b, order) && j < k < |order| && b.Has(order[k]) && b.holes[order[k]].prev == order[j]
    ensures BackOk(RemoveHole(b, order[k]), order[..j + 1] + order[k + 1..], i)
  {
    InChain(b, order);
    var m := if i <= j then i else i + k - j;
    assert NextOk(b, order, k) && BackOk(b, order, k);
    if 0 <= m < |order| {
      assert BackOk(b, order, m);
      assert NextOk(b, order, m - 1);
    }
  }

  lemma RemoveSpans(b: Buffer, cur: int, order: seq<int>)
    requires b.Has(cur)
    ensures SpansOf(RemoveHole(b, cur), order) == SpansOf(b, order)
  {
  }

  /** A hole whose link back is right is taken out of the list, and nothing else is. */
  lemma RemoveLinked(b: Buffer, order: seq<int>, k: nat)
    requires Linked(b, order) && k < |order| && b.Has(order[k]) && !Stale(b, order[k])
    ensures Linked(RemoveHole(b, order[k]), order[..k] + order[k + 1..])
    ensures SpansOf(RemoveHole(b, order[k]), order[..k] + order[k + 1..]) ==
            SpansOf(b, order)[..k] + SpansOf(b, order)[k + 1..]
  {
    LinkAt(b, order, k);
    RemoveSpans(b, order[k], order[..k] + order[k + 1..]);
    if k == 0 {
      RemoveHead(b, order);
      assert order[..0] + order[1..] == order[1..];
    } else {
      RemoveSkips(b, order, k - 1, k);
    }
  }

  /** If the link back leads to a hole that is not in the list, then the hole stays in the list. */
  lemma RemoveFails(b: Buffer, order: seq<int>, k: nat)
    requires Chain(b, order) && k < |order| && b.Has(order[k])
    requires b.Has(b.holes[order[k]].prev) && b.holes[order[k]].prev !in order
    ensures Chain(RemoveHole(b, order[k]), order)
    ensures SpansOf(RemoveHole(b, order[k]), order) == SpansOf(b, order)
    ensures k + 1 < |order| && b.Has(order[k + 1]) ==>
              RemoveHole(b, order[k]).holes[order[k + 1]].prev == b.holes[order[k]].prev
  {
    var after := RemoveHole(b, order[k]);
    RemoveSpans(b, order[k], order);
    forall j
      ensures NextOk(after, order, j)
    {
      assert NextOk(b, order, j);
    }
    assert NextOk(b, order, k);
  }

  // ----- lists with the right links both ways -----

  ghost predicate PrevOk(b: Buffer, order: seq<int>, k: int) {
    0 <= k < |order| && b.Has(order[k]) ==> b.holes[order[k]].prev == Placed(order, k - 1)
  }

  ghost predicate WellLinked(b: Buffer, order: seq<int>) {
    Linked(b, order) && forall k :: PrevOk(b, order, k)
  }

  /** Splitting a hole keeps the links right exactly if no hole follows it: the link back from a hole that follows
      is left on the first half. */
  lemma SplitKeepsLinks(b: Buffer, order: seq<int>, k: nat, lockStart: int, lockEnd: int)
    requires WellLinked(b, order) && k < |order| && b.Has(order[k])
    ensures WellLinked(SplitHole(b, order[k], lockStart, lockEnd), order[..k + 1] + [|b.holes|] + order[k + 1..]) <==>
            b.holes[order[k]].next == NONE
  {
    hide Linked;
    var after := SplitHole(b, order[k], lockStart, lockEnd);
    var placed := order[..k + 1] + [|b.holes|] + order[k + 1..];
    SplitLinked(b, order, k, lockStart, lockEnd);
    LinkAt(b, order, k);
    if k + 1 < |order| {
      LinkAt(b, order, k + 1);
      assert PrevOk(b, order, k + 1);
      assert !PrevOk(after, placed, k + 2);
    } else {
      forall j | 0 <= j < |placed|
        ensures PrevOk(after, placed, j)
      {
        if j <= k {
          LinkAt(b, order, j);
          assert PrevOk(b, order, j);
        }
      }
    }
  }

  /** Taking a hole out of a list with the right links keeps them right. */
  lemma RemoveKeepsLinks(b: Buffer, order: seq<int>, k: nat)
    requires WellLinked(b, order) && k < |order| && b.Has(order[k])
    ensures !Stale(b, order[k]) && WellLinked(RemoveHole(b, order[k]), order[..k] + order[k + 1..])
  {
    hide Linked, Stale;
    var after, placed := RemoveHole(b, order[k]), order[..k] + order[k + 1..];
    LinkAt(b, order, k);
    assert PrevOk(b, order, k);
    RemoveLinked(b, order, k);
    forall j | 0 <= j < |placed|
      ensures PrevOk(after, placed, j)
    {
      var m := if j < k then j else j + 1;
      LinkAt(b, order, m);
      assert PrevOk(b, order, m);
      RemovePrev(b, order, k, m);
    }
  }

  lemma RemovePrev(b: Buffer, order: seq<int>, k: nat, m: nat)
    requires Linked(b, order) && k < |order| && m < |order| && m != k && b.Has(order[k]) && b.Has(order[m])
    ensures RemoveHole(b, order[k]).holes[order[m]].prev ==
            if m == k + 1 then b.holes[order[k]].prev else b.holes[order[m]].prev
  {
    assert NextOk(b, order, k);
  }
}
