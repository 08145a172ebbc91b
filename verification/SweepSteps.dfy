/** Each step of the band sweep of `region_op`, on the bands of the two operands and of the result. */
module SweepSteps {
  import opened Spans
  import opened RowSweep
  import opened Bands
  import opened BandSweep

  /** The sweep has reached row `y`: band `i` is the first that is not finished. */
  ghost predicate At(bs: seq<Band>, i: nat, y: int) {
    && Banded(bs) && i <= |bs|
    && (i > 0 ==> bs[i - 1].bottom <= y)
    && (i < |bs| ==> y < bs[i].bottom)
  }

  /** Rows that only the first operand has are kept, and likewise for the second: the callback is given. */
  predicate KeepsFirst(op: Op) {
    Combine(op, true, false)
  }

  predicate KeepsSecond(op: Op) {
    Combine(op, false, true)
  }

  lemma BlankUntil(bs: seq<Band>, i: nat, cs: seq<Band>, j: nat, y: int, y': int)
    requires At(bs, i, y) && At(cs, j, y)
    requires y < y' && i < |bs| ==> y' <= bs[i].top
    requires y < y' && j < |cs| ==> y' <= cs[j].top
    ensures BlankRows(bs, cs, y, y')
  {
    forall x, r | y <= r < y'
      ensures !InBands(bs, x, r) && !InBands(cs, x, r)
    {
      RowInGap(bs, i, x, r);
      RowInGap(cs, j, x, r);
    }
  }

  lemma OnlyFirst(bs: seq<Band>, i: nat, cs: seq<Band>, j: nat, op: Op, y: int, top: int, bottom: int)
    requires At(bs, i, y) && At(cs, j, y) && y <= top && i < |bs|
    requires bs[i].top <= top && bottom <= bs[i].bottom
    requires j < |cs| ==> bottom <= cs[j].top
    ensures RowsAre(bs, cs, op, top, bottom, if KeepsFirst(op) then bs[i].spans else [])
  {
    forall x, r | top <= r < bottom
      ensures InBands(bs, x, r) <==> InSpans(bs[i].spans, x)
      ensures !InBands(cs, x, r)
    {
      RowInBand(bs, i, x, r);
      RowInGap(cs, j, x, r);
    }
  }

  lemma OnlySecond(bs: seq<Band>, i: nat, cs: seq<Band>, j: nat, op: Op, y: int, top: int, bottom: int)
    requires At(bs, i, y) && At(cs, j, y) && y <= top && j < |cs|
    requires cs[j].top <= top && bottom <= cs[j].bottom
    requires i < |bs| ==> bottom <= bs[i].top
    ensures RowsAre(bs, cs, op, top, bottom, if KeepsSecond(op) then cs[j].spans else [])
  {
    forall x, r | top <= r < bottom
      ensures InBands(cs, x, r) <==> InSpans(cs[j].spans, x)
      ensures !InBands(bs, x, r)
    {
      RowInBand(cs, j, x, r);
      RowInGap(bs, i, x, r);
    }
  }

  /** The rows that only one of two bands has, above the first row that both could have. */
  function GapTop(p: Band, q: Band, ybot: int): int {
    Max(Min(p.top, q.top), ybot)
  }

  function GapBottom(p: Band, q: Band): int {
    if p.top < q.top then Min(p.bottom, q.top) else if q.top < p.top then Min(q.bottom, p.top) else p.top
  }

  /** What the sweep adds for these rows. */
  function GapSpans(op: Op, p: Band, q: Band, ybot: int): seq<Span> {
    if GapTop(p, q, ybot) == GapBottom(p, q) then []
    else if p.top < q.top && KeepsFirst(op) then p.spans
    else if q.top < p.top && KeepsSecond(op) then q.spans
    else []
  }

  lemma GapDone(out: seq<Band>, bs: seq<Band>, i: nat, cs: seq<Band>, j: nat, op: Op, ybot: int)
    requires DoneTo(out, bs, cs, op, ybot)
    requires At(bs, i, ybot) && At(cs, j, ybot) && i < |bs| && j < |cs|
    requires ybot <= bs[i].top || ybot <= cs[j].top
    ensures var p, q := bs[i], cs[j];
            var out' := Emit(out, GapTop(p, q, ybot), GapBottom(p, q), GapSpans(op, p, q, ybot));
            && DoneTo(out', bs, cs, op, Min(Max(p.top, q.top), Min(p.bottom, q.bottom)))
            && (Coalesced(out) ==> Coalesced(out'))
  {
    hide InBands, InSpans, RowDone, Coalesced, GapOrdered;
    var p, q := bs[i], cs[j];
    assert p.Good() && q.Good();
    var top, bottom, spans := GapTop(p, q, ybot), GapBottom(p, q), GapSpans(op, p, q, ybot);
    BlankUntil(bs, i, cs, j, ybot, top);
    SkipBlank(out, bs, cs, op, ybot, top);
    if top != bottom {
      if p.top < q.top {
        OnlyFirst(bs, i, cs, j, op, ybot, top, bottom);
      } else {
        OnlySecond(bs, i, cs, j, op, ybot, top, bottom);
      }
      EmitDone(out, bs, cs, op, top, bottom, spans);
    }
    EmitCoalesced(out, top, bottom, spans);
  }

  /** Finished bands are left behind. */
  lemma Advance(bs: seq<Band>, i: nat, y: int, y': int) returns (i': nat)
    requires At(bs, i, y) && i < |bs| && y <= y' <= bs[i].bottom
    ensures i' == if bs[i].bottom == y' then i + 1 else i
    ensures At(bs, i', y')
    ensures i' < |bs| && i' == i + 1 ==> y' <= bs[i'].top
  {
    if bs[i].bottom == y' {
      i' := i + 1;
      if i' < |bs| {
        assert bs[i].bottom <= bs[i'].top && bs[i'].Good();
      }
    } else {
      i' := i;
    }
  }

  // ----- the bands that are left when one operand is used up -----

  function Clip(bs: seq<Band>, i: nat, y: int): seq<Band>
    requires i < |bs|
  {
    [bs[i].(top := Max(bs[i].top, y))] + bs[i + 1..]
  }

  lemma ClipBanded(bs: seq<Band>, i: nat, y: int)
    requires At(bs, i, y) && i < |bs|
    ensures Banded(Clip(bs, i, y)) && |Clip(bs, i, y)| == |bs| - i && Clip(bs, i, y)[0].top >= y
    ensures forall k :: 0 <= k < |Clip(bs, i, y)| ==>
              Clip(bs, i, y)[k] == bs[i + k].(top := Max(bs[i + k].top, y))
  {
    var c := Clip(bs, i, y);
    forall k, m | 0 <= k < m < |c|
      ensures c[k].bottom <= c[m].top
    {
      assert bs[i + k].bottom <= bs[i + m].top;
    }
    forall k | 0 < k < |c|
      ensures c[k].Good() && c[k] == bs[i + k].(top := Max(bs[i + k].top, y))
    {
      assert bs[i].bottom <= bs[i + k].top && bs[i + k].Good();
    }
  }

  lemma ClipPoints(bs: seq<Band>, i: nat, y: int, x: int, r: int)
    requires At(bs, i, y) && i < |bs|
    ensures InBands(Clip(bs, i, y), x, r) <==> InBands(bs, x, r) && y <= r
  {
    hide Clip, Banded;
    var c := Clip(bs, i, y);
    ClipBanded(bs, i, y);
    if InBands(c, x, r) {
      var k :| 0 <= k < |c| && c[k].Has(x, r);
      assert bs[i + k].Has(x, r);
    }
    if InBands(bs, x, r) && y <= r {
      var k :| 0 <= k < |bs| && bs[k].Has(x, r);
      FinishedBand(bs, i, y, k);
      assert c[k - i].Has(x, r);
    }
  }

  lemma FinishedBand(bs: seq<Band>, i: nat, y: int, k: nat)
    requires At(bs, i, y) && k < |bs|
    ensures k < i ==> bs[k].bottom <= y
  {
  }

  lemma ConcatPoints(bs: seq<Band>, cs: seq<Band>, x: int, y: int)
    ensures InBands(bs + cs, x, y) <==> InBands(bs, x, y) || InBands(cs, x, y)
  {
    var all := bs + cs;
    if InBands(bs, x, y) {
      var k :| 0 <= k < |bs| && bs[k].Has(x, y);
      assert all[k].Has(x, y);
    }
    if InBands(cs, x, y) {
      var k :| 0 <= k < |cs| && cs[k].Has(x, y);
      assert all[|bs| + k].Has(x, y);
    }
  }

  /** The bands of the result after the left-over bands have been added and coalesced once. */
  function Flush(out: seq<Band>, c: seq<Band>): seq<Band>
    requires c != []
  {
    Push(out, c[0]) + c[1..]
  }

  lemma ConcatBanded(p: seq<Band>, q: seq<Band>)
    requires Banded(p) && Banded(q) && (p != [] && q != [] ==> LastBand(p).bottom <= q[0].top)
    ensures Banded(p + q)
  {
    forall k, m | 0 <= k < |p| && 0 <= m < |q|
      ensures p[k].bottom <= q[m].top
    {
      assert LastBand(p).Good() && q[0].Good();
    }
  }

  lemma FlushBanded(out: seq<Band>, c: seq<Band>)
    requires c != [] && Banded(c) && Fits(out, c[0])
    ensures Banded(Flush(out, c))
  {
    PushBanded(out, c[0]);
    ConcatBanded(Push(out, c[0]), c[1..]);
  }

  lemma FlushPoints(out: seq<Band>, c: seq<Band>, x: int, y: int)
    requires c != [] && Fits(out, c[0])
    ensures InBands(Flush(out, c), x, y) <==> InBands(out, x, y) || InBands(c, x, y)
  {
    ConcatPoints(Push(out, c[0]), c[1..], x, y);
    PushPoints(out, c[0], x, y);
    ConcatPoints([c[0]], c[1..], x, y);
    ConcatPoints([], [c[0]], x, y);
    assert [c[0]] + c[1..] == c;
    InBandsSnoc([], c[0], x, y);
    assert [] + [c[0]] == [c[0]];
  }

  /** The result is complete once the left-over bands of the first operand are added. */
  lemma FlushFirstDone(out: seq<Band>, bs: seq<Band>, i: nat, cs: seq<Band>, op: Op, y: int)
    requires DoneTo(out, bs, cs, op, y) && At(bs, i, y) && At(cs, |cs|, y) && i < |bs| && KeepsFirst(op)
    ensures Banded(Flush(out, Clip(bs, i, y)))
    ensures forall x, r :: RowDone(Flush(out, Clip(bs, i, y)), bs, cs, op, x, r)
  {
    var c := Clip(bs, i, y);
    ClipBanded(bs, i, y);
    FlushBanded(out, c);
    forall x, r
      ensures RowDone(Flush(out, c), bs, cs, op, x, r)
    {
      FlushPoints(out, c, x, r);
      ClipPoints(bs, i, y, x, r);
      if r < y {
        assert RowDone(out, bs, cs, op, x, r);
      } else {
        NothingBelow(out, x, r);
        RowInGap(cs, |cs|, x, r);
      }
    }
  }

  lemma FlushSecondDone(out: seq<Band>, bs: seq<Band>, cs: seq<Band>, j: nat, op: Op, y: int)
    requires DoneTo(out, bs, cs, op, y) && At(bs, |bs|, y) && At(cs, j, y) && j < |cs| && KeepsSecond(op)
    ensures Banded(Flush(out, Clip(cs, j, y)))
    ensures forall x, r :: RowDone(Flush(out, Clip(cs, j, y)), bs, cs, op, x, r)
  {
    var c := Clip(cs, j, y);
    ClipBanded(cs, j, y);
    FlushBanded(out, c);
    forall x, r
      ensures RowDone(Flush(out, c), bs, cs, op, x, r)
    {
      FlushPoints(out, c, x, r);
      ClipPoints(cs, j, y, x, r);
      if r < y {
        assert RowDone(out, bs, cs, op, x, r);
      } else {
        NothingBelow(out, x, r);
        RowInGap(bs, |bs|, x, r);
      }
    }
  }

  /** Nothing is added when the rows that are left are not kept. */
  lemma NoFlushDone(out: seq<Band>, bs: seq<Band>, i: nat, cs: seq<Band>, j: nat, op: Op, y: int)
    requires DoneTo(out, bs, cs, op, y) && At(bs, i, y) && At(cs, j, y) && (i == |bs| || j == |cs|)
    requires i < |bs| ==> !KeepsFirst(op)
    requires j < |cs| ==> !KeepsSecond(op)
    ensures forall x, r :: RowDone(out, bs, cs, op, x, r)
  {
    forall x, r
      ensures RowDone(out, bs, cs, op, x, r)
    {
      if r >= y {
        NothingBelow(out, x, r);
        if i == |bs| {
          RowInGap(bs, i, x, r);
        }
        if j == |cs| {
          RowInGap(cs, j, x, r);
        }
      }
    }
  }

  /** The array of the left-over bands: its first band, and later tops, which all differ from the first. */
  lemma {:induction false} FirstBandApart(c: seq<Band>)
    requires c != [] && Banded(c)
    ensures Flatten(c) == RectsOf(c[0]) + Flatten(c[1..])
    ensures forall i :: 0 <= i < |Flatten(c[1..])| ==> Flatten(c[1..])[i].top != c[0].top
  {
    assert c == [c[0]] + c[1..];
    FlattenConcat([c[0]], c[1..]);
    FlattenSnoc([], c[0]);
    assert [] + [c[0]] == [c[0]];
    forall i | 0 <= i < |Flatten(c[1..])|
      ensures Flatten(c[1..])[i].top != c[0].top
    {
      var k, m := BandOfRect(c[1..], i);
      assert c[0].bottom <= c[k + 1].top && c[0].Good();
    }
  }

  /** A band that starts at `y` is told apart from the bands above by its top. */
  lemma LastTopDiffers(out: seq<Band>, y: int)
    requires Banded(out) && (out != [] ==> LastBand(out).bottom <= y)
    ensures Flatten(out) != [] ==> Flatten(out)[|Flatten(out)| - 1].top != y
  {
  }

  lemma FlushRects(out: seq<Band>, c: seq<Band>)
    requires c != [] && Banded(c)
    ensures Flatten(Flush(out, c)) == Before(out) + MergedRects(LastOrNone(out), c[0]) + Flatten(c[1..])
  {
    assert c[0].Good();
    PushRects(out, c[0]);
    FlattenConcat(Push(out, c[0]), c[1..]);
  }

  lemma OverlapDone(out: seq<Band>, bs: seq<Band>, i: nat, cs: seq<Band>, j: nat, op: Op, top: int, bottom: int,
                    spans: seq<Span>)
    requires DoneTo(out, bs, cs, op, top) && top < bottom
    requires Banded(bs) && Banded(cs) && i < |bs| && j < |cs|
    requires bs[i].top <= top && bottom <= bs[i].bottom && cs[j].top <= top && bottom <= cs[j].bottom
    requires RowResult(op, spans, bs[i].spans, cs[j].spans)
    ensures var out' := Emit(out, top, bottom, spans);
            DoneTo(out', bs, cs, op, bottom) && (Coalesced(out) ==> Coalesced(out'))
  {
    EmitDone(out, bs, cs, op, top, bottom, spans);
    EmitCoalesced(out, top, bottom, spans);
  }

  /** Before the first row of either operand the empty result is right. */
  lemma StartDone(bs: seq<Band>, cs: seq<Band>, op: Op, y: int)
    requires bs != [] && cs != [] && Banded(bs) && Banded(cs) && y == Min(bs[0].top, cs[0].top)
    ensures DoneTo([], bs, cs, op, y) && At(bs, 0, y) && At(cs, 0, y)
  {
  }

  /** The bottom of the last band. */
  function Bottom(bs: seq<Band>): int
    requires bs != []
  {
    bs[|bs| - 1].bottom
  }

  lemma BottomLast(bs: seq<Band>, k: nat)
    requires Banded(bs) && k < |bs|
    ensures bs[k].bottom <= Bottom(bs)
  {
    assert bs[|bs| - 1].Good();
  }

  /** The bands that are left over of an operand end below the other operand, and go to the result as they are. */
  ghost predicate RestCoalesced(op: Op, bs: seq<Band>, cs: seq<Band>)
    requires bs != [] && cs != []
  {
    (KeepsFirst(op) ==> CoalescedFrom(bs, Bottom(cs))) && (KeepsSecond(op) ==> CoalescedFrom(cs, Bottom(bs)))
  }

  /** At the end of the sweep it has come to the bottom of one operand, and nothing of that one is left over. */
  lemma RestOf(bs: seq<Band>, i: nat, cs: seq<Band>, j: nat, y: int)
    requires At(bs, i, y) && At(cs, j, y) && bs != [] && cs != [] && y <= Bottom(bs) && y <= Bottom(cs)
    requires i == |bs| || j == |cs|
    ensures y == Min(Bottom(bs), Bottom(cs))
    ensures i == |bs| ==> Bottom(bs) == y && CoalescedFrom(bs, Bottom(cs))
    ensures j == |cs| ==> Bottom(cs) == y && CoalescedFrom(cs, Bottom(bs))
  {
    forall k | 0 <= k < |bs|
      ensures bs[k].bottom <= Bottom(bs)
    {
      BottomLast(bs, k);
    }
    forall k | 0 <= k < |cs|
      ensures cs[k].bottom <= Bottom(cs)
    {
      BottomLast(cs, k);
    }
  }

  /** Where the left-over bands are in the result. */
  lemma FlushAt(out: seq<Band>, bs: seq<Band>, i: nat, y: int, n: nat, k: nat)
    requires At(bs, i, y) && i <= k < |bs| && n == |Push(out, bs[i].(top := Max(bs[i].top, y)))| - 1
    ensures var f := Flush(out, Clip(bs, i, y));
            && |f| == n + |bs| - i && f[n + k - i].bottom == bs[k].bottom > y && f[n + k - i].spans == bs[k].spans
            && (i < k ==> f[n + k - i].top == bs[k].top)
  {
    BandsBelow(bs, i, y, k);
  }

  lemma FlushStart(out: seq<Band>, bs: seq<Band>, i: nat, y: int, n: nat, k: nat)
    requires i < |bs| && Coalesced(out) && n == |Push(out, bs[i].(top := Max(bs[i].top, y)))| - 1 && k < n
    ensures var f := Flush(out, Clip(bs, i, y)); n < |f| && !Mergeable(f[k], f[k + 1])
  {
    var p := Push(out, bs[i].(top := Max(bs[i].top, y)));
    PushCoalesced(out, bs[i].(top := Max(bs[i].top, y)));
    assert !Mergeable(p[k], p[k + 1]);
  }

  lemma PushCoalesced(out: seq<Band>, b: Band)
    requires Coalesced(out)
    ensures Coalesced(Push(out, b))
  {
  }

  /** The result is coalesced exactly if the left-over bands are, and above them in any case. */
  lemma FlushExact(out: seq<Band>, bs: seq<Band>, i: nat, y: int)
    requires At(bs, i, y) && i < |bs| && Coalesced(out)
    ensures Coalesced(Flush(out, Clip(bs, i, y))) <==> CoalescedFrom(bs, y)
    ensures CoalescedTo(Flush(out, Clip(bs, i, y)), y)
  {
    hide Flush, Push, At, Mergeable;
    var f, n := Flush(out, Clip(bs, i, y)), |Push(out, bs[i].(top := Max(bs[i].top, y)))| - 1;
    FlushAt(out, bs, i, y, n, i);
    forall k, m | 0 <= k && m == k + 1 && m < |f| && (CoalescedFrom(bs, y) || f[k].bottom <= y)
      ensures !Mergeable(f[k], f[m])
    {
      if k < n {
        FlushStart(out, bs, i, y, n, k);
      } else {
        FlushNext(out, bs, i, y, n, k - n + i);
      }
    }
    if Coalesced(f) {
      forall k, m | 0 <= k && m == k + 1 && m < |bs| && bs[k].bottom > y
        ensures !Mergeable(bs[k], bs[m])
      {
        NotPassed(bs, i, y, k);
        FlushNext(out, bs, i, y, n, k);
        assert !Mergeable(f[n + k - i], f[n + m - i]);
      }
    }
  }

  lemma FlushNext(out: seq<Band>, bs: seq<Band>, i: nat, y: int, n: nat, k: nat)
    requires At(bs, i, y) && i <= k && k + 1 < |bs| && n == |Push(out, bs[i].(top := Max(bs[i].top, y)))| - 1
    ensures var f := Flush(out, Clip(bs, i, y));
            && n + k + 1 - i < |f| && f[n + k - i].bottom > y && bs[k].bottom > y
            && (Mergeable(f[n + k - i], f[n + k + 1 - i]) <==> Mergeable(bs[k], bs[k + 1]))
  {
    hide Flush, Clip, Push;
    FlushAt(out, bs, i, y, n, k);
    FlushAt(out, bs, i, y, n, k + 1);
  }

  lemma NotPassed(bs: seq<Band>, i: nat, y: int, k: nat)
    requires At(bs, i, y) && k < |bs| && bs[k].bottom > y
    ensures i <= k
  {
  }

  lemma BandsBelow(bs: seq<Band>, i: nat, y: int, k: nat)
    requires At(bs, i, y) && i <= k < |bs|
    ensures y < bs[k].bottom
  {
    assert i < k ==> bs[i].bottom <= bs[k].top && bs[k].Good();
  }

  /** A list of bands is fixed by its array. */
  lemma {:induction false} FlattenUnique(bs: seq<Band>, cs: seq<Band>)
    requires Banded(bs) && Banded(cs) && Flatten(bs) == Flatten(cs)
    ensures bs == cs
    decreases |bs|
  {
    hide Flatten, Banded, RectsAt, GapOrdered;
    EmptyFlatten(bs);
    EmptyFlatten(cs);
    if bs != [] && cs != [] {
      FirstBandApart(bs);
      FirstBandApart(cs);
      TailBanded(bs);
      TailBanded(cs);
      FirstSame(bs[0], Flatten(bs[1..]), cs[0], Flatten(cs[1..]));
      FlattenUnique(bs[1..], cs[1..]);
      assert bs == [bs[0]] + bs[1..] && cs == [cs[0]] + cs[1..];
    }
  }

  lemma TailBanded(bs: seq<Band>)
    requires Banded(bs) && bs != []
    ensures bs[0].Good() && Banded(bs[1..])
  {
  }

  lemma EmptyFlatten(bs: seq<Band>)
    requires Banded(bs)
    ensures Flatten(bs) == [] <==> bs == []
  {
    if bs != [] {
      FirstBandApart(bs);
      assert bs[0].Good();
    }
  }

  lemma TopsOf(b: Band, rest: seq<Rect>)
    requires forall i :: 0 <= i < |rest| ==> rest[i].top != b.top
    ensures var all, n := RectsOf(b) + rest, |RectsOf(b)|;
            (forall k :: 0 <= k < n ==> all[k].top == b.top) && (n < |all| ==> all[n].top != b.top)
  {
  }

  lemma FirstSame(b: Band, rest: seq<Rect>, c: Band, rest': seq<Rect>)
    requires b.Good() && c.Good() && RectsOf(b) + rest == RectsOf(c) + rest'
    requires forall i :: 0 <= i < |rest| ==> rest[i].top != b.top
    requires forall i :: 0 <= i < |rest'| ==> rest'[i].top != c.top
    ensures b == c && rest == rest'
  {
    var all, n, m := RectsOf(b) + rest, |RectsOf(b)|, |RectsOf(c)|;
    assert all[0] == RectsOf(b)[0] && all[0] == RectsOf(c)[0];
    TopsOf(b, rest);
    TopsOf(c, rest');
    assert n == m;
    assert all[..n] == RectsOf(b) && all[..n] == RectsOf(c) && all[n..] == rest && all[n..] == rest';
    forall k | 0 <= k < n
      ensures b.spans[k] == c.spans[k]
    {
      assert RectsOf(b)[k] == RectsOf(c)[k];
    }
  }

  // ----- a sweep that is broken off -----

  /** All points of the rectangles belong to the result, but some may be missing. */
  ghost predicate Partial(rs: seq<Rect>, bs: seq<Band>, cs: seq<Band>, op: Op) {
    forall x, y :: Covered(rs, x, y) ==> Combine(op, InBands(bs, x, y), InBands(cs, x, y))
  }

  lemma DoneIsPartial(out: seq<Band>, bs: seq<Band>, cs: seq<Band>, op: Op, h: int)
    requires DoneTo(out, bs, cs, op, h)
    ensures Partial(Flatten(out), bs, cs, op)
  {
    hide InBands, Covered, Flatten;
    forall x, y | Covered(Flatten(out), x, y)
      ensures Combine(op, InBands(bs, x, y), InBands(cs, x, y))
    {
      FlattenCovers(out, x, y);
      if y >= h {
        NothingBelow(out, x, y);
      }
      assert RowDone(out, bs, cs, op, x, y);
    }
  }

  lemma CoveredConcat(rs: seq<Rect>, qs: seq<Rect>, x: int, y: int)
    requires Covered(rs + qs, x, y)
    ensures Covered(rs, x, y) || Covered(qs, x, y)
  {
    var i :| 0 <= i < |rs + qs| && (rs + qs)[i].Has(x, y);
    if i < |rs| {
      assert rs[i].Has(x, y);
    } else {
      assert qs[i - |rs|].Has(x, y);
    }
  }

  lemma RectsAtCover(part: seq<Span>, top: int, bottom: int, x: int, y: int)
    requires Covered(RectsAt(part, top, bottom), x, y)
    ensures top <= y < bottom && InSpans(part, x)
  {
    var i :| 0 <= i < |part| && RectsAt(part, top, bottom)[i].Has(x, y);
    assert part[i].Has(x);
  }

  /** The columns of some rows belong to the result. */
  ghost predicate RowsPart(bs: seq<Band>, cs: seq<Band>, op: Op, top: int, bottom: int, part: seq<Span>) {
    forall x, y :: top <= y < bottom && InSpans(part, x) ==> Combine(op, InBands(bs, x, y), InBands(cs, x, y))
  }

  lemma PartialRow(out: seq<Band>, bs: seq<Band>, cs: seq<Band>, op: Op, h: int, top: int, bottom: int, part: seq<Span>)
    requires DoneTo(out, bs, cs, op, h) && RowsPart(bs, cs, op, top, bottom, part)
    ensures Partial(Flatten(out) + RectsAt(part, top, bottom), bs, cs, op)
  {
    hide InBands, Covered, Flatten, DoneTo;
    DoneIsPartial(out, bs, cs, op, h);
    forall x, y | Covered(Flatten(out) + RectsAt(part, top, bottom), x, y)
      ensures Combine(op, InBands(bs, x, y), InBands(cs, x, y))
    {
      CoveredConcat(Flatten(out), RectsAt(part, top, bottom), x, y);
      if Covered(RectsAt(part, top, bottom), x, y) {
        RectsAtCover(part, top, bottom, x, y);
      }
    }
  }

  lemma PrefixPart(bs: seq<Band>, cs: seq<Band>, op: Op, top: int, bottom: int, spans: seq<Span>, part: seq<Span>)
    requires RowsAre(bs, cs, op, top, bottom, spans) && part <= spans
    ensures RowsPart(bs, cs, op, top, bottom, part)
  {
    hide InBands;
    forall x, y | top <= y < bottom && InSpans(part, x)
      ensures Combine(op, InBands(bs, x, y), InBands(cs, x, y))
    {
      var i :| 0 <= i < |part| && part[i].Has(x);
      assert spans[i].Has(x);
    }
  }

  lemma OverlapPart(bs: seq<Band>, i: nat, cs: seq<Band>, j: nat, op: Op, top: int, bottom: int, part: seq<Span>)
    requires Banded(bs) && Banded(cs) && i < |bs| && j < |cs|
    requires bs[i].top <= top && bottom <= bs[i].bottom && cs[j].top <= top && bottom <= cs[j].bottom
    requires RowPart(op, part, bs[i].spans, cs[j].spans)
    ensures RowsPart(bs, cs, op, top, bottom, part)
  {
    hide InBands, InSpans, Banded;
    forall x, y | top <= y < bottom && InSpans(part, x)
      ensures Combine(op, InBands(bs, x, y), InBands(cs, x, y))
    {
      RowInBand(bs, i, x, y);
      RowInBand(cs, j, x, y);
    }
  }

  /** Part of the points of some bands. */
  ghost predicate PartBands(part: seq<Band>, c: seq<Band>) {
    forall x, y :: InBands(part, x, y) ==> InBands(c, x, y)
  }

  /** The first bands, and the first spans of the next one. */
  lemma PrefixBands(c: seq<Band>, k: nat, spans: seq<Span>)
    requires k < |c| && spans <= c[k].spans
    ensures PartBands(c[..k] + [Band(c[k].top, c[k].bottom, spans)], c)
  {
    var part := c[..k] + [Band(c[k].top, c[k].bottom, spans)];
    forall x, y | InBands(part, x, y)
      ensures InBands(c, x, y)
    {
      var m :| 0 <= m < |part| && part[m].Has(x, y);
      if m == k {
        var i :| 0 <= i < |spans| && spans[i].Has(x);
        assert c[k].spans[i].Has(x);
      }
      assert c[m].Has(x, y);
    }
  }

  lemma PartialBands(out: seq<Band>, part: seq<Band>, c: seq<Band>, bs: seq<Band>, cs: seq<Band>, op: Op)
    requires c != [] && Fits(out, c[0]) && PartBands(part, c) && forall x, y :: RowDone(Flush(out, c), bs, cs, op, x, y)
    ensures Partial(Flatten(out) + Flatten(part), bs, cs, op)
  {
    hide InBands, Covered, Flatten, Flush, Banded;
    forall x, y | Covered(Flatten(out) + Flatten(part), x, y)
      ensures Combine(op, InBands(bs, x, y), InBands(cs, x, y))
    {
      CoveredConcat(Flatten(out), Flatten(part), x, y);
      FlattenCovers(out, x, y);
      FlattenCovers(part, x, y);
      FlushPoints(out, c, x, y);
      assert RowDone(Flush(out, c), bs, cs, op, x, y);
    }
  }

  lemma WholeBands(c: seq<Band>)
    ensures PartBands(c, c)
  {
  }

  /** The left-over bands come after the bands of the result. */
  lemma ClipFits(out: seq<Band>, bs: seq<Band>, cs: seq<Band>, op: Op, ds: seq<Band>, i: nat, y: int)
    requires DoneTo(out, bs, cs, op, y) && At(ds, i, y) && i < |ds|
    ensures Clip(ds, i, y) != [] && Fits(out, Clip(ds, i, y)[0])
  {
    ClipBanded(ds, i, y);
  }
}
