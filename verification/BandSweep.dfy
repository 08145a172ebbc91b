/** Canonical form of band lists, and what the sweep over the bands of two regions keeps. */
module BandSweep {
  import opened Spans
  import opened RowSweep
  import opened Bands

  // ----- rows of a band list -----

  lemma RowInBand(bs: seq<Band>, k: nat, x: int, y: int)
    requires Banded(bs) && k < |bs| && bs[k].top <= y < bs[k].bottom
    ensures InBands(bs, x, y) <==> InSpans(bs[k].spans, x)
  {
  }

  lemma RowInGap(bs: seq<Band>, k: nat, x: int, y: int)
    requires Banded(bs) && k <= |bs|
    requires k > 0 ==> bs[k - 1].bottom <= y
    requires k < |bs| ==> y < bs[k].top
    ensures !InBands(bs, x, y)
  {
  }

  // ----- canonical form is unique -----

  ghost predicate SameRows(bs: seq<Band>, cs: seq<Band>) {
    forall x, y :: InBands(bs, x, y) <==> InBands(cs, x, y)
  }

  /** Coalesced band lists with the same points are equal. */
  lemma {:induction false} BandsUnique(bs: seq<Band>, cs: seq<Band>)
    requires Banded(bs) && Coalesced(bs) && Banded(cs) && Coalesced(cs)
    requires SameRows(bs, cs)
    ensures bs == cs
    decreases |bs|
  {
    if bs == [] {
      if cs != [] {
        SameTop(cs, bs);
      }
    } else {
      SameFirstBand(bs, cs);
      forall x, y
        ensures InBands(bs[1..], x, y) <==> InBands(cs[1..], x, y)
      {
        RestOfBands(bs, x, y);
        RestOfBands(cs, x, y);
      }
      TailCoalesced(bs);
      TailCoalesced(cs);
      BandsUnique(bs[1..], cs[1..]);
      assert bs == [bs[0]] + bs[1..];
      assert cs == [cs[0]] + cs[1..];
    }
  }

  lemma TailCoalesced(bs: seq<Band>)
    requires bs != [] && Banded(bs) && Coalesced(bs)
    ensures Banded(bs[1..]) && Coalesced(bs[1..])
  {
  }

  lemma RestOfBands(bs: seq<Band>, x: int, y: int)
    requires bs != [] && Banded(bs)
    ensures InBands(bs[1..], x, y) <==> InBands(bs, x, y) && bs[0].bottom <= y
  {
  }

  lemma SameTop(bs: seq<Band>, cs: seq<Band>)
    requires bs != [] && Banded(bs) && Banded(cs) && SameRows(bs, cs)
    ensures cs != [] && cs[0].top <= bs[0].top
  {
    var x, y := bs[0].spans[0].left, bs[0].top;
    RowFromFirst(cs, x, y);
  }

  lemma RowFromFirst(bs: seq<Band>, x: int, y: int)
    requires Banded(bs)
    ensures InBands(bs, x, y) ==> bs != [] && bs[0].top <= y
  {
  }

  lemma RowAfterFirst(bs: seq<Band>, x: int)
    requires Banded(bs) && bs != []
    ensures InBands(bs, x, bs[0].bottom) ==> |bs| > 1 && bs[1].top == bs[0].bottom
  {
  }

  lemma SameFirstBand(bs: seq<Band>, cs: seq<Band>)
    requires bs != [] && Banded(bs) && Coalesced(bs) && Banded(cs) && Coalesced(cs)
    requires SameRows(bs, cs)
    ensures cs != [] && bs[0] == cs[0]
  {
    SameTop(bs, cs);
    SameTop(cs, bs);
    var y := bs[0].top;
    forall x
      ensures InSpans(bs[0].spans, x) <==> InSpans(cs[0].spans, x)
    {
      RowInBand(bs, 0, x, y);
      RowInBand(cs, 0, x, y);
    }
    SpansUnique(bs[0].spans, cs[0].spans);
    FirstNotShorter(bs, cs);
    FirstNotShorter(cs, bs);
  }

  /** A first band that ended early would have to be followed by a touching band with the same spans. */
  lemma FirstNotShorter(bs: seq<Band>, cs: seq<Band>)
    requires bs != [] && cs != [] && Banded(bs) && Coalesced(bs) && Banded(cs)
    requires SameRows(bs, cs) && bs[0].top == cs[0].top && bs[0].spans == cs[0].spans
    ensures bs[0].bottom >= cs[0].bottom
  {
    var y := bs[0].bottom;
    if y < cs[0].bottom {
      RowAfterFirst(bs, cs[0].spans[0].left);
      forall x
        ensures InSpans(bs[1].spans, x) <==> InSpans(cs[0].spans, x)
      {
        RowInBand(bs, 1, x, y);
        RowInBand(cs, 0, x, y);
      }
      SpansUnique(bs[1].spans, cs[0].spans);
    }
  }

  /** A canonical rectangle array is fixed by the points it covers. */
  lemma CanonicalUnique(rs: seq<Rect>, qs: seq<Rect>)
    requires Canonical(rs) && Canonical(qs) && SamePoints(rs, qs)
    ensures rs == qs
  {
    var bs :| Banded(bs) && Coalesced(bs) && rs == Flatten(bs);
    var cs :| Banded(cs) && Coalesced(cs) && qs == Flatten(cs);
    forall x, y
      ensures InBands(bs, x, y) <==> InBands(cs, x, y)
    {
      FlattenCovers(bs, x, y);
      FlattenCovers(cs, x, y);
      assert Covered(rs, x, y) <==> Covered(qs, x, y);
    }
    BandsUnique(bs, cs);
  }

  // ----- adding a band to the result -----

  function LastBand(bs: seq<Band>): Band
    requires bs != []
  {
    bs[|bs| - 1]
  }

  /** Adds a band, merging it with the one before when they touch and have the same spans. */
  function Push(bs: seq<Band>, b: Band): (r: seq<Band>)
    ensures r != [] && LastBand(r).bottom == b.bottom && LastBand(r).spans == b.spans
  {
    if bs != [] && Mergeable(LastBand(bs), b) then
      bs[..|bs| - 1] + [LastBand(bs).(bottom := b.bottom)]
    else
      bs + [b]
  }

  predicate Fits(bs: seq<Band>, b: Band) {
    Banded(bs) && b.Good() && (bs != [] ==> LastBand(bs).bottom <= b.top)
  }

  lemma PushBanded(bs: seq<Band>, b: Band)
    requires Fits(bs, b)
    ensures Banded(Push(bs, b))
  {
  }

  lemma PushPoints(bs: seq<Band>, b: Band, x: int, y: int)
    requires Fits(bs, b)
    ensures InBands(Push(bs, b), x, y) <==> InBands(bs, x, y) || b.Has(x, y)
  {
    if bs != [] && Mergeable(LastBand(bs), b) {
      var init := bs[..|bs| - 1];
      assert bs == init + [LastBand(bs)];
      InBandsSnoc(init, LastBand(bs), x, y);
      InBandsSnoc(init, LastBand(bs).(bottom := b.bottom), x, y);
    } else {
      InBandsSnoc(bs, b, x, y);
    }
  }

  // ----- the sweep -----

  ghost predicate RowDone(out: seq<Band>, bs: seq<Band>, cs: seq<Band>, op: Op, x: int, y: int) {
    InBands(out, x, y) <==> Combine(op, InBands(bs, x, y), InBands(cs, x, y))
  }

  /** `out` is the result for every row above `h`, and has nothing below. */
  ghost predicate DoneTo(out: seq<Band>, bs: seq<Band>, cs: seq<Band>, op: Op, h: int) {
    && Banded(out)
    && (out != [] ==> LastBand(out).bottom <= h)
    && (forall x, y :: y < h ==> RowDone(out, bs, cs, op, x, y))
  }

  /** Neither operand has a point in the rows from `lo` up to `hi`. */
  ghost predicate BlankRows(bs: seq<Band>, cs: seq<Band>, lo: int, hi: int) {
    forall x, y :: lo <= y < hi ==> !InBands(bs, x, y) && !InBands(cs, x, y)
  }

  lemma NothingBelow(out: seq<Band>, x: int, y: int)
    requires Banded(out) && (out != [] ==> LastBand(out).bottom <= y)
    ensures !InBands(out, x, y)
  {
  }

  lemma SkipBlank(out: seq<Band>, bs: seq<Band>, cs: seq<Band>, op: Op, h: int, h': int)
    requires DoneTo(out, bs, cs, op, h) && h <= h' && BlankRows(bs, cs, h, h')
    ensures DoneTo(out, bs, cs, op, h')
  {
  }

  /** The rows from `top` up to `bottom` of the result are the columns `spans`. */
  ghost predicate RowsAre(bs: seq<Band>, cs: seq<Band>, op: Op, top: int, bottom: int, spans: seq<Span>) {
    forall x, y :: top <= y < bottom ==> (InSpans(spans, x) <==> Combine(op, InBands(bs, x, y), InBands(cs, x, y)))
  }

  /** What a callback followed by `coalesce_region` does to the bands of the result. */
  function Emit(out: seq<Band>, top: int, bottom: int, spans: seq<Span>): seq<Band> {
    if spans == [] then out else Push(out, Band(top, bottom, spans))
  }

  lemma EmitDone(out: seq<Band>, bs: seq<Band>, cs: seq<Band>, op: Op, top: int, bottom: int, spans: seq<Span>)
    requires DoneTo(out, bs, cs, op, top) && top < bottom && GapOrdered(spans)
    requires RowsAre(bs, cs, op, top, bottom, spans)
    ensures DoneTo(Emit(out, top, bottom, spans), bs, cs, op, bottom)
  {
    if spans == [] {
      forall x, y | y < bottom
        ensures RowDone(out, bs, cs, op, x, y)
      {
        if y >= top {
          NothingBelow(out, x, y);
          assert !InSpans(spans, x);
        }
      }
    } else {
      var b := Band(top, bottom, spans);
      PushBanded(out, b);
      forall x, y | y < bottom
        ensures RowDone(Push(out, b), bs, cs, op, x, y)
      {
        PushPoints(out, b, x, y);
        if y < top {
          assert RowDone(out, bs, cs, op, x, y);
        } else {
          NothingBelow(out, x, y);
        }
      }
    }
  }

  lemma EmitCoalesced(out: seq<Band>, top: int, bottom: int, spans: seq<Span>)
    ensures Coalesced(out) ==> Coalesced(Emit(out, top, bottom, spans))
  {
  }

  // ----- the result array when coalesce_region is called -----

  /** The bands before the last one, and the last one; an empty band stands for no band at all. */
  function Before(bs: seq<Band>): seq<Rect> {
    if bs == [] then [] else Flatten(bs[..|bs| - 1])
  }

  function LastOrNone(bs: seq<Band>): Band {
    if bs == [] then Band(0, 0, []) else LastBand(bs)
  }

  /** The index at which the last band of the array starts. */
  function LastStart(bs: seq<Band>): nat {
    |Before(bs)|
  }

  lemma LastBandAt(bs: seq<Band>)
    ensures Flatten(bs) == Before(bs) + RectsOf(LastOrNone(bs))
    ensures LastStart(bs) + |LastOrNone(bs).spans| == |Flatten(bs)|
  {
  }

  /** What `coalesce_region` makes of the last old band and the first new one. */
  function MergedRects(p: Band, c: Band): seq<Rect> {
    if Mergeable(p, c) then RectsOf(p.(bottom := c.bottom)) else RectsOf(p) + RectsOf(c)
  }

  lemma {:induction false} PushRects(bs: seq<Band>, c: Band)
    requires c.spans != []
    ensures Flatten(Push(bs, c)) == Before(bs) + MergedRects(LastOrNone(bs), c)
    ensures LastStart(Push(bs, c)) ==
            if Mergeable(LastOrNone(bs), c) then LastStart(bs) else |Flatten(bs)|
  {
    LastBandAt(bs);
    if bs != [] && Mergeable(LastBand(bs), c) {
      var init := bs[..|bs| - 1];
      var wide := LastBand(bs).(bottom := c.bottom);
      FlattenSnoc(init, wide);
      assert (init + [wide])[..|init|] == init;
    } else {
      FlattenSnoc(bs, c);
      assert (bs + [c])[..|bs|] == bs;
    }
  }
}
