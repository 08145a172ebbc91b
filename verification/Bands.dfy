/** Rectangle arrays in y-x-banded form, seen as lists of bands. */
module Bands {
  import opened Spans

  datatype Rect = Rect(left: int, top: int, right: int, bottom: int) {
    predicate Has(x: int, y: int) {
      left <= x < right && top <= y < bottom
    }

    predicate IsEmpty() {
      left >= right || top >= bottom
    }

    /** The `EXTENTCHECK` test. */
    predicate Overlaps(r: Rect) {
      right > r.left && left < r.right && bottom > r.top && top < r.bottom
    }
  }

  /** The points a rectangle array stands for. */
  ghost predicate Covered(rs: seq<Rect>, x: int, y: int) {
    exists i :: 0 <= i < |rs| && rs[i].Has(x, y)
  }

  ghost predicate SamePoints(rs: seq<Rect>, qs: seq<Rect>) {
    forall x, y :: Covered(rs, x, y) <==> Covered(qs, x, y)
  }

  /** Rectangle `q` may come right after `r`: further right in the same band, or in a later band. */
  predicate MayFollow(r: Rect, q: Rect) {
    if r.top == q.top then r.bottom == q.bottom && r.right < q.left else r.bottom <= q.top
  }

  /** A properly y-x-banded array without empty rectangles. */
  ghost predicate YXBanded(rs: seq<Rect>) {
    && (forall i :: 0 <= i < |rs| ==> !rs[i].IsEmpty())
    && (forall i, j :: 0 <= i && j == i + 1 && j < |rs| ==> MayFollow(rs[i], rs[j]))
  }

  // ----- bands -----

  datatype Band = Band(top: int, bottom: int, spans: seq<Span>) {
    predicate Good() {
      top < bottom && spans != [] && GapOrdered(spans)
    }

    ghost predicate Has(x: int, y: int) {
      top <= y < bottom && InSpans(spans, x)
    }
  }

  predicate Banded(bs: seq<Band>) {
    && (forall k :: 0 <= k < |bs| ==> bs[k].Good())
    && (forall k, m :: 0 <= k < m < |bs| ==> bs[k].bottom <= bs[m].top)
  }

  /** Two bands that touch and have the same spans could be one band. */
  predicate Mergeable(b: Band, c: Band) {
    b.bottom == c.top && b.spans == c.spans
  }

  ghost predicate Coalesced(bs: seq<Band>) {
    forall k, m :: 0 <= k && m == k + 1 && m < |bs| ==> !Mergeable(bs[k], bs[m])
  }

  /** Of the bands that end below row `y`, none could be one with the band that follows it. */
  ghost predicate CoalescedFrom(bs: seq<Band>, y: int) {
    forall k, m :: 0 <= k && m == k + 1 && m < |bs| && bs[k].bottom > y ==> !Mergeable(bs[k], bs[m])
  }

  /** The same of the others. */
  ghost predicate CoalescedTo(bs: seq<Band>, y: int) {
    forall k, m :: 0 <= k && m == k + 1 && m < |bs| && bs[k].bottom <= y ==> !Mergeable(bs[k], bs[m])
  }

  ghost predicate InBands(bs: seq<Band>, x: int, y: int) {
    exists k :: 0 <= k < |bs| && bs[k].Has(x, y)
  }

  /** The rectangles of a row of spans between two y coordinates. */
  function RectsAt(spans: seq<Span>, top: int, bottom: int): (rs: seq<Rect>)
    ensures |rs| == |spans|
    ensures forall i :: 0 <= i < |rs| ==> rs[i] == Rect(spans[i].left, top, spans[i].right, bottom)
  {
    seq(|spans|, i requires 0 <= i < |spans| => Rect(spans[i].left, top, spans[i].right, bottom))
  }

  lemma RectsAtSnoc(spans: seq<Span>, p: Span, top: int, bottom: int)
    ensures RectsAt(spans + [p], top, bottom) == RectsAt(spans, top, bottom) + [Rect(p.left, top, p.right, bottom)]
  {
  }

  function RectsOf(b: Band): seq<Rect> {
    RectsAt(b.spans, b.top, b.bottom)
  }

  function Flatten(bs: seq<Band>): seq<Rect> {
    if bs == [] then [] else Flatten(bs[..|bs| - 1]) + RectsOf(bs[|bs| - 1])
  }

  /** The index in the array at which the `k`-th band starts. */
  function Start(bs: seq<Band>, k: nat): nat
    requires k <= |bs|
  {
    |Flatten(bs[..k])|
  }

  lemma FlattenSnoc(bs: seq<Band>, b: Band)
    ensures Flatten(bs + [b]) == Flatten(bs) + RectsOf(b)
  {
  }

  lemma {:induction false} FlattenConcat(bs: seq<Band>, cs: seq<Band>)
    ensures Flatten(bs + cs) == Flatten(bs) + Flatten(cs)
    decreases |cs|
  {
    if cs == [] {
      assert bs + cs == bs;
    } else {
      hide Flatten;
      var n := |cs| - 1;
      assert bs + cs == (bs + cs[..n]) + [cs[n]] && cs == cs[..n] + [cs[n]];
      FlattenSnoc(bs + cs[..n], cs[n]);
      FlattenSnoc(cs[..n], cs[n]);
      FlattenConcat(bs, cs[..n]);
    }
  }

  /** Where the `k`-th band sits in the array. */
  lemma BandAt(bs: seq<Band>, k: nat)
    requires k < |bs|
    ensures Start(bs, k + 1) == Start(bs, k) + |bs[k].spans| <= |Flatten(bs)|
    ensures Flatten(bs)[Start(bs, k)..Start(bs, k + 1)] == RectsOf(bs[k])
    ensures forall i :: 0 <= i < |bs[k].spans| ==> Flatten(bs)[Start(bs, k) + i] == RectsOf(bs[k])[i]
  {
    assert bs[..k + 1] == bs[..k] + [bs[k]];
    FlattenSnoc(bs[..k], bs[k]);
    assert bs == bs[..k + 1] + bs[k + 1..];
    FlattenConcat(bs[..k + 1], bs[k + 1..]);
    assert Flatten(bs) == Flatten(bs[..k]) + RectsOf(bs[k]) + Flatten(bs[k + 1..]);
  }

  lemma StartEnds(bs: seq<Band>)
    ensures Start(bs, 0) == 0 && Start(bs, |bs|) == |Flatten(bs)|
  {
    assert bs[..|bs|] == bs;
  }

  lemma StartInside(bs: seq<Band>, k: nat)
    requires k <= |bs| && forall b :: b in bs ==> b.spans != []
    ensures Start(bs, k) <= |Flatten(bs)|
    ensures k < |bs| <==> Start(bs, k) < |Flatten(bs)|
  {
    if k < |bs| {
      BandAt(bs, k);
    } else {
      StartEnds(bs);
    }
  }

  /** Every rectangle of the array belongs to one band. */
  lemma {:induction false} BandOfRect(bs: seq<Band>, i: nat) returns (k: nat, c: nat)
    requires i < |Flatten(bs)|
    ensures k < |bs| && c < |bs[k].spans| && i == Start(bs, k) + c
    ensures Flatten(bs)[i] == RectsOf(bs[k])[c]
    decreases |bs|
  {
    var n := |bs| - 1;
    if i < |Flatten(bs[..n])| {
      k, c := BandOfRect(bs[..n], i);
      assert bs[..n][..k] == bs[..k];
    } else {
      k, c := n, i - |Flatten(bs[..n])|;
    }
  }

  lemma FlattenCovers(bs: seq<Band>, x: int, y: int)
    ensures Covered(Flatten(bs), x, y) <==> InBands(bs, x, y)
  {
    if Covered(Flatten(bs), x, y) {
      CoveredInBands(bs, x, y);
    }
    if InBands(bs, x, y) {
      var k :| 0 <= k < |bs| && bs[k].Has(x, y);
      BandCovered(bs, k, x, y);
    }
  }

  lemma CoveredInBands(bs: seq<Band>, x: int, y: int)
    requires Covered(Flatten(bs), x, y)
    ensures InBands(bs, x, y)
  {
    var rs := Flatten(bs);
    var i :| 0 <= i < |rs| && rs[i].Has(x, y);
    var k, c := BandOfRect(bs, i);
    assert bs[k].spans[c].Has(x);
    assert bs[k].Has(x, y);
  }

  lemma BandCovered(bs: seq<Band>, k: nat, x: int, y: int)
    requires k < |bs| && bs[k].Has(x, y)
    ensures Covered(Flatten(bs), x, y)
  {
    var c :| 0 <= c < |bs[k].spans| && bs[k].spans[c].Has(x);
    BandAt(bs, k);
    assert Flatten(bs)[Start(bs, k) + c].Has(x, y);
  }

  lemma InBandsSnoc(bs: seq<Band>, b: Band, x: int, y: int)
    ensures InBands(bs + [b], x, y) <==> InBands(bs, x, y) || b.Has(x, y)
  {
    var cs := bs + [b];
    if InBands(bs, x, y) {
      var k :| 0 <= k < |bs| && bs[k].Has(x, y);
      assert cs[k].Has(x, y);
    }
    if b.Has(x, y) {
      assert cs[|bs|].Has(x, y);
    }
  }

  // ----- the banded arrays are the flattenings of band lists -----

  lemma {:induction false} FlattenYXBanded(bs: seq<Band>)
    requires Banded(bs)
    ensures YXBanded(Flatten(bs))
    ensures bs != [] ==> Flatten(bs) != [] && Flatten(bs)[|Flatten(bs)| - 1].top == bs[|bs| - 1].top
                                           && Flatten(bs)[|Flatten(bs)| - 1].bottom == bs[|bs| - 1].bottom
    decreases |bs|
  {
    if bs != [] {
      var n := |bs| - 1;
      FlattenYXBanded(bs[..n]);
      var rs := Flatten(bs[..n]);
      var b := bs[n];
      forall i, j | 0 <= i && j == i + 1 && j < |Flatten(bs)|
        ensures MayFollow(Flatten(bs)[i], Flatten(bs)[j])
      {
        if j < |rs| {
          assert MayFollow(rs[i], rs[j]);
        } else if j == |rs| {
          assert bs[n - 1].bottom <= b.top;
        } else {
          assert b.spans[i - |rs|].right < b.spans[j - |rs|].left;
        }
      }
    }
  }

  function AddToBands(bs: seq<Band>, r: Rect): seq<Band> {
    var m := |bs| - 1;
    if bs != [] && bs[m].top == r.top then
      bs[..m] + [bs[m].(spans := bs[m].spans + [Span(r.left, r.right)])]
    else
      bs + [Band(r.top, r.bottom, [Span(r.left, r.right)])]
  }

  /** `bs` are the bands of the array `rs`. */
  ghost predicate Splits(bs: seq<Band>, rs: seq<Rect>) {
    && Banded(bs)
    && Flatten(bs) == rs
    && (rs != [] ==> bs != [] && LastBandOf(bs, rs[|rs| - 1]))
  }

  lemma {:induction false} SplitsExtend(bs: seq<Band>, rs: seq<Rect>, r: Rect) returns (bs': seq<Band>)
    requires Splits(bs, rs) && !r.IsEmpty()
    requires rs != [] ==> MayFollow(rs[|rs| - 1], r)
    ensures Splits(bs', rs + [r])
  {
    if bs != [] {
      BandAt(bs, 0);
    }
    ExtendBands(bs, r);
    ExtendBanded(bs, r);
    bs' := AddToBands(bs, r);
  }

  /** Every banded array is the flattening of a list of bands. */
  lemma {:induction false} SplitIntoBands(rs: seq<Rect>) returns (bs: seq<Band>)
    requires YXBanded(rs)
    ensures Splits(bs, rs)
    decreases |rs|
  {
    if rs == [] {
      bs := [];
    } else {
      var n := |rs| - 1;
      PrefixBanded(rs, n);
      bs := SplitIntoBands(rs[..n]);
      assert n > 0 ==> MayFollow(rs[n - 1], rs[n]);
      bs := SplitsExtend(bs, rs[..n], rs[n]);
      assert rs == rs[..n] + [rs[n]];
    }
  }

  lemma PrefixBanded(rs: seq<Rect>, n: nat)
    requires YXBanded(rs) && n <= |rs|
    ensures YXBanded(rs[..n])
  {
  }

  /** The last band is the one that rectangle `r` ends. */
  predicate LastBandOf(bs: seq<Band>, r: Rect)
    requires bs != []
  {
    var b := bs[|bs| - 1];
    b.top == r.top && b.bottom == r.bottom && b.spans != [] && b.spans[|b.spans| - 1] == Span(r.left, r.right)
  }

  function LastRect(b: Band): Rect
    requires b.spans != []
  {
    var p := b.spans[|b.spans| - 1];
    Rect(p.left, b.top, p.right, b.bottom)
  }

  lemma {:induction false} ExtendBands(bs: seq<Band>, r: Rect)
    requires bs != [] ==> bs[|bs| - 1].spans != [] && MayFollow(LastRect(bs[|bs| - 1]), r)
    ensures AddToBands(bs, r) != [] && LastBandOf(AddToBands(bs, r), r)
    ensures Flatten(AddToBands(bs, r)) == Flatten(bs) + [r]
  {
    var m := |bs| - 1;
    var p := Span(r.left, r.right);
    if bs != [] && bs[m].top == r.top {
      var extended := bs[m].(spans := bs[m].spans + [p]);
      FlattenSnoc(bs[..m], extended);
      assert RectsOf(extended) == RectsOf(bs[m]) + [r];
    } else {
      FlattenSnoc(bs, Band(r.top, r.bottom, [p]));
      assert RectsOf(Band(r.top, r.bottom, [p])) == [r];
    }
  }

  lemma ExtendBanded(bs: seq<Band>, r: Rect)
    requires Banded(bs) && !r.IsEmpty()
    requires bs != [] ==> MayFollow(LastRect(bs[|bs| - 1]), r)
    ensures Banded(AddToBands(bs, r))
  {
    hide GapOrdered;
    var m := |bs| - 1;
    var p := Span(r.left, r.right);
    if bs != [] {
      assert bs[m].Good();
      assert forall k :: 0 <= k < m ==> bs[k].bottom <= bs[m].top;
      if bs[m].top == r.top {
        GapSnoc(bs[m].spans, p);
      }
    }
    OneSpan(p);
  }

  lemma GapSnoc(spans: seq<Span>, p: Span)
    requires GapOrdered(spans) && spans != [] && spans[|spans| - 1].right < p.left < p.right
    ensures GapOrdered(spans + [p])
  {
  }

  lemma OneSpan(p: Span)
    requires p.left < p.right
    ensures GapOrdered([p])
  {
  }

  /** Canonical form: banded, and no two touching bands have the same spans. */
  ghost predicate Canonical(rs: seq<Rect>) {
    exists bs :: Banded(bs) && Coalesced(bs) && rs == Flatten(bs)
  }
}
