/** Bounding boxes, and the order in which a banded array lists its rectangles. */
module Extents {
  import opened Spans
  import opened Bands

  const EMPTY_RECT := Rect(0, 0, 0, 0)

  ghost predicate HasColumn(rs: seq<Rect>, x: int) {
    exists y :: Covered(rs, x, y)
  }

  ghost predicate HasRow(rs: seq<Rect>, y: int) {
    exists x :: Covered(rs, x, y)
  }

  /** `e` holds all points of the region, and each of its sides touches one; it is all zero for no points. */
  ghost predicate Tight(e: Rect, rs: seq<Rect>) {
    if rs == [] then
      e == EMPTY_RECT
    else
      && (forall x, y :: Covered(rs, x, y) ==> e.Has(x, y))
      && HasColumn(rs, e.left) && HasColumn(rs, e.right - 1)
      && HasRow(rs, e.top) && HasRow(rs, e.bottom - 1)
  }

  /** The same, rectangle by rectangle. */
  ghost predicate Bounds(e: Rect, rs: seq<Rect>) {
    && (forall i :: 0 <= i < |rs| ==>
          e.left <= rs[i].left && rs[i].right <= e.right && e.top <= rs[i].top && rs[i].bottom <= e.bottom)
    && (exists i :: 0 <= i < |rs| && rs[i].left == e.left)
    && (exists i :: 0 <= i < |rs| && rs[i].right == e.right)
    && (exists i :: 0 <= i < |rs| && rs[i].top == e.top)
    && (exists i :: 0 <= i < |rs| && rs[i].bottom == e.bottom)
  }

  lemma BoundsTight(e: Rect, rs: seq<Rect>)
    requires Bounds(e, rs) && forall i :: 0 <= i < |rs| ==> !rs[i].IsEmpty()
    ensures Tight(e, rs)
  {
    var l :| 0 <= l < |rs| && rs[l].left == e.left;
    var r :| 0 <= r < |rs| && rs[r].right == e.right;
    var t :| 0 <= t < |rs| && rs[t].top == e.top;
    var b :| 0 <= b < |rs| && rs[b].bottom == e.bottom;
    assert rs[l].Has(e.left, rs[l].top) && Covered(rs, e.left, rs[l].top);
    assert rs[r].Has(e.right - 1, rs[r].top) && Covered(rs, e.right - 1, rs[r].top);
    assert rs[t].Has(rs[t].left, e.top) && Covered(rs, rs[t].left, e.top);
    assert rs[b].Has(rs[b].left, e.bottom - 1) && Covered(rs, rs[b].left, e.bottom - 1);
  }

  /** A banded array has no points only when it has no rectangles. */
  lemma BandedEmpty(rs: seq<Rect>)
    requires YXBanded(rs)
    ensures rs == [] <==> forall x, y :: !Covered(rs, x, y)
  {
    if rs != [] {
      assert rs[0].Has(rs[0].left, rs[0].top);
      assert Covered(rs, rs[0].left, rs[0].top);
    }
  }

  /** The box of a union is the smallest box around both boxes. */
  lemma TightUnion(e: Rect, rs: seq<Rect>, f: Rect, qs: seq<Rect>, us: seq<Rect>)
    requires rs != [] && qs != [] && us != [] && Tight(e, rs) && Tight(f, qs)
    requires forall x, y :: Covered(us, x, y) <==> Covered(rs, x, y) || Covered(qs, x, y)
    ensures Tight(Rect(Min(e.left, f.left), Min(e.top, f.top), Max(e.right, f.right), Max(e.bottom, f.bottom)), us)
  {
    hide Covered, HasColumn, HasRow;
    var g := Rect(Min(e.left, f.left), Min(e.top, f.top), Max(e.right, f.right), Max(e.bottom, f.bottom));
    Widen(rs, qs, us);
  }

  lemma Widen(rs: seq<Rect>, qs: seq<Rect>, us: seq<Rect>)
    requires forall x, y :: Covered(us, x, y) <==> Covered(rs, x, y) || Covered(qs, x, y)
    ensures forall x :: HasColumn(us, x) <==> HasColumn(rs, x) || HasColumn(qs, x)
    ensures forall y :: HasRow(us, y) <==> HasRow(rs, y) || HasRow(qs, y)
  {
  }

  /** Regions with the same points have the same box. */
  lemma TightUnique(e: Rect, rs: seq<Rect>, f: Rect, qs: seq<Rect>)
    requires Tight(e, rs) && Tight(f, qs) && YXBanded(rs) && YXBanded(qs) && SamePoints(rs, qs)
    ensures e == f
  {
    hide Covered, HasColumn, HasRow;
    BandedEmpty(rs);
    BandedEmpty(qs);
    if rs != [] {
      TightInside(e, rs, f, qs);
      TightInside(f, qs, e, rs);
    }
  }

  lemma TightInside(e: Rect, rs: seq<Rect>, f: Rect, qs: seq<Rect>)
    requires rs != [] && qs != [] && Tight(e, rs) && Tight(f, qs) && SamePoints(rs, qs)
    ensures f.left <= e.left && e.right <= f.right && f.top <= e.top && e.bottom <= f.bottom
  {
  }

  /** Later rectangles are further right in the same band, or in a later band. */
  lemma {:induction false} InOrder(rs: seq<Rect>, i: nat, j: nat)
    requires YXBanded(rs) && i < j < |rs|
    ensures MayFollow(rs[i], rs[j])
    decreases j
  {
    assert MayFollow(rs[j - 1], rs[j]);
    if i < j - 1 {
      InOrder(rs, i, j - 1);
    }
  }
}
