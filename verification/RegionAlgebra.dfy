/** The region operations that the rest of the server calls. */
module RegionAlgebra {
  import opened Allocations
  import opened Spans
  import opened RowSweep
  import opened Bands
  import opened BandSweep
  import opened SweepSteps
  import opened Extents
  import opened Regions

  /** `rs` has exactly the points that the operation selects from `a` and `b`. */
  ghost predicate PointsAre(rs: seq<Rect>, op: Op, a: seq<Rect>, b: seq<Rect>) {
    forall x, y :: Covered(rs, x, y) <==> Combine(op, Covered(a, x, y), Covered(b, x, y))
  }

  /** `rs` has no other points than the operation selects from `a` and `b`; some may be missing. */
  ghost predicate PointsIn(rs: seq<Rect>, op: Op, a: seq<Rect>, b: seq<Rect>) {
    forall x, y :: Covered(rs, x, y) ==> Combine(op, Covered(a, x, y), Covered(b, x, y))
  }

  /** The bands of an array; they are coalesced if the array is canonical. */
  lemma ChooseBands(rs: seq<Rect>) returns (bs: seq<Band>)
    requires YXBanded(rs)
    ensures Banded(bs) && rs == Flatten(bs) && (Canonical(rs) ==> Coalesced(bs))
    ensures rs != [] ==> bs != [] && bs[0].top == rs[0].top
  {
    hide Banded, Coalesced, Flatten;
    if Canonical(rs) {
      bs :| Banded(bs) && Coalesced(bs) && rs == Flatten(bs);
    } else {
      bs := SplitIntoBands(rs);
    }
    FirstTop(bs);
  }

  // ----- bands that could be one -----

  /** Of the bands of the array that end below row `y`, none could be one with the band that follows it. */
  ghost predicate CanonicalFrom(rs: seq<Rect>, y: int) {
    exists bs :: Banded(bs) && rs == Flatten(bs) && CoalescedFrom(bs, y)
  }

  /** The same of the others. */
  ghost predicate CanonicalTo(rs: seq<Rect>, y: int) {
    exists bs :: Banded(bs) && rs == Flatten(bs) && CoalescedTo(bs, y)
  }

  /** These are about the bands of the array, which it has only one list of. */
  lemma BandsOf(rs: seq<Rect>, bs: seq<Band>, y: int)
    requires Banded(bs) && rs == Flatten(bs)
    ensures Canonical(rs) <==> Coalesced(bs)
    ensures CanonicalFrom(rs, y) <==> CoalescedFrom(bs, y)
    ensures CanonicalTo(rs, y) <==> CoalescedTo(bs, y)
  {
    hide Banded, Flatten, Coalesced, CoalescedFrom, CoalescedTo;
    forall cs | Banded(cs) && rs == Flatten(cs)
      ensures cs == bs
    {
      FlattenUnique(bs, cs);
    }
  }

  lemma FromAndTo(rs: seq<Rect>, y: int, z: int)
    requires YXBanded(rs)
    ensures Canonical(rs) ==> CanonicalFrom(rs, y) && CanonicalTo(rs, y)
    ensures CanonicalTo(rs, z) && y <= z ==> (CanonicalFrom(rs, y) <==> Canonical(rs))
  {
    var bs := ChooseBands(rs);
    BandsOf(rs, bs, y);
    BandsOf(rs, bs, z);
  }

  /** Nothing of a region is below its extents. */
  lemma NoneBelow(e: Rect, rs: seq<Rect>, y: int)
    requires YXBanded(rs) && Tight(e, rs) && (rs == [] || e.bottom <= y)
    ensures CanonicalFrom(rs, y)
  {
    hide Flatten, Tight, YXBanded;
    var bs := ChooseBands(rs);
    BandsOf(rs, bs, y);
    EmptyFlatten(bs);
    if bs != [] {
      BandBottom(e, rs, bs);
      forall k | 0 <= k < |bs|
        ensures bs[k].bottom <= y
      {
        BottomLast(bs, k);
      }
    }
  }

  /** The bottom of a tight box is the bottom of the last band. */
  lemma BandBottom(e: Rect, rs: seq<Rect>, bs: seq<Band>)
    requires Banded(bs) && rs == Flatten(bs) && bs != [] && Tight(e, rs)
    ensures e.bottom == Bottom(bs)
  {
    hide Banded, Flatten, Tight, YXBanded;
    FlattenYXBanded(bs);
    LastRect(bs);
    TightBottom(e, rs);
  }

  lemma TightBottom(e: Rect, rs: seq<Rect>)
    requires YXBanded(rs) && rs != [] && Tight(e, rs)
    ensures e.bottom == rs[|rs| - 1].bottom
  {
    TopAndBottom(rs);
    var r := rs[|rs| - 1];
    assert r.Has(r.left, r.bottom - 1) && Covered(rs, r.left, r.bottom - 1);
    var x :| Covered(rs, x, e.bottom - 1);
    var i :| 0 <= i < |rs| && rs[i].Has(x, e.bottom - 1);
    assert rs[i].bottom <= r.bottom;
  }

  lemma LastRect(bs: seq<Band>)
    requires Banded(bs) && bs != []
    ensures Flatten(bs) != [] && Flatten(bs)[|Flatten(bs)| - 1].bottom == Bottom(bs)
  {
    assert bs[|bs| - 1].Good();
  }

  lemma {:induction false} FirstTop(bs: seq<Band>)
    requires Banded(bs)
    ensures Flatten(bs) != [] ==> bs != [] && bs[0].top == Flatten(bs)[0].top
  {
    if bs != [] {
      StartEnds(bs);
      BandEdges(bs, 0);
    }
  }

  /** The top of a tight box is the top of the first rectangle. */
  lemma TightTop(e: Rect, rs: seq<Rect>)
    requires YXBanded(rs) && rs != [] && Tight(e, rs)
    ensures e.top == rs[0].top
  {
    TopAndBottom(rs);
    assert rs[0].Has(rs[0].left, rs[0].top) && Covered(rs, rs[0].left, rs[0].top);
    var x :| Covered(rs, x, e.top);
    var i :| 0 <= i < |rs| && rs[i].Has(x, e.top);
    assert rs[0].top <= rs[i].top;
  }

  /** The rows of each operand below the other one are kept as they are. */
  ghost predicate SweepCanonical(op: Op, a: seq<Rect>, e: Rect, b: seq<Rect>, f: Rect) {
    (KeepsFirst(op) ==> CanonicalFrom(a, f.bottom)) && (KeepsSecond(op) ==> CanonicalFrom(b, e.bottom))
  }

  lemma SweepBands(op: Op, a: seq<Rect>, e: Rect, bs: seq<Band>, b: seq<Rect>, f: Rect, cs: seq<Band>, out: seq<Band>)
    requires Banded(bs) && a == Flatten(bs) && bs != [] && Tight(e, a)
    requires Banded(cs) && b == Flatten(cs) && cs != [] && Tight(f, b) && Banded(out)
    requires (Coalesced(out) <==> RestCoalesced(op, bs, cs)) && CoalescedTo(out, Min(Bottom(bs), Bottom(cs)))
    ensures Canonical(Flatten(out)) <==> SweepCanonical(op, a, e, b, f)
    ensures CanonicalTo(Flatten(out), Min(e.bottom, f.bottom))
  {
    hide Flatten, Banded, Tight, Canonical, CanonicalFrom, CanonicalTo, Coalesced, CoalescedTo, CoalescedFrom, Bottom;
    BandBottom(e, a, bs);
    BandBottom(f, b, cs);
    BandsOf(a, bs, f.bottom);
    BandsOf(b, cs, e.bottom);
    BandsOf(Flatten(out), out, Min(e.bottom, f.bottom));
  }

  /** `region_op` on two non-empty regions, in terms of their points. */
  method ApplyOp(dst: Region, src1: Region, src2: Region, op: Op) returns (ok: bool)
    requires dst.HasRoom() && src1.Valid() && src2.Valid() && src1.rects != [] && src2.rects != []
    modifies dst`rects, dst`size, dst.heap
    ensures dst.heap.Served(old(dst.heap.asked), ok) && dst.HasRoom()
    ensures ok ==> YXBanded(dst.rects) && PointsAre(dst.rects, op, old(src1.rects), old(src2.rects))
    ensures ok ==> (Canonical(dst.rects) <==> SweepCanonical(op, old(src1.rects), src1.extents, old(src2.rects), src2.extents))
    ensures ok ==> CanonicalTo(dst.rects, Min(src1.extents.bottom, src2.extents.bottom))
    ensures !ok ==> dst.rects == old(dst.rects) || PointsIn(dst.rects, op, old(src1.rects), old(src2.rects))
  {
    hide Flatten, Covered, Tight, Partial, PointsIn, Canonical, CanonicalTo, SweepCanonical, Coalesced, CoalescedTo, RestCoalesced;
    ghost var a, b := src1.rects, src2.rects;
    ghost var bs := ChooseBands(a);
    ghost var cs := ChooseBands(b);
    TightTop(src1.extents, a);
    TightTop(src2.extents, b);
    ghost var out: seq<Band>;
    ok, out := Region.RegionOp(dst, src1, src2, op, bs, cs);
    if ok {
      FlattenYXBanded(out);
      OutPoints(out, bs, cs, op);
      SweepBands(op, a, src1.extents, bs, b, src2.extents, cs, out);
    } else if dst.rects != old(dst.rects) {
      PartPoints(dst.rects, bs, cs, op);
    }
  }

  lemma PartPoints(rs: seq<Rect>, bs: seq<Band>, cs: seq<Band>, op: Op)
    requires Partial(rs, bs, cs, op)
    ensures PointsIn(rs, op, Flatten(bs), Flatten(cs))
  {
    forall x, y | Covered(rs, x, y)
      ensures Combine(op, Covered(Flatten(bs), x, y), Covered(Flatten(cs), x, y))
    {
      FlattenCovers(bs, x, y);
      FlattenCovers(cs, x, y);
    }
  }

  lemma OutPoints(out: seq<Band>, bs: seq<Band>, cs: seq<Band>, op: Op)
    requires forall x, y :: RowDone(out, bs, cs, op, x, y)
    ensures PointsAre(Flatten(out), op, Flatten(bs), Flatten(cs))
  {
    forall x, y
      ensures Covered(Flatten(out), x, y) <==> Combine(op, Covered(Flatten(bs), x, y), Covered(Flatten(cs), x, y))
    {
      FlattenCovers(out, x, y);
      FlattenCovers(bs, x, y);
      FlattenCovers(cs, x, y);
      assert RowDone(out, bs, cs, op, x, y);
    }
  }

  /** Makes a copy of a region. */
  method CopyRegion(dst: Region, src: Region) returns (ok: bool)
    requires dst.HasRoom() && src.HasRoom()
    modifies dst, dst.heap
    ensures dst.heap.Served(old(dst.heap.asked), ok) && dst.HasRoom()
    ensures dst.heap.asked == old(dst.heap.asked) + (if dst == src || old(dst.size >= |src.rects|) then 0 else 1)
    ensures dst == src || old(dst.size >= |src.rects|) ==> ok
    ensures ok ==> dst.rects == old(src.rects) && dst.extents == old(src.extents)
    ensures !ok ==> dst.rects == old(dst.rects) && dst.extents == old(dst.extents)
  {
    if dst == src {
      return true;
    }
    if dst.size < |src.rects| {
      ok := dst.heap.Allocate();
      if !ok {
        return;
      }
      dst.size := |src.rects|;
    }
    dst.extents := src.extents;
    dst.rects := src.rects;
    ok := true;
  }

  lemma EmptyCanonical()
    ensures YXBanded([]) && Canonical([]) && Tight(EMPTY_RECT, []) && forall x, y :: !Covered([], x, y)
  {
    assert Flatten([]) == [];
    assert Banded([]) && Coalesced([]);
  }

  /** Regions whose extents do not overlap, or one of which is empty, have no common point. */
  lemma ExtentsApart(e: Rect, rs: seq<Rect>, f: Rect, qs: seq<Rect>, x: int, y: int)
    requires Tight(e, rs) && Tight(f, qs) && (rs == [] || qs == [] || !e.Overlaps(f))
    ensures !(Covered(rs, x, y) && Covered(qs, x, y))
  {
  }

  /** The regions are not empty and their extents overlap. */
  predicate Sweeps(a: seq<Rect>, e: Rect, b: seq<Rect>, f: Rect) {
    a != [] && b != [] && e.Overlaps(f)
  }

  /** Computes the intersection of two regions into `dst`, which can be one of them. */
  method IntersectRegion(dst: Region, src1: Region, src2: Region) returns (ok: bool)
    requires dst.HasRoom() && src1.Valid() && src2.Valid()
    modifies dst, dst.heap
    ensures dst.heap.Served(old(dst.heap.asked), ok) && dst.HasRoom()
    ensures !Sweeps(old(src1.rects), old(src1.extents), old(src2.rects), old(src2.extents)) ==> ok && dst.heap.asked == old(dst.heap.asked)
    ensures ok ==> dst.Valid() && Canonical(dst.rects)
    ensures ok ==> PointsAre(dst.rects, Intersect, old(src1.rects), old(src2.rects))
    ensures !ok ==> dst.extents == old(dst.extents)
    ensures !ok ==> dst.rects == old(dst.rects) || PointsIn(dst.rects, Intersect, old(src1.rects), old(src2.rects))
  {
    hide Canonical, CanonicalFrom, CanonicalTo, YXBanded, Covered, Tight;
    ghost var a, b := src1.rects, src2.rects;
    if |src1.rects| == 0 || |src2.rects| == 0 || !src1.extents.Overlaps(src2.extents) {
      forall x, y
        ensures !(Covered(a, x, y) && Covered(b, x, y))
      {
        ExtentsApart(src1.extents, a, src2.extents, b, x, y);
      }
      EmptyCanonical();
      dst.rects := [];
      dst.extents := Rect(0, 0, 0, 0);
      return true;
    }
    ok := ApplyOp(dst, src1, src2, Intersect);
    if ok {
      dst.SetRegionExtents();
    }
  }

  /** When the difference is canonical: what is below the second region is kept as it is, as is a region that the other
      does not touch. */
  ghost predicate SubtractCanonical(a: seq<Rect>, e: Rect, b: seq<Rect>, f: Rect) {
    if Sweeps(a, e, b, f) then CanonicalFrom(a, f.bottom) else Canonical(a)
  }

  lemma SubtractRows(a: seq<Rect>, e: Rect, b: seq<Rect>, f: Rect)
    requires YXBanded(a) && Tight(e, a) && a != []
    ensures SweepCanonical(Subtract, a, e, b, f) <==> CanonicalFrom(a, f.bottom)
    ensures Canonical(a) ==> CanonicalFrom(a, f.bottom)
    ensures e.bottom <= f.bottom ==> CanonicalFrom(a, f.bottom)
  {
    hide CanonicalFrom, Canonical, YXBanded, Tight;
    FromAndTo(a, f.bottom, f.bottom);
    if e.bottom <= f.bottom {
      NoneBelow(e, a, f.bottom);
    }
  }

  /** Computes the subtraction of two regions into `dst`, which can be one of them. */
  method SubtractRegion(dst: Region, src1: Region, src2: Region) returns (ok: bool)
    requires dst.HasRoom() && src1.Valid() && src2.Valid()
    modifies dst, dst.heap
    ensures dst.heap.Served(old(dst.heap.asked), ok) && dst.HasRoom()
    ensures !Sweeps(old(src1.rects), old(src1.extents), old(src2.rects), old(src2.extents)) ==>
              dst == src1 || old(dst.size >= |src1.rects|) ==> ok
    ensures ok ==> dst.Valid() && (Canonical(old(src1.rects)) ==> Canonical(dst.rects))
    ensures ok ==> (Canonical(dst.rects) <==>
                    SubtractCanonical(old(src1.rects), old(src1.extents), old(src2.rects), old(src2.extents)))
    ensures ok && Sweeps(old(src1.rects), old(src1.extents), old(src2.rects), old(src2.extents)) ==>
              CanonicalTo(dst.rects, old(src2.extents.bottom))
    ensures ok && !Sweeps(old(src1.rects), old(src1.extents), old(src2.rects), old(src2.extents)) ==>
              dst.rects == old(src1.rects) && dst.extents == old(src1.extents)
    ensures ok ==> PointsAre(dst.rects, Subtract, old(src1.rects), old(src2.rects))
    ensures !ok ==> dst.extents == old(dst.extents)
    ensures !ok ==> dst.rects == old(dst.rects) || PointsIn(dst.rects, Subtract, old(src1.rects), old(src2.rects))
  {
    hide Canonical, CanonicalFrom, CanonicalTo, SweepCanonical, YXBanded, Covered, Tight;
    ghost var a, b := src1.rects, src2.rects;
    if |src1.rects| == 0 || |src2.rects| == 0 || !src1.extents.Overlaps(src2.extents) {
      forall x, y
        ensures !(Covered(a, x, y) && Covered(b, x, y))
      {
        ExtentsApart(src1.extents, a, src2.extents, b, x, y);
      }
      ok := CopyRegion(dst, src1);
      return;
    }
    SubtractRows(a, src1.extents, b, src2.extents);
    ghost var e, f := src1.extents, src2.extents;
    ok := ApplyOp(dst, src1, src2, Subtract);
    if ok {
      FromAndTo(dst.rects, f.bottom, f.bottom);
      dst.SetRegionExtents();
    }
  }

  predicate BoxInside(f: Rect, e: Rect) {
    e.left <= f.left && e.top <= f.top && e.right >= f.right && e.bottom >= f.bottom
  }

  /** A region that is one rectangle covers every region inside its extents. */
  lemma OneRectCovers(e: Rect, rs: seq<Rect>, f: Rect, qs: seq<Rect>, x: int, y: int)
    requires |rs| == 1 && YXBanded(rs) && Tight(e, rs) && Tight(f, qs) && qs != [] && BoxInside(f, e)
    requires Covered(qs, x, y)
    ensures Covered(rs, x, y)
  {
  }

  /** When the union is canonical: what is of one region below the other one is kept as it is, and so is a region if
      the other one is empty. */
  ghost predicate UnionCanonical(a: seq<Rect>, e: Rect, b: seq<Rect>, f: Rect) {
    if a == [] then Canonical(b)
    else if b == [] then Canonical(a)
    else || (|a| == 1 && BoxInside(f, e)) || (|b| == 1 && BoxInside(e, f))
         || (CanonicalFrom(a, f.bottom) && CanonicalFrom(b, e.bottom))
  }

  lemma OneRectCanonical(rs: seq<Rect>)
    requires YXBanded(rs) && |rs| == 1
    ensures Canonical(rs)
  {
    hide Flatten;
    var bs := ChooseBands(rs);
    BandsCount(bs);
    BandsOf(rs, bs, 0);
  }

  /** There are no more bands than rectangles. */
  lemma {:induction false} BandsCount(bs: seq<Band>)
    requires Banded(bs)
    ensures |bs| <= |Flatten(bs)|
    decreases |bs|
  {
    if bs != [] {
      assert bs[|bs| - 1].Good();
      BandsCount(bs[..|bs| - 1]);
    }
  }

  lemma UnionRows(a: seq<Rect>, e: Rect, b: seq<Rect>, f: Rect)
    requires YXBanded(a) && YXBanded(b)
    ensures SweepCanonical(Union, a, e, b, f) <==> CanonicalFrom(a, f.bottom) && CanonicalFrom(b, e.bottom)
    ensures Canonical(a) ==> CanonicalFrom(a, f.bottom)
    ensures Canonical(b) ==> CanonicalFrom(b, e.bottom)
  {
    hide CanonicalFrom, Canonical, YXBanded;
    FromAndTo(a, f.bottom, f.bottom);
    FromAndTo(b, e.bottom, e.bottom);
  }

  /** The union is a copy of `src`: the other region is the same or empty, or `src` is a rectangle around it. */
  predicate UnionCopies(src: Region, other: Region)
    reads src, other
  {
    src == other || other.rects == [] || (|src.rects| == 1 && BoxInside(other.extents, src.extents))
  }

  /** Where the second region is empty or inside the only rectangle of the first one, the union is the first one. */
  lemma UnionIsFirst(a: seq<Rect>, e: Rect, b: seq<Rect>, f: Rect)
    requires YXBanded(a) && Tight(e, a) && Tight(f, b) && (b == [] || (|a| == 1 && BoxInside(f, e)))
    ensures PointsAre(a, Union, a, b) && PointsAre(a, Union, b, a)
    ensures UnionCanonical(a, e, b, f) <==> Canonical(a)
    ensures UnionCanonical(b, f, a, e) <==> Canonical(a)
  {
    hide Canonical, CanonicalFrom, YXBanded, Tight;
    EmptyCanonical();
    if |a| == 1 {
      OneRectCanonical(a);
    }
    forall x, y | Covered(b, x, y)
      ensures Covered(a, x, y)
    {
      OneRectCovers(e, a, f, b, x, y);
    }
  }

  lemma UnionOfSame(a: seq<Rect>)
    ensures PointsAre(a, Union, a, a)
  {
  }

  /** What the sweep makes is canonical as `UnionCanonical` says. */
  lemma UnionSwept(a: seq<Rect>, e: Rect, b: seq<Rect>, f: Rect)
    requires YXBanded(a) && YXBanded(b) && a != [] && b != []
    requires !(|a| == 1 && BoxInside(f, e)) && !(|b| == 1 && BoxInside(e, f))
    ensures UnionCanonical(a, e, b, f) <==> SweepCanonical(Union, a, e, b, f)
    ensures Canonical(a) && Canonical(b) ==> UnionCanonical(a, e, b, f)
  {
    hide Canonical, CanonicalFrom, YXBanded, SweepCanonical;
    UnionRows(a, e, b, f);
  }

  /** Computes the union of two regions into `dst`, which can be one of them. */
  method UnionRegion(dst: Region, src1: Region, src2: Region) returns (ok: bool)
    requires dst.HasRoom() && src1.Valid() && src2.Valid()
    modifies dst, dst.heap
    ensures dst.heap.Served(old(dst.heap.asked), ok) && dst.HasRoom()
    ensures old(UnionCopies(src1, src2)) && (dst == src1 || old(dst.size >= |src1.rects|)) ==> ok
    ensures old(!UnionCopies(src1, src2) && UnionCopies(src2, src1)) && (dst == src2 || old(dst.size >= |src2.rects|)) ==> ok
    ensures ok ==> dst.Valid()
    ensures ok && Canonical(old(src1.rects)) && Canonical(old(src2.rects)) ==> Canonical(dst.rects)
    ensures ok ==> (Canonical(dst.rects) <==>
                    if src1 == src2 then Canonical(old(src1.rects))
                    else UnionCanonical(old(src1.rects), old(src1.extents), old(src2.rects), old(src2.extents)))
    ensures ok ==> PointsAre(dst.rects, Union, old(src1.rects), old(src2.rects))
    ensures !ok ==> dst.extents == old(dst.extents)
    ensures !ok ==> dst.rects == old(dst.rects) || PointsIn(dst.rects, Union, old(src1.rects), old(src2.rects))
  {
    hide Allocator.Served, Canonical, CanonicalFrom, CanonicalTo, SweepCanonical, YXBanded, Covered, Tight, PointsAre, PointsIn,
         UnionCanonical, BoxInside;
    ghost var a, b := src1.rects, src2.rects;
    ghost var e, f := src1.extents, src2.extents;
    if src1 == src2 {
      UnionOfSame(a);
      ok := CopyRegion(dst, src1);
      return;
    }
    if |src1.rects| == 0 {
      UnionIsFirst(b, f, a, e);
      ok := CopyRegion(dst, src2);
      return;
    }
    if |src2.rects| == 0 {
      UnionIsFirst(a, e, b, f);
      ok := CopyRegion(dst, src1);
      return;
    }
    if |src1.rects| == 1 && BoxInside(src2.extents, src1.extents) {
      UnionIsFirst(a, e, b, f);
      OneRectCanonical(a);
      ok := CopyRegion(dst, src1);
      return;
    }
    if |src2.rects| == 1 && BoxInside(src1.extents, src2.extents) {
      UnionIsFirst(b, f, a, e);
      OneRectCanonical(b);
      ok := CopyRegion(dst, src2);
      return;
    }
    UnionSwept(a, e, b, f);
    ok := ApplyOp(dst, src1, src2, Union);
    if !ok {
      return;
    }
    UnionBox(e, a, f, b, dst.rects);
    dst.extents := dst.extents.(left := Min(src1.extents.left, src2.extents.left));
    dst.extents := dst.extents.(top := Min(src1.extents.top, src2.extents.top));
    dst.extents := dst.extents.(right := Max(src1.extents.right, src2.extents.right));
    dst.extents := dst.extents.(bottom := Max(src1.extents.bottom, src2.extents.bottom));
  }

  lemma UnionBox(e: Rect, a: seq<Rect>, f: Rect, b: seq<Rect>, us: seq<Rect>)
    requires YXBanded(a) && YXBanded(us) && a != [] && b != [] && Tight(e, a) && Tight(f, b)
    requires PointsAre(us, Union, a, b)
    ensures Tight(Rect(Min(e.left, f.left), Min(e.top, f.top), Max(e.right, f.right), Max(e.bottom, f.bottom)), us)
  {
    BandedEmpty(a);
    BandedEmpty(us);
    TightUnion(e, a, f, b, us);
  }

  /** When the exclusive or is canonical: as for the union. */
  ghost predicate XorCanonical(a: seq<Rect>, e: Rect, b: seq<Rect>, f: Rect) {
    if a == [] then Canonical(b)
    else if b == [] then Canonical(a)
    else CanonicalFrom(a, f.bottom) && CanonicalFrom(b, e.bottom)
  }

  /** A part of a region is no lower than the region. */
  lemma PartBottom(e: Rect, rs: seq<Rect>, f: Rect, qs: seq<Rect>)
    requires Tight(e, rs) && rs != [] && Tight(f, qs) && qs != []
    requires forall x, y :: Covered(qs, x, y) ==> Covered(rs, x, y)
    ensures f.bottom <= e.bottom
  {
    var x :| Covered(qs, x, f.bottom - 1);
    assert e.Has(x, f.bottom - 1);
  }

  /** Two regions without a common point are not inside each other's box. */
  lemma NotInside(e: Rect, rs: seq<Rect>, f: Rect, qs: seq<Rect>)
    requires YXBanded(rs) && Tight(e, rs) && Tight(f, qs) && qs != [] && forall x, y :: !(Covered(rs, x, y) && Covered(qs, x, y))
    ensures !(|rs| == 1 && BoxInside(f, e))
  {
    if |rs| == 1 && BoxInside(f, e) {
      var x :| Covered(qs, x, f.top);
      OneRectCovers(e, rs, f, qs, x, f.top);
    }
  }

  /** The boxes of two regions that are not empty do not overlap. */
  lemma BoxesApart(e: Rect, rs: seq<Rect>, f: Rect, qs: seq<Rect>)
    requires Tight(e, rs) && Tight(f, qs) && rs != [] && qs != [] && !e.Overlaps(f)
    ensures !BoxInside(e, f) && !BoxInside(f, e)
  {
    var x :| Covered(rs, x, e.top);
    var z :| Covered(qs, z, f.top);
    assert e.Has(x, e.top) && f.Has(z, f.top);
  }

  /** The two differences `p` and `q` of which the exclusive or is the union. */
  lemma XorRows(a: seq<Rect>, e: Rect, b: seq<Rect>, f: Rect, p: seq<Rect>, pe: Rect, q: seq<Rect>, qe: Rect)
    requires YXBanded(a) && YXBanded(b) && YXBanded(p) && YXBanded(q)
    requires Tight(e, a) && Tight(f, b) && Tight(pe, p) && Tight(qe, q)
    requires PointsAre(p, Subtract, a, b) && PointsAre(q, Subtract, b, a)
    requires (Canonical(p) <==> SubtractCanonical(a, e, b, f)) && (Canonical(q) <==> SubtractCanonical(b, f, a, e))
    requires if Sweeps(a, e, b, f) then CanonicalTo(p, f.bottom) && CanonicalTo(q, e.bottom)
             else p == a && pe == e && q == b && qe == f
    ensures UnionCanonical(q, qe, p, pe) <==> XorCanonical(a, e, b, f)
  {
    hide Canonical, CanonicalFrom, CanonicalTo, YXBanded, Covered, Tight;
    EmptyCanonical();
    if !Sweeps(a, e, b, f) {
      if a != [] && b != [] {
        BoxesApart(e, a, f, b);
      }
    } else if q == [] {
      PartBottom(e, a, f, b);
      NoneBelow(f, b, e.bottom);
    } else if p == [] {
      PartBottom(f, b, e, a);
      NoneBelow(e, a, f.bottom);
    } else {
      NotInside(qe, q, pe, p);
      NotInside(pe, p, qe, q);
      PartBottom(f, b, qe, q);
      PartBottom(e, a, pe, p);
      FromAndTo(p, qe.bottom, f.bottom);
      FromAndTo(q, pe.bottom, e.bottom);
    }
  }

  /** Computes the exclusive or of two regions into `dst`, which can be one of them. */
  method XorRegion(dst: Region, src1: Region, src2: Region) returns (ok: bool)
    requires dst.HasRoom() && src1.Valid() && src2.Valid()
    modifies dst, dst.heap
    ensures dst.heap.Served(old(dst.heap.asked), ok) && dst.HasRoom()
    ensures ok ==> dst.Valid()
    ensures ok && Canonical(old(src1.rects)) && Canonical(old(src2.rects)) ==> Canonical(dst.rects)
    ensures ok ==> (Canonical(dst.rects) <==>
                    XorCanonical(old(src1.rects), old(src1.extents), old(src2.rects), old(src2.extents)))
    ensures ok ==> forall x, y :: Covered(dst.rects, x, y) <==>
                                  (Covered(old(src1.rects), x, y) <==> !Covered(old(src2.rects), x, y))
    ensures !ok ==> dst.rects == old(dst.rects) ||
                    forall x, y :: Covered(dst.rects, x, y) ==>
                                   (Covered(old(src1.rects), x, y) <==> !Covered(old(src2.rects), x, y))
  {
    hide Canonical, CanonicalFrom, CanonicalTo, SweepCanonical, YXBanded, Covered, Tight;
    ghost var a, e, b, f := src1.rects, src1.extents, src2.rects, src2.extents;
    ok := dst.heap.Allocate();
    if !ok {
      return;
    }
    ok := dst.heap.Allocate();
    if !ok {
      return;
    }
    var tmp := new Region(dst.heap);
    ok := SubtractRegion(tmp, src1, src2);
    if !ok {
      return;
    }
    ok := SubtractRegion(dst, src2, src1);
    if !ok {
      return;
    }
    XorRows(a, e, b, f, tmp.rects, tmp.extents, dst.rects, dst.extents);
    ok := UnionRegion(dst, dst, tmp);
  }

  /** Whether a point is inside the region. */
  method PointInRegion(region: Region, x: int, y: int) returns (inside: bool)
    requires YXBanded(region.rects)
    ensures inside <==> Covered(region.rects, x, y)
  {
    var i := 0;
    while i < |region.rects|
      invariant 0 <= i <= |region.rects|
      invariant forall k :: 0 <= k < i ==> !region.rects[k].Has(x, y)
    {
      var r := region.rects[i];
      if r.top > y {
        NotFurther(region.rects, i, x, y);
        return false;
      }
      if r.bottom > y {
        // now we are in the correct band
        if r.left > x {
          NotFurther(region.rects, i, x, y);
          return false;
        }
        if r.right > x {
          assert region.rects[i].Has(x, y);
          return true;
        }
      }
      i := i + 1;
    }
    return false;
  }

  /** Once a rectangle lies below the point, or right of it in the same band, so do all later ones. */
  lemma NotFurther(rs: seq<Rect>, i: nat, x: int, y: int)
    requires YXBanded(rs) && i < |rs| && (rs[i].top > y || (rs[i].bottom > y && rs[i].left > x))
    ensures forall k :: i <= k < |rs| ==> !rs[k].Has(x, y)
  {
    forall k | i <= k < |rs|
      ensures !rs[k].Has(x, y)
    {
      if i < k {
        InOrder(rs, i, k);
      }
    }
  }

  /** Whether a rectangle is (at least partially) inside the region. */
  method RectInRegion(region: Region, rect: Rect) returns (inside: bool)
    requires YXBanded(region.rects)
    ensures inside <==> exists i :: 0 <= i < |region.rects| && region.rects[i].Overlaps(rect)
    ensures !rect.IsEmpty() ==> (inside <==> exists x, y :: Covered(region.rects, x, y) && rect.Has(x, y))
  {
    var i := 0;
    MeetsRect(region.rects, rect);
    while i < |region.rects|
      invariant 0 <= i <= |region.rects|
      invariant forall k :: 0 <= k < i ==> !region.rects[k].Overlaps(rect)
    {
      var r := region.rects[i];
      if r.top >= rect.bottom {
        forall k | i <= k < |region.rects|
          ensures !region.rects[k].Overlaps(rect)
        {
          if i < k {
            InOrder(region.rects, i, k);
          }
        }
        return false;
      }
      if !(r.bottom <= rect.top || r.left >= rect.right || r.right <= rect.left) {
        assert region.rects[i].Overlaps(rect);
        return true;
      }
      i := i + 1;
    }
    return false;
  }

  /** A non-empty rectangle overlaps one of the rectangles exactly if it has a point of the region. */
  lemma MeetsRect(rs: seq<Rect>, rect: Rect)
    requires YXBanded(rs)
    ensures !rect.IsEmpty() ==>
              ((exists i :: 0 <= i < |rs| && rs[i].Overlaps(rect)) <==> exists x, y :: Covered(rs, x, y) && rect.Has(x, y))
  {
    if !rect.IsEmpty() {
      if i :| 0 <= i < |rs| && rs[i].Overlaps(rect) {
        var x, y := Max(rs[i].left, rect.left), Max(rs[i].top, rect.top);
        assert rs[i].Has(x, y) && rect.Has(x, y);
        assert Covered(rs, x, y);
      }
      if x, y :| Covered(rs, x, y) && rect.Has(x, y) {
        var i :| 0 <= i < |rs| && rs[i].Has(x, y);
        assert rs[i].Overlaps(rect);
      }
    }
  }
}
