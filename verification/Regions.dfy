/** Server-side regions: growable arrays of rectangles with cached extents. */
module Regions {
  import opened Allocations
  import opened Spans
  import opened RowSweep
  import opened Bands
  import opened BandSweep
  import opened SweepSteps
  import opened Extents

  const RGN_DEFAULT_RECTS := 2

  /** The spans of the rectangles from `lo` up to `hi`, which are in one band. */
  function Row(a: seq<Rect>, lo: nat, hi: nat): (s: seq<Span>)
    requires lo <= hi <= |a|
    ensures |s| == hi - lo
    ensures forall i :: 0 <= i < |s| ==> s[i] == Span(a[lo + i].left, a[lo + i].right)
  {
    seq(hi - lo, i requires 0 <= i < hi - lo => Span(a[lo + i].left, a[lo + i].right))
  }

  predicate IsRow(a: seq<Rect>, lo: nat, hi: nat) {
    lo < hi <= |a| && GapOrdered(Row(a, lo, hi))
  }

  /** The rectangles from `lo` up to `hi` are band `b`. */
  predicate IsBand(a: seq<Rect>, lo: nat, hi: nat, b: Band) {
    && IsRow(a, lo, hi) && Row(a, lo, hi) == b.spans
    && a[lo].top == b.top && a[lo].bottom == b.bottom
  }

  class Region {
    const heap: Allocator
    var size: int          // rectangles that the buffer has room for
    var rects: seq<Rect>   // rectangles in use
    var extents: Rect

    predicate HasRoom()
      reads this
    {
      2 <= size && |rects| <= size
    }

    /** A region between two operations: banded, with the tight bounding box as its extents. */
    ghost predicate Valid()
      reads this
    {
      HasRoom() && YXBanded(rects) && Tight(extents, rects)
    }

    /** An empty region. */
    constructor (heap: Allocator)
      ensures Valid() && rects == [] && this.heap == heap
    {
      this.heap := heap;
      size := RGN_DEFAULT_RECTS;
      rects := [];
      extents := EMPTY_RECT;
    }

    /** Recalculates the extents of a region. */
    method SetRegionExtents()
      requires YXBanded(rects)
      modifies this`extents
      ensures Tight(extents, rects)
    {
      if |rects| == 0 {
        extents := Rect(0, 0, 0, 0);
        return;
      }
      var first, last := rects[0], rects[|rects| - 1];
      extents := Rect(first.left, first.top, last.right, last.bottom);
      var i := 0;
      while i < |rects|
        invariant 0 <= i <= |rects| && extents.top == first.top && extents.bottom == last.bottom
        invariant extents.left <= first.left && last.right <= extents.right
        invariant forall k :: 0 <= k < i ==> extents.left <= rects[k].left && rects[k].right <= extents.right
        invariant exists k :: 0 <= k < |rects| && rects[k].left == extents.left
        invariant exists k :: 0 <= k < |rects| && rects[k].right == extents.right
      {
        if rects[i].left < extents.left {
          extents := extents.(left := rects[i].left);
        }
        if rects[i].right > extents.right {
          extents := extents.(right := rects[i].right);
        }
        i := i + 1;
      }
      TopAndBottom(rects);
      BoundsTight(extents, rects);
    }

    /** Adds a rectangle, doubling the buffer when it is about to be full. */
    method AddRect(r: Rect) returns (ok: bool)
      requires HasRoom()
      modifies this`rects, this`size, heap
      ensures heap.asked == old(heap.asked) + (if old(|rects| >= size - 1) then 1 else 0)
      ensures heap.Served(old(heap.asked), ok) && HasRoom()
      ensures rects == if ok then old(rects) + [r] else old(rects)
    {
      if |rects| >= size - 1 {
        ok := heap.Allocate();
        if !ok {
          return;
        }
        size := size * 2;
      }
      rects := rects + [r];
      ok := true;
    }

    /** Adds a rectangle to the row that is being built. */
    method AddToRow(left: int, right: int, top: int, bottom: int, ghost before: seq<Rect>, ghost out: seq<Span>)
      returns (ok: bool)
      requires HasRoom() && rects == before + RectsAt(out, top, bottom)
      modifies this`rects, this`size, heap
      ensures heap.Served(old(heap.asked), ok) && HasRoom()
      ensures rects == before + RectsAt(if ok then out + [Span(left, right)] else out, top, bottom)
    {
      hide RectsAt;
      RectsAtSnoc(out, Span(left, right), top, bottom);
      ok := AddRect(Rect(left, top, right, bottom));
    }

    /** Adds the common part of two rectangles to the row, if there is one. */
    method AddCommon(p: Rect, q: Rect, top: int, bottom: int, ghost before: seq<Rect>, ghost out: seq<Span>)
      returns (ok: bool)
      requires HasRoom() && rects == before + RectsAt(out, top, bottom)
      modifies this`rects, this`size, heap
      ensures heap.Served(old(heap.asked), ok) && HasRoom()
      ensures rects == before +
                RectsAt(if ok then EmitMeet(out, Span(p.left, p.right), Span(q.left, q.right)) else out, top, bottom)
    {
      hide RectsAt;
      var left := Max(p.left, q.left);
      var right := Min(p.right, q.right);
      ok := true;
      if left < right {
        ok := AddToRow(left, right, top, bottom, before, out);
      }
    }

    method IntersectOverlapping(a: seq<Rect>, r1: nat, r1End: nat, b: seq<Rect>, r2: nat, r2End: nat,
                                top: int, bottom: int)
      returns (ok: bool, ghost out: seq<Span>)
      requires HasRoom() && IsRow(a, r1, r1End) && IsRow(b, r2, r2End)
      modifies this`rects, this`size, heap
      ensures heap.Served(old(heap.asked), ok) && HasRoom()
      ensures rects == old(rects) + RectsAt(out, top, bottom)
      ensures ok ==> RowResult(Intersect, out, Row(a, r1, r1End), Row(b, r2, r2End))
      ensures RowPart(Intersect, out, Row(a, r1, r1End), Row(b, r2, r2End))
    {
      hide IntersectRow, GapOrdered, InFrom, RowPart, RowResult, RectsAt, EmitMeet, Allocator.Granted;
      heap.NoneAsked(heap.asked);
      ghost var s, t := Row(a, r1, r1End), Row(b, r2, r2End);
      var p, q := r1, r2;
      ghost var i, j := 0, 0;
      out := [];
      IntersectRowStart(s, t);
      NoRectsAt(top, bottom);
      while p != r1End && q != r2End
        invariant heap.Served(old(heap.asked), true)
        invariant HasRoom() && p == r1 + i <= r1End && q == r2 + j <= r2End
        invariant IntersectRow(out, s, i, t, j)
        invariant rects == old(rects) + RectsAt(out, top, bottom)
        decreases r1End - p + r2End - q
      {
        ghost var mid := heap.asked;
        ok := AddCommon(a[p], b[q], top, bottom, old(rects), out);
        heap.GrantedMore(old(heap.asked), mid, heap.asked);
        if !ok {
          IntersectRowPart(out, s, i, t, j);
          return;
        }
        ghost var out' := EmitMeet(out, s[i], t[j]);
        if a[p].right < b[q].right {
          IntersectRowStep(out, s, i, t, j);
          p, i := p + 1, i + 1;
        } else if b[q].right < a[p].right {
          FlippedIntersectStep(out, s, i, t, j);
          q, j := q + 1, j + 1;
        } else {
          IntersectRowStepBoth(out, s, i, t, j);
          p, q, i, j := p + 1, q + 1, i + 1, j + 1;
        }
        out := out';
      }
      IntersectRowPart(out, s, i, t, j);
      IntersectRowEnd(out, s, i, t, j);
      ok := true;
    }

    method SubtractOverlapping(a: seq<Rect>, r1: nat, r1End: nat, b: seq<Rect>, r2: nat, r2End: nat,
                               top: int, bottom: int)
      returns (ok: bool, ghost out: seq<Span>)
      requires HasRoom() && IsRow(a, r1, r1End) && IsRow(b, r2, r2End)
      modifies this`rects, this`size, heap
      ensures heap.Served(old(heap.asked), ok) && HasRoom()
      ensures rects == old(rects) + RectsAt(out, top, bottom)
      ensures ok ==> RowResult(Subtract, out, Row(a, r1, r1End), Row(b, r2, r2End))
      ensures RowPart(Subtract, out, Row(a, r1, r1End), Row(b, r2, r2End))
    {
      assert r1 < r1End <= |a| && r2 < r2End <= |b|;
      hide SubtractRow, GapOrdered, InFrom, RowPart, RowResult, RectsAt, NextLeft, Row, Span.Has, Allocator.Granted, IsRow;
      heap.NoneAsked(heap.asked);
      ghost var s, t := Row(a, r1, r1End), Row(b, r2, r2End);
      var p: nat, q: nat := r1, r2;
      ghost var i: nat, j: nat := 0, 0;
      var left := a[p].left;
      out := [];
      SubtractRowStart(s, t);
      NoRectsAt(top, bottom);
      while p != r1End && q != r2End
        invariant heap.Served(old(heap.asked), true)
        invariant HasRoom() && p == r1 + i <= r1End && q == r2 + j <= r2End
        invariant SubtractRow(out, s, i, left, t, j)
        invariant rects == old(rects) + RectsAt(out, top, bottom)
        decreases r1End - p + r2End - q
      {
        NextEdge(a, r1, r1End, i, left);
        NextEdge(a, r1, r1End, i, b[q].right);
        ghost var mid := heap.asked;
        ok, p, q, left, out := SubtractStep(a, p, r1End, b, q, left, top, bottom, old(rects), out, s, i, t, j);
        heap.GrantedMore(old(heap.asked), mid, heap.asked);
        if !ok {
          return;
        }
        i, j := p - r1, q - r2;
      }
      ghost var mid := heap.asked;
      ok, out := SubtractRest(a, p, r1End, left, top, bottom, old(rects), out, s, i, t, j);
      heap.GrantedMore(old(heap.asked), mid, heap.asked);
    }

    /** One round of the loop: the current rectangle of one row is done with. */
    method SubtractStep(a: seq<Rect>, p: nat, r1End: nat, b: seq<Rect>, q: nat, left: int, top: int, bottom: int,
                        ghost before: seq<Rect>, ghost out: seq<Span>, ghost s: seq<Span>, ghost i: nat,
                        ghost t: seq<Span>, ghost j: nat)
      returns (ok: bool, p': nat, q': nat, left': int, ghost out': seq<Span>)
      requires HasRoom() && rects == before + RectsAt(out, top, bottom) && p < r1End <= |a| && q < |b|
      requires i < |s| && j < |t| && s[i] == Span(a[p].left, a[p].right) && t[j] == Span(b[q].left, b[q].right)
      requires NextLeft(s, i, left) == if p + 1 != r1End then a[p + 1].left else left
      requires NextLeft(s, i, b[q].right) == if p + 1 != r1End then a[p + 1].left else b[q].right
      requires SubtractRow(out, s, i, left, t, j)
      modifies this`rects, this`size, heap
      ensures heap.Served(old(heap.asked), ok) && HasRoom()
      ensures rects == before + RectsAt(out', top, bottom)
      ensures ok ==> || (p' == p + 1 && q' == q && SubtractRow(out', s, i + 1, left', t, j))
                     || (p' == p && q' == q + 1 && SubtractRow(out', s, i, left', t, j + 1))
      ensures !ok ==> RowPart(Subtract, out', s, t)
    {
      hide SubtractRow, GapOrdered, RowPart, RectsAt, NextLeft;
      ok, p', q', left', out' := true, p, q, left, out;
      if b[q].right <= left {
        SubtractSkip(out, s, i, left, t, j);
        q' := q + 1;
      } else if b[q].left <= left {
        SubtractCover(out, s, i, left, t, j);
        left' := b[q].right;
        if left' >= a[p].right {
          p' := p + 1;
          if p' != r1End {
            left' := a[p'].left;
          }
        } else {
          q' := q + 1;
        }
      } else if b[q].left < a[p].right {
        SubtractRowPart(out, s, i, left, t, j);
        SubtractBefore(out, s, i, left, t, j);
        ok := AddToRow(left, b[q].left, top, bottom, before, out);
        if !ok {
          return;
        }
        out' := out + [Span(left, b[q].left)];
        left' := b[q].right;
        if left' >= a[p].right {
          p' := p + 1;
          if p' != r1End {
            left' := a[p'].left;
          }
        } else {
          q' := q + 1;
        }
      } else {
        SubtractRowPart(out, s, i, left, t, j);
        SubtractWhole(out, s, i, left, t, j);
        if a[p].right > left {
          ok := AddToRow(left, a[p].right, top, bottom, before, out);
          if !ok {
            return;
          }
          out' := out + [Span(left, a[p].right)];
        }
        p' := p + 1;
        // the source reads the left edge even past the end of the row, and then does not use it
        if p' != r1End {
          left' := a[p'].left;
        }
      }
    }

    /** The rest of the row, once the subtracted row has ended. */
    method SubtractRest(a: seq<Rect>, p0: nat, r1End: nat, left0: int, top: int, bottom: int,
                        ghost before: seq<Rect>, ghost out0: seq<Span>, ghost s: seq<Span>, ghost i0: nat,
                        ghost t: seq<Span>, ghost j: nat)
      returns (ok: bool, ghost out: seq<Span>)
      requires HasRoom() && rects == before + RectsAt(out0, top, bottom)
      requires i0 <= p0 && p0 - i0 <= r1End <= |a| && s == Row(a, p0 - i0, r1End) && p0 <= r1End
      requires SubtractRow(out0, s, i0, left0, t, j) && (p0 == r1End || j == |t|)
      modifies this`rects, this`size, heap
      ensures heap.Served(old(heap.asked), ok) && HasRoom()
      ensures rects == before + RectsAt(out, top, bottom)
      ensures ok ==> RowResult(Subtract, out, s, t)
      ensures RowPart(Subtract, out, s, t)
    {
      hide SubtractRow, GapOrdered, InFrom, RowPart, RowResult, RectsAt, Allocator.Granted;
      heap.NoneAsked(heap.asked);
      var p, left := p0, left0;
      ghost var i := i0;
      out := out0;
      while p != r1End
        invariant heap.Served(old(heap.asked), true)
        invariant HasRoom() && p - i == p0 - i0 && p <= r1End && (p == r1End || j == |t|)
        invariant SubtractRow(out, s, i, left, t, j)
        invariant rects == before + RectsAt(out, top, bottom)
      {
        ghost var mid := heap.asked;
        ok := AddToRow(left, a[p].right, top, bottom, before, out);
        heap.GrantedMore(old(heap.asked), mid, heap.asked);
        if !ok {
          SubtractRowPart(out, s, i, left, t, j);
          return;
        }
        SubtractWhole(out, s, i, left, t, j);
        out := out + [Span(left, a[p].right)];
        p, i := p + 1, i + 1;
        if p != r1End {
          left := a[p].left;
        }
      }
      SubtractRowPart(out, s, i, left, t, j);
      SubtractRowEnd(out, s, i, left, t, j);
      ok := true;
    }

    /** The `MERGERECT` macro: widens the last rectangle of the row, or starts a new one. */
    method MergeRect(r: Rect, top: int, bottom: int, ghost before: seq<Rect>, ghost out: seq<Span>) returns (ok: bool)
      requires HasRoom() && top < bottom
      requires before != [] ==> before[|before| - 1].top != top
      requires rects == before + RectsAt(out, top, bottom)
      modifies this`rects, this`size, heap
      ensures heap.Served(old(heap.asked), ok) && HasRoom()
      ensures ok ==> rects == before + RectsAt(Absorb(out, Span(r.left, r.right)), top, bottom)
      ensures !ok ==> rects == old(rects)
    {
      hide RectsAt, Absorb, Allocator.Granted;
      var n := |rects| - 1;
      heap.NoneAsked(heap.asked);
      AbsorbRect(before, out, Span(r.left, r.right), top, bottom);
      if |rects| != 0 && rects[n].top == top && rects[n].bottom == bottom && rects[n].right >= r.left {
        if rects[n].right < r.right {
          rects := rects[n := rects[n].(right := r.right)];
        }
        ok := true;
      } else {
        ok := AddRect(Rect(r.left, top, r.right, bottom));
      }
    }

    method UnionOverlapping(a: seq<Rect>, r1: nat, r1End: nat, b: seq<Rect>, r2: nat, r2End: nat,
                            top: int, bottom: int)
      returns (ok: bool, ghost out: seq<Span>)
      requires HasRoom() && IsRow(a, r1, r1End) && IsRow(b, r2, r2End) && top < bottom
      requires rects != [] ==> rects[|rects| - 1].top != top
      modifies this`rects, this`size, heap
      ensures heap.Served(old(heap.asked), ok) && HasRoom()
      ensures rects == old(rects) + RectsAt(out, top, bottom)
      ensures ok ==> RowResult(Union, out, Row(a, r1, r1End), Row(b, r2, r2End))
      ensures RowPart(Union, out, Row(a, r1, r1End), Row(b, r2, r2End))
    {
      hide UnionRow, GapOrdered, InFrom, Absorb, RowPart, RowResult, Allocator.Granted;
      heap.NoneAsked(heap.asked);
      ghost var s, t := Row(a, r1, r1End), Row(b, r2, r2End);
      var p, q := r1, r2;
      ghost var i, j := 0, 0;
      out := [];
      UnionRowStart(s, t);
      while p != r1End && q != r2End
        invariant heap.Served(old(heap.asked), true)
        invariant HasRoom() && p == r1 + i <= r1End && q == r2 + j <= r2End
        invariant UnionRow(out, s, i, t, j)
        invariant rects == old(rects) + RectsAt(out, top, bottom)
        decreases r1End - p + r2End - q
      {
        if a[p].left < b[q].left {
          UnionRowStep(out, s, i, t, j);
          ghost var mid := heap.asked;
          ok := MergeRect(a[p], top, bottom, old(rects), out);
          heap.GrantedMore(old(heap.asked), mid, heap.asked);
          if !ok {
            UnionRowPart(out, s, i, t, j);
            return;
          }
          out, p, i := Absorb(out, s[i]), p + 1, i + 1;
        } else {
          FlippedUnionStep(out, s, i, t, j);
          ghost var mid := heap.asked;
          ok := MergeRect(b[q], top, bottom, old(rects), out);
          heap.GrantedMore(old(heap.asked), mid, heap.asked);
          if !ok {
            UnionRowPart(out, s, i, t, j);
            return;
          }
          out, q, j := Absorb(out, t[j]), q + 1, j + 1;
        }
      }
      while p != r1End
        invariant heap.Served(old(heap.asked), true)
        invariant HasRoom() && p == r1 + i <= r1End && q == r2 + j <= r2End
        invariant p == r1End || q == r2End
        invariant UnionRow(out, s, i, t, j)
        invariant rects == old(rects) + RectsAt(out, top, bottom)
      {
        UnionRowStep(out, s, i, t, j);
        ghost var mid := heap.asked;
        ok := MergeRect(a[p], top, bottom, old(rects), out);
        heap.GrantedMore(old(heap.asked), mid, heap.asked);
        if !ok {
          UnionRowPart(out, s, i, t, j);
          return;
        }
        out, p, i := Absorb(out, s[i]), p + 1, i + 1;
      }
      while q != r2End
        invariant heap.Served(old(heap.asked), true)
        invariant HasRoom() && p == r1 + i == r1End && q == r2 + j <= r2End
        invariant UnionRow(out, s, i, t, j)
        invariant rects == old(rects) + RectsAt(out, top, bottom)
      {
        FlippedUnionStep(out, s, i, t, j);
        ghost var mid := heap.asked;
        ok := MergeRect(b[q], top, bottom, old(rects), out);
        heap.GrantedMore(old(heap.asked), mid, heap.asked);
        if !ok {
          UnionRowPart(out, s, i, t, j);
          return;
        }
        out, q, j := Absorb(out, t[j]), q + 1, j + 1;
      }
      UnionRowPart(out, s, i, t, j);
      UnionRowEnd(out, s, i, t, j);
      ok := true;
    }

    /** The callback for a band that only one operand has: copies the row between two y coordinates. */
    method NonOverlapping(a: seq<Rect>, r: nat, rEnd: nat, top: int, bottom: int) returns (ok: bool, ghost end: nat)
      requires HasRoom() && r <= rEnd <= |a|
      modifies this`rects, this`size, heap
      ensures heap.Served(old(heap.asked), ok) && HasRoom() && r <= end <= rEnd && (ok ==> end == rEnd)
      ensures rects == old(rects) + RectsAt(Row(a, r, end), top, bottom)
    {
      hide RectsAt, Row, Allocator.Granted;
      var p := r;
      end := r;
      NoRectsAt(top, bottom);
      assert Row(a, r, r) == [];
      heap.NoneAsked(heap.asked);
      while p != rEnd
        invariant heap.Served(old(heap.asked), true)
        invariant HasRoom() && r <= p <= rEnd && end == p
        invariant rects == old(rects) + RectsAt(Row(a, r, p), top, bottom)
      {
        ghost var mid := heap.asked;
        ok := AddToRow(a[p].left, a[p].right, top, bottom, old(rects), Row(a, r, p));
        heap.GrantedMore(old(heap.asked), mid, heap.asked);
        if !ok {
          return;
        }
        RowSnoc(a, r, p);
        p, end := p + 1, p + 1;
      }
      ok := true;
    }

    // ----- coalescing -----

    /** Whether `count` rectangles from `prev` on have the same left and right edges as those from `cur` on. */
    method SameEdges(prev: nat, cur: nat, count: nat) returns (same: bool)
      requires prev + count <= |rects| && cur + count <= |rects|
      ensures same <==> Row(rects, prev, prev + count) == Row(rects, cur, cur + count)
    {
      ghost var s, t := Row(rects, prev, prev + count), Row(rects, cur, cur + count);
      var i := 0;
      while i != count
        invariant i <= count
        invariant forall k :: 0 <= k < i ==> s[k] == t[k]
      {
        if rects[prev + i].left != rects[cur + i].left || rects[prev + i].right != rects[cur + i].right {
          assert s[i] != t[i];
          return false;
        }
        i := i + 1;
      }
      return true;
    }

    /** Stretches the band at `prev` down to the bottom of the band at `cur`. */
    method StretchBand(prev: nat, cur: nat, count: nat)
      requires prev + count == cur && cur + count <= |rects|
      modifies this`rects
      ensures |rects| == old(|rects|)
      ensures forall i :: 0 <= i < |rects| && !(prev <= i < cur) ==> rects[i] == old(rects)[i]
      ensures forall i :: prev <= i < cur ==> rects[i] == old(rects)[i].(bottom := old(rects)[i + count].bottom)
    {
      var k := 0;
      while k != count
        invariant k <= count && |rects| == old(|rects|)
        invariant forall i :: 0 <= i < |rects| && !(prev <= i < prev + k) ==> rects[i] == old(rects)[i]
        invariant forall i :: prev <= i < prev + k ==> rects[i] == old(rects)[i].(bottom := old(rects)[i + count].bottom)
      {
        rects := rects[prev + k := rects[prev + k].(bottom := rects[cur + k].bottom)];
        k := k + 1;
      }
    }

    /** Moves the rectangles from `from` on down to `to`; the array then ends after them. */
    method ShiftDown(to: nat, from: nat)
      requires to <= from <= |rects|
      modifies this`rects
      ensures |rects| == old(|rects|) - (from - to)
      ensures forall i :: 0 <= i < to ==> rects[i] == old(rects)[i]
      ensures forall i :: to <= i < |rects| ==> rects[i] == old(rects)[i - to + from]
    {
      var prev, cur := to, from;
      while cur != |rects|
        invariant from <= cur <= |rects| == old(|rects|) && prev - to == cur - from
        invariant forall i :: 0 <= i < to ==> rects[i] == old(rects)[i]
        invariant forall i :: to <= i < prev ==> rects[i] == old(rects)[i - to + from]
        invariant forall i :: cur <= i < |rects| ==> rects[i] == old(rects)[i]
      {
        rects := rects[prev := rects[cur]];
        prev, cur := prev + 1, cur + 1;
      }
      rects := rects[..prev];
    }

    /** The second half of `coalesce_region`: the two bands become one. */
    method MergeBands(prevStart: nat, curStart: nat, curEnd: nat,
                      ghost before: seq<Rect>, ghost prev: Band, ghost cur: Band, ghost after: seq<Rect>)
      requires HasRoom() && Mergeable(prev, cur)
      requires rects == before + (RectsOf(prev) + RectsOf(cur)) + after
      requires prevStart == |before| && curStart == prevStart + |prev.spans| && curEnd == curStart + |cur.spans|
      modifies this`rects
      ensures HasRoom()
      ensures rects == before + RectsOf(prev.(bottom := cur.bottom)) + after
    {
      hide GapOrdered, RectsAt;
      Layout(before, prev, cur, after, rects);
      ghost var all := rects;
      assert forall i :: curStart <= i < curEnd ==> all[i].bottom == cur.bottom;
      StretchBand(prevStart, curStart, curEnd - curStart);
      ghost var mid := rects;
      ShiftDown(curStart, curEnd);
      forall i | prevStart <= i < curStart
        ensures rects[i] == RectsOf(prev)[i - prevStart].(bottom := cur.bottom)
      {
        assert rects[i] == mid[i] && all[i] == RectsOf(prev)[i - prevStart];
        assert all[i + (curEnd - curStart)].bottom == cur.bottom;
      }
      MergedLayout(before, prev, cur, after, rects);
    }

    /** The start of the last band of the array. */
    method StartOfLastBand(from: nat) returns (last: nat)
      requires 0 < from < |rects| && rects[from - 1].top != rects[from].top
      ensures from <= last < |rects|
    {
      last := |rects| - 1;
      while rects[last - 1].top == rects[last].top
        invariant from <= last < |rects|
        decreases last
      {
        last := last - 1;
      }
    }

    /** Merges the band at `curStart`, which may be followed by others, into the one at `prevStart` if possible. */
    method CoalesceRegion(prevStart: nat, curStart: nat,
                          ghost before: seq<Rect>, ghost prev: Band, ghost cur: Band, ghost after: seq<Rect>)
      returns (start: nat)
      requires HasRoom() && cur.spans != []
      requires rects == before + (RectsOf(prev) + RectsOf(cur)) + after
      requires prevStart == |before| && curStart == |before| + |prev.spans|
      requires forall i :: 0 <= i < |after| ==> after[i].top != cur.top
      modifies this`rects
      ensures HasRoom()
      ensures rects == before + MergedRects(prev, cur) + after
      ensures after == [] ==> start == if Mergeable(prev, cur) then prevStart else curStart
    {
      hide RectsAt, GapOrdered;
      var end := |rects|;
      ghost var all := rects;
      ghost var curEnd := curStart + |cur.spans|;
      Layout(before, prev, cur, after, all);
      var prevNum := curStart - prevStart;
      var bandTop := rects[curStart].top;
      var q := curStart;
      while q != end && rects[q].top == bandTop
        invariant curStart <= q <= curEnd <= end
      {
        q := q + 1;
      }
      var curNum := q - curStart;
      start := curStart;
      if q != end {
        start := StartOfLastBand(q);
      }
      if curNum == prevNum && curNum != 0 && rects[prevStart].bottom == rects[curStart].top {
        LayoutMergeable(before, prev, cur, after, all, curNum);
        var same := SameEdges(prevStart, curStart, curNum);
        if same {
          MergeBands(prevStart, curStart, q, before, prev, cur, after);
          if q == end {
            start := prevStart;
          }
        }
      }
    }

    // ----- the band sweep -----

    /** The array holds the bands `out`, the last of which starts at `prevBand`. */
    ghost predicate Holds(out: seq<Band>, prevBand: nat)
      reads this
    {
      HasRoom() && rects == Flatten(out) && prevBand == LastStart(out)
    }

    /** The end of the band that starts at index `r`. */
    static method BandEnd(a: seq<Rect>, r: nat, ghost bs: seq<Band>, ghost k: nat) returns (e: nat)
      requires a == Flatten(bs) && Banded(bs) && k < |bs| && r == Start(bs, k)
      ensures e == Start(bs, k + 1) <= |a| && IsBand(a, r, e, bs[k])
    {
      hide Flatten, Banded, GapOrdered;
      BandEdges(bs, k);
      ghost var end := Start(bs, k + 1);
      e := r;
      while e != |a| && a[e].top == a[r].top
        invariant r <= e <= end
      {
        e := e + 1;
      }
    }

    /** Coalesces the band that a callback has just added, if it added any rectangles. */
    method FinishBand(prevBand: nat, curBand: nat, ghost out: seq<Band>, ghost top: int, ghost bottom: int,
                      ghost spans: seq<Span>)
      returns (lastBand: nat)
      requires HasRoom() && rects == Flatten(out) + RectsAt(spans, top, bottom)
      requires prevBand == LastStart(out) && curBand == |Flatten(out)|
      modifies this`rects
      ensures Holds(Emit(out, top, bottom, spans), lastBand)
    {
      hide Flatten, LastStart, MergedRects, Mergeable, GapOrdered, Before, LastOrNone;
      lastBand := prevBand;
      if |rects| != curBand {
        ghost var b := Band(top, bottom, spans);
        LastBandAt(out);
        PushRects(out, b);
        assert rects == Before(out) + (RectsOf(LastOrNone(out)) + RectsOf(b)) + [];
        lastBand := CoalesceRegion(prevBand, curBand, Before(out), LastOrNone(out), b, []);
      }
    }

    /** The rows of the current bands above the first row that both have. */
    method SweepGap(a: seq<Rect>, r1: nat, r1End: nat, b: seq<Rect>, r2: nat, r2End: nat, op: Op,
                    ybot: int, prevBand: nat,
                    ghost out: seq<Band>, ghost bs: seq<Band>, ghost i: nat, ghost cs: seq<Band>, ghost j: nat)
      returns (ok: bool, ytop: int, lastBand: nat, ghost out': seq<Band>)
      requires Holds(out, prevBand) && DoneTo(out, bs, cs, op, ybot)
      requires At(bs, i, ybot) && At(cs, j, ybot) && i < |bs| && j < |cs|
      requires IsBand(a, r1, r1End, bs[i]) && IsBand(b, r2, r2End, cs[j])
      requires ybot <= bs[i].top || ybot <= cs[j].top
      modifies this`rects, this`size, heap
      ensures heap.Served(old(heap.asked), ok) && HasRoom()
      ensures ok ==> Holds(out', lastBand) && ytop == Max(bs[i].top, cs[j].top)
      ensures ok ==> DoneTo(out', bs, cs, op, Min(ytop, Min(bs[i].bottom, cs[j].bottom)))
      ensures ok && Coalesced(out) ==> Coalesced(out')
      ensures !ok ==> Partial(rects, bs, cs, op)
    {
      hide InBands, InSpans, RowDone, Coalesced, GapOrdered, DoneTo, Banded, Emit, Partial, RowsAre, RowsPart, Flatten,
        RectsAt;
      GapDone(out, bs, i, cs, j, op, ybot);
      var curBand := |rects|;
      var top, bot := 0, 0;
      out', lastBand, ytop := out, prevBand, ybot;
      if a[r1].top < b[r2].top {
        top := Max(a[r1].top, ybot);
        bot := Min(a[r1].bottom, b[r2].top);
        if top != bot && KeepsFirst(op) {
          ghost var end;
          ok, end := NonOverlapping(a, r1, r1End, top, bot);
          if !ok {
            OnlyFirst(bs, i, cs, j, op, ybot, top, bot);
            PrefixPart(bs, cs, op, top, bot, bs[i].spans, Row(a, r1, end));
            PartialRow(out, bs, cs, op, ybot, top, bot, Row(a, r1, end));
            return;
          }
        }
        ytop := b[r2].top;
      } else if b[r2].top < a[r1].top {
        top := Max(b[r2].top, ybot);
        bot := Min(b[r2].bottom, a[r1].top);
        if top != bot && KeepsSecond(op) {
          ghost var end;
          ok, end := NonOverlapping(b, r2, r2End, top, bot);
          if !ok {
            OnlySecond(bs, i, cs, j, op, ybot, top, bot);
            PrefixPart(bs, cs, op, top, bot, cs[j].spans, Row(b, r2, end));
            PartialRow(out, bs, cs, op, ybot, top, bot, Row(b, r2, end));
            return;
          }
        }
        ytop := a[r1].top;
      } else {
        ytop := a[r1].top;
        top, bot := ytop, ytop;
      }
      ok := true;
      ghost var spans := GapSpans(op, bs[i], cs[j], ybot);
      out' := Emit(out, top, bot, spans);
      lastBand := FinishBand(prevBand, curBand, out, top, bot, spans);
    }

    method Overlapping(op: Op, a: seq<Rect>, r1: nat, r1End: nat, b: seq<Rect>, r2: nat, r2End: nat,
                       top: int, bottom: int)
      returns (ok: bool, ghost spans: seq<Span>)
      requires HasRoom() && IsRow(a, r1, r1End) && IsRow(b, r2, r2End) && top < bottom
      requires rects != [] ==> rects[|rects| - 1].top != top
      modifies this`rects, this`size, heap
      ensures heap.Served(old(heap.asked), ok) && HasRoom()
      ensures rects == old(rects) + RectsAt(spans, top, bottom)
      ensures ok ==> RowResult(op, spans, Row(a, r1, r1End), Row(b, r2, r2End))
      ensures RowPart(op, spans, Row(a, r1, r1End), Row(b, r2, r2End))
    {
      match op {
        case Intersect => ok, spans := IntersectOverlapping(a, r1, r1End, b, r2, r2End, top, bottom);
        case Subtract => ok, spans := SubtractOverlapping(a, r1, r1End, b, r2, r2End, top, bottom);
        case Union => ok, spans := UnionOverlapping(a, r1, r1End, b, r2, r2End, top, bottom);
      }
    }

    /** The rows that both current bands have. */
    method SweepOverlap(a: seq<Rect>, r1: nat, r1End: nat, b: seq<Rect>, r2: nat, r2End: nat, op: Op,
                        ytop: int, ybot: int, prevBand: nat,
                        ghost out: seq<Band>, ghost bs: seq<Band>, ghost i: nat, ghost cs: seq<Band>, ghost j: nat)
      returns (ok: bool, lastBand: nat, ghost out': seq<Band>)
      requires Holds(out, prevBand) && DoneTo(out, bs, cs, op, Min(ytop, ybot))
      requires Banded(bs) && Banded(cs) && i < |bs| && j < |cs|
      requires IsBand(a, r1, r1End, bs[i]) && IsBand(b, r2, r2End, cs[j])
      requires ytop == Max(bs[i].top, cs[j].top) && ybot == Min(bs[i].bottom, cs[j].bottom)
      modifies this`rects, this`size, heap
      ensures heap.Served(old(heap.asked), ok) && HasRoom()
      ensures ok ==> Holds(out', lastBand) && DoneTo(out', bs, cs, op, ybot)
      ensures ok && Coalesced(out) ==> Coalesced(out')
      ensures !ok ==> Partial(rects, bs, cs, op)
    {
      hide InBands, InSpans, RowDone, Coalesced, GapOrdered, Banded, Emit, RowResult, Flatten, Partial, RowPart, RowsPart,
        RectsAt;
      ghost var spans: seq<Span> := [];
      var curBand := |rects|;
      out', lastBand, ok := out, prevBand, true;
      if ybot > ytop {
        LastTopDiffers(out, ytop);
        ok, spans := Overlapping(op, a, r1, r1End, b, r2, r2End, ytop, ybot);
        if !ok {
          OverlapPart(bs, i, cs, j, op, ytop, ybot, spans);
          PartialRow(out, bs, cs, op, ytop, ytop, ybot, spans);
          return;
        }
        OverlapDone(out, bs, i, cs, j, op, ytop, ybot, spans);
        out' := Emit(out, ytop, ybot, spans);
        lastBand := FinishBand(prevBand, curBand, out, ytop, ybot, spans);
      }
    }

    /** Copies the bands that are left of one operand, the first of them only from row `ybot` on. */
    method CopyBands(a: seq<Rect>, r: nat, ybot: int, ghost bs: seq<Band>, ghost i: nat)
      returns (ok: bool, ghost part: seq<Band>)
      requires HasRoom() && a == Flatten(bs) && At(bs, i, ybot) && i < |bs| && r == Start(bs, i)
      modifies this`rects, this`size, heap
      ensures heap.Served(old(heap.asked), ok) && HasRoom()
      ensures rects == old(rects) + Flatten(part) && PartBands(part, Clip(bs, i, ybot))
      ensures ok ==> part == Clip(bs, i, ybot)
    {
      hide Flatten, Clip, Row, GapOrdered, RectsAt, PartBands, InBands, Start, Banded, Allocator.Granted;
      heap.NoneAsked(heap.asked);
      ghost var c := Clip(bs, i, ybot);
      ClipBanded(bs, i, ybot);
      BandsFilled(bs);
      var q := r;
      ghost var k := i;
      StartInside(bs, k);
      assert c[..0] == [];
      NoRects();
      while q != |a|
        invariant heap.Served(old(heap.asked), true)
        invariant HasRoom() && i <= k <= |bs| && q == Start(bs, k) <= |a| && (k < |bs| <==> q < |a|)
        invariant rects == old(rects) + Flatten(c[..k - i])
        decreases |bs| - k
      {
        var e := BandEnd(a, q, bs, k);
        ghost var end;
        ghost var mid := heap.asked;
        ok, end := NonOverlapping(a, q, e, Max(a[q].top, ybot), a[q].bottom);
        heap.GrantedMore(old(heap.asked), mid, heap.asked);
        assert c[k - i] == Band(Max(a[q].top, ybot), a[q].bottom, Row(a, q, e));
        if !ok {
          ghost var last := Band(Max(a[q].top, ybot), a[q].bottom, Row(a, q, end));
          part := c[..k - i] + [last];
          RowPrefix(a, q, end, e);
          PrefixBands(c, k - i, Row(a, q, end));
          FlattenSnoc(c[..k - i], last);
          return;
        }
        assert c[..k + 1 - i] == c[..k - i] + [c[k - i]];
        FlattenSnoc(c[..k - i], c[k - i]);
        q, k := e, k + 1;
        StartInside(bs, k);
      }
      ok, part := true, c;
      assert c[..k - i] == c;
      WholeBands(c);
    }

    /** Adds the bands that are left of one operand, and coalesces the first of them. */
    method FlushBands(a: seq<Rect>, r: nat, ybot: int, prevBand: nat,
                      ghost out: seq<Band>, ghost bs: seq<Band>, ghost i: nat)
      returns (ok: bool, ghost part: seq<Band>)
      requires Holds(out, prevBand) && a == Flatten(bs) && At(bs, i, ybot) && i < |bs| && r == Start(bs, i)
      modifies this`rects, this`size, heap
      ensures heap.Served(old(heap.asked), ok) && HasRoom()
      ensures ok ==> rects == Flatten(Flush(out, Clip(bs, i, ybot)))
      ensures !ok ==> rects == Flatten(out) + Flatten(part) && PartBands(part, Clip(bs, i, ybot))
    {
      hide Flatten, Flush, Clip, RectsAt, MergedRects, PartBands;
      ghost var c := Clip(bs, i, ybot);
      ClipBanded(bs, i, ybot);
      assert c[0].Good();
      FirstBandApart(c);
      LastBandAt(out);
      FlushRects(out, c);
      var curBand := |rects|;
      ok, part := CopyBands(a, r, ybot, bs, i);
      if ok && |rects| != curBand {
        assert rects == Before(out) + (RectsOf(LastOrNone(out)) + RectsOf(c[0])) + Flatten(c[1..]);
        var _ := CoalesceRegion(prevBand, curBand, Before(out), LastOrNone(out), c[0], Flatten(c[1..]));
      }
    }

    /** The end of `region_op`: one operand is used up, and what is left of the other may be kept. */
    method FlushRest(a: seq<Rect>, r1: nat, b: seq<Rect>, r2: nat, op: Op, ybot: int, prevBand: nat,
                     ghost out: seq<Band>, ghost bs: seq<Band>, ghost i: nat, ghost cs: seq<Band>, ghost j: nat)
      returns (ok: bool, ghost out': seq<Band>)
      requires Holds(out, prevBand) && DoneTo(out, bs, cs, op, ybot) && Coalesced(out)
      requires OnBand(a, r1, bs, i, ybot) && OnBand(b, r2, cs, j, ybot) && (i == |bs| || j == |cs|)
      requires bs != [] && cs != [] && ybot <= Bottom(bs) && ybot <= Bottom(cs)
      modifies this`rects, this`size, heap
      ensures heap.Served(old(heap.asked), ok) && HasRoom()
      ensures ok ==> rects == Flatten(out') && Banded(out')
      ensures ok ==> forall x, y :: RowDone(out', bs, cs, op, x, y)
      ensures ok ==> (Coalesced(out') <==> RestCoalesced(op, bs, cs)) && CoalescedTo(out', Min(Bottom(bs), Bottom(cs)))
      ensures !ok ==> Partial(rects, bs, cs, op)
    {
      hide Flush, RowDone, InBands, Coalesced, CoalescedFrom, CoalescedTo, Flatten, LastStart, Partial, PartBands, Banded;
      ghost var part;
      RestOf(bs, i, cs, j, ybot);
      AllTo(out, ybot);
      ok, out' := true, out;
      if r1 != |a| {
        if KeepsFirst(op) {
          FlushFirstDone(out, bs, i, cs, op, ybot);
          FlushExact(out, bs, i, ybot);
          ok, part := FlushBands(a, r1, ybot, prevBand, out, bs, i);
          out' := Flush(out, Clip(bs, i, ybot));
          if !ok {
            ClipFits(out, bs, cs, op, bs, i, ybot);
            PartialBands(out, part, Clip(bs, i, ybot), bs, cs, op);
          }
          return;
        }
      } else if r2 != |b| && KeepsSecond(op) {
        FlushSecondDone(out, bs, cs, j, op, ybot);
        FlushExact(out, cs, j, ybot);
        ok, part := FlushBands(b, r2, ybot, prevBand, out, cs, j);
        out' := Flush(out, Clip(cs, j, ybot));
        if !ok {
          ClipFits(out, bs, cs, op, cs, j, ybot);
          PartialBands(out, part, Clip(cs, j, ybot), bs, cs, op);
        }
        return;
      }
      NoFlushDone(out, bs, i, cs, j, op, ybot);
    }

    /** Applies an operation to two regions; the new region may be one of them. */
    static method RegionOp(newReg: Region, reg1: Region, reg2: Region, op: Op, ghost bs: seq<Band>, ghost cs: seq<Band>)
      returns (ok: bool, ghost out: seq<Band>)
      requires newReg.HasRoom()
      requires reg1.rects == Flatten(bs) && bs != [] && Banded(bs) && reg1.extents.top == bs[0].top
      requires reg2.rects == Flatten(cs) && cs != [] && Banded(cs) && reg2.extents.top == cs[0].top
      modifies newReg`rects, newReg`size, newReg.heap
      ensures newReg.heap.Served(old(newReg.heap.asked), ok) && newReg.HasRoom()
      ensures ok ==> newReg.rects == Flatten(out) && Banded(out)
      ensures ok ==> forall x, y :: RowDone(out, bs, cs, op, x, y)
      ensures ok ==> (Coalesced(out) <==> RestCoalesced(op, bs, cs)) && CoalescedTo(out, Min(Bottom(bs), Bottom(cs)))
      ensures !ok ==> newReg.rects == old(newReg.rects) || Partial(newReg.rects, bs, cs, op)
    {
      hide RowDone, InBands, Flatten, LastStart, Partial, Coalesced, CoalescedTo, RestCoalesced, Banded, DoneTo;
      out := [];
      var a, b := reg1.rects, reg2.rects;
      ok := newReg.heap.Allocate();
      if !ok {
        return;
      }
      BandsFilled(bs);
      BandsFilled(cs);
      StartInside(bs, 0);
      StartInside(cs, 0);
      newReg.size := Max(|a|, |b|) * 2;
      newReg.rects := [];
      var ybot := if reg1.extents.top < reg2.extents.top then reg1.extents.top else reg2.extents.top;
      StartDone(bs, cs, op, ybot);
      BottomLast(bs, 0);
      BottomLast(cs, 0);
      NoRects();
      StartEnds(bs);
      StartEnds(cs);
      var prevBand: nat, r1: nat, r2: nat := 0, 0, 0;
      ghost var i: nat, j: nat := 0, 0;
      while r1 != |a| && r2 != |b|
        invariant newReg.heap.Served(old(newReg.heap.asked), true)
        invariant newReg.Holds(out, prevBand) && DoneTo(out, bs, cs, op, ybot) && Coalesced(out)
        invariant OnBand(a, r1, bs, i, ybot) && OnBand(b, r2, cs, j, ybot)
        invariant i < |bs| && j < |cs| ==> ybot <= bs[i].top || ybot <= cs[j].top
        invariant ybot <= Bottom(bs) && ybot <= Bottom(cs)
        decreases |bs| - i + |cs| - j
      {
        var r1End := BandEnd(a, r1, bs, i);
        var r2End := BandEnd(b, r2, cs, j);
        var ytop: int;
        ok, ytop, prevBand, out :=
          newReg.SweepGap(a, r1, r1End, b, r2, r2End, op, ybot, prevBand, out, bs, i, cs, j);
        if !ok {
          return;
        }
        ghost var above := ybot;
        ybot := Min(a[r1].bottom, b[r2].bottom);
        BottomLast(bs, i);
        BottomLast(cs, j);
        ok, prevBand, out :=
          newReg.SweepOverlap(a, r1, r1End, b, r2, r2End, op, ytop, ybot, prevBand, out, bs, i, cs, j);
        if !ok {
          return;
        }
        if a[r1].bottom == ybot {
          r1 := r1End;
        }
        if b[r2].bottom == ybot {
          r2 := r2End;
        }
        i := Advance(bs, i, above, ybot);
        j := Advance(cs, j, above, ybot);
        StartInside(bs, i);
        StartInside(cs, j);
      }
      ok, out := newReg.FlushRest(a, r1, b, r2, op, ybot, prevBand, out, bs, i, cs, j);
      if ok && |newReg.rects| < newReg.size / 2 && newReg.size > 2 {
        var shrunk: bool := *;  // if it cannot be shrunk, the buffer stays as it is
        if shrunk {
          newReg.size := Max(|newReg.rects|, RGN_DEFAULT_RECTS);
        }
      }
    }
  }

  lemma BandsFilled(bs: seq<Band>)
    requires Banded(bs)
    ensures forall b :: b in bs ==> b.spans != []
  {
  }

  lemma AllTo(out: seq<Band>, y: int)
    requires Coalesced(out)
    ensures CoalescedTo(out, y)
  {
  }

  /** Index `r` is where band `i` starts, the first band that row `y` has not passed. */
  ghost predicate OnBand(a: seq<Rect>, r: nat, bs: seq<Band>, i: nat, y: int) {
    && a == Flatten(bs) && At(bs, i, y)
    && r == Start(bs, i) <= |a| && (i < |bs| <==> r < |a|)
  }

  /** The first rectangle has the least top, and the last one the greatest bottom. */
  lemma TopAndBottom(rs: seq<Rect>)
    requires YXBanded(rs) && rs != []
    ensures forall k :: 0 <= k < |rs| ==> rs[0].top <= rs[k].top && rs[k].bottom <= rs[|rs| - 1].bottom
  {
    forall k | 0 <= k < |rs|
      ensures rs[0].top <= rs[k].top && rs[k].bottom <= rs[|rs| - 1].bottom
    {
      if 0 < k {
        InOrder(rs, 0, k);
      }
      if k < |rs| - 1 {
        InOrder(rs, k, |rs| - 1);
      }
    }
  }

  /** A span that touches the last one widens the last rectangle; any other is a rectangle of its own. */
  lemma AbsorbRect(before: seq<Rect>, out: seq<Span>, p: Span, top: int, bottom: int)
    requires top < bottom && (before != [] ==> before[|before| - 1].top != top)
    ensures var rs := before + RectsAt(out, top, bottom);
            var n := |rs| - 1;
            before + RectsAt(Absorb(out, p), top, bottom) ==
            if n >= 0 && rs[n].top == top && rs[n].bottom == bottom && rs[n].right >= p.left
            then rs[n := rs[n].(right := Max(rs[n].right, p.right))]
            else rs + [Rect(p.left, top, p.right, bottom)]
  {
    if out != [] {
      var init := out[..|out| - 1];
      assert out == init + [Last(out)];
      RectsAtSnoc(init, Last(out), top, bottom);
      RectsAtSnoc(init, Span(Last(out).left, Max(Last(out).right, p.right)), top, bottom);
    }
    RectsAtSnoc(out, p, top, bottom);
  }

  lemma RowSnoc(a: seq<Rect>, r: nat, p: nat)
    requires r <= p < |a|
    ensures Row(a, r, p + 1) == Row(a, r, p) + [Span(a[p].left, a[p].right)]
  {
  }

  lemma NoRectsAt(top: int, bottom: int)
    ensures RectsAt([], top, bottom) == []
  {
  }

  /** The left edge of the next rectangle in a row, if there is one. */
  lemma NextEdge(a: seq<Rect>, lo: nat, hi: nat, i: nat, left: int)
    requires lo + i < hi <= |a|
    ensures NextLeft(Row(a, lo, hi), i, left) == if lo + i + 1 != hi then a[lo + i + 1].left else left
  {
  }

  lemma RowPrefix(a: seq<Rect>, lo: nat, mid: nat, hi: nat)
    requires lo <= mid <= hi <= |a|
    ensures Row(a, lo, mid) <= Row(a, lo, hi)
  {
  }

  lemma NoRects()
    ensures Flatten([]) == [] && LastStart([]) == 0 && Coalesced([])
  {
  }

  /** The rectangles of a band are a band of the array. */
  lemma RowOfBand(a: seq<Rect>, lo: nat, hi: nat, b: Band)
    requires lo < hi <= |a| && hi - lo == |b.spans| && b.Good()
    requires forall i :: 0 <= i < |b.spans| ==> a[lo + i] == RectsOf(b)[i]
    ensures IsBand(a, lo, hi, b)
    ensures forall c :: lo <= c < hi ==> a[c].top == b.top
  {
    forall c | lo <= c < hi
      ensures a[c] == RectsOf(b)[c - lo]
    {
      assert a[lo + (c - lo)] == RectsOf(b)[c - lo];
    }
    assert Row(a, lo, hi) == b.spans;
  }

  /** The `k`-th band in the array: its rectangles, and where its top changes. */
  lemma BandEdges(bs: seq<Band>, k: nat)
    requires Banded(bs) && k < |bs|
    ensures var a, lo, hi := Flatten(bs), Start(bs, k), Start(bs, k + 1);
            && lo < hi <= |a| && IsBand(a, lo, hi, bs[k])
            && (forall c :: lo <= c < hi ==> a[c].top == bs[k].top)
            && (hi < |a| ==> a[hi].top != bs[k].top)
  {
    hide Flatten, Start, GapOrdered, RectsAt, IsBand;
    var a, lo, hi := Flatten(bs), Start(bs, k), Start(bs, k + 1);
    BandAt(bs, k);
    RowOfBand(a, lo, hi, bs[k]);
    if k + 1 < |bs| {
      BandAt(bs, k + 1);
      RowOfBand(a, hi, Start(bs, k + 2), bs[k + 1]);
      assert bs[k].bottom <= bs[k + 1].top;
    } else {
      StartEnds(bs);
    }
  }

  /** Where the parts of the array are when `coalesce_region` is called. */
  lemma Layout(before: seq<Rect>, prev: Band, cur: Band, after: seq<Rect>, all: seq<Rect>)
    requires all == before + (RectsOf(prev) + RectsOf(cur)) + after
    ensures var p, c, e := |before|, |before| + |prev.spans|, |before| + |prev.spans| + |cur.spans|;
            && e <= |all|
            && (forall i :: p <= i < c ==> all[i] == RectsOf(prev)[i - p])
            && (forall i :: c <= i < e ==> all[i] == RectsOf(cur)[i - c])
            && (forall i :: e <= i < |all| ==> all[i] == after[i - e])
  {
  }

  /** The test of `coalesce_region` on the array is `Mergeable` on the bands. */
  lemma LayoutMergeable(before: seq<Rect>, prev: Band, cur: Band, after: seq<Rect>, all: seq<Rect>, n: nat)
    requires all == before + (RectsOf(prev) + RectsOf(cur)) + after
    requires 0 < n == |prev.spans| == |cur.spans|
    ensures |before| + n + n <= |all|
    ensures Mergeable(prev, cur) <==>
            && all[|before|].bottom == all[|before| + n].top
            && Row(all, |before|, |before| + n) == Row(all, |before| + n, |before| + n + n)
  {
    Layout(before, prev, cur, after, all);
    assert Row(all, |before|, |before| + n) == prev.spans;
    assert Row(all, |before| + n, |before| + n + n) == cur.spans;
  }

  lemma MergedLayout(before: seq<Rect>, prev: Band, cur: Band, after: seq<Rect>, rs: seq<Rect>)
    requires Mergeable(prev, cur) && |rs| == |before| + |cur.spans| + |after|
    requires forall i :: 0 <= i < |before| ==> rs[i] == before[i]
    requires forall i :: |before| <= i < |before| + |cur.spans| ==>
               rs[i] == RectsOf(prev)[i - |before|].(bottom := cur.bottom)
    requires forall i :: |before| + |cur.spans| <= i < |rs| ==> rs[i] == after[i - |before| - |cur.spans|]
    ensures rs == before + RectsOf(prev.(bottom := cur.bottom)) + after
  {
  }

}
