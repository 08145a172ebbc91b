/** Regions in requests and replies, and the mirror image of a region. */
module RegionWire {
  import opened Allocations
  import opened Spans
  import opened Bands
  import opened Extents
  import opened Regions

  datatype Status = Success | InvalidParameter | NoMemory | BufferOverflow

  /** Whether all the rectangles are valid and the array is properly y-x-banded. */
  method ValidateRectangles(rects: seq<Rect>) returns (valid: bool)
    ensures valid <==> YXBanded(rects)
  {
    var i := 0;
    while i < |rects|
      invariant 0 <= i <= |rects|
      invariant forall k :: 0 <= k < i ==> !rects[k].IsEmpty()
      invariant forall k, m :: 0 <= k < i && m == k + 1 && m < |rects| ==> MayFollow(rects[k], rects[m])
    {
      var r := rects[i];
      if r.left >= r.right || r.top >= r.bottom {
        return false;
      }
      if i == |rects| - 1 {
        break;
      }
      var next := rects[i + 1];
      if r.top == next.top {
        if r.bottom != next.bottom || r.right >= next.left {
          assert !MayFollow(rects[i], rects[i + 1]);
          return false;
        }
      } else if r.bottom > next.top {
        assert !MayFollow(rects[i], rects[i + 1]);
        return false;
      }
      i := i + 1;
    }
    return true;
  }

  /** An empty region travels as one all-zero rectangle. */
  function ToWire(rects: seq<Rect>): seq<Rect> {
    if rects == [] then [EMPTY_RECT] else rects
  }

  function FromWire(data: seq<Rect>): seq<Rect> {
    if |data| == 1 && data[0] == EMPTY_RECT then [] else data
  }

  /** Creates a region from request data. */
  method CreateRegionFromReqData(data: seq<Rect>, heap: Allocator) returns (region: Region?, status: Status)
    modifies heap
    ensures status in {Success, InvalidParameter, NoMemory} && (region != null <==> status == Success)
    ensures status == InvalidParameter <==> !YXBanded(FromWire(data))
    ensures heap.Served(old(heap.asked), status != NoMemory)
    ensures region != null ==> fresh(region) && region.Valid() && region.rects == FromWire(data) && region.heap == heap
  {
    region := null;
    var rects := if |data| == 1 && data[0] == EMPTY_RECT then [] else data;
    var valid := ValidateRectangles(rects);
    if !valid {
      return null, InvalidParameter;
    }
    var ok := heap.Allocate();
    if !ok {
      return null, NoMemory;
    }
    ok := heap.Allocate();
    if !ok {
      return null, NoMemory;
    }
    region := new Region(heap);
    region.size := Max(|rects|, RGN_DEFAULT_RECTS);
    region.rects := rects;
    region.SetRegionExtents();
    status := Success;
  }

  /** Retrieves the region data for sending to the client; `maxRects` is the room in the reply. */
  method GetRegionData(region: Region, maxRects: nat) returns (data: seq<Rect>, status: Status)
    requires region.Valid()
    modifies region.heap
    ensures status in {Success, BufferOverflow, NoMemory} && region.heap.Served(old(region.heap.asked), status != NoMemory)
    ensures status == Success ==> data == ToWire(region.rects) && FromWire(data) == region.rects
    ensures status == BufferOverflow <==> maxRects < |ToWire(region.rects)|
  {
    data := if |region.rects| == 0 then [EMPTY_RECT] else region.rects;
    if maxRects >= |data| {
      var ok := region.heap.Allocate();
      return data, if ok then Success else NoMemory;
    }
    return [], BufferOverflow;
  }

  // ----- mirror image -----

  function MirrorRect(width: int, r: Rect): Rect {
    r.(left := width - r.right, right := width - r.left)
  }

  /** The rectangles from `lo` up to and including `hi` are one whole band. */
  predicate WholeBand(rs: seq<Rect>, lo: int, hi: int) {
    && 0 <= lo <= hi < |rs|
    && (forall k :: lo <= k <= hi ==> rs[k].top == rs[lo].top)
    && (lo > 0 ==> rs[lo - 1].top != rs[lo].top)
    && (hi + 1 < |rs| ==> rs[hi + 1].top != rs[hi].top)
  }

  /** What `mirror_region` does: the left half of every band is overwritten with the right half. */
  ghost predicate MirroredBy(qs: seq<Rect>, rs: seq<Rect>, width: int) {
    && |qs| == |rs|
    && (forall lo, hi, k :: WholeBand(rs, lo, hi) && lo <= k <= hi ==>
          qs[k] == MirrorRect(width, rs[Max(k, lo + hi - k)]))
  }

  /** The bands that end before `n` have been mirrored. */
  ghost predicate MirroredTo(qs: seq<Rect>, rs: seq<Rect>, width: int, n: int) {
    && |qs| == |rs|
    && (forall lo, hi, k :: WholeBand(rs, lo, hi) && lo <= k <= hi < n ==>
          qs[k] == MirrorRect(width, rs[Max(k, lo + hi - k)]))
  }

  lemma NextMirrored(ps: seq<Rect>, qs: seq<Rect>, rs: seq<Rect>, width: int, start: nat, end: nat)
    requires MirroredTo(ps, rs, width, start) && WholeBand(rs, start, end) && |qs| == |rs|
    requires forall k :: 0 <= k < |rs| && !(start <= k <= end) ==> qs[k] == ps[k]
    requires forall k :: start <= k <= end ==> qs[k] == MirrorRect(width, rs[Max(k, start + end - k)])
    ensures MirroredTo(qs, rs, width, end + 1)
  {
    hide MirrorRect;
    forall lo, hi, k | WholeBand(rs, lo, hi) && lo <= k <= hi < end + 1
      ensures qs[k] == MirrorRect(width, rs[Max(k, lo + hi - k)])
    {
    }
  }

  /** Mirrors a region relative to a client rectangle, with the exchange of the source. */
  method MirrorRegion(clientRect: Rect, region: Region)
    modifies region
    ensures region.size == old(region.size)
    ensures MirroredBy(region.rects, old(region.rects), clientRect.right - clientRect.left)
    ensures region.extents == MirrorRect(clientRect.right - clientRect.left, old(region.extents))
  {
    hide MirrorRect, MirroredTo, MirroredBy;
    var width := clientRect.right - clientRect.left;
    ghost var rs := region.rects;
    NoneMirrored(rs, width);
    var start := 0;
    while start < |region.rects|
      invariant 0 <= start <= |region.rects| == |rs|
      invariant region.size == old(region.size) && region.extents == old(region.extents)
      invariant 0 < start < |rs| ==> rs[start - 1].top != rs[start].top
      invariant forall k :: start <= k < |rs| ==> region.rects[k] == rs[k]
      invariant MirroredTo(region.rects, rs, width, start)
    {
      ghost var ps := region.rects;
      var end := EndOfBand(region.rects, start);
      assert WholeBand(rs, start, end);
      MirrorBand(region, width, start, end);
      NextMirrored(ps, region.rects, rs, width, start, end);
      start := end + 1;
    }
    AllMirrored(region.rects, rs, width);
    region.extents := MirrorRect(width, region.extents);
  }

  lemma NoneMirrored(rs: seq<Rect>, width: int)
    ensures MirroredTo(rs, rs, width, 0)
  {
  }

  lemma AllMirrored(qs: seq<Rect>, rs: seq<Rect>, width: int)
    requires MirroredTo(qs, rs, width, |rs|)
    ensures MirroredBy(qs, rs, width)
  {
  }

  /** The last rectangle of the band that starts at `start`. */
  method EndOfBand(rects: seq<Rect>, start: nat) returns (end: nat)
    requires start < |rects|
    ensures start <= end < |rects| && (forall k :: start <= k <= end ==> rects[k].top == rects[start].top)
    ensures end + 1 < |rects| ==> rects[end + 1].top != rects[end].top
  {
    end := start;
    while end < |rects| - 1 && rects[end + 1].top == rects[end].top
      invariant start <= end < |rects|
      invariant forall k :: start <= k <= end ==> rects[k].top == rects[start].top
    {
      end := end + 1;
    }
  }

  /** The exchange as the source has it: the saved rectangle is the one that was just copied. */
  method MirrorPair(region: Region, width: int, i: nat, j: nat)
    requires i < j < |region.rects|
    modifies region`rects
    ensures |region.rects| == old(|region.rects|)
    ensures forall k :: 0 <= k < |region.rects| && k != i && k != j ==> region.rects[k] == old(region.rects)[k]
    ensures region.rects[i] == region.rects[j] == MirrorRect(width, old(region.rects)[j])
  {
    var rect := region.rects[j];
    region.rects := region.rects[i := region.rects[j]];
    region.rects := region.rects[j := rect];
    region.rects := region.rects[j := MirrorRect(width, region.rects[j])];
    region.rects := region.rects[i := MirrorRect(width, region.rects[i])];
  }

  method MirrorBand(region: Region, width: int, start: nat, end: nat)
    requires start <= end < |region.rects|
    modifies region`rects
    ensures |region.rects| == old(|region.rects|)
    ensures forall k :: 0 <= k < |region.rects| && !(start <= k <= end) ==> region.rects[k] == old(region.rects)[k]
    ensures forall k :: start <= k <= end ==>
              region.rects[k] == MirrorRect(width, old(region.rects)[Max(k, start + end - k)])
  {
    hide MirrorRect;
    ghost var rs := region.rects;
    var i, j := start, end;
    while i < j
      invariant start <= i <= j + 1 && j <= end && i + j == start + end && |region.rects| == |rs|
      invariant forall k :: 0 <= k < |rs| && !(start <= k < i || j < k <= end) ==> region.rects[k] == rs[k]
      invariant forall k :: start <= k < i || j < k <= end ==>
                  region.rects[k] == MirrorRect(width, rs[Max(k, start + end - k)])
    {
      MirrorPair(region, width, i, j);
      i, j := i + 1, j - 1;
    }
    if i == j {
      region.rects := region.rects[i := MirrorRect(width, region.rects[i])];
    }
  }

  /** `qs` is the mirror image of `rs`. */
  ghost predicate MirrorImage(qs: seq<Rect>, rs: seq<Rect>, width: int) {
    forall x, y :: Covered(qs, x, y) <==> Covered(rs, width - 1 - x, y)
  }

  /** `mirror_region` gives the mirror image exactly for the regions with one rectangle per band. */
  lemma MirrorExact(qs: seq<Rect>, rs: seq<Rect>, width: int)
    requires YXBanded(rs) && MirroredBy(qs, rs, width)
    ensures MirrorImage(qs, rs, width) <==> forall i, j :: 0 <= i && j == i + 1 && j < |rs| ==> rs[i].top != rs[j].top
  {
    if i, j :| 0 <= i && j == i + 1 && j < |rs| && rs[i].top == rs[j].top {
      LosesLeftHalf(qs, rs, width, i);
    } else {
      SingleBandsMirrored(qs, rs, width);
    }
  }

  lemma SingleBandsMirrored(qs: seq<Rect>, rs: seq<Rect>, width: int)
    requires MirroredBy(qs, rs, width)
    requires forall i, j :: 0 <= i && j == i + 1 && j < |rs| ==> rs[i].top != rs[j].top
    ensures MirrorImage(qs, rs, width)
  {
    forall k | 0 <= k < |rs|
      ensures qs[k] == MirrorRect(width, rs[k])
    {
      assert WholeBand(rs, k, k);
    }
    forall x, y
      ensures Covered(qs, x, y) <==> Covered(rs, width - 1 - x, y)
    {
      if k :| 0 <= k < |qs| && qs[k].Has(x, y) {
        assert rs[k].Has(width - 1 - x, y);
      }
      if k :| 0 <= k < |rs| && rs[k].Has(width - 1 - x, y) {
        assert qs[k].Has(x, y);
      }
    }
  }

  lemma {:induction false} BandAround(rs: seq<Rect>, i: nat) returns (lo: nat, hi: nat)
    requires YXBanded(rs) && i < |rs|
    ensures WholeBand(rs, lo, hi) && lo <= i <= hi
  {
    lo, hi := i, i;
    while lo > 0 && rs[lo - 1].top == rs[lo].top
      invariant lo <= i && forall k :: lo <= k <= i ==> rs[k].top == rs[i].top
    {
      lo := lo - 1;
    }
    while hi + 1 < |rs| && rs[hi + 1].top == rs[hi].top
      invariant i <= hi < |rs| && forall k :: lo <= k <= hi ==> rs[k].top == rs[i].top
    {
      hi := hi + 1;
    }
  }

  /** The first rectangle of a band of several has no mirror image. */
  lemma LosesLeftHalf(qs: seq<Rect>, rs: seq<Rect>, width: int, i: nat)
    requires YXBanded(rs) && MirroredBy(qs, rs, width)
    requires i + 1 < |rs| && rs[i].top == rs[i + 1].top
    ensures !MirrorImage(qs, rs, width)
  {
    var lo, hi := BandAround(rs, i);
    assert hi > lo;
    var x, y := rs[lo].left, rs[lo].top;
    assert rs[lo].Has(x, y) && Covered(rs, x, y);
    forall k | 0 <= k < |qs|
      ensures !qs[k].Has(width - 1 - x, y)
    {
      var l, h := BandAround(rs, k);
      var m := Max(k, l + h - k);
      assert qs[k] == MirrorRect(width, rs[m]);
      if m < lo {
        InOrder(rs, m, lo);
      } else {
        InOrder(rs, lo, m);
      }
    }
    assert !Covered(qs, width - 1 - x, y);
    assert width - 1 - (width - 1 - x) == x;
  }

  /** A window 10 wide, and a band with two rectangles: the left one is lost and the right one doubled. */
  lemma MirrorFails()
    ensures var rs := [Rect(0, 0, 1, 1), Rect(5, 0, 7, 1)];
            var qs := [Rect(3, 0, 5, 1), Rect(3, 0, 5, 1)];
            YXBanded(rs) && MirroredBy(qs, rs, 10) && Covered(rs, 0, 0) && !Covered(qs, 9, 0)
  {
    var rs := [Rect(0, 0, 1, 1), Rect(5, 0, 7, 1)];
    var qs := [Rect(3, 0, 5, 1), Rect(3, 0, 5, 1)];
    assert rs[0].Has(0, 0);
    forall lo, hi | WholeBand(rs, lo, hi)
      ensures lo == 0 && hi == 1
    {
      assert rs[0].top == rs[1].top;
    }
  }
}
