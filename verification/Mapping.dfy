/** The committed pages of a memory mapping, kept as a sorted list of ranges. */
module Mapping {
  import opened Spans

  datatype Status = Success | InvalidParameter

  /** A request to commit `size` bytes from `offset` on. */
  datatype Request = Request(offset: int, size: int, growOk: bool)

  predicate Aligned(x: int, page: int)
    requires page > 0
  {
    x % page == 0
  }

  /** The ranges lie in the mapping and start and end at page boundaries. */
  predicate Paged(ranges: seq<Span>, page: int, size: int)
    requires page > 0
  {
    forall i :: 0 <= i < |ranges| ==>
                  && 0 <= ranges[i].left && ranges[i].right <= size
                  && Aligned(ranges[i].left, page) && Aligned(ranges[i].right, page)
  }

  /** Some range overlaps start..end or ends where it begins. */
  ghost predicate Touched(ranges: seq<Span>, start: int, end: int) {
    exists i :: 0 <= i < |ranges| && ranges[i].left <= end && start <= ranges[i].right
  }

  /** Ranges i up to j merge into one. */
  function Merged(ranges: seq<Span>, i: nat, j: nat, start: int, end: int): seq<Span>
    requires i < j <= |ranges|
  {
    ranges[..i] + [Span(start, end)] + ranges[j..]
  }

  /** Consecutive ranges that touch start..end leave no gap but that range. */
  lemma MergedSpan(ranges: seq<Span>, start: int, end: int, x: int)
    requires GapOrdered(ranges) && ranges != [] && start < end && start <= ranges[0].right
    requires forall k :: 0 <= k < |ranges| ==> ranges[k].left <= end
    ensures Span(Min(ranges[0].left, start), Max(ranges[|ranges| - 1].right, end)).Has(x) <==>
            InSpans(ranges, x) || start <= x < end
  {
  }

  /** Merging consecutive ranges that touch start..end adds exactly that range. */
  lemma MergedCovers(ranges: seq<Span>, i: nat, j: nat, start: int, end: int, x: int)
    requires GapOrdered(ranges) && i < j <= |ranges| && start < end && start <= ranges[i].right
    requires forall k :: i <= k < j ==> ranges[k].left <= end
    ensures var s := Min(ranges[i].left, start);
            var e := Max(ranges[j - 1].right, end);
            InSpans(Merged(ranges, i, j, s, e), x) <==> InSpans(ranges, x) || start <= x < end
  {
    hide InSpans;
    var middle := Span(Min(ranges[i].left, start), Max(ranges[j - 1].right, end));
    MergedSpan(ranges[i..j], start, end, x);
    hide GapOrdered, Min, Max;
    InConcat(ranges[..i] + ranges[i..j], ranges[j..], x);
    InConcat(ranges[..i], ranges[i..j], x);
    InConcat(ranges[..i] + [middle], ranges[j..], x);
    InAppend(ranges[..i], middle, x);
    assert ranges == ranges[..i] + ranges[i..j] + ranges[j..];
  }

  lemma MergedOrdered(ranges: seq<Span>, i: nat, j: nat, start: int, end: int)
    requires GapOrdered(ranges) && i < j <= |ranges| && start < end
    requires ranges[i].left <= end && start <= ranges[i].right
    requires forall k :: 0 <= k < i ==> ranges[k].right < start
    requires j < |ranges| ==> end < ranges[j].left
    ensures GapOrdered(Merged(ranges, i, j, Min(ranges[i].left, start), Max(ranges[j - 1].right, end)))
  {
    var m := Merged(ranges, i, j, Min(ranges[i].left, start), Max(ranges[j - 1].right, end));
    assert forall k :: i < k < |m| ==> m[k] == ranges[k - i - 1 + j];
  }

  /** A range that touches no other is inserted in its place. */
  lemma InsertedCovers(ranges: seq<Span>, i: nat, start: int, end: int, x: int)
    requires i <= |ranges|
    ensures InSpans(ranges[..i] + [Span(start, end)] + ranges[i..], x) <==> InSpans(ranges, x) || start <= x < end
  {
    var added := Span(start, end);
    InConcat(ranges[..i] + [added], ranges[i..], x);
    InAppend(ranges[..i], added, x);
    InConcat(ranges[..i], ranges[i..], x);
    assert ranges == ranges[..i] + ranges[i..];
  }

  lemma MergedPaged(ranges: seq<Span>, i: nat, j: nat, start: int, end: int, page: int, size: int)
    requires page > 0 && Paged(ranges, page, size) && i < j <= |ranges|
    requires 0 <= start && end <= size && Aligned(start, page) && Aligned(end, page)
    ensures Paged(Merged(ranges, i, j, Min(ranges[i].left, start), Max(ranges[j - 1].right, end)), page, size)
  {
  }

  lemma InsertedOrdered(ranges: seq<Span>, i: nat, start: int, end: int)
    requires GapOrdered(ranges) && i <= |ranges| && start < end
    requires forall k :: 0 <= k < i ==> ranges[k].right < start
    requires i < |ranges| ==> end < ranges[i].left
    ensures GapOrdered(ranges[..i] + [Span(start, end)] + ranges[i..])
  {
  }

  lemma InsertedPaged(ranges: seq<Span>, i: nat, start: int, end: int, page: int, size: int)
    requires page > 0 && Paged(ranges, page, size) && i <= |ranges|
    requires 0 <= start && end <= size && Aligned(start, page) && Aligned(end, page)
    ensures Paged(ranges[..i] + [Span(start, end)] + ranges[i..], page, size)
  {
  }

  class FileMapping {
    const size: int
    const page: int
    const everything: bool      // all pages are committed and no list is kept
    var ranges: seq<Span>
    var max: int

    ghost predicate Valid()
      reads this
    {
      page > 0 && 0 < size && Aligned(size, page) && |ranges| <= max && 0 < max && GapOrdered(ranges) && Paged(ranges, page, size)
    }

    /** A byte of the mapping is committed. */
    ghost predicate Committed(x: int)
      reads this
    {
      everything || InSpans(ranges, x)
    }

    constructor (size: int, page: int, everything: bool)
      requires page > 0 && 0 < size && Aligned(size, page)
      ensures Valid() && this.size == size && this.page == page && this.everything == everything
      ensures forall x :: Committed(x) <==> everything
    {
      this.size, this.page, this.everything := size, page, everything;
      ranges := [];
      max := 8;
    }

    /** Finds the first range after range i that is out of reach of a range that ends at end, and the end it grows to. */
    method ReachUp(i: nat, end: int) returns (n: nat, top: int)
      requires GapOrdered(ranges) && i < |ranges| && ranges[i].right < end
      ensures i < n <= |ranges| && top == Max(ranges[n - 1].right, end)
      ensures forall k :: i < k < n ==> ranges[k].left <= end
      ensures n < |ranges| ==> end < ranges[n].left
    {
      n, top := i + 1, end;
      while n < |ranges| && ranges[n].left <= top
        invariant i < n <= |ranges| && top == Max(ranges[n - 1].right, end)
        invariant forall k :: i < k < n ==> ranges[k].left <= end
      {
        if ranges[n].right > top {
          top := ranges[n].right;
        }
        n := n + 1;
      }
    }

    /** Replaces ranges i up to n by one that starts no later than start and ends at top. */
    method MergeRanges(i: nat, n: nat, start: int, top: int)
      requires i < n <= |ranges|
      modifies this`ranges
      ensures ranges == Merged(old(ranges), i, n, Min(old(ranges)[i].left, start), top)
    {
      ghost var before := ranges;
      if ranges[i].left > start {
        ranges := ranges[i := Span(start, ranges[i].right)];
      }
      if n > i + 1 {
        ranges := ranges[..i + 1] + ranges[n..];
      }
      ranges := ranges[i := Span(ranges[i].left, top)];
      assert ranges == (before[..i + 1] + before[n..])[i := Span(ranges[i].left, top)];
    }

    /** Extends range i to cover start..end and merges it with the ranges that it then reaches. */
    method ExtendRange(i: nat, start: int, end: int)
      requires Valid() && 0 <= start < end <= size && Aligned(start, page) && Aligned(end, page)
      requires i < |ranges| && ranges[i].left <= end && start <= ranges[i].right
      requires forall k :: 0 <= k < i ==> ranges[k].right < start
      modifies this`ranges
      ensures Valid() && |ranges| <= |old(ranges)|
      ensures forall x :: InSpans(ranges, x) <==> InSpans(old(ranges), x) || start <= x < end
    {
      hide InSpans, Aligned, Span.Has, Paged;
      var n, top := i + 1, ranges[i].right;
      if ranges[i].right < end {
        n, top := ReachUp(i, end);
      }
      assert top == Max(ranges[n - 1].right, end) && (n < |ranges| ==> end < ranges[n].left);
      hide GapOrdered, Max;
      ghost var before := ranges;
      ghost var low := Min(before[i].left, start);
      MergedOrdered(before, i, n, start, end);
      MergedPaged(before, i, n, start, end, page, size);
      forall x
        ensures InSpans(Merged(before, i, n, low, top), x) <==> InSpans(before, x) || start <= x < end
      {
        MergedCovers(before, i, n, start, end, x);
      }
      MergeRanges(i, n, start, top);
    }
  
    /** Commits start..end; the range is lost if it needs a new entry and the list cannot grow. */
    method AddCommittedRange(start: int, end: int, growOk: bool)
      requires Valid() && 0 <= start < end <= size && Aligned(start, page) && Aligned(end, page)
      modifies this
      ensures Valid()
      ensures var lost := !everything && !growOk && |old(ranges)| == old(max) && !Touched(old(ranges), start, end);
              forall x :: Committed(x) <==> old(Committed(x)) || (start <= x < end && !lost)
    {
      hide InSpans, Aligned, Span.Has, Paged;
      if everything {
        return;
      }
      var i := 0;
      while i < |ranges|
        invariant 0 <= i <= |ranges|
        invariant forall k :: 0 <= k < i ==> ranges[k].right < start
      {
        if ranges[i].left > end {
          break;
        }
        if ranges[i].right >= start {
          ExtendRange(i, start, end);
          return;
        }
        i := i + 1;
      }
      assert !Touched(ranges, start, end);
      if |ranges| == max {
        if !growOk {
          return;
        }
        max := max * 2;
      }
      InsertedOrdered(ranges, i, start, end);
      InsertedPaged(ranges, i, start, end, page, size);
      ghost var before := ranges;
      forall x
        ensures InSpans(before[..i] + [Span(start, end)] + before[i..], x) <==> InSpans(before, x) || start <= x < end
      {
        InsertedCovers(before, i, start, end, x);
      }
      ranges := ranges[..i] + [Span(start, end)] + ranges[i..];
    }

    /** Finds whether a byte is committed, and how far the bytes after it are the same. */
    method FindCommittedRange(start: int) returns (committed: bool, run: int)
      requires Valid() && 0 <= start < size
      ensures committed <==> Committed(start)
      ensures 0 < run <= size - start
      ensures forall x :: start <= x < start + run ==> (Committed(x) <==> committed)
      ensures start + run < size ==> (Committed(start + run) <==> !committed)
    {
      if everything {
        return true, size - start;
      }
      var i := 0;
      while i < |ranges|
        invariant 0 <= i <= |ranges|
        invariant forall k :: 0 <= k < i ==> ranges[k].right <= start
      {
        if ranges[i].left > start {
          assert ranges[i].Has(ranges[i].left);
          return false, ranges[i].left - start;
        }
        if ranges[i].right > start {
          assert forall x :: start <= x < ranges[i].right ==> ranges[i].Has(x);
          return true, ranges[i].right - start;
        }
        i := i + 1;
      }
      return false, size - start;
    }

    /** Reports the committed pages from a page on. */
    method GetMappingCommittedRange(offset: nat) returns (status: Status, committed: bool, run: int)
      requires Valid()
      ensures status == InvalidParameter <==> !(Aligned(offset, page) && offset < size)
      ensures status == Success ==>
                && (forall x :: offset <= x < offset + run ==> (Committed(x) <==> committed))
                && 0 < run && offset + run <= size
                && (offset + run < size ==> (Committed(offset + run) <==> !committed))
    {
      committed, run := false, 0;
      if Aligned(offset, page) && offset < size {
        committed, run := FindCommittedRange(offset);
        return Success, committed, run;
      }
      return InvalidParameter, committed, run;
    }

    /** A request that names whole pages of the mapping. */
    predicate Accepts(r: Request)
      requires page > 0
    {
      Aligned(r.size, page) && Aligned(r.offset, page) && 0 <= r.offset < size && 0 < r.size <= size - r.offset
    }

    /** Commits pages of the mapping. */
    method AddMappingCommittedRange(r: Request) returns (status: Status)
      requires Valid()
      modifies this
      ensures Valid() && (status == Success <==> Accepts(r))
      ensures var lost := !everything && !r.growOk && |old(ranges)| == old(max) && !Touched(old(ranges), r.offset, r.offset + r.size);
              forall x :: Committed(x) <==> old(Committed(x)) || (Accepts(r) && r.offset <= x < r.offset + r.size && !lost)
    {
      hide Touched;
      if Aligned(r.size, page) && Aligned(r.offset, page) && 0 <= r.offset < size && 0 < r.size <= size - r.offset {
        AlignedSum(r.offset, r.size, page);
        AddCommittedRange(r.offset, r.offset + r.size, r.growOk);
        return Success;
      }
      return InvalidParameter;
    }

    /** Whatever the order of the requests, the committed bytes are those of the accepted requests, except for requests
        that are dropped because the list cannot grow. */
    method AddAll(rs: seq<Request>) returns (ghost dropped: set<int>)
      requires Valid()
      modifies this
      ensures Valid()
      ensures forall k :: k in dropped ==> 0 <= k < |rs| && !rs[k].growOk
      ensures forall x :: Committed(x) <==> old(Committed(x)) || InRequests(rs, dropped, x)
    {
      hide Touched, InSpans, GapOrdered, Paged, Aligned;
      var i := 0;
      dropped := {};
      while i < |rs|
        invariant 0 <= i <= |rs| && Valid()
        invariant forall k :: k in dropped ==> 0 <= k < i && !rs[k].growOk
        invariant forall x :: Committed(x) <==> old(Committed(x)) || InRequests(rs[..i], dropped, x)
      {
        ghost var r := rs[i];
        ghost var lost := !everything && !r.growOk && |ranges| == max && !Touched(ranges, r.offset, r.offset + r.size);
        var _ := AddMappingCommittedRange(rs[i]);
        ghost var more := if lost then dropped + {i} else dropped;
        forall x
          ensures InRequests(rs[..i + 1], more, x) <==> InRequests(rs[..i], dropped, x) || (!lost && Covers(rs[i], x))
        {
          MoreRequests(rs, i, dropped, lost, x);
        }
        dropped, i := more, i + 1;
      }
      assert rs[..i] == rs;
    }

    lemma MoreRequests(rs: seq<Request>, i: nat, dropped: set<int>, lost: bool, x: int)
      requires page > 0 && i < |rs| && forall k :: k in dropped ==> k < i
      ensures InRequests(rs[..i + 1], if lost then dropped + {i} else dropped, x) <==>
              InRequests(rs[..i], dropped, x) || (!lost && Covers(rs[i], x))
    {
    }

    predicate Covers(r: Request, x: int)
      requires page > 0
    {
      Accepts(r) && r.offset <= x < r.offset + r.size
    }

    /** Some request that is not dropped is for this byte. */
    ghost predicate InRequests(rs: seq<Request>, dropped: set<int>, x: int)
      requires page > 0
    {
      exists k :: 0 <= k < |rs| && k !in dropped && Covers(rs[k], x)
    }

  }

  lemma AlignedSum(a: int, b: int, page: int)
    requires page > 0 && Aligned(a, page) && Aligned(b, page)
    ensures Aligned(a + b, page)
  {
    hide Aligned;
    var p := AlignedQuotient(a, page);
    var q := AlignedQuotient(b, page);
    MultipleAligned(p + q, page);
  }

  lemma AlignedQuotient(a: int, page: int) returns (q: int)
    requires page > 0 && Aligned(a, page)
    ensures a == page * q
  {
    q := a / page;
  }

  lemma MultipleAligned(n: int, page: int)
    requires page > 0
    ensures Aligned(page * n, page)
  {
    DivisionUnique(page * n, page, n, 0);
  }

  /** The quotient and remainder of a division are the only ones. */
  lemma DivisionUnique(x: int, page: int, n: int, r: int)
    requires page > 0 && x == page * n + r && 0 <= r < page
    ensures x % page == r
  {
    var d := x / page - n;
    assert page * d == r - x % page by {
      assert x == page * (x / page) + x % page;
    }
  }
}
