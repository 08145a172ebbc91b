/** One row of a region: the x intervals that a band of rectangles covers, from left to right. */
module Spans {

  datatype Span = Span(left: int, right: int) {
    predicate Has(x: int) {
      left <= x < right
    }
  }

  function Max(a: int, b: int): int {
    if a > b then a else b
  }

  function Min(a: int, b: int): int {
    if a < b then a else b
  }

  /** No span is empty, and there is at least one free column between two spans. */
  predicate GapOrdered(s: seq<Span>) {
    && (forall i :: 0 <= i < |s| ==> s[i].left < s[i].right)
    && (forall i, j :: 0 <= i < j < |s| ==> s[i].right < s[j].left)
  }

  /** Column `x` is in one of the spans from the `k`-th on. */
  ghost predicate InFrom(s: seq<Span>, k: nat, x: int) {
    exists i :: k <= i < |s| && s[i].Has(x)
  }

  ghost predicate InSpans(s: seq<Span>, x: int) {
    InFrom(s, 0, x)
  }

  lemma InAppend(s: seq<Span>, p: Span, x: int)
    ensures InSpans(s + [p], x) <==> InSpans(s, x) || p.Has(x)
  {
    var t := s + [p];
    if InSpans(s, x) {
      var i :| 0 <= i < |s| && s[i].Has(x);
      assert t[i].Has(x);
    }
    if p.Has(x) {
      assert t[|s|].Has(x);
    }
  }

  lemma InConcat(s: seq<Span>, t: seq<Span>, x: int)
    ensures InSpans(s + t, x) <==> InSpans(s, x) || InSpans(t, x)
  {
    var u := s + t;
    if InSpans(s, x) {
      var i :| 0 <= i < |s| && s[i].Has(x);
      assert u[i].Has(x);
    }
    if InSpans(t, x) {
      var i :| 0 <= i < |t| && t[i].Has(x);
      assert u[|s| + i].Has(x);
    }
  }

  /** A row is fixed by the columns it covers: gap-ordered spans are a canonical form. */
  lemma {:induction false} SpansUnique(s: seq<Span>, t: seq<Span>)
    requires GapOrdered(s) && GapOrdered(t)
    requires forall x :: InSpans(s, x) <==> InSpans(t, x)
    ensures s == t
    decreases |s|
  {
    hide InSpans, GapOrdered;
    if s == [] {
      if t != [] {
        SameHead(t, s);
      }
    } else {
      SameHead(s, t);
      SameHead(t, s);
      TailOrdered(s);
      TailOrdered(t);
      forall x
        ensures InSpans(s[1..], x) <==> InSpans(t[1..], x)
      {
        TailColumns(s, x);
        TailColumns(t, x);
      }
      SpansUnique(s[1..], t[1..]);
      assert s == [s[0]] + s[1..];
      assert t == [t[0]] + t[1..];
    }
  }

  lemma TailOrdered(s: seq<Span>)
    requires GapOrdered(s) && s != []
    ensures GapOrdered(s[1..])
  {
  }

  lemma TailColumns(s: seq<Span>, x: int)
    requires GapOrdered(s) && s != []
    ensures InSpans(s[1..], x) <==> InSpans(s, x) && x >= s[0].right
  {
  }

  lemma SameHead(s: seq<Span>, t: seq<Span>)
    requires GapOrdered(s) && GapOrdered(t) && s != []
    requires forall x :: InSpans(s, x) <==> InSpans(t, x)
    ensures t != [] && t[0].left == s[0].left && s[0].right <= t[0].right
  {
    assert s[0].Has(s[0].left) && InSpans(t, s[0].left);
    assert t[0].Has(t[0].left) && InSpans(s, t[0].left);
    var edge := t[0].right;
    assert s[0].Has(edge) ==> InSpans(s, edge);
  }
}
