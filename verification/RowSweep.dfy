/** What the loops of the overlap callbacks keep while they walk two rows from left to right. */
module RowSweep {
  import opened Spans

  datatype Op = Intersect | Subtract | Union

  predicate Combine(op: Op, p: bool, q: bool) {
    match op
    case Intersect => p && q
    case Subtract => p && !q
    case Union => p || q
  }

  /** `out` has exactly the columns that the operation selects from rows `s` and `t`. */
  ghost predicate RowResult(op: Op, out: seq<Span>, s: seq<Span>, t: seq<Span>) {
    && GapOrdered(out)
    && forall x :: InSpans(out, x) <==> Combine(op, InSpans(s, x), InSpans(t, x))
  }

  function Last(s: seq<Span>): Span
    requires s != []
  {
    s[|s| - 1]
  }

  // ----- union -----

  ghost predicate UnionRow(out: seq<Span>, s: seq<Span>, i: nat, t: seq<Span>, j: nat) {
    && GapOrdered(s) && GapOrdered(t) && GapOrdered(out) && i <= |s| && j <= |t|
    && (out != [] && i < |s| ==> Last(out).left <= s[i].left)
    && (out != [] && j < |t| ==> Last(out).left <= t[j].left)
    && (forall x :: InSpans(out, x) || InFrom(s, i, x) || InFrom(t, j, x) <==> InSpans(s, x) || InSpans(t, x))
  }

  /** A span is merged into the last one when they touch, and appended otherwise. */
  function Absorb(out: seq<Span>, p: Span): seq<Span> {
    if out != [] && Last(out).right >= p.left then
      out[..|out| - 1] + [Span(Last(out).left, Max(Last(out).right, p.right))]
    else
      out + [p]
  }

  lemma AbsorbColumns(out: seq<Span>, p: Span)
    requires GapOrdered(out) && p.left < p.right
    requires out != [] ==> Last(out).left <= p.left
    ensures GapOrdered(Absorb(out, p)) && Absorb(out, p) != [] && Last(Absorb(out, p)).left <= p.left
    ensures forall x :: InSpans(Absorb(out, p), x) <==> InSpans(out, x) || p.Has(x)
  {
    if out != [] && Last(out).right >= p.left {
      var init := out[..|out| - 1];
      var wide := Span(Last(out).left, Max(Last(out).right, p.right));
      assert out == init + [Last(out)];
      forall x
        ensures InSpans(Absorb(out, p), x) <==> InSpans(out, x) || p.Has(x)
      {
        InAppend(init, wide, x);
        InAppend(init, Last(out), x);
      }
    } else {
      forall x
        ensures InSpans(Absorb(out, p), x) <==> InSpans(out, x) || p.Has(x)
      {
        InAppend(out, p, x);
      }
    }
  }

  /** One `MERGERECT` of the row whose next span starts no later than the other row's. */
  lemma UnionRowStep(out: seq<Span>, s: seq<Span>, i: nat, t: seq<Span>, j: nat)
    requires UnionRow(out, s, i, t, j) && i < |s|
    requires j < |t| ==> s[i].left <= t[j].left
    ensures UnionRow(Absorb(out, s[i]), s, i + 1, t, j)
  {
    AbsorbColumns(out, s[i]);
    var out' := Absorb(out, s[i]);
    forall x
      ensures InSpans(out', x) || InFrom(s, i + 1, x) || InFrom(t, j, x) <==> InSpans(s, x) || InSpans(t, x)
    {
      assert InSpans(out', x) <==> InSpans(out, x) || s[i].Has(x);
    }
  }

  // ----- intersection -----

  ghost predicate IntersectRow(out: seq<Span>, s: seq<Span>, i: nat, t: seq<Span>, j: nat) {
    && GapOrdered(s) && GapOrdered(t) && GapOrdered(out) && i <= |s| && j <= |t|
    && (out != [] && i < |s| && j < |t| ==> Last(out).right < Max(s[i].left, t[j].left))
    && (forall x :: InSpans(out, x) || (InFrom(s, i, x) && InFrom(t, j, x)) <==> InSpans(s, x) && InSpans(t, x))
  }

  function Meet(p: Span, q: Span): Span {
    Span(Max(p.left, q.left), Min(p.right, q.right))
  }

  /** The common part of the two current spans, if there is one. */
  function EmitMeet(out: seq<Span>, p: Span, q: Span): seq<Span> {
    if Meet(p, q).left < Meet(p, q).right then out + [Meet(p, q)] else out
  }

  lemma EmitMeetColumns(out: seq<Span>, p: Span, q: Span, x: int)
    ensures InSpans(EmitMeet(out, p, q), x) <==> InSpans(out, x) || (p.Has(x) && q.Has(x))
  {
    InAppend(out, Meet(p, q), x);
  }

  /** The shorter of the two current spans is used up. */
  lemma IntersectRowStep(out: seq<Span>, s: seq<Span>, i: nat, t: seq<Span>, j: nat)
    requires IntersectRow(out, s, i, t, j) && i < |s| && j < |t| && s[i].right < t[j].right
    ensures IntersectRow(EmitMeet(out, s[i], t[j]), s, i + 1, t, j)
  {
    var out' := EmitMeet(out, s[i], t[j]);
    forall x
      ensures InSpans(out', x) || (InFrom(s, i + 1, x) && InFrom(t, j, x)) <==> InSpans(s, x) && InSpans(t, x)
    {
      EmitMeetColumns(out, s[i], t[j], x);
    }
  }

  /** Both current spans end together. */
  lemma IntersectRowStepBoth(out: seq<Span>, s: seq<Span>, i: nat, t: seq<Span>, j: nat)
    requires IntersectRow(out, s, i, t, j) && i < |s| && j < |t| && s[i].right == t[j].right
    ensures IntersectRow(EmitMeet(out, s[i], t[j]), s, i + 1, t, j + 1)
  {
    var out' := EmitMeet(out, s[i], t[j]);
    forall x
      ensures InSpans(out', x) || (InFrom(s, i + 1, x) && InFrom(t, j + 1, x)) <==> InSpans(s, x) && InSpans(t, x)
    {
      EmitMeetColumns(out, s[i], t[j], x);
    }
  }

  // ----- subtraction -----

  /** What is left of row `s`: everything from its `i`-th span on, and from column `left` on. */
  ghost predicate InRest(s: seq<Span>, i: nat, left: int, x: int) {
    InFrom(s, i, x) && left <= x
  }

  ghost predicate SubtractColumns(out: seq<Span>, s: seq<Span>, i: nat, left: int, t: seq<Span>, j: nat) {
    forall x :: InSpans(out, x) || (InRest(s, i, left, x) && !InFrom(t, j, x)) <==> InSpans(s, x) && !InSpans(t, x)
  }

  ghost predicate SubtractRow(out: seq<Span>, s: seq<Span>, i: nat, left: int, t: seq<Span>, j: nat) {
    && GapOrdered(s) && GapOrdered(t) && GapOrdered(out) && i <= |s| && j <= |t|
    && (i < |s| ==> s[i].left <= left < s[i].right)
    && (out != [] && i < |s| ==> Last(out).right < left)
    && SubtractColumns(out, s, i, left, t, j)
  }

  /** `left` after the current span of `s` is done with; it is not used once the row has ended. */
  function NextLeft(s: seq<Span>, i: nat, left: int): int {
    if i + 1 < |s| then s[i + 1].left else left
  }

  lemma SubtractRowStart(s: seq<Span>, t: seq<Span>)
    requires GapOrdered(s) && GapOrdered(t) && s != []
    ensures SubtractRow([], s, 0, s[0].left, t, 0)
  {
  }

  /** The subtracted span ends before the cursor. */
  lemma SubtractSkip(out: seq<Span>, s: seq<Span>, i: nat, left: int, t: seq<Span>, j: nat)
    requires SubtractRow(out, s, i, left, t, j) && i < |s| && j < |t| && t[j].right <= left
    ensures SubtractRow(out, s, i, left, t, j + 1)
  {
  }

  /** The part of the current span before the next subtracted span is kept. */
  lemma SubtractKeep(out: seq<Span>, s: seq<Span>, i: nat, left: int, t: seq<Span>, j: nat, right: int)
    requires GapOrdered(s) && GapOrdered(t) && i < |s| && s[i].left <= left < right <= s[i].right
    requires SubtractColumns(out, s, i, left, t, j)
    requires j < |t| ==> right <= t[j].left
    ensures SubtractColumns(out + [Span(left, right)], s, i, right, t, j)
  {
    var p := Span(left, right);
    forall x
      ensures InSpans(out + [p], x) || (InRest(s, i, right, x) && !InFrom(t, j, x)) <==> InSpans(s, x) && !InSpans(t, x)
    {
      InAppend(out, p, x);
    }
  }

  // ----- whole steps of the loops -----

  lemma UnionRowStart(s: seq<Span>, t: seq<Span>)
    requires GapOrdered(s) && GapOrdered(t)
    ensures UnionRow([], s, 0, t, 0)
  {
  }

  lemma UnionRowEnd(out: seq<Span>, s: seq<Span>, i: nat, t: seq<Span>, j: nat)
    requires UnionRow(out, s, i, t, j) && i == |s| && j == |t|
    ensures RowResult(Union, out, s, t)
  {
  }

  lemma FlippedUnionStep(out: seq<Span>, s: seq<Span>, i: nat, t: seq<Span>, j: nat)
    requires UnionRow(out, s, i, t, j) && j < |t|
    requires i < |s| ==> t[j].left <= s[i].left
    ensures UnionRow(Absorb(out, t[j]), s, i, t, j + 1)
  {
    UnionRowStep(out, t, j, s, i);
  }

  lemma SubtractRowEnd(out: seq<Span>, s: seq<Span>, i: nat, left: int, t: seq<Span>, j: nat)
    requires SubtractRow(out, s, i, left, t, j) && i == |s|
    ensures RowResult(Subtract, out, s, t)
  {
  }

  /** The cursor is inside a subtracted span, and moves to its end. */
  lemma SubtractCover(out: seq<Span>, s: seq<Span>, i: nat, left: int, t: seq<Span>, j: nat)
    requires SubtractRow(out, s, i, left, t, j) && i < |s| && j < |t|
    requires t[j].left <= left < t[j].right
    ensures if t[j].right >= s[i].right then SubtractRow(out, s, i + 1, NextLeft(s, i, t[j].right), t, j)
            else SubtractRow(out, s, i, t[j].right, t, j + 1)
  {
  }

  /** A subtracted span starts further right in the current span. */
  lemma SubtractBefore(out: seq<Span>, s: seq<Span>, i: nat, left: int, t: seq<Span>, j: nat)
    requires SubtractRow(out, s, i, left, t, j) && i < |s| && j < |t|
    requires left < t[j].left < s[i].right
    ensures var out' := out + [Span(left, t[j].left)];
            if t[j].right >= s[i].right then SubtractRow(out', s, i + 1, NextLeft(s, i, t[j].right), t, j)
            else SubtractRow(out', s, i, t[j].right, t, j + 1)
  {
    var out' := out + [Span(left, t[j].left)];
    SubtractKeep(out, s, i, left, t, j, t[j].left);
  }

  /** The rest of the current span is kept. */
  lemma SubtractWhole(out: seq<Span>, s: seq<Span>, i: nat, left: int, t: seq<Span>, j: nat)
    requires SubtractRow(out, s, i, left, t, j) && i < |s|
    requires j < |t| ==> s[i].right <= t[j].left
    ensures left < s[i].right
    ensures SubtractRow(out + [Span(left, s[i].right)], s, i + 1, NextLeft(s, i, left), t, j)
  {
    var out' := out + [Span(left, s[i].right)];
    SubtractKeep(out, s, i, left, t, j, s[i].right);
  }

  lemma IntersectRowStart(s: seq<Span>, t: seq<Span>)
    requires GapOrdered(s) && GapOrdered(t)
    ensures IntersectRow([], s, 0, t, 0)
  {
  }

  lemma IntersectRowEnd(out: seq<Span>, s: seq<Span>, i: nat, t: seq<Span>, j: nat)
    requires IntersectRow(out, s, i, t, j) && (i == |s| || j == |t|)
    ensures RowResult(Intersect, out, s, t)
  {
  }

  lemma FlippedIntersectStep(out: seq<Span>, s: seq<Span>, i: nat, t: seq<Span>, j: nat)
    requires IntersectRow(out, s, i, t, j) && i < |s| && j < |t| && t[j].right < s[i].right
    ensures IntersectRow(EmitMeet(out, s[i], t[j]), s, i, t, j + 1)
  {
    IntersectRowStep(out, t, j, s, i);
  }

  // ----- a row that is broken off -----

  /** The columns of `out` belong to the result, but some may be missing. */
  ghost predicate RowPart(op: Op, out: seq<Span>, s: seq<Span>, t: seq<Span>) {
    forall x :: InSpans(out, x) ==> Combine(op, InSpans(s, x), InSpans(t, x))
  }

  lemma UnionRowPart(out: seq<Span>, s: seq<Span>, i: nat, t: seq<Span>, j: nat)
    requires UnionRow(out, s, i, t, j)
    ensures RowPart(Union, out, s, t)
  {
  }

  lemma IntersectRowPart(out: seq<Span>, s: seq<Span>, i: nat, t: seq<Span>, j: nat)
    requires IntersectRow(out, s, i, t, j)
    ensures RowPart(Intersect, out, s, t)
  {
  }

  lemma SubtractRowPart(out: seq<Span>, s: seq<Span>, i: nat, left: int, t: seq<Span>, j: nat)
    requires SubtractRow(out, s, i, left, t, j)
    ensures RowPart(Subtract, out, s, t)
  {
  }
}
