/** Cohen–Sutherland clipping of an integer 2D segment against an axis-aligned
    window [xMin, xMax] x [yMin, yMax] (both bounds inclusive). */
module CohenSutherland {
  import opened IntMath

  datatype Option<T> = None | Some(value: T)

  /** Region code: one flag per violated window bound. Only the four flags
      below are ever set, so a code always lies in 0..15. */
  type OutCode = bv4

  const INSIDE: OutCode := 0
  const LEFT: OutCode := 1
  const RIGHT: OutCode := 2
  const BOTTOM: OutCode := 4
  const TOP: OutCode := 8

  /** The clip window. */
  datatype Rect = Rect(xMin: int, yMin: int, xMax: int, yMax: int)

  /** A window with a non-empty area or line; a window with xMin > xMax or
      yMin > yMax is a configuration error the caller must never pass. */
  predicate ProperRect(r: Rect) {
    r.xMin <= r.xMax && r.yMin <= r.yMax
  }

  predicate Inside(x: int, y: int, r: Rect) {
    r.xMin <= x <= r.xMax && r.yMin <= y <= r.yMax
  }

  /** A segment (x1, y1)-(x2, y2), the state the clipping loop works on. */
  datatype Segment = Segment(x1: int, y1: int, x2: int, y2: int)

  /** Classifies a point against the window. The horizontal and the vertical
      tests are each an if/else-if, so LEFT and RIGHT (and BOTTOM and TOP) are
      never set together, even for an improper window. */
  function ComputeOutcode(x: int, y: int, r: Rect): (code: OutCode)
    ensures (code & LEFT != 0) <==> x < r.xMin
    ensures (code & RIGHT != 0) <==> r.xMin <= x && r.xMax < x
    ensures (code & BOTTOM != 0) <==> y < r.yMin
    ensures (code & TOP != 0) <==> r.yMin <= y && r.yMax < y
    ensures code & (LEFT | RIGHT) != (LEFT | RIGHT)
    ensures code & (BOTTOM | TOP) != (BOTTOM | TOP)
    ensures code == INSIDE <==> Inside(x, y, r)
  {
    var horizontal := if x < r.xMin then LEFT else if x > r.xMax then RIGHT else INSIDE;
    var vertical := if y < r.yMin then BOTTOM else if y > r.yMax then TOP else INSIDE;
    horizontal | vertical
  }

  /** The current state of the loop: neither trivially accepted nor
      trivially rejected. */
  predicate Pending(s: Segment, r: Rect) {
    var c1 := ComputeOutcode(s.x1, s.y1, r);
    var c2 := ComputeOutcode(s.x2, s.y2, r);
    !(c1 == INSIDE && c2 == INSIDE) && (c1 & c2) == INSIDE
  }

  /** The outside endpoint's code that the step resolves: endpoint 1 when it
      is outside, otherwise endpoint 2. */
  function CodeOut(s: Segment, r: Rect): (code: OutCode)
    ensures code == ComputeOutcode(s.x1, s.y1, r) || code == ComputeOutcode(s.x2, s.y2, r)
    ensures !Inside(s.x1, s.y1, r) ==> code == ComputeOutcode(s.x1, s.y1, r)
    ensures code == INSIDE <==> Inside(s.x1, s.y1, r) && Inside(s.x2, s.y2, r)
  {
    var c1 := ComputeOutcode(s.x1, s.y1, r);
    if c1 != INSIDE then c1 else ComputeOutcode(s.x2, s.y2, r)
  }

  /** True when the point lies on the bound chosen for `code` in the
      priority order TOP, BOTTOM, RIGHT, LEFT. */
  predicate OnChosenBound(x: int, y: int, code: OutCode, r: Rect) {
    if code & TOP != 0 then y == r.yMax
    else if code & BOTTOM != 0 then y == r.yMin
    else if code & RIGHT != 0 then x == r.xMax
    else code & LEFT != 0 && x == r.xMin
  }

  /** The point (x, y) lies on the line through the segment up to the
      truncation of one coordinate: the cross product error is smaller than
      the divisor that the formula uses. */
  predicate NearLine(s: Segment, x: int, y: int, code: OutCode) {
    var cross := (x - s.x1) * (s.y2 - s.y1) - (s.x2 - s.x1) * (y - s.y1);
    if code & (TOP | BOTTOM) != 0 then Abs(cross) < Abs(s.y2 - s.y1)
    else Abs(cross) < Abs(s.x2 - s.x1)
  }

  /** The divisor on the branch a step takes: y2 - y1 when it clips against
      TOP or BOTTOM, x2 - x1 when against RIGHT or LEFT. */
  function Divisor(s: Segment, code: OutCode): int {
    if code & (TOP | BOTTOM) != 0 then s.y2 - s.y1 else s.x2 - s.x1
  }

  /** The numerator on the branch a step takes. */
  function Numerator(s: Segment, code: OutCode, r: Rect): int {
    if code & TOP != 0 then (s.x2 - s.x1) * (r.yMax - s.y1)
    else if code & BOTTOM != 0 then (s.x2 - s.x1) * (r.yMin - s.y1)
    else if code & RIGHT != 0 then (s.y2 - s.y1) * (r.xMax - s.x1)
    else (s.y2 - s.y1) * (r.xMin - s.x1)
  }

  /** The rejection test guarantees that a pending step never divides by
      zero: an endpoint violating a bound that the other endpoint shares on
      that axis would make the two codes share that bit. */
  lemma PendingDivisorNonZero(s: Segment, r: Rect)
    requires Pending(s, r)
    ensures CodeOut(s, r) != INSIDE
    ensures Divisor(s, CodeOut(s, r)) != 0
  {
  }

  /** Intersection of the segment's line with the bound chosen for `code`. */
  function Intersection(s: Segment, code: OutCode, r: Rect): (p: (int, int))
    requires code != INSIDE && Divisor(s, code) != 0
    ensures OnChosenBound(p.0, p.1, code, r)
    ensures NearLine(s, p.0, p.1, code)
  {
    var q := TruncDiv(Numerator(s, code, r), Divisor(s, code));
    if code & TOP != 0 then
      NearLineFromRemainder(s.x2 - s.x1, r.yMax - s.y1, s.y2 - s.y1, q);
      (s.x1 + q, r.yMax)
    else if code & BOTTOM != 0 then
      NearLineFromRemainder(s.x2 - s.x1, r.yMin - s.y1, s.y2 - s.y1, q);
      (s.x1 + q, r.yMin)
    else if code & RIGHT != 0 then
      NearLineFromRemainder(s.y2 - s.y1, r.xMax - s.x1, s.x2 - s.x1, q);
      CrossSymmetric(s, r.xMax, s.y1 + q);
      (r.xMax, s.y1 + q)
    else
      NearLineFromRemainder(s.y2 - s.y1, r.xMin - s.x1, s.x2 - s.x1, q);
      CrossSymmetric(s, r.xMin, s.y1 + q);
      (r.xMin, s.y1 + q)
  }

  lemma NearLineFromRemainder(d: int, n: int, m: int, q: int)
    requires m != 0 && q == TruncDiv(d * n, m)
    ensures Abs(q * m - d * n) < Abs(m)
  {
    TruncDivSpec(d * n, m);
  }

  lemma CrossSymmetric(s: Segment, x: int, y: int)
    ensures (x - s.x1) * (s.y2 - s.y1) - (s.x2 - s.x1) * (y - s.y1)
         == -((y - s.y1) * (s.x2 - s.x1) - (s.y2 - s.y1) * (x - s.x1))
  {
  }

  /** The box spanned by segment `s` contains both endpoints of `t`. */
  predicate InBox(t: Segment, s: Segment) {
    var xlo, xhi := Min(s.x1, s.x2), Max(s.x1, s.x2);
    var ylo, yhi := Min(s.y1, s.y2), Max(s.y1, s.y2);
    xlo <= t.x1 <= xhi && xlo <= t.x2 <= xhi && ylo <= t.y1 <= yhi && ylo <= t.y2 <= yhi
  }

  function Measure(s: Segment): nat {
    Abs(s.x2 - s.x1) + Abs(s.y2 - s.y1)
  }

  /** One iteration of the clipping loop: the outside endpoint (endpoint 1
      preferred) moves onto its chosen bound; the other one stays put. For a
      proper window the moved endpoint stays within the segment's box and
      the measure strictly falls, which is why the loop terminates. */
  function Step(s: Segment, r: Rect): (t: Segment)
    requires Pending(s, r)
    ensures ComputeOutcode(s.x1, s.y1, r) != INSIDE ==>
      t.x2 == s.x2 && t.y2 == s.y2 &&
      OnChosenBound(t.x1, t.y1, ComputeOutcode(s.x1, s.y1, r), r) &&
      NearLine(s, t.x1, t.y1, ComputeOutcode(s.x1, s.y1, r))
    ensures ComputeOutcode(s.x1, s.y1, r) == INSIDE ==>
      t.x1 == s.x1 && t.y1 == s.y1 &&
      OnChosenBound(t.x2, t.y2, ComputeOutcode(s.x2, s.y2, r), r) &&
      NearLine(s, t.x2, t.y2, ComputeOutcode(s.x2, s.y2, r))
    ensures ProperRect(r) ==> InBox(t, s) && Measure(t) < Measure(s)
  {
    PendingDivisorNonZero(s, r);
    var code := CodeOut(s, r);
    var p := Intersection(s, code, r);
    var t := if code == ComputeOutcode(s.x1, s.y1, r)
             then Segment(p.0, p.1, s.x2, s.y2)
             else Segment(s.x1, s.y1, p.0, p.1);
    if ProperRect(r) then
      StepWithinBox(s, r, code, p);
      t
    else
      t
  }

  lemma StepWithinBox(s: Segment, r: Rect, code: OutCode, p: (int, int))
    requires ProperRect(r) && Pending(s, r) && code == CodeOut(s, r)
    requires Divisor(s, code) != 0 && p == Intersection(s, code, r)
    ensures Between(p.0, s.x1, s.x2) && Between(p.1, s.y1, s.y2)
    ensures code == ComputeOutcode(s.x1, s.y1, r) ==> p.1 != s.y1 || p.0 != s.x1
    ensures code != ComputeOutcode(s.x1, s.y1, r) ==> p.1 != s.y2 || p.0 != s.x2
  {
    if code & TOP != 0 {
      ScaledQuotientBetween(s.x2 - s.x1, r.yMax - s.y1, s.y2 - s.y1);
    } else if code & BOTTOM != 0 {
      ScaledQuotientBetween(s.x2 - s.x1, r.yMin - s.y1, s.y2 - s.y1);
    } else if code & RIGHT != 0 {
      ScaledQuotientBetween(s.y2 - s.y1, r.xMax - s.x1, s.x2 - s.x1);
    } else {
      ScaledQuotientBetween(s.y2 - s.y1, r.xMin - s.x1, s.x2 - s.x1);
    }
  }

  /** The clipping algorithm as a specification: accept when both endpoints
      are inside, reject when the codes share a flag, otherwise step. The
      result, when present, lies inside the window and inside the input's
      box. */
  function Clip(s: Segment, r: Rect): (res: Option<Segment>)
    requires ProperRect(r)
    ensures res.Some? ==> Inside(res.value.x1, res.value.y1, r) && Inside(res.value.x2, res.value.y2, r)
    ensures res.Some? ==> InBox(res.value, s)
    decreases Measure(s)
  {
    var c1 := ComputeOutcode(s.x1, s.y1, r);
    var c2 := ComputeOutcode(s.x2, s.y2, r);
    if c1 == INSIDE && c2 == INSIDE then Some(s)
    else if (c1 & c2) != INSIDE then None
    else Clip(Step(s, r), r)
  }

  /** `Step` replaces the endpoint whose code was resolved by the
      intersection point. */
  lemma StepReplaces(s: Segment, r: Rect, code: OutCode, p: (int, int))
    requires Pending(s, r) && code == CodeOut(s, r)
    requires Divisor(s, code) != 0 && p == Intersection(s, code, r)
    ensures code == ComputeOutcode(s.x1, s.y1, r) ==> Step(s, r) == Segment(p.0, p.1, s.x2, s.y2)
    ensures code != ComputeOutcode(s.x1, s.y1, r) ==> Step(s, r) == Segment(s.x1, s.y1, p.0, p.1)
  {
  }

  /** One pending step of `Clip` is one call of `Step`. */
  lemma ClipUnfoldStep(s: Segment, r: Rect)
    requires ProperRect(r) && Pending(s, r)
    ensures Clip(s, r) == Clip(Step(s, r), r)
  {
  }

  /** The loop of the source, over its own variables, proved to compute
      `Clip`. */
  method CohenSutherlandClip(x1: int, y1: int, x2: int, y2: int, r: Rect)
    returns (res: Option<Segment>)
    requires ProperRect(r)
    ensures res == Clip(Segment(x1, y1, x2, y2), r)
  {
    var x1, y1, x2, y2 := x1, y1, x2, y2;
    var code1 := ComputeOutcode(x1, y1, r);
    var code2 := ComputeOutcode(x2, y2, r);
    var accept := false;
    ghost var s0 := Segment(x1, y1, x2, y2);

    while true
      invariant code1 == ComputeOutcode(x1, y1, r)
      invariant code2 == ComputeOutcode(x2, y2, r)
      invariant Clip(Segment(x1, y1, x2, y2), r) == Clip(s0, r)
      decreases Measure(Segment(x1, y1, x2, y2))
    {
      if code1 == INSIDE && code2 == INSIDE {
        accept := true;
        break;
      } else if (code1 & code2) != INSIDE {
        break;
      } else {
        ghost var s := Segment(x1, y1, x2, y2);
        PendingDivisorNonZero(s, r);
        ClipUnfoldStep(s, r);
        var codeOut: OutCode;
        if code1 != INSIDE {
          codeOut := code1;
        } else {
          codeOut := code2;
        }

        // the intersection with the bound chosen by priority TOP, BOTTOM,
        // RIGHT, LEFT; the rejection test makes its divisor non-zero
        var p := Intersection(Segment(x1, y1, x2, y2), codeOut, r);
        var x, y := p.0, p.1;
        StepReplaces(s, r, codeOut, (x, y));

        if codeOut == code1 {
          x1 := x;
          y1 := y;
          code1 := ComputeOutcode(x1, y1, r);
        } else {
          x2 := x;
          y2 := y;
          code2 := ComputeOutcode(x2, y2, r);
        }
        assert Segment(x1, y1, x2, y2) == Step(s, r);
      }
    }

    if accept {
      res := Some(Segment(x1, y1, x2, y2));
    } else {
      res := None;
    }
  }

  /** A segment with both endpoints inside is returned unchanged. */
  lemma ClipTrivialAccept(s: Segment, r: Rect)
    requires ProperRect(r)
    requires Inside(s.x1, s.y1, r) && Inside(s.x2, s.y2, r)
    ensures Clip(s, r) == Some(s)
  {
  }

  /** A segment whose endpoints violate a common bound is rejected. */
  lemma ClipTrivialReject(s: Segment, r: Rect)
    requires ProperRect(r)
    requires (ComputeOutcode(s.x1, s.y1, r) & ComputeOutcode(s.x2, s.y2, r)) != INSIDE
    ensures Clip(s, r) == None
  {
  }

  /** An endpoint that starts inside the window is never moved. */
  lemma {:induction false} ClipKeepsInsideEndpoints(s: Segment, r: Rect)
    requires ProperRect(r)
    ensures Clip(s, r).Some? && Inside(s.x1, s.y1, r) ==>
      Clip(s, r).value.x1 == s.x1 && Clip(s, r).value.y1 == s.y1
    ensures Clip(s, r).Some? && Inside(s.x2, s.y2, r) ==>
      Clip(s, r).value.x2 == s.x2 && Clip(s, r).value.y2 == s.y2
    decreases Measure(s)
  {
    if Pending(s, r) {
      var t := Step(s, r);
      ClipKeepsInsideEndpoints(t, r);
    }
  }

  /** Clipping an accepted result again returns it unchanged. */
  lemma ClipIdempotent(s: Segment, r: Rect)
    requires ProperRect(r) && Clip(s, r).Some?
    ensures Clip(Clip(s, r).value, r) == Clip(s, r)
  {
  }

  /** Segments that stay within this many units of zero, window included,
      only ever form products that fit a 32-bit signed int. */
  const COORD_BOUND: int := 23170

  predicate Int32(n: int) {
    -0x8000_0000 <= n < 0x8000_0000
  }

  predicate Small(n: int) {
    -COORD_BOUND <= n <= COORD_BOUND
  }

  predicate SmallSegment(s: Segment, r: Rect) {
    Small(s.x1) && Small(s.y1) && Small(s.x2) && Small(s.y2) &&
    Small(r.xMin) && Small(r.yMin) && Small(r.xMax) && Small(r.yMax)
  }

  lemma ProductBound(a: int, b: int, m: nat)
    requires Abs(a) <= m && Abs(b) <= m
    ensures Abs(a * b) <= m * m
  {
    AbsMul(a, b);
    MulMono(Abs(a), Abs(b), m);
    MulMono(m, Abs(a), m);
  }

  /** The numerator of any branch on small coordinates fits 32 bits: each
      factor is a difference of two small values. */
  lemma NumeratorFitsInt32(s: Segment, code: OutCode, r: Rect)
    requires SmallSegment(s, r)
    ensures Int32(Numerator(s, code, r))
  {
    var a, b;
    if code & TOP != 0 {
      a, b := s.x2 - s.x1, r.yMax - s.y1;
    } else if code & BOTTOM != 0 {
      a, b := s.x2 - s.x1, r.yMin - s.y1;
    } else if code & RIGHT != 0 {
      a, b := s.y2 - s.y1, r.xMax - s.x1;
    } else {
      a, b := s.y2 - s.y1, r.xMin - s.x1;
    }
    assert Numerator(s, code, r) == a * b;
    ProductBound(a, b, 2 * COORD_BOUND);
    assert 2 * COORD_BOUND * (2 * COORD_BOUND) == 2147395600;
  }

  /** One step on small coordinates: the product and the divisor fit 32 bits
      and the new segment is again small. */
  lemma StepFitsInt32(s: Segment, r: Rect)
    requires ProperRect(r) && Pending(s, r) && SmallSegment(s, r)
    ensures Int32(Numerator(s, CodeOut(s, r), r)) && Int32(Divisor(s, CodeOut(s, r)))
    ensures SmallSegment(Step(s, r), r)
  {
    NumeratorFitsInt32(s, CodeOut(s, r), r);
    var t := Step(s, r);
    assert InBox(t, s);
  }

  /** Every segment `Clip` passes through has small coordinates, so each
      factor and each new coordinate fits 32 bits, and every step forms
      only 32-bit products and divisors. */
  ghost predicate StepsFitInt32(s: Segment, r: Rect)
    requires ProperRect(r)
    decreases Measure(s)
  {
    SmallSegment(s, r) &&
    (Pending(s, r) ==>
      Int32(Numerator(s, CodeOut(s, r), r)) && Int32(Divisor(s, CodeOut(s, r))) &&
      StepsFitInt32(Step(s, r), r))
  }

  /** With every input coordinate within COORD_BOUND of zero, the source's
      32-bit arithmetic never overflows, so the unbounded model agrees with
      it. */
  lemma {:induction false} ClipFitsInt32(s: Segment, r: Rect)
    requires ProperRect(r) && SmallSegment(s, r)
    ensures StepsFitInt32(s, r)
    decreases Measure(s)
  {
    if Pending(s, r) {
      StepFitsInt32(s, r);
      ClipFitsInt32(Step(s, r), r);
    }
  }

  /** A segment inside the window [0, 10] x [0, 10] is kept as it is. */
  lemma ClipExampleInside()
    ensures Clip(Segment(2, 2, 8, 8), Rect(0, 0, 10, 10)) == Some(Segment(2, 2, 8, 8))
  {
  }

  /** A segment wholly to the left of and below the window is rejected. */
  lemma ClipExampleOutside()
    ensures Clip(Segment(-5, -5, -1, -1), Rect(0, 0, 10, 10)) == None
  {
  }

  /** A horizontal segment crossing the left edge is cut at x = 0. */
  lemma ClipExampleLeftEdge()
    ensures Clip(Segment(-5, 5, 5, 5), Rect(0, 0, 10, 10)) == Some(Segment(0, 5, 5, 5))
  {
    var r := Rect(0, 0, 10, 10);
    assert Step(Segment(-5, 5, 5, 5), r) == Segment(0, 5, 5, 5);
  }

  /** The diagonal through two corners is cut to the window's diagonal:
      first endpoint 1 moves to the bottom corner, then endpoint 2 to the
      top one. */
  lemma ClipExampleDiagonal()
    ensures Clip(Segment(-5, -5, 15, 15), Rect(0, 0, 10, 10)) == Some(Segment(0, 0, 10, 10))
  {
    var r := Rect(0, 0, 10, 10);
    assert Step(Segment(-5, -5, 15, 15), r) == Segment(0, 0, 15, 15);
    assert Step(Segment(0, 0, 15, 15), r) == Segment(0, 0, 10, 10);
  }
}
