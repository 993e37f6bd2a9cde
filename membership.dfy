/** The trapezoidal membership evaluator and its vectorised form over a universe of samples. */
module Membership {
  import opened Degrees

  /** The one failure the evaluator raises: a breakpoint list that does not hold four points. */
  datatype Error = NonTrapezoidalSet

  datatype Result<T> = Ok(value: T) | Err(error: Error)

  /** Four breakpoints in the non-decreasing order in which a trapezoid is drawn. */
  predicate Ordered(p: seq<real>) {
    |p| == 4 && p[0] <= p[1] <= p[2] <= p[3]
  }

  /** A quotient of a non-negative numerator by a strictly larger denominator lies in [0, 1). */
  lemma RatioInUnit(x: real, d: real)
    requires 0.0 <= x < d
    ensures 0.0 <= x / d < 1.0
  {
    assert x / d * d == x;
  }

  /** Division by a positive number is monotone in the numerator. */
  lemma DivMonotone(x: real, y: real, d: real)
    requires x <= y && d > 0.0
    ensures x / d <= y / d
  {
    assert (y / d - x / d) * d == y - x;
  }

  /**
   * The degree of point `a` in the trapezoid with breakpoints `p`. The branches follow
   * the source in order, including the fallbacks for a zero-width edge (see
   * EdgeFallbacksUnreachable for why they are never taken).
   */
  function Degree(a: real, p: seq<real>): (r: Result<real>)
    ensures r.Err? <==> |p| != 4
    ensures r.Ok? ==> InUnitDegree(r.value)
    ensures r.Ok? && (a < p[0] || a > p[3]) ==> r.value == 0.0
  {
    if |p| > 4 || |p| < 4 then Err(NonTrapezoidalSet)
    else if a < p[0] || a > p[3] then Ok(0.0)
    else if a < p[1] then
      var d := p[1] - p[0];
      if d == 0.0 then Ok(1.0)
      else
        RatioInUnit(a - p[0], d);
        Ok((a - p[0]) / d)
    else if a > p[2] then
      var d := p[2] - p[3];
      if d == 0.0 then Ok(1.0)
      else
        RatioInUnit(p[3] - a, p[3] - p[2]);
        assert (a - p[3]) / d == (p[3] - a) / (p[3] - p[2]);
        Ok((a - p[3]) / d)
    else Ok(1.0)
  }

  /**
   * For any four breakpoints, ordered or not, neither `d == 0` fallback of Degree is
   * reached: wherever a sloped branch is taken the width it divides by is non-zero
   * (positive on the rising slope, negative on the falling one) and the result is the ramp.
   */
  lemma EdgeFallbacksUnreachable(a: real, p: seq<real>)
    requires |p| == 4
    ensures p[0] <= a < p[1] ==> p[1] - p[0] > 0.0
    ensures p[0] <= a < p[1] && a <= p[3] ==> Degree(a, p) == Ok((a - p[0]) / (p[1] - p[0]))
    ensures p[1] <= a && p[2] < a <= p[3] ==> p[2] - p[3] < 0.0
    ensures p[0] <= a && p[1] <= a && p[2] < a <= p[3] ==> Degree(a, p) == Ok((a - p[3]) / (p[2] - p[3]))
  {
  }

  /** With ordered breakpoints the degree is exactly 1 on the core [p1, p2] and nowhere else. */
  lemma CoreIsFull(a: real, p: seq<real>)
    requires Ordered(p)
    ensures Degree(a, p) == Ok(1.0) <==> p[1] <= a <= p[2]
  {
    if p[0] <= a < p[1] {
      RatioInUnit(a - p[0], p[1] - p[0]);
    } else if p[2] < a <= p[3] {
      RatioInUnit(p[3] - a, p[3] - p[2]);
      assert (a - p[3]) / (p[2] - p[3]) == (p[3] - a) / (p[3] - p[2]);
    }
  }

  /**
   * With ordered breakpoints the degree is positive exactly on the open support (p0, p3)
   * together with the core [p1, p2] (which adds the end points of a zero-width edge).
   */
  lemma SupportIsPositive(a: real, p: seq<real>)
    requires Ordered(p)
    ensures Degree(a, p).value > 0.0 <==> (p[0] < a < p[3] || p[1] <= a <= p[2])
  {
    if p[0] <= a < p[1] {
      var d := p[1] - p[0];
      if a > p[0] {
        assert (a - p[0]) / d * d == a - p[0];
      } else {
        assert a - p[0] == 0.0;
      }
    } else if p[2] < a <= p[3] {
      var d := p[2] - p[3];
      if a < p[3] {
        assert (a - p[3]) / d * d == a - p[3];
      } else {
        assert a - p[3] == 0.0;
      }
    }
  }

  /** On the rising edge [p0, p1) of an ordered trapezoid the degree is the linear ramp up. */
  lemma RisingEdge(a: real, p: seq<real>)
    requires Ordered(p) && p[0] <= a < p[1]
    ensures Degree(a, p) == Ok((a - p[0]) / (p[1] - p[0]))
  {
  }

  /** The degree does not decrease along the rising edge [p0, p1). */
  lemma {:induction false} RisingEdgeMonotone(a: real, b: real, p: seq<real>)
    requires Ordered(p) && p[0] <= a <= b < p[1]
    ensures Degree(a, p).value <= Degree(b, p).value
  {
    DivMonotone(a - p[0], b - p[0], p[1] - p[0]);
  }

  /** On the falling edge (p2, p3] of an ordered trapezoid the degree is the linear ramp down. */
  lemma FallingEdge(a: real, p: seq<real>)
    requires Ordered(p) && p[2] < a <= p[3]
    ensures Degree(a, p) == Ok((a - p[3]) / (p[2] - p[3]))
  {
  }

  /** The degree does not increase along the falling edge (p2, p3]. */
  lemma {:induction false} FallingEdgeMonotone(a: real, b: real, p: seq<real>)
    requires Ordered(p) && p[2] < a <= b <= p[3]
    ensures Degree(a, p).value >= Degree(b, p).value
  {
    DivMonotone(p[3] - b, p[3] - a, p[3] - p[2]);
    assert (a - p[3]) / (p[2] - p[3]) == (p[3] - a) / (p[3] - p[2]);
    assert (b - p[3]) / (p[2] - p[3]) == (p[3] - b) / (p[3] - p[2]);
  }

  /** Reference rising ramp: 0 left of `lo`, 1 from `hi` on, linear in between (a step when lo == hi). */
  function Rise(a: real, lo: real, hi: real): real {
    if a < lo then 0.0 else if a >= hi then 1.0 else (a - lo) / (hi - lo)
  }

  /** Reference falling ramp: 1 up to `lo`, 0 right of `hi`, linear in between (a step when lo == hi). */
  function Fall(a: real, lo: real, hi: real): real {
    if a <= lo then 1.0 else if a > hi then 0.0 else (hi - a) / (hi - lo)
  }

  /**
   * For ordered breakpoints the evaluator agrees with the textbook trapezoid: the minimum
   * of a rising ramp over [p0, p1] and a falling ramp over [p2, p3].
   */
  lemma MatchesRampMinimum(a: real, p: seq<real>)
    requires Ordered(p)
    ensures Degree(a, p) == Ok(Min(Rise(a, p[0], p[1]), Fall(a, p[2], p[3])))
  {
    if p[0] <= a < p[1] {
      RatioInUnit(a - p[0], p[1] - p[0]);
    } else if p[2] < a <= p[3] {
      RatioInUnit(p[3] - a, p[3] - p[2]);
      assert (a - p[3]) / (p[2] - p[3]) == (p[3] - a) / (p[3] - p[2]);
    }
  }

  /** The left-degenerate trapezoid [2, 2, 3, 4] has full membership at its shared point 2. */
  lemma DegenerateLeftEdge()
    ensures Degree(2.0, [2.0, 2.0, 3.0, 4.0]) == Ok(1.0)
  {
  }

  /** The right-degenerate trapezoid [1, 2, 3, 3] has full membership at its shared point 3. */
  lemma DegenerateRightEdge()
    ensures Degree(3.0, [1.0, 2.0, 3.0, 3.0]) == Ok(1.0)
  {
  }

  /**
   * The degree of every sample of universe `u`, in order. The evaluator is only reached
   * for a non-empty universe, so an empty universe yields the empty set even for a
   * malformed breakpoint list.
   */
  function FuzzyFun(u: seq<real>, p: seq<real>): (r: Result<seq<real>>)
    ensures r.Ok? <==> (|u| == 0 || |p| == 4)
    ensures r.Err? ==> r.error == NonTrapezoidalSet
    ensures r.Ok? ==> |r.value| == |u|
    ensures r.Ok? ==> forall i :: 0 <= i < |u| ==> Degree(u[i], p) == Ok(r.value[i])
    ensures r.Ok? ==> InUnit(r.value)
  {
    if |u| == 0 then Ok([])
    else
      match Degree(u[0], p)
      case Err(e) => Err(e)
      case Ok(d) =>
        match FuzzyFun(u[1..], p)
        case Err(e) => Err(e)
        case Ok(rest) => Ok([d] + rest)
  }
}
