/**
 * Evaluation, inverse, tangent and normal of the four curve kinds of physics/src/curve.cpp,
 * and the Arc constructor of physics/include/curve.hpp.
 *
 * Two line conventions meet here. `Lines.Through` (Segment -> Line) and `Lines.Solve` use
 * p*x + q*y = r; the mock-up segment of a Line (`LineToSegment`) and the comment on the Line
 * class use p*x + q*y + r = 0. Both are kept as written; `MockSegmentLine` states how they
 * differ.
 */
module Curves {
  import opened LibM
  import opened Vectors
  import opened Globals
  import opened Doubles
  import opened Shapes
  import opened Lines

  const TwoPi: real := 2.0 * PI

  // ---------------------------------------------------------------- Line

  /** A point of the line in the convention p*x + q*y + r = 0. */
  predicate OnLineZero(l: Line, pt: Vec2)
  {
    l.p * pt.x + l.q * pt.y + l.r == 0.0
  }

  /** The mock-up segment divides by q, or by p when |q| < 1e-15. */
  predicate Parametrizable(l: Line)
  {
    !IsZero(l.q) || l.p != 0.0
  }

  /**
   * The mock-up segment of a line: end points at x = -1 and x = 1 for a non-vertical line,
   * and at y = -1 and y = 1 on x = -r/p for a vertical one.
   */
  function LineToSegment(l: Line): (s: Segment)
    requires Parametrizable(l)
    ensures !IsZero(l.q) ==> s.p1.x == -1.0 && s.p2.x == 1.0
    ensures !IsZero(l.q) ==> OnLineZero(l, s.p1) && OnLineZero(l, s.p2)
    ensures IsZero(l.q) ==> s.p1.y == -1.0 && s.p2.y == 1.0 && s.p1.x == s.p2.x
    ensures IsZero(l.q) ==> l.p * s.p1.x + l.r == 0.0
    ensures l.q == 0.0 ==> OnLineZero(l, s.p1) && OnLineZero(l, s.p2)
  {
    if !IsZero(l.q) then
      assert l.q * ((l.p - l.r) / l.q) == l.p - l.r;
      assert l.q * (-(l.p + l.r) / l.q) == -(l.p + l.r);
      Segment(Vec2(-1.0, (l.p - l.r) / l.q), Vec2(1.0, -(l.p + l.r) / l.q))
    else
      Segment(Vec2(-l.r / l.p, -1.0), Vec2(-l.r / l.p, 1.0))
  }

  /**
   * Line evaluation: s = atanh(2t - 1) maps (0, 1) onto the reals and the mock-up segment is
   * evaluated at s. At t = 0 and t = 1 atanh is infinite and outside [0, 1] it is NaN; the
   * point is then not finite. A line with p = 0 and |q| < 1e-15 has the mock-up end points
   * (-r/0, -1) and (-r/0, 1), whose x is an infinity or NaN, so none of its points is finite.
   * The order argument is ignored by the source.
   */
  function LineEval(l: Line, t: real, lib: Libm): (pt: Point)
    ensures pt.At? <==> 0.0 < t < 1.0 && Parametrizable(l)
  {
    if 0.0 < t < 1.0 && Parametrizable(l) then At(SegmentEval(LineToSegment(l), lib.atanh(2.0 * t - 1.0), 0))
    else Undefined
  }

  /** The mock-up segment is never below the iszero threshold on both axes. */
  lemma MockSegmentProper(l: Line)
    requires Parametrizable(l)
    ensures !Degenerate(LineToSegment(l))
  {
    var s := LineToSegment(l);
    if !IsZero(l.q) {
      assert Abs(s.p1.x - s.p2.x) == 2.0;
    } else {
      assert Abs(s.p1.y - s.p2.y) == 2.0;
    }
  }

  /**
   * Line inverse: the mock-up segment's parameter s of the point, mapped back by
   * (tanh(s) + 1) / 2. For the (INFINITY, INFINITY) sentinel s is an infinity whose sign is
   * that of the dividing difference, and tanh(+-inf) = +-1 gives 1 or 0. The source never
   * passes any other non-finite point here; the model gives NonFinite for one.
   */
  function LineInverse(l: Line, pt: Point, lib: Libm): (t: Double)
    ensures pt.At? && lib.Valid() ==> t.Finite? && 0.0 < t.v < 1.0
    ensures pt.Infinity? ==> t == Finite(0.0) || t == Finite(1.0)
  {
    if !Parametrizable(l) then
      match pt
      case At(v) => Finite((lib.tanh(MockParamAtInfinity(v)) + 1.0) / 2.0)
      case Infinity => Finite(1.0)
      case Undefined => NonFinite
    else
      MockSegmentProper(l);
      var seg := LineToSegment(l);
      match pt
      case At(v) => Finite((lib.tanh(SegmentParam(seg, v)) + 1.0) / 2.0)
      case Infinity => Finite(if TowardPlusInfinity(seg) then 1.0 else 0.0)
      case Undefined => NonFinite
  }

  /**
   * Segment::inverse on the mock-up segment (-r/0, -1)-(-r/0, 1): the x extent is NaN, which
   * is neither below the iszero threshold nor above the y extent 2, so the parameter is read
   * off the y axis as (y + 1) / 2.
   */
  function MockParamAtInfinity(v: Vec2): real
  {
    (v.y + 1.0) / 2.0
  }

  function LineOrtho(l: Line): Vec2 { Vec2(l.p, l.q) }

  function LineTangent(l: Line): Vec2 { Vec2(-l.q, l.p) }

  /** The normal (p, q) of a line is perpendicular to its tangent (-q, p) and turned from it. */
  lemma LineOrthoTangent(l: Line)
    ensures Dot(LineOrtho(l), LineTangent(l)) == 0.0
    ensures LineOrtho(l) == Ortho(LineTangent(l))
  {
  }

  /**
   * The line through the mock-up segment, in the convention p*x + q*y = r, is the line
   * p*x + q*y = -r scaled by 2/q: a point is on it exactly when p*x + q*y + r = 0.
   */
  lemma MockSegmentLine(l: Line, v: Vec2)
    requires !IsZero(l.q)
    ensures Through(LineToSegment(l)) == Line(2.0 * l.p / l.q, 2.0, -2.0 * l.r / l.q)
    ensures OnLine(Through(LineToSegment(l)), v) <==> OnLineZero(l, v)
  {
    var s := LineToSegment(l);
    var k := 2.0 / l.q;
    MockCoefficients(l.p, l.q, l.r);
    var m := Through(s);
    assert m.p * v.x + m.q * v.y - m.r == k * (l.p * v.x + l.q * v.y + l.r);
    ProductZero(k, l.p * v.x + l.q * v.y + l.r);
  }

  lemma MockCoefficients(p: real, q: real, r: real)
    requires q != 0.0
    ensures -(-(p + r) / q - (p - r) / q) == 2.0 * p / q
    ensures -(-1.0) * (-(p + r) / q - (p - r) / q) + (p - r) / q * (1.0 - -1.0) == -2.0 * r / q
  {
  }

  lemma ProductZero(k: real, x: real)
    requires k != 0.0
    ensures k * x == 0.0 <==> x == 0.0
  {
    if k * x == 0.0 { assert x == (k * x) / k; }
  }

  /**
   * For a line with r = 0 the two conventions agree, and evaluating a line at its inverse
   * gives back any point of it.
   */
  lemma LineEvalInverse(l: Line, v: Vec2, lib: Libm)
    requires lib.Valid() && Parametrizable(l) && (l.q == 0.0 || !IsZero(l.q))
    requires OnLineZero(l, v)
    ensures LineEval(l, LineInverse(l, At(v), lib).v, lib) == At(v)
  {
    MockSegmentProper(l);
    var seg := LineToSegment(l);
    var s := SegmentParam(seg, v);
    var t := (lib.tanh(s) + 1.0) / 2.0;
    assert 2.0 * t - 1.0 == lib.tanh(s);
    assert lib.atanh(lib.tanh(s)) == s;
    if !IsZero(l.q) {
      MockSegmentLine(l, v);
    } else {
      assert Cross(Sub(seg.p2, seg.p1), Sub(v, seg.p1)) == 2.0 * (seg.p1.x - v.x);
      assert l.p * (seg.p1.x - v.x) == 0.0;
      ProductZero(l.p, seg.p1.x - v.x);
    }
    ThroughIsCollinear(seg, v);
    SegmentEvalParam(seg, v);
  }

  /** Line inverse undoes line evaluation on (0, 1). */
  lemma LineInverseEval(l: Line, t: real, lib: Libm)
    requires lib.Valid() && Parametrizable(l) && 0.0 < t < 1.0
    ensures LineInverse(l, LineEval(l, t, lib), lib) == Finite(t)
  {
    MockSegmentProper(l);
    var seg := LineToSegment(l);
    var s := lib.atanh(2.0 * t - 1.0);
    SegmentParamEval(seg, s);
    assert lib.tanh(s) == 2.0 * t - 1.0;
  }

  // ---------------------------------------------------------------- Segment

  /** Order 0: (1 - t) p1 + t p2; order 1: p2 - p1; any higher order: (0, 0). */
  function SegmentEval(s: Segment, t: real, order: nat): Vec2
  {
    if order == 0 then Add(ScalarMul(1.0 - t, s.p1), ScalarMul(t, s.p2))
    else if order == 1 then Sub(s.p2, s.p1)
    else Zero
  }

  /** Both extents are below the iszero threshold: inverse returns 0. */
  predicate Degenerate(s: Segment)
  {
    IsZero(Abs(s.p1.x - s.p2.x)) && IsZero(Abs(s.p1.y - s.p2.y))
  }

  /** The parameter of a finite point, read off the axis with the larger extent. */
  function SegmentParam(s: Segment, v: Vec2): real
    requires !Degenerate(s)
  {
    if Abs(s.p1.x - s.p2.x) > Abs(s.p1.y - s.p2.y) then (v.x - s.p1.x) / (s.p2.x - s.p1.x)
    else (v.y - s.p1.y) / (s.p2.y - s.p1.y)
  }

  /** Whether the parameter of the (INFINITY, INFINITY) sentinel is +inf (else -inf). */
  predicate TowardPlusInfinity(s: Segment)
  {
    if Abs(s.p1.x - s.p2.x) > Abs(s.p1.y - s.p2.y) then s.p2.x - s.p1.x > 0.0 else s.p2.y - s.p1.y > 0.0
  }

  /**
   * Segment inverse: 0 for a degenerate segment, whatever the point; else the parameter of
   * the point, which is an infinity or NaN for a non-finite point.
   */
  function SegmentInverse(s: Segment, pt: Point): (t: Double)
    ensures Degenerate(s) ==> t == Finite(0.0)
    ensures !Degenerate(s) ==> (t.Finite? <==> pt.At?)
  {
    if Degenerate(s) then Finite(0.0)
    else match pt
      case At(v) => Finite(SegmentParam(s, v))
      case _ => NonFinite
  }

  /** The tangent p1 - p2 (it points from p2 to p1) and the normal turned from it. */
  function SegmentTangent(s: Segment): Vec2 { Sub(s.p1, s.p2) }

  function SegmentOrtho(s: Segment): Vec2 { Ortho(SegmentTangent(s)) }

  /** The end points, the constant order-1 value and the zero higher orders. */
  lemma SegmentEvalLaws(s: Segment, t: real, order: nat)
    ensures SegmentEval(s, 0.0, 0) == s.p1 && SegmentEval(s, 1.0, 0) == s.p2
    ensures SegmentEval(s, t, 0) == Add(s.p1, Scale(SegmentEval(s, t, 1), t))
    ensures order >= 2 ==> SegmentEval(s, t, order) == Zero
  {
  }

  /** The normal of a segment is perpendicular to its tangent and as long. */
  lemma SegmentOrthoTangent(s: Segment)
    ensures Dot(SegmentOrtho(s), SegmentTangent(s)) == 0.0
    ensures Dot(SegmentOrtho(s), SegmentOrtho(s)) == Dot(SegmentTangent(s), SegmentTangent(s))
  {
  }

  /** The inverse of a point of the segment is its parameter, for every real t. */
  lemma SegmentParamEval(s: Segment, t: real)
    requires !Degenerate(s)
    ensures SegmentParam(s, SegmentEval(s, t, 0)) == t
  {
    if Abs(s.p1.x - s.p2.x) > Abs(s.p1.y - s.p2.y) {
      XAxisParamEval(s, t);
    } else {
      YAxisParamEval(s, t);
    }
  }

  lemma XAxisParamEval(s: Segment, t: real)
    requires !Degenerate(s) && Abs(s.p1.x - s.p2.x) > Abs(s.p1.y - s.p2.y)
    ensures SegmentParam(s, SegmentEval(s, t, 0)) == t
  {
    AxisParamEval(s.p1.x, s.p2.x, t, SegmentEval(s, t, 0).x);
  }

  lemma YAxisParamEval(s: Segment, t: real)
    requires !Degenerate(s) && !(Abs(s.p1.x - s.p2.x) > Abs(s.p1.y - s.p2.y))
    ensures SegmentParam(s, SegmentEval(s, t, 0)) == t
  {
    assert s.p2.y - s.p1.y != 0.0;
    AxisParamEval(s.p1.y, s.p2.y, t, SegmentEval(s, t, 0).y);
  }

  /** On one axis: the coordinate at t, read back as a parameter, is t. */
  lemma AxisParamEval(a1: real, a2: real, t: real, va: real)
    requires a2 - a1 != 0.0 && va == (1.0 - t) * a1 + t * a2
    ensures (va - a1) / (a2 - a1) == t
  {
    LerpOffset(a1, a2, t);
    DivCancel(t, a2 - a1);
  }

  lemma LerpOffset(a: real, b: real, t: real)
    ensures (1.0 - t) * a + t * b - a == t * (b - a)
  {
  }

  lemma DivCancel(t: real, d: real)
    requires d != 0.0
    ensures t * d / d == t
  {
  }

  /** Segment inverse undoes evaluation on every non-degenerate segment. */
  lemma SegmentInverseEval(s: Segment, t: real)
    requires !Degenerate(s)
    ensures SegmentInverse(s, At(SegmentEval(s, t, 0))) == Finite(t)
  {
    SegmentParamEval(s, t);
  }

  /** Evaluating at the inverse gives back any point collinear with the end points. */
  lemma SegmentEvalParam(s: Segment, v: Vec2)
    requires !Degenerate(s) && Cross(Sub(s.p2, s.p1), Sub(v, s.p1)) == 0.0
    ensures SegmentEval(s, SegmentParam(s, v), 0) == v
  {
    var x1, y1, x2, y2 := s.p1.x, s.p1.y, s.p2.x, s.p2.y;
    CrossZero(x1, y1, x2, y2, v.x, v.y);
    if Abs(x1 - x2) > Abs(y1 - y2) {
      XAxisEvalParam(s, v);
    } else {
      YAxisEvalParam(s, v);
    }
  }

  lemma XAxisEvalParam(s: Segment, v: Vec2)
    requires Abs(s.p1.x - s.p2.x) > Abs(s.p1.y - s.p2.y)
    requires (s.p2.x - s.p1.x) * (v.y - s.p1.y) == (s.p2.y - s.p1.y) * (v.x - s.p1.x)
    ensures SegmentEval(s, (v.x - s.p1.x) / (s.p2.x - s.p1.x), 0) == v
  {
    AxisInverse(s.p1.x, s.p2.x, s.p1.y, s.p2.y, v.x, v.y);
    SegmentEvalAt(s, (v.x - s.p1.x) / (s.p2.x - s.p1.x), v);
  }

  lemma YAxisEvalParam(s: Segment, v: Vec2)
    requires !Degenerate(s) && !(Abs(s.p1.x - s.p2.x) > Abs(s.p1.y - s.p2.y))
    requires (s.p2.y - s.p1.y) * (v.x - s.p1.x) == (s.p2.x - s.p1.x) * (v.y - s.p1.y)
    ensures s.p2.y - s.p1.y != 0.0 && SegmentEval(s, (v.y - s.p1.y) / (s.p2.y - s.p1.y), 0) == v
  {
    assert s.p2.y - s.p1.y != 0.0;
    AxisInverse(s.p1.y, s.p2.y, s.p1.x, s.p2.x, v.y, v.x);
    SegmentEvalAt(s, (v.y - s.p1.y) / (s.p2.y - s.p1.y), v);
  }

  lemma SegmentEvalAt(s: Segment, t: real, v: Vec2)
    requires (1.0 - t) * s.p1.x + t * s.p2.x == v.x && (1.0 - t) * s.p1.y + t * s.p2.y == v.y
    ensures SegmentEval(s, t, 0) == v
  {
    var a, b := ScalarMul(1.0 - t, s.p1), ScalarMul(t, s.p2);
    assert a.x + b.x == v.x && a.y + b.y == v.y;
    assert SegmentEval(s, t, 0) == Add(a, b);
  }

  lemma CrossZero(x1: real, y1: real, x2: real, y2: real, vx: real, vy: real)
    requires Cross(Sub(Vec2(x2, y2), Vec2(x1, y1)), Sub(Vec2(vx, vy), Vec2(x1, y1))) == 0.0
    ensures (x2 - x1) * (vy - y1) == (y2 - y1) * (vx - x1)
    ensures (y2 - y1) * (vx - x1) == (x2 - x1) * (vy - y1)
  {
  }

  /**
   * The parameter read off one axis, (va - a1) / (a2 - a1), reproduces both coordinates of a
   * point collinear with (a1, b1) and (a2, b2).
   */
  lemma AxisInverse(a1: real, a2: real, b1: real, b2: real, va: real, vb: real)
    requires a2 - a1 != 0.0 && (a2 - a1) * (vb - b1) == (b2 - b1) * (va - a1)
    ensures var t := (va - a1) / (a2 - a1);
      (1.0 - t) * a1 + t * a2 == va && (1.0 - t) * b1 + t * b2 == vb
  {
    var t := (va - a1) / (a2 - a1);
    LerpOffset(a1, a2, t);
    LerpOffset(b1, b2, t);
    CollinearStep(a2 - a1, b2 - b1, va - a1, vb - b1);
  }

  /** With a != 0 and a*d = b*c, the ratio c/a carries (a, b) onto (c, d). */
  lemma CollinearStep(a: real, b: real, c: real, d: real)
    requires a != 0.0 && a * d == b * c
    ensures c / a * a == c && c / a * b == d
  {
  }

  // ---------------------------------------------------------------- Arc

  /**
   * The Arc constructor: theta_min = pfmod(theta_min_, 2 pi), and theta_max = pfmod(theta_max_,
   * 2 pi) raised by 2 pi when it is not above theta_min, so that the arc runs anticlockwise.
   */
  function MakeArc(p0: Vec2, r: real, thetaMin: real, thetaMax: real): (a: Arc)
    ensures a.p0 == p0 && a.r == r
    ensures 0.0 <= a.thetaMin <= TwoPi
    ensures a.thetaMin <= a.thetaMax <= a.thetaMin + TwoPi
    ensures a.thetaMin < TwoPi ==> a.thetaMin < a.thetaMax
  {
    PfmodRange(thetaMin, TwoPi);
    PfmodRange(thetaMax, TwoPi);
    var lo := Pfmod(thetaMin, TwoPi);
    var hi := Pfmod(thetaMax, TwoPi);
    Arc(p0, r, lo, hi + (if hi <= lo then TwoPi else 0.0))
  }

  /** The constructor on a full turn from 0, and on a turn that wraps past 2 pi. */
  lemma MakeArcExamples(p0: Vec2, r: real)
    ensures MakeArc(p0, r, 0.0, TwoPi) == Arc(p0, r, 0.0, TwoPi)
    ensures MakeArc(p0, r, 3.0 * PI / 2.0, PI / 2.0) == Arc(p0, r, 3.0 * PI / 2.0, 5.0 * PI / 2.0)
  {
    PfmodIdentity(0.0, TwoPi);
    PfmodPeriod(TwoPi, TwoPi);
    PfmodIdentity(3.0 * PI / 2.0, TwoPi);
    PfmodIdentity(PI / 2.0, TwoPi);
  }

  /**
   * Re-running the constructor on the stored angles of a constructed arc gives the same arc,
   * as long as theta_min is below 2 pi (it equals 2 pi only for negative whole turns).
   */
  lemma MakeArcIdempotent(p0: Vec2, r: real, thetaMin: real, thetaMax: real)
    requires MakeArc(p0, r, thetaMin, thetaMax).thetaMin < TwoPi
    ensures var a := MakeArc(p0, r, thetaMin, thetaMax);
      MakeArc(p0, r, a.thetaMin, a.thetaMax) == a
  {
    var a := MakeArc(p0, r, thetaMin, thetaMax);
    PfmodIdentity(a.thetaMin, TwoPi);
    if a.thetaMax < TwoPi {
      PfmodIdentity(a.thetaMax, TwoPi);
    } else {
      PfmodPeriod(a.thetaMax, TwoPi);
    }
  }

  /** pfmod takes one period off a value in [y, 2y). */
  lemma PfmodPeriod(x: real, y: real)
    requires y > 0.0 && y <= x < y + y
    ensures Pfmod(x, y) == x - y
  {
    var z := x / y;
    assert z * y == x;
    assert 1.0 <= z by {
      if z < 1.0 { ScaleLt(z, 1.0, y); }
    }
    assert z < 2.0 by {
      if z >= 2.0 { ScaleLe(2.0, z, y); }
    }
    assert Trunc(z) == 1;
  }

  /** Order-0 evaluation of an arc: the point at angle lerp(theta_min, theta_max, t). */
  function ArcEval(a: Arc, t: real, lib: Libm): Vec2
  {
    var theta := Lerp(a.thetaMin, a.thetaMax, t);
    Add(Vec2(a.r * lib.cos(theta), a.r * lib.sin(theta)), a.p0)
  }

  /** The unit tangent (-sin, cos) at angle lerp(theta_min, theta_max, t). */
  function ArcTangent(a: Arc, t: real, lib: Libm): Vec2
  {
    var theta := Lerp(a.thetaMin, a.thetaMax, t);
    Vec2(-lib.sin(theta), lib.cos(theta))
  }

  function ArcOrtho(a: Arc, t: real, lib: Libm): Vec2 { Ortho(ArcTangent(a, t, lib)) }

  /**
   * Every arc point is at distance r from the centre, the tangent has length 1, and the normal
   * is the outward radius scaled to length 1.
   */
  lemma ArcEvalLaws(a: Arc, t: real, lib: Libm)
    requires lib.Valid()
    ensures var d := Sub(ArcEval(a, t, lib), a.p0); Dot(d, d) == a.r * a.r
    ensures Dot(ArcTangent(a, t, lib), ArcTangent(a, t, lib)) == 1.0
    ensures Sub(ArcEval(a, t, lib), a.p0) == Scale(ArcOrtho(a, t, lib), a.r)
  {
    var theta := Lerp(a.thetaMin, a.thetaMax, t);
    var c := lib.cos(theta);
    var s := lib.sin(theta);
    assert c * c + s * s == 1.0;
    var d := Sub(ArcEval(a, t, lib), a.p0);
    assert d == Vec2(a.r * c, a.r * s);
    assert Dot(d, d) == a.r * a.r * (c * c + s * s);
  }

  /**
   * Arc::inverse as written: the angle of the point in [0, 2 pi] and the arc's span, both
   * reduced by pfmod, then ilerp(0, span, angle). For a full circle the reduced span is 0 and
   * the division gives an infinity or NaN.
   */
  function ArcInverseAsWritten(a: Arc, v: Vec2, lib: Libm): Double
  {
    var rel := Sub(v, a.p0);
    var theta := Pfmod(lib.atan2(rel.y, rel.x), TwoPi);
    var span := Pfmod(a.thetaMax - a.thetaMin, TwoPi);
    if span == 0.0 then NonFinite else Finite(Ilerp(0.0, span, Pfmod(theta - a.thetaMin, TwoPi)))
  }

  /** A constructed full circle has no finite inverse at any point. */
  lemma FullCircleInverseAsWritten(p0: Vec2, r: real, v: Vec2, lib: Libm)
    ensures ArcInverseAsWritten(MakeArc(p0, r, 0.0, TwoPi), v, lib) == NonFinite
  {
    MakeArcExamples(p0, r);
    assert Trunc(TwoPi / TwoPi) == 1;
  }

  /**
   * Arc::inverse with the span theta_max - theta_min, which the constructor keeps in
   * (0, 2 pi] whenever theta_min < 2 pi.
   */
  function ArcInverse(a: Arc, v: Vec2, lib: Libm): (t: Double)
    ensures t.Finite? <==> a.thetaMax != a.thetaMin
  {
    var rel := Sub(v, a.p0);
    var theta := Pfmod(lib.atan2(rel.y, rel.x), TwoPi);
    var span := a.thetaMax - a.thetaMin;
    if span == 0.0 then NonFinite else Finite(Ilerp(0.0, span, Pfmod(theta - a.thetaMin, TwoPi)))
  }

  /** Below a full turn, both inverses agree. */
  lemma ArcInverseAgrees(a: Arc, v: Vec2, lib: Libm)
    requires 0.0 <= a.thetaMax - a.thetaMin < TwoPi
    ensures ArcInverse(a, v, lib) == ArcInverseAsWritten(a, v, lib)
  {
    PfmodIdentity(a.thetaMax - a.thetaMin, TwoPi);
  }

  /**
   * The inverse undoes evaluation on [0, 1) for every arc of positive radius whose angles
   * the constructor could have produced with theta_min < 2 pi, full circles included.
   */
  lemma ArcInverseEval(a: Arc, t: real, lib: Libm)
    requires lib.Valid() && a.r > 0.0
    requires 0.0 <= a.thetaMin < TwoPi && a.thetaMin < a.thetaMax <= a.thetaMin + TwoPi
    requires 0.0 <= t < 1.0
    ensures ArcInverse(a, ArcEval(a, t, lib), lib) == Finite(t)
  {
    var span := a.thetaMax - a.thetaMin;
    var target := span * t;
    TargetRange(span, t);
    var theta1 := Lerp(a.thetaMin, a.thetaMax, t);
    assert theta1 == a.thetaMin + target;
    var rel := Sub(ArcEval(a, t, lib), a.p0);
    var alpha := lib.atan2(rel.y, rel.x);
    ArcAngle(a, t, lib);
    var theta := Pfmod(alpha, TwoPi);
    PfmodSmall(alpha, TwoPi);
    PfmodMultiple(alpha, TwoPi);
    var delta := theta - a.thetaMin;
    PfmodSmall(delta, TwoPi);
    PfmodMultiple(delta, TwoPi);
    var rho := Pfmod(delta, TwoPi);
    assert rho - target == (rho - delta) + (theta - alpha) + (alpha - theta1);
    MultipleSum(rho - delta, theta - alpha, alpha - theta1, TwoPi);
    CongruentEqual(rho, target, TwoPi);
    assert Ilerp(0.0, span, rho) == target / span;
  }

  /** The angle atan2 reports for an arc point is in (-pi, pi] and a whole turn off lerp. */
  lemma ArcAngle(a: Arc, t: real, lib: Libm)
    requires lib.Valid() && a.r > 0.0
    ensures var rel := Sub(ArcEval(a, t, lib), a.p0);
      -PI < lib.atan2(rel.y, rel.x) <= PI &&
      IsInteger((lib.atan2(rel.y, rel.x) - Lerp(a.thetaMin, a.thetaMax, t)) / TwoPi)
  {
    var theta1 := Lerp(a.thetaMin, a.thetaMax, t);
    var rel := Sub(ArcEval(a, t, lib), a.p0);
    assert rel.x == PolarX(lib, a.r, theta1) && rel.y == PolarY(lib, a.r, theta1);
    PolarOf(lib, rel.x, rel.y, a.r, theta1);
  }

  lemma TargetRange(span: real, t: real)
    requires 0.0 < span <= TwoPi && 0.0 <= t < 1.0
    ensures 0.0 <= span * t < TwoPi
    ensures (span * t) / span == t
  {
    assert span * t < span * 1.0 by { ScaleLt(t, 1.0, span); }
  }

  /** On (-y, y), pfmod lands in [0, y). */
  lemma PfmodSmall(x: real, y: real)
    requires y > 0.0 && -y < x < y
    ensures 0.0 <= Pfmod(x, y) < y
  {
    UnitQuotient(x, y);
    assert Trunc(x / y) == 0;
  }

  /** A value strictly between -y and y has a quotient by y strictly between -1 and 1. */
  lemma UnitQuotient(x: real, y: real)
    requires y > 0.0 && -y < x < y
    ensures -1.0 < x / y < 1.0
  {
    var z := x / y;
    assert z * y == x;
    if z >= 1.0 {
      ScaleLe(1.0, z, y);
      assert false;
    }
    if z <= -1.0 {
      ScaleLe(z, -1.0, y);
      assert false;
    }
  }

  lemma MultipleSum(u: real, v: real, w: real, y: real)
    requires y != 0.0 && IsInteger(u / y) && IsInteger(v / y) && IsInteger(w / y)
    ensures IsInteger((u + v + w) / y)
  {
    DivSum(u, v, w, y);
    IntegerSum(u / y, v / y, w / y);
  }

  lemma DivSum(u: real, v: real, w: real, y: real)
    requires y != 0.0
    ensures (u + v + w) / y == u / y + v / y + w / y
  {
  }

  lemma IntegerSum(a: real, b: real, c: real)
    requires IsInteger(a) && IsInteger(b) && IsInteger(c)
    ensures IsInteger(a + b + c)
  {
    var k := a.Floor + b.Floor + c.Floor;
    assert a + b + c == k as real;
  }

  /** Two values of [0, y) that differ by a whole multiple of y are equal. */
  lemma CongruentEqual(a: real, b: real, y: real)
    requires y > 0.0 && 0.0 <= a < y && 0.0 <= b < y && IsInteger((a - b) / y)
    ensures a == b
  {
    UnitQuotient(a - b, y);
    var z := (a - b) / y;
    assert z.Floor == 0 || z.Floor == -1;
    assert z == 0.0;
    assert a - b == z * y;
  }

  // ---------------------------------------------------------------- BezierCubic

  /** The Bernstein form of one coordinate and its first three derivatives. */
  function Bernstein(t: real, a: real, b: real, c: real, d: real, order: nat): real
    requires order <= 3
  {
    if order == 0 then
      (1.0 - t) * (1.0 - t) * (1.0 - t) * a + 3.0 * (1.0 - t) * (1.0 - t) * t * b
      + 3.0 * (1.0 - t) * t * t * c + t * t * t * d
    else if order == 1 then
      3.0 * (1.0 - t) * (1.0 - t) * (b - a) + 6.0 * (1.0 - t) * t * (c - b) + 3.0 * t * t * (d - c)
    else if order == 2 then
      6.0 * (1.0 - t) * (c - 2.0 * b + a) + 6.0 * t * (d - 2.0 * c + b)
    else
      6.0 * (d - 3.0 * c + 3.0 * b - a)
  }

  /** The value the source gives for order 3: p0 - p1 - p2 + p3. */
  function BezierEvalAsWritten(b: BezierCubic, t: real, order: nat): Vec2
    requires order <= 3
  {
    if order == 3 then Add(Sub(Sub(b.p0, b.p1), b.p2), b.p3) else BezierEval(b, t, order)
  }

  /**
   * Order 0 is the Bernstein form, orders 1 and 2 its first two derivatives as in the source,
   * and order 3 the constant third derivative 6 (p3 - 3 p2 + 3 p1 - p0).
   */
  function BezierEval(b: BezierCubic, t: real, order: nat): Vec2
    requires order <= 3
  {
    Vec2(Bernstein(t, b.p0.x, b.p1.x, b.p2.x, b.p3.x, order),
         Bernstein(t, b.p0.y, b.p1.y, b.p2.y, b.p3.y, order))
  }

  /** The tangent is the order-1 value. */
  function BezierTangent(b: BezierCubic, t: real): Vec2 { BezierEval(b, t, 1) }

  function BezierOrtho(b: BezierCubic, t: real): Vec2 { Ortho(BezierTangent(b, t)) }

  /** BezierCubic::inverse is not implemented and returns 0 for every point. */
  function BezierInverse(b: BezierCubic, pt: Point): (t: Double)
    ensures t == Finite(0.0)
  {
    Finite(0.0)
  }

  /** End points and end tangents of the Bernstein form. */
  lemma BezierEnds(b: BezierCubic)
    ensures BezierEval(b, 0.0, 0) == b.p0 && BezierEval(b, 1.0, 0) == b.p3
    ensures BezierTangent(b, 0.0) == ScalarMul(3.0, Sub(b.p1, b.p0))
    ensures BezierTangent(b, 1.0) == ScalarMul(3.0, Sub(b.p3, b.p2))
  {
    BernsteinEnds(b.p0.x, b.p1.x, b.p2.x, b.p3.x);
    BernsteinEnds(b.p0.y, b.p1.y, b.p2.y, b.p3.y);
  }

  lemma BernsteinEnds(a: real, b: real, c: real, d: real)
    ensures Bernstein(0.0, a, b, c, d, 0) == a && Bernstein(1.0, a, b, c, d, 0) == d
    ensures Bernstein(0.0, a, b, c, d, 1) == 3.0 * (b - a) && Bernstein(1.0, a, b, c, d, 1) == 3.0 * (d - c)
  {
  }

  /** The order-2 value grows linearly in t with the slope given by the order-3 value. */
  lemma BezierThirdDerivative(b: BezierCubic, t: real)
    ensures BezierEval(b, t, 2) == Add(BezierEval(b, 0.0, 2), ScalarMul(t, BezierEval(b, t, 3)))
  {
  }

  /** The order-3 value as written is not that slope: p3 = (1, 0), the rest at the origin. */
  lemma BezierThirdAsWritten()
    ensures var b := BezierCubic(Zero, Zero, Zero, Vec2(1.0, 0.0));
      BezierEvalAsWritten(b, 0.0, 3) == Vec2(1.0, 0.0) &&
      Sub(BezierEval(b, 1.0, 2), BezierEval(b, 0.0, 2)) == Vec2(6.0, 0.0)
  {
    var b := BezierCubic(Zero, Zero, Zero, Vec2(1.0, 0.0));
    assert Bernstein(1.0, 0.0, 0.0, 0.0, 1.0, 2) == 6.0;
    assert Bernstein(0.0, 0.0, 0.0, 0.0, 1.0, 2) == 0.0;
    assert Bernstein(1.0, 0.0, 0.0, 0.0, 0.0, 2) == 0.0;
    assert Bernstein(0.0, 0.0, 0.0, 0.0, 0.0, 2) == 0.0;
  }

  // ---------------------------------------------------------------- Curve

  /** The four curve classes that derive from Curve. */
  datatype Curve =
    | LineCurve(line: Line)
    | SegmentCurve(seg: Segment)
    | ArcCurve(arc: Arc)
    | BezierCurve(bezier: BezierCubic)

  /** operator()(t, order) of each curve; only Line can give a non-finite point. */
  function Eval(c: Curve, t: real, order: nat, lib: Libm): (pt: Point)
    requires order <= 3
    ensures !c.LineCurve? ==> pt.At?
  {
    match c
    case LineCurve(l) => LineEval(l, t, lib)
    case SegmentCurve(s) => At(SegmentEval(s, t, order))
    case ArcCurve(a) => At(ArcEval(a, t, lib))
    case BezierCurve(b) => At(BezierEval(b, t, order))
  }

  function Tangent(c: Curve, t: real, lib: Libm): Vec2
  {
    match c
    case LineCurve(l) => LineTangent(l)
    case SegmentCurve(s) => SegmentTangent(s)
    case ArcCurve(a) => ArcTangent(a, t, lib)
    case BezierCurve(b) => BezierTangent(b, t)
  }

  function CurveOrtho(c: Curve, t: real, lib: Libm): Vec2
  {
    match c
    case LineCurve(l) => LineOrtho(l)
    case SegmentCurve(s) => SegmentOrtho(s)
    case ArcCurve(a) => ArcOrtho(a, t, lib)
    case BezierCurve(b) => BezierOrtho(b, t)
  }

  /** For every curve the normal is the tangent turned a quarter clockwise. */
  lemma OrthoOfTangent(c: Curve, t: real, lib: Libm)
    ensures CurveOrtho(c, t, lib) == Ortho(Tangent(c, t, lib))
    ensures Dot(CurveOrtho(c, t, lib), Tangent(c, t, lib)) == 0.0
  {
  }
}
