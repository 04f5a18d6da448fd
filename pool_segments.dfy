/**
 * The segments of the segment-only engine of chaotic_pool/physics/src: EPS-widened bounding
 * boxes instead of parameter intervals (curve.hpp, segment.hpp) and the segment_segment
 * routine of collider.hpp. Line coefficients and Cramer's rule are shared with the later engine.
 */
module PoolSegments {
  import opened LibM
  import opened Vectors
  import opened Globals
  import opened Doubles
  import opened Shapes
  import opened Lines
  import opened Curves
  import opened Collider

  // ---------------------------------------------------------------- curves

  function Min(a: real, b: real): real { if a <= b then a else b }
  function Max(a: real, b: real): real { if a <= b then b else a }

  /** in_bounds: the point lies in the segment's bounding box widened by EPS on every side. */
  predicate InBounds(s: Segment, p: Vec2)
  {
    Min(s.p1.x, s.p2.x) - EPS <= p.x <= Max(s.p1.x, s.p2.x) + EPS &&
    Min(s.p1.y, s.p2.y) - EPS <= p.y <= Max(s.p1.y, s.p2.y) + EPS
  }

  /** The widened box of a segment holds every point of the segment. */
  lemma SegmentInBounds(s: Segment, t: real)
    requires 0.0 <= t <= 1.0
    ensures InBounds(s, SegmentEval(s, t, 0))
  {
    var x1, x2 := s.p1.x, s.p2.x;
    assert (1.0 - t) * x1 + t * x2 == x1 + t * (x2 - x1);
    var y1, y2 := s.p1.y, s.p2.y;
    assert (1.0 - t) * y1 + t * y2 == y1 + t * (y2 - y1);
    BetweenEnds(x1, x2, t);
    BetweenEnds(y1, y2, t);
  }

  lemma BetweenEnds(a: real, b: real, t: real)
    requires 0.0 <= t <= 1.0
    ensures Min(a, b) <= a + t * (b - a) <= Max(a, b)
  {
    if a <= b {
      OrderedBetween(a, b, t);
    } else {
      OrderedBetween(b, a, 1.0 - t);
      assert b + (1.0 - t) * (a - b) == a + t * (b - a);
    }
  }

  lemma OrderedBetween(a: real, b: real, t: real)
    requires 0.0 <= t <= 1.0 && a <= b
    ensures a <= a + t * (b - a) <= b
  {
    MulLe(0.0, t, b - a);
    MulLe(t, 1.0, b - a);
  }

  /**
   * A point of the segment's line outside the parameter range [-EPS / w, 1 + EPS / w], with w
   * the extent of the segment along x, is outside the box.
   */
  lemma OutsideRangeOutOfBounds(s: Segment, t: real)
    requires s.p2.x - s.p1.x > 0.0
    requires t * (s.p2.x - s.p1.x) < -EPS || t * (s.p2.x - s.p1.x) > (s.p2.x - s.p1.x) + EPS
    ensures !InBounds(s, SegmentEval(s, t, 0))
  {
    assert SegmentEval(s, t, 0).x == s.p1.x + t * (s.p2.x - s.p1.x);
  }

  /** The segment's point at t, whatever the order: the older evaluator has no order cases. */
  function PoolSegmentEval(s: Segment, t: real, order: nat): (v: Vec2)
    ensures v == SegmentEval(s, t, 0)
  {
    Add(ScalarMul(1.0 - t, s.p1), ScalarMul(t, s.p2))
  }

  /** What evaluating a Line does in the older engine: it always throws. */
  datatype Evaluation = Value(v: Vec2) | Thrown(message: string)

  function PoolLineEval(l: Line, t: real, order: nat): (e: Evaluation)
    ensures e.Thrown?
  {
    Thrown("cannot parametrize an infinite line")
  }

  /**
   * inverse_param: the parameter along the axis of larger extent, with no guard for equal ends;
   * a zero denominator gives an infinite or NaN parameter.
   */
  function InverseParam(s: Segment, pt: Point): Double
  {
    if !pt.At? then NonFinite
    else if Abs(s.p1.x - s.p2.x) > Abs(s.p1.y - s.p2.y) then
      Finite((pt.v.x - s.p1.x) / (s.p2.x - s.p1.x))
    else if s.p2.y - s.p1.y == 0.0 then NonFinite
    else Finite((pt.v.y - s.p1.y) / (s.p2.y - s.p1.y))
  }

  /** The parameter is finite at every finite point exactly when the ends differ. */
  lemma InverseParamFinite(s: Segment, v: Vec2)
    ensures InverseParam(s, At(v)).Finite? <==> s.p1 != s.p2
  {
    if s.p1 != s.p2 && Abs(s.p1.x - s.p2.x) <= Abs(s.p1.y - s.p2.y) {
      assert s.p2.y - s.p1.y != 0.0;
    }
  }

  /** inverse_param undoes the evaluation of a segment with distinct ends. */
  lemma {:induction false} InverseParamEval(s: Segment, t: real)
    requires s.p1 != s.p2
    ensures InverseParam(s, At(SegmentEval(s, t, 0))) == Finite(t)
  {
    var x1, y1, x2, y2 := s.p1.x, s.p1.y, s.p2.x, s.p2.y;
    assert SegmentEval(s, t, 0) == Vec2((1.0 - t) * x1 + t * x2, (1.0 - t) * y1 + t * y2);
    if Abs(x1 - x2) > Abs(y1 - y2) {
      AxisParam(x1, x2, t);
    } else {
      assert y2 - y1 != 0.0;
      AxisParam(y1, y2, t);
    }
  }

  /** The parameter read off one axis undoes the interpolation along it. */
  lemma AxisParam(a1: real, a2: real, t: real)
    requires a2 - a1 != 0.0
    ensures ((1.0 - t) * a1 + t * a2 - a1) / (a2 - a1) == t
  {
    LerpOffset(a1, a2, t);
    DivCancel(t, a2 - a1);
  }

  /** Away from degenerate segments, inverse_param and Segment::inverse agree. */
  lemma InverseParamAgrees(s: Segment, v: Vec2)
    requires !Degenerate(s)
    ensures InverseParam(s, At(v)) == Finite(SegmentParam(s, v))
  {
    if Abs(s.p1.x - s.p2.x) <= Abs(s.p1.y - s.p2.y) {
      assert !IsZero(Abs(s.p1.y - s.p2.y));
    }
  }

  // ---------------------------------------------------------------- collider.hpp and segment.hpp

  /** Collider::segment_segment: the inverse parameters of the lines' common point. */
  function PoolSegmentSegment(s1: Segment, s2: Segment): (tp: ParamPair)
    ensures IsZero(Det(Through(s1), Through(s2))) ==> !tp.t1.Finite? && !tp.t2.Finite?
  {
    var pt := Solve(Through(s1), Through(s2));
    ParamPair(InverseParam(s1, pt), InverseParam(s2, pt))
  }

  /** For crossing segments with distinct ends, both parameters name the common point. */
  lemma PoolSegmentSegmentMeet(s1: Segment, s2: Segment)
    requires s1.p1 != s1.p2 && s2.p1 != s2.p2 && !IsZero(Det(Through(s1), Through(s2)))
    ensures var tp := PoolSegmentSegment(s1, s2);
      tp.t1.Finite? && tp.t2.Finite? &&
      SegmentEval(s1, tp.t1.v, 0) == SegmentEval(s2, tp.t2.v, 0) == Solve(Through(s1), Through(s2)).v
  {
    var pt := Solve(Through(s1), Through(s2));
    OnThroughParam(s1, pt.v);
    OnThroughParam(s2, pt.v);
  }

  /** A point of the line through distinct ends is the segment at its inverse parameter. */
  lemma OnThroughParam(s: Segment, v: Vec2)
    requires s.p1 != s.p2 && OnLine(Through(s), v)
    ensures InverseParam(s, At(v)).Finite? && SegmentEval(s, InverseParam(s, At(v)).v, 0) == v
  {
    ThroughIsCollinear(s, v);
    var x1, y1, x2, y2 := s.p1.x, s.p1.y, s.p2.x, s.p2.y;
    CrossZero(x1, y1, x2, y2, v.x, v.y);
    if Abs(x1 - x2) > Abs(y1 - y2) {
      assert InverseParam(s, At(v)) == Finite((v.x - x1) / (x2 - x1));
      EvalAtXParam(s, v);
    } else {
      assert y2 - y1 != 0.0;
      assert InverseParam(s, At(v)) == Finite((v.y - y1) / (y2 - y1));
      EvalAtYParam(s, v);
    }
  }

  lemma EvalAtXParam(s: Segment, v: Vec2)
    requires s.p2.x - s.p1.x != 0.0
    requires (s.p2.x - s.p1.x) * (v.y - s.p1.y) == (s.p2.y - s.p1.y) * (v.x - s.p1.x)
    ensures SegmentEval(s, (v.x - s.p1.x) / (s.p2.x - s.p1.x), 0) == v
  {
    AxisInverse(s.p1.x, s.p2.x, s.p1.y, s.p2.y, v.x, v.y);
    SegmentEvalAt(s, (v.x - s.p1.x) / (s.p2.x - s.p1.x), v);
  }

  lemma EvalAtYParam(s: Segment, v: Vec2)
    requires s.p2.y - s.p1.y != 0.0
    requires (s.p2.y - s.p1.y) * (v.x - s.p1.x) == (s.p2.x - s.p1.x) * (v.y - s.p1.y)
    ensures SegmentEval(s, (v.y - s.p1.y) / (s.p2.y - s.p1.y), 0) == v
  {
    AxisInverse(s.p1.y, s.p2.y, s.p1.x, s.p2.x, v.y, v.x);
    SegmentEvalAt(s, (v.y - s.p1.y) / (s.p2.y - s.p1.y), v);
  }

  /** SegmentIntersection: the lines' common point and whether it is in both boxes. */
  datatype SegmentIntersection = SegmentIntersection(point: Point, onSegment: bool)

  /**
   * Segment::intersect. For the (INFINITY, INFINITY) sentinel the comparisons with the upper
   * box ends are false, so on_segment is false for parallel segments.
   */
  function Intersect(s1: Segment, s2: Segment): (r: SegmentIntersection)
    ensures r.point == Solve(Through(s1), Through(s2))
    ensures r.onSegment <==> r.point.At? && InBounds(s1, r.point.v) && InBounds(s2, r.point.v)
  {
    var pt := Solve(Through(s1), Through(s2));
    SegmentIntersection(pt, pt.At? && InBounds(s1, pt.v) && InBounds(s2, pt.v))
  }

  /**
   * An intersection on both segments is a point of both lines, and is the segments' common
   * point for crossing segments with distinct ends.
   */
  lemma IntersectOnSegments(s1: Segment, s2: Segment)
    requires Intersect(s1, s2).onSegment && s1.p1 != s1.p2 && s2.p1 != s2.p2
    ensures var v := Intersect(s1, s2).point.v;
      OnLine(Through(s1), v) && OnLine(Through(s2), v) && !IsZero(Det(Through(s1), Through(s2))) &&
      SegmentEval(s1, InverseParam(s1, At(v)).v, 0) == v && SegmentEval(s2, InverseParam(s2, At(v)).v, 0) == v
  {
    var v := Intersect(s1, s2).point.v;
    OnThroughParam(s1, v);
    OnThroughParam(s2, v);
  }

  /** The crossing of the axes' segments (-a, 0)-(a, 0) and (0, -a)-(0, a) is at the origin. */
  lemma AxisIntersect(a: real)
    requires a >= 1.0
    ensures var s1, s2 := Segment(Vec2(-a, 0.0), Vec2(a, 0.0)), Segment(Vec2(0.0, -a), Vec2(0.0, a));
      Through(s1) == Line(0.0, 2.0 * a, 0.0) && Through(s2) == Line(-2.0 * a, 0.0, 0.0) &&
      Intersect(s1, s2) == SegmentIntersection(At(Vec2(0.0, 0.0)), true)
  {
    var s1, s2 := Segment(Vec2(-a, 0.0), Vec2(a, 0.0)), Segment(Vec2(0.0, -a), Vec2(0.0, a));
    assert Through(s1) == Line(0.0, 2.0 * a, 0.0);
    assert Through(s2) == Line(-2.0 * a, 0.0, 0.0);
    assert Det(Through(s1), Through(s2)) == 4.0 * a * a;
    assert Solve(Through(s1), Through(s2)) == At(Vec2(0.0, 0.0));
  }

}
