/**
 * The double dispatch of physics/src/curve.cpp: c1.collide(c2) on two curves of unknown kind
 * calls c2.collide(c1) on the concrete kind of c1, which runs the routine c2kind_c1kind of
 * physics/src/collider.cpp, and swaps t1 and t2 in every pair it gets back.
 */
module Dispatch {
  import opened LibM
  import opened Doubles
  import opened Shapes
  import opened Lines
  import opened Curves
  import opened Polynomial
  import opened Collider

  /**
   * The routine x_y(c1, c2) of collider.cpp for the kinds of c1 and c2. The reversed routines
   * swap the forward routine's pairs; the ones marked TODO in the source return [(0, 0)].
   */
  function Pairs(c1: Curve, c2: Curve, lib: Libm): seq<ParamPair>
    requires lib.Valid()
  {
    match (c1, c2)
    case (LineCurve(l1), LineCurve(l2)) => LineLine(l1, l2, lib)
    case (LineCurve(l), SegmentCurve(s)) => LineSegment(l, s, lib)
    case (LineCurve(l), ArcCurve(a)) => LineArc(l, a, lib)
    case (LineCurve(l), BezierCurve(b)) => LineBezierCubic(l, b, lib)
    case (SegmentCurve(s), LineCurve(l)) => SwapAll(LineSegment(l, s, lib))
    case (SegmentCurve(s1), SegmentCurve(s2)) => SegmentSegment(s1, s2)
    case (SegmentCurve(s), ArcCurve(a)) => SegmentArc(s, a, lib)
    case (SegmentCurve(s), BezierCurve(b)) => SegmentBezierCubic(s, b, lib)
    case (ArcCurve(a), LineCurve(l)) => SwapAll(LineArc(l, a, lib))
    case (ArcCurve(a), SegmentCurve(s)) => SwapAll(SegmentArc(s, a, lib))
    case (ArcCurve(_), ArcCurve(_)) => Unimplemented()
    case (ArcCurve(_), BezierCurve(_)) => Unimplemented()
    case (BezierCurve(b), LineCurve(l)) => SwapAll(LineBezierCubic(l, b, lib))
    case (BezierCurve(b), SegmentCurve(s)) => SwapAll(SegmentBezierCubic(s, b, lib))
    case (BezierCurve(_), ArcCurve(_)) => Unimplemented()
    case (BezierCurve(_), BezierCurve(_)) => Unimplemented()
  }

  /** The routines with an Ellipse operand, which are all unimplemented. */
  function EllipsePairs(c: Curve, e: Ellipse): seq<ParamPair>
  {
    Unimplemented()
  }

  /**
   * Every unimplemented routine, the ellipse ones included, returns the single pair (0, 0),
   * which is on both curves.
   */
  lemma StubsReturnOrigin(c: Curve, e: Ellipse, a1: Arc, a2: Arc, b1: BezierCubic, b2: BezierCubic, lib: Libm)
    requires lib.Valid()
    ensures EllipsePairs(c, e) == [ParamPair(Finite(0.0), Finite(0.0))]
    ensures Pairs(ArcCurve(a1), ArcCurve(a2), lib) == [ParamPair(Finite(0.0), Finite(0.0))]
    ensures Pairs(ArcCurve(a1), BezierCurve(b1), lib) == [ParamPair(Finite(0.0), Finite(0.0))]
    ensures Pairs(BezierCurve(b1), ArcCurve(a1), lib) == [ParamPair(Finite(0.0), Finite(0.0))]
    ensures Pairs(BezierCurve(b1), BezierCurve(b2), lib) == [ParamPair(Finite(0.0), Finite(0.0))]
    ensures OnBoth(Unimplemented()[0])
  {
  }

  /**
   * The routine for (c1, c2) is the routine for (c2, c1) with t1 and t2 swapped: the reversed
   * routines by construction, line_line and segment_segment because point_line_line is
   * symmetric, and the stubs because (0, 0) swaps to itself.
   */
  lemma {:induction false} CollideIsRoutine(c1: Curve, c2: Curve, lib: Libm)
    requires lib.Valid()
    ensures SwapAll(Pairs(c2, c1, lib)) == Pairs(c1, c2, lib)
  {
    match (c1, c2)
    case (LineCurve(l1), LineCurve(l2)) =>
      SolveSymmetric(l1, l2);
    case (SegmentCurve(s1), SegmentCurve(s2)) =>
      SolveSymmetric(Through(s1), Through(s2));
    case (LineCurve(l), SegmentCurve(s)) =>
      SwapAllInvolution(LineSegment(l, s, lib));
    case (LineCurve(l), ArcCurve(a)) =>
      SwapAllInvolution(LineArc(l, a, lib));
    case (LineCurve(l), BezierCurve(b)) =>
      SwapAllInvolution(LineBezierCubic(l, b, lib));
    case (SegmentCurve(s), ArcCurve(a)) =>
      SwapAllInvolution(SegmentArc(s, a, lib));
    case (SegmentCurve(s), BezierCurve(b)) =>
      SwapAllInvolution(SegmentBezierCubic(s, b, lib));
    case (_, _) =>
  }

  /**
   * The Collider routine `c1kind_c2kind` for the kinds of both curves, as the double dispatch
   * reaches it: a routine written for the other order runs on (c2, c1) and the swap loop
   * exchanges its parameters.
   */
  method Routine(c1: Curve, c2: Curve, lib: Libm) returns (tpairs: seq<ParamPair>)
    requires lib.Valid()
    ensures tpairs == Pairs(c1, c2, lib)
  {
    match (c1, c2) {
      case (LineCurve(l), ArcCurve(a)) =>
        if Parametrizable(l) {
          tpairs := CollectArcPairs(c1, a, PointsSegmentArc(LineToSegment(l), a, lib), lib);
        } else {
          tpairs := NaNPairs();
        }
      case (SegmentCurve(s), ArcCurve(a)) =>
        tpairs := CollectArcPairs(c1, a, PointsSegmentArc(s, a, lib), lib);
      case (ArcCurve(a), LineCurve(l)) =>
        var forward := NaNPairs();
        if Parametrizable(l) {
          forward := CollectArcPairs(c2, a, PointsSegmentArc(LineToSegment(l), a, lib), lib);
        }
        tpairs := SwapPairs(forward);
      case (ArcCurve(a), SegmentCurve(s)) =>
        var forward := CollectArcPairs(c2, a, PointsSegmentArc(s, a, lib), lib);
        tpairs := SwapPairs(forward);
      case (LineCurve(l), BezierCurve(b)) =>
        var roots := RootsCubic(BezierPoly(l, b), lib);
        tpairs := CollectRootPairs(c1, b, roots, lib);
      case (SegmentCurve(s), BezierCurve(b)) =>
        var roots := RootsCubic(BezierPoly(Through(s), b), lib);
        tpairs := CollectRootPairs(c1, b, roots, lib);
      case (BezierCurve(b), LineCurve(l)) =>
        var roots := RootsCubic(BezierPoly(l, b), lib);
        var forward := CollectRootPairs(c2, b, roots, lib);
        tpairs := SwapPairs(forward);
      case (BezierCurve(b), SegmentCurve(s)) =>
        var roots := RootsCubic(BezierPoly(Through(s), b), lib);
        var forward := CollectRootPairs(c2, b, roots, lib);
        tpairs := SwapPairs(forward);
      case (SegmentCurve(s), LineCurve(l)) =>
        tpairs := SwapPairs(LineSegment(l, s, lib));
      case (_, _) =>
        tpairs := Pairs(c1, c2, lib);
    }
  }

  /**
   * c1.collide(c2): the routine of c2's kind against c1's, each pair swapped. The result is
   * the routine for (c1, c2) itself.
   */
  method Collide(c1: Curve, c2: Curve, lib: Libm) returns (tpairs: seq<ParamPair>)
    requires lib.Valid()
    ensures tpairs == SwapAll(Pairs(c2, c1, lib))
    ensures tpairs == Pairs(c1, c2, lib)
  {
    var reversed := Routine(c2, c1, lib);
    tpairs := SwapPairs(reversed);
    CollideIsRoutine(c1, c2, lib);
  }
}
