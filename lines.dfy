/**
 * Implicit-line algebra used by both engines: the coefficients of the line through a segment
 * and the Cramer's-rule intersection of two lines. Both use the convention p*x + q*y = r.
 */
module Lines {
  import opened Vectors
  import opened Globals
  import opened Doubles
  import opened Shapes

  /** The point lies on the line in the convention p*x + q*y = r. */
  predicate OnLine(l: Line, pt: Vec2)
  {
    l.p * pt.x + l.q * pt.y == l.r
  }

  /** Coefficients of the line through the two end points of a segment. */
  function Through(s: Segment): (l: Line)
    ensures OnLine(l, s.p1) && OnLine(l, s.p2)
  {
    Line(-(s.p2.y - s.p1.y), s.p2.x - s.p1.x, -s.p1.x * (s.p2.y - s.p1.y) + s.p1.y * (s.p2.x - s.p1.x))
  }

  function Det(l1: Line, l2: Line): real
  {
    l1.p * l2.q - l2.p * l1.q
  }

  /** The Cramer's-rule solution rhs / det of the two line equations. */
  function CramerPoint(l1: Line, l2: Line): Vec2
    requires Det(l1, l2) != 0.0
  {
    DivScalar(Vec2(l1.r * l2.q - l2.r * l1.q, l1.p * l2.r - l2.p * l1.r), Det(l1, l2))
  }

  /**
   * point_line_line: the (INFINITY, INFINITY) sentinel when |det| < 1e-15, else the point
   * that lies on both lines.
   */
  function Solve(l1: Line, l2: Line): (pt: Point)
    ensures pt.Infinity? <==> IsZero(Det(l1, l2))
    ensures pt.At? ==> OnLine(l1, pt.v) && OnLine(l2, pt.v)
  {
    if IsZero(Det(l1, l2)) then
      Infinity
    else
      CramerSolves(l1, l2);
      At(CramerPoint(l1, l2))
  }

  lemma CramerSolves(l1: Line, l2: Line)
    requires Det(l1, l2) != 0.0
    ensures OnLine(l1, CramerPoint(l1, l2)) && OnLine(l2, CramerPoint(l1, l2))
  {
    CramerFirst(l1.p, l1.q, l1.r, l2.p, l2.q, l2.r);
    CramerSecond(l1.p, l1.q, l1.r, l2.p, l2.q, l2.r);
  }

  lemma CramerFirst(p1: real, q1: real, r1: real, p2: real, q2: real, r2: real)
    requires p1 * q2 - p2 * q1 != 0.0
    ensures p1 * ((r1 * q2 - r2 * q1) / (p1 * q2 - p2 * q1))
          + q1 * ((p1 * r2 - p2 * r1) / (p1 * q2 - p2 * q1)) == r1
  {
  }

  lemma CramerSecond(p1: real, q1: real, r1: real, p2: real, q2: real, r2: real)
    requires p1 * q2 - p2 * q1 != 0.0
    ensures p2 * ((r1 * q2 - r2 * q1) / (p1 * q2 - p2 * q1))
          + q2 * ((p1 * r2 - p2 * r1) / (p1 * q2 - p2 * q1)) == r2
  {
  }

  lemma CramerUnique(p1: real, q1: real, r1: real, p2: real, q2: real, r2: real, x: real, y: real)
    requires p1 * q2 - p2 * q1 != 0.0
    requires p1 * x + q1 * y == r1 && p2 * x + q2 * y == r2
    ensures x == (r1 * q2 - r2 * q1) / (p1 * q2 - p2 * q1)
    ensures y == (p1 * r2 - p2 * r1) / (p1 * q2 - p2 * q1)
  {
  }

  /** A point on the line through a segment is exactly one collinear with its end points. */
  lemma ThroughIsCollinear(s: Segment, pt: Vec2)
    ensures OnLine(Through(s), pt) <==> Cross(Sub(s.p2, s.p1), Sub(pt, s.p1)) == 0.0
  {
    var l := Through(s);
    assert l.p * pt.x + l.q * pt.y - l.r == Cross(Sub(s.p2, s.p1), Sub(pt, s.p1));
  }

  /** The finite point of Solve is the only point on both lines. */
  lemma SolveUnique(l1: Line, l2: Line, pt: Vec2)
    requires !IsZero(Det(l1, l2)) && OnLine(l1, pt) && OnLine(l2, pt)
    ensures Solve(l1, l2) == At(pt)
  {
    CramerUnique(l1.p, l1.q, l1.r, l2.p, l2.q, l2.r, pt.x, pt.y);
  }

  /** Swapping the lines flips the sign of det and of both right-hand sides: same result. */
  lemma SolveSymmetric(l1: Line, l2: Line)
    ensures Solve(l1, l2) == Solve(l2, l1)
  {
    assert Det(l2, l1) == -Det(l1, l2);
    if !IsZero(Det(l1, l2)) {
      var pt := Solve(l1, l2).v;
      SolveUnique(l2, l1, pt);
    }
  }
}
