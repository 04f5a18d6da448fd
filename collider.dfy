/**
 * The pairwise intersection routines of physics/src/collider.cpp and the ParamPair record of
 * physics/include/physics/collider.hpp, with the double dispatch of Curve::collide from
 * physics/src/curve.cpp.
 *
 * A routine x_y(c1, c2) returns a list of parameter pairs (t1 on c1, t2 on c2). `Pairs` is
 * that list as a function of the two curves; `Routine` and `Collide` are the routines as the
 * source runs them, with the loops that push pairs and swap t1 and t2 in place.
 */
module Collider {
  import opened LibM
  import opened Vectors
  import opened Globals
  import opened Doubles
  import opened Shapes
  import opened Lines
  import opened Curves
  import opened Polynomial

  // ---------------------------------------------------------------- ParamPair

  datatype ParamPair = ParamPair(t1: Double, t2: Double)

  /** -EPS <= t <= 1 + EPS; an infinity or NaN fails the comparison. */
  predicate InUnit(t: Double)
  {
    t.Finite? && 0.0 - EPS <= t.v && t.v <= 1.0 + EPS
  }

  predicate OnFirst(tp: ParamPair) { InUnit(tp.t1) }

  predicate OnSecond(tp: ParamPair) { InUnit(tp.t2) }

  predicate OnBoth(tp: ParamPair) { OnFirst(tp) && OnSecond(tp) }

  /** std::swap(tpair.t1, tpair.t2). */
  function Swapped(tp: ParamPair): ParamPair { ParamPair(tp.t2, tp.t1) }

  /** Swapping exchanges on_first and on_second, keeps on_both and undoes itself. */
  lemma SwapLaws(tp: ParamPair)
    ensures OnFirst(Swapped(tp)) == OnSecond(tp) && OnSecond(Swapped(tp)) == OnFirst(tp)
    ensures OnBoth(Swapped(tp)) == OnBoth(tp)
    ensures Swapped(Swapped(tp)) == tp
  {
  }

  /** Every pair of the list swapped, in the same order. */
  function SwapAll(ps: seq<ParamPair>): (r: seq<ParamPair>)
    ensures |r| == |ps|
    ensures forall i :: 0 <= i < |ps| ==> r[i] == Swapped(ps[i])
  {
    if ps == [] then [] else [Swapped(ps[0])] + SwapAll(ps[1..])
  }

  /** Swapping twice gives back the list; the number of pairs on both curves is kept. */
  lemma SwapAllInvolution(ps: seq<ParamPair>)
    ensures SwapAll(SwapAll(ps)) == ps
    ensures forall i :: 0 <= i < |ps| ==> (OnBoth(SwapAll(ps)[i]) <==> OnBoth(ps[i]))
  {
  }

  /** The loop `for (ParamPair& tpair : tpairs) std::swap(tpair.t1, tpair.t2)`. */
  method SwapPairs(tpairs: seq<ParamPair>) returns (r: seq<ParamPair>)
    ensures r == SwapAll(tpairs)
  {
    r := tpairs;
    for i := 0 to |r|
      invariant |r| == |tpairs|
      invariant forall j :: 0 <= j < i ==> r[j] == Swapped(tpairs[j])
      invariant forall j :: i <= j < |r| ==> r[j] == tpairs[j]
    {
      r := r[i := Swapped(r[i])];
    }
  }

  /** The single pair (0, 0) every unimplemented routine returns. */
  function Unimplemented(): (r: seq<ParamPair>)
    ensures |r| == 1 && OnBoth(r[0])
  {
    [ParamPair(Finite(0.0), Finite(0.0))]
  }

  // ---------------------------------------------------------------- points_segment_arc

  /** std::copysign(x, y); the sign of a negative zero is not modelled. */
  function Copysign(x: real, y: real): real
  {
    if y < 0.0 then -Abs(x) else Abs(x)
  }

  /**
   * (copysign(dx, dy), copysign(dy, dx)) is (dx, dy) when dx and dy have the same sign (zero
   * counting as positive) and (-dx, -dy) otherwise.
   */
  lemma CopysignSigns(dx: real, dy: real)
    ensures (Copysign(dx, dy) == dx && Copysign(dy, dx) == dy) ||
            (Copysign(dx, dy) == -dx && Copysign(dy, dx) == -dy)
  {
  }

  /**
   * The relative end points seg.p1 - p0 and seg.p2 - p0 of the circle-line formula and the
   * segment length dr = sqrt(dx^2 + dy^2).
   */
  datatype Chord = Chord(x1: real, y1: real, x2: real, y2: real, dr: real)

  function ChordOf(seg: Segment, arc: Arc, lib: Libm): Chord
  {
    var relp1 := Sub(seg.p1, arc.p0);
    var relp2 := Sub(seg.p2, arc.p0);
    var dx := relp2.x - relp1.x;
    var dy := relp2.y - relp1.y;
    Chord(relp1.x, relp1.y, relp2.x, relp2.y, lib.sqrt(dx * dx + dy * dy))
  }

  function Dx(k: Chord): real { k.x2 - k.x1 }

  function Dy(k: Chord): real { k.y2 - k.y1 }

  /** The determinant of the two relative end points. */
  function ChordDet(k: Chord): real { k.x1 * k.y2 - k.x2 * k.y1 }

  /** dr^2, the denominator of the formula. */
  function Dr2(k: Chord): real { k.dr * k.dr }

  /** The discriminant r^2 dr^2 - det^2. */
  function Delta(k: Chord, r: real): real { r * r * Dr2(k) - ChordDet(k) * ChordDet(k) }

  /** dr is the length of the segment, and a positive discriminant makes it non-zero. */
  lemma ChordLength(seg: Segment, arc: Arc, lib: Libm)
    requires lib.Valid()
    ensures var k := ChordOf(seg, arc, lib);
      Dr2(k) == Dx(k) * Dx(k) + Dy(k) * Dy(k) &&
      (Delta(k, arc.r) > 0.0 ==> Dr2(k) > 0.0)
  {
    var k := ChordOf(seg, arc, lib);
    SquareNonNegative(Dx(k));
    SquareNonNegative(Dy(k));
    assert Dr2(k) == Dx(k) * Dx(k) + Dy(k) * Dy(k);
    SquareNonNegative(ChordDet(k));
    if Dr2(k) == 0.0 {
      assert arc.r * arc.r * Dr2(k) == 0.0;
      assert Delta(k, arc.r) <= 0.0;
    }
  }

  /** No point for delta <= 0, one for 0 < delta < 1e-15, two otherwise. */
  function PointsSegmentArc(seg: Segment, arc: Arc, lib: Libm): (pts: seq<Vec2>)
    requires lib.Valid()
    ensures var delta := Delta(ChordOf(seg, arc, lib), arc.r);
      |pts| == (if delta <= 0.0 then 0 else if IsZero(delta) then 1 else 2)
  {
    ChordLength(seg, arc, lib);
    ChordPoints(ChordOf(seg, arc, lib), arc.p0, arc.r, lib)
  }

  /** The points of points_segment_arc for the relative chord k, the centre c and the radius r. */
  function ChordPoints(k: Chord, c: Vec2, r: real, lib: Libm): (pts: seq<Vec2>)
    requires Delta(k, r) > 0.0 ==> Dr2(k) > 0.0
    ensures |pts| == (if Delta(k, r) <= 0.0 then 0 else if IsZero(Delta(k, r)) then 1 else 2)
  {
    if Delta(k, r) <= 0.0 then []
    else if IsZero(Delta(k, r)) then
      [Add(Vec2(ChordDet(k) * Dy(k) / Dr2(k), -ChordDet(k) * Dx(k) / Dr2(k)), c)]
    else
      var sqrtdelta := lib.sqrt(Delta(k, r));
      var sx, sy := Copysign(Dx(k), Dy(k)), Copysign(Dy(k), Dx(k));
      [ChordPoint(k, c, sx, sy, sqrtdelta), ChordPoint(k, c, -sx, -sy, sqrtdelta)]
  }

  /**
   * The intersection point c + (det*dy + sx*sd, -det*dx + sy*sd) / dr^2 of the circle-line
   * formula; sx and sy are dx and dy with their signs copied from dy and dx, both negated for
   * the second point.
   */
  function ChordPoint(k: Chord, c: Vec2, sx: real, sy: real, sd: real): Vec2
    requires Dr2(k) != 0.0
  {
    Add(ChordOffset(k, sx, sy, sd), c)
  }

  /** The intersection point relative to the centre. */
  function ChordOffset(k: Chord, sx: real, sy: real, sd: real): Vec2
    requires Dr2(k) != 0.0
  {
    Vec2((ChordDet(k) * Dy(k) + sx * sd) / Dr2(k), (-ChordDet(k) * Dx(k) + sy * sd) / Dr2(k))
  }

  /** The point of the formula with the sign of sqrt(delta) folded into s. */
  function SignedOffset(k: Chord, s: real): Vec2
    requires Dr2(k) != 0.0
  {
    Vec2((ChordDet(k) * Dy(k) + Dx(k) * s) / Dr2(k), (-ChordDet(k) * Dx(k) + Dy(k) * s) / Dr2(k))
  }

  lemma DivMul(a: real, d: real)
    requires d != 0.0
    ensures (a / d) * d == a
  {
  }

  lemma NegMul(a: real, b: real)
    ensures (-a) * b == a * (-b) && (-b) * (-b) == b * b
  {
  }

  /** With (sx, sy) = +-(dx, dy), the offset is the signed offset for sd or for -sd. */
  lemma OffsetSign(k: Chord, sx: real, sy: real, sd: real)
    requires Dr2(k) != 0.0
    requires (sx == Dx(k) && sy == Dy(k)) || (sx == -Dx(k) && sy == -Dy(k))
    ensures ChordOffset(k, sx, sy, sd) == SignedOffset(k, sd) ||
            ChordOffset(k, sx, sy, sd) == SignedOffset(k, -sd)
  {
    if sx == Dx(k) && sy == Dy(k) {
      assert ChordOffset(k, sx, sy, sd) == SignedOffset(k, sd);
    } else {
      NegMul(Dx(k), sd);
      NegMul(Dy(k), sd);
      assert ChordOffset(k, sx, sy, sd) == SignedOffset(k, -sd);
    }
  }

  /**
   * A relative point (X, Y) with X*dr^2 = det*dy + dx*s and Y*dr^2 = -det*dx + dy*s, where
   * dr^2 = dx^2 + dy^2, has X^2 + Y^2 = (det^2 + s^2) / dr^2.
   */
  lemma ChordNorm(dx: real, dy: real, dr2: real, det: real, s: real, px: real, py: real)
    requires dr2 == dx * dx + dy * dy && dr2 > 0.0
    requires px * dr2 == det * dy + dx * s && py * dr2 == -det * dx + dy * s
    ensures (px * px + py * py) * dr2 == det * det + s * s
  {
    var ex, ey := det * dy + dx * s, -det * dx + dy * s;
    assert ex * ex + ey * ey == (det * det + s * s) * dr2;
    assert (px * px + py * py) * (dr2 * dr2) == ex * ex + ey * ey;
    assert ((px * px + py * py) * dr2 - (det * det + s * s)) * dr2 == 0.0;
  }

  /** The same point is on the line through (x1, y1) with direction (dx, dy), det = x1*dy - dx*y1. */
  lemma ChordLine(x1: real, y1: real, dx: real, dy: real, dr2: real, det: real, s: real, px: real, py: real)
    requires dr2 == dx * dx + dy * dy && dr2 > 0.0
    requires det == x1 * dy - dx * y1
    requires px * dr2 == det * dy + dx * s && py * dr2 == -det * dx + dy * s
    ensures dx * (py - y1) - dy * (px - x1) == 0.0
  {
    assert (dx * py - dy * px) * dr2 == -det * dr2;
    assert (dx * (py - y1) - dy * (px - x1)) * dr2 == 0.0;
  }

  lemma CancelPositive(a: real, b: real, d: real)
    requires a * d == b * d && d > 0.0
    ensures a == b
  {
    assert (a - b) * d == 0.0;
  }

  /** The signed offset is on the circle of radius r and on the line of the chord. */
  lemma SignedOffsetOnCircle(k: Chord, r: real, s: real)
    requires Dr2(k) == Dx(k) * Dx(k) + Dy(k) * Dy(k) && Dr2(k) > 0.0
    requires s * s == Delta(k, r)
    ensures var o := SignedOffset(k, s);
      o.x * o.x + o.y * o.y == r * r && Dx(k) * (o.y - k.y1) - Dy(k) * (o.x - k.x1) == 0.0
  {
    var o := SignedOffset(k, s);
    SignedOffsetLaws(k, s);
    CancelPositive(o.x * o.x + o.y * o.y, r * r, Dr2(k));
  }

  /** The signed offset is on the line of the chord, at squared distance (det^2 + s^2) / dr^2. */
  lemma SignedOffsetLaws(k: Chord, s: real)
    requires Dr2(k) == Dx(k) * Dx(k) + Dy(k) * Dy(k) && Dr2(k) > 0.0
    ensures var o := SignedOffset(k, s);
      (o.x * o.x + o.y * o.y) * Dr2(k) == ChordDet(k) * ChordDet(k) + s * s &&
      Dx(k) * (o.y - k.y1) - Dy(k) * (o.x - k.x1) == 0.0
  {
    SignedOffsetNorm(k, s);
    SignedOffsetLine(k, s);
  }

  lemma SignedOffsetNorm(k: Chord, s: real)
    requires Dr2(k) == Dx(k) * Dx(k) + Dy(k) * Dy(k) && Dr2(k) > 0.0
    ensures var o := SignedOffset(k, s); (o.x * o.x + o.y * o.y) * Dr2(k) == ChordDet(k) * ChordDet(k) + s * s
  {
    SignedOffsetScaled(k, s);
    var o := SignedOffset(k, s);
    ChordNorm(Dx(k), Dy(k), Dr2(k), ChordDet(k), s, o.x, o.y);
  }

  lemma SignedOffsetLine(k: Chord, s: real)
    requires Dr2(k) == Dx(k) * Dx(k) + Dy(k) * Dy(k) && Dr2(k) > 0.0
    ensures var o := SignedOffset(k, s); Dx(k) * (o.y - k.y1) - Dy(k) * (o.x - k.x1) == 0.0
  {
    SignedOffsetScaled(k, s);
    var o := SignedOffset(k, s);
    ChordLine(k.x1, k.y1, Dx(k), Dy(k), Dr2(k), ChordDet(k), s, o.x, o.y);
  }

  /** The coordinates of the signed offset, multiplied back by dr^2. */
  lemma SignedOffsetScaled(k: Chord, s: real)
    requires Dr2(k) != 0.0
    ensures var o := SignedOffset(k, s);
      o.x * Dr2(k) == ChordDet(k) * Dy(k) + Dx(k) * s && o.y * Dr2(k) == -ChordDet(k) * Dx(k) + Dy(k) * s
  {
    DivMul(ChordDet(k) * Dy(k) + Dx(k) * s, Dr2(k));
    DivMul(-ChordDet(k) * Dx(k) + Dy(k) * s, Dr2(k));
  }

  /** The right-hand side of the two-point case, spelled with ChordPoint. */
  lemma TwoPointsForm(seg: Segment, arc: Arc, lib: Libm)
    requires lib.Valid()
    requires var delta := Delta(ChordOf(seg, arc, lib), arc.r); delta > 0.0 && !IsZero(delta)
    ensures var k := ChordOf(seg, arc, lib);
      Dr2(k) != 0.0 &&
      PointsSegmentArc(seg, arc, lib) ==
        [ChordPoint(k, arc.p0, Copysign(Dx(k), Dy(k)), Copysign(Dy(k), Dx(k)), lib.sqrt(Delta(k, arc.r))),
         ChordPoint(k, arc.p0, -Copysign(Dx(k), Dy(k)), -Copysign(Dy(k), Dx(k)), lib.sqrt(Delta(k, arc.r)))]
  {
    ChordLength(seg, arc, lib);
  }

  /** A point on the line of the relative chord is on the line through the segment. */
  lemma OnSegmentLine(seg: Segment, arc: Arc, lib: Libm, o: Vec2)
    requires var k := ChordOf(seg, arc, lib); Dx(k) * (o.y - k.y1) - Dy(k) * (o.x - k.x1) == 0.0
    ensures Cross(Sub(seg.p2, seg.p1), Sub(Add(o, arc.p0), seg.p1)) == 0.0
  {
    var k := ChordOf(seg, arc, lib);
    assert Sub(seg.p2, seg.p1) == Vec2(Dx(k), Dy(k));
    assert Sub(Add(o, arc.p0), seg.p1) == Vec2(o.x - k.x1, o.y - k.y1);
  }

  /** pt is on the circle of the arc and on the line through the segment. */
  predicate OnCircleAndLine(seg: Segment, arc: Arc, pt: Vec2)
  {
    Dot(Sub(pt, arc.p0), Sub(pt, arc.p0)) == arc.r * arc.r &&
    Cross(Sub(seg.p2, seg.p1), Sub(pt, seg.p1)) == 0.0
  }

  /** An offset on the circle and on the chord line gives a point on the circle and the segment line. */
  lemma OffsetPoint(seg: Segment, arc: Arc, lib: Libm, o: Vec2)
    requires var k := ChordOf(seg, arc, lib);
      o.x * o.x + o.y * o.y == arc.r * arc.r && Dx(k) * (o.y - k.y1) - Dy(k) * (o.x - k.x1) == 0.0
    ensures OnCircleAndLine(seg, arc, Add(o, arc.p0))
  {
    OnSegmentLine(seg, arc, lib, o);
    OperatorLaws(o, arc.p0, 0.0);
  }

  /** One point of the two-point case, with (sx, sy) = +-(dx, dy) and sd^2 = delta. */
  lemma ChordSide(seg: Segment, arc: Arc, lib: Libm, sx: real, sy: real, sd: real)
    requires var k := ChordOf(seg, arc, lib);
      Dr2(k) == Dx(k) * Dx(k) + Dy(k) * Dy(k) && Dr2(k) > 0.0 && sd * sd == Delta(k, arc.r)
    requires var k := ChordOf(seg, arc, lib);
      (sx == Dx(k) && sy == Dy(k)) || (sx == -Dx(k) && sy == -Dy(k))
    ensures OnCircleAndLine(seg, arc, ChordPoint(ChordOf(seg, arc, lib), arc.p0, sx, sy, sd))
  {
    var k := ChordOf(seg, arc, lib);
    OffsetSign(k, sx, sy, sd);
    NegMul(sd, sd);
    SignedSide(seg, arc, lib, sd);
    SignedSide(seg, arc, lib, -sd);
  }

  /** The point of the signed offset for s with s^2 = delta. */
  lemma SignedSide(seg: Segment, arc: Arc, lib: Libm, s: real)
    requires var k := ChordOf(seg, arc, lib);
      Dr2(k) == Dx(k) * Dx(k) + Dy(k) * Dy(k) && Dr2(k) > 0.0 && s * s == Delta(k, arc.r)
    ensures OnCircleAndLine(seg, arc, Add(SignedOffset(ChordOf(seg, arc, lib), s), arc.p0))
  {
    var k := ChordOf(seg, arc, lib);
    SignedOffsetOnCircle(k, arc.r, s);
    OffsetPoint(seg, arc, lib, SignedOffset(k, s));
  }

  lemma TwoPointsOnCircleFrom(seg: Segment, arc: Arc, pts: seq<Vec2>, a: Vec2, b: Vec2)
    requires pts == [a, b] && OnCircleAndLine(seg, arc, a) && OnCircleAndLine(seg, arc, b)
    ensures forall pt :: pt in pts ==> OnCircleAndLine(seg, arc, pt)
  {
  }

  /**
   * With exact square roots, both points of the two-point case lie on the circle of the arc
   * and on the line through the segment.
   */
  lemma TwoPointsOnCircle(seg: Segment, arc: Arc, lib: Libm)
    requires lib.Valid()
    requires var delta := Delta(ChordOf(seg, arc, lib), arc.r); delta > 0.0 && !IsZero(delta)
    ensures forall pt :: pt in PointsSegmentArc(seg, arc, lib) ==> OnCircleAndLine(seg, arc, pt)
  {
    var k := ChordOf(seg, arc, lib);
    TwoPointsForm(seg, arc, lib);
    ChordSides(seg, arc, lib, 1.0);
    ChordSides(seg, arc, lib, -1.0);
    TwoPointsOnCircleFrom(seg, arc, PointsSegmentArc(seg, arc, lib),
      ChordPoint(k, arc.p0, Copysign(Dx(k), Dy(k)), Copysign(Dy(k), Dx(k)), lib.sqrt(Delta(k, arc.r))),
      ChordPoint(k, arc.p0, -Copysign(Dx(k), Dy(k)), -Copysign(Dy(k), Dx(k)), lib.sqrt(Delta(k, arc.r))));
  }

  /** The point of the two-point case with the copied signs taken once (e = 1) or negated (e = -1). */
  lemma ChordSides(seg: Segment, arc: Arc, lib: Libm, e: real)
    requires lib.Valid() && (e == 1.0 || e == -1.0)
    requires var delta := Delta(ChordOf(seg, arc, lib), arc.r); delta > 0.0 && !IsZero(delta)
    ensures var k := ChordOf(seg, arc, lib);
      Dr2(k) != 0.0 &&
      OnCircleAndLine(seg, arc, ChordPoint(k, arc.p0, e * Copysign(Dx(k), Dy(k)), e * Copysign(Dy(k), Dx(k)), lib.sqrt(Delta(k, arc.r))))
  {
    var k := ChordOf(seg, arc, lib);
    ChordLength(seg, arc, lib);
    SqrtSquare(lib, Delta(k, arc.r));
    CopysignSigns(Dx(k), Dy(k));
    ChordSide(seg, arc, lib, e * Copysign(Dx(k), Dy(k)), e * Copysign(Dy(k), Dx(k)), lib.sqrt(Delta(k, arc.r)));
  }

  /** The right-hand side of the one-point case. */
  lemma OnePointForm(seg: Segment, arc: Arc, lib: Libm)
    requires lib.Valid()
    requires var delta := Delta(ChordOf(seg, arc, lib), arc.r); delta > 0.0 && IsZero(delta)
    ensures var k := ChordOf(seg, arc, lib);
      Dr2(k) != 0.0 &&
      PointsSegmentArc(seg, arc, lib) ==
        [Add(Vec2(ChordDet(k) * Dy(k) / Dr2(k), -ChordDet(k) * Dx(k) / Dr2(k)), arc.p0)]
  {
    ChordLength(seg, arc, lib);
    assert PointsSegmentArc(seg, arc, lib) == ChordPoints(ChordOf(seg, arc, lib), arc.p0, arc.r, lib);
  }

  lemma ZeroOffset(k: Chord)
    requires Dr2(k) != 0.0
    ensures SignedOffset(k, 0.0) == Vec2(ChordDet(k) * Dy(k) / Dr2(k), -ChordDet(k) * Dx(k) / Dr2(k))
  {
    assert Dx(k) * 0.0 == 0.0 && Dy(k) * 0.0 == 0.0;
  }

  lemma TangentDistance(n: real, d2: real, r: real, det: real)
    requires n * d2 == det * det && d2 > 0.0
    ensures n == r * r - (r * r * d2 - det * det) / d2
  {
    DivMul(r * r * d2 - det * det, d2);
    CancelPositive(n, r * r - (r * r * d2 - det * det) / d2, d2);
  }

  /** The zero offset is on the chord line, at squared distance r^2 - delta / dr^2 from the centre. */
  lemma ZeroOffsetDistance(k: Chord, r: real)
    requires Dr2(k) == Dx(k) * Dx(k) + Dy(k) * Dy(k) && Dr2(k) > 0.0
    ensures var o := SignedOffset(k, 0.0);
      o.x * o.x + o.y * o.y == r * r - Delta(k, r) / Dr2(k) &&
      Dx(k) * (o.y - k.y1) - Dy(k) * (o.x - k.x1) == 0.0
  {
    var o := SignedOffset(k, 0.0);
    SignedOffsetLaws(k, 0.0);
    assert (o.x * o.x + o.y * o.y) * Dr2(k) == ChordDet(k) * ChordDet(k);
    TangentDistance(o.x * o.x + o.y * o.y, Dr2(k), r, ChordDet(k));
  }

  /**
   * The one-point case (0 < delta < 1e-15, the line nearly tangent) gives the foot of the
   * perpendicular from the centre: a point on the line through the segment whose squared
   * distance from the centre is r^2 - delta / dr^2.
   */
  lemma OnePointNearCircle(seg: Segment, arc: Arc, lib: Libm)
    requires lib.Valid()
    requires var delta := Delta(ChordOf(seg, arc, lib), arc.r); delta > 0.0 && IsZero(delta)
    ensures var pts := PointsSegmentArc(seg, arc, lib); var k := ChordOf(seg, arc, lib);
      |pts| == 1 && Dr2(k) > 0.0 &&
      Cross(Sub(seg.p2, seg.p1), Sub(pts[0], seg.p1)) == 0.0 &&
      Dot(Sub(pts[0], arc.p0), Sub(pts[0], arc.p0)) == arc.r * arc.r - Delta(k, arc.r) / Dr2(k)
  {
    var k := ChordOf(seg, arc, lib);
    OnePointIsZeroOffset(seg, arc, lib);
    ZeroOffsetOnLine(seg, arc, lib);
    ShiftedPoint(seg, arc.p0, SignedOffset(k, 0.0), PointsSegmentArc(seg, arc, lib), arc.r * arc.r - Delta(k, arc.r) / Dr2(k));
  }

  /** The zero offset, moved to the centre, is on the line through the segment. */
  lemma ZeroOffsetOnLine(seg: Segment, arc: Arc, lib: Libm)
    requires var k := ChordOf(seg, arc, lib); Dr2(k) == Dx(k) * Dx(k) + Dy(k) * Dy(k) && Dr2(k) > 0.0
    ensures var k := ChordOf(seg, arc, lib); var o := SignedOffset(k, 0.0);
      o.x * o.x + o.y * o.y == arc.r * arc.r - Delta(k, arc.r) / Dr2(k) &&
      Cross(Sub(seg.p2, seg.p1), Sub(Add(o, arc.p0), seg.p1)) == 0.0
  {
    ZeroOffsetDistance(ChordOf(seg, arc, lib), arc.r);
    ZeroOffsetCross(seg, arc, lib);
  }

  lemma ZeroOffsetCross(seg: Segment, arc: Arc, lib: Libm)
    requires var k := ChordOf(seg, arc, lib); Dr2(k) == Dx(k) * Dx(k) + Dy(k) * Dy(k) && Dr2(k) > 0.0
    ensures var k := ChordOf(seg, arc, lib);
      Cross(Sub(seg.p2, seg.p1), Sub(Add(SignedOffset(k, 0.0), arc.p0), seg.p1)) == 0.0
  {
    var k := ChordOf(seg, arc, lib);
    ZeroOffsetDistance(k, arc.r);
    OnSegmentLine(seg, arc, lib, SignedOffset(k, 0.0));
  }

  /** The single point o + c, with o on the line and at squared distance d from the origin. */
  lemma ShiftedPoint(seg: Segment, c: Vec2, o: Vec2, pts: seq<Vec2>, d: real)
    requires pts == [Add(o, c)] && Cross(Sub(seg.p2, seg.p1), Sub(Add(o, c), seg.p1)) == 0.0
    requires o.x * o.x + o.y * o.y == d
    ensures |pts| == 1 && Cross(Sub(seg.p2, seg.p1), Sub(pts[0], seg.p1)) == 0.0
    ensures Dot(Sub(pts[0], c), Sub(pts[0], c)) == d
  {
    OperatorLaws(o, c, 0.0);
  }

  /** The one point is the centre plus the signed offset for s = 0. */
  lemma OnePointIsZeroOffset(seg: Segment, arc: Arc, lib: Libm)
    requires lib.Valid()
    requires var delta := Delta(ChordOf(seg, arc, lib), arc.r); delta > 0.0 && IsZero(delta)
    ensures var k := ChordOf(seg, arc, lib);
      Dr2(k) == Dx(k) * Dx(k) + Dy(k) * Dy(k) && Dr2(k) > 0.0 &&
      PointsSegmentArc(seg, arc, lib) == [Add(SignedOffset(k, 0.0), arc.p0)]
  {
    ChordLength(seg, arc, lib);
    OnePointForm(seg, arc, lib);
    ZeroOffset(ChordOf(seg, arc, lib));
  }

  // ---------------------------------------------------------------- the pair routines

  /** The parameter of a finite point on a curve of each kind (the virtual Curve::inverse). */
  function Inverse(c: Curve, v: Vec2, lib: Libm): (t: Double)
    ensures c.LineCurve? && lib.Valid() ==> t.Finite? && 0.0 < t.v < 1.0
    ensures c.SegmentCurve? ==> t.Finite?
    ensures c.ArcCurve? ==> (t.Finite? <==> c.arc.thetaMax != c.arc.thetaMin)
    ensures c.BezierCurve? ==> t == Finite(0.0)
  {
    match c
    case LineCurve(l) => LineInverse(l, At(v), lib)
    case SegmentCurve(s) => SegmentInverse(s, At(v))
    case ArcCurve(a) => ArcInverse(a, v, lib)
    case BezierCurve(b) => BezierInverse(b, At(v))
  }

  /**
   * line_line: the single pair of the parameters of point_line_line on both lines. Crossing
   * lines give parameters strictly inside (0, 1); parallel lines give the sentinel, whose
   * parameters are 0 or 1.
   */
  function LineLine(l1: Line, l2: Line, lib: Libm): (r: seq<ParamPair>)
    ensures |r| == 1
    ensures lib.Valid() && !IsZero(Det(l1, l2)) ==>
      r[0].t1.Finite? && 0.0 < r[0].t1.v < 1.0 && r[0].t2.Finite? && 0.0 < r[0].t2.v < 1.0
    ensures IsZero(Det(l1, l2)) ==>
      (r[0].t1 == Finite(0.0) || r[0].t1 == Finite(1.0)) && (r[0].t2 == Finite(0.0) || r[0].t2 == Finite(1.0))
  {
    [ParamPair(LineInverse(l1, Solve(l1, l2), lib), LineInverse(l2, Solve(l1, l2), lib))]
  }

  /**
   * line_segment: the single pair of the parameters of the crossing of the line with the
   * line through the segment. For lines that are not parallel the line parameter lies in
   * (0, 1); for parallel ones the segment parameter is not finite.
   */
  function LineSegment(line: Line, seg: Segment, lib: Libm): (r: seq<ParamPair>)
    ensures |r| == 1
    ensures lib.Valid() && !IsZero(Det(line, Through(seg))) ==> r[0].t1.Finite? && 0.0 < r[0].t1.v < 1.0
    ensures IsZero(Det(line, Through(seg))) && !Degenerate(seg) ==> r[0].t2 == NonFinite
  {
    [ParamPair(LineInverse(line, Solve(line, Through(seg)), lib), SegmentInverse(seg, Solve(line, Through(seg))))]
  }

  /**
   * segment_segment: the single pair of the parameters of the crossing of the lines through
   * both segments. Parallel proper segments give non-finite parameters, never on both.
   */
  function SegmentSegment(s1: Segment, s2: Segment): (r: seq<ParamPair>)
    ensures |r| == 1
    ensures IsZero(Det(Through(s1), Through(s2))) && !Degenerate(s1) && !Degenerate(s2) ==>
      r[0].t1 == NonFinite && r[0].t2 == NonFinite && !OnBoth(r[0])
  {
    [ParamPair(SegmentInverse(s1, Solve(Through(s1), Through(s2))), SegmentInverse(s2, Solve(Through(s1), Through(s2))))]
  }

  /** A point of the line through a proper segment is the segment at its inverse. */
  lemma InverseOnThrough(s: Segment, v: Vec2)
    requires !Degenerate(s) && OnLine(Through(s), v)
    ensures SegmentInverse(s, At(v)).Finite? && SegmentEval(s, SegmentInverse(s, At(v)).v, 0) == v
  {
    ThroughIsCollinear(s, v);
    SegmentEvalParam(s, v);
  }

  /**
   * The segment at the parameter line_segment gives lies on the line, in the convention
   * p*x + q*y = r of point_line_line.
   */
  lemma LineSegmentMeets(line: Line, seg: Segment, lib: Libm)
    requires !Degenerate(seg) && !IsZero(Det(line, Through(seg)))
    ensures var tp := LineSegment(line, seg, lib)[0];
      tp.t2.Finite? && OnLine(line, SegmentEval(seg, tp.t2.v, 0))
  {
    var v := Solve(line, Through(seg)).v;
    InverseOnThrough(seg, v);
  }

  /**
   * A Line curve is p*x + q*y + r = 0 in its own convention, but point_line_line solves
   * p*x + q*y = r. When r != 0 the segment's point at t2 is therefore never on the Line curve,
   * while the Line curve at t1 is: line_segment returns parameters of two different points.
   * For instance Line(0, 1, 1) is the curve y = -1, and against the segment (0, -5)-(0, 5) the
   * crossing found is (0, 1).
   */
  lemma LineSegmentOtherConvention(line: Line, seg: Segment, lib: Libm)
    requires lib.Valid() && Parametrizable(line) && (line.q == 0.0 || !IsZero(line.q))
    requires !Degenerate(seg) && !IsZero(Det(line, Through(seg))) && line.r != 0.0
    ensures var tp := LineSegment(line, seg, lib)[0];
      tp.t1.Finite? && tp.t2.Finite? && LineEval(line, tp.t1.v, lib).At? &&
      OnLineZero(line, LineEval(line, tp.t1.v, lib).v) &&
      !OnLineZero(line, SegmentEval(seg, tp.t2.v, 0)) &&
      LineEval(line, tp.t1.v, lib).v != SegmentEval(seg, tp.t2.v, 0)
  {
    var tp := LineSegment(line, seg, lib)[0];
    LineSegmentMeets(line, seg, lib);
    var v := SegmentEval(seg, tp.t2.v, 0);
    assert line.p * v.x + line.q * v.y == line.r;
    MockPointOnCurve(line, lib.atanh(2.0 * tp.t1.v - 1.0));
  }

  /** Every point of the mock-up segment's line is on the Line curve. */
  lemma MockPointOnCurve(l: Line, s: real)
    requires Parametrizable(l) && (l.q == 0.0 || !IsZero(l.q))
    ensures OnLineZero(l, SegmentEval(LineToSegment(l), s, 0))
  {
    var m := LineToSegment(l);
    var v := SegmentEval(m, s, 0);
    assert v == Vec2((1.0 - s) * m.p1.x + s * m.p2.x, (1.0 - s) * m.p1.y + s * m.p2.y);
    assert l.p * v.x + l.q * v.y + l.r ==
      (1.0 - s) * (l.p * m.p1.x + l.q * m.p1.y + l.r) + s * (l.p * m.p2.x + l.q * m.p2.y + l.r);
  }

  /** Crossing proper segments: both segments reach the same point at their parameters. */
  lemma SegmentSegmentMeet(s1: Segment, s2: Segment)
    requires !Degenerate(s1) && !Degenerate(s2) && !IsZero(Det(Through(s1), Through(s2)))
    ensures var tp := SegmentSegment(s1, s2)[0];
      tp.t1.Finite? && tp.t2.Finite? && SegmentEval(s1, tp.t1.v, 0) == SegmentEval(s2, tp.t2.v, 0)
  {
    var v := Solve(Through(s1), Through(s2)).v;
    InverseOnThrough(s1, v);
    InverseOnThrough(s2, v);
  }

  /**
   * Segments of half-length a >= 1 along both axes, centred on the origin: their lines are
   * (0, 2a, 0) and (-2a, 0, 0), which cross at the origin, halfway along both segments. With
   * a = 1 these are the segments (-1, 0)-(1, 0) and (0, -1)-(0, 1), the lines (0, 2, 0) and
   * (-2, 0, 0), the crossing (0, 0) and the parameters (0.5, 0.5).
   */
  lemma AxisCrossing(a: real)
    requires a >= 1.0
    ensures var s1 := Segment(Vec2(-a, 0.0), Vec2(a, 0.0));
      var s2 := Segment(Vec2(0.0, -a), Vec2(0.0, a));
      Through(s1) == Line(0.0, 2.0 * a, 0.0) && Through(s2) == Line(-2.0 * a, 0.0, 0.0) &&
      Solve(Through(s1), Through(s2)) == At(Vec2(0.0, 0.0)) &&
      SegmentSegment(s1, s2) == [ParamPair(Finite(0.5), Finite(0.5))]
  {
    var s1 := Segment(Vec2(-a, 0.0), Vec2(a, 0.0));
    var s2 := Segment(Vec2(0.0, -a), Vec2(0.0, a));
    var l1, l2 := Through(s1), Through(s2);
    assert Det(l1, l2) == 4.0 * a * a;
    SquareLe(1.0, a);
    SolveUnique(l1, l2, Vec2(0.0, 0.0));
    assert Abs(s1.p1.x - s1.p2.x) == 2.0 * a;
    assert Abs(s2.p1.y - s2.p2.y) == 2.0 * a;
    assert SegmentParam(s1, Vec2(0.0, 0.0)) == a / (2.0 * a);
    assert SegmentParam(s2, Vec2(0.0, 0.0)) == a / (2.0 * a);
    assert a / (2.0 * a) == 0.5;
    assert Solve(l1, l2) == At(Vec2(0.0, 0.0));
    assert SegmentSegment(s1, s2) == [ParamPair(SegmentInverse(s1, At(Vec2(0.0, 0.0))), SegmentInverse(s2, At(Vec2(0.0, 0.0))))];
  }

  /** One pair per point, in order: the point's parameter on c and on the arc. */
  function ArcPairs(c: Curve, arc: Arc, pts: seq<Vec2>, lib: Libm): (r: seq<ParamPair>)
    ensures |r| == |pts|
    ensures forall i :: 0 <= i < |pts| ==> r[i] == ParamPair(Inverse(c, pts[i], lib), ArcInverse(arc, pts[i], lib))
  {
    if pts == [] then []
    else
      ArcPairs(c, arc, pts[..|pts| - 1], lib) +
      [ParamPair(Inverse(c, pts[|pts| - 1], lib), ArcInverse(arc, pts[|pts| - 1], lib))]
  }

  /** The loop of line_arc and segment_arc that pushes one pair per intersection point. */
  method CollectArcPairs(c: Curve, arc: Arc, pts: seq<Vec2>, lib: Libm) returns (tpairs: seq<ParamPair>)
    ensures tpairs == ArcPairs(c, arc, pts, lib)
  {
    tpairs := [];
    for i := 0 to |pts|
      invariant tpairs == ArcPairs(c, arc, pts[..i], lib)
    {
      assert pts[..i + 1][..i] == pts[..i];
      tpairs := tpairs + [ParamPair(Inverse(c, pts[i], lib), ArcInverse(arc, pts[i], lib))];
    }
    assert pts[..|pts|] == pts;
  }

  /**
   * The pairs of line_arc for a line with p = 0 and |q| < 1e-15. The x coordinates of its
   * mock-up segment are -r/0, an infinity or NaN, so dx and delta in points_segment_arc are
   * NaN. Both `delta <= 0` and iszero(delta) are false, and the two points of the last branch
   * are NaN, with no finite parameter on the line or on the arc.
   */
  function NaNPairs(): (r: seq<ParamPair>)
    ensures |r| == 2 && forall i :: 0 <= i < |r| ==> r[i].t1 == NonFinite && !OnBoth(r[i])
  {
    [ParamPair(NonFinite, NonFinite), ParamPair(NonFinite, NonFinite)]
  }

  /**
   * line_arc: the points of the arc's circle on the mock-up segment of the line; each line
   * parameter lies in (0, 1). A line without a finite mock-up segment gives two NaN pairs.
   */
  function LineArc(line: Line, arc: Arc, lib: Libm): (r: seq<ParamPair>)
    requires lib.Valid()
    ensures |r| <= 2
    ensures Parametrizable(line) ==> forall i :: 0 <= i < |r| ==> r[i].t1.Finite? && 0.0 < r[i].t1.v < 1.0
    ensures !Parametrizable(line) ==> |r| == 2 && forall i :: 0 <= i < |r| ==> !OnBoth(r[i])
  {
    if Parametrizable(line) then ArcPairs(LineCurve(line), arc, PointsSegmentArc(LineToSegment(line), arc, lib), lib)
    else NaNPairs()
  }

  /** segment_arc: one pair per point of points_segment_arc. */
  function SegmentArc(seg: Segment, arc: Arc, lib: Libm): (r: seq<ParamPair>)
    requires lib.Valid()
    ensures |r| <= 2
    ensures Degenerate(seg) ==> forall i :: 0 <= i < |r| ==> r[i].t1 == Finite(0.0)
  {
    ArcPairs(SegmentCurve(seg), arc, PointsSegmentArc(seg, arc, lib), lib)
  }

  /** The point is at distance r from the arc's centre. */
  predicate OnCircle(arc: Arc, pt: Vec2)
  {
    Dot(Sub(pt, arc.p0), Sub(pt, arc.p0)) == arc.r * arc.r
  }

  /** Pairs of points on the circle and the segment line reach the circle at their first parameter. */
  lemma ArcPairsOnCircle(seg: Segment, arc: Arc, pts: seq<Vec2>, lib: Libm)
    requires !Degenerate(seg) && forall pt :: pt in pts ==> OnCircleAndLine(seg, arc, pt)
    ensures var r := ArcPairs(SegmentCurve(seg), arc, pts, lib);
      forall i :: 0 <= i < |r| ==> r[i].t1.Finite? && OnCircle(arc, SegmentEval(seg, r[i].t1.v, 0))
  {
    var r := ArcPairs(SegmentCurve(seg), arc, pts, lib);
    forall i | 0 <= i < |r|
      ensures r[i].t1.Finite? && OnCircle(arc, SegmentEval(seg, r[i].t1.v, 0))
    {
      assert pts[i] in pts;
      SegmentEvalParam(seg, pts[i]);
      assert r[i].t1 == Finite(SegmentParam(seg, pts[i]));
    }
  }

  /**
   * In the two-point case of a proper segment, the segment at each pair's first parameter is
   * a point of the arc's circle.
   */
  lemma SegmentArcMeets(seg: Segment, arc: Arc, lib: Libm)
    requires lib.Valid() && !Degenerate(seg)
    requires var delta := Delta(ChordOf(seg, arc, lib), arc.r); delta > 0.0 && !IsZero(delta)
    ensures var r := SegmentArc(seg, arc, lib);
      |r| == 2 && forall i :: 0 <= i < |r| ==> r[i].t1.Finite? && OnCircle(arc, SegmentEval(seg, r[i].t1.v, 0))
  {
    TwoPointsOnCircle(seg, arc, lib);
    ArcPairsOnCircle(seg, arc, PointsSegmentArc(seg, arc, lib), lib);
    assert SegmentArc(seg, arc, lib) == ArcPairs(SegmentCurve(seg), arc, PointsSegmentArc(seg, arc, lib), lib);
  }

  /**
   * In the two-point case of a line with a finite mock-up segment, vertical or not, the line
   * at each pair's first parameter is a point of the arc's circle.
   */
  lemma LineArcMeets(line: Line, arc: Arc, lib: Libm)
    requires lib.Valid() && Parametrizable(line)
    requires var delta := Delta(ChordOf(LineToSegment(line), arc, lib), arc.r); delta > 0.0 && !IsZero(delta)
    ensures var r := LineArc(line, arc, lib);
      |r| == 2 && forall i :: 0 <= i < |r| ==>
        r[i].t1.Finite? && LineEval(line, r[i].t1.v, lib).At? && OnCircle(arc, LineEval(line, r[i].t1.v, lib).v)
  {
    var seg := LineToSegment(line);
    var pts := PointsSegmentArc(seg, arc, lib);
    TwoPointsOnCircle(seg, arc, lib);
    var r := LineArc(line, arc, lib);
    assert r == ArcPairs(LineCurve(line), arc, pts, lib);
    forall i | 0 <= i < |r|
      ensures r[i].t1.Finite? && LineEval(line, r[i].t1.v, lib) == At(pts[i]) && OnCircle(arc, pts[i])
    {
      assert pts[i] in pts;
      LinePointOfChord(line, seg, arc, pts[i], lib);
      assert r[i].t1 == LineInverse(line, At(pts[i]), lib);
    }
  }

  /**
   * A point of the circle collinear with the mock-up segment is the line at its inverse:
   * tanh and atanh cancel, and the segment at its own parameter is the point.
   */
  lemma LinePointOfChord(line: Line, seg: Segment, arc: Arc, pt: Vec2, lib: Libm)
    requires lib.Valid() && Parametrizable(line) && seg == LineToSegment(line)
    requires OnCircleAndLine(seg, arc, pt)
    ensures LineEval(line, LineInverse(line, At(pt), lib).v, lib) == At(pt)
  {
    MockSegmentProper(line);
    var s := SegmentParam(seg, pt);
    var t := (lib.tanh(s) + 1.0) / 2.0;
    assert LineInverse(line, At(pt), lib) == Finite(t);
    assert 2.0 * t - 1.0 == lib.tanh(s);
    assert lib.atanh(lib.tanh(s)) == s;
    SegmentEvalParam(seg, pt);
  }

  // ---------------------------------------------------------------- Bezier routines

  /** The power-form coefficients of one coordinate of a cubic Bezier (the arrays bx and by). */
  function PowerCoefficients(a: real, b: real, c: real, d: real): PolyCubic
  {
    PolyCubic(-a + 3.0 * b - 3.0 * c + d, 3.0 * a - 6.0 * b + 3.0 * c, -3.0 * a + 3.0 * b, a)
  }

  /** The Bernstein form of a coordinate equals its power form at every t. */
  lemma BernsteinPower(t: real, a: real, b: real, c: real, d: real)
    ensures Bernstein(t, a, b, c, d, 0) == Value(PowerCoefficients(a, b, c, d), t)
  {
    var u := 1.0 - t;
    assert u * u * u * a == a - 3.0 * a * t + 3.0 * a * t * t - a * t * t * t;
    assert 3.0 * u * u * t * b == 3.0 * b * t - 6.0 * b * t * t + 3.0 * b * t * t * t;
    assert 3.0 * u * t * t * c == 3.0 * c * t * t - 3.0 * c * t * t * t;
  }

  /**
   * The cubic of params_line_beziercubic: p * bx + q * by, minus r in the constant term, so
   * that its value at t is p B(t).x + q B(t).y - r.
   */
  function BezierPoly(l: Line, b: BezierCubic): PolyCubic
  {
    Combine(l.p, l.q, l.r, PowerCoefficients(b.p0.x, b.p1.x, b.p2.x, b.p3.x),
      PowerCoefficients(b.p0.y, b.p1.y, b.p2.y, b.p3.y))
  }

  /** p x + q y - r, coefficient by coefficient. */
  function Combine(p: real, q: real, r: real, x: PolyCubic, y: PolyCubic): PolyCubic
  {
    PolyCubic(p * x.a + q * y.a, p * x.b + q * y.b, p * x.c + q * y.c, p * x.d + q * y.d - r)
  }

  lemma CombineValues(p: real, q: real, r: real, x: PolyCubic, y: PolyCubic, t: real)
    ensures Value(Combine(p, q, r, x, y), t) == p * Value(x, t) + q * Value(y, t) - r
  {
    var t2 := t * t;
    var t3 := t2 * t;
    var z := Combine(p, q, r, x, y);
    PowerForm(x, t, t2, t3);
    PowerForm(y, t, t2, t3);
    PowerForm(z, t, t2, t3);
    Distribute(p, q, x.a, y.a, t3);
    Distribute(p, q, x.b, y.b, t2);
    Distribute(p, q, x.c, y.c, t);
    Distribute(p, q, Value(x, t) - x.d, Value(y, t) - y.d, 1.0);
  }

  lemma PowerForm(poly: PolyCubic, t: real, t2: real, t3: real)
    requires t2 == t * t && t3 == t2 * t
    ensures Value(poly, t) == poly.a * t3 + poly.b * t2 + poly.c * t + poly.d
  {
  }

  lemma Distribute(p: real, q: real, u: real, v: real, m: real)
    ensures (p * u + q * v) * m == p * (u * m) + q * (v * m)
  {
  }

  /**
   * The cubic's value at t is how far the Bezier point B(t) is off the line: its roots are
   * exactly the parameters at which the curve meets the line p*x + q*y = r.
   */
  lemma BezierPolyValue(l: Line, b: BezierCubic, t: real)
    ensures Value(BezierPoly(l, b), t) == l.p * BezierEval(b, t, 0).x + l.q * BezierEval(b, t, 0).y - l.r
    ensures Value(BezierPoly(l, b), t) == 0.0 <==> OnLine(l, BezierEval(b, t, 0))
  {
    var pt := BezierEval(b, t, 0);
    assert Value(BezierPoly(l, b), t) == l.p * pt.x + l.q * pt.y - l.r by {
      BezierPowerForm(b, t);
      PointValue(l, pt, PowerCoefficients(b.p0.x, b.p1.x, b.p2.x, b.p3.x),
        PowerCoefficients(b.p0.y, b.p1.y, b.p2.y, b.p3.y), t);
    }
    OffsetZero(Value(BezierPoly(l, b), t), l, pt);
  }

  lemma OffsetZero(v: real, l: Line, pt: Vec2)
    requires v == l.p * pt.x + l.q * pt.y - l.r
    ensures v == 0.0 <==> OnLine(l, pt)
  {
  }

  /** Both coordinates of the Bezier point are values of their power forms. */
  lemma BezierPowerForm(b: BezierCubic, t: real)
    ensures BezierEval(b, t, 0).x == Value(PowerCoefficients(b.p0.x, b.p1.x, b.p2.x, b.p3.x), t)
    ensures BezierEval(b, t, 0).y == Value(PowerCoefficients(b.p0.y, b.p1.y, b.p2.y, b.p3.y), t)
  {
    BernsteinPower(t, b.p0.x, b.p1.x, b.p2.x, b.p3.x);
    BernsteinPower(t, b.p0.y, b.p1.y, b.p2.y, b.p3.y);
  }

  /** A point whose coordinates are the values of x and y at t: the combined cubic measures its offset. */
  lemma PointValue(l: Line, pt: Vec2, x: PolyCubic, y: PolyCubic, t: real)
    requires pt.x == Value(x, t) && pt.y == Value(y, t)
    ensures Value(Combine(l.p, l.q, l.r, x, y), t) == l.p * pt.x + l.q * pt.y - l.r
  {
    CombineValues(l.p, l.q, l.r, x, y, t);
    LinearSubst(l.p, l.q, l.r, Value(x, t), Value(y, t), pt.x, pt.y);
  }

  lemma LinearSubst(p: real, q: real, r: real, a: real, b: real, c: real, d: real)
    requires a == c && b == d
    ensures p * a + q * b - r == p * c + q * d - r
  {
  }

  /** params_line_beziercubic: the roots of BezierPoly, at most three. */
  function ParamsLineBezierCubic(l: Line, b: BezierCubic, lib: Libm): (roots: seq<real>)
    requires lib.Valid()
    ensures |roots| <= 3
  {
    AtMostThreeRoots(BezierPoly(l, b), lib);
    CubicRoots(BezierPoly(l, b), lib)
  }

  /** One pair per root, in order: the parameter on c of the Bezier point, and the root. */
  function RootPairs(c: Curve, b: BezierCubic, roots: seq<real>, lib: Libm): (r: seq<ParamPair>)
    ensures |r| == |roots|
    ensures forall i :: 0 <= i < |roots| ==>
      r[i] == ParamPair(Inverse(c, BezierEval(b, roots[i], 0), lib), Finite(roots[i]))
  {
    if roots == [] then []
    else
      RootPairs(c, b, roots[..|roots| - 1], lib) +
      [ParamPair(Inverse(c, BezierEval(b, roots[|roots| - 1], 0), lib), Finite(roots[|roots| - 1]))]
  }

  /** The loop of line_beziercubic and segment_beziercubic that pushes one pair per root. */
  method CollectRootPairs(c: Curve, b: BezierCubic, roots: seq<real>, lib: Libm) returns (tpairs: seq<ParamPair>)
    ensures tpairs == RootPairs(c, b, roots, lib)
  {
    tpairs := [];
    for i := 0 to |roots|
      invariant tpairs == RootPairs(c, b, roots[..i], lib)
    {
      assert roots[..i + 1][..i] == roots[..i];
      var interpt := BezierEval(b, roots[i], 0);
      tpairs := tpairs + [ParamPair(Inverse(c, interpt, lib), Finite(roots[i]))];
    }
    assert roots[..|roots|] == roots;
  }

  /**
   * line_beziercubic: one pair per root of params_line_beziercubic, in order, with the root
   * as t2 and a line parameter in (0, 1) as t1.
   */
  function LineBezierCubic(line: Line, b: BezierCubic, lib: Libm): (r: seq<ParamPair>)
    requires lib.Valid()
    ensures var roots := ParamsLineBezierCubic(line, b, lib);
      |r| == |roots| &&
      forall i :: 0 <= i < |r| ==> r[i].t2 == Finite(roots[i]) && r[i].t1.Finite? && 0.0 < r[i].t1.v < 1.0
  {
    RootPairs(LineCurve(line), b, ParamsLineBezierCubic(line, b, lib), lib)
  }

  /**
   * segment_beziercubic: one pair per root for the line through the segment, in order, with
   * the root as t2 and a finite segment parameter as t1 when the segment is proper.
   */
  function SegmentBezierCubic(seg: Segment, b: BezierCubic, lib: Libm): (r: seq<ParamPair>)
    requires lib.Valid()
    ensures var roots := ParamsLineBezierCubic(Through(seg), b, lib);
      |r| == |roots| &&
      forall i :: 0 <= i < |r| ==> r[i].t2 == Finite(roots[i]) && r[i].t1.Finite?
  {
    RootPairs(SegmentCurve(seg), b, ParamsLineBezierCubic(Through(seg), b, lib), lib)
  }

  /**
   * At an exact root of the cubic, a proper segment and the Bezier meet: the segment at t1 is
   * the curve at t2.
   */
  lemma SegmentBezierMeets(seg: Segment, b: BezierCubic, lib: Libm, i: nat)
    requires lib.Valid() && !Degenerate(seg)
    requires var roots := ParamsLineBezierCubic(Through(seg), b, lib);
      i < |roots| && Value(BezierPoly(Through(seg), b), roots[i]) == 0.0
    ensures var tp := SegmentBezierCubic(seg, b, lib)[i];
      tp.t1.Finite? && tp.t2.Finite? && SegmentEval(seg, tp.t1.v, 0) == BezierEval(b, tp.t2.v, 0)
  {
    var root := ParamsLineBezierCubic(Through(seg), b, lib)[i];
    BezierPolyValue(Through(seg), b, root);
    InverseOnThrough(seg, BezierEval(b, root, 0));
  }
}
