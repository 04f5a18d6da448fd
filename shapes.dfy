/**
 * The curve records shared by both generations of the engine (physics/include/curve.hpp and
 * chaotic_pool/physics/src/curve.hpp, segment.hpp). Each datatype constructor is the C++
 * constructor that stores its arguments unchanged; the Arc constructor, which normalises its
 * angles, is `Curves.MakeArc`.
 */
module Shapes {
  import opened Vectors

  /** Line coefficients p, q, r (also the LineCoefs struct of the segment-only engine). */
  datatype Line = Line(p: real, q: real, r: real)

  datatype Segment = Segment(p1: Vec2, p2: Vec2)

  /** Circle arc around p0 with radius r from angle thetaMin to angle thetaMax (radians). */
  datatype Arc = Arc(p0: Vec2, r: real, thetaMin: real, thetaMax: real)

  /** Cubic Bezier curve with control points p0 .. p3. */
  datatype BezierCubic = BezierCubic(p0: Vec2, p1: Vec2, p2: Vec2, p3: Vec2)

  /** Ellipse is only forward-declared; it has no fields in the source. */
  datatype Ellipse = Ellipse
}
