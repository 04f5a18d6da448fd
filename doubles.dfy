/**
 * Values that a double can hold but a real cannot. The engine computes with doubles and
 * reaches IEEE-754 infinities and NaN in a few places: point_line_line returns the point
 * (INFINITY, INFINITY) for parallel lines, a parameter computed from that point divides an
 * infinity, and Line evaluation takes atanh of -1, 1 or of a value outside [-1, 1].
 */
module Doubles {
  import opened Vectors

  /** A double: a finite value, or one of +inf, -inf and NaN, which fail every range test. */
  datatype Double = Finite(v: real) | NonFinite

  /**
   * A vec2 that is finite, the (INFINITY, INFINITY) sentinel of point_line_line, or a vector
   * with some other infinite or NaN coordinate, whose signs the model does not track.
   */
  datatype Point = At(v: Vec2) | Infinity | Undefined
}
