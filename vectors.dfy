/**
 * The 2D vector of physics/include/vec2.hpp.
 *
 * `Vec2` is the value type used by every computation; the operators that build a new
 * vector are functions on it. `Vec2Cell` is a vec2 variable that the compound assignments,
 * `rotate`, `normalize` and `truncate` update in place.
 */
module Vectors {
  import opened LibM

  datatype Vec2 = Vec2(x: real, y: real)

  /** The default-constructed vec2. */
  const Zero := Vec2(0.0, 0.0)

  /** Member operator== : both components equal. */
  predicate Eq(a: Vec2, b: Vec2) { b.x == a.x && b.y == a.y }
  predicate Neq(a: Vec2, b: Vec2) { !Eq(a, b) }

  function Add(a: Vec2, b: Vec2): Vec2 { Vec2(a.x + b.x, a.y + b.y) }
  function Sub(a: Vec2, b: Vec2): Vec2 { Vec2(a.x - b.x, a.y - b.y) }
  function Neg(a: Vec2): Vec2 { Vec2(-a.x, -a.y) }

  /** v + s, v - s, v * s and v / s. */
  function AddScalar(v: Vec2, s: real): Vec2 { Vec2(v.x + s, v.y + s) }
  function SubScalar(v: Vec2, s: real): Vec2 { Vec2(v.x - s, v.y - s) }
  function Scale(v: Vec2, s: real): Vec2 { Vec2(v.x * s, v.y * s) }
  function DivScalar(v: Vec2, s: real): Vec2
    requires s != 0.0
  {
    Vec2(v.x / s, v.y / s)
  }

  /** The friend operators s + v, s - v, s * v and s / v. */
  function ScalarAdd(s: real, v: Vec2): Vec2 { Vec2(s + v.x, s + v.y) }
  function ScalarSub(s: real, v: Vec2): Vec2 { Vec2(s - v.x, s - v.y) }
  function ScalarMul(s: real, v: Vec2): Vec2 { Vec2(s * v.x, s * v.y) }
  function ScalarDiv(s: real, v: Vec2): Vec2
    requires v.x != 0.0 && v.y != 0.0
  {
    Vec2(s / v.x, s / v.y)
  }

  function Dot(a: Vec2, b: Vec2): real { a.x * b.x + a.y * b.y }
  function Cross(a: Vec2, b: Vec2): real { a.x * b.y - a.y * b.x }

  /** The vector turned a quarter turn clockwise. */
  function Ortho(v: Vec2): Vec2 { Vec2(v.y, -v.x) }

  /** sqrt(x*x + y*y), written through `Dot`. */
  function Length(v: Vec2, lib: Libm): real { lib.sqrt(Dot(v, v)) }

  function Dist(a: Vec2, b: Vec2, lib: Libm): real
  {
    Length(Vec2(a.x - b.x, a.y - b.y), lib)
  }

  /** The value `normalize` leaves behind: unchanged at length zero, else scaled by 1/length. */
  function Normalized(v: Vec2, lib: Libm): Vec2
  {
    if Length(v, lib) == 0.0 then v else Scale(v, 1.0 / Length(v, lib))
  }

  /** The value `rotate(theta)` leaves behind. */
  function Rotated(v: Vec2, theta: real, lib: Libm): Vec2
  {
    var c := lib.cos(theta);
    var s := lib.sin(theta);
    Vec2(v.x * c - v.y * s, v.x * s + v.y * c)
  }

  /** The value `truncate(length)` leaves behind: the given length along atan2(y, x). */
  function Truncated(v: Vec2, length: real, lib: Libm): Vec2
  {
    var angle := lib.atan2(v.y, v.x);
    Vec2(length * lib.cos(angle), length * lib.sin(angle))
  }

  /** operator== compares components, so it is exactly equality of values. */
  lemma EqIsEquality(a: Vec2, b: Vec2)
    ensures Eq(a, b) <==> a == b
    ensures Neq(a, b) <==> a != b
  {
  }

  /** How the operators relate: subtraction undoes addition, unary minus is an involution, ... */
  lemma OperatorLaws(a: Vec2, b: Vec2, s: real)
    ensures Sub(Add(a, b), b) == a && Add(Sub(a, b), b) == a
    ensures Add(a, Neg(b)) == Sub(a, b) && Neg(Neg(a)) == a
    ensures AddScalar(a, s) == Add(a, Vec2(s, s)) && SubScalar(a, s) == Sub(a, Vec2(s, s))
    ensures ScalarAdd(s, a) == AddScalar(a, s) && ScalarMul(s, a) == Scale(a, s)
    ensures ScalarSub(s, a) == Neg(SubScalar(a, s))
    ensures s != 0.0 ==> DivScalar(Scale(a, s), s) == a && Scale(DivScalar(a, s), s) == a
  {
  }

  /** dot is symmetric, cross antisymmetric, cross(v, v) = 0, and Lagrange's identity links them. */
  lemma DotCrossLaws(a: Vec2, b: Vec2)
    ensures Dot(a, b) == Dot(b, a)
    ensures Cross(a, b) == -Cross(b, a) && Cross(a, a) == 0.0
    ensures Dot(a, b) * Dot(a, b) + Cross(a, b) * Cross(a, b) == Dot(a, a) * Dot(b, b)
  {
  }

  /** dot(v, v) is non-negative. */
  lemma DotSelfNonNegative(a: Vec2)
    ensures Dot(a, a) >= 0.0
  {
    SquareNonNegative(a.x);
    SquareNonNegative(a.y);
  }

  lemma SquareNonNegative(x: real)
    ensures x * x >= 0.0
  {
    if x < 0.0 { assert x * x == (-x) * (-x); }
  }

  /** ortho(v) is perpendicular to v, as long as v, and turning twice gives -v. */
  lemma OrthoLaws(v: Vec2, lib: Libm)
    ensures Dot(v, Ortho(v)) == 0.0
    ensures Dot(Ortho(v), Ortho(v)) == Dot(v, v) && Length(Ortho(v), lib) == Length(v, lib)
    ensures Cross(v, Ortho(v)) == -Dot(v, v)
    ensures Ortho(Ortho(v)) == Neg(v)
  {
  }

  /** length is the non-negative square root of dot(v, v); the zero vector has length 0. */
  lemma LengthLaws(v: Vec2, lib: Libm)
    requires lib.Valid()
    ensures Length(v, lib) >= 0.0
    ensures Length(v, lib) * Length(v, lib) == Dot(v, v)
  {
    DotSelfNonNegative(v);
  }

  /** The zero vector has length 0. */
  lemma LengthZero(lib: Libm)
    requires lib.Valid()
    ensures Length(Zero, lib) == 0.0
  {
    assert Dot(Zero, Zero) == 0.0;
    SqrtZero(lib, 0.0);
  }

  /** dist(a, b) = length(a - b) = dist(b, a). */
  lemma DistLaws(a: Vec2, b: Vec2, lib: Libm)
    ensures Dist(a, b, lib) == Length(Sub(a, b), lib)
    ensures Dist(a, b, lib) == Dist(b, a, lib)
  {
    assert Dot(Sub(a, b), Sub(a, b)) == Dot(Sub(b, a), Sub(b, a));
  }

  /** normalize leaves a zero-length vector unchanged. */
  lemma NormalizeZero(v: Vec2, lib: Libm)
    requires Length(v, lib) == 0.0
    ensures Normalized(v, lib) == v
  {
  }

  /**
   * normalize of a non-zero vector has length 1 and the same direction: it is collinear
   * with the input (cross product zero) and points the same way (positive dot product).
   */
  lemma NormalizeUnit(v: Vec2, lib: Libm)
    requires lib.Valid() && Length(v, lib) != 0.0
    ensures Dot(Normalized(v, lib), Normalized(v, lib)) == 1.0
    ensures Length(Normalized(v, lib), lib) == 1.0
    ensures Cross(Normalized(v, lib), v) == 0.0 && Dot(Normalized(v, lib), v) > 0.0
  {
    LengthLaws(v, lib);
    var l := Length(v, lib);
    var k := 1.0 / l;
    var n := Scale(v, k);
    assert Normalized(v, lib) == n;
    assert k * l == 1.0;
    assert Dot(n, n) == k * k * Dot(v, v);
    assert Dot(n, n) == (k * l) * (k * l);
    assert Dot(n, v) == k * Dot(v, v);
    assert Cross(n, v) == k * Cross(v, v);
    assert 1.0 * 1.0 == 1.0;
    SqrtOfSquare(lib, 1.0);
  }

  /** rotate keeps the squared length. */
  lemma RotatedKeepsLength(v: Vec2, theta: real, lib: Libm)
    requires lib.Valid()
    ensures Dot(Rotated(v, theta, lib), Rotated(v, theta, lib)) == Dot(v, v)
  {
    var c := lib.cos(theta);
    var s := lib.sin(theta);
    assert c * c + s * s == 1.0;
    var r := Rotated(v, theta, lib);
    assert Dot(r, r) == (v.x * v.x + v.y * v.y) * (c * c + s * s);
  }

  /** truncate(length) leaves a vector whose squared length is length². */
  lemma TruncatedLength(v: Vec2, length: real, lib: Libm)
    requires lib.Valid()
    ensures Dot(Truncated(v, length, lib), Truncated(v, length, lib)) == length * length
  {
    var angle := lib.atan2(v.y, v.x);
    var c := lib.cos(angle);
    var s := lib.sin(angle);
    assert c * c + s * s == 1.0;
    assert Dot(Truncated(v, length, lib), Truncated(v, length, lib)) == length * length * (c * c + s * s);
  }

  /** A vec2 variable, updated in place by the compound assignments and the mutators. */
  class Vec2Cell {
    var x: real
    var y: real

    function Value(): Vec2
      reads this
    {
      Vec2(x, y)
    }

    constructor (x0: real, y0: real)
      ensures Value() == Vec2(x0, y0)
    {
      x, y := x0, y0;
    }

    /** vec2() : x(0), y(0) */
    constructor Default()
      ensures Value() == Zero
    {
      x, y := 0.0, 0.0;
    }

    /** operator= copies both components. */
    method Assign(v: Vec2)
      modifies this
      ensures Value() == v
    {
      x := v.x;
      y := v.y;
    }

    method AddAssign(v: Vec2)
      modifies this
      ensures Value() == Add(old(Value()), v)
    {
      x := x + v.x;
      y := y + v.y;
    }

    method SubAssign(v: Vec2)
      modifies this
      ensures Value() == Sub(old(Value()), v)
    {
      x := x - v.x;
      y := y - v.y;
    }

    method AddScalarAssign(s: real)
      modifies this
      ensures Value() == AddScalar(old(Value()), s)
    {
      x := x + s;
      y := y + s;
    }

    method SubScalarAssign(s: real)
      modifies this
      ensures Value() == SubScalar(old(Value()), s)
    {
      x := x - s;
      y := y - s;
    }

    method MulAssign(s: real)
      modifies this
      ensures Value() == Scale(old(Value()), s)
    {
      x := x * s;
      y := y * s;
    }

    method DivAssign(s: real)
      requires s != 0.0
      modifies this
      ensures Value() == DivScalar(old(Value()), s)
    {
      x := x / s;
      y := y / s;
    }

    method Rotate(theta: real, lib: Libm)
      modifies this
      ensures Value() == Rotated(old(Value()), theta, lib)
    {
      var c := lib.cos(theta);
      var s := lib.sin(theta);
      var tx := x * c - y * s;
      var ty := x * s + y * c;
      x := tx;
      y := ty;
    }

    method Normalize(lib: Libm)
      modifies this
      ensures Value() == Normalized(old(Value()), lib)
    {
      if Length(Value(), lib) == 0.0 {
        return;
      }
      MulAssign(1.0 / Length(Value(), lib));
    }

    method Truncate(length: real, lib: Libm)
      modifies this
      ensures Value() == Truncated(old(Value()), length, lib)
    {
      var angle := lib.atan2(y, x);
      x := length * lib.cos(angle);
      y := length * lib.sin(angle);
    }
  }
}
