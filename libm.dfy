/**
 * The C math library functions the billiard engine calls (std::sqrt, std::pow(x, 1/3),
 * std::cos, std::sin, std::atan, std::atan2, std::tanh, std::atanh), over the reals.
 *
 * They are not defined here: a `Libm` value carries them as function values, and
 * `Valid()` states the only facts the proofs rely on. Every operation that calls one of
 * them takes the `Libm` as a parameter.
 */
module LibM {

  datatype Libm = Libm(
    sqrt: real -> real,
    cbrt: real -> real,     // std::pow(x, 1.0 / 3.0) on non-negative arguments
    cos: real -> real,
    sin: real -> real,
    atan: real -> real,
    atan2: (real, real) -> real,
    tanh: real -> real,
    atanh: real -> real)
  {
    /**
     * Exact square and cube roots, the Pythagorean identity, tanh and atanh as inverses, and
     * atan2 as the principal angle in (-pi, pi] of a point given in polar form.
     */
    ghost predicate Valid()
    {
      (forall x :: x >= 0.0 ==> sqrt(x) >= 0.0 && sqrt(x) * sqrt(x) == x) &&
      (forall x :: x >= 0.0 ==> cbrt(x) >= 0.0 && cbrt(x) * cbrt(x) * cbrt(x) == x) &&
      (forall t :: cos(t) * cos(t) + sin(t) * sin(t) == 1.0) &&
      (forall s :: -1.0 < tanh(s) < 1.0 && atanh(tanh(s)) == s) &&
      (forall x :: -1.0 < x < 1.0 ==> tanh(atanh(x)) == x) &&
      (forall y, x :: -PI < atan2(y, x) <= PI) &&
      (forall r, th :: r > 0.0 ==> IsInteger((Polar(this, r, th) - th) / (2.0 * PI)))
    }
  }

  /** atan2 of the point with polar coordinates (r, th). */
  function Polar(lib: Libm, r: real, th: real): real
  {
    lib.atan2(PolarY(lib, r, th), PolarX(lib, r, th))
  }

  /** The Cartesian coordinates of the point with polar coordinates (r, th). */
  function PolarX(lib: Libm, r: real, th: real): real { r * lib.cos(th) }
  function PolarY(lib: Libm, r: real, th: real): real { r * lib.sin(th) }

  /** atan2 of a point written as (r cos th, r sin th) is the polar angle of (r, th). */
  lemma PolarOf(lib: Libm, x: real, y: real, r: real, th: real)
    requires x == PolarX(lib, r, th) && y == PolarY(lib, r, th)
    ensures lib.atan2(y, x) == Polar(lib, r, th)
  {
  }

  predicate IsInteger(z: real) { z == z.Floor as real }

  /** M_PI of math.h, as a decimal literal. */
  const PI: real := 3.14159265358979323846

  lemma MulLe(a: real, b: real, c: real)
    requires a <= b && c >= 0.0
    ensures a * c <= b * c
  {
  }

  lemma SquareLe(a: real, b: real)
    requires 0.0 <= a <= b
    ensures a * a <= b * b
  {
    MulLe(a, b, a);
    MulLe(a, b, b);
  }

  lemma SquareLt(a: real, b: real)
    requires 0.0 <= a < b
    ensures a * a < b * b
  {
    var d := b - a;
    assert b * b == a * a + 2.0 * a * d + d * d;
    assert d * d > 0.0;
    assert a * d >= 0.0;
  }

  /** The square root of a square of a non-negative number is that number. */
  lemma SqrtOfSquare(lib: Libm, a: real)
    requires lib.Valid() && a >= 0.0
    ensures lib.sqrt(a * a) == a
  {
    var s := lib.sqrt(a * a);
    assert s >= 0.0 && s * s == a * a;
    if s < a { SquareLt(s, a); }
    if a < s { SquareLt(a, s); }
  }

  /** sqrt of a non-negative number squares back to it. */
  lemma SqrtSquare(lib: Libm, x: real)
    requires lib.Valid() && x >= 0.0
    ensures lib.sqrt(x) * lib.sqrt(x) == x
  {
  }

  /** sqrt is zero at zero and positive above it. */
  lemma SqrtZero(lib: Libm, x: real)
    requires lib.Valid() && x >= 0.0
    ensures x == 0.0 ==> lib.sqrt(x) == 0.0
    ensures x > 0.0 ==> lib.sqrt(x) > 0.0
  {
    if x == 0.0 { SqrtOfSquare(lib, 0.0); }
  }

  /** sqrt of a number below a perfect square is below its root; above it, above. */
  lemma SqrtBounds(lib: Libm, x: real, a: real)
    requires lib.Valid() && x >= 0.0 && a >= 0.0
    ensures x < a * a ==> lib.sqrt(x) < a
    ensures a * a < x ==> a < lib.sqrt(x)
  {
    var s := lib.sqrt(x);
    if x < a * a && s >= a { SquareLe(a, s); }
    if a * a < x && s <= a { SquareLe(s, a); }
  }

  /** The cube root of a positive number is positive. */
  lemma CbrtPositive(lib: Libm, x: real)
    requires lib.Valid() && x > 0.0
    ensures lib.cbrt(x) > 0.0
  {
  }
}
