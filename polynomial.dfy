/**
 * The real-root finder of physics/include/physics/polynomial.hpp: roots_cubic solves
 * a*x^3 + b*x^2 + c*x + d = 0 by peeling off a root at 0 when |d| < 1e-15, then taking the
 * linear, quadratic or Cardano branch.
 *
 * `CubicRoots` states the result as a function of the coefficients, branch by branch;
 * `RootsCubic` is the routine itself, which reassigns its coefficient copies and appends to
 * the root list, proved equal to `CubicRoots`. std::pow(x, 1/3), std::atan, std::cos and
 * std::sin come from the `Libm` parameter.
 */
module Polynomial {
  import opened LibM
  import opened Globals

  datatype PolyCubic = PolyCubic(a: real, b: real, c: real, d: real)

  /** The constants cos120 and sin120 of the source. */
  const Cos120: real := -0.50
  const Sin120: real := 0.866025403784438646764

  /** The polynomial a*x^3 + b*x^2 + c*x + d at x. */
  function Value(poly: PolyCubic, x: real): real
  {
    poly.a * x * x * x + poly.b * x * x + poly.c * x + poly.d
  }

  /** The coefficients after the root 0 is peeled off: d <- c, c <- b, b <- a, a <- 0. */
  function Shifted(poly: PolyCubic): PolyCubic
  {
    PolyCubic(0.0, poly.a, poly.b, poly.c)
  }

  /** Linear branch: the root -d/c, unless |c| < 1e-15. */
  function LinearRoots(c: real, d: real): seq<real>
  {
    if !IsZero(c) then [-d / c] else []
  }

  /** Quadratic branch: (-c +- sqrt(disc)) / (2b) when the discriminant is non-negative. */
  function QuadraticRoots(b: real, c: real, d: real, lib: Libm): seq<real>
    requires !IsZero(b)
  {
    var discriminant := c * c - 4.0 * b * d;
    if discriminant >= 0.0 then
      var inv2b := 1.0 / (2.0 * b);
      var y := lib.sqrt(discriminant);
      [(-c + y) * inv2b, (-c - y) * inv2b]
    else []
  }

  /** b/(3a), the depressed cubic's p and q/2, and the discriminant yy = p^3/27 + (q/2)^2. */
  datatype Cardano = Cardano(bover3a: real, p: real, halfq: real, yy: real)

  function Depress(poly: PolyCubic): Cardano
    requires poly.a != 0.0
  {
    var a, b, c, d := poly.a, poly.b, poly.c, poly.d;
    var inva := 1.0 / a;
    var invaa := inva * inva;
    var bb := b * b;
    var bover3a := b * (1.0 / 3.0) * inva;
    var p := (3.0 * a * c - bb) * (1.0 / 3.0) * invaa;
    var halfq := (2.0 * bb * b - 9.0 * a * b * c + 27.0 * a * a * d) * (0.5 / 27.0) * invaa * inva;
    Cardano(bover3a, p, halfq, p * p * p / 27.0 + halfq * halfq)
  }

  /** The real cube root with the sign of x: -pow(|x|, 1/3) below zero, pow(x, 1/3) otherwise. */
  function SignedCbrt(x: real, lib: Libm): real
  {
    if x < 0.0 then -lib.cbrt(Abs(x)) else lib.cbrt(x)
  }

  /** Of -halfq + y and -halfq - y, the one of larger magnitude (the second on a tie). */
  function Larger(halfq: real, y: real): real
  {
    var uuu := -halfq + y;
    var vvv := -halfq - y;
    if Abs(uuu) > Abs(vvv) then uuu else vvv
  }

  /** yy > 0: the one real root w - p/(3w) - b/(3a), with w the cube root of `Larger`. */
  function OneRoot(k: Cardano, lib: Libm): seq<real>
    requires lib.Valid() && k.yy > 0.0
  {
    var w := SignedCbrt(Larger(k.halfq, lib.sqrt(k.yy)), lib);
    LargerCbrtNonZero(k.halfq, k.yy, lib);
    [w - k.p / (3.0 * w) - k.bover3a]
  }

  /** The polar angle and modulus of -halfq + i*sqrt(-yy), before the cube root is taken. */
  function PolarForm(k: Cardano, lib: Libm): (real, real)
  {
    var x := -k.halfq;
    var y := lib.sqrt(-k.yy);
    if Abs(x) > EPS then
      ((if x > 0.0 then lib.atan(y / x) else lib.atan(y / x) + PI), lib.sqrt(x * x - k.yy))
    else (PI / 2.0, y)
  }

  /** yy < 0: three real roots from the cube root of the complex number in polar form. */
  function ThreeRoots(k: Cardano, lib: Libm): seq<real>
  {
    var (theta0, r0) := PolarForm(k, lib);
    var theta := theta0 / 3.0;
    var r := lib.cbrt(r0);
    var ux := lib.cos(theta) * r;
    var uyi := lib.sin(theta) * r;
    [ux + ux - k.bover3a,
     2.0 * (ux * Cos120 - uyi * Sin120) - k.bover3a,
     2.0 * (ux * Cos120 + uyi * Sin120) - k.bover3a]
  }

  /** |yy| < 1e-15: a double and a single root from the cube root of -halfq. */
  function TwoRoots(k: Cardano, lib: Libm): seq<real>
  {
    var w := SignedCbrt(-k.halfq, lib);
    [w + w - k.bover3a, 2.0 * w * Cos120 - k.bover3a]
  }

  function CardanoRoots(poly: PolyCubic, lib: Libm): seq<real>
    requires lib.Valid() && !IsZero(poly.a)
  {
    var k := Depress(poly);
    if !IsZero(k.yy) && k.yy > 0.0 then OneRoot(k, lib)
    else if !IsZero(k.yy) && k.yy < 0.0 then ThreeRoots(k, lib)
    else TwoRoots(k, lib)
  }

  /** The roots the linear, quadratic or cubic branch appends. */
  function BranchRoots(poly: PolyCubic, lib: Libm): seq<real>
    requires lib.Valid()
  {
    if IsZero(poly.a) then
      if IsZero(poly.b) then LinearRoots(poly.c, poly.d) else QuadraticRoots(poly.b, poly.c, poly.d, lib)
    else CardanoRoots(poly, lib)
  }

  /** The list roots_cubic returns. */
  function CubicRoots(poly: PolyCubic, lib: Libm): seq<real>
    requires lib.Valid()
  {
    if IsZero(poly.d) then [0.0] + BranchRoots(Shifted(poly), lib) else BranchRoots(poly, lib)
  }

  /**
   * roots_cubic: the coefficient copies are reassigned on reduction, then the branch chosen by
   * a, b and yy appends its roots.
   */
  method RootsCubic(poly: PolyCubic, lib: Libm) returns (roots: seq<real>)
    requires lib.Valid()
    ensures roots == CubicRoots(poly, lib)
  {
    roots := [];
    var a, b, c, d := poly.a, poly.b, poly.c, poly.d;
    if IsZero(d) {
      roots := roots + [0.0];
      d := c;
      c := b;
      b := a;
      a := 0.0;
    }
    if IsZero(a) {
      if IsZero(b) {
        if !IsZero(c) {
          roots := roots + [-d / c];
        }
      } else {
        roots := roots + QuadraticRoots(b, c, d, lib);
      }
    } else {
      var k := Depress(PolyCubic(a, b, c, d));
      if !IsZero(k.yy) && k.yy > 0.0 {
        roots := roots + OneRoot(k, lib);
      } else if !IsZero(k.yy) && k.yy < 0.0 {
        roots := roots + ThreeRoots(k, lib);
      } else {
        roots := roots + TwoRoots(k, lib);
      }
    }
  }

  /** In the one-root branch the cube root is never zero, so p/(3w) is defined. */
  lemma LargerCbrtNonZero(halfq: real, yy: real, lib: Libm)
    requires lib.Valid() && yy > 0.0
    ensures SignedCbrt(Larger(halfq, lib.sqrt(yy)), lib) != 0.0
  {
    var y := lib.sqrt(yy);
    SqrtZero(lib, yy);
    var www := Larger(halfq, y);
    assert www != 0.0;
    CbrtPositive(lib, Abs(www));
  }

  // ---------------------------------------------------------------- properties

  /** roots_cubic never returns more than three roots. */
  lemma AtMostThreeRoots(poly: PolyCubic, lib: Libm)
    requires lib.Valid()
    ensures |CubicRoots(poly, lib)| <= 3
  {
    if IsZero(poly.d) {
      ShiftedHasNoCardano(poly, lib);
    } else {
      BranchCount(poly, lib);
    }
  }

  /** Every branch appends at most three roots. */
  lemma BranchCount(poly: PolyCubic, lib: Libm)
    requires lib.Valid()
    ensures |BranchRoots(poly, lib)| <= 3
    ensures IsZero(poly.a) ==> |BranchRoots(poly, lib)| <= 2
  {
    if !IsZero(poly.a) {
      CardanoCount(poly, lib);
    }
  }

  /** After the reduction a = 0, so only the linear or quadratic branch can run. */
  lemma ShiftedHasNoCardano(poly: PolyCubic, lib: Libm)
    requires lib.Valid()
    ensures |BranchRoots(Shifted(poly), lib)| <= 2
  {
    assert IsZero(Shifted(poly).a);
    BranchCount(Shifted(poly), lib);
  }

  /**
   * When |d| < 1e-15 the first root is 0 and the rest are the roots of the shifted
   * coefficients; for d = 0 exactly, the polynomial is x times the shifted one.
   */
  lemma Reduction(poly: PolyCubic, lib: Libm, x: real)
    requires lib.Valid() && IsZero(poly.d)
    ensures CubicRoots(poly, lib)[0] == 0.0
    ensures CubicRoots(poly, lib)[1..] == BranchRoots(Shifted(poly), lib)
    ensures Value(poly, x) == x * Value(Shifted(poly), x) + poly.d
  {
  }

  /** Linear branch: one root exactly when |c| >= 1e-15, and it solves c*x + d = 0. */
  lemma LinearRootsSolve(c: real, d: real)
    ensures |LinearRoots(c, d)| == (if IsZero(c) then 0 else 1)
    ensures forall x :: x in LinearRoots(c, d) ==> c * x + d == 0.0
  {
  }

  /**
   * Quadratic branch: no root for a negative discriminant c^2 - 4bd, else two roots that
   * both solve b*x^2 + c*x + d = 0.
   */
  lemma QuadraticRootsSolve(b: real, c: real, d: real, lib: Libm)
    requires lib.Valid() && !IsZero(b)
    ensures QuadraticRoots(b, c, d, lib) == [] <==> c * c - 4.0 * b * d < 0.0
    ensures c * c - 4.0 * b * d >= 0.0 ==> |QuadraticRoots(b, c, d, lib)| == 2
    ensures forall x :: x in QuadraticRoots(b, c, d, lib) ==> b * x * x + c * x + d == 0.0
  {
    var disc := c * c - 4.0 * b * d;
    if disc >= 0.0 {
      var y := lib.sqrt(disc);
      QuadraticRoot(b, c, d, y);
      QuadraticRoot(b, c, d, -y);
      assert (-c - y) * (1.0 / (2.0 * b)) == (-c + -y) * (1.0 / (2.0 * b));
    }
  }

  /** (-c + y) / (2b) solves b*x^2 + c*x + d = 0 when y^2 = c^2 - 4bd. */
  lemma QuadraticRoot(b: real, c: real, d: real, y: real)
    requires b != 0.0 && y * y == c * c - 4.0 * b * d
    ensures var x := (-c + y) * (1.0 / (2.0 * b)); b * x * x + c * x + d == 0.0
  {
    var x := (-c + y) * (1.0 / (2.0 * b));
    assert 2.0 * b * x == -c + y;
    assert 4.0 * b * (b * x * x + c * x + d) == (2.0 * b * x) * (2.0 * b * x) + 2.0 * c * (2.0 * b * x) + 4.0 * b * d;
    assert (-c + y) * (-c + y) + 2.0 * c * (-c + y) + 4.0 * b * d == y * y - c * c + 4.0 * b * d;
  }

  /** Cubic branch: one root for yy > 0, three for yy < 0, two for |yy| < 1e-15. */
  lemma CardanoCount(poly: PolyCubic, lib: Libm)
    requires lib.Valid() && !IsZero(poly.a)
    ensures var yy := Depress(poly).yy;
      |CardanoRoots(poly, lib)| == (if IsZero(yy) then 2 else if yy > 0.0 then 1 else 3)
  {
  }
}
