/**
 * The scalar constants and helpers of physics/src/globals.cpp (namespace Globals).
 */
module Globals {
  import opened LibM

  /** Distance tolerance of the collision engine (1e-10). */
  const EPS: real := 0.0000000001
  /** Bound on the correction rounds of one resolve_collision call. */
  const MAX_COLL_ITERS: nat := 10
  /** Default threshold of iszero (1e-15). */
  const ZERO_EPS: real := 0.000000000000001

  function Abs(x: real): real { if x < 0.0 then -x else x }

  /** iszero(x, eps): |x| < eps, with eps defaulting to 1e-15. */
  predicate IsZero(x: real, eps: real := ZERO_EPS) { Abs(x) < eps }

  function Lerp(x: real, y: real, t: real): real { x + (y - x) * t }

  /** Inverse of lerp; the source divides by y - x unguarded, so equal ends are excluded here. */
  function Ilerp(x: real, y: real, s: real): real
    requires x != y
  {
    (s - x) / (y - x)
  }

  /** Rounding toward zero, as std::fmod uses for the quotient. */
  function Trunc(z: real): int
  {
    if z >= 0.0 then z.Floor else -((-z).Floor)
  }

  /** std::fmod: x minus the truncated quotient times y; it has the sign of x. */
  function Fmod(x: real, y: real): real
    requires y != 0.0
  {
    x - y * (Trunc(x / y) as real)
  }

  /** fmod shifted by |y| for negative x. */
  function Pfmod(x: real, y: real): real
    requires y != 0.0
  {
    Fmod(x, y) + (if x < 0.0 then Abs(y) else 0.0)
  }

  /**
   * linspace(start, end, n): n values from start to end in equal steps; the loop fills all but
   * the last slot with start + delta * i and the last slot is then set to end itself.
   */
  method Linspace(start: real, end: real, n: nat) returns (ret: seq<real>)
    ensures |ret| == n
    ensures n == 1 ==> ret == [start]
    ensures n >= 2 ==> ret[0] == start && ret[n - 1] == end
    ensures n >= 2 ==> forall i :: 0 <= i < n - 1 ==>
      ret[i] == start + (end - start) / ((n - 1) as real) * (i as real)
  {
    if n == 0 {
      return [];
    }
    if n == 1 {
      return [start];
    }
    var a := new real[n];
    var delta := (end - start) / ((n - 1) as real);
    for i := 0 to n - 1
      invariant forall j :: 0 <= j < i ==> a[j] == start + delta * (j as real)
    {
      a[i] := start + delta * (i as real);
    }
    a[n - 1] := end;
    ret := a[..];
  }

  /** iszero with its default threshold is the open interval (-1e-15, 1e-15). */
  lemma IsZeroDefault(x: real)
    ensures IsZero(x) <==> -ZERO_EPS < x < ZERO_EPS
    ensures IsZero(x) <==> IsZero(-x)
  {
  }

  lemma LerpEnds(x: real, y: real)
    ensures Lerp(x, y, 0.0) == x && Lerp(x, y, 1.0) == y
  {
  }

  /** ilerp undoes lerp, and lerp undoes ilerp, whenever the two ends differ. */
  lemma IlerpLerp(x: real, y: real, t: real, s: real)
    requires x != y
    ensures Ilerp(x, y, Lerp(x, y, t)) == t
    ensures Lerp(x, y, Ilerp(x, y, s)) == s
  {
    assert Lerp(x, y, t) - x == (y - x) * t;
    assert (y - x) * ((s - x) / (y - x)) == s - x;
  }

  lemma FloorBounds(z: real)
    ensures z.Floor as real <= z < z.Floor as real + 1.0
  {
  }

  lemma ScaleLe(a: real, b: real, y: real)
    requires a <= b && y > 0.0
    ensures a * y <= b * y
  {
  }

  lemma ScaleLt(a: real, b: real, y: real)
    requires a < b && y > 0.0
    ensures a * y < b * y
  {
    assert b * y - a * y == (b - a) * y;
  }

  /** k <= x / y < k + 1 bounds x between k * y and k * y + y. */
  lemma QuotientBounds(x: real, y: real, k: real)
    requires y > 0.0 && k <= x / y < k + 1.0
    ensures k * y <= x < k * y + y
  {
    QuotientLower(x, y, k);
    QuotientUpper(x, y, k);
  }

  lemma QuotientLower(x: real, y: real, k: real)
    requires y > 0.0 && k <= x / y
    ensures k * y <= x
  {
    ScaleLe(k, x / y, y);
    assert (x / y) * y == x;
  }

  lemma QuotientUpper(x: real, y: real, k: real)
    requires y > 0.0 && x / y < k + 1.0
    ensures x < k * y + y
  {
    ScaleLt(x / y, k + 1.0, y);
    assert (x / y) * y == x;
  }

  /** For a positive period, fmod lies in [0, y) for x >= 0 and in (-y, 0] for x < 0. */
  lemma FmodRange(x: real, y: real)
    requires y > 0.0
    ensures x >= 0.0 ==> 0.0 <= Fmod(x, y) < y
    ensures x < 0.0 ==> -y < Fmod(x, y) <= 0.0
  {
    if x >= 0.0 {
      var k := (x / y).Floor as real;
      FloorBounds(x / y);
      QuotientBounds(x, y, k);
      assert Fmod(x, y) == x - y * k;
    } else {
      var k := (-x / y).Floor as real;
      FloorBounds(-x / y);
      QuotientBounds(-x, y, k);
      assert -(x / y) == -x / y;
      assert Fmod(x, y) == x + y * k;
    }
  }

  /**
   * For a positive period, pfmod lies in [0, y]; it reaches y only for negative exact
   * multiples of y, and is below y for every x >= 0.
   */
  lemma PfmodRange(x: real, y: real)
    requires y > 0.0
    ensures 0.0 <= Pfmod(x, y) <= y
    ensures x >= 0.0 ==> Pfmod(x, y) < y
    ensures x < 0.0 ==> Pfmod(x, y) > 0.0
  {
    FmodRange(x, y);
  }

  /** pfmod is the identity on [0, y). */
  lemma PfmodIdentity(x: real, y: real)
    requires 0.0 <= x < y
    ensures Pfmod(x, y) == x
  {
    var z := x / y;
    assert z * y == x;
    assert z < 1.0 by {
      if z >= 1.0 { ScaleLe(1.0, z, y); }
    }
    assert z.Floor == 0;
  }

  lemma MulDiv(a: real, y: real)
    requires y != 0.0
    ensures (a * y) / y == a
  {
  }

  /** pfmod(x, y) - x is an integer multiple of y. */
  lemma PfmodMultiple(x: real, y: real)
    requires y != 0.0
    ensures IsInteger((Pfmod(x, y) - x) / y)
  {
    var k := Trunc(x / y) as real;
    var shift := if x < 0.0 then Abs(y) else 0.0;
    assert Pfmod(x, y) - x == shift - y * k;
    var m := if x < 0.0 && y > 0.0 then 1.0 else if x < 0.0 then -1.0 else 0.0;
    assert shift == m * y;
    assert Pfmod(x, y) - x == (m - k) * y;
    MulDiv(m - k, y);
    assert (Pfmod(x, y) - x) / y == m - k;
    var j := if x < 0.0 && y > 0.0 then 1 else if x < 0.0 then -1 else 0;
    assert m - k == (j - Trunc(x / y)) as real;
  }

  /**
   * In exact arithmetic the loop formula already gives end at i = n - 1, so overwriting the
   * last slot with end changes nothing.
   */
  lemma LinspaceLastStep(start: real, end: real, n: nat)
    requires n >= 2
    ensures start + (end - start) / ((n - 1) as real) * ((n - 1) as real) == end
  {
  }
}
