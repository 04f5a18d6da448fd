/**
 * What World::resolve_collision of physics/include/world.hpp computes, as functions of the
 * ball and the curve list: the candidates of one scan, the distances, the tie group around
 * the nearest candidate, the chained corrections, and the bounded repetition of scans.
 * The class in world.dfy runs the same steps with loops and is proved against these.
 */
module Resolve {
  import opened LibM
  import opened Vectors
  import opened Globals
  import opened Doubles
  import opened Shapes
  import opened Lines
  import opened Curves
  import opened Collider
  import opened Dispatch
  import opened Balls

  // ---------------------------------------------------------------- one scan

  /** Segment traj(ball.pos_prev, ball.pos). */
  function Trajectory(b: Ball): Segment { Segment(b.posPrev, b.pos) }

  /** Segment dir(ball.pos, ball.pos + ball.vel). */
  function Direction(b: Ball): Segment { Segment(b.pos, Add(b.pos, b.vel)) }

  /** An element of `inters`: the curve parameter t2, the hit point and the curve. */
  datatype Inter = Inter(t: real, interpt: Vec2, curve: Curve)

  /** The distance of a hit point from the ball's previous position. */
  function DistFromPrev(b: Ball, pt: Vec2, lib: Libm): real
  {
    Length(Sub(pt, b.posPrev), lib)
  }

  /**
   * The tests of the inner loop as written: t1 is replaced by the trajectory parameter of
   * curve(t2), the pair must be on both curves, and the point must not be within EPS of the
   * previous position. A NaN t2 fails on_both. For a non-finite point the length is NaN or
   * infinite, so `length() < EPS` is false and the point passes that test.
   */
  predicate SurvivesAsWritten(b: Ball, curve: Curve, tp: ParamPair, lib: Libm)
  {
    tp.t2.Finite? &&
    OnBoth(ParamPair(SegmentInverse(Trajectory(b), Eval(curve, tp.t2.v, 0, lib)), tp.t2)) &&
    (Eval(curve, tp.t2.v, 0, lib).At? ==> DistFromPrev(b, Eval(curve, tp.t2.v, 0, lib).v, lib) >= EPS)
  }

  /** The same tests, with a non-finite curve point never a candidate. */
  predicate Survives(b: Ball, curve: Curve, tp: ParamPair, lib: Libm)
  {
    tp.t2.Finite? && Eval(curve, tp.t2.v, 0, lib).At? &&
    OnBoth(ParamPair(SegmentInverse(Trajectory(b), Eval(curve, tp.t2.v, 0, lib)), tp.t2)) &&
    DistFromPrev(b, Eval(curve, tp.t2.v, 0, lib).v, lib) >= EPS
  }

  /**
   * What a candidate is: its point is the curve at its parameter, both its trajectory and its
   * curve parameter are within [-EPS, 1 + EPS], and it is at least EPS from pos_prev.
   */
  predicate IsHit(b: Ball, x: Inter, lib: Libm)
  {
    Eval(x.curve, x.t, 0, lib) == At(x.interpt) &&
    InUnit(Finite(x.t)) && InUnit(SegmentInverse(Trajectory(b), At(x.interpt))) &&
    DistFromPrev(b, x.interpt, lib) >= EPS
  }

  /** The candidates pushed for the pairs of one curve, in order. */
  function CurveCandidates(b: Ball, curve: Curve, tps: seq<ParamPair>, lib: Libm): (r: seq<Inter>)
    ensures |r| <= |tps|
    ensures forall k :: 0 <= k < |r| ==> r[k].curve == curve && IsHit(b, r[k], lib)
  {
    if tps == [] then []
    else
      var rest := CurveCandidates(b, curve, tps[..|tps| - 1], lib);
      var tp := tps[|tps| - 1];
      if Survives(b, curve, tp, lib) then rest + [Inter(tp.t2.v, Eval(curve, tp.t2.v, 0, lib).v, curve)]
      else rest
  }

  /** Every pair that passes the tests yields its candidate: the curve point at t2. */
  lemma {:induction false} CurveCandidatesComplete(b: Ball, curve: Curve, tps: seq<ParamPair>, k: nat, lib: Libm)
    requires k < |tps| && Survives(b, curve, tps[k], lib)
    ensures Inter(tps[k].t2.v, Eval(curve, tps[k].t2.v, 0, lib).v, curve) in CurveCandidates(b, curve, tps, lib)
  {
    var init := tps[..|tps| - 1];
    if k < |tps| - 1 {
      assert init[k] == tps[k];
      CurveCandidatesComplete(b, curve, init, k, lib);
    }
  }

  /** One scan: the candidates of every curve, in curve-list order. */
  function ScanCandidates(b: Ball, curves: seq<Curve>, lib: Libm): (r: seq<Inter>)
    requires lib.Valid()
    ensures forall k :: 0 <= k < |r| ==> r[k].curve in curves
  {
    if curves == [] then []
    else
      var last := curves[|curves| - 1];
      assert last in curves;
      assert forall c :: c in curves[..|curves| - 1] ==> c in curves;
      ScanCandidates(b, curves[..|curves| - 1], lib) +
      CurveCandidates(b, last, Pairs(SegmentCurve(Direction(b)), last, lib), lib)
  }

  /** All the elements of a candidate list are hits. */
  predicate AllHits(b: Ball, xs: seq<Inter>, lib: Libm)
  {
    forall k :: 0 <= k < |xs| ==> IsHit(b, xs[k], lib)
  }

  lemma AllHitsAppend(b: Ball, xs: seq<Inter>, ys: seq<Inter>, lib: Libm)
    requires AllHits(b, xs, lib) && AllHits(b, ys, lib)
    ensures AllHits(b, xs + ys, lib)
  {
    forall k | 0 <= k < |xs + ys|
      ensures IsHit(b, (xs + ys)[k], lib)
    {
      if k < |xs| { assert (xs + ys)[k] == xs[k]; } else { assert (xs + ys)[k] == ys[k - |xs|]; }
    }
  }

  /** Every candidate of a scan is a hit. */
  lemma {:induction false} ScanCandidatesAreHits(b: Ball, curves: seq<Curve>, lib: Libm)
    requires lib.Valid()
    ensures AllHits(b, ScanCandidates(b, curves, lib), lib)
  {
    if curves != [] {
      var init, last := curves[..|curves| - 1], curves[|curves| - 1];
      assert forall c :: c in init ==> c in curves;
      assert last in curves;
      ScanCandidatesAreHits(b, init, lib);
      var back := CurveCandidates(b, last, Pairs(SegmentCurve(Direction(b)), last, lib), lib);
      assert AllHits(b, back, lib);
      AllHitsAppend(b, ScanCandidates(b, init, lib), back, lib);
    }
  }

  // ---------------------------------------------------------------- the tie group

  /** The vector dists: each candidate's distance from pos_prev. */
  function Dists(b: Ball, inters: seq<Inter>, lib: Libm): (d: seq<real>)
    ensures |d| == |inters|
  {
    seq(|inters|, i requires 0 <= i < |inters| => DistFromPrev(b, inters[i].interpt, lib))
  }

  /** *std::min_element: the least element, which is one of the elements. */
  function MinOf(s: seq<real>): (m: real)
    requires |s| > 0
    ensures m in s && forall x :: x in s ==> m <= x
  {
    if |s| == 1 then s[0]
    else
      var m := MinOf(s[..|s| - 1]);
      assert forall x :: x in s ==> x in s[..|s| - 1] || x == s[|s| - 1];
      if s[|s| - 1] < m then s[|s| - 1] else m
  }

  /** Normalised ortho and tangent of the hit curve at the hit parameter (n and m). */
  function Normal(x: Inter, lib: Libm): Vec2 { Normalized(CurveOrtho(x.curve, x.t, lib), lib) }

  function UnitTangent(x: Inter, lib: Libm): Vec2 { Normalized(Tangent(x.curve, x.t, lib), lib) }

  /**
   * The correction of one candidate: the ball is snapped back to the hit point, and both the
   * remaining displacement and the velocity have their normal component negated.
   */
  function Correct(b: Ball, x: Inter, lib: Libm): Ball
  {
    var diff := Sub(b.pos, x.interpt);
    Ball(
      Add(Sub(x.interpt, ScalarMul(Dot(Normal(x, lib), diff), Normal(x, lib))),
          ScalarMul(Dot(UnitTangent(x, lib), diff), UnitTangent(x, lib))),
      x.interpt,
      Add(ScalarMul(-Dot(Normal(x, lib), b.vel), Normal(x, lib)),
          ScalarMul(Dot(UnitTangent(x, lib), b.vel), UnitTangent(x, lib))))
  }

  /** In the tie group: within EPS of the least distance. */
  predicate InGroup(d: real, mindist: real) { !(Abs(d - mindist) > EPS) }

  /**
   * The corrections loop: candidates in order, those in the tie group corrected one after the
   * other, each reading the ball as the previous correction left it.
   */
  function ApplyGroup(b: Ball, inters: seq<Inter>, dists: seq<real>, mindist: real, lib: Libm): Ball
    requires |dists| == |inters|
  {
    if inters == [] then b
    else
      var n := |inters| - 1;
      var prev := ApplyGroup(b, inters[..n], dists[..n], mindist, lib);
      if InGroup(dists[n], mindist) then Correct(prev, inters[n], lib) else prev
  }

  /** One iteration with at least one candidate. */
  function Corrected(b: Ball, inters: seq<Inter>, lib: Libm): Ball
    requires |inters| > 0
  {
    ApplyGroup(b, inters, Dists(b, inters, lib), MinOf(Dists(b, inters, lib)), lib)
  }

  /**
   * The loop of resolve_collision over any scan and any correction step: at most `fuel`
   * iterations, each stopping at once if the scan finds no candidate and otherwise
   * applying the step to the ball and the candidates.
   */
  function Iterate(b: Ball, scan: Ball -> seq<Inter>, step: (Ball, seq<Inter>) -> Ball, fuel: nat): Ball
    decreases fuel
  {
    if fuel == 0 || scan(b) == [] then b else Iterate(step(b, scan(b)), scan, step, fuel - 1)
  }

  /** The scan of the world's curves, as a function of the ball. */
  function Scan(curves: seq<Curve>, lib: Libm): Ball -> seq<Inter>
    requires lib.Valid()
  {
    b => ScanCandidates(b, curves, lib)
  }

  /** The corrections of one iteration, as a function of the ball and the candidates. */
  function Step(lib: Libm): (Ball, seq<Inter>) -> Ball
  {
    (b, inters) => if inters == [] then b else Corrected(b, inters, lib)
  }

  /** The ball after at most `fuel` iterations against the world's curves. */
  function Resolved(b: Ball, curves: seq<Curve>, fuel: nat, lib: Libm): Ball
    requires lib.Valid()
  {
    Iterate(b, Scan(curves, lib), Step(lib), fuel)
  }

  /** resolve_collision: at most MAX_COLL_ITERS iterations. */
  function ResolveCollision(b: Ball, curves: seq<Curve>, lib: Libm): Ball
    requires lib.Valid()
  {
    Resolved(b, curves, MAX_COLL_ITERS, lib)
  }

  /** One iteration with candidates: the rest of the loop starts from the corrected ball. */
  lemma ResolvedStep(b: Ball, curves: seq<Curve>, fuel: nat, lib: Libm)
    requires lib.Valid() && fuel > 0
    ensures ScanCandidates(b, curves, lib) == [] ==> Resolved(b, curves, fuel, lib) == b
    ensures ScanCandidates(b, curves, lib) != [] ==>
      Resolved(b, curves, fuel, lib) == Resolved(Corrected(b, ScanCandidates(b, curves, lib), lib), curves, fuel - 1, lib)
  {
    assert Scan(curves, lib)(b) == ScanCandidates(b, curves, lib);
  }

  // ---------------------------------------------------------------- properties

  /** A ball with no candidate on the first scan keeps its state, whatever the fuel. */
  lemma NoCandidateKeepsBall(b: Ball, curves: seq<Curve>, fuel: nat, lib: Libm)
    requires lib.Valid() && ScanCandidates(b, curves, lib) == []
    ensures Resolved(b, curves, fuel, lib) == b
  {
  }

  /** normalize commutes with ortho, which keeps the length. */
  lemma NormalizedOrtho(v: Vec2, lib: Libm)
    ensures Normalized(Ortho(v), lib) == Ortho(Normalized(v, lib))
  {
    OrthoLaws(v, lib);
  }

  /** The dot product is linear in its first argument. */
  lemma DotCombination(a: real, n: Vec2, c: real, m: Vec2, u: Vec2)
    ensures Dot(Add(ScalarMul(a, n), ScalarMul(c, m)), u) == a * Dot(n, u) + c * Dot(m, u)
    ensures Dot(u, Add(ScalarMul(a, n), ScalarMul(c, m))) == a * Dot(u, n) + c * Dot(u, m)
  {
  }

  /** ortho of a unit vector is a unit vector orthogonal to it. */
  lemma OrthoOfUnit(m: Vec2)
    requires Dot(m, m) == 1.0
    ensures Dot(Ortho(m), Ortho(m)) == 1.0 && Dot(Ortho(m), m) == 0.0 && Dot(m, Ortho(m)) == 0.0
  {
  }

  /** The coordinates of a combination of two orthonormal vectors, and its squared length. */
  lemma OrthonormalCombination(a: real, n: Vec2, c: real, m: Vec2)
    requires Dot(n, n) == 1.0 && Dot(m, m) == 1.0 && Dot(n, m) == 0.0 && Dot(m, n) == 0.0
    ensures var w := Add(ScalarMul(a, n), ScalarMul(c, m));
      Dot(n, w) == a && Dot(m, w) == c && Dot(w, w) == a * a + c * c
  {
    var w := Add(ScalarMul(a, n), ScalarMul(c, m));
    DotCombination(a, n, c, m, n);
    DotCombination(a, n, c, m, m);
    DotCombination(a, n, c, m, w);
  }

  /** The components of v along a unit m and along ortho(m) make up its squared length. */
  lemma ComponentsOfUnit(v: Vec2, m: Vec2)
    requires Dot(m, m) == 1.0
    ensures Dot(Ortho(m), v) * Dot(Ortho(m), v) + Dot(m, v) * Dot(m, v) == Dot(v, v)
  {
    assert Dot(Ortho(m), v) == -Cross(m, v);
    DotCrossLaws(m, v);
  }

  /**
   * Negating the component along n = ortho(m) of a vector and keeping the one along a unit m
   * keeps the squared length.
   */
  lemma ReflectKeepsLength(v: Vec2, m: Vec2)
    requires Dot(m, m) == 1.0
    ensures var n := Ortho(m);
      var w := Add(ScalarMul(-Dot(n, v), n), ScalarMul(Dot(m, v), m));
      Dot(w, w) == Dot(v, v) && Dot(n, w) == -Dot(n, v) && Dot(m, w) == Dot(m, v)
  {
    OrthoOfUnit(m);
    OrthonormalCombination(-Dot(Ortho(m), v), Ortho(m), Dot(m, v), m);
    ComponentsOfUnit(v, m);
  }

  /** The displacement from the hit point after the correction is the reflected one. */
  lemma CorrectedOffset(b: Ball, x: Inter, lib: Libm)
    ensures var n, m, diff := Normal(x, lib), UnitTangent(x, lib), Sub(b.pos, x.interpt);
      Sub(Correct(b, x, lib).pos, x.interpt) == Add(ScalarMul(-Dot(n, diff), n), ScalarMul(Dot(m, diff), m))
  {
  }

  /**
   * A correction at a point where the curve has a non-zero tangent: pos_prev becomes the hit
   * point, the speed and the distance from the hit point are kept, and the velocity's normal
   * component is negated while its tangential component is kept.
   */
  lemma CorrectBounces(b: Ball, x: Inter, lib: Libm)
    requires lib.Valid() && Length(Tangent(x.curve, x.t, lib), lib) != 0.0
    ensures var nb := Correct(b, x, lib);
      nb.posPrev == x.interpt &&
      Dot(nb.vel, nb.vel) == Dot(b.vel, b.vel) &&
      Dot(Sub(nb.pos, x.interpt), Sub(nb.pos, x.interpt)) == Dot(Sub(b.pos, x.interpt), Sub(b.pos, x.interpt)) &&
      Dot(Normal(x, lib), nb.vel) == -Dot(Normal(x, lib), b.vel) &&
      Dot(UnitTangent(x, lib), nb.vel) == Dot(UnitTangent(x, lib), b.vel)
  {
    var tg := Tangent(x.curve, x.t, lib);
    OrthoOfTangent(x.curve, x.t, lib);
    NormalizedOrtho(tg, lib);
    NormalizeUnit(tg, lib);
    assert Normal(x, lib) == Ortho(UnitTangent(x, lib));
    ReflectKeepsLength(b.vel, UnitTangent(x, lib));
    ReflectKeepsLength(Sub(b.pos, x.interpt), UnitTangent(x, lib));
    CorrectedOffset(b, x, lib);
  }

  /** Every curve of the list has a non-zero tangent everywhere (no cusp, no degenerate segment). */
  ghost predicate Smooth(curves: seq<Curve>, lib: Libm)
  {
    forall c, t :: c in curves ==> Length(Tangent(c, t, lib), lib) != 0.0
  }

  /** The squared speed of a ball. */
  function SpeedSquared(b: Ball): real { Dot(b.vel, b.vel) }

  /** A chain of corrections on smooth curves keeps the speed. */
  lemma {:induction false} GroupKeepsSpeed(b: Ball, curves: seq<Curve>, inters: seq<Inter>, dists: seq<real>, mindist: real, lib: Libm)
    requires lib.Valid() && Smooth(curves, lib) && |dists| == |inters|
    requires forall k :: 0 <= k < |inters| ==> inters[k].curve in curves
    ensures SpeedSquared(ApplyGroup(b, inters, dists, mindist, lib)) == SpeedSquared(b)
  {
    if inters != [] {
      var n := |inters| - 1;
      GroupKeepsSpeed(b, curves, inters[..n], dists[..n], mindist, lib);
      var prev := ApplyGroup(b, inters[..n], dists[..n], mindist, lib);
      if InGroup(dists[n], mindist) {
        CorrectBounces(prev, inters[n], lib);
      }
    }
  }

  /** One iteration's corrections on smooth curves keep the speed. */
  lemma CorrectedKeepsSpeed(b: Ball, curves: seq<Curve>, inters: seq<Inter>, lib: Libm)
    requires lib.Valid() && Smooth(curves, lib) && |inters| > 0
    requires forall k :: 0 <= k < |inters| ==> inters[k].curve in curves
    ensures SpeedSquared(Corrected(b, inters, lib)) == SpeedSquared(b)
  {
    GroupKeepsSpeed(b, curves, inters, Dists(b, inters, lib), MinOf(Dists(b, inters, lib)), lib);
  }

  /** A property of balls that every step keeps holds after the whole loop. */
  lemma {:induction false} IterateKeeps(b: Ball, scan: Ball -> seq<Inter>, step: (Ball, seq<Inter>) -> Ball, fuel: nat, inv: Ball -> bool)
    requires forall x :: inv(x) && scan(x) != [] ==> inv(step(x, scan(x)))
    requires inv(b)
    ensures inv(Iterate(b, scan, step, fuel))
    decreases fuel
  {
    if fuel > 0 && scan(b) != [] {
      IterateKeeps(step(b, scan(b)), scan, step, fuel - 1, inv);
    }
  }

  /** resolve_collision on smooth curves keeps the ball's speed. */
  lemma ResolvedKeepsSpeed(b: Ball, curves: seq<Curve>, fuel: nat, lib: Libm)
    requires lib.Valid() && Smooth(curves, lib)
    ensures SpeedSquared(Resolved(b, curves, fuel, lib)) == SpeedSquared(b)
  {
    var scan, step := Scan(curves, lib), Step(lib);
    forall x | scan(x) != []
      ensures SpeedSquared(step(x, scan(x))) == SpeedSquared(x)
    {
      CorrectedKeepsSpeed(x, curves, scan(x), lib);
    }
    IterateKeeps(b, scan, step, fuel, x => SpeedSquared(x) == SpeedSquared(b));
  }

  /**
   * After a group whose least distance is among the distances, the ball's previous position
   * is the hit point of the last candidate of the tie group.
   */
  lemma {:induction false} GroupEndsOnHit(b: Ball, inters: seq<Inter>, dists: seq<real>, mindist: real, lib: Libm)
    requires |dists| == |inters| && mindist in dists
    ensures exists k :: (0 <= k < |inters| && InGroup(dists[k], mindist) &&
      ApplyGroup(b, inters, dists, mindist, lib).posPrev == inters[k].interpt)
  {
    var n := |inters| - 1;
    var nb := ApplyGroup(b, inters, dists, mindist, lib);
    if InGroup(dists[n], mindist) {
      assert nb.posPrev == inters[n].interpt;
    } else {
      assert dists[n] != mindist;
      assert mindist in dists[..n] by {
        var j :| 0 <= j < |dists| && dists[j] == mindist;
        assert j < n && dists[..n][j] == mindist;
      }
      GroupEndsOnHit(b, inters[..n], dists[..n], mindist, lib);
      var k :| 0 <= k < n && InGroup(dists[..n][k], mindist) &&
        ApplyGroup(b, inters[..n], dists[..n], mindist, lib).posPrev == inters[..n][k].interpt;
      assert InGroup(dists[k], mindist) && nb.posPrev == inters[k].interpt;
    }
  }

  /** An iteration with candidates leaves pos_prev at a hit point of the nearest group. */
  lemma CorrectedEndsOnHit(b: Ball, inters: seq<Inter>, lib: Libm)
    requires |inters| > 0
    ensures var d := Dists(b, inters, lib);
      exists k :: (0 <= k < |inters| && InGroup(d[k], MinOf(d)) && Corrected(b, inters, lib).posPrev == inters[k].interpt)
  {
    var d := Dists(b, inters, lib);
    GroupEndsOnHit(b, inters, d, MinOf(d), lib);
  }

  // ---------------------------------------------------------------- non-finite points

  /**
   * A ball at rest and any line: the direction segment is a point, so point_line_line gives
   * the (INFINITY, INFINITY) sentinel, the line parameter is 0 or 1, and the line evaluated
   * there is not finite. The trajectory is a point too, whose inverse is 0, so as written the
   * pair passes every test and the non-finite point becomes a candidate.
   */
  lemma RestingBallAsWritten(b: Ball, l: Line, lib: Libm)
    requires lib.Valid() && Parametrizable(l) && b.vel == Zero && b.posPrev == b.pos
    ensures var tps := Pairs(SegmentCurve(Direction(b)), LineCurve(l), lib);
      |tps| == 1 && tps[0].t2.Finite? && !Eval(LineCurve(l), tps[0].t2.v, 0, lib).At? &&
      SurvivesAsWritten(b, LineCurve(l), tps[0], lib)
  {
    var dir := Direction(b);
    assert dir.p2 == dir.p1;
    assert Through(dir) == Line(0.0, 0.0, Through(dir).r);
    assert Det(l, Through(dir)) == 0.0;
    var tps := Pairs(SegmentCurve(dir), LineCurve(l), lib);
    assert tps == SwapAll(LineSegment(l, dir, lib));
    assert Degenerate(Trajectory(b));
  }

  /** With the finiteness test, the same pair is not a candidate. */
  lemma RestingBallIgnored(b: Ball, l: Line, lib: Libm)
    requires lib.Valid() && Parametrizable(l) && b.vel == Zero && b.posPrev == b.pos
    ensures var tps := Pairs(SegmentCurve(Direction(b)), LineCurve(l), lib);
      |tps| == 1 && !Survives(b, LineCurve(l), tps[0], lib)
  {
    RestingBallAsWritten(b, l, lib);
  }

  /** The corrected test is the one written, restricted to finite points. */
  lemma SurvivesIsFiniteAsWritten(b: Ball, curve: Curve, tp: ParamPair, lib: Libm)
    ensures Survives(b, curve, tp, lib) <==>
      SurvivesAsWritten(b, curve, tp, lib) && Eval(curve, tp.t2.v, 0, lib).At?
  {
  }
}
