/**
 * The World class of physics/include/world.hpp: the balls and the curves, and the steps that
 * move the balls and resolve their collisions, each proved against the functions of resolve.dfy.
 */
module Worlds {
  import opened LibM
  import opened Vectors
  import opened Globals
  import opened Doubles
  import opened Shapes
  import opened Curves
  import opened Collider
  import opened Dispatch
  import opened Balls
  import opened Resolve

  /** integrate for one ball: pos_prev takes pos, and pos moves by vel * dt. */
  function Integrated(b: Ball, dt: real): (nb: Ball)
    ensures nb.posPrev == b.pos && nb.vel == b.vel
    ensures Sub(nb.pos, nb.posPrev) == Scale(b.vel, dt)
  {
    Ball(Add(b.pos, Scale(b.vel, dt)), b.pos, b.vel)
  }

  /** After integrate, the trajectory runs from the old position along vel * dt. */
  lemma IntegratedTrajectory(b: Ball, dt: real)
    ensures Trajectory(Integrated(b, dt)) == Segment(b.pos, Add(b.pos, Scale(b.vel, dt)))
    ensures dt == 1.0 ==> Trajectory(Integrated(b, dt)) == Direction(b)
  {
  }

  /** Two integrations in a row: pos_prev is the position after the first one. */
  lemma IntegrateTwice(b: Ball, dt1: real, dt2: real)
    ensures Integrated(Integrated(b, dt1), dt2).posPrev == Add(b.pos, Scale(b.vel, dt1))
    ensures Integrated(Integrated(b, dt1), dt2).pos == Add(Add(b.pos, Scale(b.vel, dt1)), Scale(b.vel, dt2))
  {
  }

  /** The balls after integrate. */
  function IntegrateAll(balls: seq<Ball>, dt: real): (r: seq<Ball>)
    ensures |r| == |balls| && forall i :: 0 <= i < |balls| ==> r[i] == Integrated(balls[i], dt)
  {
    seq(|balls|, i requires 0 <= i < |balls| => Integrated(balls[i], dt))
  }

  /** The balls after resolve_collisions. */
  function ResolveAll(balls: seq<Ball>, curves: seq<Curve>, lib: Libm): (r: seq<Ball>)
    requires lib.Valid()
    ensures |r| == |balls| && forall i :: 0 <= i < |balls| ==> r[i] == ResolveCollision(balls[i], curves, lib)
  {
    seq(|balls|, i requires 0 <= i < |balls| => ResolveCollision(balls[i], curves, lib))
  }

  /** The scan of the curves, one curve more. */
  lemma ScanCandidatesSnoc(b: Ball, curves: seq<Curve>, j: nat, lib: Libm)
    requires lib.Valid() && j < |curves|
    ensures ScanCandidates(b, curves[..j + 1], lib) ==
      ScanCandidates(b, curves[..j], lib) + CurveCandidates(b, curves[j], Pairs(SegmentCurve(Direction(b)), curves[j], lib), lib)
  {
    assert curves[..j + 1][..j] == curves[..j];
  }

  /** The candidates of one curve, one pair more. */
  lemma CurveCandidatesSnoc(b: Ball, curve: Curve, tps: seq<ParamPair>, k: nat, lib: Libm)
    requires k < |tps|
    ensures CurveCandidates(b, curve, tps[..k + 1], lib) ==
      if Survives(b, curve, tps[k], lib)
      then CurveCandidates(b, curve, tps[..k], lib) + [Inter(tps[k].t2.v, Eval(curve, tps[k].t2.v, 0, lib).v, curve)]
      else CurveCandidates(b, curve, tps[..k], lib)
  {
    assert tps[..k + 1][..k] == tps[..k];
  }

  class World {
    /** ball_ptrs and curve_ptrs, as the values the pointers designate. */
    var balls: seq<Ball>
    var curves: seq<Curve>

    /** World() = default: no balls and no curves. */
    constructor ()
      ensures balls == [] && curves == []
    {
      balls := [];
      curves := [];
    }

    /** add_ball: the ball goes at the end of the list. */
    method AddBall(b: Ball)
      modifies this
      ensures balls == old(balls) + [b] && curves == old(curves)
    {
      balls := balls + [b];
    }

    /** add_curve: the curve goes at the end of the list. */
    method AddCurve(c: Curve)
      modifies this
      ensures curves == old(curves) + [c] && balls == old(balls)
    {
      curves := curves + [c];
    }

    /** integrate(dt): every ball moves along its velocity; the curves stay. */
    method Integrate(dt: real)
      modifies this
      ensures balls == IntegrateAll(old(balls), dt) && curves == old(curves)
    {
      var i := 0;
      while i < |balls|
        invariant 0 <= i <= |balls| && |balls| == |old(balls)| && curves == old(curves)
        invariant forall k :: 0 <= k < i ==> balls[k] == Integrated(old(balls)[k], dt)
        invariant forall k :: i <= k < |balls| ==> balls[k] == old(balls)[k]
      {
        balls := balls[i := Integrated(balls[i], dt)];
        i := i + 1;
      }
    }

    /** The loop over the curves: the candidates of one scan. */
    method ScanCurves(ball: Ball, lib: Libm) returns (inters: seq<Inter>)
      requires lib.Valid()
      ensures inters == ScanCandidates(ball, curves, lib)
    {
      inters := [];
      for j := 0 to |curves|
        invariant inters == ScanCandidates(ball, curves[..j], lib)
      {
        ScanCandidatesSnoc(ball, curves, j, lib);
        var tpairs := Collide(SegmentCurve(Direction(ball)), curves[j], lib);
        var found := CurveHits(ball, curves[j], tpairs, lib);
        inters := inters + found;
      }
      assert curves[..|curves|] == curves;
    }

    /** The loop over one curve's pairs: t1 replaced, the tests applied, the survivors pushed. */
    static method CurveHits(ball: Ball, curve: Curve, tpairs: seq<ParamPair>, lib: Libm) returns (found: seq<Inter>)
        ensures found == CurveCandidates(ball, curve, tpairs, lib)
    {
      var traj := Trajectory(ball);
      found := [];
      for k := 0 to |tpairs|
        invariant found == CurveCandidates(ball, curve, tpairs[..k], lib)
      {
        CurveCandidatesSnoc(ball, curve, tpairs, k, lib);
        var tp := tpairs[k];
        if tp.t2.Finite? {
          var interpt := Eval(curve, tp.t2.v, 0, lib);
          var t1 := SegmentInverse(traj, interpt);
          if interpt.At? && OnBoth(ParamPair(t1, tp.t2)) && !(DistFromPrev(ball, interpt.v, lib) < EPS) {
            found := found + [Inter(tp.t2.v, interpt.v, curve)];
          }
        }
      }
      assert tpairs[..|tpairs|] == tpairs;
    }

    /** The vector dists. */
    static method ComputeDists(ball: Ball, inters: seq<Inter>, lib: Libm) returns (dists: seq<real>)
      ensures dists == Dists(ball, inters, lib)
    {
      var a := new real[|inters|];
      for i := 0 to |inters|
        invariant forall k :: 0 <= k < i ==> a[k] == DistFromPrev(ball, inters[k].interpt, lib)
      {
        a[i] := DistFromPrev(ball, inters[i].interpt, lib);
      }
      dists := a[..];
    }

    /** The corrections loop: every candidate of the tie group, in order. */
    static method ApplyCorrections(ball: Ball, inters: seq<Inter>, dists: seq<real>, mindist: real, lib: Libm)
      returns (nb: Ball)
      requires |dists| == |inters|
      ensures nb == ApplyGroup(ball, inters, dists, mindist, lib)
    {
      nb := ball;
      for i := 0 to |inters|
        invariant nb == ApplyGroup(ball, inters[..i], dists[..i], mindist, lib)
      {
        assert inters[..i + 1][..i] == inters[..i] && dists[..i + 1][..i] == dists[..i];
        if !(Abs(dists[i] - mindist) > EPS) {
          nb := Correct(nb, inters[i], lib);
        }
      }
      assert inters[..|inters|] == inters && dists[..|dists|] == dists;
    }

    /**
     * The second half of one iteration: the distances, their minimum, and the corrections of
     * the tie group, which together give the corrected ball.
     */
    static method CorrectBall(ball: Ball, inters: seq<Inter>, lib: Libm) returns (nb: Ball)
      requires |inters| > 0
      ensures nb == Corrected(ball, inters, lib)
    {
      var dists := ComputeDists(ball, inters, lib);
      var mindist := MinOf(dists);
      nb := ApplyCorrections(ball, inters, dists, mindist, lib);
    }

    /** resolve_collision on one ball: at most MAX_COLL_ITERS scans and corrections. */
    method ResolveBall(ball: Ball, lib: Libm) returns (nb: Ball)
      requires lib.Valid()
      ensures nb == ResolveCollision(ball, curves, lib)
    {
      nb := ball;
      var iterNum: nat := 0;
      while iterNum < MAX_COLL_ITERS
        invariant iterNum <= MAX_COLL_ITERS
        invariant Resolved(nb, curves, MAX_COLL_ITERS - iterNum, lib) == ResolveCollision(ball, curves, lib)
      {
        ResolvedStep(nb, curves, MAX_COLL_ITERS - iterNum, lib);
        var inters := ScanCurves(nb, lib);
        if |inters| == 0 {
          break;
        }
        nb := CorrectBall(nb, inters, lib);
        iterNum := iterNum + 1;
      }
    }

    /** resolve_collisions: every ball in turn. */
    method ResolveCollisions(lib: Libm)
      requires lib.Valid()
      modifies this
      ensures curves == old(curves) && balls == ResolveAll(old(balls), curves, lib)
    {
      var i := 0;
      while i < |balls|
        invariant 0 <= i <= |balls| && |balls| == |old(balls)| && curves == old(curves)
        invariant forall k :: 0 <= k < i ==> balls[k] == ResolveCollision(old(balls)[k], curves, lib)
        invariant forall k :: i <= k < |balls| ==> balls[k] == old(balls)[k]
      {
        var nb := ResolveBall(balls[i], lib);
        balls := balls[i := nb];
        i := i + 1;
      }
    }

    /** step(dt): integrate, then resolve the collisions. */
    method Step(dt: real, lib: Libm)
      requires lib.Valid()
      modifies this
      ensures curves == old(curves) && balls == ResolveAll(IntegrateAll(old(balls), dt), curves, lib)
    {
      Integrate(dt);
      ResolveCollisions(lib);
    }
  }

  /** A world whose curves are all smooth keeps the speed of every ball through a step. */
  lemma StepKeepsSpeed(balls: seq<Ball>, curves: seq<Curve>, dt: real, lib: Libm)
    requires lib.Valid() && Smooth(curves, lib)
    ensures var r := ResolveAll(IntegrateAll(balls, dt), curves, lib);
      |r| == |balls| && forall i :: 0 <= i < |balls| ==> SpeedSquared(r[i]) == SpeedSquared(balls[i])
  {
    var r := ResolveAll(IntegrateAll(balls, dt), curves, lib);
    forall i | 0 <= i < |balls|
      ensures SpeedSquared(r[i]) == SpeedSquared(balls[i])
    {
      ResolvedKeepsSpeed(Integrated(balls[i], dt), curves, MAX_COLL_ITERS, lib);
    }
  }
}
