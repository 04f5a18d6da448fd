/**
 * The World of the segment-only engine (chaotic_pool/physics/src/world.hpp): its candidate test
 * is the pair of box tests; the correction step is shared with the later engine.
 */
module Pool {
  import opened LibM
  import opened Vectors
  import opened Globals
  import opened Doubles
  import opened Shapes
  import opened Lines
  import opened Curves
  import opened Balls
  import opened Resolve
  import opened Worlds
  import opened PoolSegments

  // ---------------------------------------------------------------- the world

  /**
   * The candidate for one segment: the point where the ball's direction line meets the
   * segment's line, kept if it is in both boxes and at least EPS from pos_prev. The correction
   * only needs the segment, so the candidate carries the segment as a curve and parameter 0.
   */
  function SegmentCandidate(b: Ball, seg: Segment, lib: Libm): seq<Inter>
  {
    var pt := Solve(Through(Direction(b)), Through(seg));
    if pt.At? && InBounds(Trajectory(b), pt.v) && InBounds(seg, pt.v) && !(DistFromPrev(b, pt.v, lib) < EPS)
    then [Inter(0.0, pt.v, SegmentCurve(seg))]
    else []
  }

  /** The point where the ball's direction line meets the segment's line. */
  function DirectionCrossing(b: Ball, seg: Segment): Point
  {
    Solve(Through(Direction(b)), Through(seg))
  }

  /** The tests of the inner loop: a finite crossing in both boxes, at least EPS from pos_prev. */
  predicate PassesBoxTests(b: Ball, seg: Segment, lib: Libm)
  {
    var pt := DirectionCrossing(b, seg);
    pt.At? && InBounds(Trajectory(b), pt.v) && InBounds(seg, pt.v) && !(DistFromPrev(b, pt.v, lib) < EPS)
  }

  /** The candidates of one scan, in segment-list order. */
  function PoolCandidates(b: Ball, segs: seq<Segment>, lib: Libm): (r: seq<Inter>)
    ensures |r| <= |segs|
    ensures forall k :: 0 <= k < |r| ==> (r[k].curve.SegmentCurve? && r[k].curve.seg in segs &&
      InBounds(Trajectory(b), r[k].interpt) && InBounds(r[k].curve.seg, r[k].interpt) &&
      OnLine(Through(r[k].curve.seg), r[k].interpt) && DistFromPrev(b, r[k].interpt, lib) >= EPS)
  {
    if segs == [] then []
    else
      var init := segs[..|segs| - 1];
      assert forall s :: s in init ==> s in segs;
      PoolCandidates(b, init, lib) + SegmentCandidate(b, segs[|segs| - 1], lib)
  }

  /** Every segment whose crossing passes the tests yields that crossing as a candidate. */
  lemma {:induction false} PoolCandidatesComplete(b: Ball, segs: seq<Segment>, k: nat, lib: Libm)
    requires k < |segs| && PassesBoxTests(b, segs[k], lib)
    ensures Inter(0.0, DirectionCrossing(b, segs[k]).v, SegmentCurve(segs[k])) in PoolCandidates(b, segs, lib)
  {
    var init := segs[..|segs| - 1];
    if k < |segs| - 1 {
      assert init[k] == segs[k];
      PoolCandidatesComplete(b, init, k, lib);
    }
  }

  /** The older scan as a function of the ball. */
  function PoolScan(segs: seq<Segment>, lib: Libm): Ball -> seq<Inter>
  {
    b => PoolCandidates(b, segs, lib)
  }

  /** The loop of the older resolve_collision with `fuel` iterations left. */
  function PoolResolved(b: Ball, segs: seq<Segment>, fuel: nat, lib: Libm): Ball
  {
    Iterate(b, PoolScan(segs, lib), Step(lib), fuel)
  }

  /** resolve_collision of the older World: the same loop and corrections, the box-test scan. */
  function PoolResolveCollision(b: Ball, segs: seq<Segment>, lib: Libm): Ball
  {
    PoolResolved(b, segs, MAX_COLL_ITERS, lib)
  }

  /** One iteration of the older loop: an empty scan ends it, otherwise the ball is corrected. */
  lemma PoolResolvedStep(b: Ball, segs: seq<Segment>, fuel: nat, lib: Libm)
    requires fuel > 0
    ensures PoolCandidates(b, segs, lib) == [] ==> PoolResolved(b, segs, fuel, lib) == b
    ensures PoolCandidates(b, segs, lib) != [] ==>
      PoolResolved(b, segs, fuel, lib) == PoolResolved(Corrected(b, PoolCandidates(b, segs, lib), lib), segs, fuel - 1, lib)
  {
    assert PoolScan(segs, lib)(b) == PoolCandidates(b, segs, lib);
  }

  /** The balls after the older resolve_collisions. */
  function PoolResolveAll(balls: seq<Ball>, segs: seq<Segment>, lib: Libm): (r: seq<Ball>)
    ensures |r| == |balls| && forall i :: 0 <= i < |balls| ==> r[i] == PoolResolveCollision(balls[i], segs, lib)
  {
    seq(|balls|, i requires 0 <= i < |balls| => PoolResolveCollision(balls[i], segs, lib))
  }

  /** The curves the correction step sees: each segment as a Segment curve. */
  function AsCurves(segs: seq<Segment>): (cs: seq<Curve>)
    ensures |cs| == |segs| && forall i :: 0 <= i < |segs| ==> cs[i] == SegmentCurve(segs[i])
  {
    seq(|segs|, i requires 0 <= i < |segs| => SegmentCurve(segs[i]))
  }

  /** A segment with distinct ends has a non-zero tangent; a list of them is smooth. */
  lemma DistinctEndsSmooth(segs: seq<Segment>, lib: Libm)
    requires lib.Valid() && forall s :: s in segs ==> s.p1 != s.p2
    ensures Smooth(AsCurves(segs), lib)
  {
    forall c, t | c in AsCurves(segs)
      ensures Length(Tangent(c, t, lib), lib) != 0.0
    {
      var i :| 0 <= i < |segs| && AsCurves(segs)[i] == c;
      var tg := SegmentTangent(segs[i]);
      assert segs[i] in segs;
      DotSelfPositive(tg);
      SqrtZero(lib, Dot(tg, tg));
    }
  }

  /** A vector with a non-zero component has a positive dot product with itself. */
  lemma DotSelfPositive(v: Vec2)
    requires v.x != 0.0 || v.y != 0.0
    ensures Dot(v, v) > 0.0
  {
    SquareNonNegative(v.x);
    SquareNonNegative(v.y);
    if v.x != 0.0 {
      ProductZero(v.x, v.x);
    } else {
      ProductZero(v.y, v.y);
    }
  }

  /** On segments with distinct ends, the older resolve_collision keeps the speed. */
  lemma PoolResolveKeepsSpeed(b: Ball, segs: seq<Segment>, lib: Libm)
    requires lib.Valid() && forall s :: s in segs ==> s.p1 != s.p2
    ensures SpeedSquared(PoolResolveCollision(b, segs, lib)) == SpeedSquared(b)
  {
    var scan, step := PoolScan(segs, lib), Step(lib);
    DistinctEndsSmooth(segs, lib);
    forall x | scan(x) != []
      ensures SpeedSquared(step(x, scan(x))) == SpeedSquared(x)
    {
      var y := scan(x);
      forall k | 0 <= k < |y|
        ensures y[k].curve in AsCurves(segs)
      {
        var i :| 0 <= i < |segs| && segs[i] == y[k].curve.seg;
        assert AsCurves(segs)[i] == y[k].curve;
      }
      CorrectedKeepsSpeed(x, AsCurves(segs), y, lib);
    }
    IterateKeeps(b, scan, step, MAX_COLL_ITERS, x => SpeedSquared(x) == SpeedSquared(b));
  }

  /** A ball at rest meets no segment: its direction line is degenerate, so the lines never meet. */
  lemma RestingBallNoCandidate(b: Ball, segs: seq<Segment>, lib: Libm)
    requires b.vel == Zero
    ensures PoolCandidates(b, segs, lib) == []
  {
    if segs != [] {
      RestingBallNoCandidate(b, segs[..|segs| - 1], lib);
      var dir := Direction(b);
      assert dir.p1 == dir.p2;
      assert Through(dir) == Line(0.0, 0.0, Through(dir).r);
    }
  }

  /** The older World: balls and segments. */
  class PoolWorld {
    var balls: seq<Ball>
    var segments: seq<Segment>

    constructor ()
      ensures balls == [] && segments == []
    {
      balls := [];
      segments := [];
    }

    /** add_ball: appended at the end. */
    method AddBall(b: Ball)
      modifies this
      ensures balls == old(balls) + [b] && segments == old(segments)
    {
      balls := balls + [b];
    }

    /** add_segment: appended at the end. */
    method AddSegment(s: Segment)
      modifies this
      ensures segments == old(segments) + [s] && balls == old(balls)
    {
      segments := segments + [s];
    }

    /** integrate(dt): pos_prev takes pos and pos moves by vel * dt, for every ball. */
    method Integrate(dt: real)
      modifies this
      ensures balls == IntegrateAll(old(balls), dt) && segments == old(segments)
    {
      var i := 0;
      while i < |balls|
        invariant 0 <= i <= |balls| && |balls| == |old(balls)| && segments == old(segments)
        invariant forall k :: 0 <= k < i ==> balls[k] == Integrated(old(balls)[k], dt)
        invariant forall k :: i <= k < |balls| ==> balls[k] == old(balls)[k]
      {
        balls := balls[i := Integrated(balls[i], dt)];
        i := i + 1;
      }
    }

    /** The loop over the segments of one scan. */
    method Scan(ball: Ball, lib: Libm) returns (inters: seq<Inter>)
      ensures inters == PoolCandidates(ball, segments, lib)
    {
      var traj := Trajectory(ball);
      inters := [];
      for j := 0 to |segments|
        invariant inters == PoolCandidates(ball, segments[..j], lib)
      {
        assert segments[..j + 1][..j] == segments[..j];
        var seg := segments[j];
        var interpt := Solve(Through(Direction(ball)), Through(seg));
        if interpt.At? && InBounds(traj, interpt.v) && InBounds(seg, interpt.v) && !(DistFromPrev(ball, interpt.v, lib) < EPS) {
          inters := inters + [Inter(0.0, interpt.v, SegmentCurve(seg))];
        }
      }
      assert segments[..|segments|] == segments;
    }

    /**
     * One iteration of the while loop: the scan, and the corrections when it found a
     * candidate. `done` is the break on an empty scan; otherwise the rest of the loop runs
     * from the corrected ball.
     */
    method Round(ball: Ball, ghost fuel: nat, lib: Libm) returns (done: bool, nb: Ball)
      requires fuel > 0
      ensures done <==> PoolCandidates(ball, segments, lib) == []
      ensures done ==> PoolResolved(ball, segments, fuel, lib) == ball
      ensures !done ==> PoolResolved(ball, segments, fuel, lib) == PoolResolved(nb, segments, fuel - 1, lib)
    {
      PoolResolvedStep(ball, segments, fuel, lib);
      var inters := Scan(ball, lib);
      done := |inters| == 0;
      nb := ball;
      if !done {
        nb := World.CorrectBall(ball, inters, lib);
      }
    }

    /** resolve_collision on one ball: at most MAX_COLL_ITERS rounds. */
    method ResolveBall(ball: Ball, lib: Libm) returns (nb: Ball)
      ensures nb == PoolResolveCollision(ball, segments, lib)
    {
      nb := ball;
      var iterNum: nat := 0;
      while iterNum < MAX_COLL_ITERS
        invariant iterNum <= MAX_COLL_ITERS
        invariant PoolResolved(nb, segments, MAX_COLL_ITERS - iterNum, lib) == PoolResolveCollision(ball, segments, lib)
      {
        var done, next := Round(nb, MAX_COLL_ITERS - iterNum, lib);
        if done {
          break;
        }
        nb := next;
        iterNum := iterNum + 1;
      }
    }

    /** resolve_collisions: every ball in list order; the segments stay. */
    method ResolveCollisions(lib: Libm)
      modifies this
      ensures segments == old(segments) && balls == PoolResolveAll(old(balls), segments, lib)
    {
      var i := 0;
      while i < |balls|
        invariant 0 <= i <= |balls| && |balls| == |old(balls)| && segments == old(segments)
        invariant forall k :: 0 <= k < i ==> balls[k] == PoolResolveCollision(old(balls)[k], segments, lib)
        invariant forall k :: i <= k < |balls| ==> balls[k] == old(balls)[k]
      {
        var nb := ResolveBall(balls[i], lib);
        balls := balls[i := nb];
        i := i + 1;
      }
    }

    /** step(dt): integrate, then resolve every ball in list order. */
    method Step(dt: real, lib: Libm)
      modifies this
      ensures segments == old(segments) && balls == PoolResolveAll(IntegrateAll(old(balls), dt), segments, lib)
    {
      Integrate(dt);
      ResolveCollisions(lib);
    }
  }
}
