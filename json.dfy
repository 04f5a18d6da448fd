/**
 * The structure of the json() records of vec2, Ball and the curves (physics/include/vec2.hpp,
 * ball.hpp, curve.hpp), and the reload of cppchaotic_billiard/include/from_json.hpp that reads
 * them back. Every record has a "class" tag and a "parameters" object; the text layout and the
 * formatting of the numbers are in json_text.dfy and out of this model respectively.
 */
module Json {
  import opened Vectors
  import opened Shapes
  import opened Curves
  import opened Balls

  datatype Option<T> = None | Some(value: T)

  /**
   * A JSON value as the json() methods build it: a number, or a {"class", "parameters"} record
   * whose parameters object maps each parameter name to its value.
   */
  datatype Value = Num(n: real) | Record(cls: string, parameters: map<string, Value>)

  // ---------------------------------------------------------------- json()

  /** vec2::json: class "vec2" with parameters x and y. */
  function Vec2Json(v: Vec2): (j: Value)
    ensures j.Record? && j.cls == "vec2" && j.parameters.Keys == {"x", "y"}
  {
    Record("vec2", map["x" := Num(v.x), "y" := Num(v.y)])
  }

  /** Ball::json: class "Ball" with pos and vel only; pos_prev is not written. */
  function BallJson(b: Ball): (j: Value)
    ensures j.Record? && j.cls == "Ball" && j.parameters.Keys == {"pos", "vel"}
  {
    Record("Ball", map["pos" := Vec2Json(b.pos), "vel" := Vec2Json(b.vel)])
  }

  /** Every curve's json: its class name and its constructor's parameter names. */
  function CurveJson(c: Curve): (j: Value)
    ensures j.Record?
    ensures c.LineCurve? ==> j.cls == "Line" && j.parameters.Keys == {"p", "q", "r"}
    ensures c.SegmentCurve? ==> j.cls == "Segment" && j.parameters.Keys == {"p1", "p2"}
    ensures c.ArcCurve? ==> j.cls == "Arc" && j.parameters.Keys == {"p0", "r", "theta_min", "theta_max"}
    ensures c.BezierCurve? ==> j.cls == "BezierCubic" && j.parameters.Keys == {"p0", "p1", "p2", "p3"}
  {
    match c
    case LineCurve(l) =>
      Record("Line", map["p" := Num(l.p), "q" := Num(l.q), "r" := Num(l.r)])
    case SegmentCurve(s) =>
      Record("Segment", map["p1" := Vec2Json(s.p1), "p2" := Vec2Json(s.p2)])
    case ArcCurve(a) =>
      Record("Arc", map["p0" := Vec2Json(a.p0), "r" := Num(a.r),
        "theta_min" := Num(a.thetaMin), "theta_max" := Num(a.thetaMax)])
    case BezierCurve(b) =>
      Record("BezierCubic", map["p0" := Vec2Json(b.p0), "p1" := Vec2Json(b.p1),
        "p2" := Vec2Json(b.p2), "p3" := Vec2Json(b.p3)])
  }

  // ---------------------------------------------------------------- from_json

  /**
   * A field read as a number or as a vec2. A missing field or a value of the wrong kind makes
   * nlohmann::json throw, and a wrong class tag fails an assert; both are None here.
   */
  function NumberField(fs: map<string, Value>, name: string): Option<real>
  {
    if name in fs && fs[name].Num? then Some(fs[name].n) else None
  }

  function Vec2FromJson(j: Value): (r: Option<Vec2>)
    ensures r.Some? ==> j.Record? && j.cls == "vec2"
  {
    if j.Record? && j.cls == "vec2" then
      match (NumberField(j.parameters, "x"), NumberField(j.parameters, "y"))
      case (Some(x), Some(y)) => Some(Vec2(x, y))
      case _ => None
    else None
  }

  function Vec2Field(fs: map<string, Value>, name: string): Option<Vec2>
  {
    if name in fs then Vec2FromJson(fs[name]) else None
  }

  /** Ball_from_json: the ball is rebuilt by Ball(pos, vel). */
  function BallFromJson(j: Value): (r: Option<Ball>)
    ensures r.Some? ==> r.value.posPrev == r.value.pos
  {
    if j.Record? && j.cls == "Ball" then
      match (Vec2Field(j.parameters, "pos"), Vec2Field(j.parameters, "vel"))
      case (Some(pos), Some(vel)) => Some(NewBall(pos, vel))
      case _ => None
    else None
  }

  /** The outcome of reading one curve record: a curve, a skipped unknown class, or a failure. */
  datatype Loaded = Loaded(curve: Curve) | Skipped | Failed

  /**
   * The curve branch of World_from_json: Segment, Arc (through the Arc constructor) and
   * BezierCubic are read; any other class, Line included, is reported and skipped.
   */
  function CurveFromJson(j: Value): (r: Loaded)
    ensures r.Loaded? ==> !r.curve.LineCurve?
    ensures j.Record? && j.cls == "Line" ==> r.Skipped?
  {
    if !j.Record? then Failed
    else
      var fs := j.parameters;
      if j.cls == "Segment" then
        match (Vec2Field(fs, "p1"), Vec2Field(fs, "p2"))
        case (Some(p1), Some(p2)) => Loaded(SegmentCurve(Segment(p1, p2)))
        case _ => Failed
      else if j.cls == "Arc" then
        match (Vec2Field(fs, "p0"), NumberField(fs, "r"), NumberField(fs, "theta_min"), NumberField(fs, "theta_max"))
        case (Some(p0), Some(r), Some(lo), Some(hi)) => Loaded(ArcCurve(MakeArc(p0, r, lo, hi)))
        case _ => Failed
      else if j.cls == "BezierCubic" then
        match (Vec2Field(fs, "p0"), Vec2Field(fs, "p1"), Vec2Field(fs, "p2"), Vec2Field(fs, "p3"))
        case (Some(p0), Some(p1), Some(p2), Some(p3)) => Loaded(BezierCurve(BezierCubic(p0, p1, p2, p3)))
        case _ => Failed
      else Skipped
  }

  /** The balls loop of World_from_json: add_ball for every record, in order. */
  function LoadBalls(js: seq<Value>): (r: Option<seq<Ball>>)
    ensures r.Some? ==> |r.value| == |js|
  {
    if |js| == 0 then Some([])
    else match (LoadBalls(js[..|js| - 1]), BallFromJson(js[|js| - 1]))
      case (Some(bs), Some(b)) => Some(bs + [b])
      case _ => None
  }

  /** The curves loop of World_from_json: add_curve for every curve read, skipping unknown ones. */
  function LoadCurves(js: seq<Value>): (r: Option<seq<Curve>>)
    ensures r.Some? ==> |r.value| <= |js| && forall i :: 0 <= i < |r.value| ==> !r.value[i].LineCurve?
  {
    if |js| == 0 then Some([])
    else match (LoadCurves(js[..|js| - 1]), CurveFromJson(js[|js| - 1]))
      case (Some(cs), Loaded(c)) => Some(cs + [c])
      case (Some(cs), Skipped) => Some(cs)
      case _ => None
  }

  // ---------------------------------------------------------------- round trips

  lemma Vec2RoundTrip(v: Vec2)
    ensures Vec2FromJson(Vec2Json(v)) == Some(v)
  {
  }

  /**
   * A ball written and read back is Ball(pos, vel): its pos_prev becomes its pos, so the round
   * trip gives back the ball itself exactly when pos_prev already equals pos.
   */
  lemma BallRoundTrip(b: Ball)
    ensures BallFromJson(BallJson(b)) == Some(NewBall(b.pos, b.vel))
    ensures BallFromJson(BallJson(b)) == Some(b) <==> b.posPrev == b.pos
  {
    BallReload(b);
  }

  lemma BallReload(b: Ball)
    ensures BallFromJson(BallJson(b)) == Some(NewBall(b.pos, b.vel))
  {
    Vec2RoundTrip(b.pos);
    Vec2RoundTrip(b.vel);
  }

  /** An arc as its constructor leaves it, when the constructor gives it back unchanged. */
  predicate Canonical(a: Arc)
  {
    MakeArc(a.p0, a.r, a.thetaMin, a.thetaMax) == a
  }

  /** Every arc the constructor builds with theta_min below 2 pi is canonical. */
  lemma ConstructedArcCanonical(p0: Vec2, r: real, thetaMin: real, thetaMax: real)
    requires MakeArc(p0, r, thetaMin, thetaMax).thetaMin < TwoPi
    ensures Canonical(MakeArc(p0, r, thetaMin, thetaMax))
  {
    MakeArcIdempotent(p0, r, thetaMin, thetaMax);
  }

  /**
   * A curve written and read back: a Line is skipped, a segment and a Bezier curve come back
   * unchanged, and an arc comes back unchanged exactly when it is canonical.
   */
  lemma CurveRoundTrip(c: Curve)
    ensures c.LineCurve? <==> CurveFromJson(CurveJson(c)).Skipped?
    ensures (c.SegmentCurve? || c.BezierCurve?) ==> CurveFromJson(CurveJson(c)) == Loaded(c)
    ensures c.ArcCurve? ==> (CurveFromJson(CurveJson(c)) == Loaded(c) <==> Canonical(c.arc))
  {
    match c
    case LineCurve(_) =>
    case SegmentCurve(s) =>
      Vec2RoundTrip(s.p1);
      Vec2RoundTrip(s.p2);
    case ArcCurve(a) =>
      Vec2RoundTrip(a.p0);
    case BezierCurve(b) =>
      Vec2RoundTrip(b.p0);
      Vec2RoundTrip(b.p1);
      Vec2RoundTrip(b.p2);
      Vec2RoundTrip(b.p3);
  }

  /** The records of a list of balls and of a list of curves, in list order, as World::json writes them. */
  function BallsJson(bs: seq<Ball>): (js: seq<Value>)
    ensures |js| == |bs| && forall i :: 0 <= i < |bs| ==> js[i] == BallJson(bs[i])
  {
    seq(|bs|, i requires 0 <= i < |bs| => BallJson(bs[i]))
  }

  function CurvesJson(cs: seq<Curve>): (js: seq<Value>)
    ensures |js| == |cs| && forall i :: 0 <= i < |cs| ==> js[i] == CurveJson(cs[i])
  {
    seq(|cs|, i requires 0 <= i < |cs| => CurveJson(cs[i]))
  }

  /** Each ball as Ball(pos, vel) rebuilds it. */
  function Rebuilt(bs: seq<Ball>): (r: seq<Ball>)
    ensures |r| == |bs| && forall i :: 0 <= i < |bs| ==> r[i] == NewBall(bs[i].pos, bs[i].vel)
  {
    seq(|bs|, i requires 0 <= i < |bs| => NewBall(bs[i].pos, bs[i].vel))
  }

  /** The balls written one by one and reloaded: each one is Ball(pos, vel) of the original. */
  lemma LoadBallsRoundTrip(bs: seq<Ball>)
    ensures LoadBalls(BallsJson(bs)) == Some(Rebuilt(bs))
  {
    LoadBallsOf(BallsJson(bs), bs);
  }

  lemma {:induction false} LoadBallsOf(js: seq<Value>, bs: seq<Ball>)
    requires |js| == |bs| && forall i :: 0 <= i < |bs| ==> js[i] == BallJson(bs[i])
    ensures LoadBalls(js) == Some(Rebuilt(bs))
  {
    if |bs| > 0 {
      var n := |bs| - 1;
      LoadBallsOf(js[..n], bs[..n]);
      BallReload(bs[n]);
      assert BallFromJson(js[n]) == Some(NewBall(bs[n].pos, bs[n].vel));
      RebuiltSnoc(bs);
    }
  }

  lemma RebuiltSnoc(bs: seq<Ball>)
    requires |bs| > 0
    ensures Rebuilt(bs) == Rebuilt(bs[..|bs| - 1]) + [NewBall(bs[|bs| - 1].pos, bs[|bs| - 1].vel)]
  {
  }

  /** The curves that survive a reload, in order: every curve but the lines. */
  function WithoutLines(cs: seq<Curve>): (r: seq<Curve>)
    ensures |r| <= |cs| && forall i :: 0 <= i < |r| ==> r[i] in cs && !r[i].LineCurve?
  {
    if |cs| == 0 then []
    else
      var rest := WithoutLines(cs[..|cs| - 1]);
      assert forall c :: c in cs[..|cs| - 1] ==> c in cs;
      if cs[|cs| - 1].LineCurve? then rest else rest + [cs[|cs| - 1]]
  }

  /**
   * The curves written one by one and reloaded: the lines are dropped and the others come back
   * unchanged, in order, provided every arc is canonical.
   */
  lemma {:induction false} LoadCurvesRoundTrip(cs: seq<Curve>)
    requires forall c :: c in cs && c.ArcCurve? ==> Canonical(c.arc)
    ensures LoadCurves(CurvesJson(cs)) == Some(WithoutLines(cs))
  {
    if |cs| > 0 {
      var n := |cs| - 1;
      var js := CurvesJson(cs);
      assert forall c :: c in cs[..n] ==> c in cs;
      LoadCurvesRoundTrip(cs[..n]);
      assert js[..n] == CurvesJson(cs[..n]);
      assert cs[n] in cs;
      CurveRoundTrip(cs[n]);
    }
  }
}
