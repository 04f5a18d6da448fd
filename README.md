# chaotic-billiard: collision engine model

This project models the collision-geometry and collision-resolution engine of the 2D
chaotic billiard, in two generations.

The current library lives under `physics/`. It has these parts:

- the `vec2` value type and its in-place updates;
- the scalar helpers of `Globals`: `iszero`, `lerp`, `ilerp`, `pfmod`, `linspace`;
- the four curve kinds (Line, Segment, Arc, BezierCubic) with evaluation, inverse, tangent and ortho;
- the `ParamPair` validity predicates;
- the pairwise intersection routines of `Collider`, with the double dispatch of `Curve::collide`;
- the cubic root finder `roots_cubic`;
- the `Ball` record;
- the `World`, which integrates one Euler step and then resolves each ball's collisions in a bounded loop with a tie-break group.

The earlier segment-only engine lives under `chaotic_pool/physics/src/`. It has these parts:

- EPS-widened bounding-box tests;
- `inverse_param`;
- `segment_segment` and `Segment::intersect`;
- a `World` whose candidates are filtered by those box tests.

Doubles are modelled as reals, with these additions:

- `Doubles.Double` adds a case for the non-finite values a double can reach.
- `Doubles.Point` adds the `(INFINITY, INFINITY)` sentinel of `point_line_line` and any other non-finite point.
- The C maths functions (sqrt, cube root, cos, sin, atan, atan2, tanh, atanh) are fields of a `LibM.Libm` value passed as a parameter. `Libm.Valid()` states the only facts the proofs use: an exact square root and cube root, `cos² + sin² = 1`, tanh and atanh inverse to each other, and `atan2` as the principal angle in (-π, π] of a point given in polar form.

The model is laid out as follows:

- Pure code is written as datatypes and functions. Where a function only computes, the lemmas about it carry the property.
- Code that loops or updates in place is written as methods, proved equal to those functions:
  - the compound assignments of `vec2` (class `Vectors.Vec2Cell`);
  - `linspace`;
  - the swap and push loops of the collider;
  - `roots_cubic`;
  - both `World` classes;
  - the text of `World::json`.
- Both worlds keep their balls and curves as the values the shared pointers designate.
- The engines share the line convention `p·x + q·y = r` of `Segment → Line` and `point_line_line` (module `Lines`).
- The mock-up segment of a Line keeps the opposite convention `p·x + q·y + r = 0`, as written. `Curves.MockSegmentLine` states how the two conventions relate.
- The older engine's Line and Segment `ortho`/`tangent` and its Bézier evaluation use the same formulas as the current ones. They are modelled once, in `Curves`.

## Model

| member | source | states |
|---|---|---|
| Vectors.EqIsEquality | physics/include/vec2.hpp:23-24 | member `==` holds exactly when both components are equal, and `!=` is its negation |
| Vectors.OperatorLaws | physics/include/vec2.hpp:28-50 | the vector and scalar operators act component-wise: subtraction undoes addition, `a + (-b) = a - b`, `v + s` adds `s` to both components, `s + v = v + s`, `s * v = v * s`, `s - v = -(v - s)`, and division by a non-zero scalar undoes multiplication |
| Vectors.DotCrossLaws | physics/include/vec2.hpp:106-111 | `dot` is symmetric, `cross` is antisymmetric with `cross(a, a) = 0`, and dot² + cross² = \|a\|²·\|b\|² |
| Vectors.DotSelfNonNegative | physics/include/vec2.hpp:106-108 | `dot(a, a)` is never negative |
| Vectors.OrthoLaws | physics/include/vec2.hpp:98-100 | `ortho(v)` is perpendicular to `v`, has the same length, turns clockwise (`cross(v, ortho v) = -\|v\|²`), and applied twice gives `-v` |
| Vectors.LengthLaws | physics/include/vec2.hpp:89-91 | `length` is non-negative and its square is `dot(v, v)` |
| Vectors.LengthZero | physics/include/vec2.hpp:89-91 | the zero vector has length 0 |
| Vectors.DistLaws | physics/include/vec2.hpp:102-105 | `dist(a, b) = length(a - b) = dist(b, a)` |
| Vectors.NormalizeZero | physics/include/vec2.hpp:83-87 | `normalize` leaves a vector of length 0 unchanged |
| Vectors.NormalizeUnit | physics/include/vec2.hpp:83-91 | `normalize` of a non-zero vector has length 1 and is a positive multiple of the input (zero cross product, positive dot product) |
| Vectors.RotatedKeepsLength | physics/include/vec2.hpp:73-81 | `rotate` keeps the squared length |
| Vectors.TruncatedLength | physics/include/vec2.hpp:92-96 | after `truncate(length)` the vector's squared length is `length²` |
| Vectors.Vec2Cell.constructor | physics/include/vec2.hpp:13 | `vec2(x, y)` stores x and y |
| Vectors.Vec2Cell.Default | physics/include/vec2.hpp:12 | `vec2()` is (0, 0) |
| Vectors.Vec2Cell.Assign | physics/include/vec2.hpp:17-21 | assignment copies both components |
| Vectors.Vec2Cell.AddAssign | physics/include/vec2.hpp:32-36 | `+=` sets the receiver to the sum and changes nothing else |
| Vectors.Vec2Cell.SubAssign | physics/include/vec2.hpp:37-41 | `-=` sets the receiver to the difference |
| Vectors.Vec2Cell.AddScalarAssign | physics/include/vec2.hpp:52-56 | `+= s` adds s to both components |
| Vectors.Vec2Cell.SubScalarAssign | physics/include/vec2.hpp:57-61 | `-= s` subtracts s from both components |
| Vectors.Vec2Cell.MulAssign | physics/include/vec2.hpp:62-66 | `*= s` scales the receiver |
| Vectors.Vec2Cell.DivAssign | physics/include/vec2.hpp:67-71 | `/= s` divides both components by a non-zero s |
| Vectors.Vec2Cell.Rotate | physics/include/vec2.hpp:73-81 | `rotate` replaces the receiver by its rotation through theta |
| Vectors.Vec2Cell.Normalize | physics/include/vec2.hpp:83-87 | `normalize` replaces the receiver by its normalised value: unchanged at length 0, unit length otherwise |
| Vectors.Vec2Cell.Truncate | physics/include/vec2.hpp:92-96 | `truncate` keeps the direction angle and sets the length |
| Globals.IsZeroDefault | physics/src/globals.cpp:7-9 | `iszero(x)` holds exactly when \|x\| < 1e-15, and it is symmetric in the sign of x |
| Globals.LerpEnds | physics/src/globals.cpp:11-13 | `lerp(x, y, 0) = x` and `lerp(x, y, 1) = y` |
| Globals.IlerpLerp | physics/src/globals.cpp:11-17 | for x ≠ y, `ilerp` and `lerp` are inverse to each other in both directions |
| Globals.FmodRange | physics/src/globals.cpp:19-21 | `std::fmod` truncates toward zero: its result has the sign of x and is smaller than y in absolute value |
| Globals.PfmodRange | physics/src/globals.cpp:19-21 | for y > 0, `pfmod(x, y)` lies in [0, y]; it is below y for x ≥ 0 and above 0 for x < 0, so it reaches y only for a negative exact multiple |
| Globals.PfmodIdentity | physics/src/globals.cpp:19-21 | `pfmod(x, y) = x` when 0 ≤ x < y |
| Globals.PfmodMultiple | physics/src/globals.cpp:19-21 | `pfmod(x, y) - x` is an integer multiple of y |
| Globals.Linspace | physics/src/globals.cpp:23-38 | the loop returns n values: none for n = 0, `[start]` for n = 1, and otherwise start first, end exactly last, and `start + i·(end - start)/(n - 1)` at every index below n - 1 |
| Globals.LinspaceLastStep | physics/src/globals.cpp:30-35 | the formula of the loop would also reach end at index n - 1 |
| Balls.NewBall | physics/include/ball.hpp:15 | `Ball(pos, vel)` stores pos and vel unchanged and sets `pos_prev = pos` |
| Balls.DefaultBall | physics/include/ball.hpp:13 | a default Ball has all three vectors (0, 0) |
| Balls.NewBallCharacterised | physics/include/ball.hpp:15 | a ball is one that `Ball(pos, vel)` builds exactly when its `pos_prev` equals its `pos` |
| Lines.Through | physics/src/curve.cpp:63-69 | both ends of a segment lie on its line `p·x + q·y = r` |
| Lines.Solve | physics/src/collider.cpp:187-198 | `point_line_line` returns the (∞, ∞) sentinel exactly when `iszero(p1·q2 - p2·q1)`; otherwise its point lies on both lines |
| Lines.CramerSolves | physics/src/collider.cpp:193-197 | the Cramer point lies on both lines whenever the determinant is non-zero |
| Lines.CramerUnique | physics/src/collider.cpp:193-197 | any point on both lines is the Cramer point |
| Lines.ThroughIsCollinear | physics/src/curve.cpp:63-69 | a point lies on a segment's line exactly when it is collinear with the segment's ends |
| Lines.SolveUnique | physics/src/collider.cpp:187-198 | for lines that are not parallel, `point_line_line` returns their one common point |
| Lines.SolveSymmetric | chaotic_pool/physics/src/collider.hpp:11-20 | `line_line(l1, l2) = line_line(l2, l1)`: the determinant and the right-hand side both change sign |
| Curves.LineToSegment | physics/src/curve.cpp:9-22 | the mock-up segment has x = -1 and x = 1 when q is not zero, and otherwise x = -r/p with y = -1 and y = 1; its ends satisfy `p·x + q·y + r = 0` |
| Curves.MockSegmentProper | physics/src/curve.cpp:9-22 | the mock-up segment of a line that can be parametrised has distinct ends |
| Curves.MockSegmentLine | physics/src/curve.cpp:9-22 | converting the mock-up segment back gives `(2p/q, 2, -2r/q)`, whose points are those with `p·x + q·y + r = 0`: the two conversions use opposite signs of r |
| Curves.LineEval | physics/src/curve.cpp:9-29 | a Line evaluates to a finite point exactly for t strictly inside (0, 1), where `atanh(2t - 1)` is finite, and its mock-up segment is finite; a line with p = 0 and \|q\| < 1e-15, whose mock-up ends have x = -r/0, has no finite point |
| Curves.LineInverse | physics/src/curve.cpp:9-36 | for every line, the mock-up one included, the inverse of a finite point lies strictly inside (0, 1) and the inverse of the (∞, ∞) sentinel is 0 or 1 |
| Curves.LineEvalInverse | physics/src/curve.cpp:24-36 | evaluating a Line at the inverse of a point on it gives the point back |
| Curves.LineInverseEval | physics/src/curve.cpp:24-36 | the inverse of a Line's value at t in (0, 1) is t |
| Curves.LineOrthoTangent | physics/src/curve.cpp:38-46 | Line `ortho = (p, q)` is perpendicular to `tangent = (-q, p)` and equals `tangent.ortho()` |
| Curves.SegmentEvalLaws | physics/src/curve.cpp:71-78 | order 0 gives p1 at t = 0 and p2 at t = 1 and equals `p1 + t·(p2 - p1)`; order 1 is `p2 - p1`; higher orders are (0, 0) |
| Curves.SegmentOrthoTangent | physics/src/curve.cpp:95-101 | Segment `ortho` is perpendicular to `tangent = p1 - p2` and has the same length |
| Curves.SegmentInverse | physics/src/curve.cpp:80-93 | a segment with both extents below 1e-15 inverts every point to 0; otherwise the inverse is finite exactly for finite points |
| Curves.SegmentParamEval | physics/src/curve.cpp:80-93 | on a non-degenerate segment, the parameter of `seg(t)` is t, on either axis |
| Curves.SegmentInverseEval | physics/src/curve.cpp:80-93 | `inverse(seg(t)) = t` for every t on a non-degenerate segment |
| Curves.SegmentEvalParam | physics/src/curve.cpp:80-93 | a point collinear with a non-degenerate segment is the segment's value at its inverse |
| Curves.MakeArc | physics/include/curve.hpp:138-143 | the Arc constructor keeps p0 and r, puts theta_min in [0, 2π], and makes theta_max lie in [theta_min, theta_min + 2π], strictly above theta_min when theta_min < 2π: the arc runs anticlockwise |
| Curves.MakeArcExamples | physics/include/curve.hpp:140-142 | `Arc(c, r, 0, 2π)` stores (0, 2π) and `Arc(c, r, 3π/2, π/2)` stores (3π/2, 5π/2) |
| Curves.MakeArcIdempotent | physics/include/curve.hpp:138-143 | building an Arc again from stored angles with theta_min < 2π gives the same angles |
| Curves.ArcEvalLaws | physics/src/curve.cpp:118-139 | every Arc value is at distance r from p0, the tangent has unit length, and the value's offset from p0 is r times the ortho |
| Curves.FullCircleInverseAsWritten | physics/src/curve.cpp:126-130 | as written, the inverse on a full-circle Arc is not finite for any point (see Findings) |
| Curves.ArcInverse | physics/src/curve.cpp:126-130 | with the span `theta_max - theta_min`, the inverse is finite exactly when the span is non-zero |
| Curves.ArcInverseAgrees | physics/src/curve.cpp:126-130 | for a span below 2π, the corrected inverse equals the inverse as written |
| Curves.ArcInverseEval | physics/src/curve.cpp:118-130 | on a constructed Arc of positive radius, the inverse of the value at t in [0, 1) is t, for full circles too |
| Curves.ArcAngle | physics/src/curve.cpp:118-128 | `atan2` of an Arc value's offset is in (-π, π] and differs from `lerp(theta_min, theta_max, t)` by a multiple of 2π |
| Curves.BezierEnds | physics/src/curve.cpp:157-191 | order 0 gives p0 at t = 0 and p3 at t = 1; the tangent is the order-1 value, `3(p1 - p0)` at t = 0 and `3(p3 - p2)` at t = 1 |
| Curves.BezierThirdDerivative | physics/src/curve.cpp:170-175 | the corrected order-3 value is the constant rate of change of the order-2 value |
| Curves.BezierThirdAsWritten | physics/src/curve.cpp:174-175 | as written, order 3 on the control points (0,0), (0,0), (0,0), (1,0) is (1, 0), while the order-2 value changes by (6, 0) over [0, 1] (see Findings) |
| Curves.BezierInverse | physics/src/curve.cpp:180-183 | `BezierCubic::inverse` returns 0 for every point |
| Curves.Eval | physics/src/curve.cpp:24-29 | every curve, whatever its coefficients, can be evaluated, and only a Line can evaluate to a non-finite point |
| Curves.OrthoOfTangent | physics/src/curve.cpp:95-97 | for every curve kind, `ortho` equals `tangent.ortho()` and is perpendicular to the tangent |
| Collider.SwapLaws | physics/include/physics/collider.hpp:19-21 | swapping t1 and t2 exchanges `on_first` and `on_second`, keeps `on_both`, and applied twice changes nothing |
| Collider.SwapAll | physics/src/collider.cpp:55-60 | the swapped list has the same length and order, with t1 and t2 exchanged in every pair |
| Collider.SwapAllInvolution | physics/src/collider.cpp:55-60 | swapping twice gives the list back, and `on_both` of every pair is unchanged by the swap |
| Collider.SwapPairs | physics/src/curve.cpp:103-108 | the in-place swap loop produces the swapped list |
| Collider.Unimplemented | physics/src/collider.cpp:108-111 | a TODO routine returns one pair, (0, 0), which is on both curves |
| Collider.CopysignSigns | physics/src/collider.cpp:220-225 | `copysign(dx, dy)` and `copysign(dy, dx)` are either (dx, dy) or (-dx, -dy) |
| Collider.ChordLength | physics/src/collider.cpp:202-208 | `dr²` is `dx² + dy²`, and it is positive whenever the discriminant is positive |
| Collider.PointsSegmentArc | physics/src/collider.cpp:200-230 | `points_segment_arc` returns no point when Δ ≤ 0, one when 0 < Δ < 1e-15, and two otherwise |
| Collider.ChordPoints | physics/src/collider.cpp:209-229 | the same count as a function of the chord's discriminant |
| Collider.TwoPointsForm | physics/src/collider.cpp:216-228 | in the two-point case the points are those of the source, in the source's order, with the `copysign` terms |
| Collider.TwoPointsOnCircle | physics/src/collider.cpp:216-228 | every point returned with Δ ≥ 1e-15 is at distance exactly r from the centre and on the segment's line |
| Collider.ChordSides | physics/src/collider.cpp:219-226 | each of the two signed points lies on the circle and on the line |
| Collider.OnePointForm | physics/src/collider.cpp:212-215 | in the one-point case the point is `(det·dy, -det·dx)/dr² + p0` |
| Collider.OnePointNearCircle | physics/src/collider.cpp:212-215 | the single point is on the segment's line, at squared distance `r² - Δ/dr²` from the centre, which is within 1e-15/dr² of r² |
| Collider.LineLine | physics/src/collider.cpp:12-18 | `line_line` returns one pair: the Line curves' parameters of the `point_line_line` point, which solves p·x + q·y = r for both coefficient triples (not the curves' own p·x + q·y + r = 0); for lines that are not parallel both parameters lie strictly inside (0, 1); for parallel lines each is 0 or 1 |
| Collider.LineSegment | physics/src/collider.cpp:20-26 | `line_segment` returns one pair for the crossing of p·x + q·y = r (the `point_line_line` reading of the Line's coefficients, not the Line curve) with the segment's line; the line parameter is in (0, 1) when they cross; for parallel lines and a non-degenerate segment the segment parameter is not finite |
| Collider.LineSegmentMeets | physics/src/collider.cpp:20-26 | when the lines cross, the segment's value at t2 lies on p·x + q·y = r, the line `point_line_line` solves |
| Collider.LineSegmentOtherConvention | physics/src/collider.cpp:20-26 | for a Line with r ≠ 0, the segment's value at t2 is not on the Line curve p·x + q·y + r = 0 while the Line's value at t1 is, so the two parameters name different points |
| Collider.MockPointOnCurve | physics/src/curve.cpp:9-29 | every value of the mock-up segment of a parametrisable Line is on the curve p·x + q·y + r = 0 |
| Collider.SegmentSegment | physics/src/collider.cpp:62-65 | `segment_segment` returns one pair; for parallel non-degenerate segments both parameters are non-finite and the pair is not on both |
| Collider.SegmentSegmentMeet | physics/src/collider.cpp:62-65 | for crossing non-degenerate segments, `s1(t1) = s2(t2)` |
| Collider.Inverse | physics/src/curve.cpp:31-183 | the virtual `inverse` of each kind on a finite point: a Line parameter in (0, 1), a finite Segment parameter, an Arc parameter that is finite exactly when the stored angles differ (corrected span, see Left out), and 0 for a BezierCubic |
| Collider.InverseOnThrough | physics/src/curve.cpp:80-93 | a point on a non-degenerate segment's line has a finite inverse, and the segment's value there is the point |
| Collider.AxisCrossing | pychaotic_billiard/test_segment.py:4-29 | the segments (-a,0)-(a,0) and (0,-a)-(0,a) have lines (0, 2a, 0) and (-2a, 0, 0), cross at (0, 0) and give the pair (0.5, 0.5), for every a ≥ 1 |
| Collider.ArcPairs | physics/src/collider.cpp:67-73 | one pair per intersection point, in order: (inverse on the first curve, inverse on the arc) |
| Collider.CollectArcPairs | physics/src/collider.cpp:67-73 | the push_back loop builds that list |
| Collider.NaNPairs | physics/src/collider.cpp:200-230 | for a line whose mock-up segment has non-finite x, `points_segment_arc` gives two NaN points, so `line_arc` gives two pairs, none on both curves |
| Collider.LineArc | physics/src/collider.cpp:28-34 | `line_arc` returns at most two pairs; for a line with a finite mock-up segment each line parameter is in (0, 1), and otherwise there are two pairs, none on both curves |
| Collider.LineArcMeets | physics/src/collider.cpp:28-34 | when a line with a finite mock-up segment, vertical or not, cuts the circle (Δ ≥ 1e-15), there are two pairs and the line's value at each t1 lies on the arc's circle |
| Collider.LinePointOfChord | physics/src/curve.cpp:24-36 | for any line with a finite mock-up segment, a point of the circle on the mock-up segment's line is the line's value at its inverse |
| Collider.SegmentArc | physics/src/collider.cpp:67-73 | `segment_arc` returns at most two pairs; on a degenerate segment every t1 is 0 |
| Collider.ArcPairsOnCircle | physics/src/collider.cpp:67-73 | the segment's value at each t1 lies on the arc's circle |
| Collider.SegmentArcMeets | physics/src/collider.cpp:67-73 | when the segment's line cuts the circle (Δ ≥ 1e-15), both pairs give points of the segment on the circle |
| Collider.BernsteinPower | physics/src/collider.cpp:238-249 | `bx` and `by` are the power-basis coefficients of the Bernstein form |
| Collider.CombineValues | physics/src/collider.cpp:250-255 | the cubic's value is `p·x(t) + q·y(t) - r` |
| Collider.BezierPolyValue | physics/src/collider.cpp:235-257 | the cubic built by `params_line_beziercubic` is `p·B(t).x + q·B(t).y - r`, so its roots are exactly the parameters where the curve meets p·x + q·y = r, the `point_line_line` reading of the coefficients rather than the Line curve |
| Collider.BezierPowerForm | physics/src/collider.cpp:238-249 | each coordinate of `B(t)` equals its power-basis cubic |
| Collider.ParamsLineBezierCubic | physics/src/collider.cpp:235-257 | at most three roots |
| Collider.RootPairs | physics/src/collider.cpp:41-49 | one pair per root, in order: (inverse of `bezier(root)` on the other curve, root) |
| Collider.CollectRootPairs | physics/src/collider.cpp:80-88 | the push_back loop builds that list |
| Collider.LineBezierCubic | physics/src/collider.cpp:41-49 | one pair per root with `t2 = root` and a line parameter in (0, 1) |
| Collider.SegmentBezierCubic | physics/src/collider.cpp:80-88 | one pair per root with `t2 = root` and a finite segment parameter |
| Collider.SegmentBezierMeets | physics/src/collider.cpp:80-88 | for a root at which the cubic is exactly zero, on a non-degenerate segment, `seg(t1) = bezier(t2)` |
| Dispatch.StubsReturnOrigin | physics/src/collider.cpp:108-181 | the ellipse, arc–arc, arc–Bézier, Bézier–arc and Bézier–Bézier routines return exactly [(0, 0)] |
| Dispatch.CollideIsRoutine | physics/src/curve.cpp:48-53 | `c1.collide(c2)`, which swaps the pairs of `c2.collide(c1)`, equals the routine for (c1, c2): swapping the reversed routine's list gives the forward one |
| Dispatch.Routine | physics/src/collider.cpp:12-181 | running the routine for two curves, with its swap loops, gives the routine's list |
| Dispatch.Collide | physics/src/curve.cpp:48-202 | the double dispatch gives the routine's list with t1 and t2 swapped, which is the list of the routine for (c1, c2) |
| Polynomial.RootsCubic | physics/include/physics/polynomial.hpp:20-117 | the routine, with its coefficient shift and appends, returns the roots that the specification function gives branch by branch |
| Polynomial.AtMostThreeRoots | physics/include/physics/polynomial.hpp:20-117 | `roots_cubic` returns at most three roots |
| Polynomial.BranchCount | physics/include/physics/polynomial.hpp:39-115 | the branches give at most three roots, and at most two when a is zero |
| Polynomial.ShiftedHasNoCardano | physics/include/physics/polynomial.hpp:28-37 | after the shift a is 0, so at most two further roots follow |
| Polynomial.Reduction | physics/include/physics/polynomial.hpp:28-37 | when \|d\| < 1e-15 the first root is 0 and the rest are the roots of the shifted coefficients, which factor the cubic as `x·shifted(x) + d` |
| Polynomial.LinearRootsSolve | physics/include/physics/polynomial.hpp:39-44 | the linear branch appends `-d/c` exactly when c is not zero, and that root solves `c·x + d = 0` |
| Polynomial.QuadraticRootsSolve | physics/include/physics/polynomial.hpp:45-54 | the quadratic branch gives no root exactly when `c² - 4bd < 0`, otherwise two, each solving `b·x² + c·x + d = 0` |
| Polynomial.QuadraticRoot | physics/include/physics/polynomial.hpp:49-51 | `(-c + y)/(2b)` solves the quadratic whenever y² is the discriminant |
| Polynomial.CardanoCount | physics/include/physics/polynomial.hpp:66-114 | the Cardano branch gives one root when yy > 0, three when yy < 0, and two when yy is zero (each "not zero" meaning \|yy\| ≥ 1e-15) |
| Polynomial.LargerCbrtNonZero | physics/include/physics/polynomial.hpp:68-73 | the cube root chosen in the one-root case is not zero, so `p/(3w)` is defined |
| Resolve.CurveCandidates | physics/include/world.hpp:48-70 | the surviving candidates of one curve, at most one per pair, are each on that curve, with both parameters within [-EPS, 1 + EPS] and at distance at least EPS from pos_prev |
| Resolve.CurveCandidatesComplete | physics/include/world.hpp:48-70 | conversely, every pair that passes the tests yields its candidate, the curve point at its t2, among the curve's candidates |
| Resolve.ScanCandidates | physics/include/world.hpp:46-71 | every candidate of a scan belongs to a curve of the world |
| Resolve.ScanCandidatesAreHits | physics/include/world.hpp:46-71 | every candidate of a scan passes all the tests of the inner loop |
| Resolve.Dists | physics/include/world.hpp:78-81 | one distance per candidate |
| Resolve.MinOf | physics/include/world.hpp:82 | `min_element`: the minimum is one of the distances and no distance is smaller |
| Resolve.ResolvedStep | physics/include/world.hpp:39-75 | a round with no candidate stops the loop with the ball unchanged; otherwise the loop continues from the corrected ball with one round fewer |
| Resolve.NoCandidateKeepsBall | physics/include/world.hpp:73-75 | if the first scan finds no candidate, the ball keeps exactly its state |
| Resolve.CorrectedOffset | physics/include/world.hpp:94-97 | the new position is the hit point plus the offset from it, mirrored in the curve's tangent |
| Resolve.ReflectKeepsLength | physics/include/world.hpp:97-98 | mirroring a vector in a unit tangent keeps its length, negates its normal part and keeps its tangent part |
| Resolve.CorrectBounces | physics/include/world.hpp:94-104 | after a correction pos_prev is the hit point, the velocity keeps its length, its normal part is negated and its tangent part kept, and the distance from the hit point is kept |
| Resolve.GroupKeepsSpeed | physics/include/world.hpp:85-107 | the chained corrections of the tie group keep the speed, each one reading the ball the previous one left |
| Resolve.CorrectedKeepsSpeed | physics/include/world.hpp:78-107 | one round of corrections keeps the speed on curves with non-zero tangents |
| Resolve.ResolvedKeepsSpeed | physics/include/world.hpp:35-109 | `resolve_collision` keeps the ball's speed, however many rounds it runs |
| Resolve.GroupEndsOnHit | physics/include/world.hpp:85-107 | after the group, pos_prev is the hit point of a candidate in the tie group |
| Resolve.CorrectedEndsOnHit | physics/include/world.hpp:78-107 | after a round, pos_prev is a candidate within EPS of the minimum distance |
| Resolve.RestingBallAsWritten | physics/include/world.hpp:47-70 | as written, for a ball at rest and any Line, the pair has a finite t2, the Line's point there is not finite, and the pair still passes the tests (see Findings) |
| Resolve.RestingBallIgnored | physics/include/world.hpp:47-70 | with the finiteness test, that pair is not a candidate |
| Resolve.SurvivesIsFiniteAsWritten | physics/include/world.hpp:47-70 | the corrected test is exactly the test as written together with a finite curve point |
| Worlds.Integrated | physics/include/world.hpp:28-33 | `integrate` sets pos_prev to the old pos and moves pos by `vel·dt`; vel is unchanged |
| Worlds.IntegratedTrajectory | physics/include/world.hpp:28-33 | after `integrate` the trajectory runs from the old position to the old position plus `vel·dt` |
| Worlds.IntegrateTwice | physics/include/world.hpp:28-33 | after two integrations, pos_prev is the position after the first |
| Worlds.IntegrateAll | physics/include/world.hpp:28-33 | every ball is integrated, in order |
| Worlds.ResolveAll | physics/include/world.hpp:111-114 | every ball is resolved on its own, in order |
| Worlds.World.constructor | physics/include/world.hpp:121 | an empty world |
| Worlds.World.AddBall | physics/include/world.hpp:128 | `add_ball` appends the ball at the end, and nothing else changes |
| Worlds.World.AddCurve | physics/include/world.hpp:129 | `add_curve` appends any curve at the end, degenerate lines included, and nothing else changes |
| Worlds.World.Integrate | physics/include/world.hpp:28-33 | the loop integrates every ball and keeps the curves |
| Worlds.World.ScanCurves | physics/include/world.hpp:46-71 | the loop over the curves gives the candidates of one scan |
| Worlds.World.CurveHits | physics/include/world.hpp:48-70 | the loop over one curve's pairs gives that curve's candidates |
| Worlds.World.ComputeDists | physics/include/world.hpp:78-81 | the `dists` vector holds each candidate's distance from pos_prev |
| Worlds.World.CorrectBall | physics/include/world.hpp:77-107 | the distances, their minimum and the tie-group corrections together give the corrected ball of one round |
| Worlds.World.ApplyCorrections | physics/include/world.hpp:85-107 | the corrections loop applies the tie group in order, chained |
| Worlds.World.ResolveBall | physics/include/world.hpp:35-109 | the bounded while loop computes `resolve_collision` |
| Worlds.World.ResolveCollisions | physics/include/world.hpp:111-114 | every ball is replaced by its resolved state, in list order; the curves are kept |
| Worlds.World.Step | physics/include/world.hpp:123-126 | `step` integrates and then resolves every ball; the list lengths and the curves are kept |
| Worlds.StepKeepsSpeed | physics/include/world.hpp:123-126 | on curves with non-zero tangents, a step keeps every ball's speed |
| PoolSegments.SegmentInBounds | chaotic_pool/physics/src/segment.hpp:53-60 | every point `seg(t)` with t in [0, 1] lies in the segment's EPS-widened box |
| PoolSegments.OutsideRangeOutOfBounds | chaotic_pool/physics/src/curve.hpp:77-84 | on a segment running towards +x, a parameter whose x offset falls more than EPS outside the segment gives a point outside the box |
| PoolSegments.PoolSegmentEval | chaotic_pool/physics/src/curve.hpp:59-61 | the older Segment evaluates to `(1 - t)p1 + t·p2` whatever the order |
| PoolSegments.PoolLineEval | chaotic_pool/physics/src/curve.hpp:29-33 | evaluating a Line always throws |
| PoolSegments.InverseParamFinite | chaotic_pool/physics/src/curve.hpp:65-75 | `inverse_param` has no degenerate guard: its result is finite exactly when p1 ≠ p2 |
| PoolSegments.InverseParamEval | chaotic_pool/physics/src/curve.hpp:65-75 | `inverse_param(seg(t)) = t` whenever p1 ≠ p2 |
| PoolSegments.InverseParamAgrees | chaotic_pool/physics/src/curve.hpp:65-75 | on a non-degenerate segment, `inverse_param` equals the later `Segment::inverse` |
| PoolSegments.OnThroughParam | chaotic_pool/physics/src/curve.hpp:65-75 | a point on the line of a segment with p1 ≠ p2 is the segment's value at its `inverse_param` |
| PoolSegments.PoolSegmentSegment | chaotic_pool/physics/src/collider.hpp:22-25 | for parallel lines both parameters of `segment_segment` are non-finite |
| PoolSegments.PoolSegmentSegmentMeet | chaotic_pool/physics/src/collider.hpp:22-25 | for crossing segments with distinct ends, `s1(t1) = s2(t2)` = the `line_line` point |
| PoolSegments.Intersect | chaotic_pool/physics/src/segment.hpp:74-83 | `intersect` gives the `intersect_linecoefs` point, and `on_segment` holds exactly when that point is finite and in both EPS-boxes |
| PoolSegments.IntersectOnSegments | chaotic_pool/physics/src/segment.hpp:74-83 | when `on_segment` holds, the point lies on both lines and is each segment's value at its `inverse_param` |
| PoolSegments.AxisIntersect | chaotic_pool/test_segment.py:9-21 | the segments (-a,0)-(a,0) and (0,-a)-(0,a) have coefficients (0, 2a, 0) and (-2a, 0, 0) and intersect at (0, 0) with `on_segment` true, for every a ≥ 1 |
| Pool.PoolCandidates | chaotic_pool/physics/src/world.hpp:40-61 | each candidate comes from a world segment, lies in the trajectory's and the segment's EPS-boxes and on the segment's line, and is at least EPS from pos_prev; at most one per segment |
| Pool.PoolCandidatesComplete | chaotic_pool/physics/src/world.hpp:40-61 | conversely, every segment whose crossing with the direction line passes both box tests and the EPS test yields that crossing as a candidate |
| Pool.PoolResolvedStep | chaotic_pool/physics/src/world.hpp:34-100 | a round with no candidate stops the older loop with the ball unchanged; otherwise the loop continues from the corrected ball with one round fewer |
| Pool.PoolResolveAll | chaotic_pool/physics/src/world.hpp:102-105 | every ball is resolved on its own, in order |
| Pool.DistinctEndsSmooth | chaotic_pool/physics/src/world.hpp:86-87 | segments with distinct ends have non-zero tangents |
| Pool.PoolResolveKeepsSpeed | chaotic_pool/physics/src/world.hpp:68-98 | on segments with distinct ends, the older `resolve_collision` keeps the ball's speed |
| Pool.RestingBallNoCandidate | chaotic_pool/physics/src/world.hpp:42 | a ball at rest meets no segment: its direction line is degenerate, so `line_line` gives the sentinel |
| Pool.PoolWorld.constructor | chaotic_pool/physics/src/world.hpp:112 | an empty world |
| Pool.PoolWorld.AddBall | chaotic_pool/physics/src/world.hpp:119 | `add_ball` appends at the end only |
| Pool.PoolWorld.AddSegment | chaotic_pool/physics/src/world.hpp:120 | `add_segment` appends at the end only |
| Pool.PoolWorld.Integrate | chaotic_pool/physics/src/world.hpp:23-28 | every ball gets `pos_prev := pos` and `pos := pos + vel·dt` |
| Pool.PoolWorld.Scan | chaotic_pool/physics/src/world.hpp:40-61 | the loop over the segments gives the candidates of one scan |
| Pool.PoolWorld.Round | chaotic_pool/physics/src/world.hpp:34-100 | one round of the while loop: it breaks exactly when the scan is empty, and otherwise the rest of the loop runs from the corrected ball |
| Pool.PoolWorld.ResolveCollisions | chaotic_pool/physics/src/world.hpp:102-105 | `resolve_collisions` resolves every ball in list order and keeps the segments |
| Pool.PoolWorld.ResolveBall | chaotic_pool/physics/src/world.hpp:30-100 | the bounded while loop computes the older `resolve_collision` |
| Pool.PoolWorld.Step | chaotic_pool/physics/src/world.hpp:114-117 | `step` integrates and then resolves every ball in list order; the segments are kept |
| Json.Vec2Json | physics/include/vec2.hpp:117-130 | a vec2 record has class "vec2" and exactly the fields x and y |
| Json.BallJson | physics/include/ball.hpp:22-34 | a Ball record has class "Ball" and exactly the fields pos and vel, not pos_prev |
| Json.CurveJson | physics/include/curve.hpp:71-217 | each curve record has its class tag and exactly its parameter names: Line p, q, r; Segment p1, p2; Arc p0, r, theta_min, theta_max; BezierCubic p0 to p3 |
| Json.Vec2FromJson | cppchaotic_billiard/include/from_json.hpp:19-22 | only a "vec2" record is read as a vector |
| Json.BallFromJson | cppchaotic_billiard/include/from_json.hpp:24-27 | a reloaded ball is built by `Ball(pos, vel)`, so it starts with pos_prev = pos |
| Json.CurveFromJson | cppchaotic_billiard/include/from_json.hpp:29-63 | the reload never yields a Line, and a "Line" record is skipped |
| Json.LoadBalls | cppchaotic_billiard/include/from_json.hpp:47-48 | one ball per record when all of them load |
| Json.LoadCurves | cppchaotic_billiard/include/from_json.hpp:50-63 | at most one curve per record and none of them a Line |
| Json.Vec2RoundTrip | cppchaotic_billiard/include/from_json.hpp:19-22 | reading a vec2 record gives the vector back |
| Json.BallRoundTrip | physics/include/ball.hpp:22-34 | reloading a ball gives `Ball(pos, vel)`, which equals the ball exactly when its pos_prev is its pos |
| Json.BallReload | cppchaotic_billiard/include/from_json.hpp:24-27 | reloading a ball's record gives `Ball(pos, vel)` |
| Json.ConstructedArcCanonical | physics/include/curve.hpp:138-143 | every constructed Arc with theta_min < 2π has angles that the constructor reproduces |
| Json.CurveRoundTrip | cppchaotic_billiard/include/from_json.hpp:29-63 | at the level of records (numbers read back as written): Segment and BezierCubic records reload unchanged, an Arc record reloads unchanged exactly when its angles are reproduced by the constructor, and Line records are exactly the ones skipped |
| Json.LoadBallsRoundTrip | cppchaotic_billiard/include/from_json.hpp:44-48 | reloading the balls' records gives, in order, each ball rebuilt from pos and vel |
| Json.LoadCurvesRoundTrip | cppchaotic_billiard/include/from_json.hpp:50-63 | at the level of records: reloading the curves' records gives the curves with the Lines dropped, in order |
| JsonText.WorldJsonText | physics/include/world.hpp:144-160 | the stringstream steps of `World::json` produce the text as written |
| JsonText.WorldJsonShape | physics/include/world.hpp:144-160 | that text is each list closed over its own last character, with the curves' list after the balls' |
| JsonText.WorldJsonAgrees | physics/include/world.hpp:144-160 | with at least one ball and one curve, the text is `{"balls":[…],"curves":[…]}` with the records joined by commas |
| JsonText.EmptyBallsAsWritten | physics/include/world.hpp:148-152 | with no ball, the step back overwrites the `[`, and the text differs from the intended one (see Findings) |
| JsonText.EmptyBallsUnbalanced | physics/include/world.hpp:148-152 | with no ball, the text has one more `]` than `[` |
| JsonText.WorldJsonBalanced | physics/include/world.hpp:144-160 | the intended text has as many `[` as `]` for any balanced records |

## Left out

- Floating point: doubles are reals. Rounding, overflow and the exact IEEE-754 values are not modelled. The tolerances 1e-10 and 1e-15 are exact constants. The values a double can reach beyond the reals are lumped into one non-finite case.
- Transcendental functions are fields of the `Libm` parameter, with only the facts listed above. `rotate`, `truncate`, Arc evaluation, `Arc::inverse`, Line evaluation and inverse, and the Cardano branch of `roots_cubic` are therefore exact only up to those facts.
- Polynomial.CardanoCount: states only how many roots the cubic branch gives, not that they solve the cubic, because its cube roots and trigonometry come from the `Libm` parameter.
- Collider.OnePointNearCircle: states that the single tangent point lies within 1e-15/dr² of the circle, not exactly on it, because the source returns the foot of the perpendicular when 0 < Δ < 1e-15.
- Worlds.World.ResolveBall and Resolve.CurveCandidates: use the corrected candidate test, which drops non-finite curve points; the test as written is `Resolve.SurvivesAsWritten` (see Findings).
- Collider.Inverse, Collider.ArcPairs, Collider.CollectArcPairs, Collider.LineArc, Collider.SegmentArc, Worlds.World.ResolveBall: take the arc parameter t2 from the corrected `Curves.ArcInverse` (span `theta_max - theta_min`), not from `Arc::inverse` as written (`Curves.ArcInverseAsWritten`, span reduced by `pfmod`). The two agree for every span below 2π (`Curves.ArcInverseAgrees`). For a full circle they differ: in the source every t2 is inf or NaN, so a ball never bounces off a full circle. In the model it does (see Findings). The engine calls `Collider.Inverse` only with a Line or Segment first curve, in `line_arc`, `segment_arc`, `line_beziercubic` and `segment_beziercubic`, so its Arc case is reached only through direct calls.
- Curves.Eval: at order 3 a BezierCubic gives the corrected third derivative `6(p3 - 3p2 + 3p1 - p0)`, not the source's `p0 - p1 - p2 + p3` (`Curves.BezierEvalAsWritten`, see Findings). The engine only evaluates at orders 0 and 1, where the two agree.
- Shared pointers: both worlds hold their balls and curves as values. Aliasing between two entries and the update of a Ball through a pointer held elsewhere are not modelled.
- BezierCubic evaluation at an order above 3 trips an `assert` in the source. Curves.Eval: requires an order of at most 3 for every curve kind; Segment evaluation on its own (`SegmentEval`) takes any order.
- The concrete scene of chaotic_pool/test_world.py is covered by the general bounce and speed lemmas (`Pool.PoolResolveKeepsSpeed`, `Resolve.CorrectBounces`). Its particular numbers are not worked through, by choice of scope.
- The endpoint tests of pychaotic_billiard/test_segment.py and chaotic_pool/test_segment.py are stated for every half-length a ≥ 1 (`AxisCrossing`, `AxisIntersect`) rather than for a = 1 alone.
- Arc–Arc and every Bézier–Arc, Bézier–Bézier and ellipse routine: only their `[(0, 0)]` stubs exist in the source, and only the stubs are modelled.
- `str()`, `operator<<`, logging, and the formatting of numbers in `json()` are left out. The records' texts are parameters of `JsonText`.
- Json.CurveRoundTrip, Json.LoadCurvesRoundTrip: the round trips hold at the level of records, with each number read back as the value written. In the source, `Line::json` and `Arc::json` print p, q, r and r, theta_min, theta_max with 15 significant digits (physics/include/curve.hpp:73, 162), so a saved Arc reloads with rounded radius and angles (2π is written 6.28318530717959). The vec2 records use 17 digits (physics/include/vec2.hpp:119), so Segment, BezierCubic and Ball records reload exactly.
- Curves.LineToSegment: requires a finite mock-up segment (`Parametrizable`: q not below 1e-15, or p ≠ 0). For p = 0 and \|q\| < 1e-15 the source computes x = -r/0, an infinity or NaN, that a real cannot hold. That case is modelled at the callers: `Curves.LineEval` gives no finite point, `Curves.LineInverse` reads the parameter off the y axis, and `Collider.LineArc` gives `Collider.NaNPairs`.
- Vectors.DivScalar, Vectors.ScalarDiv, Vectors.Vec2Cell.DivAssign: require a non-zero divisor. Division by 0 gives infinities or NaN in the source, which a real cannot hold. The engine's only vector division is `rhs / det` in `point_line_line`, after the iszero test on det; `s / v` is not called.
- The friend `operator==` of vec2 calls itself. Only the member `==` is modelled.
- chaotic_pool/physics/src/ball.hpp is not part of this model. The older world uses the Ball record of physics/include/ball.hpp.
- The pybind11 bindings, the apps, renderers and Python scripts, the near-verbatim older copies under chaotic_billiard/physics/src and chaotic_pool/physics/src/collider.cpp, the logger, exceptions and build scripts are left out.
- JSON parsing by nlohmann::json is left out. A parsed document is a `Json.Value`.

## Findings

| source | as written | input that shows it | evidently intended | confidence | as-written member | corrected member |
|---|---|---|---|---|---|---|
| physics/src/curve.cpp:126-130 | the span is `pfmod(theta_max - theta_min, 2π)`, which is 0 for a full circle, so `ilerp` divides by 0 | `Arc(c, r, 0, 2π)`, whose constructor stores the angles (0, 2π): every inverse is inf or NaN, so no pair with it is ever on the second curve | the span `theta_max - theta_min`, which the constructor keeps in (0, 2π] | high, not executed | Curves.FullCircleInverseAsWritten | Curves.ArcInverseEval |
| physics/src/curve.cpp:174-175 | order 3 returns `p0 - p1 - p2 + p3` | control points (0,0), (0,0), (0,0), (1,0): order 3 gives (1, 0), while the order-2 value rises by (6, 0) over [0, 1] | the third derivative `6(p3 - 3p2 + 3p1 - p0)` | medium, not executed | Curves.BezierThirdAsWritten | Curves.BezierThirdDerivative |
| physics/include/world.hpp:47-70 | a candidate is kept when `on_both` holds and `length() < EPS` is false; for a non-finite point the length is not below EPS | a ball at rest with a Line curve: the direction line is degenerate, the line parameter is 0 or 1, the Line point there is infinite, and the degenerate trajectory inverts it to 0, so the infinite point is pushed as a hit | only finite intersection points become candidates | medium, not executed | Resolve.RestingBallAsWritten | Resolve.RestingBallIgnored |
| physics/include/world.hpp:148-152 | `seekp(-1, cur)` steps back over the last comma even when no record was written | a world with no ball: the step back overwrites the `[` of `"balls":[`, giving `{"balls":],"curves":[…]}` | step back only after at least one record, giving `{"balls":[],…}` | high, not executed | JsonText.EmptyBallsUnbalanced | JsonText.WorldJsonBalanced |
