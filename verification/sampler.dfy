/** The stroke sampler: the `setPoints` updater of the pointer-move handler.

    It keeps a pointer position only when it lies at least `JitterThreshold`
    from the last accepted point, and for every accepted point it derives the
    curve segment the renderer draws (the canvas calls themselves are not
    modelled).
 */
module Sampler {
  import opened Geometry
  import opened Optional

  /** Minimum distance, in canvas units, between consecutive accepted points. */
  const JitterThreshold: real := 3.0

  /** Line width of the straight segment drawn between the first two points. */
  const StraightWidth: real := 6.0

  /** What the renderer draws for one accepted point. */
  datatype Segment =
    | Straight(from: Point, to: Point, width: real)
      /** quadratic curve from `start` to `end` with control point `control` */
    | Curve(start: Point, control: Point, end: Point, width: real)

  /** The stroke after one pointer move, and the segment drawn for it, if any. */
  datatype Step = Step(points: seq<Point>, segment: Option<Segment>)

  /** `pos` is far enough from `last` to be kept (the source compares the root with 3). */
  predicate FarEnough(last: Point, pos: Point) {
    SqDist(last, pos) >= Sq(JitterThreshold)
  }

  /** The sampler's invariant: consecutive points are at least `JitterThreshold` apart. */
  predicate Spaced(ps: seq<Point>) {
    forall i :: 0 < i < |ps| ==> FarEnough(ps[i - 1], ps[i])
  }

  /** Line width of a curve segment, thinner the faster the pointer moves:
      `max(3, 10 - min(distance, 20) * 0.2)`. */
  function CurveWidth(distance: real): (w: real)
    ensures 0.0 <= distance ==> 6.0 <= w <= 10.0
    ensures JitterThreshold <= distance ==> 6.0 <= w <= 9.4
    ensures 20.0 <= distance ==> w == 6.0
  {
    Max(3.0, 10.0 - Min(distance, 20.0) * 0.2)
  }

  /** A faster move never gives a thicker line. */
  lemma CurveWidthAntitone(d1: real, d2: real)
    requires d1 <= d2
    ensures CurveWidth(d2) <= CurveWidth(d1)
  {
  }

  /** The segment drawn once `ps` is the stroke: a quadratic curve through the
      last three points from midpoint to midpoint, or a straight line for a
      two-point stroke. */
  function Smooth(ps: seq<Point>, sqrt: real -> real): (r: Option<Segment>)
    ensures |ps| < 2 <==> r == None
    ensures |ps| == 2 ==> r == Some(Straight(ps[0], ps[1], StraightWidth))
    ensures |ps| >= 3 ==> r.Some? && r.value.Curve?
    ensures |ps| >= 3 ==>
      var n := |ps|;
      && 2.0 * r.value.start.x == ps[n - 3].x + ps[n - 2].x
      && 2.0 * r.value.start.y == ps[n - 3].y + ps[n - 2].y
      && r.value.control == ps[n - 2]
      && 2.0 * r.value.end.x == ps[n - 2].x + ps[n - 1].x
      && 2.0 * r.value.end.y == ps[n - 2].y + ps[n - 1].y
    ensures |ps| >= 3 ==> r.value.width == CurveWidth(Distance(ps[|ps| - 2], ps[|ps| - 1], sqrt))
    ensures IsSqrt(sqrt) && |ps| >= 2 && FarEnough(ps[|ps| - 2], ps[|ps| - 1]) ==>
      6.0 <= r.value.width <= 9.4
  {
    var n := |ps|;
    if n >= 3 then
      var p1, p2, p3 := ps[n - 3], ps[n - 2], ps[n - 1];
      var distance := Distance(p2, p3, sqrt);
      AcceptedStepIsLong(ps, sqrt);
      Some(Curve(Midpoint(p1, p2), p2, Midpoint(p2, p3), CurveWidth(distance)))
    else if n == 2 then
      Some(Straight(ps[0], ps[1], StraightWidth))
    else
      None
  }

  /** A step the filter accepted is at least `JitterThreshold` long. */
  lemma AcceptedStepIsLong(ps: seq<Point>, sqrt: real -> real)
    requires |ps| >= 2
    ensures IsSqrt(sqrt) && FarEnough(ps[|ps| - 2], ps[|ps| - 1]) ==>
      JitterThreshold <= Distance(ps[|ps| - 2], ps[|ps| - 1], sqrt)
  {
    if IsSqrt(sqrt) && FarEnough(ps[|ps| - 2], ps[|ps| - 1]) {
      DistanceBelow(sqrt, ps[|ps| - 2], ps[|ps| - 1], JitterThreshold);
    }
  }

  /** One pointer move while drawing: the `setPoints` updater of the move handler.
      An empty stroke takes the position as is; otherwise a position closer
      than `JitterThreshold` to the last point is dropped, and a farther one is
      appended and smoothed. */
  function Extend(ps: seq<Point>, pos: Point, sqrt: real -> real): (r: Step)
    ensures |ps| == 0 ==> r == Step([pos], None)
    ensures |ps| > 0 && !FarEnough(ps[|ps| - 1], pos) ==> r == Step(ps, None)
    ensures |ps| > 0 && FarEnough(ps[|ps| - 1], pos) ==>
      && |r.points| == |ps| + 1
      && r.points[..|ps|] == ps
      && r.points[|ps|] == pos
      && r.segment == Smooth(r.points, sqrt)
    ensures Spaced(ps) ==> Spaced(r.points)
    ensures |r.points| > 0
  {
    if |ps| == 0 then
      Step([pos], None)
    else if !FarEnough(ps[|ps| - 1], pos) then
      Step(ps, None)
    else
      var next := ps + [pos];
      assert next[..|ps|] == ps;
      Step(next, Smooth(next, sqrt))
  }

  /** The filter on squared distances drops exactly the positions whose
      distance to the last point, as the source computes it, is below 3. */
  lemma ExtendDropsExactlyNearPoints(ps: seq<Point>, pos: Point, sqrt: real -> real)
    requires IsSqrt(sqrt)
    requires |ps| > 0
    ensures Extend(ps, pos, sqrt).points == ps <==> Distance(ps[|ps| - 1], pos, sqrt) < JitterThreshold
  {
    DistanceBelow(sqrt, ps[|ps| - 1], pos, JitterThreshold);
    if FarEnough(ps[|ps| - 1], pos) {
      assert |Extend(ps, pos, sqrt).points| == |ps| + 1;
    }
  }

  /** Feeding the same position twice in a row adds it at most once, and the
      second move draws nothing. */
  lemma ExtendIdempotent(ps: seq<Point>, pos: Point, sqrt: real -> real)
    ensures var once := Extend(ps, pos, sqrt).points;
      Extend(once, pos, sqrt) == Step(once, None)
  {
    var once := Extend(ps, pos, sqrt).points;
    if |ps| > 0 && !FarEnough(ps[|ps| - 1], pos) {
      assert once == ps;
    } else {
      assert once[|once| - 1] == pos;
      SqDistZero(pos, pos);
    }
  }

  /** The stroke sampled from a whole gesture: `moves` are the pointer
      positions reported after the seed point, in arrival order. */
  function Sample(ps: seq<Point>, moves: seq<Point>, sqrt: real -> real): (r: seq<Point>)
    ensures Spaced(ps) ==> Spaced(r)
    ensures |ps| <= |r| <= |ps| + |moves|
    ensures |ps| > 0 ==> r[..|ps|] == ps
    decreases |moves|
  {
    if |moves| == 0 then
      ps
    else
      var next := Extend(ps, moves[0], sqrt).points;
      var r := Sample(next, moves[1..], sqrt);
      assert |ps| > 0 ==> r[..|next|][..|ps|] == ps;
      r
  }

  /** A position too close to the end of the stroke may be reported any
      number of times without growing the stroke. */
  lemma {:induction false} NearDuplicatesNeverGrow(ps: seq<Point>, pos: Point, k: nat, sqrt: real -> real)
    requires |ps| > 0 && !FarEnough(ps[|ps| - 1], pos)
    ensures Sample(ps, seq(k, _ => pos), sqrt) == ps
  {
    if k > 0 {
      var moves := seq(k, _ => pos);
      assert moves[0] == pos;
      assert moves[1..] == seq(k - 1, _ => pos);
      NearDuplicatesNeverGrow(ps, pos, k - 1, sqrt);
    }
  }

  /** The rolling smoothing is continuous: each new curve starts exactly where
      the curve drawn for the previous point ended. */
  lemma ConsecutiveCurvesJoin(ps: seq<Point>, pos: Point, sqrt: real -> real)
    requires |ps| >= 3 && FarEnough(ps[|ps| - 1], pos)
    ensures Extend(ps, pos, sqrt).segment.Some? && Smooth(ps, sqrt).Some?
    ensures Extend(ps, pos, sqrt).segment.value.start == Smooth(ps, sqrt).value.end
  {
  }
}
