/** The circle scorer, `calculateCircleScore`: how round and how closed a
    finished stroke is, as an integer score.

    The score combines a regularity score (spread of the distances to the
    centroid), a closure score (gap between the first and the last point) and
    a point-count score with weights 0.5, 0.3 and 0.2, clamps the result to
    [1, 100] and rounds it.
 */
module Scorer {
  import opened Geometry
  import Sampler

  /** Strokes with fewer points are not scored. */
  const MinPoints: nat := 10

  /** Left-to-right sum, as `reduce((sum, v) => sum + v, 0)`. */
  function Sum(xs: seq<real>): real
    decreases |xs|
  {
    if |xs| == 0 then 0.0 else Sum(xs[..|xs| - 1]) + xs[|xs| - 1]
  }

  function Mean(xs: seq<real>): real
    requires |xs| > 0
  {
    Sum(xs) / |xs| as real
  }

  predicate NonNegative(xs: seq<real>) {
    forall i :: 0 <= i < |xs| ==> xs[i] >= 0.0
  }

  /** All values are the same. */
  predicate Constant(xs: seq<real>) {
    forall i :: 0 <= i < |xs| ==> xs[i] == xs[0]
  }

  lemma {:induction false} SumBoundsElements(xs: seq<real>)
    requires NonNegative(xs)
    ensures Sum(xs) >= 0.0
    ensures forall k :: 0 <= k < |xs| ==> xs[k] <= Sum(xs)
    decreases |xs|
  {
    if |xs| > 0 {
      var init := xs[..|xs| - 1];
      assert forall i :: 0 <= i < |init| ==> init[i] == xs[i];
      SumBoundsElements(init);
    }
  }

  /** A sum of non-negative values is zero exactly when every value is. */
  lemma {:induction false} SumZero(xs: seq<real>)
    requires NonNegative(xs)
    ensures Sum(xs) == 0.0 <==> forall i :: 0 <= i < |xs| ==> xs[i] == 0.0
    decreases |xs|
  {
    SumBoundsElements(xs);
    if |xs| > 0 {
      var init := xs[..|xs| - 1];
      assert forall i :: 0 <= i < |init| ==> init[i] == xs[i];
      SumBoundsElements(init);
      SumZero(init);
    }
  }

  /** The sum of `n` copies of `c` is `n * c`. */
  lemma {:induction false} SumConstant(xs: seq<real>, c: real)
    requires forall i :: 0 <= i < |xs| ==> xs[i] == c
    ensures Sum(xs) == |xs| as real * c
    decreases |xs|
  {
    if |xs| > 0 {
      var init := xs[..|xs| - 1];
      assert forall i :: 0 <= i < |init| ==> init[i] == xs[i];
      SumConstant(init, c);
    }
  }

  /** The mean of `n` copies of `c` is `c`. */
  lemma MeanConstant(xs: seq<real>, c: real)
    requires |xs| > 0
    requires forall i :: 0 <= i < |xs| ==> xs[i] == c
    ensures Mean(xs) == c
  {
    SumConstant(xs, c);
  }

  function Xs(ps: seq<Point>): (r: seq<real>)
    ensures |r| == |ps|
  {
    seq(|ps|, i requires 0 <= i < |ps| => ps[i].x)
  }

  function Ys(ps: seq<Point>): (r: seq<real>)
    ensures |r| == |ps|
  {
    seq(|ps|, i requires 0 <= i < |ps| => ps[i].y)
  }

  /** The average of all points. */
  function Centroid(ps: seq<Point>): Point
    requires |ps| > 0
  {
    Point(Mean(Xs(ps)), Mean(Ys(ps)))
  }

  /** The distance of every point to the centroid. */
  function Radii(ps: seq<Point>, sqrt: real -> real): (rs: seq<real>)
    requires |ps| > 0
    ensures |rs| == |ps|
    ensures IsSqrt(sqrt) ==> forall i :: 0 <= i < |rs| ==>
      rs[i] >= 0.0 && Sq(rs[i]) == SqDist(Centroid(ps), ps[i])
  {
    var c := Centroid(ps);
    seq(|ps|, i requires 0 <= i < |ps| => Distance(c, ps[i], sqrt))
  }

  function AvgRadius(ps: seq<Point>, sqrt: real -> real): real
    requires |ps| > 0
  {
    Mean(Radii(ps, sqrt))
  }

  /** Squared deviations of the values from `avg`. */
  function Deviations(xs: seq<real>, avg: real): (ds: seq<real>)
    ensures |ds| == |xs|
    ensures NonNegative(ds)
    ensures forall i :: 0 <= i < |xs| ==> (ds[i] == 0.0 <==> xs[i] == avg)
  {
    var ds := seq(|xs|, i requires 0 <= i < |xs| => Sq(xs[i] - avg));
    assert forall i :: 0 <= i < |xs| ==> ds[i] == Sq(xs[i] - avg);
    forall i | 0 <= i < |xs| {
      SqZero(xs[i] - avg);
    }
    ds
  }

  /** Population standard deviation of the radii. */
  function StdDev(ps: seq<Point>, sqrt: real -> real): real
    requires |ps| > 0
  {
    var rs := Radii(ps, sqrt);
    sqrt(Mean(Deviations(rs, Mean(rs))))
  }

  /** Distance from the first to the last point. */
  function ClosureDistance(ps: seq<Point>, sqrt: real -> real): real
    requires |ps| > 0
  {
    Distance(ps[0], ps[|ps| - 1], sqrt)
  }

  /** The variance of the radii is non-negative, and zero exactly when all
      radii are equal. */
  lemma VarianceZeroIffConstant(rs: seq<real>)
    requires |rs| > 0
    ensures Mean(Deviations(rs, Mean(rs))) >= 0.0
    ensures Mean(Deviations(rs, Mean(rs))) == 0.0 <==> Constant(rs)
  {
    var ds := Deviations(rs, Mean(rs));
    SumBoundsElements(ds);
    SumZero(ds);
    if Constant(rs) {
      MeanConstant(rs, rs[0]);
    } else {
      var k :| 0 <= k < |rs| && rs[k] != rs[0];
      assert ds[k] != 0.0 || ds[0] != 0.0;
    }
  }

  /** The stroke's spread is non-negative, and zero exactly when every point
      is equally far from the centroid. */
  lemma StdDevFacts(ps: seq<Point>, sqrt: real -> real)
    requires |ps| > 0 && IsSqrt(sqrt)
    ensures StdDev(ps, sqrt) >= 0.0
    ensures StdDev(ps, sqrt) == 0.0 <==> Constant(Radii(ps, sqrt))
  {
    var rs := Radii(ps, sqrt);
    VarianceZeroIffConstant(rs);
    SqrtZero(sqrt, Mean(Deviations(rs, Mean(rs))));
  }

  /** `Math.max(0, 100 - (err / size) * weight)`: full marks for no error,
      falling linearly with the error relative to the stroke's size. */
  function Penalized(err: real, size: real, weight: real): real
    requires size != 0.0
  {
    Max(0.0, 100.0 - (err / size) * weight)
  }

  lemma PenalizedRange(err: real, size: real, weight: real)
    requires err >= 0.0 && size > 0.0 && weight > 0.0
    ensures 0.0 <= Penalized(err, size, weight) <= 100.0
    ensures Penalized(err, size, weight) == 100.0 <==> err == 0.0
    ensures err >= size && weight >= 100.0 ==> Penalized(err, size, weight) == 0.0
  {
    var ratio := err / size;
    assert ratio >= 0.0;
    assert ratio == 0.0 <==> err == 0.0;
    if err >= size {
      assert ratio >= 1.0;
      if weight >= 100.0 {
        assert ratio * weight >= weight;
      }
    }
    if ratio > 0.0 {
      assert ratio * weight > 0.0;
    }
  }

  /** Regularity: 100 for equal radii, less the larger their spread relative
      to the mean radius. */
  function Regularity(ps: seq<Point>, sqrt: real -> real): (r: real)
    requires |ps| > 0 && IsSqrt(sqrt) && AvgRadius(ps, sqrt) > 0.0
    ensures 0.0 <= r <= 100.0
    ensures r == 100.0 <==> Constant(Radii(ps, sqrt))
  {
    StdDevFacts(ps, sqrt);
    PenalizedRange(StdDev(ps, sqrt), AvgRadius(ps, sqrt), 200.0);
    Penalized(StdDev(ps, sqrt), AvgRadius(ps, sqrt), 200.0)
  }

  /** Closure: 100 for a stroke that ends where it started, less the wider the
      gap relative to the mean radius; nothing once the gap reaches it. */
  function Closure(ps: seq<Point>, sqrt: real -> real): (r: real)
    requires |ps| > 0 && IsSqrt(sqrt) && AvgRadius(ps, sqrt) > 0.0
    ensures 0.0 <= r <= 100.0
    ensures r == 100.0 <==> ps[0] == ps[|ps| - 1]
    ensures ClosureDistance(ps, sqrt) >= AvgRadius(ps, sqrt) ==> r == 0.0
  {
    DistanceBelow(sqrt, ps[0], ps[|ps| - 1], 0.0);
    PenalizedRange(ClosureDistance(ps, sqrt), AvgRadius(ps, sqrt), 100.0);
    Penalized(ClosureDistance(ps, sqrt), AvgRadius(ps, sqrt), 100.0)
  }

  /** Point-count score: full marks inside the band 50 < n < 200; outside it
      the linear penalty `100 - 2|n - 100|` is never positive, so the score is
      0 or 100. */
  function CountScore(n: int): (r: int)
    ensures r == (if 50 < n < 200 then 100 else 0)
  {
    if n > 50 && n < 200 then 100
    else
      var dist := if n - 100 < 0 then 100 - n else n - 100;
      if 0 > 100 - dist * 2 then 0 else 100 - dist * 2
  }

  /** The weighted sum 0.5 regularity + 0.3 closure + 0.2 point count. */
  function Composite(ps: seq<Point>, sqrt: real -> real): (r: real)
    requires |ps| > 0 && IsSqrt(sqrt) && AvgRadius(ps, sqrt) > 0.0
    ensures 0.0 <= r <= 100.0
  {
    Regularity(ps, sqrt) * 0.5 + Closure(ps, sqrt) * 0.3 + (CountScore(|ps|) as real) * 0.2
  }

  /** `Math.round`: the nearest integer, halves rounded up. */
  function Round(v: real): (r: int)
    ensures v - 0.5 < r as real <= v + 0.5
  {
    (v + 0.5).Floor
  }

  /** `Math.max(1, Math.min(100, v))`. */
  function Clamp(v: real): (r: real)
    ensures 1.0 <= r <= 100.0
    ensures 1.0 <= v <= 100.0 ==> r == v
    ensures v < 1.0 ==> r == 1.0
    ensures v > 100.0 ==> r == 100.0
  {
    Max(1.0, Min(100.0, v))
  }

  /** `calculateCircleScore`: 0 for fewer than `MinPoints` points, otherwise
      an integer in [1, 100]. The source divides by the mean radius without a
      guard, so a scored stroke must have a positive one. */
  function CircleScore(ps: seq<Point>, sqrt: real -> real): (r: int)
    requires |ps| >= MinPoints ==> IsSqrt(sqrt) && AvgRadius(ps, sqrt) > 0.0
    ensures |ps| < MinPoints ==> r == 0
    ensures |ps| >= MinPoints ==> 1 <= r <= 100
    ensures |ps| >= MinPoints && Composite(ps, sqrt) >= 1.0 ==>
      Composite(ps, sqrt) - 0.5 < r as real <= Composite(ps, sqrt) + 0.5
    ensures |ps| >= MinPoints && Composite(ps, sqrt) < 1.0 ==> r == 1
  {
    if |ps| < MinPoints then 0
    else Round(Clamp(Composite(ps, sqrt)))
  }

  /** A stroke kept by the sampler has a positive mean radius once it has two
      points: they are 3 apart, so they cannot both sit on the centroid. This
      is what makes the source's unguarded divisions well defined. */
  lemma SpacedStrokeHasPositiveRadius(ps: seq<Point>, sqrt: real -> real)
    requires IsSqrt(sqrt)
    requires |ps| >= 2 && Sampler.Spaced(ps)
    ensures AvgRadius(ps, sqrt) > 0.0
  {
    assert Sampler.FarEnough(ps[0], ps[1]);
    SqDistZero(ps[0], ps[1]);
    var k := if ps[0] != Centroid(ps) then 0 else 1;
    OffCentrePointHasPositiveRadius(ps, sqrt, k);
    PositiveElementPositiveMean(Radii(ps, sqrt), k);
  }

  lemma OffCentrePointHasPositiveRadius(ps: seq<Point>, sqrt: real -> real, k: nat)
    requires IsSqrt(sqrt)
    requires k < |ps| && ps[k] != Centroid(ps)
    ensures NonNegative(Radii(ps, sqrt))
    ensures Radii(ps, sqrt)[k] > 0.0
  {
    var c := Centroid(ps);
    SqDistZero(c, ps[k]);
    DistanceBelow(sqrt, c, ps[k], 0.0);
    assert Radii(ps, sqrt)[k] == Distance(c, ps[k], sqrt);
  }

  lemma PositiveElementPositiveMean(xs: seq<real>, k: nat)
    requires NonNegative(xs) && k < |xs| && xs[k] > 0.0
    ensures Mean(xs) > 0.0
  {
    SumBoundsElements(xs);
  }

  /** A closed stroke of equal radii with 51 to 199 points scores 100. */
  lemma ClosedRoundStrokeScoresFull(ps: seq<Point>, sqrt: real -> real)
    requires IsSqrt(sqrt)
    requires 50 < |ps| < 200 && AvgRadius(ps, sqrt) > 0.0
    requires Constant(Radii(ps, sqrt)) && ps[0] == ps[|ps| - 1]
    ensures CircleScore(ps, sqrt) == 100
  {
    assert Composite(ps, sqrt) == 100.0;
  }

  /** A stroke whose end is at least one mean radius away from its start gets
      no closure points and so scores at most 70. */
  lemma OpenStrokeScoresAtMost70(ps: seq<Point>, sqrt: real -> real)
    requires IsSqrt(sqrt)
    requires |ps| >= MinPoints && AvgRadius(ps, sqrt) > 0.0
    requires ClosureDistance(ps, sqrt) >= AvgRadius(ps, sqrt)
    ensures CircleScore(ps, sqrt) <= 70
  {
  }

  /** A stroke with at most 50 or at least 200 points gets no point-count
      points and so scores at most 80. */
  lemma BadPointCountScoresAtMost80(ps: seq<Point>, sqrt: real -> real)
    requires IsSqrt(sqrt)
    requires |ps| >= MinPoints && AvgRadius(ps, sqrt) > 0.0
    requires |ps| <= 50 || |ps| >= 200
    ensures CircleScore(ps, sqrt) <= 80
  {
  }
}
