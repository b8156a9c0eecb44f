/** Plane geometry shared by the stroke sampler and the circle scorer.

    Coordinates are exact reals. `Math.sqrt` is not given a body here: every
    operation that needs a square root takes it as a parameter `sqrt`, and the
    facts about it that the proofs use are exactly those of `IsSqrt`.
 */
module Geometry {

  /** A pointer position in canvas-local coordinates. */
  datatype Point = Point(x: real, y: real)

  /** True when `sqrt` behaves as the square root on the non-negative reals. */
  ghost predicate IsSqrt(sqrt: real -> real) {
    forall v: real :: 0.0 <= v ==> 0.0 <= sqrt(v) && Sq(sqrt(v)) == v
  }

  /** `Math.min` and `Math.max` on reals. */
  function Min(a: real, b: real): real { if a < b then a else b }

  function Max(a: real, b: real): real { if a > b then a else b }

  /** The square of a real, `Math.pow(a, 2)` in the source. */
  function Sq(a: real): real {
    a * a
  }

  lemma PositiveProduct(a: real, b: real)
    requires a > 0.0 && b > 0.0
    ensures a * b > 0.0
  {
  }

  /** A square vanishes only at zero. */
  lemma SqZero(a: real)
    ensures Sq(a) >= 0.0
    ensures Sq(a) == 0.0 <==> a == 0.0
  {
    if a != 0.0 {
      assert a * (1.0 / a) == 1.0;
      assert Sq(a) * (1.0 / a) == a;
    }
  }

  /** Squaring is strictly increasing on the non-negative reals. */
  lemma SqStrictMono(s: real, k: real)
    requires 0.0 <= s < k
    ensures Sq(s) < Sq(k)
  {
    var d := k - s;
    assert k == s + d;
    assert Sq(k) == Sq(s) + 2.0 * s * d + Sq(d);
    PositiveProduct(d, d);
  }

  /** Squared Euclidean distance, `(q.x - p.x)^2 + (q.y - p.y)^2`. */
  function SqDist(p: Point, q: Point): (d: real)
    ensures d >= 0.0
  {
    Sq(q.x - p.x) + Sq(q.y - p.y)
  }

  /** The squared distance is symmetric and vanishes exactly between equal points. */
  lemma SqDistZero(p: Point, q: Point)
    ensures SqDist(p, q) == SqDist(q, p)
    ensures SqDist(p, q) == 0.0 <==> p == q
  {
    SqZero(q.x - p.x);
    SqZero(q.y - p.y);
    assert Sq(q.x - p.x) == Sq(p.x - q.x);
    assert Sq(q.y - p.y) == Sq(p.y - q.y);
  }

  /** Euclidean distance, as the source computes it with `Math.sqrt`. */
  function Distance(p: Point, q: Point, sqrt: real -> real): real
  {
    sqrt(SqDist(p, q))
  }

  /** A square root is non-negative and zero exactly at zero. */
  lemma SqrtZero(sqrt: real -> real, v: real)
    requires IsSqrt(sqrt)
    requires 0.0 <= v
    ensures sqrt(v) >= 0.0
    ensures sqrt(v) == 0.0 <==> v == 0.0
  {
    SqZero(sqrt(v));
  }

  /** Comparing a square root with a non-negative bound is comparing the radicand with the bound's square. */
  lemma SqrtBelow(sqrt: real -> real, v: real, k: real)
    requires IsSqrt(sqrt)
    requires 0.0 <= v && 0.0 <= k
    ensures sqrt(v) < k <==> v < Sq(k)
  {
    var s := sqrt(v);
    assert 0.0 <= s && Sq(s) == v;
    if s < k {
      SqStrictMono(s, k);
    } else if k < s {
      SqStrictMono(k, s);
    }
  }

  /** Distance and squared distance agree on which points lie within `k`. */
  lemma DistanceBelow(sqrt: real -> real, p: Point, q: Point, k: real)
    requires IsSqrt(sqrt)
    requires 0.0 <= k
    ensures Distance(p, q, sqrt) >= 0.0
    ensures Distance(p, q, sqrt) < k <==> SqDist(p, q) < Sq(k)
    ensures Distance(p, q, sqrt) == 0.0 <==> p == q
  {
    SqrtBelow(sqrt, SqDist(p, q), k);
    SqrtZero(sqrt, SqDist(p, q));
    SqDistZero(p, q);
  }

  /** The midpoint of `p` and `q`, written as the source writes it: `p + (q - p) * 0.5`. */
  function Midpoint(p: Point, q: Point): (m: Point)
    ensures 2.0 * m.x == p.x + q.x && 2.0 * m.y == p.y + q.y
    ensures SqDist(p, m) == SqDist(m, q)
    ensures 4.0 * SqDist(p, m) == SqDist(p, q)
  {
    var m := Point(p.x + (q.x - p.x) * 0.5, p.y + (q.y - p.y) * 0.5);
    HalfSquare(q.x - p.x);
    HalfSquare(q.y - p.y);
    assert m.x - p.x == (q.x - p.x) * 0.5 == q.x - m.x;
    assert m.y - p.y == (q.y - p.y) * 0.5 == q.y - m.y;
    m
  }

  lemma HalfSquare(a: real)
    ensures 4.0 * Sq(a * 0.5) == Sq(a)
  {
  }
}
