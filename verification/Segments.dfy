/** Points, tracks and the clamped point-to-segment distance. The source compares that distance
    with half a swath and does nothing else with it, so the model keeps its square and never takes
    a root. */
module Segments {
  import opened RealMath

  datatype Point = Point(x: real, y: real)

  type Line = seq<Point>

  datatype Track = Track(runId: nat, lines: seq<Line>, swath: real)

  function NormSquared(x: real, y: real): (n: real)
    ensures n >= 0.0
    ensures x != 0.0 || y != 0.0 ==> n > 0.0
  {
    SquareNonNegative(x);
    SquareNonNegative(y);
    assert x != 0.0 ==> Square(x) > 0.0 by { if x != 0.0 { SquarePositive(x); } }
    assert y != 0.0 ==> Square(y) > 0.0 by { if y != 0.0 { SquarePositive(y); } }
    Square(x) + Square(y)
  }

  function DistanceSquared(a: Point, b: Point): (d: real)
    ensures d >= 0.0
  {
    NormSquared(a.x - b.x, a.y - b.y)
  }

  /** The point a fraction `s` of the way from `a` to `b`. */
  function Along(a: Point, b: Point, s: real): Point {
    Point(a.x + s * (b.x - a.x), a.y + s * (b.y - a.y))
  }

  function InnerProduct(p: Point, a: Point, b: Point): real {
    Times(p.x - a.x, b.x - a.x) + Times(p.y - a.y, b.y - a.y)
  }

  /** The clamped projection parameter of `p` on the segment from `a` to `b`. */
  function Projection(p: Point, a: Point, b: Point): real
    requires a != b
  {
    assert a.x != b.x || a.y != b.y;
    Max(0.0, Min(1.0, InnerProduct(p, a, b) / DistanceSquared(b, a)))
  }

  function SegmentDistanceSquared(p: Point, a: Point, b: Point): real {
    if a == b then DistanceSquared(p, a) else DistanceSquared(p, Along(a, b, Projection(p, a, b)))
  }

  /** The test `pointSegmentDistance(p, a, b) <= swath/2`, root free. */
  predicate Near(p: Point, a: Point, b: Point, swath: real) {
    swath >= 0.0 && SegmentDistanceSquared(p, a, b) <= Square(swath / 2.0)
  }

  /** The part of the squared distance that varies along a segment: `n` is the inner product with
      the leg to the point, `d` the squared length. */
  function Parabola(s: real, n: real, d: real): real {
    Times(Square(s), d) - 2.0 * Times(s, n)
  }

  lemma ShiftedSquare(u: real, d: real, s: real)
    ensures Square(u - s * d) == Square(u) - 2.0 * Times(s, Times(u, d)) + Times(Square(s), Square(d))
  {
    SquareOfSum(u, Times(s, d));
    TimesRegroup(s, d, u);
    TimesRegroup(s, u, d);
    TimesRegroup(u, d, s);
  }

  lemma ShiftedNorm(u: real, v: real, dx: real, dy: real, s: real)
    ensures NormSquared(u - s * dx, v - s * dy)
         == NormSquared(u, v) + Parabola(s, Times(u, dx) + Times(v, dy), NormSquared(dx, dy))
  {
    ShiftedSquare(u, dx, s);
    ShiftedSquare(v, dy, s);
    hide Times, Square;
    TimesLinear(Times(u, dx), Times(v, dy), s);
    TimesLinear(Square(dx), Square(dy), Square(s));
  }

  /** Squared distance to a point of the segment, as a quadratic in its parameter. */
  lemma DistanceAlong(p: Point, a: Point, b: Point, s: real)
    ensures DistanceSquared(p, Along(a, b, s))
         == DistanceSquared(p, a) + Parabola(s, InnerProduct(p, a, b), DistanceSquared(b, a))
  {
    hide NormSquared, Parabola, Times;
    var q := Along(a, b, s);
    var u, v, dx, dy := p.x - a.x, p.y - a.y, b.x - a.x, b.y - a.y;
    var ex, ey := u - s * dx, v - s * dy;
    assert p.x - q.x == ex && p.y - q.y == ey;
    assert DistanceSquared(p, q) == NormSquared(ex, ey);
    ShiftedNorm(u, v, dx, dy, s);
  }

  lemma ParabolaDifference(s: real, t: real, q: real, n: real, d: real)
    requires n == Times(q, d)
    ensures Parabola(s, n, d) - Parabola(t, n, d) == Times(d, Times(s - t, s + t - 2.0 * q))
  {
    assert Times(s, n) == s * q * d && Times(t, n) == t * q * d;
  }

  /** The clamped vertex of the parabola is its minimum over the unit interval. */
  lemma ClampedVertex(n: real, d: real, s: real)
    requires d > 0.0 && 0.0 <= s <= 1.0
    ensures Parabola(Max(0.0, Min(1.0, n / d)), n, d) <= Parabola(s, n, d)
  {
    hide Parabola, Times;
    var q := n / d;
    QuotientBack(n, d);
    var t := Max(0.0, Min(1.0, q));
    ParabolaDifference(s, t, q, n, d);
    assert Times(s - t, s + t - 2.0 * q) >= 0.0 by {
      if q <= 0.0 {
        TimesNonNegative(s, s - 2.0 * q);
      } else if q >= 1.0 {
        TimesNonNegative(1.0 - s, 2.0 * q - s - 1.0);
        NegateBoth(1.0 - s, 2.0 * q - s - 1.0);
      } else {
        SquareNonNegative(s - q);
        SquareIsTimes(s - q);
      }
    }
    TimesNonNegative(d, Times(s - t, s + t - 2.0 * q));
  }

  lemma NegateBoth(a: real, b: real)
    ensures Times(-a, -b) == Times(a, b)
  {
  }

  lemma SquareIsTimes(a: real)
    ensures Square(a) == Times(a, a)
  {
  }

  /** No point of the segment is closer than the distance the source computes. */
  lemma NearestOnSegment(p: Point, a: Point, b: Point, s: real)
    requires 0.0 <= s <= 1.0
    ensures SegmentDistanceSquared(p, a, b) <= DistanceSquared(p, Along(a, b, s))
  {
    hide Parabola, InnerProduct, DistanceSquared;
    if a == b {
      assert Along(a, b, s) == a;
    } else {
      DistinctPoints(a, b);
      ClampedVertex(InnerProduct(p, a, b), DistanceSquared(b, a), s);
      DistanceAlong(p, a, b, s);
      DistanceAlong(p, a, b, Projection(p, a, b));
    }
  }

  lemma DistinctPoints(a: Point, b: Point)
    requires a != b
    ensures DistanceSquared(b, a) > 0.0
  {
    assert a.x != b.x || a.y != b.y;
  }

  /** That distance is attained at a point of the segment. */
  lemma NearestAttained(p: Point, a: Point, b: Point) returns (s: real)
    ensures 0.0 <= s <= 1.0
    ensures SegmentDistanceSquared(p, a, b) == DistanceSquared(p, Along(a, b, s))
  {
    if a == b {
      s := 0.0;
      assert Along(a, b, s) == a;
    } else {
      s := Projection(p, a, b);
    }
  }

  lemma NearestBothWays(p: Point, a: Point, b: Point)
    ensures SegmentDistanceSquared(p, b, a) <= SegmentDistanceSquared(p, a, b)
  {
    hide SegmentDistanceSquared, DistanceSquared;
    var s := NearestAttained(p, a, b);
    assert Along(b, a, 1.0 - s) == Along(a, b, s);
    NearestOnSegment(p, b, a, 1.0 - s);
  }

  /** Flying a segment the other way round changes no distance. */
  lemma SegmentDistanceSymmetric(p: Point, a: Point, b: Point)
    ensures SegmentDistanceSquared(p, a, b) == SegmentDistanceSquared(p, b, a)
  {
    hide SegmentDistanceSquared;
    NearestBothWays(p, a, b);
    NearestBothWays(p, b, a);
  }

  /** The meaning of `Near`: some point of the segment lies within half a swath. */
  lemma NearMeansWithinReach(p: Point, a: Point, b: Point, swath: real)
    ensures Near(p, a, b, swath) <==>
            swath >= 0.0 &&
            exists s :: 0.0 <= s <= 1.0 && DistanceSquared(p, Along(a, b, s)) <= Square(swath / 2.0)
  {
    hide SegmentDistanceSquared, DistanceSquared, Square, Along;
    if Near(p, a, b, swath) {
      var s := NearestAttained(p, a, b);
      assert 0.0 <= s <= 1.0 && DistanceSquared(p, Along(a, b, s)) <= Square(swath / 2.0);
    }
    if s :| swath >= 0.0 && 0.0 <= s <= 1.0 && DistanceSquared(p, Along(a, b, s)) <= Square(swath / 2.0) {
      NearestOnSegment(p, a, b, s);
    }
  }

  /** A wider swath reaches every point a narrower one does. */
  lemma NearWidens(p: Point, a: Point, b: Point, narrow: real, wide: real)
    requires narrow <= wide && Near(p, a, b, narrow)
    ensures Near(p, a, b, wide)
  {
    hide SegmentDistanceSquared, Square;
    SquareOrder(narrow / 2.0, wide / 2.0);
  }

  /** Two legs no longer than `m` and `n` span no more than `m + n`: the triangle inequality
      without a root. */
  lemma Triangle(a: Point, b: Point, c: Point, m: real, n: real)
    requires m >= 0.0 && n >= 0.0
    requires DistanceSquared(a, b) <= Square(m)
    requires DistanceSquared(b, c) <= Square(n)
    ensures DistanceSquared(a, c) <= Square(m + n)
  {
    var ux, uy, vx, vy := a.x - b.x, a.y - b.y, b.x - c.x, b.y - c.y;
    assert a.x - c.x == ux + vx && a.y - c.y == uy + vy;
    hide Square, Times;
    InnerProductBound(ux, uy, vx, vy, m, n);
    SquareOfSum(ux, vx);
    SquareOfSum(uy, vy);
    SquareOfSum(m, n);
  }

  /** Cauchy and Schwarz. */
  lemma InnerProductBound(ux: real, uy: real, vx: real, vy: real, m: real, n: real)
    requires m >= 0.0 && n >= 0.0
    requires NormSquared(ux, uy) <= Square(m)
    requires NormSquared(vx, vy) <= Square(n)
    ensures Times(ux, vx) + Times(uy, vy) <= Times(m, n)
  {
    hide Times, Square, NormSquared;
    var dot := Times(ux, vx) + Times(uy, vy);
    Lagrange(ux, uy, vx, vy);
    SquareNonNegative(Times(ux, vy) - Times(uy, vx));
    TimesMonotone(NormSquared(ux, uy), Square(m), NormSquared(vx, vy));
    SquareNonNegative(m);
    TimesMonotone(NormSquared(vx, vy), Square(n), Square(m));
    TimesRegroup(m, n, 0.0);
    TimesNonNegative(m, n);
    if dot > 0.0 {
      SquareOrder(dot, Times(m, n));
    }
  }

  lemma Lagrange(ux: real, uy: real, vx: real, vy: real)
    ensures Square(Times(ux, vx) + Times(uy, vy)) + Square(Times(ux, vy) - Times(uy, vx))
         == Times(NormSquared(ux, uy), NormSquared(vx, vy))
  {
    hide Times, Square;
    SquareOfSum(Times(ux, vx), Times(uy, vy));
    SquareOfSum(Times(ux, vy), Times(uy, vx));
    CrossTerms(ux, uy, vx, vy);
    TimesRegroup(ux, vx, 0.0);
    TimesRegroup(uy, vy, 0.0);
    TimesRegroup(ux, vy, 0.0);
    TimesRegroup(uy, vx, 0.0);
    var u, v := NormSquared(ux, uy), NormSquared(vx, vy);
    TimesLinear(Square(ux), Square(uy), v);
    TimesLinear(u, 0.0, v);
    TimesLinear(Square(vx), Square(vy), Square(ux));
    TimesLinear(Square(vx), Square(vy), Square(uy));
    TimesLinear(Square(ux), 0.0, v);
    TimesLinear(Square(uy), 0.0, v);
  }

  lemma CrossTerms(ux: real, uy: real, vx: real, vy: real)
    ensures Times(Times(ux, vx), Times(uy, vy)) == Times(Times(ux, vy), Times(uy, vx))
  {
  }
}
