/** Laws of rings: containment stays within bounds, accepted polygons have extent, and cutting,
    rotating or reversing a ring changes containment and area as a region would. */
module RingLaws {
  import opened RealMath
  import opened Segments
  import opened Rings

  // ---- One edge, either way round ----

  /** How far along the edge the horizontal through `p` meets it. */
  function Fraction(a: Point, b: Point, p: Point): real
    requires a.y != b.y
  {
    (p.y - a.y) / (b.y - a.y)
  }

  lemma EdgeXIsAlong(a: Point, b: Point, p: Point)
    requires a.y != b.y
    ensures EdgeX(a, b, p) == a.x + Times(b.x - a.x, Fraction(a, b, p))
  {
    ScaledQuotient(b.x - a.x, p.y - a.y, b.y - a.y);
  }

  lemma ScaledQuotient(k: real, n: real, d: real)
    requires d != 0.0
    ensures k * n / d == Times(k, n / d)
  {
    var q := n / d;
    assert q * d == n;
    assert k * n == k * q * d;
  }

  lemma FractionFlips(a: Point, b: Point, p: Point)
    requires a.y != b.y
    ensures Fraction(b, a, p) == 1.0 - Fraction(a, b, p)
  {
    var n, d := p.y - a.y, b.y - a.y;
    QuotientBack(n, d);
    hide Times;
    TimesLinear(1.0, n / d, a.y - b.y);
    TimesLinear(1.0 - n / d, 0.0, a.y - b.y);
    TimesLinear(n / d, 0.0, a.y - b.y);
    TimesNegate(n / d, d);
    TimesUnits(a.y - b.y);
    assert -d == a.y - b.y;
    QuotientIs(p.y - b.y, a.y - b.y, 1.0 - n / d);
  }

  lemma FractionInUnit(a: Point, b: Point, p: Point)
    requires Straddles(a, b, p)
    ensures 0.0 <= Fraction(a, b, p) <= 1.0
  {
    if a.y < b.y {
      UnitQuotient(p.y - a.y, b.y - a.y);
    } else {
      UnitQuotient(p.y - b.y, a.y - b.y);
      FractionFlips(b, a, p);
    }
  }

  /** Walking an edge the other way round changes no crossing. */
  lemma CrossesSymmetric(a: Point, b: Point, p: Point)
    ensures Crosses(a, b, p) == Crosses(b, a, p)
  {
    if Straddles(a, b, p) {
      hide Times, EdgeX, Fraction;
      EdgeXIsAlong(a, b, p);
      EdgeXIsAlong(b, a, p);
      FractionFlips(a, b, p);
      var f := Fraction(a, b, p);
      TimesLinear(1.0, f, a.x - b.x);
      TimesUnits(a.x - b.x);
      TimesNegate(a.x - b.x, f);
      assert -(a.x - b.x) == b.x - a.x;
    }
  }

  /** The meeting point of a straddled horizontal lies between the edge's ends. */
  lemma EdgeXBetween(a: Point, b: Point, p: Point)
    requires Straddles(a, b, p)
    ensures Min(a.x, b.x) <= EdgeX(a, b, p) <= Max(a.x, b.x)
  {
    hide EdgeX, Fraction, Times;
    EdgeXIsAlong(a, b, p);
    FractionInUnit(a, b, p);
    var d, f := b.x - a.x, Fraction(a, b, p);
    TimesUnits(d);
    if d >= 0.0 {
      TimesMonotone(f, 1.0, d);
      TimesNonNegative(d, f);
    } else {
      TimesMonotone(f, 1.0, -d);
      TimesNonNegative(-d, f);
      TimesNegate(d, f);
      TimesNegate(d, 1.0);
    }
  }

  // ---- Joining and reversing paths ----

  /** `left` followed by `right`, sharing the vertex where they meet. */
  function Join(left: seq<Point>, right: seq<Point>): seq<Point>
    requires right != []
  {
    left + right[1..]
  }

  lemma {:induction false} JoinedPath(left: seq<Point>, right: seq<Point>, p: Point)
    requires left != [] && right != [] && left[|left| - 1] == right[0]
    ensures PathParity(Join(left, right), p) == (PathParity(left, p) != PathParity(right, p))
    ensures PathSweep(Join(left, right)) == PathSweep(left) + PathSweep(right)
  {
    hide Crosses, Cross;
    var path, n := Join(left, right), |right|;
    if n == 1 {
      assert path == left;
    } else {
      var front := right[..n - 1];
      JoinedPath(left, front, p);
      assert path[..|path| - 1] == Join(left, front);
      assert path[|path| - 1] == right[n - 1] && path[|path| - 2] == right[n - 2];
    }
  }

  function Reversed(path: seq<Point>): (r: seq<Point>)
    ensures |r| == |path|
    ensures forall i :: 0 <= i < |path| ==> r[i] == path[|path| - 1 - i]
  {
    if path == [] then [] else [path[|path| - 1]] + Reversed(path[..|path| - 1])
  }

  lemma EdgePath(a: Point, b: Point, p: Point)
    ensures PathParity([a, b], p) == Crosses(a, b, p)
    ensures PathSweep([a, b]) == Cross(a, b)
  {
    hide Crosses, Cross;
    assert [a, b][..1] == [a];
    assert PathParity([a, b], p) == Crosses(b, a, p);
    CrossesSymmetric(a, b, p);
  }

  lemma {:induction false} ReversedPath(path: seq<Point>, p: Point)
    ensures PathParity(Reversed(path), p) == PathParity(path, p)
    ensures PathSweep(Reversed(path)) == -PathSweep(path)
  {
    hide Crosses, Cross;
    var n := |path|;
    if n >= 2 {
      var front := path[..n - 1];
      ReversedPath(front, p);
      var head := [path[n - 1], path[n - 2]];
      assert Reversed(path) == Join(head, Reversed(front));
      JoinedPath(head, Reversed(front), p);
      EdgePath(path[n - 1], path[n - 2], p);
      CrossAntisymmetric(path[n - 2], path[n - 1]);
    }
  }

  lemma CrossAntisymmetric(a: Point, b: Point)
    ensures Cross(b, a) == -Cross(a, b)
  {
  }

  // ---- Ring laws ----

  /** Starting the vertex list elsewhere changes neither containment nor area. */
  lemma RotationInvariant(ring: Ring, k: nat, p: Point)
    requires k < |ring|
    ensures InsideRing(ring[k..] + ring[..k], p) == InsideRing(ring, p)
    ensures SignedArea(ring[k..] + ring[..k]) == SignedArea(ring)
  {
    hide PathParity, PathSweep;
    var left, right := ring[..k + 1], ring[k..] + [ring[0]];
    assert Closed(ring) == Join(left, right);
    assert Closed(ring[k..] + ring[..k]) == Join(right, left);
    JoinedPath(left, right, p);
    JoinedPath(right, left, p);
  }

  /** Reversing the vertex list keeps containment and flips the sign of the area. */
  lemma ReversalInvariant(ring: Ring, p: Point)
    ensures InsideRing(Reversed(ring), p) == InsideRing(ring, p)
    ensures SignedArea(Reversed(ring)) == -SignedArea(ring)
    ensures Abs(SignedArea(Reversed(ring))) == Abs(SignedArea(ring))
  {
    hide PathParity, PathSweep, Reversed;
    var n := |ring|;
    if n > 0 {
      var back := Reversed(ring);
      RotationInvariant(back, n - 1, p);
      var turned := back[n - 1..] + back[..n - 1];
      assert Closed(turned) == Reversed(Closed(ring));
      ReversedPath(Closed(ring), p);
    }
  }

  /** Cutting a ring along the chord between two of its vertices: every point is inside the whole
      exactly when it is inside one part and not the other, and the signed areas add up. */
  lemma ChordSplits(ring: Ring, i: nat, j: nat, p: Point)
    requires i < j < |ring|
    ensures var left, right := ring[i..j + 1], ring[..i + 1] + ring[j..];
            InsideRing(ring, p) == (InsideRing(left, p) != InsideRing(right, p)) &&
            SignedArea(ring) == SignedArea(left) + SignedArea(right)
  {
    hide PathParity, PathSweep, Crosses, Cross;
    var left, right := ring[i..j + 1], ring[..i + 1] + ring[j..];
    var first, last := ring[..i + 1], ring[j..] + [ring[0]];
    assert Closed(ring) == Join(Join(first, left), last);
    JoinedPath(first, left, p);
    JoinedPath(Join(first, left), last, p);
    assert Closed(left) == Join(left, [ring[j], ring[i]]);
    JoinedPath(left, [ring[j], ring[i]], p);
    assert Closed(right) == Join(Join(first, [ring[i], ring[j]]), last);
    JoinedPath(first, [ring[i], ring[j]], p);
    JoinedPath(Join(first, [ring[i], ring[j]]), last, p);
    EdgePath(ring[i], ring[j], p);
    EdgePath(ring[j], ring[i], p);
    CrossesSymmetric(ring[i], ring[j], p);
    CrossAntisymmetric(ring[i], ring[j]);
  }

  /** Repeating the first vertex at the end, or leaving it out, makes no difference. */
  lemma ClosingVertexIrrelevant(ring: Ring, p: Point)
    requires ring != []
    ensures InsideRing(ring + [ring[0]], p) == InsideRing(ring, p)
    ensures SignedArea(ring + [ring[0]]) == SignedArea(ring)
  {
    var path := Closed(ring + [ring[0]]);
    assert path[..|path| - 1] == Closed(ring);
    assert path[|path| - 1] == ring[0] && path[|path| - 2] == ring[0];
    hide PathParity, PathSweep, Cross;
    PathStep(path, p);
    CrossAntisymmetric(ring[0], ring[0]);
  }

  lemma PathStep(path: seq<Point>, p: Point)
    requires |path| >= 2
    ensures PathParity(path, p) == (PathParity(path[..|path| - 1], p) != Crosses(path[|path| - 1], path[|path| - 2], p))
    ensures PathSweep(path) == PathSweep(path[..|path| - 1]) + Cross(path[|path| - 2], path[|path| - 1])
  {
  }

  function Shifted(path: seq<Point>, dx: real, dy: real): (r: seq<Point>)
    ensures |r| == |path|
  {
    seq(|path|, i requires 0 <= i < |path| => Point(path[i].x + dx, path[i].y + dy))
  }

  lemma {:induction false} ShiftedSweep(path: seq<Point>, dx: real, dy: real)
    requires path != []
    ensures PathSweep(Shifted(path, dx, dy)) == PathSweep(path)
              + Times(dx, path[|path| - 1].y - path[0].y) - Times(dy, path[|path| - 1].x - path[0].x)
  {
    hide Cross, Times;
    var n := |path|;
    if n == 1 {
      TimesUnits(dx);
      TimesUnits(dy);
    } else {
      var front := path[..n - 1];
      ShiftedSweep(front, dx, dy);
      assert Shifted(path, dx, dy)[..n - 1] == Shifted(front, dx, dy);
      var a, b := path[n - 2], path[n - 1];
      ShiftedCross(a, b, dx, dy);
      TimesLinear(b.y - a.y, a.y - path[0].y, dx);
      TimesLinear(b.x - a.x, a.x - path[0].x, dy);
    }
  }

  lemma ShiftedCross(a: Point, b: Point, dx: real, dy: real)
    ensures Cross(Point(a.x + dx, a.y + dy), Point(b.x + dx, b.y + dy))
         == Cross(a, b) + Times(dx, b.y - a.y) - Times(dy, b.x - a.x)
  {
  }

  /** Area does not depend on where the origin is. */
  lemma TranslationInvariant(ring: Ring, dx: real, dy: real)
    ensures SignedArea(Shifted(ring, dx, dy)) == SignedArea(ring)
  {
    hide PathSweep, Times;
    if ring != [] {
      assert Closed(Shifted(ring, dx, dy)) == Shifted(Closed(ring), dx, dy);
      ShiftedSweep(Closed(ring), dx, dy);
      TimesUnits(dx);
      TimesUnits(dy);
    }
  }

  // ---- Containment implies bounds ----

  /** Parity of the path edges that straddle the horizontal through `p`. */
  predicate PathStraddles(path: seq<Point>, p: Point) {
    |path| >= 2 &&
    (PathStraddles(path[..|path| - 1], p) != Straddles(path[|path| - 1], path[|path| - 2], p))
  }

  /** Straddling telescopes, so a closed ring straddles an even number of times. */
  lemma {:induction false} StraddlesTelescope(path: seq<Point>, p: Point)
    requires path != []
    ensures PathStraddles(path, p) == Straddles(path[0], path[|path| - 1], p)
  {
    if |path| >= 2 {
      StraddlesTelescope(path[..|path| - 1], p);
    }
  }

  /** A point left of every vertex is crossed by exactly the straddling edges. */
  lemma {:induction false} LeftOfAll(path: seq<Point>, p: Point)
    requires forall v :: v in path ==> p.x < v.x
    ensures PathParity(path, p) == PathStraddles(path, p)
  {
    if |path| >= 2 {
      var a, b := path[|path| - 1], path[|path| - 2];
      LeftOfAll(path[..|path| - 1], p);
      hide EdgeX;
      if Straddles(a, b, p) {
        EdgeXBetween(a, b, p);
      }
    }
  }

  /** A point not left of any vertex is crossed by no edge; nor is one no edge straddles. */
  lemma {:induction false} ClearOfAll(path: seq<Point>, p: Point)
    requires (forall v :: v in path ==> v.x <= p.x) || (forall v :: v in path ==> v.y <= p.y)
          || (forall v :: v in path ==> v.y > p.y)
    ensures !PathParity(path, p)
  {
    if |path| >= 2 {
      var a, b := path[|path| - 1], path[|path| - 2];
      ClearOfAll(path[..|path| - 1], p);
      hide EdgeX;
      if Straddles(a, b, p) {
        EdgeXBetween(a, b, p);
      }
    }
  }

  lemma InsideRingWithin(ring: Ring, p: Point, b: Bounds)
    requires InsideRing(ring, p)
    requires forall v :: v in ring ==> Within(v, b)
    ensures b.minX <= p.x < b.maxX && b.minY <= p.y < b.maxY
  {
    hide PathParity, PathStraddles;
    var path := Closed(ring);
    assert forall v :: v in path ==> Within(v, b);
    if p.x < b.minX {
      LeftOfAll(path, p);
      StraddlesTelescope(path, p);
    } else if p.x >= b.maxX || p.y < b.minY || p.y >= b.maxY {
      ClearOfAll(path, p);
    }
  }

  /** Whatever a polygon contains lies inside its bounds, clear of the right and upper sides. */
  lemma ContainedWithinBounds(polygon: Polygon, p: Point)
    requires polygon != [] && InsidePolygon(polygon, p)
    ensures BoundsOf(polygon).Some?
    ensures var b := BoundsOf(polygon).value;
            b.minX <= p.x < b.maxX && b.minY <= p.y < b.maxY
  {
    hide InsideRing, PointBounds;
    var points := AllPoints(polygon);
    BoundsAreTight(points);
    NonEmptyInside(polygon[0], p);
    forall v | v in polygon[0] ensures v in points {
      PointsOfRing(polygon, 0, v);
    }
    assert polygon[0][0] in points;
    hide InsidePolygon, MeetsX, MeetsY, AllPoints;
    var b := BoundsOf(polygon).value;
    InsideRingWithin(polygon[0], p, b);
  }

  lemma NonEmptyInside(ring: Ring, p: Point)
    requires InsideRing(ring, p)
    ensures ring != []
  {
  }

  // ---- Accepted polygons have extent ----

  /** A path along one vertical, or along one horizontal, sweeps as its end points alone tell. */
  lemma {:induction false} FlatSweep(path: seq<Point>, c: real)
    requires path != []
    ensures (forall v :: v in path ==> v.x == c) ==> PathSweep(path) == Times(c, path[|path| - 1].y - path[0].y)
    ensures (forall v :: v in path ==> v.y == c) ==> PathSweep(path) == Times(c, path[0].x - path[|path| - 1].x)
  {
    hide Cross, Times;
    var n := |path|;
    if n == 1 {
      TimesUnits(c);
    } else {
      var front := path[..n - 1];
      FlatSweep(front, c);
      var a, b := path[n - 2], path[n - 1];
      FlatCross(a, b, c);
      TimesLinear(b.y - a.y, a.y - path[0].y, c);
      TimesLinear(a.x - b.x, path[0].x - a.x, c);
      assert forall v :: v in front ==> v in path;
      assert a in path && b in path;
    }
  }

  lemma FlatCross(a: Point, b: Point, c: real)
    ensures a.x == c && b.x == c ==> Cross(a, b) == Times(c, b.y - a.y)
    ensures a.y == c && b.y == c ==> Cross(a, b) == Times(c, a.x - b.x)
  {
  }

  /** A ring with all its x equal, or all its y, has no area. */
  lemma FlatRingHasNoArea(ring: Ring, c: real)
    requires (forall v :: v in ring ==> v.x == c) || (forall v :: v in ring ==> v.y == c)
    ensures SignedArea(ring) == 0.0
  {
    hide PathSweep, Times;
    if ring != [] {
      FlatSweep(Closed(ring), c);
      TimesUnits(c);
    }
  }

  lemma {:induction false} TotalAreaNonNegative(rings: seq<Ring>)
    ensures TotalArea(rings) >= 0.0
  {
    if rings != [] {
      TotalAreaNonNegative(rings[..|rings| - 1]);
    }
  }

  /** Every polygon the parser accepts has positive width and height, so the coverage computation
      never finds its boundary without area. */
  lemma ValidHasExtent(polygon: Polygon)
    requires ValidPolygon(polygon)
    ensures BoundsOf(polygon).Some?
    ensures var b := BoundsOf(polygon).value; b.minX < b.maxX && b.minY < b.maxY
  {
    hide SignedArea, PointBounds;
    var points := AllPoints(polygon);
    BoundsAreTight(points);
    TotalAreaNonNegative(polygon[1..]);
    forall v | v in polygon[0] ensures v in points {
      PointsOfRing(polygon, 0, v);
    }
    assert polygon[0][0] in points;
    hide MeetsX, MeetsY, AllPoints;
    var b := BoundsOf(polygon).value;
    assert forall v :: v in polygon[0] ==> Within(v, b);
    assert Within(polygon[0][0], b);
    if b.minX == b.maxX {
      FlatRingHasNoArea(polygon[0], b.minX);
    } else if b.minY == b.maxY {
      FlatRingHasNoArea(polygon[0], b.minY);
    }
  }

  // ---- Holes ----

  /** The point where a straddled horizontal meets an edge is a point of the edge. */
  lemma EdgeXOnEdge(a: Point, b: Point, p: Point)
    requires Straddles(a, b, p)
    ensures exists s :: 0.0 <= s <= 1.0 && Along(a, b, s) == Point(EdgeX(a, b, p), p.y)
  {
    var s := Fraction(a, b, p);
    FractionInUnit(a, b, p);
    EdgeXIsAlong(a, b, p);
    QuotientBack(p.y - a.y, b.y - a.y);
    assert Along(a, b, s) == Point(EdgeX(a, b, p), p.y);
  }

  /** A further hole takes away exactly the points inside its ring, and its area as far as there is any. */
  lemma HoleTakesAway(polygon: Polygon, hole: Ring, p: Point)
    requires polygon != []
    ensures InsidePolygon(polygon + [hole], p) <==> InsidePolygon(polygon, p) && !InsideRing(hole, p)
    ensures AreaOf(polygon + [hole]) == Max(AreaOf(polygon) - Abs(SignedArea(hole)), 0.0)
  {
    hide InsideRing, SignedArea;
    var more := polygon + [hole];
    assert more[|polygon|] == hole;
    assert forall i :: 0 <= i < |polygon| ==> more[i] == polygon[i];
    assert more[1..][..|more[1..]| - 1] == polygon[1..];
    TotalAreaNonNegative(polygon[1..]);
  }

  /** Without holes the polygon is its ring. */
  lemma OneRing(ring: Ring, p: Point)
    ensures InsidePolygon([ring], p) <==> InsideRing(ring, p)
    ensures AreaOf([ring]) == Abs(SignedArea(ring))
  {
    hide InsideRing, SignedArea;
    assert [ring][1..] == [];
  }
}
