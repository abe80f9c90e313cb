/** Rings and polygons: ray-cast containment, shoelace area and bounds, each as the source's loop
    proved against a recursive reading of the closed path. A ring may or may not repeat its first
    vertex at the end; the loops wrap by index either way. */
module Rings {
  import opened Outcome
  import opened RealMath
  import opened Segments

  type Ring = seq<Point>

  type Polygon = seq<Ring>

  datatype Bounds = Bounds(minX: real, minY: real, maxX: real, maxY: real)

  // ---- One edge ----

  predicate Straddles(a: Point, b: Point, p: Point) {
    (a.y > p.y) != (b.y > p.y)
  }

  /** Where the edge meets the horizontal through `p`. */
  function EdgeX(a: Point, b: Point, p: Point): real
    requires a.y != b.y
  {
    (b.x - a.x) * (p.y - a.y) / (b.y - a.y) + a.x
  }

  /** The ray from `p` towards larger x crosses the edge. */
  predicate Crosses(a: Point, b: Point, p: Point) {
    Straddles(a, b, p) && p.x < EdgeX(a, b, p)
  }

  function Cross(a: Point, b: Point): real {
    a.x * b.y - b.x * a.y
  }

  // ---- Paths and rings ----

  /** Parity of the number of path edges the ray from `p` crosses. */
  predicate PathParity(path: seq<Point>, p: Point) {
    |path| >= 2 &&
    (PathParity(path[..|path| - 1], p) != Crosses(path[|path| - 1], path[|path| - 2], p))
  }

  /** Twice the area the path sweeps about the origin. */
  function PathSweep(path: seq<Point>): real {
    if |path| < 2 then 0.0
    else PathSweep(path[..|path| - 1]) + Cross(path[|path| - 2], path[|path| - 1])
  }

  function Closed(ring: Ring): seq<Point>
    requires ring != []
  {
    ring + [ring[0]]
  }

  predicate InsideRing(ring: Ring, p: Point) {
    ring != [] && PathParity(Closed(ring), p)
  }

  function SignedArea(ring: Ring): real {
    if ring == [] then 0.0 else PathSweep(Closed(ring)) / 2.0
  }

  predicate InsidePolygon(polygon: Polygon, p: Point)
    requires polygon != []
  {
    InsideRing(polygon[0], p) && forall i :: 1 <= i < |polygon| ==> !InsideRing(polygon[i], p)
  }

  function TotalArea(rings: seq<Ring>): real {
    if rings == [] then 0.0
    else TotalArea(rings[..|rings| - 1]) + Abs(SignedArea(rings[|rings| - 1]))
  }

  /** Exterior less holes, never negative. */
  function AreaOf(polygon: Polygon): real {
    if polygon == [] then 0.0
    else Max(Abs(SignedArea(polygon[0])) - TotalArea(polygon[1..]), 0.0)
  }

  method RingContains(ring: Ring, p: Point) returns (inside: bool)
    ensures inside == InsideRing(ring, p)
  {
    inside := false;
    var current, previous := 0, |ring| - 1;
    while current < |ring|
      invariant 0 <= current <= |ring|
      invariant previous == if current == 0 then |ring| - 1 else current - 1
      invariant inside == (current > 0 && (PathParity(ring[..current], p) != Crosses(ring[0], ring[|ring| - 1], p)))
    {
      var a, b := ring[current], ring[previous];
      assert ring[..current + 1][..current] == ring[..current];
      var intersects := Crosses(a, b, p);
      if intersects {
        inside := !inside;
      }
      previous, current := current, current + 1;
    }
    if ring != [] {
      assert ring[..|ring|] == ring;
      assert Closed(ring)[..|ring|] == ring;
    }
  }

  lemma WrapsToFirst(index: nat, n: nat)
    requires index < n
    ensures (index + 1) % n == if index + 1 == n then 0 else index + 1
  {
  }

  method RingArea(ring: Ring) returns (area: real)
    ensures area == SignedArea(ring)
  {
    hide Cross;
    area := 0.0;
    for index := 0 to |ring|
      invariant area == if index == 0 then 0.0 else PathSweep(Closed(ring)[..index + 1])
    {
      var next := (index + 1) % |ring|;
      WrapsToFirst(index, |ring|);
      ghost var path := Closed(ring)[..index + 2];
      assert path[..index + 1] == Closed(ring)[..index + 1];
      assert path[index] == ring[index] && path[index + 1] == ring[next];
      area := area + Cross(ring[index], ring[next]);
    }
    if ring != [] {
      assert Closed(ring)[..|ring| + 1] == Closed(ring);
    }
    area := area / 2.0;
  }

  method PolygonContains(polygon: Polygon, p: Point) returns (inside: bool)
    requires polygon != []
    ensures inside == InsidePolygon(polygon, p)
  {
    var exterior := RingContains(polygon[0], p);
    if !exterior {
      return false;
    }
    for i := 1 to |polygon|
      invariant forall k :: 1 <= k < i ==> !InsideRing(polygon[k], p)
    {
      var inHole := RingContains(polygon[i], p);
      if inHole {
        return false;
      }
    }
    return true;
  }

  method PolygonArea(polygon: Polygon) returns (area: real)
    ensures area == AreaOf(polygon)
  {
    if |polygon| == 0 {
      return 0.0;
    }
    var exterior := RingArea(polygon[0]);
    area := Abs(exterior);
    var holes := polygon[1..];
    for i := 0 to |holes|
      invariant area == Abs(SignedArea(polygon[0])) - TotalArea(holes[..i])
    {
      var hole := RingArea(holes[i]);
      area := area - Abs(hole);
      assert holes[..i + 1][..i] == holes[..i];
    }
    assert holes[..|holes|] == holes;
    area := Max(area, 0.0);
  }

  // ---- Bounds ----

  function AllPoints(polygon: Polygon): seq<Point> {
    if polygon == [] then [] else AllPoints(polygon[..|polygon| - 1]) + polygon[|polygon| - 1]
  }

  /** Four running extrema; `None` stands for the infinities they start from. */
  function Widen(box: Option<Bounds>, p: Point): Option<Bounds> {
    match box
    case None => Some(Bounds(p.x, p.y, p.x, p.y))
    case Some(b) => Some(Bounds(Min(b.minX, p.x), Min(b.minY, p.y), Max(b.maxX, p.x), Max(b.maxY, p.y)))
  }

  function PointBounds(points: seq<Point>): Option<Bounds> {
    if points == [] then None else Widen(PointBounds(points[..|points| - 1]), points[|points| - 1])
  }

  function BoundsOf(polygon: Polygon): Option<Bounds> {
    PointBounds(AllPoints(polygon))
  }

  predicate InHalfOpenBox(p: Point, b: Bounds) {
    b.minX <= p.x < b.maxX && b.minY <= p.y < b.maxY
  }

  predicate Within(p: Point, b: Bounds) {
    b.minX <= p.x <= b.maxX && b.minY <= p.y <= b.maxY
  }

  /** `b` is the least box around the points: it holds them all and each side meets one. */
  ghost predicate Tight(points: seq<Point>, b: Bounds) {
    (forall p :: p in points ==> Within(p, b)) &&
    MeetsX(points, b.minX) && MeetsX(points, b.maxX) && MeetsY(points, b.minY) && MeetsY(points, b.maxY)
  }

  ghost predicate MeetsX(points: seq<Point>, x: real) {
    exists p :: p in points && p.x == x
  }

  ghost predicate MeetsY(points: seq<Point>, y: real) {
    exists p :: p in points && p.y == y
  }

  method PolygonBounds(polygon: Polygon) returns (box: Option<Bounds>)
    ensures box == BoundsOf(polygon)
  {
    box := None;
    for i := 0 to |polygon|
      invariant box == BoundsOf(polygon[..i])
    {
      var ring := polygon[i];
      assert polygon[..i + 1][..i] == polygon[..i];
      var before := AllPoints(polygon[..i]);
      assert before + ring[..0] == before;
      for j := 0 to |ring|
        invariant box == PointBounds(before + ring[..j])
      {
        assert (before + ring[..j + 1])[..|before| + j] == before + ring[..j];
        box := Widen(box, ring[j]);
      }
      assert ring[..|ring|] == ring;
    }
    assert polygon[..|polygon|] == polygon;
  }

  /** The four running extrema are the least box, and there is none exactly when there is no point. */
  lemma {:induction false} BoundsAreTight(points: seq<Point>)
    ensures PointBounds(points).None? <==> points == []
    ensures PointBounds(points).Some? ==> Tight(points, PointBounds(points).value)
  {
    hide Tight, Widen;
    if points != [] {
      var front, p := points[..|points| - 1], points[|points| - 1];
      assert points == front + [p];
      BoundsAreTight(front);
      if front == [] {
        OnePointIsTight(p);
      } else {
        WidenedIsTight(front, p, PointBounds(front).value);
      }
    }
  }

  lemma TightUnique(points: seq<Point>, b: Bounds, c: Bounds)
    requires Tight(points, b) && Tight(points, c)
    ensures b == c
  {
  }

  lemma OnePointIsTight(p: Point)
    ensures Widen(None, p).Some? && Tight([p], Widen(None, p).value)
  {
    MeetsGrow([], p, p.x, p.y);
    assert [] + [p] == [p];
  }

  lemma WidenedIsTight(front: seq<Point>, p: Point, f: Bounds)
    requires Tight(front, f)
    ensures Widen(Some(f), p).Some? && Tight(front + [p], Widen(Some(f), p).value)
  {
    hide MeetsX, MeetsY;
    MeetsGrow(front, p, f.minX, f.minY);
    MeetsGrow(front, p, f.maxX, f.maxY);
  }

  lemma MeetsGrow(front: seq<Point>, p: Point, x: real, y: real)
    ensures MeetsX(front, x) ==> MeetsX(front + [p], x)
    ensures MeetsY(front, y) ==> MeetsY(front + [p], y)
    ensures MeetsX(front + [p], p.x) && MeetsY(front + [p], p.y)
  {
    var points := front + [p];
    assert p in points;
    if q :| q in front && q.x == x {
      assert q in points;
    }
    if q :| q in front && q.y == y {
      assert q in points;
    }
  }

  lemma {:induction false} PointsOfRing(polygon: Polygon, i: int, p: Point)
    requires 0 <= i < |polygon| && p in polygon[i]
    ensures p in AllPoints(polygon)
  {
    if i < |polygon| - 1 {
      PointsOfRing(polygon[..|polygon| - 1], i, p);
    }
  }

  // ---- Validation ----

  datatype PolygonError = TooFewPositions | AreaNotPositive

  /** Which polygons the parser accepts; every coordinate is finite here. */
  predicate ValidPolygon(polygon: Polygon) {
    polygon != [] && |polygon[0]| >= 4 && AreaOf(polygon) > 0.0
  }

  method ValidatePolygon(polygon: Polygon) returns (r: Result<(), PolygonError>)
    ensures r.Ok? <==> ValidPolygon(polygon)
    ensures r == Err(TooFewPositions) <==> polygon == [] || |polygon[0]| < 4
  {
    if |polygon| == 0 || |polygon[0]| < 4 {
      return Err(TooFewPositions);
    }
    var area := PolygonArea(polygon);
    if area <= 0.0 {
      return Err(AreaNotPositive);
    }
    return Ok(());
  }
}
