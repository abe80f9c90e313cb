/** Axis-aligned rectangular boundaries: containment is exactly the half-open box, the shoelace area
    is width times height, and the cell count estimates it to within half a cell along each side. */
module Rectangles {
  import opened Outcome
  import opened RealMath
  import opened Segments
  import opened Rings
  import opened RingLaws
  import opened Coverage

  function Corners(b: Bounds): Ring {
    [Point(b.minX, b.minY), Point(b.maxX, b.minY), Point(b.maxX, b.maxY), Point(b.minX, b.maxY)]
  }

  /** The rectangle's ring, with or without the closing vertex. */
  function Rectangle(b: Bounds, closed: bool): (polygon: Polygon)
    ensures |polygon| == 1
  {
    [if closed then Corners(b) + [Corners(b)[0]] else Corners(b)]
  }

  lemma VerticalEdge(x: real, y0: real, y1: real, p: Point)
    ensures Crosses(Point(x, y0), Point(x, y1), p) <==> (y0 > p.y) != (y1 > p.y) && p.x < x
  {
    if y0 != y1 {
      assert (x - x) * (p.y - y0) == 0.0;
      assert EdgeX(Point(x, y0), Point(x, y1), p) == x;
    }
  }

  lemma CornersContain(b: Bounds, p: Point)
    requires b.minX < b.maxX && b.minY < b.maxY
    ensures InsideRing(Corners(b), p) <==> InHalfOpenBox(p, b)
    ensures SignedArea(Corners(b)) == (b.maxX - b.minX) * (b.maxY - b.minY)
  {
    var path := Closed(Corners(b));
    assert path[..4] == Corners(b);
    assert path[..4][..3] == Corners(b)[..3];
    assert path[..4][..3][..2] == [path[0], path[1]];
    hide PathParity, PathSweep, Crosses;
    PathStep(path, p);
    PathStep(path[..4], p);
    PathStep(path[..4][..3], p);
    EdgePath(path[0], path[1], p);
    VerticalEdge(b.maxX, b.maxY, b.minY, p);
    VerticalEdge(b.minX, b.minY, b.maxY, p);
    LevelEdge(path[0], path[1], p);
    LevelEdge(path[3], path[2], p);
    CornersSweep(b);
  }

  lemma LevelEdge(a: Point, b: Point, p: Point)
    requires a.y == b.y
    ensures !Crosses(a, b, p)
  {
  }

  lemma CornersSweep(b: Bounds)
    ensures var c := Corners(b);
            Cross(c[0], c[1]) + Cross(c[1], c[2]) + Cross(c[2], c[3]) + Cross(c[3], c[0])
              == 2.0 * ((b.maxX - b.minX) * (b.maxY - b.minY))
  {
  }

  /** A rectangle contains exactly the points of its half-open box. */
  lemma RectangleContains(b: Bounds, closed: bool, p: Point)
    requires b.minX < b.maxX && b.minY < b.maxY
    ensures InsidePolygon(Rectangle(b, closed), p) <==> InHalfOpenBox(p, b)
    ensures AreaOf(Rectangle(b, closed)) == (b.maxX - b.minX) * (b.maxY - b.minY)
  {
    hide InsideRing, SignedArea, InHalfOpenBox;
    CornersContain(b, p);
    ClosingVertexIrrelevant(Corners(b), p);
    TimesPositive(b.maxX - b.minX, b.maxY - b.minY);
    assert Rectangle(b, closed)[1..] == [];
  }

  /** A rectangle with a rectangular courtyard contains exactly the outer half-open box less the inner one. */
  lemma CourtyardContains(b: Bounds, inner: Bounds, p: Point)
    requires b.minX < b.maxX && b.minY < b.maxY && inner.minX < inner.maxX && inner.minY < inner.maxY
    ensures InsidePolygon([Corners(b), Corners(inner)], p) <==> InHalfOpenBox(p, b) && !InHalfOpenBox(p, inner)
    ensures AreaOf([Corners(b), Corners(inner)])
         == Max((b.maxX - b.minX) * (b.maxY - b.minY) - (inner.maxX - inner.minX) * (inner.maxY - inner.minY), 0.0)
  {
    hide *;
    CornersContain(b, p);
    CornersContain(inner, p);
    AreaIsSize(b, p);
    AreaIsSize(inner, p);
    assert [Corners(b)] + [Corners(inner)] == [Corners(b), Corners(inner)];
    HoleTakesAway([Corners(b)], Corners(inner), p);
    OneRing(Corners(b), p);
  }

  lemma AreaIsSize(b: Bounds, p: Point)
    requires b.minX < b.maxX && b.minY < b.maxY
    ensures Abs(SignedArea(Corners(b))) == (b.maxX - b.minX) * (b.maxY - b.minY)
  {
    hide SignedArea, Corners, InsideRing;
    CornersContain(b, p);
    TimesPositive(b.maxX - b.minX, b.maxY - b.minY);
  }

  lemma RectangleBounds(b: Bounds, closed: bool)
    requires b.minX < b.maxX && b.minY < b.maxY
    ensures BoundsOf(Rectangle(b, closed)) == Some(b)
  {
    var ring := Rectangle(b, closed)[0];
    assert Rectangle(b, closed)[..0] == [];
    assert AllPoints(Rectangle(b, closed)) == ring;
    RectangleIsTight(b, closed);
    BoundsAreTight(ring);
    hide PointBounds, Tight, Rectangle;
    TightUnique(ring, b, PointBounds(ring).value);
  }

  lemma RectangleIsTight(b: Bounds, closed: bool)
    requires b.minX < b.maxX && b.minY < b.maxY
    ensures Tight(Rectangle(b, closed)[0], b)
  {
    var ring := Rectangle(b, closed)[0];
    assert ring[0] in ring && ring[2] in ring;
  }

  // ---- Counting cell centres ----

  /** How many cells of size `r`, counted from one end of a span `w`, have their centre inside it. */
  predicate CentresWithin(n: int, w: real, r: real) {
    n >= 0 && (n as real - 0.5) * r < w <= (n as real + 0.5) * r
  }

  function CentreCount(w: real, r: real): int
    requires r > 0.0
  {
    Ceil(w / r - 0.5)
  }

  lemma CentreCountFits(w: real, r: real)
    requires w > 0.0 && r > 0.0
    ensures CentresWithin(CentreCount(w, r), w, r)
    ensures CentreCount(w, r) <= Ceil(w / r)
  {
    var q, n := w / r, CentreCount(w, r);
    PositiveRatio(w, r);
    QuotientBack(w, r);
    TimesMonotone(q, n as real + 0.5, r);
    TimesPositive(q - (n as real - 0.5), r);
    hide Times;
    TimesLinear(q, n as real - 0.5, r);
    TimesLinear(q - (n as real - 0.5), 0.0, r);
    TimesLinear(q, 0.0, r);
    TimesLinear(n as real - 0.5, 0.0, r);
    AsTimes(n as real - 0.5, r);
    AsTimes(n as real + 0.5, r);
  }

  lemma AsTimes(a: real, b: real)
    ensures Times(a, b) == a * b
  {
  }

  /** The centres inside the span are those of the first `n` cells. */
  lemma CentreInside(n: int, w: real, r: real, i: int)
    requires r > 0.0 && CentresWithin(n, w, r) && i >= 0
    ensures 0.0 <= (i as real + 0.5) * r
    ensures (i as real + 0.5) * r < w <==> i < n
  {
    AsTimes(i as real + 0.5, r);
    AsTimes(n as real - 0.5, r);
    AsTimes(n as real + 0.5, r);
    TimesNonNegative(i as real + 0.5, r);
    hide Times;
    if i < n {
      TimesMonotone(i as real + 0.5, n as real - 0.5, r);
    } else {
      TimesMonotone(n as real + 0.5, i as real + 0.5, r);
    }
  }

  function Block(rows: int, columns: int): set<Cell> {
    set row, column | 0 <= row < rows && 0 <= column < columns :: Cell(row, column)
  }

  function RowCells(row: int, columns: int): set<Cell> {
    set column | 0 <= column < columns :: Cell(row, column)
  }

  lemma {:induction false} RowSize(row: int, columns: nat)
    ensures |RowCells(row, columns)| == columns
  {
    if columns == 0 {
      assert RowCells(row, columns) == {};
    } else {
      RowSize(row, columns - 1);
      assert RowCells(row, columns) == RowCells(row, columns - 1) + {Cell(row, columns - 1)};
    }
  }

  lemma {:induction false} BlockSize(rows: nat, columns: nat)
    ensures |Block(rows, columns)| == rows * columns
  {
    if rows == 0 {
      assert Block(0, columns) == {};
    } else {
      BlockSize(rows - 1, columns);
      RowSize(rows - 1, columns);
      assert Block(rows, columns) == Block(rows - 1, columns) + RowCells(rows - 1, columns);
      assert Block(rows - 1, columns) !! RowCells(rows - 1, columns);
      assert rows * columns == (rows - 1) * columns + columns;
    }
  }

  lemma CentreInsideRectangle(b: Bounds, closed: bool, r: real, c: Cell)
    requires b.minX < b.maxX && b.minY < b.maxY && r > 0.0 && c.row >= 0 && c.column >= 0
    ensures InsidePolygon(Rectangle(b, closed), Center(GridOver(b, r), c))
       <==> c.row < CentreCount(b.maxY - b.minY, r) && c.column < CentreCount(b.maxX - b.minX, r)
  {
    hide InsidePolygon, CentresWithin, CentreCount, Ceil, Rectangle;
    var w, h := b.maxX - b.minX, b.maxY - b.minY;
    CentreCountFits(w, r);
    CentreCountFits(h, r);
    RectangleContains(b, closed, Center(GridOver(b, r), c));
    CentreInside(CentreCount(w, r), w, r, c.column);
    CentreInside(CentreCount(h, r), h, r, c.row);
  }

  /** The inside cells of a rectangle are a block: whole rows by whole columns of centres. */
  lemma InsideCellsAreBlock(b: Bounds, closed: bool, r: real)
    requires b.minX < b.maxX && b.minY < b.maxY && r > 0.0
    ensures InsideCells(Rectangle(b, closed), GridOver(b, r))
         == Block(CentreCount(b.maxY - b.minY, r), CentreCount(b.maxX - b.minX, r))
  {
    hide InsidePolygon, CentresWithin, CentreCount, Ceil, Rectangle, Center;
    var w, h := b.maxX - b.minX, b.maxY - b.minY;
    var g := GridOver(b, r);
    CentreCountFits(w, r);
    CentreCountFits(h, r);
    forall c: Cell | 0 <= c.row && 0 <= c.column
      ensures InsidePolygon(Rectangle(b, closed), Center(g, c))
         <==> c.row < CentreCount(h, r) && c.column < CentreCount(w, r)
    {
      CentreInsideRectangle(b, closed, r, c);
    }
    forall c: Cell
      ensures c in InsideCells(Rectangle(b, closed), g) <==> c in Block(CentreCount(h, r), CentreCount(w, r))
    {
    }
  }

  // ---- The estimate ----

  predicate IsMultiple(w: real, m: int, r: real) {
    w == m as real * r
  }

  ghost predicate Divides(r: real, w: real) {
    exists m :: IsMultiple(w, m, r)
  }

  /** Counting centres errs by at most half a cell along a side, and not at all when cells fit exactly. */
  lemma CentreError(n: int, w: real, r: real)
    requires r > 0.0 && CentresWithin(n, w, r)
    ensures Abs(n as real * r - w) <= r / 2.0
    ensures Divides(r, w) ==> n as real * r == w
  {
    AsTimes(n as real - 0.5, r);
    AsTimes(n as real + 0.5, r);
    AsTimes(n as real, r);
    assert Abs(n as real * r - w) <= r / 2.0 by {
      hide Times;
      TimesLinear(n as real, 0.5, r);
      TimesLinear(n as real - 0.5, 0.0, r);
      TimesLinear(n as real + 0.5, 0.0, r);
      TimesLinear(n as real, 0.0, r);
      HalfTimes(r);
    }
    if m :| IsMultiple(w, m, r) {
      AsTimes(m as real, r);
      WholeCells(n, m, r);
    }
  }

  lemma HalfTimes(r: real)
    ensures Times(r, 0.5) == r / 2.0
  {
  }

  lemma WholeCells(n: int, m: int, r: real)
    requires r > 0.0
    requires Times(n as real - 0.5, r) < Times(m as real, r) <= Times(n as real + 0.5, r)
    ensures n == m
  {
    hide Times;
    if m as real <= n as real - 0.5 {
      TimesMonotone(m as real, n as real - 0.5, r);
    } else if m as real > n as real + 0.5 {
      TimesPositive(m as real - (n as real + 0.5), r);
      TimesLinear(m as real, n as real + 0.5, r);
      TimesLinear(m as real - (n as real + 0.5), 0.0, r);
      TimesLinear(m as real, 0.0, r);
      TimesLinear(n as real + 0.5, 0.0, r);
    }
  }

  /** Errors along the two sides combine into one on the area. */
  lemma ProductError(x: real, y: real, w: real, h: real, e: real)
    requires w > 0.0 && h > 0.0 && Abs(x - w) <= e && Abs(y - h) <= e
    ensures Abs(Times(x, y) - Times(w, h)) <= Times(e, w + h) + Square(e)
  {
    var a, b := x - w, y - h;
    assert Times(x, y) - Times(w, h) == Times(a, h) + Times(b, w) + Times(a, b);
    hide Times, Square;
    AbsTimes(a, h, e, h);
    AbsTimes(b, w, e, w);
    AbsTimes(a, b, e, e);
    TimesLinear(w, h, e);
    SquareIsTimes(e);
    TimesRegroup(e, h, 0.0);
    TimesRegroup(e, w, 0.0);
  }

  lemma AbsTimes(a: real, b: real, m: real, n: real)
    requires Abs(a) <= m && Abs(b) <= n
    ensures Abs(Times(a, b)) <= Times(m, n)
  {
    hide Times;
    TimesMonotone(Abs(a), m, Abs(b));
    TimesMonotone(Abs(b), n, m);
    TimesNegate(a, b);
    TimesNegate(a, -b);
    TimesNonNegative(Abs(a), Abs(b));
  }

  /** `cells` cells of side `r` estimate the area `w * h` to within (r/2)(w + h) + r*r/4, and give
      it exactly when `r` divides both sides. */
  ghost predicate GoodEstimate(cells: int, w: real, h: real, r: real) {
    var estimate := cells as real * (r * r);
    Abs(estimate - w * h) <= r / 2.0 * (w + h) + r * r / 4.0 &&
    (Divides(r, w) && Divides(r, h) ==> estimate == w * h)
  }

  /** On a rectangular boundary a successful run reports the exact area and a cell count that
      estimates it well. */
  lemma RectangleEstimate(b: Bounds, closed: bool, tracks: seq<Track>, r: real)
    requires b.minX < b.maxX && b.minY < b.maxY
    requires Measure(Rectangle(b, closed), tracks, r).Ok?
    ensures Measure(Rectangle(b, closed), tracks, r).value.area == (b.maxX - b.minX) * (b.maxY - b.minY)
    ensures GoodEstimate(Measure(Rectangle(b, closed), tracks, r).value.sampleCells,
                         b.maxX - b.minX, b.maxY - b.minY, r)
  {
    hide *;
    var m, n := RectangleReport(b, closed, tracks, r);
    EstimateBound(m, n, b.maxX - b.minX, b.maxY - b.minY, r);
  }

  lemma RectangleReport(b: Bounds, closed: bool, tracks: seq<Track>, r: real) returns (m: int, n: int)
    requires b.minX < b.maxX && b.minY < b.maxY
    requires Measure(Rectangle(b, closed), tracks, r).Ok?
    ensures r > 0.0 && CentresWithin(m, b.maxX - b.minX, r) && CentresWithin(n, b.maxY - b.minY, r)
    ensures Measure(Rectangle(b, closed), tracks, r).value.area == (b.maxX - b.minX) * (b.maxY - b.minY)
    ensures Measure(Rectangle(b, closed), tracks, r).value.sampleCells == n * m
  {
    hide InsidePolygon, CentresWithin, CentreCount, Rectangle, AreaOf, BoundsOf, GridOver, Block, InsideCells,
         SweptCells, GapCells, BoxArtifacts, CellBox;
    var w, h := b.maxX - b.minX, b.maxY - b.minY;
    RectangleBounds(b, closed);
    RectangleContains(b, closed, Point(b.minX, b.minY));
    InsideCellsAreBlock(b, closed, r);
    m, n := CentreCount(w, r), CentreCount(h, r);
    CentreCountFits(w, r);
    CentreCountFits(h, r);
    BlockCount(m, n, w, h, r);
  }

  lemma EstimateBound(m: int, n: int, w: real, h: real, r: real)
    requires r > 0.0 && w > 0.0 && h > 0.0 && CentresWithin(m, w, r) && CentresWithin(n, h, r)
    ensures GoodEstimate(n * m, w, h, r)
  {
    hide CentresWithin, Divides, Times, Square;
    CentreError(m, w, r);
    CentreError(n, h, r);
    ProductError(m as real * r, n as real * r, w, h, r / 2.0);
    EstimateTerms(m, n, w, h, r);
  }

  lemma BlockCount(m: int, n: int, w: real, h: real, r: real)
    requires CentresWithin(m, w, r) && CentresWithin(n, h, r)
    ensures |Block(n, m)| == n * m
  {
    BlockSize(n, m);
  }

  lemma EstimateTerms(m: int, n: int, w: real, h: real, r: real)
    ensures (n * m) as real * (r * r) == Times(m as real * r, n as real * r)
    ensures Times(w, h) == w * h
    ensures Times(r / 2.0, w + h) == r / 2.0 * (w + h)
    ensures Square(r / 2.0) == r * r / 4.0
  {
    IntProduct(n, m);
    var x, y := m as real, n as real;
    assert y * x * (r * r) == x * r * (y * r);
  }

  lemma IntProduct(n: int, m: int)
    ensures (n * m) as real == n as real * m as real
  {
  }
}
