/** What the "filtered fragment" flag of a result means: the uncovered cells fit in a block of fewer
    than four cells. */
module Fragments {
  import opened Outcome
  import opened RealMath
  import opened Segments
  import opened Rings
  import opened Coverage
  import opened CoverageLaws
  import opened Rectangles
  import opened RingLaws

  predicate InBlock(c: Cell, low: Cell, rows: int, columns: int) {
    low.row <= c.row < low.row + rows && low.column <= c.column < low.column + columns
  }

  lemma {:induction false} RowHoldsAtMost(cells: set<Cell>, row: int, low: int, columns: nat)
    requires forall c :: c in cells ==> c.row == row && low <= c.column < low + columns
    ensures |cells| <= columns
  {
    if columns == 0 {
      assert cells == {};
    } else {
      var last := Cell(row, low + columns - 1);
      RowHoldsAtMost(cells - {last}, row, low, columns - 1);
    }
  }

  lemma {:induction false} BlockHoldsAtMost(cells: set<Cell>, low: Cell, rows: nat, columns: nat)
    requires forall c :: c in cells ==> InBlock(c, low, rows, columns)
    ensures |cells| <= rows * columns
  {
    if rows == 0 {
      assert cells == {};
    } else {
      var last := low.row + rows - 1;
      var top := set c | c in cells && c.row == last;
      BlockHoldsAtMost(cells - top, low, rows - 1, columns);
      RowHoldsAtMost(top, last, low.column, columns);
      assert cells == (cells - top) + top;
      assert rows * columns == (rows - 1) * columns + columns;
    }
  }

  /** Corner coordinates of cell squares are whole multiples of the resolution apart. */
  lemma SquareSides(g: Grid, c: Cell)
    ensures CellSquare(g, c).minX == g.minX + Times(c.column as real, g.resolution)
    ensures CellSquare(g, c).maxX == g.minX + Times((c.column + 1) as real, g.resolution)
    ensures CellSquare(g, c).minY == g.minY + Times(c.row as real, g.resolution)
    ensures CellSquare(g, c).maxY == g.minY + Times((c.row + 1) as real, g.resolution)
  {
    var r := g.resolution;
    HalfShift(c.column as real, r);
    HalfShift(c.row as real, r);
    assert (c.column + 1) as real == c.column as real + 1.0;
    assert (c.row + 1) as real == c.row as real + 1.0;
  }

  lemma HalfShift(a: real, r: real)
    ensures (a + 0.5) * r - r / 2.0 == Times(a, r)
    ensures (a + 0.5) * r + r / 2.0 == Times(a + 1.0, r)
  {
  }

  lemma WholeOrder(i: int, j: int, r: real)
    requires r > 0.0 && Times(i as real, r) <= Times(j as real, r)
    ensures i <= j
  {
    if i > j {
      TimesPositive(i as real - j as real, r);
      hide Times;
      TimesLinear(i as real, j as real, r);
      TimesLinear(i as real - j as real, 0.0, r);
      TimesLinear(i as real, 0.0, r);
      TimesLinear(j as real, 0.0, r);
    }
  }

  /** The gap box spans a block of whole cells. */
  lemma BoxSpansBlock(g: Grid, cells: set<Cell>, b: Bounds) returns (low: Cell, rows: nat, columns: nat)
    requires g.resolution > 0.0 && IsCellBox(g, cells, Some(b))
    ensures rows >= 1 && columns >= 1
    ensures b.maxX - b.minX == Times(columns as real, g.resolution)
    ensures b.maxY - b.minY == Times(rows as real, g.resolution)
    ensures forall c :: c in cells ==> InBlock(c, low, rows, columns)
  {
    hide CellSquare, Times;
    var r := g.resolution;
    var w :| w in cells && CellSquare(g, w).minX == b.minX;
    var s :| s in cells && CellSquare(g, s).minY == b.minY;
    var e :| e in cells && CellSquare(g, e).maxX == b.maxX;
    var n :| n in cells && CellSquare(g, n).maxY == b.maxY;
    low := Cell(s.row, w.column);
    forall c | c in cells
      ensures w.column <= c.column <= e.column && s.row <= c.row <= n.row
    {
      SquareSides(g, c);
      SquareSides(g, w);
      SquareSides(g, s);
      SquareSides(g, e);
      SquareSides(g, n);
      WholeOrder(w.column, c.column, r);
      WholeOrder(s.row, c.row, r);
      WholeOrder(c.column + 1, e.column + 1, r);
      WholeOrder(c.row + 1, n.row + 1, r);
    }
    rows, columns := n.row + 1 - s.row, e.column + 1 - w.column;
    SquareSides(g, w);
    SquareSides(g, s);
    SquareSides(g, e);
    SquareSides(g, n);
    Span(e.column + 1, w.column, r);
    Span(n.row + 1, s.row, r);
  }

  lemma Span(i: int, j: int, r: real)
    ensures Times(i as real, r) - Times(j as real, r) == Times((i - j) as real, r)
  {
    assert (i - j) as real == i as real - j as real;
  }

  lemma BlockArea(rows: nat, columns: nat, r: real)
    requires r > 0.0
    ensures Times(columns as real, r) * Times(rows as real, r) < r * r * 4.0 <==> rows * columns < 4
  {
    var n := rows * columns;
    IntProduct(columns, rows);
    assert Times(columns as real, r) * Times(rows as real, r) == Times(n as real, Square(r)) by {
      Regroup(columns as real, rows as real, r);
    }
    assert r * r * 4.0 == Times(4.0, Square(r));
    SquarePositive(r);
    hide Times, Square;
    if n >= 4 {
      TimesMonotone(4.0, n as real, Square(r));
    } else {
      TimesPositive(4.0 - n as real, Square(r));
      TimesLinear(4.0, n as real, Square(r));
      TimesLinear(4.0 - n as real, 0.0, Square(r));
      TimesLinear(4.0, 0.0, Square(r));
      TimesLinear(n as real, 0.0, Square(r));
    }
  }

  lemma Regroup(a: real, b: real, r: real)
    ensures Times(a, r) * Times(b, r) == Times(a * b, Square(r))
  {
  }

  /** The gap box is a block of `rows` by `columns` cells that holds every uncovered cell, and the result
      counts one filtered fragment exactly when that block has fewer than four cells; so whatever is
      flagged leaves at most three cells uncovered. */
  lemma FilteredMeansTiny(boundary: Polygon, tracks: seq<Track>, resolution: real) returns (rows: nat, columns: nat)
    requires Measure(boundary, tracks, resolution).Ok?
    requires Measure(boundary, tracks, resolution).value.gapRatio > 0.0
    ensures boundary != [] && BoundsOf(boundary).Some? && resolution > 0.0 && GapBox(boundary, tracks, resolution).Some?
    ensures var gap := GapCells(boundary, GridOver(BoundsOf(boundary).value, resolution), tracks);
            var box := GapBox(boundary, tracks, resolution).value;
            var fragments := Measure(boundary, tracks, resolution).value.artifacts.fragments;
            box.maxX - box.minX == Times(columns as real, resolution) &&
            box.maxY - box.minY == Times(rows as real, resolution) &&
            1 <= |gap| <= rows * columns &&
            fragments == (if rows * columns < 4 then 1 else 0) && (fragments == 1 ==> |gap| <= 3)
  {
    hide BoundsOf, InsideCells, SweptCells, AreaOf, IsCellBox, Passes, Times, Center;
    HasRings(boundary);
    var g := GridOver(BoundsOf(boundary).value, resolution);
    var gap := GapCells(boundary, g, tracks);
    NoGapMeansNoGapCell(boundary, tracks, resolution);
    NoBoxForNoCells(g, gap, CellBox(g, gap));
    var box := CellBox(g, gap).value;
    var low;
    low, rows, columns := BoxSpansBlock(g, gap, box);
    BlockHoldsAtMost(gap, low, rows, columns);
    BlockArea(rows, columns, resolution);
  }

  lemma BoxIsRectangle(b: Bounds)
    ensures BoxPolygon(b) == Rectangle(b, true)
  {
    assert BoxPolygon(b)[0] == Rectangle(b, true)[0];
  }

  lemma PointHasNoArea(c: Point)
    ensures !ValidPolygon([[c, c, c, c]])
  {
    hide SignedArea;
    FlatRingHasNoArea([c, c, c, c], c.x);
    assert [[c, c, c, c]][1..] == [];
  }

  lemma CentreInBox(g: Grid, cells: set<Cell>, b: Bounds, c: Cell)
    requires g.resolution > 0.0 && IsCellBox(g, cells, Some(b)) && c in cells
    ensures InHalfOpenBox(Center(g, c), b)
  {
    hide Center;
    assert Encloses(b, CellSquare(g, c));
  }

  /** The stored gap polygon is a polygon the parser would accept exactly when something is uncovered;
      it then contains the centre of every uncovered cell and is the half-open gap box. */
  lemma GapPolygonHoldsGap(boundary: Polygon, tracks: seq<Track>, resolution: real)
    requires Measure(boundary, tracks, resolution).Ok?
    ensures boundary != [] && BoundsOf(boundary).Some? && resolution > 0.0
    ensures var gap := Measure(boundary, tracks, resolution).value.artifacts.gap;
            var g := GridOver(BoundsOf(boundary).value, resolution);
            var box := GapBox(boundary, tracks, resolution);
            gap != [] &&
            (ValidPolygon(gap) <==> Measure(boundary, tracks, resolution).value.gapRatio > 0.0) &&
            (ValidPolygon(gap) <==> box.Some?) &&
            (forall c :: c in GapCells(boundary, g, tracks) ==> InsidePolygon(gap, Center(g, c))) &&
            (box.Some? ==> forall p :: InsidePolygon(gap, p) <==> InHalfOpenBox(p, box.value))
  {
    hide BoundsOf, InsideCells, SweptCells, AreaOf, IsCellBox, Passes, Times, Center, InsidePolygon, Rectangle,
         GapCells, ResurveyLine, BoxPolygon, InHalfOpenBox, ValidPolygon, GridOver;
    HasRings(boundary);
    var g := GridOver(BoundsOf(boundary).value, resolution);
    var cells := GapCells(boundary, g, tracks);
    var box := CellBox(g, cells);
    NoGapMeansNoGapCell(boundary, tracks, resolution);
    RatiosShareOut(boundary, tracks, resolution);
    NoBoxForNoCells(g, cells, box);
    assert g.resolution == resolution by { GridResolution(BoundsOf(boundary).value, resolution); }
    if box.Some? {
      BoxHoldsCells(g, cells, box.value);
    } else {
      var b := BoundsOf(boundary).value;
      PointHasNoArea(Point((b.minX + b.maxX) / 2.0, (b.minY + b.maxY) / 2.0));
    }
  }

  lemma GridResolution(b: Bounds, resolution: real)
    requires resolution > 0.0
    ensures GridOver(b, resolution).resolution == resolution
  {
  }

  lemma BoxHoldsCells(g: Grid, cells: set<Cell>, b: Bounds)
    requires g.resolution > 0.0 && IsCellBox(g, cells, Some(b))
    ensures BoxPolygon(b) != [] && ValidPolygon(BoxPolygon(b))
    ensures forall p :: InsidePolygon(BoxPolygon(b), p) <==> InHalfOpenBox(p, b)
    ensures forall c :: c in cells ==> InsidePolygon(BoxPolygon(b), Center(g, c))
  {
    hide AreaOf, InsidePolygon, IsCellBox, Center, InHalfOpenBox;
    var low, rows, columns := BoxSpansBlock(g, cells, b);
    TimesPositive(columns as real, g.resolution);
    TimesPositive(rows as real, g.resolution);
    BoxIsRectangle(b);
    TimesPositive(b.maxX - b.minX, b.maxY - b.minY);
    forall p ensures InsidePolygon(BoxPolygon(b), p) <==> InHalfOpenBox(p, b) {
      RectangleContains(b, true, p);
    }
    RectangleContains(b, true, Point(b.minX, b.minY));
    forall c | c in cells ensures InHalfOpenBox(Center(g, c), b) {
      CentreInBox(g, cells, b, c);
    }
  }

  /** With nothing uncovered the gap and the recommended line are one point, halfway across the bounds, and
      no fragment is counted. */
  lemma NothingToFly(boundary: Polygon, tracks: seq<Track>, resolution: real)
    requires Measure(boundary, tracks, resolution).Ok?
    requires Measure(boundary, tracks, resolution).value.gapRatio == 0.0
    ensures BoundsOf(boundary).Some?
    ensures var a, b := Measure(boundary, tracks, resolution).value.artifacts, BoundsOf(boundary).value;
            a.fragments == 0 && |a.recommended| == 2 && |a.gap| == 1 && |a.gap[0]| == 4 &&
            (forall v :: v in a.recommended + a.gap[0] ==>
               v.x - b.minX == b.maxX - v.x && v.y - b.minY == b.maxY - v.y)
  {
    hide BoundsOf, InsideCells, SweptCells, AreaOf, IsCellBox, GapCells, ResurveyLine, BoxPolygon;
    HasRings(boundary);
    var g := GridOver(BoundsOf(boundary).value, resolution);
    NoGapMeansNoGapCell(boundary, tracks, resolution);
    NoBoxForNoCells(g, GapCells(boundary, g, tracks), CellBox(g, GapCells(boundary, g, tracks)));
  }
}
