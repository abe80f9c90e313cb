/** The grid estimate of coverage: the source's nested loops proved against sets of grid cells. */
module Coverage {
  import opened Outcome
  import opened RealMath
  import opened Segments
  import opened Rings

  // ---- Passes of tracks over a point ----

  predicate LegSweeps(p: Point, line: Line, k: int, swath: real)
    requires 0 <= k < |line| - 1
  {
    Near(p, line[k], line[k + 1], swath)
  }

  predicate LineSweeps(p: Point, line: Line, swath: real) {
    exists k :: 0 <= k < |line| - 1 && LegSweeps(p, line, k, swath)
  }

  /** Some leg of some line of the track passes within half its swath of the point. */
  predicate Sweeps(track: Track, p: Point) {
    exists i :: 0 <= i < |track.lines| && LineSweeps(p, track.lines[i], track.swath)
  }

  /** How many of the tracks sweep the point. */
  function Passes(p: Point, tracks: seq<Track>): nat {
    if tracks == [] then 0
    else Passes(p, tracks[..|tracks| - 1]) + if Sweeps(tracks[|tracks| - 1], p) then 1 else 0
  }

  method CoveragePasses(p: Point, tracks: seq<Track>) returns (passes: nat)
    ensures passes == Passes(p, tracks)
  {
    passes := 0;
    for t := 0 to |tracks|
      invariant passes == Passes(p, tracks[..t])
    {
      var track := tracks[t];
      var covered := false;
      var i := 0;
      while i < |track.lines| && !covered
        invariant 0 <= i <= |track.lines|
        invariant covered ==> Sweeps(track, p)
        invariant !covered ==> forall h :: 0 <= h < i ==> !LineSweeps(p, track.lines[h], track.swath)
        decreases |track.lines| - i, !covered
      {
        var line := track.lines[i];
        var index := 1;
        while index < |line|
          invariant 1 <= index
          invariant !covered
          invariant forall k :: 0 <= k < index - 1 && k < |line| - 1 ==> !LegSweeps(p, line, k, track.swath)
        {
          if Near(p, line[index - 1], line[index], track.swath) {
            assert LegSweeps(p, line, index - 1, track.swath);
            covered := true;
            break;
          }
          assert !LegSweeps(p, line, index - 1, track.swath);
          index := index + 1;
        }
        i := i + 1;
      }
      if covered {
        passes := passes + 1;
      }
      assert tracks[..t + 1][..t] == tracks[..t];
    }
    assert tracks[..|tracks|] == tracks;
  }

  // ---- The grid ----

  datatype Grid = Grid(minX: real, minY: real, resolution: real, columns: int, rows: int)

  datatype Cell = Cell(row: int, column: int)

  function GridOver(b: Bounds, resolution: real): Grid
    requires resolution > 0.0
  {
    Grid(b.minX, b.minY, resolution,
         Ceil((b.maxX - b.minX) / resolution), Ceil((b.maxY - b.minY) / resolution))
  }

  function Center(g: Grid, c: Cell): Point {
    Point(g.minX + (c.column as real + 0.5) * g.resolution, g.minY + (c.row as real + 0.5) * g.resolution)
  }

  /** The square of side `resolution` about the cell's centre. */
  function CellSquare(g: Grid, c: Cell): Bounds {
    var p, half := Center(g, c), g.resolution / 2.0;
    Bounds(p.x - half, p.y - half, p.x + half, p.y + half)
  }

  function GridCells(g: Grid): set<Cell> {
    set row, column | 0 <= row < g.rows && 0 <= column < g.columns :: Cell(row, column)
  }

  function InsideCells(boundary: Polygon, g: Grid): set<Cell>
    requires boundary != []
  {
    set c | c in GridCells(g) && InsidePolygon(boundary, Center(g, c))
  }

  /** Inside cells whose centre at least `n` tracks sweep. */
  function SweptCells(boundary: Polygon, g: Grid, tracks: seq<Track>, n: nat): set<Cell>
    requires boundary != []
  {
    set c | c in InsideCells(boundary, g) && Passes(Center(g, c), tracks) >= n
  }

  function GapCells(boundary: Polygon, g: Grid, tracks: seq<Track>): set<Cell>
    requires boundary != []
  {
    set c | c in InsideCells(boundary, g) && Passes(Center(g, c), tracks) == 0
  }

  // ---- The box around a set of cells ----

  predicate Encloses(outer: Bounds, inner: Bounds) {
    outer.minX <= inner.minX && outer.minY <= inner.minY && inner.maxX <= outer.maxX && inner.maxY <= outer.maxY
  }

  /** `box` is the least axis-aligned box holding every cell's square: each side meets one. */
  ghost predicate IsCellBox(g: Grid, cells: set<Cell>, box: Option<Bounds>) {
    match box
    case None => cells == {}
    case Some(b) =>
      (forall c :: c in cells ==> Encloses(b, CellSquare(g, c))) &&
      (exists c :: c in cells && CellSquare(g, c).minX == b.minX) &&
      (exists c :: c in cells && CellSquare(g, c).minY == b.minY) &&
      (exists c :: c in cells && CellSquare(g, c).maxX == b.maxX) &&
      (exists c :: c in cells && CellSquare(g, c).maxY == b.maxY)
  }

  function WidenBox(box: Option<Bounds>, square: Bounds): Option<Bounds> {
    match box
    case None => Some(square)
    case Some(b) =>
      Some(Bounds(Min(b.minX, square.minX), Min(b.minY, square.minY),
                  Max(b.maxX, square.maxX), Max(b.maxY, square.maxY)))
  }

  lemma CellBoxUnique(g: Grid, cells: set<Cell>, box: Option<Bounds>, other: Option<Bounds>)
    requires IsCellBox(g, cells, box) && IsCellBox(g, cells, other)
    ensures box == other
  {
    hide CellSquare;
  }

  lemma CellBoxWidens(g: Grid, cells: set<Cell>, box: Option<Bounds>, cell: Cell)
    requires IsCellBox(g, cells, box)
    ensures IsCellBox(g, cells + {cell}, WidenBox(box, CellSquare(g, cell)))
  {
    hide CellSquare;
    var all, square := cells + {cell}, CellSquare(g, cell);
    assert cell in all;
    if box.Some? {
      var b := box.value;
      var w :| w in cells && CellSquare(g, w).minX == b.minX;
      var s :| s in cells && CellSquare(g, s).minY == b.minY;
      var e :| e in cells && CellSquare(g, e).maxX == b.maxX;
      var n :| n in cells && CellSquare(g, n).maxY == b.maxY;
      assert w in all && s in all && e in all && n in all;
    }
  }

  lemma CellBoxExists(g: Grid, cells: set<Cell>) returns (box: Option<Bounds>)
    ensures IsCellBox(g, cells, box)
  {
    if cells == {} {
      box := None;
    } else {
      var c :| c in cells;
      box := CellBoxExists(g, cells - {c});
      CellBoxWidens(g, cells - {c}, box, c);
      assert cells - {c} + {c} == cells;
      box := WidenBox(box, CellSquare(g, c));
    }
  }

  ghost function CellBox(g: Grid, cells: set<Cell>): (box: Option<Bounds>)
    ensures IsCellBox(g, cells, box)
  {
    assert exists b :: IsCellBox(g, cells, b) by { var b := CellBoxExists(g, cells); }
    var b :| IsCellBox(g, cells, b); b
  }

  // ---- The result ----

  datatype CoverageError = ResolutionNotPositive | NoTracks | NoArea | TooManyCells | NoCellsInside

  datatype Artifacts = Artifacts(gap: Polygon, recommended: Line, fragments: int)

  datatype CoverageResult = CoverageResult(
    area: real, coverageRatio: real, overlapRatio: real, gapRatio: real,
    artifacts: Artifacts, sampleCells: int)

  const CELL_LIMIT := 60000

  function BoxPolygon(b: Bounds): Polygon {
    [[Point(b.minX, b.minY), Point(b.maxX, b.minY), Point(b.maxX, b.maxY), Point(b.minX, b.maxY),
      Point(b.minX, b.minY)]]
  }

  /** The centre line of the box along its longer side, one resolution longer at each end. */
  function ResurveyLine(b: Bounds, resolution: real): Line {
    if b.maxX - b.minX >= b.maxY - b.minY then
      var y := (b.minY + b.maxY) / 2.0;
      [Point(b.minX - resolution, y), Point(b.maxX + resolution, y)]
    else
      var x := (b.minX + b.maxX) / 2.0;
      [Point(x, b.minY - resolution), Point(x, b.maxY + resolution)]
  }

  function BoxArtifacts(survey: Bounds, box: Option<Bounds>, resolution: real): Artifacts {
    match box
    case None =>
      var c := Point((survey.minX + survey.maxX) / 2.0, (survey.minY + survey.maxY) / 2.0);
      Artifacts([[c, c, c, c]], [c, c], 0)
    case Some(b) =>
      Artifacts(BoxPolygon(b), ResurveyLine(b, resolution),
                if (b.maxX - b.minX) * (b.maxY - b.minY) < resolution * resolution * 4.0 then 1 else 0)
  }

  /** What a run on a non-empty set of inside cells reports. */
  ghost function Report(boundary: Polygon, b: Bounds, g: Grid, tracks: seq<Track>): CoverageResult
    requires boundary != [] && InsideCells(boundary, g) != {}
  {
    var inside := |InsideCells(boundary, g)| as real;
    var gap := GapCells(boundary, g, tracks);
    CoverageResult(
      AreaOf(boundary),
      |SweptCells(boundary, g, tracks, 1)| as real / inside,
      |SweptCells(boundary, g, tracks, 2)| as real / inside,
      |gap| as real / inside,
      BoxArtifacts(b, CellBox(g, gap), g.resolution),
      |InsideCells(boundary, g)|)
  }

  /** The declarative reading of the whole computation. */
  ghost function Measure(boundary: Polygon, tracks: seq<Track>, resolution: real): Result<CoverageResult,
                         CoverageError> {
    if resolution <= 0.0 then Err(ResolutionNotPositive)
    else if tracks == [] then Err(NoTracks)
    else if BoundsOf(boundary).None? then Err(NoArea)
    else
      var b := BoundsOf(boundary).value;
      var g := GridOver(b, resolution);
      if b.maxX - b.minX <= 0.0 || b.maxY - b.minY <= 0.0 then Err(NoArea)
      else if g.columns * g.rows > CELL_LIMIT then Err(TooManyCells)
      else if InsideCells(boundary, g) == {} then Err(NoCellsInside)
      else Ok(Report(boundary, b, g, tracks))
  }

  // ---- Row-major progress ----

  predicate Before(c: Cell, row: int, column: int) {
    c.row < row || (c.row == row && c.column < column)
  }

  ghost function UpTo(cells: set<Cell>, row: int, column: int): set<Cell> {
    set c | c in cells && Before(c, row, column)
  }

  lemma UpToNext(cells: set<Cell>, row: int, column: int)
    ensures UpTo(cells, row, column + 1)
         == UpTo(cells, row, column) + if Cell(row, column) in cells then {Cell(row, column)} else {}
    ensures |UpTo(cells, row, column + 1)|
         == |UpTo(cells, row, column)| + if Cell(row, column) in cells then 1 else 0
  {
    assert UpTo(cells, row, column + 1)
        == UpTo(cells, row, column) + if Cell(row, column) in cells then {Cell(row, column)} else {};
  }

  lemma UpToEnds(g: Grid, cells: set<Cell>, row: int)
    requires cells <= GridCells(g)
    ensures UpTo(cells, row, g.columns) == UpTo(cells, row + 1, 0)
    ensures UpTo(cells, 0, 0) == {}
    ensures row == g.rows ==> UpTo(cells, row, 0) == cells
  {
  }

  lemma RatiosAddUp(boundary: Polygon, g: Grid, tracks: seq<Track>)
    requires boundary != []
    ensures |InsideCells(boundary, g)| == |SweptCells(boundary, g, tracks, 1)| + |GapCells(boundary, g, tracks)|
  {
    hide Passes, InsidePolygon, Center;
    var swept, gap := SweptCells(boundary, g, tracks, 1), GapCells(boundary, g, tracks);
    assert swept !! gap;
    assert InsideCells(boundary, g) == swept + gap;
  }

  lemma RatioComplement(covered: real, gap: real, inside: real)
    requires inside > 0.0 && covered + gap == inside
    ensures 1.0 - covered / inside == gap / inside
  {
    QuotientBack(covered, inside);
    hide Times;
    TimesLinear(1.0, covered / inside, inside);
    TimesLinear(1.0 - covered / inside, 0.0, inside);
    TimesLinear(covered / inside, 0.0, inside);
    TimesUnits(inside);
    QuotientIs(gap, inside, 1.0 - covered / inside);
  }

  /** The straight-line code after the loops: the degenerate artifact when nothing is left uncovered. */
  function GapArtifacts(survey: Bounds, box: Option<Bounds>, resolution: real, ratio: real): Artifacts {
    if ratio <= 0.0 || box.None? then BoxArtifacts(survey, None, resolution)
    else BoxArtifacts(survey, box, resolution)
  }

  method CalculateCoverage(boundary: Polygon, tracks: seq<Track>, resolution: real)
    returns (r: Result<CoverageResult, CoverageError>)
    ensures r == Measure(boundary, tracks, resolution)
  {
    hide AreaOf, BoundsOf, InsideCells, SweptCells, GapCells, IsCellBox, Report, GapArtifacts, Ceil;
    if resolution <= 0.0 {
      return Err(ResolutionNotPositive);
    }
    if |tracks| == 0 {
      return Err(NoTracks);
    }
    var bounds := PolygonBounds(boundary);
    if bounds.None? {
      return Err(NoArea);
    }
    HasRings(boundary);
    var b := bounds.value;
    var width, height := b.maxX - b.minX, b.maxY - b.minY;
    if width <= 0.0 || height <= 0.0 {
      return Err(NoArea);
    }
    var columns := Ceil(width / resolution);
    var rows := Ceil(height / resolution);
    if columns * rows > CELL_LIMIT {
      return Err(TooManyCells);
    }
    ghost var g := GridOver(b, resolution);
    var grid := Grid(b.minX, b.minY, resolution, columns, rows);
    var inside, covered, overlap, gapBox := SurveyGrid(boundary, grid, tracks);
    if inside == 0 {
      return Err(NoCellsInside);
    }
    var coverageRatio := covered as real / inside as real;
    var overlapRatio := overlap as real / inside as real;
    var gapRatio := 1.0 - coverageRatio;
    var artifacts := GapArtifacts(b, gapBox, resolution, gapRatio);
    var area := PolygonArea(boundary);
    r := Ok(CoverageResult(area, coverageRatio, overlapRatio, gapRatio, artifacts, inside));
    GapFacts(boundary, b, g, tracks, gapBox);
  }

  /** The straight-line arithmetic agrees with the sets: the gap ratio is the share of uncovered
      cells, and the box decides the artifacts. */
  lemma GapFacts(boundary: Polygon, b: Bounds, g: Grid, tracks: seq<Track>, gapBox: Option<Bounds>)
    requires boundary != [] && InsideCells(boundary, g) != {}
    requires IsCellBox(g, GapCells(boundary, g, tracks), gapBox)
    ensures var inside := |InsideCells(boundary, g)|;
            var coverage := |SweptCells(boundary, g, tracks, 1)| as real / inside as real;
            var overlap := |SweptCells(boundary, g, tracks, 2)| as real / inside as real;
            var ratio := 1.0 - coverage;
            Report(boundary, b, g, tracks) == CoverageResult(
              AreaOf(boundary), coverage, overlap, ratio, GapArtifacts(b, gapBox, g.resolution, ratio), inside)
  {
    hide InsideCells, SweptCells, GapCells, BoxArtifacts, CellBox, AreaOf;
    var gap := GapCells(boundary, g, tracks);
    var inside, covered := |InsideCells(boundary, g)|, |SweptCells(boundary, g, tracks, 1)|;
    RatiosAddUp(boundary, g, tracks);
    RatioComplement(covered as real, |gap| as real, inside as real);
    CellBoxUnique(g, gap, gapBox, CellBox(g, gap));
    PositiveRatio(|gap| as real, inside as real);
    NoBoxForNoCells(g, gap, gapBox);
  }

  lemma NoBoxForNoCells(g: Grid, cells: set<Cell>, box: Option<Bounds>)
    requires IsCellBox(g, cells, box)
    ensures box.None? <==> |cells| == 0
  {
    hide CellSquare;
  }

  lemma PositiveRatio(n: real, d: real)
    requires n >= 0.0 && d > 0.0
    ensures n / d >= 0.0
    ensures n / d <= 0.0 <==> n == 0.0
  {
    QuotientBack(n, d);
    hide Times;
    TimesUnits(d);
    if n / d < 0.0 {
      TimesPositive(-(n / d), d);
      TimesNegate(n / d, d);
    } else if n / d > 0.0 {
      TimesPositive(n / d, d);
    }
  }

  lemma HasRings(boundary: Polygon)
    requires BoundsOf(boundary).Some?
    ensures boundary != []
  {
  }

  /** The two nested loops over rows and columns. */
  method SurveyGrid(boundary: Polygon, g: Grid, tracks: seq<Track>)
    returns (inside: int, covered: int, overlap: int, gapBox: Option<Bounds>)
    requires boundary != [] && g.columns >= 0 && g.rows >= 0
    ensures inside == |InsideCells(boundary, g)|
    ensures covered == |SweptCells(boundary, g, tracks, 1)|
    ensures overlap == |SweptCells(boundary, g, tracks, 2)|
    ensures IsCellBox(g, GapCells(boundary, g, tracks), gapBox)
  {
    hide IsCellBox, Passes, InsidePolygon, InsideCells, SweptCells, GapCells, UpTo, Center;
    inside, covered, overlap, gapBox := 0, 0, 0, None;
    ghost var all, once, twice, gap := InsideCells(boundary, g),
      SweptCells(boundary, g, tracks, 1), SweptCells(boundary, g, tracks, 2), GapCells(boundary, g, tracks);
    ProgressEnds(boundary, g, tracks, 0);
    EmptyBox(g);
    for row := 0 to g.rows
      invariant inside == |UpTo(all, row, 0)| && covered == |UpTo(once, row, 0)| && overlap == |UpTo(twice, row, 0)|
      invariant IsCellBox(g, UpTo(gap, row, 0), gapBox)
    {
      for column := 0 to g.columns
        invariant inside == |UpTo(all, row, column)| && covered == |UpTo(once, row, column)|
        invariant overlap == |UpTo(twice, row, column)|
        invariant IsCellBox(g, UpTo(gap, row, column), gapBox)
      {
        var point := Center(g, Cell(row, column));
        Visit(boundary, g, tracks, row, column);
        var contains := PolygonContains(boundary, point);
        if contains {
          inside := inside + 1;
          var passes := CoveragePasses(point, tracks);
          if passes > 0 {
            covered := covered + 1;
          }
          if passes > 1 {
            overlap := overlap + 1;
          }
          if passes == 0 {
            CellBoxWidens(g, UpTo(gap, row, column), gapBox, Cell(row, column));
            gapBox := WidenBox(gapBox, CellSquare(g, Cell(row, column)));
          }
        }
      }
      ProgressEnds(boundary, g, tracks, row);
    }
    ProgressEnds(boundary, g, tracks, g.rows);
  }

  lemma EmptyBox(g: Grid)
    ensures IsCellBox(g, {}, None)
  {
  }

  /** What visiting one cell adds to each of the four sets seen so far. */
  lemma Visit(boundary: Polygon, g: Grid, tracks: seq<Track>, row: int, column: int)
    requires boundary != [] && 0 <= row < g.rows && 0 <= column < g.columns
    ensures var point := Center(g, Cell(row, column));
            var inside, passes := InsidePolygon(boundary, point), Passes(point, tracks);
            var all, once := InsideCells(boundary, g), SweptCells(boundary, g, tracks, 1);
            var twice, gap := SweptCells(boundary, g, tracks, 2), GapCells(boundary, g, tracks);
            |UpTo(all, row, column + 1)| == |UpTo(all, row, column)| + (if inside then 1 else 0) &&
            |UpTo(once, row, column + 1)| == |UpTo(once, row, column)| + (if inside && passes >= 1 then 1 else 0) &&
            |UpTo(twice, row, column + 1)| == |UpTo(twice, row, column)| + (if inside && passes >= 2 then 1 else 0) &&
            UpTo(gap, row, column + 1)
              == UpTo(gap, row, column) + if inside && passes == 0 then {Cell(row, column)} else {}
  {
    hide Passes, InsidePolygon, UpTo;
    assert Cell(row, column) in GridCells(g);
    UpToNext(InsideCells(boundary, g), row, column);
    UpToNext(SweptCells(boundary, g, tracks, 1), row, column);
    UpToNext(SweptCells(boundary, g, tracks, 2), row, column);
    UpToNext(GapCells(boundary, g, tracks), row, column);
  }

  lemma ProgressEnds(boundary: Polygon, g: Grid, tracks: seq<Track>, row: int)
    requires boundary != []
    ensures forall s :: s in {InsideCells(boundary, g), SweptCells(boundary, g, tracks, 1),
                              SweptCells(boundary, g, tracks, 2), GapCells(boundary, g, tracks)} ==>
              UpTo(s, row, g.columns) == UpTo(s, row + 1, 0) && UpTo(s, 0, 0) == {} &&
              (row == g.rows ==> UpTo(s, row, 0) == s)
  {
    hide UpTo;
    UpToEnds(g, InsideCells(boundary, g), row);
    UpToEnds(g, SweptCells(boundary, g, tracks, 1), row);
    UpToEnds(g, SweptCells(boundary, g, tracks, 2), row);
    UpToEnds(g, GapCells(boundary, g, tracks), row);
  }
}
