/** The recommended line closes the gap: measuring again with that one line added leaves nothing
    uncovered exactly when its swath reaches across the gap box, less one cell. */
module Resurvey {
  import opened Outcome
  import opened RealMath
  import opened Segments
  import opened Rings
  import opened Coverage
  import opened CoverageLaws
  import opened States

  /** Distance to a horizontal segment from a point between its ends is the vertical offset. */
  lemma HorizontalDistance(p: Point, x0: real, x1: real, y: real)
    requires x0 <= p.x <= x1 && x0 < x1
    ensures SegmentDistanceSquared(p, Point(x0, y), Point(x1, y)) == Square(p.y - y)
  {
    var a, b := Point(x0, y), Point(x1, y);
    hide SegmentDistanceSquared, NormSquared;
    var s := NearestAttained(p, a, b);
    NormAtLeast(p.x - Along(a, b, s).x, p.y - y);
    assert Along(a, b, s).y == y;
    var t := (p.x - x0) / (x1 - x0);
    UnitQuotient(p.x - x0, x1 - x0);
    QuotientBack(p.x - x0, x1 - x0);
    assert Along(a, b, t).x == p.x && Along(a, b, t).y == y;
    NormAtLeast(0.0, p.y - y);
    NearestOnSegment(p, a, b, t);
  }

  lemma VerticalDistance(p: Point, x: real, y0: real, y1: real)
    requires y0 <= p.y <= y1 && y0 < y1
    ensures SegmentDistanceSquared(p, Point(x, y0), Point(x, y1)) == Square(p.x - x)
  {
    var a, b := Point(x, y0), Point(x, y1);
    hide SegmentDistanceSquared, NormSquared;
    var s := NearestAttained(p, a, b);
    NormAtLeast(p.x - x, p.y - Along(a, b, s).y);
    assert Along(a, b, s).x == x;
    var t := (p.y - y0) / (y1 - y0);
    UnitQuotient(p.y - y0, y1 - y0);
    QuotientBack(p.y - y0, y1 - y0);
    assert Along(a, b, t).y == p.y && Along(a, b, t).x == x;
    NormAtLeast(p.x - x, 0.0);
    NearestOnSegment(p, a, b, t);
  }

  lemma NormAtLeast(x: real, y: real)
    ensures NormSquared(x, y) >= Square(x) && NormSquared(x, y) >= Square(y)
    ensures NormSquared(0.0, y) == Square(y) && NormSquared(x, 0.0) == Square(x)
  {
    SquareNonNegative(x);
    SquareNonNegative(y);
  }

  predicate Wide(b: Bounds) {
    b.maxX - b.minX >= b.maxY - b.minY
  }

  function ShorterSide(b: Bounds): real {
    if Wide(b) then b.maxY - b.minY else b.maxX - b.minX
  }

  /** How far the point lies across the resurvey line. */
  function Offset(b: Bounds, p: Point): real {
    if Wide(b) then p.y - (b.minY + b.maxY) / 2.0 else p.x - (b.minX + b.maxX) / 2.0
  }

  lemma OffsetIsDistance(g: Grid, b: Bounds, c: Cell)
    requires g.resolution > 0.0 && Encloses(b, CellSquare(g, c))
    ensures var p, line := Center(g, c), ResurveyLine(b, g.resolution);
            |line| == 2 && SegmentDistanceSquared(p, line[0], line[1]) == Square(Offset(b, p)) &&
            Abs(Offset(b, p)) <= (ShorterSide(b) - g.resolution) / 2.0
  {
    hide Center, SegmentDistanceSquared, Square;
    var p, r := Center(g, c), g.resolution;
    if Wide(b) {
      HorizontalDistance(p, b.minX - r, b.maxX + r, (b.minY + b.maxY) / 2.0);
    } else {
      VerticalDistance(p, (b.minX + b.maxX) / 2.0, b.minY - r, b.maxY + r);
    }
  }

  /** Some cell of the box is as far across the line as the box allows. */
  lemma FarthestCell(g: Grid, cells: set<Cell>, b: Bounds) returns (c: Cell)
    requires g.resolution > 0.0 && IsCellBox(g, cells, Some(b))
    ensures c in cells && Abs(Offset(b, Center(g, c))) == (ShorterSide(b) - g.resolution) / 2.0
  {
    hide Center;
    if Wide(b) {
      c :| c in cells && CellSquare(g, c).minY == b.minY;
    } else {
      c :| c in cells && CellSquare(g, c).minX == b.minX;
    }
    assert Encloses(b, CellSquare(g, c));
  }

  lemma SingleLineSweeps(track: Track, p: Point)
    requires |track.lines| == 1 && |track.lines[0]| == 2
    ensures Sweeps(track, p) <==> Near(p, track.lines[0][0], track.lines[0][1], track.swath)
  {
    hide Near;
    var line := track.lines[0];
    if Near(p, line[0], line[1], track.swath) {
      assert LegSweeps(p, line, 0, track.swath);
      assert LineSweeps(p, line, track.swath);
    }
  }

  /** The resurvey track sweeps a cell of the box exactly when half its swath spans the offset. */
  lemma ResurveySweeps(g: Grid, b: Bounds, c: Cell, runId: nat, swath: real)
    requires g.resolution > 0.0 && Encloses(b, CellSquare(g, c))
    ensures Sweeps(Track(runId, [ResurveyLine(b, g.resolution)], swath), Center(g, c))
       <==> 2.0 * Abs(Offset(b, Center(g, c))) <= swath
  {
    hide Center, SegmentDistanceSquared, Square, Offset, Sweeps, Encloses;
    var p := Center(g, c);
    OffsetIsDistance(g, b, c);
    SingleLineSweeps(Track(runId, [ResurveyLine(b, g.resolution)], swath), p);
    var off := Offset(b, p);
    AbsSquare(off);
    if swath >= 0.0 {
      SquareOrder(Abs(off), swath / 2.0);
    }
  }

  lemma AbsSquare(a: real)
    ensures Square(Abs(a)) == Square(a)
  {
    SquareOfSum(a, 0.0);
  }

  /** Cells the extra track leaves uncovered are the old gap cells it does not sweep. */
  lemma GapAfterAppending(boundary: Polygon, g: Grid, tracks: seq<Track>, extra: Track)
    requires boundary != []
    ensures forall c :: c in GapCells(boundary, g, tracks + [extra])
                   <==> c in GapCells(boundary, g, tracks) && !Sweeps(extra, Center(g, c))
  {
    hide Sweeps, Center, InsidePolygon;
    assert (tracks + [extra])[..|tracks|] == tracks;
  }

  lemma BoxClosedIff(boundary: Polygon, g: Grid, tracks: seq<Track>, b: Bounds, runId: nat, swath: real)
    requires boundary != [] && g.resolution > 0.0
    requires IsCellBox(g, GapCells(boundary, g, tracks), Some(b))
    ensures GapCells(boundary, g, tracks + [Track(runId, [ResurveyLine(b, g.resolution)], swath)]) == {}
       <==> swath >= ShorterSide(b) - g.resolution
  {
    hide Center, InsideCells, Sweeps, Offset, ShorterSide, GapCells, CellSquare, ResurveyLine, Encloses;
    var extra := Track(runId, [ResurveyLine(b, g.resolution)], swath);
    var gap := GapCells(boundary, g, tracks);
    GapAfterAppending(boundary, g, tracks, extra);
    forall c | c in gap
      ensures Sweeps(extra, Center(g, c)) <==> 2.0 * Abs(Offset(b, Center(g, c))) <= swath
      ensures 2.0 * Abs(Offset(b, Center(g, c))) <= ShorterSide(b) - g.resolution
    {
      ResurveySweeps(g, b, c, runId, swath);
      OffsetIsDistance(g, b, c);
    }
    var far := FarthestCell(g, gap, b);
    var after := GapCells(boundary, g, tracks + [extra]);
    assert forall c :: c in after <==> c in gap && !Sweeps(extra, Center(g, c));
    assert far in after <==> swath < ShorterSide(b) - g.resolution;
  }

  /** Flying the recommended line closes the gap if and only if its swath is at least the gap box's
      shorter side less the resolution; closed means gap ratio zero, so severity minor. */
  lemma ResurveyClosesGap(boundary: Polygon, tracks: seq<Track>, resolution: real, runId: nat, swath: real)
    requires Measure(boundary, tracks, resolution).Ok?
    requires Measure(boundary, tracks, resolution).value.gapRatio > 0.0
    ensures boundary != [] && BoundsOf(boundary).Some? && GapBox(boundary, tracks, resolution).Some?
    ensures var line := Measure(boundary, tracks, resolution).value.artifacts.recommended;
            var after := Measure(boundary, tracks + [Track(runId, [line], swath)], resolution);
            var box := GapBox(boundary, tracks, resolution).value;
            after.Ok? &&
            (after.value.gapRatio == 0.0 <==> swath >= ShorterSide(box) - resolution) &&
            (after.value.gapRatio == 0.0 ==> SeverityForRatio(after.value.gapRatio) == Minor)
  {
    hide BoundsOf, GapCells, InsideCells, SweptCells, CellBox, AreaOf, IsCellBox, ShorterSide, ResurveyLine, Passes;
    HasRings(boundary);
    var g := GridOver(BoundsOf(boundary).value, resolution);
    var gap := GapCells(boundary, g, tracks);
    NoGapMeansNoGapCell(boundary, tracks, resolution);
    NoBoxForNoCells(g, gap, CellBox(g, gap));
    var box := CellBox(g, gap).value;
    var extra := Track(runId, [ResurveyLine(box, resolution)], swath);
    AppendingOutdoes(tracks, extra);
    OutdoingImproves(boundary, tracks, tracks + [extra], resolution);
    NoGapMeansNoGapCell(boundary, tracks + [extra], resolution);
    BoxClosedIff(boundary, g, tracks, box, runId, swath);
  }

  // ---- The whole box ----

  /** The box carried on by one resolution past both of its short sides. */
  predicate InLengthened(p: Point, b: Bounds, resolution: real) {
    if Wide(b) then b.minX - resolution <= p.x <= b.maxX + resolution && b.minY <= p.y <= b.maxY
    else b.minX <= p.x <= b.maxX && b.minY - resolution <= p.y <= b.maxY + resolution
  }

  lemma ResurveySweepsPoint(b: Bounds, resolution: real, p: Point, runId: nat, swath: real)
    requires resolution > 0.0 && b.minX < b.maxX && b.minY < b.maxY && InLengthened(p, b, resolution)
    ensures Sweeps(Track(runId, [ResurveyLine(b, resolution)], swath), p) <==> 2.0 * Abs(Offset(b, p)) <= swath
  {
    hide SegmentDistanceSquared, Square, Sweeps;
    if Wide(b) {
      HorizontalDistance(p, b.minX - resolution, b.maxX + resolution, (b.minY + b.maxY) / 2.0);
    } else {
      VerticalDistance(p, (b.minX + b.maxX) / 2.0, b.minY - resolution, b.maxY + resolution);
    }
    SingleLineSweeps(Track(runId, [ResurveyLine(b, resolution)], swath), p);
    AbsSquare(Offset(b, p));
    if swath >= 0.0 {
      SquareOrder(Abs(Offset(b, p)), swath / 2.0);
    }
  }

  /** The recommended line sweeps the whole box, and one resolution past each short side, if and only if
      its swath is the box's shorter side or more. */
  lemma ResurveySweepsLengthenedBox(b: Bounds, resolution: real, runId: nat, swath: real)
    requires resolution > 0.0 && b.minX < b.maxX && b.minY < b.maxY
    ensures (forall p :: InLengthened(p, b, resolution) ==>
               Sweeps(Track(runId, [ResurveyLine(b, resolution)], swath), p))
       <==> swath >= ShorterSide(b)
  {
    hide Sweeps, ResurveyLine;
    forall p | InLengthened(p, b, resolution)
      ensures Sweeps(Track(runId, [ResurveyLine(b, resolution)], swath), p) <==> 2.0 * Abs(Offset(b, p)) <= swath
      ensures 2.0 * Abs(Offset(b, p)) <= ShorterSide(b)
    {
      ResurveySweepsPoint(b, resolution, p, runId, swath);
    }
    var corner := Point(b.minX, b.minY);
    assert InLengthened(corner, b, resolution) && 2.0 * Abs(Offset(b, corner)) == ShorterSide(b);
  }
}
