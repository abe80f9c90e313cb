/** Generated transects: the stepping loop, and how far flying its lines covers the area. */
module TransectLines {
  import opened Outcome
  import opened RealMath
  import opened Segments
  import opened Rings
  import opened RingLaws
  import opened Coverage
  import opened CoverageLaws
  import opened Rectangles
  import opened Resurvey

  datatype GenerateError = BoundaryInvalid | SpacingExceedsSpan | NoTransects

  predicate Horizontal(heading: real) {
    (45.0 <= heading < 135.0) || (225.0 <= heading < 315.0)
  }

  /** The heading lies within an eighth of a turn of east, or of west for odd `k`. */
  predicate NearEastWest(heading: real, k: int) {
    -45.0 <= heading - 90.0 - 180.0 * k as real < 45.0
  }

  /** The lines of the plan run from west to east exactly when the heading is nearer to that axis. */
  ghost predicate RunsAlongHeading(lines: seq<Line>, heading: real) {
    forall i :: 0 <= i < |lines| ==>
      |lines[i]| == 2 &&
      (lines[i][0].y == lines[i][1].y <==> exists k :: NearEastWest(heading, k)) &&
      (lines[i][0].x == lines[i][1].x <==> !exists k :: NearEastWest(heading, k))
  }

  lemma HorizontalExactly(heading: real)
    requires 0.0 <= heading < 360.0
    ensures Horizontal(heading) <==> exists k :: NearEastWest(heading, k)
  {
    if 45.0 <= heading < 135.0 {
      assert NearEastWest(heading, 0);
    } else if 225.0 <= heading < 315.0 {
      assert NearEastWest(heading, 1);
    }
  }

  /** Half a turn keeps the axis the lines run along and a quarter turn changes it. */
  lemma HeadingTurned(heading: real)
    requires 0.0 <= heading < 360.0
    ensures heading < 180.0 ==> Horizontal(heading + 180.0) == Horizontal(heading)
    ensures heading < 270.0 ==> Horizontal(heading + 90.0) != Horizontal(heading)
    ensures Horizontal(90.0) && !Horizontal(0.0)
  {
  }

  lemma PlanRunsAlongHeading(b: Bounds, heading: real, spacing: real, lines: seq<Line>)
    requires b.minX < b.maxX && b.minY < b.maxY && 0.0 <= heading < 360.0
    requires IsPlan(b, Horizontal(heading), spacing, lines)
    ensures RunsAlongHeading(lines, heading)
  {
    hide Position;
    HorizontalExactly(heading);
  }

  /** The span the lines step across: from `Low` to `High`. */
  function Low(b: Bounds, horizontal: bool): real {
    if horizontal then b.minY else b.minX
  }

  function High(b: Bounds, horizontal: bool): real {
    if horizontal then b.maxY else b.maxX
  }

  function Position(b: Bounds, horizontal: bool, spacing: real, k: int): real {
    Low(b, horizontal) + spacing / 2.0 + k as real * spacing
  }

  function Transect(b: Bounds, horizontal: bool, at: real): Line {
    if horizontal then [Point(b.minX, at), Point(b.maxX, at)] else [Point(at, b.minY), Point(at, b.maxY)]
  }

  /** `lines` are the transects half a spacing in and then every spacing, as many as start below
      the far side. */
  predicate IsPlan(b: Bounds, horizontal: bool, spacing: real, lines: seq<Line>) {
    (forall k :: 0 <= k < |lines| ==>
       lines[k] == Transect(b, horizontal, Position(b, horizontal, spacing, k)) &&
       Position(b, horizontal, spacing, k) < High(b, horizontal)) &&
    High(b, horizontal) <= Position(b, horizontal, spacing, |lines|)
  }

  /** Lines still to come when the next one would lie at `at`. */
  function LinesLeft(at: real, high: real, spacing: real): nat
    requires spacing > 0.0
  {
    if at >= high then 0 else (PositiveRatio(high - at, spacing); Ceil((high - at) / spacing))
  }

  /** The measure scaled by the spacing drops at each step, however small the spacing. */
  lemma StepsDown(at: real, high: real, spacing: real)
    requires spacing > 0.0 && at < high
    ensures LinesLeft(at + spacing, high, spacing) < LinesLeft(at, high, spacing)
  {
    PositiveRatio(high - at, spacing);
    OneLess(high - at, spacing);
    hide Ceil;
    assert high - (at + spacing) == high - at - spacing;
  }

  lemma OneLess(n: real, d: real)
    requires d > 0.0
    ensures (n - d) / d == n / d - 1.0
  {
    RatioSplits(n, n - d, d);
    QuotientIs(n - d - n, d, -1.0);
  }

  method Generate(polygon: Polygon, heading: real, spacing: real) returns (r: Result<seq<Line>, GenerateError>)
    requires spacing > 0.0
    ensures r == Err(BoundaryInvalid) <==> !ValidPolygon(polygon)
    ensures ValidPolygon(polygon) ==>
              BoundsOf(polygon).Some? &&
              var b, horizontal := BoundsOf(polygon).value, Horizontal(heading);
              (r == Err(SpacingExceedsSpan) <==> spacing > b.maxX - b.minX && spacing > b.maxY - b.minY) &&
              (r == Err(NoTransects) <==>
                 spacing <= Max(b.maxX - b.minX, b.maxY - b.minY) &&
                 High(b, horizontal) <= Low(b, horizontal) + spacing / 2.0) &&
              (r.Ok? ==> r.value != [] && IsPlan(b, horizontal, spacing, r.value)) &&
              (r.Ok? && 0.0 <= heading < 360.0 ==> RunsAlongHeading(r.value, heading))
  {
    hide ValidPolygon, BoundsOf, IsPlan, RunsAlongHeading;
    var valid := ValidatePolygon(polygon);
    if valid.Err? {
      return Err(BoundaryInvalid);
    }
    ValidHasExtent(polygon);
    var bounds := PolygonBounds(polygon);
    var b := bounds.value;
    if spacing > Max(b.maxX - b.minX, b.maxY - b.minY) {
      return Err(SpacingExceedsSpan);
    }
    var lines := StepAcross(b, Horizontal(heading), spacing);
    if |lines| == 0 {
      return Err(NoTransects);
    }
    if 0.0 <= heading < 360.0 {
      PlanRunsAlongHeading(b, heading, spacing, lines);
    }
    return Ok(lines);
  }

  /** Both loops of the source, which differ only in the axis they step along. */
  method StepAcross(b: Bounds, horizontal: bool, spacing: real) returns (lines: seq<Line>)
    requires spacing > 0.0
    ensures IsPlan(b, horizontal, spacing, lines)
    ensures lines == [] <==> High(b, horizontal) <= Low(b, horizontal) + spacing / 2.0
  {
    hide LinesLeft;
    lines := [];
    var at := Low(b, horizontal) + spacing / 2.0;
    NextPosition(b, horizontal, spacing, 0);
    while at < High(b, horizontal)
      invariant at == Position(b, horizontal, spacing, |lines|)
      invariant forall k :: 0 <= k < |lines| ==>
                  lines[k] == Transect(b, horizontal, Position(b, horizontal, spacing, k)) &&
                  Position(b, horizontal, spacing, k) < High(b, horizontal)
      invariant lines != [] ==> Low(b, horizontal) + spacing / 2.0 < High(b, horizontal)
      decreases LinesLeft(at, High(b, horizontal), spacing)
    {
      StepsDown(at, High(b, horizontal), spacing);
      NextPosition(b, horizontal, spacing, |lines|);
      lines := lines + [Transect(b, horizontal, at)];
      at := at + spacing;
    }
  }

  lemma NextPosition(b: Bounds, horizontal: bool, spacing: real, k: int)
    ensures Position(b, horizontal, spacing, k + 1) == Position(b, horizontal, spacing, k) + spacing
    ensures Position(b, horizontal, spacing, 0) == Low(b, horizontal) + spacing / 2.0
  {
    var n := k as real;
    assert (k + 1) as real == n + 1.0;
    assert (n + 1.0) * spacing == n * spacing + spacing;
  }

  // ---- Coverage of a flown plan ----

  /** The coordinate of a point along the axis the lines step across. */
  function Across(p: Point, horizontal: bool): real {
    if horizontal then p.y else p.x
  }

  lemma TransectDistance(b: Bounds, horizontal: bool, at: real, p: Point)
    requires InHalfOpenBox(p, b)
    ensures var line := Transect(b, horizontal, at);
            |line| == 2 && SegmentDistanceSquared(p, line[0], line[1]) == Square(Across(p, horizontal) - at)
  {
    hide SegmentDistanceSquared, Square;
    if horizontal {
      HorizontalDistance(p, b.minX, b.maxX, at);
    } else {
      VerticalDistance(p, at, b.minY, b.maxY);
    }
  }

  /** The flown plan sweeps a point of the box exactly when some line is within half the swath. */
  lemma PlanSweeps(b: Bounds, horizontal: bool, spacing: real, track: Track, p: Point)
    requires IsPlan(b, horizontal, spacing, track.lines) && InHalfOpenBox(p, b)
    ensures Sweeps(track, p) <==>
            exists k :: 0 <= k < |track.lines| &&
              2.0 * Abs(Across(p, horizontal) - Position(b, horizontal, spacing, k)) <= track.swath
  {
    hide SegmentDistanceSquared, Square, Position, Across, High, Transect, LineSweeps;
    forall k | 0 <= k < |track.lines|
      ensures LineSweeps(p, track.lines[k], track.swath) <==>
              2.0 * Abs(Across(p, horizontal) - Position(b, horizontal, spacing, k)) <= track.swath
    {
      LineSweepsWithin(b, horizontal, Position(b, horizontal, spacing, k), p, track.swath);
    }
  }

  lemma LineSweepsWithin(b: Bounds, horizontal: bool, at: real, p: Point, swath: real)
    requires InHalfOpenBox(p, b)
    ensures LineSweeps(p, Transect(b, horizontal, at), swath) <==> 2.0 * Abs(Across(p, horizontal) - at) <= swath
  {
    hide SegmentDistanceSquared, Square, Transect, Across;
    var line := Transect(b, horizontal, at);
    var off := Across(p, horizontal) - at;
    TransectDistance(b, horizontal, at, p);
    AbsSquare(off);
    if swath >= 0.0 {
      SquareOrder(Abs(off), swath / 2.0);
    }
    if Near(p, line[0], line[1], swath) {
      assert LegSweeps(p, line, 0, swath);
    }
  }

  /** Short of half a spacing past the last line, some line is within half a spacing. */
  lemma {:induction false} NearestLine(b: Bounds, horizontal: bool, spacing: real, n: nat, v: real) returns (k: int)
    requires spacing > 0.0 && n >= 1
    requires Low(b, horizontal) <= v <= Position(b, horizontal, spacing, n - 1) + spacing / 2.0
    ensures 0 <= k < n && 2.0 * Abs(v - Position(b, horizontal, spacing, k)) <= spacing
  {
    hide Position;
    NextPosition(b, horizontal, spacing, n - 2);
    if n == 1 || v >= Position(b, horizontal, spacing, n - 1) - spacing / 2.0 {
      k := n - 1;
    } else {
      k := NearestLine(b, horizontal, spacing, n - 1, v);
    }
  }

  /** Lines only get further from a point at or beyond the last, and from a point at the near side. */
  lemma {:induction false} PositionsOrdered(b: Bounds, horizontal: bool, spacing: real, j: nat, k: nat)
    requires spacing > 0.0 && j <= k
    ensures Position(b, horizontal, spacing, j) <= Position(b, horizontal, spacing, k)
  {
    hide Position;
    if j < k {
      PositionsOrdered(b, horizontal, spacing, j, k - 1);
      NextPosition(b, horizontal, spacing, k - 1);
    }
  }

  /** The strip the plan leaves beyond its last line. */
  function Remainder(b: Bounds, horizontal: bool, spacing: real, lines: seq<Line>): real {
    High(b, horizontal) - Position(b, horizontal, spacing, |lines| - 1)
  }

  lemma RemainderWithinSpacing(b: Bounds, horizontal: bool, spacing: real, lines: seq<Line>)
    requires lines != [] && IsPlan(b, horizontal, spacing, lines)
    ensures 0.0 < Remainder(b, horizontal, spacing, lines) <= spacing
  {
    hide Position;
    NextPosition(b, horizontal, spacing, |lines| - 1);
  }

  /** When the span is a whole number of spacings the last line is half a spacing short of the end. */
  lemma WholeMultipleRemainder(b: Bounds, horizontal: bool, spacing: real, lines: seq<Line>, m: nat)
    requires spacing > 0.0 && lines != [] && IsPlan(b, horizontal, spacing, lines)
    requires High(b, horizontal) - Low(b, horizontal) == m as real * spacing
    ensures |lines| == m
    ensures Remainder(b, horizontal, spacing, lines) == spacing / 2.0
  {
    NextPosition(b, horizontal, spacing, m - 1);
    assert Position(b, horizontal, spacing, m) == High(b, horizontal) + spacing / 2.0;
    assert Position(b, horizontal, spacing, m - 1) == High(b, horizontal) - spacing / 2.0;
    hide Position;
    if |lines| < m {
      PositionsOrdered(b, horizontal, spacing, |lines|, m - 1);
    }
  }

  /** Every point of the box is swept exactly when the swath is at least the spacing and at least
      twice the strip beyond the last line. */
  lemma PlanSweepsWholeBox(b: Bounds, horizontal: bool, spacing: real, track: Track)
    requires spacing > 0.0 && b.minX < b.maxX && b.minY < b.maxY
    requires track.lines != [] && IsPlan(b, horizontal, spacing, track.lines)
    ensures (forall p :: InHalfOpenBox(p, b) ==> Sweeps(track, p)) <==>
            track.swath >= spacing && track.swath >= 2.0 * Remainder(b, horizontal, spacing, track.lines)
  {
    hide Sweeps, IsPlan, Position;
    if track.swath >= spacing && track.swath >= 2.0 * Remainder(b, horizontal, spacing, track.lines) {
      forall p | InHalfOpenBox(p, b) ensures Sweeps(track, p) {
        SweptWhenWide(b, horizontal, spacing, track, p);
      }
    } else {
      var p := UnsweptPoint(b, horizontal, spacing, track);
    }
  }

  lemma SweptWhenWide(b: Bounds, horizontal: bool, spacing: real, track: Track, p: Point)
    requires spacing > 0.0 && InHalfOpenBox(p, b)
    requires track.lines != [] && IsPlan(b, horizontal, spacing, track.lines)
    requires track.swath >= spacing
    requires Across(p, horizontal) <= Position(b, horizontal, spacing, |track.lines| - 1) + spacing / 2.0
          || track.swath >= 2.0 * Remainder(b, horizontal, spacing, track.lines)
    ensures Sweeps(track, p)
  {
    hide Sweeps, IsPlan, Position;
    PlanSweeps(b, horizontal, spacing, track, p);
    var v, last := Across(p, horizontal), |track.lines| - 1;
    if v <= Position(b, horizontal, spacing, last) + spacing / 2.0 {
      var k := NearestLine(b, horizontal, spacing, |track.lines|, v);
    } else {
      assert 2.0 * Abs(v - Position(b, horizontal, spacing, last)) <= track.swath;
    }
  }

  function PlaceAcross(b: Bounds, horizontal: bool, v: real): Point {
    if horizontal then Point(b.minX, v) else Point(v, b.minY)
  }

  lemma UnsweptPoint(b: Bounds, horizontal: bool, spacing: real, track: Track) returns (p: Point)
    requires spacing > 0.0 && b.minX < b.maxX && b.minY < b.maxY
    requires track.lines != [] && IsPlan(b, horizontal, spacing, track.lines)
    requires track.swath < spacing || track.swath < 2.0 * Remainder(b, horizontal, spacing, track.lines)
    ensures InHalfOpenBox(p, b) && !Sweeps(track, p)
  {
    hide Sweeps, IsPlan, Position;
    var n := |track.lines|;
    var last := Position(b, horizontal, spacing, n - 1);
    RemainderWithinSpacing(b, horizontal, spacing, track.lines);
    NextPosition(b, horizontal, spacing, 0);
    PositionsOrdered(b, horizontal, spacing, 0, n - 1);
    var v := if track.swath < spacing then Low(b, horizontal)
             else (last + track.swath / 2.0 + High(b, horizontal)) / 2.0;
    p := PlaceAcross(b, horizontal, v);
    PlanSweeps(b, horizontal, spacing, track, p);
    forall k | 0 <= k < n
      ensures 2.0 * Abs(Across(p, horizontal) - Position(b, horizontal, spacing, k)) > track.swath
    {
      PositionsOrdered(b, horizontal, spacing, 0, k);
      PositionsOrdered(b, horizontal, spacing, k, n - 1);
    }
  }

  /** With a swath at least the spacing, whatever a flown plan leaves uncovered lies beyond its last
      line, by more than half a spacing and less than a whole one. */
  lemma UncoveredOnlyBeyondLastLine(boundary: Polygon, horizontal: bool, spacing: real, tracks: seq<Track>, t: int,
                                    resolution: real, c: Cell)
    requires spacing > 0.0 && 0 <= t < |tracks| && tracks[t].lines != [] && tracks[t].swath >= spacing
    requires resolution > 0.0
    requires boundary != [] && BoundsOf(boundary).Some?
    requires IsPlan(BoundsOf(boundary).value, horizontal, spacing, tracks[t].lines)
    requires c in GapCells(boundary, GridOver(BoundsOf(boundary).value, resolution), tracks)
    ensures var b := BoundsOf(boundary).value;
            var beyond := Across(Center(GridOver(b, resolution), c), horizontal)
                        - Position(b, horizontal, spacing, |tracks[t].lines| - 1);
            spacing / 2.0 < beyond < spacing &&
            tracks[t].swath < 2.0 * Remainder(b, horizontal, spacing, tracks[t].lines)
  {
    hide Measure, BoundsOf, IsPlan, Center, Sweeps, InsidePolygon, Position, GridOver;
    var b := BoundsOf(boundary).value;
    var p := Center(GridOver(b, resolution), c);
    ContainedWithinBounds(boundary, p);
    SweptTrackCounts(p, tracks, t);
    RemainderWithinSpacing(b, horizontal, spacing, tracks[t].lines);
    if Across(p, horizontal) <= Position(b, horizontal, spacing, |tracks[t].lines| - 1) + spacing / 2.0
       || tracks[t].swath >= 2.0 * Remainder(b, horizontal, spacing, tracks[t].lines) {
      SweptWhenWide(b, horizontal, spacing, tracks[t], p);
    }
  }

  lemma SweptTrackCounts(p: Point, tracks: seq<Track>, t: int)
    requires 0 <= t < |tracks|
    ensures Sweeps(tracks[t], p) ==> Passes(p, tracks) > 0
  {
    hide Sweeps;
    PassesWithout(p, tracks, t);
  }

  // ---- Exactly what a flown plan leaves ----

  /** No line of the plan is within half the swath of a point that far across. */
  predicate OutOfReach(b: Bounds, horizontal: bool, spacing: real, count: nat, swath: real, v: real) {
    forall k :: 0 <= k < count ==> 2.0 * Abs(v - Position(b, horizontal, spacing, k)) > swath
  }

  /** With a swath at least the spacing, only what lies beyond the last line is out of reach. */
  lemma OutOfReachIsBeyond(b: Bounds, horizontal: bool, spacing: real, count: nat, swath: real, v: real)
    requires spacing > 0.0 && count >= 1 && swath >= spacing && v >= Low(b, horizontal)
    ensures OutOfReach(b, horizontal, spacing, count, swath, v)
       <==> v > Position(b, horizontal, spacing, count - 1) + swath / 2.0
  {
    hide Position;
    var last := Position(b, horizontal, spacing, count - 1);
    if v > last + swath / 2.0 {
      forall k | 0 <= k < count ensures 2.0 * Abs(v - Position(b, horizontal, spacing, k)) > swath {
        PositionsOrdered(b, horizontal, spacing, k, count - 1);
      }
    } else if v > last + spacing / 2.0 {
      assert 2.0 * Abs(v - last) <= swath;
    } else {
      var k := NearestLine(b, horizontal, spacing, count, v);
    }
  }

  predicate SweptByAnother(tracks: seq<Track>, t: int, p: Point) {
    exists u :: 0 <= u < |tracks| && u != t && Sweeps(tracks[u], p)
  }

  lemma {:induction false} PassedBySome(p: Point, tracks: seq<Track>)
    ensures Passes(p, tracks) == 0 <==> forall u :: 0 <= u < |tracks| ==> !Sweeps(tracks[u], p)
  {
    hide Sweeps;
    if tracks != [] {
      var front := tracks[..|tracks| - 1];
      PassedBySome(p, front);
      assert forall u :: 0 <= u < |front| ==> front[u] == tracks[u];
    }
  }

  /** Which cells a flown plan leaves uncovered, for any swath: the inside cells out of reach of all its
      lines that no other track sweeps. */
  lemma FlownPlanGapCells(boundary: Polygon, horizontal: bool, spacing: real, tracks: seq<Track>, t: int,
                          resolution: real, c: Cell)
    requires 0 <= t < |tracks| && resolution > 0.0
    requires boundary != [] && BoundsOf(boundary).Some?
    requires IsPlan(BoundsOf(boundary).value, horizontal, spacing, tracks[t].lines)
    ensures var b := BoundsOf(boundary).value;
            var g := GridOver(b, resolution);
            var p := Center(g, c);
            c in GapCells(boundary, g, tracks) <==>
            c in InsideCells(boundary, g) && !SweptByAnother(tracks, t, p) &&
            OutOfReach(b, horizontal, spacing, |tracks[t].lines|, tracks[t].swath, Across(p, horizontal))
  {
    hide BoundsOf, IsPlan, Center, Sweeps, InsidePolygon, Position, GridOver, InHalfOpenBox, Passes;
    var b := BoundsOf(boundary).value;
    var g := GridOver(b, resolution);
    var p := Center(g, c);
    if c in InsideCells(boundary, g) {
      ContainedInHalfOpenBox(boundary, p);
      PlanSweeps(b, horizontal, spacing, tracks[t], p);
      PassedBySome(p, tracks);
    }
  }

  lemma ContainedInHalfOpenBox(boundary: Polygon, p: Point)
    requires boundary != [] && InsidePolygon(boundary, p)
    ensures BoundsOf(boundary).Some? && InHalfOpenBox(p, BoundsOf(boundary).value)
  {
    hide BoundsOf, InsidePolygon;
    ContainedWithinBounds(boundary, p);
  }

  /** A flown plan leaves no gap exactly when every inside cell is within half the swath of one of its
      lines or swept by another track. */
  lemma FlownPlanLeavesNoGapExactly(boundary: Polygon, horizontal: bool, spacing: real, tracks: seq<Track>, t: int,
                                    resolution: real)
    requires 0 <= t < |tracks| && Measure(boundary, tracks, resolution).Ok?
    requires boundary != [] && BoundsOf(boundary).Some?
    requires IsPlan(BoundsOf(boundary).value, horizontal, spacing, tracks[t].lines)
    ensures resolution > 0.0
    ensures var b := BoundsOf(boundary).value;
            var g := GridOver(b, resolution);
            Measure(boundary, tracks, resolution).value.gapRatio == 0.0 <==>
            forall c :: c in InsideCells(boundary, g) ==>
              SweptByAnother(tracks, t, Center(g, c)) ||
              !OutOfReach(b, horizontal, spacing, |tracks[t].lines|, tracks[t].swath, Across(Center(g, c), horizontal))
  {
    hide Measure, BoundsOf, IsPlan, Center, SweptByAnother, OutOfReach, GridOver, InsideCells, GapCells;
    MeasuredResolution(boundary, tracks, resolution);
    NoGapMeansNoGapCell(boundary, tracks, resolution);
    forall c
      ensures c in GapCells(boundary, GridOver(BoundsOf(boundary).value, resolution), tracks) <==>
              c in InsideCells(boundary, GridOver(BoundsOf(boundary).value, resolution)) &&
              !SweptByAnother(tracks, t, Center(GridOver(BoundsOf(boundary).value, resolution), c)) &&
              OutOfReach(BoundsOf(boundary).value, horizontal, spacing, |tracks[t].lines|, tracks[t].swath,
                         Across(Center(GridOver(BoundsOf(boundary).value, resolution), c), horizontal))
    {
      FlownPlanGapCells(boundary, horizontal, spacing, tracks, t, resolution, c);
    }
  }

  /** Flown alone with a swath at least the spacing, a plan leaves no gap exactly when no inside cell's
      centre lies further past the last line than half the swath. */
  lemma FlownAloneLeavesNoGapExactly(boundary: Polygon, horizontal: bool, spacing: real, track: Track, resolution: real)
    requires spacing > 0.0 && track.lines != [] && track.swath >= spacing
    requires Measure(boundary, [track], resolution).Ok?
    requires boundary != [] && BoundsOf(boundary).Some?
    requires IsPlan(BoundsOf(boundary).value, horizontal, spacing, track.lines)
    ensures resolution > 0.0
    ensures var b := BoundsOf(boundary).value;
            var g := GridOver(b, resolution);
            Measure(boundary, [track], resolution).value.gapRatio == 0.0 <==>
            forall c :: c in InsideCells(boundary, g) ==>
              Across(Center(g, c), horizontal)
                <= Position(b, horizontal, spacing, |track.lines| - 1) + track.swath / 2.0
  {
    hide Measure, BoundsOf, IsPlan, Center, OutOfReach, Position, InsidePolygon, GridOver, InHalfOpenBox, Across, Low;
    FlownPlanLeavesNoGapExactly(boundary, horizontal, spacing, [track], 0, resolution);
    var b := BoundsOf(boundary).value;
    var g := GridOver(b, resolution);
    forall c | c in InsideCells(boundary, g)
      ensures OutOfReach(b, horizontal, spacing, |track.lines|, track.swath, Across(Center(g, c), horizontal)) <==>
              Across(Center(g, c), horizontal) > Position(b, horizontal, spacing, |track.lines| - 1) + track.swath / 2.0
    {
      ContainedInHalfOpenBox(boundary, Center(g, c));
      AcrossFromLow(b, horizontal, Center(g, c));
      OutOfReachIsBeyond(b, horizontal, spacing, |track.lines|, track.swath, Across(Center(g, c), horizontal));
    }
  }

  lemma AcrossFromLow(b: Bounds, horizontal: bool, p: Point)
    requires InHalfOpenBox(p, b)
    ensures Low(b, horizontal) <= Across(p, horizontal) < High(b, horizontal)
  {
  }

  /** Flying a generated plan covers the area, whatever else is flown: the gap ratio is zero once the swath
      is at least the spacing and at least twice the strip beyond the last line; twice the spacing is always
      enough, and the spacing itself is when it divides the span. */
  lemma FlownPlanLeavesNoGap(boundary: Polygon, horizontal: bool, spacing: real, tracks: seq<Track>, t: int,
                             resolution: real, m: nat)
    requires spacing > 0.0 && 0 <= t < |tracks| && tracks[t].lines != []
    requires Measure(boundary, tracks, resolution).Ok?
    requires boundary != [] && BoundsOf(boundary).Some?
    requires IsPlan(BoundsOf(boundary).value, horizontal, spacing, tracks[t].lines)
    ensures var b, swath := BoundsOf(boundary).value, tracks[t].swath;
            (swath >= spacing && swath >= 2.0 * Remainder(b, horizontal, spacing, tracks[t].lines))
            || swath >= 2.0 * spacing
            || (swath >= spacing && High(b, horizontal) - Low(b, horizontal) == m as real * spacing)
            ==> Measure(boundary, tracks, resolution).value.gapRatio == 0.0
  {
    hide Measure, BoundsOf, IsPlan, Center, OutOfReach, InsidePolygon, Position, GridOver, InHalfOpenBox, Across,
         SweptByAnother, Low, High;
    var b, swath := BoundsOf(boundary).value, tracks[t].swath;
    var last := Position(b, horizontal, spacing, |tracks[t].lines| - 1);
    RemainderWithinSpacing(b, horizontal, spacing, tracks[t].lines);
    if High(b, horizontal) - Low(b, horizontal) == m as real * spacing {
      WholeMultipleRemainder(b, horizontal, spacing, tracks[t].lines, m);
    }
    FlownPlanLeavesNoGapExactly(boundary, horizontal, spacing, tracks, t, resolution);
    var g := GridOver(b, resolution);
    if swath >= spacing && swath >= 2.0 * Remainder(b, horizontal, spacing, tracks[t].lines) {
      forall c | c in InsideCells(boundary, g)
        ensures !OutOfReach(b, horizontal, spacing, |tracks[t].lines|, swath, Across(Center(g, c), horizontal))
      {
        ContainedInHalfOpenBox(boundary, Center(g, c));
        AcrossFromLow(b, horizontal, Center(g, c));
        OutOfReachIsBeyond(b, horizontal, spacing, |tracks[t].lines|, swath, Across(Center(g, c), horizontal));
        assert last + Remainder(b, horizontal, spacing, tracks[t].lines) == High(b, horizontal);
      }
    }
  }

  lemma MeasuredResolution(boundary: Polygon, tracks: seq<Track>, resolution: real)
    requires Measure(boundary, tracks, resolution).Ok?
    ensures resolution > 0.0
  {
  }

  // ---- A flown plan that leaves a gap ----

  /** A swath equal to the spacing is not enough in general: a 10 by 10 square with lines every 7,
      flown at swath 7, keeps a gap beyond its only line. */
  lemma SpacingAloneCanLeaveGap()
    ensures var b := Bounds(0.0, 0.0, 10.0, 10.0);
            var lines := [Transect(b, true, 3.5)];
            var run := Measure(Rectangle(b, true), [Track(1, lines, 7.0)], 5.0);
            IsPlan(b, true, 7.0, lines) && run.Ok? && run.value.gapRatio > 0.0
  {
    var b := Bounds(0.0, 0.0, 10.0, 10.0);
    var track := Track(1, [Transect(b, true, 3.5)], 7.0);
    var boundary := Rectangle(b, true);
    assert IsPlan(b, true, 7.0, track.lines);
    var g, c := GridOver(b, 5.0), Cell(1, 0);
    CeilUnique(10.0 / 5.0, 2);
    CeilUnique(10.0 / 5.0 - 0.5, 2);
    var p := Center(g, c);
    assert p == Point(2.5, 7.5);
    PlanSweeps(b, true, 7.0, track, p);
    RectangleBounds(b, true);
    RectangleContains(b, true, p);
    hide Sweeps, Rectangle, InsidePolygon, BoundsOf, AreaOf, CellBox, BoxArtifacts, IsPlan;
    assert !Sweeps(track, p);
    assert [track][..0] == [];
    assert Passes(p, [track]) == 0;
    assert c in GridCells(g);
    assert c in InsideCells(boundary, g);
    assert c in GapCells(boundary, g, [track]);
    RatiosShareOut(boundary, [track], 5.0);
    NoGapMeansNoGapCell(boundary, [track], 5.0);
  }
}
