/** What the coverage estimate guarantees: order of tracks is irrelevant, more tracks never hurt,
    and the grid errs by at most a cell. */
module CoverageLaws {
  import opened Outcome
  import opened RealMath
  import opened Segments
  import opened Rings
  import opened RingLaws
  import opened Coverage
  import opened States

  // ---- Order of the tracks ----

  lemma {:induction false} PassesWithout(p: Point, tracks: seq<Track>, i: nat)
    requires i < |tracks|
    ensures Passes(p, tracks) == Passes(p, tracks[..i] + tracks[i + 1..]) + if Sweeps(tracks[i], p) then 1 else 0
  {
    hide Sweeps;
    var n := |tracks|;
    var rest := tracks[..i] + tracks[i + 1..];
    if i == n - 1 {
      assert rest == tracks[..n - 1];
    } else {
      PassesWithout(p, tracks[..n - 1], i);
      assert rest[..n - 2] == tracks[..n - 1][..i] + tracks[..n - 1][i + 1..];
      assert rest[n - 2] == tracks[n - 1];
    }
  }

  /** Equal bags of tracks: the last of one is somewhere in the other, and the rests are equal bags. */
  lemma TakeLast(tracks: seq<Track>, other: seq<Track>) returns (i: nat)
    requires tracks != [] && multiset(tracks) == multiset(other)
    ensures i < |other| && other[i] == tracks[|tracks| - 1]
    ensures multiset(tracks[..|tracks| - 1]) == multiset(other[..i] + other[i + 1..])
  {
    var front, last := tracks[..|tracks| - 1], tracks[|tracks| - 1];
    assert tracks == front + [last];
    assert last in multiset(other);
    i :| 0 <= i < |other| && other[i] == last;
    var rest := other[..i] + other[i + 1..];
    assert other == other[..i] + [last] + other[i + 1..];
    assert multiset(other) == multiset(rest) + multiset{last};
    assert multiset(tracks) == multiset(front) + multiset{last};
    assert multiset(front) == multiset(tracks) - multiset{last};
    assert multiset(rest) == multiset(other) - multiset{last};
  }

  /** The number of passes depends on which tracks there are, not on their order. */
  lemma {:induction false} PassesReordered(p: Point, tracks: seq<Track>, other: seq<Track>)
    requires multiset(tracks) == multiset(other)
    ensures Passes(p, tracks) == Passes(p, other)
  {
    hide Sweeps;
    if tracks == [] {
      assert |multiset(other)| == 0;
    } else {
      var i := TakeLast(tracks, other);
      PassesReordered(p, tracks[..|tracks| - 1], other[..i] + other[i + 1..]);
      PassesWithout(p, other, i);
    }
  }

  /** Reordering the tracks changes nothing in the whole result, errors included. */
  lemma MeasureReordered(boundary: Polygon, tracks: seq<Track>, other: seq<Track>, resolution: real)
    requires multiset(tracks) == multiset(other)
    ensures Measure(boundary, tracks, resolution) == Measure(boundary, other, resolution)
  {
    hide BoundsOf, GridOver, InsideCells, Report;
    assert |tracks| == |multiset(tracks)| == |multiset(other)| == |other|;
    if BoundsOf(boundary).Some? && resolution > 0.0 {
      HasRings(boundary);
      var b := BoundsOf(boundary).value;
      var g := GridOver(b, resolution);
      if InsideCells(boundary, g) != {} {
        ReportReordered(boundary, b, g, tracks, other);
      }
    }
  }

  lemma ReportReordered(boundary: Polygon, b: Bounds, g: Grid, tracks: seq<Track>, other: seq<Track>)
    requires boundary != [] && InsideCells(boundary, g) != {}
    requires multiset(tracks) == multiset(other)
    ensures Report(boundary, b, g, tracks) == Report(boundary, b, g, other)
  {
    hide Passes, Center, InsidePolygon, CellBox, BoxArtifacts, AreaOf;
    forall p ensures Passes(p, tracks) == Passes(p, other) {
      PassesReordered(p, tracks, other);
    }
    assert SweptCells(boundary, g, tracks, 1) == SweptCells(boundary, g, other, 1);
    assert SweptCells(boundary, g, tracks, 2) == SweptCells(boundary, g, other, 2);
    assert GapCells(boundary, g, tracks) == GapCells(boundary, g, other);
  }

  // ---- Ratios ----

  lemma SubsetShare(part: set<Cell>, whole: set<Cell>, total: int)
    requires part <= whole && total > 0
    ensures |part| <= |whole|
    ensures |part| as real / total as real <= |whole| as real / total as real
  {
    CardinalityMonotone(part, whole);
    QuotientMonotone(|part| as real, |whole| as real, total as real);
  }

  lemma {:induction false} CardinalityMonotone(part: set<Cell>, whole: set<Cell>)
    requires part <= whole
    ensures |part| <= |whole|
    ensures |part| == |whole| ==> part == whole
  {
    var rest := whole - part;
    assert whole == part + rest;
  }

  lemma QuotientMonotone(m: real, n: real, d: real)
    requires m <= n && d > 0.0
    ensures m / d <= n / d
  {
    hide *;
    PositiveRatio(n - m, d);
    RatioSplits(m, n, d);
  }

  lemma RatioSplits(m: real, n: real, d: real)
    requires d > 0.0
    ensures n / d == m / d + (n - m) / d
  {
    QuotientBack(m, d);
    QuotientBack(n - m, d);
    hide Times;
    TimesLinear(m / d, (n - m) / d, d);
    TimesLinear(m / d + (n - m) / d, 0.0, d);
    TimesLinear(m / d, 0.0, d);
    TimesLinear((n - m) / d, 0.0, d);
    QuotientIs(n, d, m / d + (n - m) / d);
  }

  /** Every reported ratio lies in the unit interval, overlap within coverage, and coverage and gap
      share the inside cells out between them. */
  lemma RatiosShareOut(boundary: Polygon, tracks: seq<Track>, resolution: real)
    requires Measure(boundary, tracks, resolution).Ok?
    ensures var r := Measure(boundary, tracks, resolution).value;
            0.0 <= r.overlapRatio <= r.coverageRatio <= 1.0 && 0.0 <= r.gapRatio &&
            r.coverageRatio + r.gapRatio == 1.0 && r.sampleCells > 0
  {
    hide Passes, Center, InsidePolygon, BoundsOf, Ceil, CellBox, BoxArtifacts, AreaOf;
    HasRings(boundary);
    var g := GridOver(BoundsOf(boundary).value, resolution);
    var all, gap := InsideCells(boundary, g), GapCells(boundary, g, tracks);
    var once, twice := SweptCells(boundary, g, tracks, 1), SweptCells(boundary, g, tracks, 2);
    SubsetShare(twice, once, |all|);
    RatiosAddUp(boundary, g, tracks);
    RatioComplement(|once| as real, |gap| as real, |all| as real);
    PositiveRatio(|twice| as real, |all| as real);
    PositiveRatio(|gap| as real, |all| as real);
  }

  /** Gap ratio zero means exactly that no inside cell is uncovered. */
  lemma NoGapMeansNoGapCell(boundary: Polygon, tracks: seq<Track>, resolution: real)
    requires Measure(boundary, tracks, resolution).Ok?
    ensures boundary != [] && BoundsOf(boundary).Some?
    ensures Measure(boundary, tracks, resolution).value.gapRatio == 0.0
       <==> GapCells(boundary, GridOver(BoundsOf(boundary).value, resolution), tracks) == {}
  {
    hide BoundsOf, Ceil, CellBox, BoxArtifacts, AreaOf, GapCells, SweptCells, InsideCells;
    HasRings(boundary);
    var g := GridOver(BoundsOf(boundary).value, resolution);
    PositiveRatio(|GapCells(boundary, g, tracks)| as real, |InsideCells(boundary, g)| as real);
  }

  lemma RatioAgainst(gap: nat, inside: nat, percent: nat)
    requires inside > 0
    ensures gap as real / inside as real >= percent as real / 100.0 <==> 100 * gap >= percent * inside
  {
    var q := gap as real / inside as real;
    QuotientBack(gap as real, inside as real);
    var p := percent as real / 100.0;
    assert 100.0 * Times(p, inside as real) == (percent * inside) as real by { PercentOf(percent, inside); }
    hide Times;
    if q >= p {
      TimesMonotone(p, q, inside as real);
    } else {
      TimesPositive(p - q, inside as real);
      TimesLinear(p, q, inside as real);
      TimesLinear(p - q, 0.0, inside as real);
      TimesLinear(p, 0.0, inside as real);
      TimesLinear(q, 0.0, inside as real);
    }
  }

  lemma PercentOf(percent: nat, inside: nat)
    ensures 100.0 * Times(percent as real / 100.0, inside as real) == (percent * inside) as real
  {
    assert (percent * inside) as real == percent as real * inside as real;
  }

  /** A gap is critical exactly when at least twelve in a hundred of the sampled cells are uncovered, and
      minor exactly when fewer than five are. */
  lemma SeverityCountsCells(boundary: Polygon, tracks: seq<Track>, resolution: real)
    requires Measure(boundary, tracks, resolution).Ok?
    ensures boundary != [] && BoundsOf(boundary).Some? && resolution > 0.0
    ensures var g := GridOver(BoundsOf(boundary).value, resolution);
            var gap, inside := |GapCells(boundary, g, tracks)|, |InsideCells(boundary, g)|;
            var severity := SeverityForRatio(Measure(boundary, tracks, resolution).value.gapRatio);
            (severity == Critical <==> 100 * gap >= 12 * inside) && (severity == Minor <==> 100 * gap < 5 * inside)
  {
    hide BoundsOf, Ceil, CellBox, BoxArtifacts, AreaOf, GapCells, SweptCells, InsideCells;
    HasRings(boundary);
    var g := GridOver(BoundsOf(boundary).value, resolution);
    var gap, inside := |GapCells(boundary, g, tracks)|, |InsideCells(boundary, g)|;
    RatioAgainst(gap, inside, 12);
    RatioAgainst(gap, inside, 5);
  }

  /** A boundary the parser accepts is never refused for having no area. */
  lemma ValidBoundaryHasArea(boundary: Polygon, tracks: seq<Track>, resolution: real)
    requires ValidPolygon(boundary)
    ensures Measure(boundary, tracks, resolution) != Err(NoArea)
  {
    hide ValidPolygon, BoundsOf, InsideCells, Report, GridOver;
    ValidHasExtent(boundary);
  }

  // ---- What is counted ----

  /** No cell centred in a hole is inside, covered, overlapped or a gap cell. */
  lemma HoleCellsNeverCounted(boundary: Polygon, i: nat, g: Grid, tracks: seq<Track>, n: nat, c: Cell)
    requires 1 <= i < |boundary| && InsideRing(boundary[i], Center(g, c))
    ensures c !in InsideCells(boundary, g) && c !in SweptCells(boundary, g, tracks, n)
    ensures c !in GapCells(boundary, g, tracks)
  {
    hide InsideRing, Center, Passes;
  }

  predicate SweptByOne(tracks: seq<Track>, p: Point) {
    exists u :: 0 <= u < |tracks| && Sweeps(tracks[u], p)
  }

  predicate SweptByTwo(tracks: seq<Track>, p: Point) {
    exists u, v :: 0 <= u < v < |tracks| && Sweeps(tracks[u], p) && Sweeps(tracks[v], p)
  }

  lemma {:induction false} PassesCountTracks(p: Point, tracks: seq<Track>)
    ensures Passes(p, tracks) >= 1 <==> SweptByOne(tracks, p)
    ensures Passes(p, tracks) >= 2 <==> SweptByTwo(tracks, p)
  {
    hide Sweeps;
    if tracks != [] {
      var front, last := tracks[..|tracks| - 1], |tracks| - 1;
      PassesCountTracks(p, front);
      assert forall u :: 0 <= u < |front| ==> front[u] == tracks[u];
      if SweptByTwo(tracks, p) && !SweptByTwo(front, p) {
        var u, v :| 0 <= u < v < |tracks| && Sweeps(tracks[u], p) && Sweeps(tracks[v], p);
        assert v == last && Sweeps(front[u], p);
      }
      if Sweeps(tracks[last], p) && SweptByOne(front, p) {
        var u :| 0 <= u < |front| && Sweeps(front[u], p);
        assert Sweeps(tracks[u], p);
      }
    }
  }

  /** The ratios are shares of the inside cells: those some track sweeps, those two different tracks sweep,
      those none sweeps. */
  lemma RatiosCountTracks(boundary: Polygon, tracks: seq<Track>, resolution: real)
    requires Measure(boundary, tracks, resolution).Ok?
    ensures boundary != [] && BoundsOf(boundary).Some? && resolution > 0.0
    ensures var g, r := GridOver(BoundsOf(boundary).value, resolution), Measure(boundary, tracks, resolution).value;
            var inside := InsideCells(boundary, g);
            Times(r.coverageRatio, |inside| as real)
              == |set c | c in inside && SweptByOne(tracks, Center(g, c))| as real &&
            Times(r.overlapRatio, |inside| as real)
              == |set c | c in inside && SweptByTwo(tracks, Center(g, c))| as real &&
            Times(r.gapRatio, |inside| as real)
              == |set c | c in inside && !SweptByOne(tracks, Center(g, c))| as real &&
            r.sampleCells == |inside| > 0
  {
    hide BoundsOf, Ceil, CellBox, BoxArtifacts, AreaOf, Passes, Center, InsidePolygon, SweptByOne, SweptByTwo, Times;
    HasRings(boundary);
    var g := GridOver(BoundsOf(boundary).value, resolution);
    var inside := InsideCells(boundary, g);
    forall p
      ensures Passes(p, tracks) >= 1 <==> SweptByOne(tracks, p)
      ensures Passes(p, tracks) >= 2 <==> SweptByTwo(tracks, p)
    {
      PassesCountTracks(p, tracks);
    }
    var one, two := SweptCells(boundary, g, tracks, 1), SweptCells(boundary, g, tracks, 2);
    var none := GapCells(boundary, g, tracks);
    assert one == set c | c in inside && SweptByOne(tracks, Center(g, c));
    assert two == set c | c in inside && SweptByTwo(tracks, Center(g, c));
    assert none == set c | c in inside && !SweptByOne(tracks, Center(g, c));
    QuotientBack(|one| as real, |inside| as real);
    QuotientBack(|two| as real, |inside| as real);
    QuotientBack(|none| as real, |inside| as real);
  }

  /** `n` cells of side `r` are the fewest that span `w`. */
  predicate Spans(n: int, w: real, r: real) {
    Times((n - 1) as real, r) < w <= Times(n as real, r)
  }

  lemma CeilSpans(n: int, w: real, r: real)
    requires r > 0.0
    ensures Spans(n, w, r) <==> n == Ceil(w / r)
  {
    var q := w / r;
    QuotientBack(w, r);
    hide Times;
    CompareTimes((n - 1) as real, q, r);
    CompareTimes(q, n as real, r);
    if Spans(n, w, r) {
      CeilUnique(q, n);
    }
  }

  lemma CompareTimes(a: real, b: real, r: real)
    requires r > 0.0
    ensures Times(a, r) < Times(b, r) <==> a < b
    ensures Times(a, r) <= Times(b, r) <==> a <= b
  {
    if a < b {
      TimesPositive(b - a, r);
    } else if b < a {
      TimesPositive(a - b, r);
    }
    hide Times;
    TimesLinear(b, a, r);
    TimesLinear(b - a, 0.0, r);
    TimesLinear(a - b, 0.0, r);
    TimesLinear(a, b, r);
    TimesLinear(a, 0.0, r);
    TimesLinear(b, 0.0, r);
  }

  /** Which computations are refused, and for what, in order. */
  lemma RefusedExactly(boundary: Polygon, tracks: seq<Track>, resolution: real, columns: int, rows: int)
    ensures var m := Measure(boundary, tracks, resolution);
            (m == Err(ResolutionNotPositive) <==> resolution <= 0.0) &&
            (m == Err(NoTracks) <==> resolution > 0.0 && |tracks| == 0) &&
            (resolution > 0.0 && |tracks| > 0 ==>
               (m == Err(NoArea) <==> (
                  BoundsOf(boundary).None? ||
                  BoundsOf(boundary).value.maxX <= BoundsOf(boundary).value.minX ||
                  BoundsOf(boundary).value.maxY <= BoundsOf(boundary).value.minY)) &&
               (m != Err(NoArea) &&
                Spans(columns, BoundsOf(boundary).value.maxX - BoundsOf(boundary).value.minX, resolution) &&
                Spans(rows, BoundsOf(boundary).value.maxY - BoundsOf(boundary).value.minY, resolution) ==>
                  (m == Err(TooManyCells) <==> columns * rows > 60000) &&
                  (m == Err(NoCellsInside) <==>
                     columns * rows <= 60000 && !SomeCentreInside(boundary, columns, rows, resolution))))
  {
    hide AreaOf, CellBox, BoxArtifacts, Report, BoundsOf, Ceil, Center, InsidePolygon, Spans;
    if BoundsOf(boundary).Some? && resolution > 0.0 {
      HasRings(boundary);
      var b := BoundsOf(boundary).value;
      CeilSpans(columns, b.maxX - b.minX, resolution);
      CeilSpans(rows, b.maxY - b.minY, resolution);
      var g := GridOver(b, resolution);
      if columns == g.columns && rows == g.rows {
        CentresInside(boundary, columns, rows, resolution);
      }
    }
  }

  predicate CentreAt(boundary: Polygon, row: int, column: int, resolution: real)
    requires boundary != [] && BoundsOf(boundary).Some?
  {
    var b := BoundsOf(boundary).value;
    InsidePolygon(boundary, Point(b.minX + (column as real + 0.5) * resolution,
                                  b.minY + (row as real + 0.5) * resolution))
  }

  predicate SomeCentreInside(boundary: Polygon, columns: int, rows: int, resolution: real) {
    boundary != [] && BoundsOf(boundary).Some? &&
    exists row, column :: 0 <= row < rows && 0 <= column < columns && CentreAt(boundary, row, column, resolution)
  }

  lemma CentreAtCell(boundary: Polygon, row: int, column: int, resolution: real)
    requires boundary != [] && BoundsOf(boundary).Some? && resolution > 0.0
    ensures CentreAt(boundary, row, column, resolution)
       <==> InsidePolygon(boundary, Center(GridOver(BoundsOf(boundary).value, resolution), Cell(row, column)))
  {
    hide BoundsOf, InsidePolygon, Ceil;
    CentreCoordinates(BoundsOf(boundary).value, row, column, resolution);
  }

  lemma CentreCoordinates(b: Bounds, row: int, column: int, resolution: real)
    requires resolution > 0.0
    ensures Center(GridOver(b, resolution), Cell(row, column))
         == Point(b.minX + (column as real + 0.5) * resolution, b.minY + (row as real + 0.5) * resolution)
  {
  }

  lemma CentresInside(boundary: Polygon, columns: int, rows: int, resolution: real)
    requires boundary != [] && BoundsOf(boundary).Some? && resolution > 0.0
    requires columns == GridOver(BoundsOf(boundary).value, resolution).columns
    requires rows == GridOver(BoundsOf(boundary).value, resolution).rows
    ensures SomeCentreInside(boundary, columns, rows, resolution)
       <==> InsideCells(boundary, GridOver(BoundsOf(boundary).value, resolution)) != {}
  {
    hide BoundsOf, InsidePolygon, Ceil, Center, CentreAt;
    var g := GridOver(BoundsOf(boundary).value, resolution);
    if SomeCentreInside(boundary, columns, rows, resolution) {
      var row, column :| 0 <= row < rows && 0 <= column < columns && CentreAt(boundary, row, column, resolution);
      CentreAtCell(boundary, row, column, resolution);
      assert Cell(row, column) in GridCells(g);
      assert Cell(row, column) in InsideCells(boundary, g);
    }
    if InsideCells(boundary, g) != {} {
      var c :| c in InsideCells(boundary, g);
      CentreAtCell(boundary, c.row, c.column, resolution);
      assert CentreAt(boundary, c.row, c.column, resolution);
    }
  }

  // ---- More tracks, wider swaths ----

  /** Every point is swept at least as often by `more` as by `less`. */
  ghost predicate Outdoes(more: seq<Track>, less: seq<Track>) {
    forall p :: Passes(p, more) >= Passes(p, less)
  }

  lemma AppendingOutdoes(tracks: seq<Track>, extra: Track)
    ensures Outdoes(tracks + [extra], tracks)
  {
    forall p ensures Passes(p, tracks + [extra]) >= Passes(p, tracks) {
      assert (tracks + [extra])[..|tracks|] == tracks;
    }
  }

  lemma WideningOutdoes(tracks: seq<Track>, i: nat, wider: real)
    requires i < |tracks| && tracks[i].swath <= wider
    ensures Outdoes(tracks[i := tracks[i].(swath := wider)], tracks)
  {
    var track := tracks[i];
    var changed := track.(swath := wider);
    forall p ensures Passes(p, tracks[i := changed]) >= Passes(p, tracks) {
      WiderSweeps(track, wider, p);
      hide Passes, Sweeps;
      PassesWithout(p, tracks, i);
      PassesWithout(p, tracks[i := changed], i);
      assert tracks[i := changed][..i] + tracks[i := changed][i + 1..] == tracks[..i] + tracks[i + 1..];
    }
  }

  lemma WiderSweeps(track: Track, wider: real, p: Point)
    requires track.swath <= wider
    ensures Sweeps(track, p) ==> Sweeps(track.(swath := wider), p)
  {
    hide Near;
    if Sweeps(track, p) {
      var i :| 0 <= i < |track.lines| && LineSweeps(p, track.lines[i], track.swath);
      var line := track.lines[i];
      var k :| 0 <= k < |line| - 1 && LegSweeps(p, line, k, track.swath);
      NearWidens(p, line[k], line[k + 1], track.swath, wider);
      assert LegSweeps(p, line, k, wider);
      assert LineSweeps(p, line, wider);
    }
  }

  /** The box of the uncovered cells of a run. */
  ghost function GapBox(boundary: Polygon, tracks: seq<Track>, resolution: real): Option<Bounds>
    requires boundary != [] && BoundsOf(boundary).Some? && resolution > 0.0
  {
    var g := GridOver(BoundsOf(boundary).value, resolution);
    CellBox(g, GapCells(boundary, g, tracks))
  }

  lemma FewerCellsSmallerBox(g: Grid, cells: set<Cell>, more: set<Cell>)
    requires cells <= more
    ensures var inner, outer := CellBox(g, cells), CellBox(g, more);
            inner.Some? ==> outer.Some? && Encloses(outer.value, inner.value)
  {
    hide CellSquare, CellBox;
  }

  /** Sweeping more never lowers coverage or overlap, never raises the gap or its severity, and
      leaves any remaining gap box inside the old one. It never turns a run into an error. */
  lemma OutdoingImproves(boundary: Polygon, less: seq<Track>, more: seq<Track>, resolution: real)
    requires Outdoes(more, less) && more != []
    requires Measure(boundary, less, resolution).Ok?
    ensures Measure(boundary, more, resolution).Ok?
    ensures var r, s := Measure(boundary, less, resolution).value, Measure(boundary, more, resolution).value;
            s.coverageRatio >= r.coverageRatio && s.overlapRatio >= r.overlapRatio && s.gapRatio <= r.gapRatio &&
            s.sampleCells == r.sampleCells && s.area == r.area &&
            SeverityRank(SeverityForRatio(s.gapRatio)) <= SeverityRank(SeverityForRatio(r.gapRatio))
    ensures boundary != [] && BoundsOf(boundary).Some? && resolution > 0.0
    ensures var inner, outer := GapBox(boundary, more, resolution), GapBox(boundary, less, resolution);
            inner.Some? ==> outer.Some? && Encloses(outer.value, inner.value)
  {
    hide Passes, Center, InsidePolygon, BoundsOf, Ceil, CellBox, BoxArtifacts, AreaOf, Encloses;
    HasRings(boundary);
    var g := GridOver(BoundsOf(boundary).value, resolution);
    var n := |InsideCells(boundary, g)|;
    SubsetShare(SweptCells(boundary, g, less, 1), SweptCells(boundary, g, more, 1), n);
    SubsetShare(SweptCells(boundary, g, less, 2), SweptCells(boundary, g, more, 2), n);
    SubsetShare(GapCells(boundary, g, more), GapCells(boundary, g, less), n);
    FewerCellsSmallerBox(g, GapCells(boundary, g, more), GapCells(boundary, g, less));
  }

  /** One track alone never overlaps itself. */
  lemma SingleTrackNeverOverlaps(boundary: Polygon, track: Track, resolution: real)
    requires Measure(boundary, [track], resolution).Ok?
    ensures Measure(boundary, [track], resolution).value.overlapRatio == 0.0
  {
    hide Center, InsidePolygon, BoundsOf, Ceil, CellBox, BoxArtifacts, AreaOf, Sweeps;
    HasRings(boundary);
    var g := GridOver(BoundsOf(boundary).value, resolution);
    forall p ensures Passes(p, [track]) <= 1 {
      assert [track][..0] == [];
    }
    assert SweptCells(boundary, g, [track], 2) == {};
    PositiveRatio(0.0, |InsideCells(boundary, g)| as real);
  }

  // ---- Discretisation error ----

  /** Some point of the named leg lies within half its track's swath plus `extra` of `q`. */
  predicate Reaches(tracks: seq<Track>, t: int, line: int, leg: int, q: Point, extra: real) {
    0 <= t < |tracks| && 0 <= line < |tracks[t].lines| && 0 <= leg < |tracks[t].lines[line]| - 1 &&
    var reach := tracks[t].swath / 2.0 + extra;
    reach >= 0.0 &&
    SegmentDistanceSquared(q, tracks[t].lines[line][leg], tracks[t].lines[line][leg + 1]) <= Square(reach)
  }

  /** A point of a cell's square is no further from the centre than any `slack` whose square doubled
      reaches the squared resolution; the resolution itself is one. */
  lemma SquareRadius(g: Grid, c: Cell, q: Point, slack: real)
    requires g.resolution > 0.0 && slack >= 0.0 && 2.0 * Square(slack) >= Square(g.resolution)
    requires Within(q, CellSquare(g, c))
    ensures DistanceSquared(q, Center(g, c)) <= Square(slack)
    ensures DistanceSquared(Center(g, c), q) <= Square(slack)
  {
    hide Center, Square;
    var p, half := Center(g, c), g.resolution / 2.0;
    var dx, dy := q.x - p.x, q.y - p.y;
    SquareOfSum(dx, 0.0);
    SquareOfSum(dy, 0.0);
    assert p.x - q.x == -dx && p.y - q.y == -dy;
    SquareOrder(Abs(dx), half);
    SquareOrder(Abs(dy), half);
    SquareOfSum(half, half);
    SquareIsTimes(half);
    assert half + half == g.resolution;
  }

  lemma SweepingLeg(p: Point, tracks: seq<Track>) returns (t: int, line: int, leg: int)
    requires Passes(p, tracks) > 0
    ensures 0 <= t < |tracks| && 0 <= line < |tracks[t].lines| && 0 <= leg < |tracks[t].lines[line]| - 1
    ensures Near(p, tracks[t].lines[line][leg], tracks[t].lines[line][leg + 1], tracks[t].swath)
  {
    hide Near;
    var n := |tracks|;
    if Sweeps(tracks[n - 1], p) {
      t := n - 1;
      line :| 0 <= line < |tracks[t].lines| && LineSweeps(p, tracks[t].lines[line], tracks[t].swath);
      leg :| 0 <= leg < |tracks[t].lines[line]| - 1 && LegSweeps(p, tracks[t].lines[line], leg, tracks[t].swath);
    } else {
      t, line, leg := SweepingLeg(p, tracks[..n - 1]);
    }
  }

  lemma {:induction false} LegSweepsCounts(p: Point, tracks: seq<Track>, t: int, line: int, leg: int)
    requires 0 <= t < |tracks| && 0 <= line < |tracks[t].lines| && 0 <= leg < |tracks[t].lines[line]| - 1
    requires Near(p, tracks[t].lines[line][leg], tracks[t].lines[line][leg + 1], tracks[t].swath)
    ensures Passes(p, tracks) > 0
  {
    hide Near;
    var n := |tracks|;
    if t == n - 1 {
      assert LegSweeps(p, tracks[t].lines[line], leg, tracks[t].swath);
      assert LineSweeps(p, tracks[t].lines[line], tracks[t].swath);
    } else {
      LegSweepsCounts(p, tracks[..n - 1], t, line, leg);
    }
  }

  lemma SegmentTriangle(q: Point, p: Point, a: Point, b: Point, m: real, n: real)
    requires m >= 0.0 && n >= 0.0
    requires DistanceSquared(q, p) <= Square(m)
    requires SegmentDistanceSquared(p, a, b) <= Square(n)
    ensures SegmentDistanceSquared(q, a, b) <= Square(m + n)
  {
    hide *;
    var s := NearestAttained(p, a, b);
    Triangle(q, p, Along(a, b, s), m, n);
    NearestOnSegment(q, a, b, s);
  }

  /** Every point of a covered cell's square is within half the swath plus the slack of some track. */
  lemma CoveredSquareIsNearTrack(boundary: Polygon, g: Grid, tracks: seq<Track>, c: Cell, q: Point, slack: real)
    requires boundary != [] && g.resolution > 0.0
    requires slack >= 0.0 && 2.0 * Square(slack) >= Square(g.resolution)
    requires c in SweptCells(boundary, g, tracks, 1) && Within(q, CellSquare(g, c))
    ensures exists t, line, leg :: Reaches(tracks, t, line, leg, q, slack)
  {
    hide InsidePolygon, Center, SegmentDistanceSquared, DistanceSquared, Passes, Square, Within, CellSquare;
    var p := Center(g, c);
    var t, line, leg := SweepingLeg(p, tracks);
    SquareRadius(g, c, q, slack);
    var a, b := tracks[t].lines[line][leg], tracks[t].lines[line][leg + 1];
    SegmentTriangle(q, p, a, b, slack, tracks[t].swath / 2.0);
    assert slack + tracks[t].swath / 2.0 == tracks[t].swath / 2.0 + slack;
    assert Reaches(tracks, t, line, leg, q, slack);
  }

  /** An inside cell any point of whose square lies within half the swath less the slack of a track
      is counted covered. */
  lemma NearTrackMeansCovered(boundary: Polygon, g: Grid, tracks: seq<Track>, c: Cell, q: Point, slack: real,
                              t: int, line: int, leg: int)
    requires boundary != [] && g.resolution > 0.0
    requires slack >= 0.0 && 2.0 * Square(slack) >= Square(g.resolution)
    requires c in InsideCells(boundary, g) && Within(q, CellSquare(g, c))
    requires Reaches(tracks, t, line, leg, q, -slack)
    ensures c in SweptCells(boundary, g, tracks, 1)
  {
    hide InsidePolygon, Center, SegmentDistanceSquared, DistanceSquared, Passes, Square, Within, CellSquare;
    var p := Center(g, c);
    SquareRadius(g, c, q, slack);
    var a, b := tracks[t].lines[line][leg], tracks[t].lines[line][leg + 1];
    SegmentTriangle(p, q, a, b, slack, tracks[t].swath / 2.0 - slack);
    assert slack + (tracks[t].swath / 2.0 - slack) == tracks[t].swath / 2.0;
    LegSweepsCounts(p, tracks, t, line, leg);
  }

  /** The resolution is always slack enough. */
  lemma ResolutionIsSlack(resolution: real)
    requires resolution > 0.0
    ensures 2.0 * Square(resolution) >= Square(resolution)
  {
    SquareNonNegative(resolution);
  }
}
