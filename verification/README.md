# Sonar survey coverage, verified

This project models the Go backend of a planner for sonar surveys and proves properties of the model
in Dafny. A survey area has a polygonal boundary. Plans hold the lines a vessel is to follow, runs hold
the tracks it did follow, and a coverage computation lays a grid over the boundary, decides which cells
the tracks swept, and stores what is left over as a gap with a severity and a recommended extra line.
Rows change through service calls that read, check and then write conditionally, several at a time.

`dafny verify dfyconfig.toml` checks the whole project.

## What is here

**Geometry** (exact reals). `Segments`, `Rings` and `RingLaws` hold point-to-segment distance, ray
casting, the shoelace area and bounds. `Coverage` proves the grid loops equal to a declarative `Measure`
built from sets of cells; `CoverageLaws`, `Fragments`, `Resurvey` and `Rectangles` are about `Measure`.
`TransectLines` holds the line-stepping loop and what flying its lines covers. Distances are compared as
squares, so no square roots appear, and an infinite starting bound is `None`.

**Workflow.** `Store` has the rows, each SQL statement as one function on the database, and the object
whose methods perform them. `Workflow` turns every service call into a program counter with what it has
read so far; one statement is one step and steps of different calls interleave freely.
`WorkflowInvariants` and `Interleavings` prove what every step keeps, `FrozenRows`, `Overtaking`,
`DetectCache`, `CacheHistory` and `StaleCache` what follows. `Services` is the same logic as imperative methods, each
proved to do what its call's steps do when nothing comes between them; `ServedAlone` draws the
consequences, `Outcomes` tells column by column what each request then comes to, and `Histories` what a
step leaves behind among other calls. `States` and `InputKeys` hold the two state graphs, the severity thresholds and the
canonical input of a computation, `CoordinateSystems` the test that refuses geographic coordinates.

**Rate limiter.** `RateLimiting` has the fixed-window limiter as an object with a client map,
`RateLimitingLaws` compares it with the limiter that never evicts and counts admissions over whole runs.

## What was found

- Flying the recommended line closes the gap if and only if its swath is at least the gap box's shorter
  side less one cell (`Resurvey.ResurveyClosesGap`). A narrower swath always leaves the outermost cell.
- A generated plan flown at a swath equal to its spacing can leave a gap beyond the last line, because the
  strip left there may be a whole spacing wide (`TransectLines.SpacingAloneCanLeaveGap`). The gap ratio is
  zero if and only if no inside cell centre lies further past the last line than half the swath
  (`TransectLines.FlownAloneLeavesNoGapExactly`); the condition for sweeping every point of the box is in
  `TransectLines.PlanSweepsWholeBox`.
- Evicting rate-limiter entries is invisible exactly while clocks lag by at most one window and one tick
  (`RateLimitingLaws.EvictionInvisibleExactly`). Within one window's length a client can be admitted
  2·capacity − 1 times with clocks in order, and 3·capacity − 2 times once clocks lag two ticks, since the
  time is read before the lock (`AdmissionBoundInFigures`, `AdmissionBoundMet`, `AdmissionBoundMetByLag`).
- The plan and area updates test the state when they read and only the version when they write. A caller
  whose expected version is ahead of the row can therefore overwrite a plan that others lock meanwhile, and
  nobody else can (`Overtaking.LockedPlanOverwrittenExactly`, `FrozenRows.FrozenForever`); archived areas
  behave alike (`Overtaking.ArchivedAreaOverwrittenExactly`).
- A cached detection agrees with recomputation on the area as it is now if the row's version at the lookup is
  the one it had at a moment, before the gap was stored, when no detection of the area had read its row
  (`CacheHistory.CachedReplyAgreesAtVersion`; `CachedReplyAgreesOnBoundary` asks only that the boundary was
  held). One update in between is enough to break it, even if the boundary is unchanged since the gap was
  *stored*, since the update can commit between the read and the insert
  (`StaleCache.StoredFromEarlierBoundary`, `UnchangedSinceStoredIsNotEnough`). The pair makes the condition
  exact (`StaleCache.CacheAgreesExactly`).
- No review note is lost although the text is built from an earlier, unlocked read: the gap states have no
  cycle, so an update that still finds the state it read finds the row it read
  (`Interleavings.SuccessfulReviewIsCurrent`).

Where the repository's documents and its code differ, the model follows the code:

- The repository’s `README.md:115` and `gb-532.md:34` speak of fragments below the resolution threshold being filtered and
  counted. The code counts at most one, removes nothing, and its threshold is a gap box of fewer than four
  cells (`Fragments.FilteredMeansTiny`).
- `gb-532.md:36` sends a false positive to resurveyed; the code sends it straight to closed
  (`States.GapLives`).
- `gb-532.md:35` lets a run be rejected at any step; in the code a processed run can only be superseded
  (`States.RunLives`).
- `gb-532.md:34` derives the recommended line from neighbouring line spacing too; the code uses the gap box
  alone.

## Model

| member | source | states |
|---|---|---|
| Segments.NearestOnSegment | backend/internal/geometry/coverage.go:301-314 | No point of the segment is closer to the given point than the distance computed, for every parameter in [0, 1] and for degenerate segments too. |
| Segments.NearestAttained | backend/internal/geometry/coverage.go:301-310 | The computed distance is attained by some point of the segment, so with the row above it is the true minimum. |
| Segments.SegmentDistanceSymmetric | backend/internal/geometry/coverage.go:301-310 | Swapping the ends of a segment does not change the distance. |
| Segments.NearMeansWithinReach | backend/internal/geometry/coverage.go:285 | The half-swath test holds exactly when some point of the segment lies within half the swath. |
| Segments.NearWidens | backend/internal/geometry/coverage.go:285 | A wider swath reaches everything a narrower one does. |
| Segments.Triangle | backend/internal/geometry/coverage.go:312-314 | The triangle inequality for the distance, stated on squares. |
| Rings.RingContains | backend/internal/geometry/coverage.go:266-277 | The ray-casting loop computes the parity of the closed path’s crossings, whether or not the ring repeats its first vertex. |
| Rings.RingArea | backend/internal/geometry/coverage.go:245-252 | The shoelace loop, wrapping by index, computes the signed area of the closed path. |
| Rings.PolygonContains | backend/internal/geometry/coverage.go:254-264 | Inside the exterior ring and inside no hole. |
| Rings.PolygonArea | backend/internal/geometry/coverage.go:112-121 | The exterior’s area less the holes’, never below zero, zero for no rings. |
| Rings.PolygonBounds | backend/internal/geometry/coverage.go:232-243 | The least box around all vertices of all rings; none when there is no vertex. |
| Rings.BoundsAreTight | backend/internal/geometry/coverage.go:232-243 | Every vertex lies within the box and each side of the box meets a vertex. |
| Rings.ValidatePolygon | backend/internal/geometry/coverage.go:215-230 | Accepts exactly the polygons with four exterior positions and positive area, and names the first failure. |
| RingLaws.CrossesSymmetric | backend/internal/geometry/coverage.go:268-275 | An edge is crossed alike in both directions, although the interpolation starts from the other end. |
| RingLaws.EdgeXBetween | backend/internal/geometry/coverage.go:270-271 | The interpolation never divides by zero on a straddled edge and lands between its ends. |
| RingLaws.EdgeXOnEdge | backend/internal/geometry/coverage.go:270-271 | The point where the horizontal meets a straddled edge is a point of the edge. |
| RingLaws.RotationInvariant | backend/internal/geometry/coverage.go:245-277 | Starting the vertex list elsewhere changes neither containment nor area. |
| RingLaws.ReversalInvariant | backend/internal/geometry/coverage.go:245-277 | Reversing the vertex list keeps containment and the absolute area. |
| RingLaws.ClosingVertexIrrelevant | backend/internal/geometry/coverage.go:245-277 | Repeating the first vertex at the end changes neither containment nor area. |
| RingLaws.ChordSplits | backend/internal/geometry/coverage.go:245-277 | Cutting a ring along a chord between two vertices: containment is the exclusive or of the two parts’ and signed areas add up. |
| RingLaws.TranslationInvariant | backend/internal/geometry/coverage.go:245-252 | The shoelace area does not depend on the origin. |
| RingLaws.HoleTakesAway | backend/internal/geometry/coverage.go:254-264 | A further hole takes away exactly the points inside its ring, and its area as far as there is any left. |
| Rectangles.CourtyardContains | backend/internal/geometry/coverage.go:254-264 | A rectangle with a rectangular courtyard contains exactly the outer half-open box less the inner one; its area is the difference, never below zero. |
| RingLaws.StraddlesTelescope | backend/internal/geometry/coverage.go:270 | Straddling edges telescope along a path, so a closed ring has an even number of them. |
| RingLaws.LeftOfAll | backend/internal/geometry/coverage.go:266-277 | A point left of all vertices is crossed by exactly the straddling edges. |
| RingLaws.ClearOfAll | backend/internal/geometry/coverage.go:266-277 | A point not left of any vertex, or level with or above all of them, is crossed by no edge. |
| RingLaws.ContainedWithinBounds | backend/internal/geometry/coverage.go:232-277 | Whatever a polygon contains lies within its bounds, strictly inside the right and upper sides. |
| RingLaws.FlatRingHasNoArea | backend/internal/geometry/coverage.go:245-252 | A ring with all x equal, or all y equal, has zero area. |
| RingLaws.ValidHasExtent | backend/internal/geometry/coverage.go:215-243 | An accepted polygon has positive width and height. |
| CoverageLaws.ValidBoundaryHasArea | backend/internal/geometry/coverage.go:142-144 | The “no area” error cannot arise on an accepted polygon. |
| Coverage.CoveragePasses | backend/internal/geometry/coverage.go:279-299 | The loops with their early exits count the tracks that sweep the point, each at most once. |
| Coverage.CalculateCoverage | backend/internal/geometry/coverage.go:133-194 | The whole computation, error cases included, equals the declarative `Measure`: ratios are cardinalities of cell sets and the gap box is the least box around the uncovered cells’ squares. |
| Coverage.SurveyGrid | backend/internal/geometry/coverage.go:150-177 | The nested loops count the inside, covered and overlapped cells and widen the gap box to exactly the uncovered ones. |
| Coverage.RatiosAddUp | backend/internal/geometry/coverage.go:153-177 | Covered and uncovered cells partition the inside cells. |
| CoverageLaws.RatiosCountTracks | backend/internal/geometry/coverage.go:163-183 | The ratios times the sampled cells are the numbers of inside cells that some track sweeps, that two different tracks sweep, and that none sweeps. |
| CoverageLaws.HoleCellsNeverCounted | backend/internal/geometry/coverage.go:156-177 | No cell centred in a hole is ever inside, covered, overlapped or a gap cell. |
| CoverageLaws.RefusedExactly | backend/internal/geometry/coverage.go:134-180 | Which computations are refused and for what: resolution, tracks, extent, more than 60000 cells of the fewest rows and columns that span the bounds, no cell centre inside; in this order. |
| CoverageLaws.RatiosShareOut | backend/internal/geometry/coverage.go:181-194 | 0 ≤ overlap ≤ coverage ≤ 1, coverage and gap ratio add up to one, and at least one cell was sampled. |
| CoverageLaws.NoGapMeansNoGapCell | backend/internal/geometry/coverage.go:150-184 | The gap ratio is zero exactly when no inside cell is uncovered. |
| CoverageLaws.PassesReordered | backend/internal/geometry/coverage.go:279-299 | The number of passes does not depend on the order of the tracks. |
| CoverageLaws.MeasureReordered | backend/internal/geometry/coverage.go:133-194 | Nor does any part of the result or the error. |
| CoverageLaws.SingleTrackNeverOverlaps | backend/internal/geometry/coverage.go:165-170 | One track alone never overlaps itself. |
| CoverageLaws.SeverityCountsCells | backend/internal/constants/gap_severity.go:52-61 | A gap is critical exactly when at least 12 in 100 sampled cells are uncovered, minor exactly when fewer than 5 are. |
| CoverageLaws.AppendingOutdoes | backend/internal/geometry/coverage.go:279-299 | Appending a track never lowers the passes over a point. |
| CoverageLaws.WideningOutdoes | backend/internal/geometry/coverage.go:279-299 | Nor does widening one track’s swath. |
| CoverageLaws.OutdoingImproves | backend/internal/geometry/coverage.go:133-194 | Then coverage and overlap do not fall, the gap ratio and the severity do not rise, a remaining gap box lies inside the old one, and no error appears. |
| CoverageLaws.CoveredSquareIsNearTrack | backend/internal/geometry/coverage.go:153-177 | Every point of a covered cell’s square lies within half the swath plus the slack of some segment; the slack can be any length whose square is at least half the resolution squared. |
| CoverageLaws.NearTrackMeansCovered | backend/internal/geometry/coverage.go:153-177 | An inside cell any point of which lies within half the swath less the slack of a track is counted covered. |
| CoverageLaws.ResolutionIsSlack | backend/internal/geometry/coverage.go:153-177 | The resolution itself is always slack enough. |
| Fragments.FilteredMeansTiny | backend/internal/geometry/coverage.go:316-347 | The gap box is a block of whole cells holding every uncovered one; a fragment is counted as filtered exactly when that block has fewer than four cells, so at most three are uncovered. |
| Fragments.GapPolygonHoldsGap | backend/internal/geometry/coverage.go:316-330 | The stored gap polygon would be accepted as a boundary exactly when something is uncovered, the degenerate one otherwise; it is then the half-open gap box and contains the centre of every uncovered cell. |
| Fragments.NothingToFly | backend/internal/geometry/coverage.go:316-325 | With nothing uncovered, gap and recommended line are one point halfway across the bounds and no fragment is counted. |
| Resurvey.ResurveySweeps | backend/internal/geometry/coverage.go:336-340 | The recommended line sweeps a cell of the box exactly when the swath spans twice the cell centre’s offset from the line. |
| Resurvey.BoxClosedIff | backend/internal/geometry/coverage.go:279-347 | Adding the recommended line to the tracks leaves no cell uncovered if and only if its swath is at least the box’s shorter side less the resolution. |
| Resurvey.ResurveyClosesGap | backend/internal/geometry/coverage.go:133-347 | Measuring again with the recommended line flown gives gap ratio zero, hence severity minor, under exactly that condition. |
| Resurvey.ResurveySweepsLengthenedBox | backend/internal/geometry/coverage.go:331-340 | The recommended line sweeps every point of the gap box, and one resolution past each short side, if and only if its swath is the shorter side or more. |
| Rectangles.RectangleContains | backend/internal/geometry/coverage.go:245-277 | A rectangle, open or closed, contains exactly its half-open box and has area width times height. |
| Rectangles.InsideCellsAreBlock | backend/internal/geometry/coverage.go:145-162 | The inside cells of a rectangle form a block of whole rows by whole columns. |
| Rectangles.RectangleEstimate | backend/internal/geometry/coverage.go:140-194 | On a w by h rectangle the sampled area differs from w·h by at most (r/2)(w+h) + r²/4, and equals it when the resolution divides both sides. |
| TransectLines.Generate | backend/internal/service/transect_plan.go:61-94 | Which error arises when, and otherwise the lines lie half a spacing in and then every spacing, as many as start below the far side; each runs from west to east if the heading is within an eighth of a turn of that axis, from south to north if not. |
| TransectLines.HorizontalExactly | backend/internal/service/transect_plan.go:75 | The lines step along y exactly when the heading lies within an eighth of a turn of east or west. |
| TransectLines.HeadingTurned | backend/internal/service/transect_plan.go:75 | Half a turn keeps the axis, a quarter turn changes it. |
| TransectLines.StepAcross | backend/internal/service/transect_plan.go:74-84 | The stepping loops terminate for every positive spacing and produce exactly those lines. |
| TransectLines.RemainderWithinSpacing | backend/internal/service/transect_plan.go:74-84 | The strip beyond the last line is wider than nothing and no wider than a spacing. |
| TransectLines.WholeMultipleRemainder | backend/internal/service/transect_plan.go:74-84 | When the span is a whole number m of spacings there are m lines and the strip is half a spacing. |
| TransectLines.PlanSweepsWholeBox | backend/internal/service/transect_plan.go:70-84 | Flying the plan sweeps every point of the box if and only if the swath is at least the spacing and at least twice that strip. |
| TransectLines.UncoveredOnlyBeyondLastLine | backend/internal/service/transect_plan.go:70-84 | With swath at least the spacing, an uncovered cell centre lies beyond the last line by more than half a spacing and less than a whole one. |
| TransectLines.FlownPlanGapCells | backend/internal/service/transect_plan.go:70-84 | Which cells a flown plan leaves uncovered, for any swath and whatever else is flown: the inside cells out of reach of all its lines that no other track sweeps. |
| TransectLines.OutOfReachIsBeyond | backend/internal/service/transect_plan.go:70-84 | With swath at least the spacing, a point is out of reach of all lines exactly when it lies further past the last line than half the swath. |
| TransectLines.FlownPlanLeavesNoGapExactly | backend/internal/service/transect_plan.go:61-94 | The gap ratio is zero if and only if every inside cell centre is within half the swath of one of the lines or swept by another track. |
| TransectLines.FlownAloneLeavesNoGapExactly | backend/internal/service/transect_plan.go:61-94 | Flown alone with swath at least the spacing: zero if and only if no inside cell centre lies further past the last line than half the swath. |
| TransectLines.FlownPlanLeavesNoGap | backend/internal/service/transect_plan.go:61-94 | Corollaries that need no look at the cells: zero when the swath is twice the spacing, or the spacing where it divides the span, or at least the spacing and twice the last strip. |
| TransectLines.SpacingAloneCanLeaveGap | backend/internal/service/transect_plan.go:70-84 | A swath equal to the spacing is not enough in general: a concrete square keeps a gap. |
| CoordinateSystems.ProjectedExactly | backend/internal/geometry/coverage.go:47-56 | Accepted exactly when something is left after trimming and no slice of the text as received, in whatever case and between whatever blanks, spells a geographic system. |
| CoordinateSystems.RefusedByLetters | backend/internal/geometry/coverage.go:47-56 | The same with the letters written out: refused exactly when nothing but blanks is there or 4326, or WGS84 in letters of either case with or without a blank, occurs. |
| CoordinateSystems.UpperLetters | backend/internal/geometry/coverage.go:48 | The twenty-six letters go to their capitals, so do the long s and the dotless i, and all else stays. |
| CoordinateSystems.NormalizedTwice | backend/internal/service/survey_area.go:65-90 | The stored form of a code or coordinate system is its own stored form. |
| CoordinateSystems.ProjectedAsStored | backend/internal/geometry/coverage.go:47-56 | The test comes out the same on the stored form as on the form received. |
| Workflow.Milli | backend/internal/service/sonar_run.go:122-127 | The swath as a checksum sees it: within half a thousandth, a tie going to the even digit. |
| States.GapPathsDescend | backend/internal/constants/gap_severity.go:21-42 | No gap state recurs along permitted transitions, and there are at most four of them. |
| States.GapLives | backend/internal/constants/gap_severity.go:21-42 | The paths from detection to closure are exactly two: reviewed, accepted, resurveyed, closed; or reviewed, false positive, closed. |
| States.RunPathsDescend | backend/internal/constants/run_state.go:16-37 | No run state recurs along permitted transitions. |
| States.ProcessingNeedsQualityCheck | backend/internal/constants/run_state.go:16-37 | An imported run reaches processing, or anything past it, only through the quality check, and no state recurs. |
| States.RunLives | backend/internal/constants/run_state.go:16-37 | The paths of a run from import to a state it cannot leave are exactly four: three rejections, and checked, processing, processed, superseded. |
| RateLimiting.RateLimiter.Allow | backend/internal/middleware/audit.go:46-66 | The critical section decides and leaves the client map as specified: window reset, count, eviction above 2000 entries. |
| RateLimitingLaws.ClientsKept | backend/internal/middleware/audit.go:57-63 | Up to the threshold no client is dropped; above it no window older than two windows stays and no younger one goes; nobody else’s count changes. |
| RateLimitingLaws.EvictionInvisible | backend/internal/middleware/audit.go:46-73 | Eviction changes no decision on any trace whose times lag the latest seen by at most a window and one tick, for any threshold. |
| RateLimitingLaws.EvictionVisible | backend/internal/middleware/audit.go:57-63 | With one tick more lag there is a trace on which it does. |
| RateLimitingLaws.EvictionInvisibleExactly | backend/internal/middleware/audit.go:46-73 | So eviction is invisible on all traces of a given lag if and only if the lag is at most a window and one tick. |
| RateLimitingLaws.WindowBound | backend/internal/middleware/audit.go:48-66 | Each fixed window admits a client at most `capacity` times, for clocks that lag at most a window and one tick. |
| RateLimitingLaws.WindowStartsApart | backend/internal/middleware/audit.go:51-54 | Two windows of one client start at the same time or at least a window apart, for clocks that lag at most a window and one tick. |
| RateLimitingLaws.AdmissionBound | backend/internal/middleware/audit.go:48-66 | As a function of the clocks’ lag, up to a window and one tick: with n windows able to count an interval one window long, at most n·(capacity − 1) + 1 requests of a client are admitted in it. |
| RateLimitingLaws.AdmissionBoundInFigures | backend/internal/middleware/audit.go:48-66 | That is at most 2·capacity − 1 while clocks lag one tick at most, order included, and at most 3·capacity − 2 for any lag up to a window and one tick. |
| RateLimitingLaws.AdmissionBoundMet | backend/internal/middleware/audit.go:48-66 | 2·capacity − 1 is reached with clocks in order, so it cannot be improved. |
| RateLimitingLaws.AdmissionBoundMetByLag | backend/internal/middleware/audit.go:47-66 | 3·capacity − 2 is reached with two ticks of lag, so it cannot be either. |
| InputKeys.SortedIsOrderedPermutation | backend/internal/geometry/coverage.go:197-198 | Sorting a copy of the checksums gives an ordered permutation of them. |
| InputKeys.LeqExactly | backend/internal/geometry/coverage.go:198 | The order sorted by: a prefix first, otherwise by the first character that differs. |
| InputKeys.OrderedUnique | backend/internal/geometry/coverage.go:197-198 | A bag of strings has one ordering. |
| InputKeys.StableKeyIgnoresOrderOnly | backend/internal/geometry/coverage.go:196-208 | Two computations share a key exactly when they agree on area, coordinate system, algorithm, resolution and the bag of checksums. |
| Store.Repository.ByInputHash | backend/internal/repository/coverage_gap.go:47-53 | Finds a gap of that key, and finds none exactly when there is none. |
| Store.Repository.CreateGap | backend/internal/repository/coverage_gap.go:55-60 | Inserts unless the key is taken; keeps the unique indexes. |
| Store.Repository.TransitionGapRow | backend/internal/repository/coverage_gap.go:62-71 | Affects the row exactly when version and state match, and then sets state and text and adds one to the version. |
| Store.Repository.ByIds | backend/internal/repository/sonar_run.go:45-51 | The stored rows among the ids, each once, in any order. |
| Store.Repository.ByChecksum | backend/internal/repository/sonar_run.go:53-59 | Finds a run of that checksum, and finds none exactly when there is none. |
| Store.Repository.CreateRun | backend/internal/repository/sonar_run.go:61-66 | Inserts unless the checksum or the run code is taken. |
| Store.Repository.TransitionRunRow | backend/internal/repository/sonar_run.go:68-77 | Affects the row exactly when version and state match. |
| Store.Repository.UpdatePlanFields | backend/internal/repository/transect_plan.go:51-61 | Affects the row exactly when the version matches, whatever its state. |
| Store.Repository.TransitionPlanRow | backend/internal/repository/transect_plan.go:63-72 | Affects the row exactly when version and state match. |
| Store.Repository.CreatePlanRow | backend/internal/repository/transect_plan.go:44-49 | Inserts the row under a new number. |
| Store.Repository.CopyPlanRow | backend/internal/repository/transect_plan.go:74-87 | Inserts a draft copy one version on and leaves the source row alone. |
| Store.Repository.UpdateAreaFields | backend/internal/repository/survey_area.go:50-60 | Affects the row exactly when the version matches, whatever its status. |
| Store.Repository.CreateArea | backend/internal/repository/survey_area.go:43-48 | Inserts unless the area code is taken. |
| Services.UniqueIds | backend/internal/service/coverage_gap.go:144-154 | First occurrences, in order. |
| Services.UniqueInOrder | backend/internal/service/coverage_gap.go:144-154 | The distinct ids come in the order in which each first occurs. |
| Services.Gather | backend/internal/service/coverage_gap.go:66-80 | The loop over the fetched runs reports the first problem of the first run that has one, or all checksums and tracks. |
| Services.CoverageGapService.Detect | backend/internal/service/coverage_gap.go:47-111 | Key length, area, coordinate system, runs, lookup and otherwise computation and insert: reply and new database are those of the call’s interleaved steps with nothing in between. |
| Services.CoverageGapService.Transition | backend/internal/service/coverage_gap.go:113-138 | Transition check, conditional write with the note appended to the text read, read back: reply and new database are those of the review’s interleaved steps alone. |
| Services.SonarRunService.Import | backend/internal/service/sonar_run.go:43-76 | Locked-plan, track and time checks, checksum lookup, insert: reply and new database are those of the import’s interleaved steps alone. |
| Services.SonarRunService.Transition | backend/internal/service/sonar_run.go:90-120 | Transition, navigation and reason checks and the conditional write: reply and new database are those of the interleaved steps alone. |
| Services.TransectPlanService.Create | backend/internal/service/transect_plan.go:40-59 | Archived check, line check and insert: reply and new database are those of the interleaved steps alone. |
| Services.TransectPlanService.GeneratePlan | backend/internal/service/transect_plan.go:61-94 | Which refusal arises exactly when, each with nothing changed; in all other cases a request for a plan of exactly the lines stepped across the stored boundary along the axis of the heading, served as `Create` serves it. |
| Services.TransectPlanService.Update | backend/internal/service/transect_plan.go:95-114 | Draft check, line check and the update on the version alone: reply and new database are those of the interleaved steps alone. |
| Services.TransectPlanService.Lock | backend/internal/service/transect_plan.go:116-132 | Draft check and the update on version and state: reply and new database are those of the interleaved steps alone. |
| Services.TransectPlanService.Copy | backend/internal/service/transect_plan.go:134-149 | Inserts the copied row: reply and new database are those of the interleaved steps alone. |
| Services.ValidateAreaGeometry | backend/internal/service/survey_area.go:99-111 | The fields’ first problem, if any: geographic coordinate system, invalid boundary, too large an area, in that order. |
| Services.SurveyAreaService.Update | backend/internal/service/survey_area.go:75-97 | Archived check, coordinate system and boundary checks, and the update of the trimmed and normalised fields on the version alone: reply and new database are those of the interleaved steps alone. |
| Services.SurveyAreaService.Create | backend/internal/service/survey_area.go:61-73 | Coordinate system and boundary checks and the insert of the normalised code and fields as a draft: reply and new database are those of the interleaved steps alone. |
| Outcomes.ReviewOutcome | backend/internal/service/coverage_gap.go:113-138 | Served alone, told column by column: each refusal with its case, and otherwise the row is in the state asked for with the note appended, one version on, all else kept, and is the answer. |
| Outcomes.MoveOutcome | backend/internal/service/sonar_run.go:90-120 | The same for a run transition: table, navigation guard, reason, version, and then exactly the state asked for. |
| Outcomes.ImportOutcome | backend/internal/service/sonar_run.go:43-76 | The same for an import: each refusal, the run that answers for a known digest, and otherwise the stored and answered run has every column of the request, imported, at version 1. |
| Outcomes.ImportTwice | backend/internal/service/sonar_run.go:57-63 | The same track, plan, swath and times imported again is answered with the run already there, whatever code, quality or caller it comes with. |
| Outcomes.CreatePlanOutcome | backend/internal/service/transect_plan.go:40-59 | The same for a new plan. |
| Outcomes.PlanOutcome | backend/internal/service/transect_plan.go:95-149 | The same for updating, locking and copying a plan, the copy with every field of its source and the mark on its name. |
| Outcomes.AreaOutcome | backend/internal/service/survey_area.go:75-97 | The same for an area update, every field in its place. |
| Outcomes.CreateAreaOutcome | backend/internal/service/survey_area.go:61-73 | The same for a new area. |
| Outcomes.DetectRefused | backend/internal/service/coverage_gap.go:47-80 | A detection that comes to no lookup, and why: key length, area, coordinate system, a missing run, or the first run in the order fetched that is of another area, not processed or without lines. |
| Outcomes.DetectOutcome | backend/internal/service/coverage_gap.go:81-110 | Otherwise the resolution is the request’s or, if that is 0, the area’s; a gap whose key names this input is the answer if there is one; else the boundary is measured at that resolution and what that gives is stored, every column, and answered. |
| Services.OneOutcome | backend/internal/service/coverage_gap.go:47-138 | A call left alone has one outcome, so the specification of each method fixes its reply and its effect. |
| ServedAlone.ServedIsARun | backend/internal/service/coverage_gap.go:47-138 | Being served alone is one of the interleaved runs. |
| ServedAlone.ServedKeepsInvariant | backend/internal/service/coverage_gap.go:47-138 | Every service method keeps the cross-entity invariant and lets rows only evolve. |
| ServedAlone.ServedKeepsFrozen | backend/internal/service/transect_plan.go:95-132 | Served alone, no request changes a locked plan or an archived area, whatever version it expects. |
| ServedAlone.LockedPlanIsEditedThroughACopy | backend/internal/service/transect_plan.go:95-149 | A locked plan refuses edits; its copy is a draft of the same area that can be edited at the next version, and the locked row stays. |
| Interleavings.Safety | backend/internal/service/coverage_gap.go:47-138 | Every state of every interleaving of all calls’ statements satisfies the invariant, and along it rows only evolve. |
| Interleavings.CrossEntityInvariant | backend/internal/service/sonar_run.go:43-120 | Each run’s plan is locked; no run with invalid navigation is past the quality check; each gap’s source runs are processed or superseded runs of the gap’s area. |
| Interleavings.NotesNeverLost | backend/internal/service/coverage_gap.go:113-138 | A gap’s explanation is its first text followed by all committed notes in commit order, one version each, at most four. |
| Interleavings.StateIsLastTarget | backend/internal/service/coverage_gap.go:113-138 | Over every interleaving a gap is in the state its last committed review asked for, detected if none, and each review asked for a state permitted after the one before. |
| Histories.ReviewCommits | backend/internal/repository/coverage_gap.go:62-71 | In any state of a run, a review about to write takes effect exactly when the row has the version it expects and the state it read; the row is then in the state it asks for, with its note appended, and nothing else changes. |
| Interleavings.SuccessfulReviewIsCurrent | backend/internal/repository/coverage_gap.go:62-71 | A review whose update takes effect expected the version it had read, and the row is still the one it read. |
| Interleavings.ImportReplyMatches | backend/internal/service/sonar_run.go:43-76 | An import answered with an existing run, not a seeded one, is answered with a run of the same plan, track and times and a swath within a thousandth, provided no two of the sources at hand share a digest. |
| Histories.ImportedForGood | backend/internal/service/sonar_run.go:66-67 | A run an import has inserted is ever after the run of its request, column by column; if the request called the navigation invalid it is only ever imported or rejected. |
| Interleavings.DetectionNeverRefusesStoredSystem | backend/internal/service/coverage_gap.go:55-57 | Every stored area keeps a normalised projected coordinate system, whatever callers send, so the detection’s own test of it never fails. |
| FrozenRows.FrozenForever | backend/internal/service/transect_plan.go:95-132 | While callers expect no version ahead of the row on arrival, a locked plan and an archived area never change again in any column. |
| FrozenRows.SnapshotsNeverOverwritten | backend/internal/repository/coverage_gap.go:55-71 | Whatever versions callers expect, a stored gap keeps all it was computed as and an imported run all it was imported as; only states, versions and notes move on. |
| Overtaking.LockedPlanOverwrittenExactly | backend/internal/repository/transect_plan.go:51-61 | An arrived plan update can overwrite a locked plan if and only if the plan is a draft, the lines parse and the expected version is ahead of the row’s; the other callers need not run ahead. |
| Overtaking.ArchivedAreaOverwrittenExactly | backend/internal/repository/survey_area.go:50-60 | The same for an area update: it can overwrite an archived area if and only if its fields are admissible and its expected version is ahead of the row’s; for an area archived on arrival, ahead of a version to which updates already waiting can reopen it. |
| DetectCache.SameRuns | backend/internal/model/sonar_run.go:19 | One run per checksum: equal bags of checksums come from equal sets of runs. |
| DetectCache.StoredForSameInput | backend/internal/service/coverage_gap.go:81-103 | A stored gap with this call’s key was computed from the same runs at the same resolution, so it holds what this call would compute on the boundary the storing call had read. |
| DetectCache.CachedReplyAgrees | backend/internal/service/coverage_gap.go:58-110 | In every interleaving an idempotent reply names the source runs of the request and holds the findings of computing afresh on the boundary recorded as the one the storing call read. |
| Histories.DetectionAtAskedResolution | backend/internal/service/coverage_gap.go:81-109 | In any state of a run a detection that answers does so with a gap keyed and measured at the resolution asked for, or at that of the area it read if none was. |
| CacheHistory.OriginWasRow | backend/internal/service/coverage_gap.go:51-103 | That record is a row the gap’s area had at some moment of the run. |
| CacheHistory.CachedReplyAgreesAtVersion | backend/internal/service/coverage_gap.go:51-110 | If at some moment before the gap was stored no detection of the area had read its row, and the row’s version then is its version at the lookup, the idempotent reply holds the findings of computing afresh on the area as it is now. |
| CacheHistory.CachedReplyAgreesOnBoundary | backend/internal/service/coverage_gap.go:51-110 | The same while only the boundary is held: if every row of the area from such a moment up to the lookup has the same boundary. |
| DetectCache.StoredFindingsConsistent | backend/internal/service/coverage_gap.go:97-103 | A gap’s ratios share out the whole, its severity is that of its gap ratio and its area that share of the measured boundary’s, whatever reviews it has been through. |
| StaleCache.StoredFromEarlierBoundary | backend/internal/service/coverage_gap.go:49-103 | The converse one version later: for any detectable request and any other admissible boundary there is a run with a single update of the area in which the boundary is the same from before the insert until the lookup, and the stored gap was computed on the earlier one. |
| StaleCache.CacheAgreesExactly | backend/internal/service/coverage_gap.go:49-110 | From a state whose detections under way have read the row in force, the cache agrees with recomputation through all runs with at most so many updates of the area if and only if that number is zero, whenever some admissible boundary measures otherwise. |
| StaleCache.UnchangedSinceStoredIsNotEnough | backend/internal/service/coverage_gap.go:49-103 | A concrete such run: the stored gap ratio is zero, computing afresh gives a positive one. |

## Left out

- RateLimitingLaws.EvictionInvisibleExactly: stated for a window of at least one tick and a capacity of at least one; a limiter that admits nobody decides alike with and without eviction.
- DetectCache.CachedReplyAgrees: stated on the recorded origin of the gap; the conditions on the history of the area's row are `CacheHistory.CachedReplyAgreesAtVersion` and `CacheHistory.CachedReplyAgreesOnBoundary`.
- Interleavings.NotesNeverLost: the explanation column's size limit of 1200 is not modelled, so a text the database would refuse is stored here.
- Services.CoverageGapService.Detect: the first text of the explanation, formatted from resolution and cell counts, is the request's `summary`; processing time and timestamps are not columns here.
- Floating-point rounding, infinities and not-a-number values, and overflow in the cell count: coordinates are reals and counts are integers.
- GeoJSON decoding and encoding: geometry is already parsed. A parser failure survives as the invalid-polygon and invalid-lines cases.
- SHA-256, JSON and time formatting: the input hash is the canonical tuple itself; a run checksum is a `digest` parameter applied to plan, track, times and swath to three decimals, and the one lemma that needs it free of collisions asks so of the sources at hand only. The track is the parsed track, where the source digests its text.
- CoordinateSystems.NormalizedTwice: upper-casing covers the letters whose upper case is ASCII; other letters of a code or coordinate system are kept as they are.
- Unknown state names: the request binding admits only the known ones, so states are datatypes. Lengths of keys and reasons are counted in characters, where the source counts bytes.
- The audit insert that follows each write, and its failure after the write has committed.
- Reads that repeat with no decision between them (the two reads after an area update, the preloads of a row's parents) are one step.
- Request identifiers, login, roles, CORS, HTTP handlers, configuration, migrations, seeding, lists, pages and summaries are not modelled. Seeded rows enter as any start that satisfies the invariant.
- The quality evidence of a run and the length of a track are not modelled.
- That no plan is created on an archived area: the check and the insert are separate statements, so another call may archive the area between them; the model has both steps and makes no such claim.
- In the interleaved runs a generated plan enters as the plan creation it ends in; the earlier read of the boundary is not a step of its own there.
- The rate limiter's clock values are integer ticks and its zero time is an absent key; the mutex is the atomicity of `Allow`.
- The frontend.
