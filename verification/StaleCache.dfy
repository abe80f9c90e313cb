/** Why the cache's condition speaks of the boundary that was read, not the one in force when the gap
    was stored: an update may commit between the two. */
module StaleCache {
  import opened Outcome
  import opened RealMath
  import opened Segments
  import opened Rings
  import opened Coverage
  import opened CoverageLaws
  import opened Rectangles
  import opened Resurvey
  import opened CoordinateSystems
  import opened States
  import opened InputKeys
  import opened Store
  import opened Workflow
  import opened WorkflowInvariants
  import opened Interleavings
  import opened FrozenRows
  import opened Overtaking
  import opened DetectCache
  import opened CacheHistory

  // ---- A detection, statement by statement ----

  /** The area is stored as areas are; every requested run is there, processed, parseable and of the area. */
  ghost predicate Detectable(db: Db, r: Request) {
    r.DetectGap? && 8 <= |r.idempotencyKey| <= 120 && r.areaId in db.areas &&
    StoredSystem(db.areas[r.areaId].fields.crs) &&
    forall id :: id in r.runIds ==> id in db.runs && RunProblem(r.areaId, db.plans, db.runs[id]).None?
  }

  ghost function RunsOf(db: Db, r: Request): seq<Run>
    requires Detectable(db, r)
  {
    RowsOf(Unique(r.runIds), db.runs)
  }

  ghost function KeyOf(db: Db, r: Request): InputKey
    requires Detectable(db, r)
  {
    KeyFor(r, db.areas[r.areaId], RunsOf(db, r))
  }

  /** Computing afresh on the area as it is now. */
  ghost function Recomputed(db: Db, r: Request): Result<CoverageResult, CoverageError>
    requires Detectable(db, r)
  {
    var area := db.areas[r.areaId];
    Measure(area.fields.boundary, TracksOf(Unique(r.runIds), RunsOf(db, r)), ResolutionFor(r, area))
  }

  ghost function CheckedCall(db: Db, r: Request): Call
    requires Detectable(db, r)
  {
    RunsChecked(r, db.areas[r.areaId], Unique(r.runIds), RunsOf(db, r))
  }

  function DetectSteps(call: nat, r: Request, choice: Choice): seq<Step> {
    [Arrive(call, r), Proceed(call, choice), Proceed(call, choice), Proceed(call, choice)]
  }

  lemma AllListed(db: Db, r: Request)
    requires Detectable(db, r)
    ensures Selects(Unique(r.runIds), r.runIds, db.runs)
    ensures FirstProblem(r.areaId, db.plans, RunsOf(db, r)).None?
  {
    hide RunProblem;
    var order := Unique(r.runIds);
    forall i | 0 <= i < |order| ensures RunProblem(r.areaId, db.plans, RunsOf(db, r)[i]).None? {
      assert order[i] in order;
    }
  }

  lemma DetectMoves(digest: RunSource -> string, db: Db, r: Request, choice: Choice)
    requires Detectable(db, r) && choice.newId !in db.gaps && choice.order == Unique(r.runIds)
    ensures var area, order, runs := db.areas[r.areaId], Unique(r.runIds), RunsOf(db, r);
            Advance(digest, db, Arrived(r), choice) == Move(db, AreaFetched(r, area), Silent) &&
            Advance(digest, db, AreaFetched(r, area), choice) == Move(db, RunsFetched(r, area, order, runs), Silent) &&
            Advance(digest, db, RunsFetched(r, area, order, runs), choice) == Move(db, CheckedCall(db, r), Silent)
  {
    AllListed(db, r);
    hide Advance, FirstProblem, Unique, Selects, RunProblem, Normalized, Projected;
    var area, order, runs := db.areas[r.areaId], Unique(r.runIds), RunsOf(db, r);
    DetectDispatch(digest, db, Arrived(r), choice);
    DetectDispatch(digest, db, AreaFetched(r, area), choice);
    DetectDispatch(digest, db, RunsFetched(r, area, order, runs), choice);
  }

  /** A statement that only reads moves the call on and nothing else. */
  lemma OnlyReads(digest: RunSource -> string, s: State, call: nat, choice: Choice, before: Call, after: Call)
    requires Advance(digest, s.db, before, choice) == Move(s.db, after, Silent)
    ensures Apply(digest, s.(calls := s.calls[call := before]), Proceed(call, choice))
         == s.(calls := s.calls[call := after])
  {
    hide Advance;
    assert s.calls[call := before][call := after] == s.calls[call := after];
  }

  lemma DetectArrives(digest: RunSource -> string, s: State, call: nat, r: Request)
    requires call !in s.calls
    ensures Execute(digest, s, [Arrive(call, r)]) == s.(calls := s.calls[call := Arrived(r)])
  {
    OneMore(digest, s, [], Arrive(call, r));
    assert [] + [Arrive(call, r)] == [Arrive(call, r)];
  }

  lemma DetectReads(digest: RunSource -> string, s: State, call: nat, r: Request, choice: Choice)
    requires Detectable(s.db, r) && call !in s.calls
    requires choice.newId !in s.db.gaps && choice.order == Unique(r.runIds)
    ensures Execute(digest, s, DetectSteps(call, r, choice)) == s.(calls := s.calls[call := CheckedCall(s.db, r)])
  {
    hide Detectable, Execute, Apply, Advance, Unique, RunsOf, CheckedCall, HonestRun;
    assert r.DetectGap? && r.areaId in s.db.areas by { DetectableFacts(s.db, r); }
    var area, order, runs := s.db.areas[r.areaId], Unique(r.runIds), RunsOf(s.db, r);
    var go := Proceed(call, choice);
    DetectMoves(digest, s.db, r, choice);
    DetectArrives(digest, s, call, r);
    OnlyReads(digest, s, call, choice, Arrived(r), AreaFetched(r, area));
    OnlyReads(digest, s, call, choice, AreaFetched(r, area), RunsFetched(r, area, order, runs));
    OnlyReads(digest, s, call, choice, RunsFetched(r, area, order, runs), CheckedCall(s.db, r));
    OneMore(digest, s, [Arrive(call, r)], go);
    assert [Arrive(call, r)] + [go] == [Arrive(call, r), go];
    OneMore(digest, s, [Arrive(call, r), go], go);
    assert [Arrive(call, r), go] + [go] == [Arrive(call, r), go, go];
    OneMore(digest, s, [Arrive(call, r), go, go], go);
    assert [Arrive(call, r), go, go] + [go] == DetectSteps(call, r, choice);
  }

  lemma DetectableFacts(db: Db, r: Request)
    requires Detectable(db, r)
    ensures r.DetectGap? && r.areaId in db.areas
  {
  }

  // ---- The run ----

  /** The request's own area with another boundary, and nothing else changed. */
  ghost function Moved(db: Db, r: Request, boundary: Polygon): Request
    requires Detectable(db, r)
  {
    var area := db.areas[r.areaId];
    UpdateArea(r.areaId, area.version, area.fields.(boundary := boundary))
  }

  ghost function AreaMoved(db: Db, r: Request, boundary: Polygon): Db
    requires Detectable(db, r)
  {
    var area := db.areas[r.areaId];
    db.(areas := db.areas[r.areaId := Area(area.code, Settled(area.fields.(boundary := boundary)), area.version + 1)])
  }

  lemma MovedIsAdmissible(db: Db, r: Request, boundary: Polygon)
    requires Detectable(db, r) && BoundaryProblem(boundary).None?
    ensures AreaProblem(Moved(db, r, boundary).areaFields).None?
  {
    hide BoundaryProblem, Projected, Normalized, RunProblem;
  }

  lemma AreaMovedFacts(db: Db, r: Request, boundary: Polygon)
    requires Detectable(db, r)
    ensures var later := AreaMoved(db, r, boundary);
            Detectable(later, r) && KeyOf(later, r) == KeyOf(db, r) && RunsOf(later, r) == RunsOf(db, r) &&
            later.gaps == db.gaps && later.areas[r.areaId].fields.boundary == boundary &&
            (KeyTaken(later, KeyOf(db, r)) <==> KeyTaken(db, KeyOf(db, r))) &&
            Recomputed(later, r) == Measure(boundary, TracksOf(Unique(r.runIds), RunsOf(db, r)),
                                            ResolutionFor(r, db.areas[r.areaId]))
  {
    hide RunProblem, Unique, StableInputKey, Measure, Projected, TrimSpace, Normalized;
  }

  /** The gap a computation on the area as read stores. */
  ghost function ComputedGap(db: Db, r: Request): Gap
    requires Detectable(db, r) && Recomputed(db, r).Ok?
  {
    GapRow(r, KeyOf(db, r), Recomputed(db, r).value)
  }

  ghost function MissedCall(db: Db, r: Request): Call
    requires Detectable(db, r)
  {
    KeyMissing(r, db.areas[r.areaId], Unique(r.runIds), RunsOf(db, r))
  }

  lemma DetectMisses(digest: RunSource -> string, s: State, call: nat, r: Request, choice: Choice)
    requires Detectable(s.db, r) && !KeyTaken(s.db, KeyOf(s.db, r)) && choice.newId !in s.db.gaps
    requires call in s.calls && s.calls[call] == CheckedCall(s.db, r)
    ensures Apply(digest, s, Proceed(call, choice)) == s.(calls := s.calls[call := MissedCall(s.db, r)])
  {
    hide Unique, KeyFor, RunProblem, Selects, Advance, StoredSystem;
    DetectDispatch(digest, s.db, CheckedCall(s.db, r), choice);
  }

  /** The insert uses what was read before, whatever the area has become. */
  lemma DetectStores(digest: RunSource -> string, s: State, call: nat, db: Db, r: Request, choice: Choice)
    requires Detectable(db, r) && Recomputed(db, r).Ok? && ValidPolygon(db.areas[r.areaId].fields.boundary)
    requires !KeyTaken(s.db, KeyOf(db, r)) && choice.newId !in s.db.gaps
    requires call in s.calls && s.calls[call] == MissedCall(db, r)
    ensures var t := Apply(digest, s, Proceed(call, choice));
            t.db == s.db.(gaps := s.db.gaps[choice.newId := ComputedGap(db, r)]) &&
            t.calls == s.calls[call := Replied(GapReply(choice.newId, ComputedGap(db, r), false))]
  {
    hide Unique, KeyFor, RunProblem, Selects, Measure, ValidPolygon, FindingsOf, Advance;
    DetectDispatch(digest, s.db, MissedCall(db, r), choice);
  }

  /** A call has checked its runs and finds a stored gap for its key. */
  ghost predicate FindsStored(s: State, call: nat, r: Request, id: nat) {
    Detectable(s.db, r) && call in s.calls && s.calls[call] == CheckedCall(s.db, r) &&
    id in s.db.gaps && s.db.gaps[id].key == KeyOf(s.db, r)
  }

  /** The first detection reads everything and misses; then another caller moves the boundary. */
  lemma ReadThenMoved(digest: RunSource -> string, s: State, a: nat, b: nat, r: Request, boundary: Polygon,
                      choice: Choice)
    returns (before: seq<Step>)
    requires Detectable(s.db, r) && !KeyTaken(s.db, KeyOf(s.db, r)) && BoundaryProblem(boundary).None?
    requires s.db.areas[r.areaId].fields.status != AreaArchived
    requires a !in s.calls && b !in s.calls && a != b
    requires choice.newId !in s.db.gaps && choice.newId !in s.db.areas && choice.order == Unique(r.runIds)
    ensures Execute(digest, s, before)
         == s.(db := AreaMoved(s.db, r, boundary),
               calls := s.calls[a := MissedCall(s.db, r)][b := AreaWritten(r.areaId)])
  {
    hide Execute, HonestRun, Apply, Advance, KeyOf, KeyTaken, RunsOf, DetectSteps, TwoStatements, BoundaryProblem,
         Unique;
    hide RunProblem, AreaProblem, Settled, StoredSystem;
    MovedIsAdmissible(s.db, r, boundary);
    var detect := DetectSteps(a, r, choice);
    DetectReads(digest, s, a, r, choice);
    var s1 := Execute(digest, s, detect);
    DetectMisses(digest, s1, a, r, choice);
    OneMore(digest, s, detect, Proceed(a, choice));
    var s2 := Execute(digest, s, detect + [Proceed(a, choice)]);
    assert s2 == s.(calls := s.calls[a := MissedCall(s.db, r)]);
    var move := Moved(s.db, r, boundary);
    AreaTouched(digest, s2, b, move, choice);
    before := detect + [Proceed(a, choice)] + TwoStatements(b, move, choice);
    ExecuteInTwo(digest, s, detect + [Proceed(a, choice)], TwoStatements(b, move, choice));
  }

  lemma GapAddedFacts(db: Db, r: Request, id: nat, g: Gap)
    requires Detectable(db, r)
    ensures var later := db.(gaps := db.gaps[id := g]);
            Detectable(later, r) && KeyOf(later, r) == KeyOf(db, r) && Recomputed(later, r) == Recomputed(db, r)
  {
    hide RunProblem, Unique, StableInputKey, Measure, Projected, TrimSpace, Normalized;
  }

  /** For any detectable request and any other admissible boundary there is a run, with a single update of
      the area, in which the boundary stays put from before the gap is stored until a later identical
      request finds it, and what is found was computed on the boundary from before. */
  lemma StoredFromEarlierBoundary(digest: RunSource -> string, s: State, r: Request, boundary: Polygon)
    returns (before: seq<Step>, store: Step, after: seq<Step>, call: nat, id: nat)
    requires Detectable(s.db, r) && Recomputed(s.db, r).Ok? && !KeyTaken(s.db, KeyOf(s.db, r))
    requires ValidPolygon(s.db.areas[r.areaId].fields.boundary) && BoundaryProblem(boundary).None?
    requires s.db.areas[r.areaId].fields.status != AreaArchived
    ensures var middle, stored := Execute(digest, s, before), Execute(digest, s, before + [store]);
            var end := Execute(digest, s, before + [store] + after);
            id !in s.db.gaps && id !in middle.db.gaps && id in stored.db.gaps &&
            middle.db.areas == stored.db.areas == end.db.areas && FindsStored(end, call, r, id) &&
            end.db.areas[r.areaId].version == s.db.areas[r.areaId].version + 1 &&
            end.db.areas[r.areaId].fields.boundary == boundary &&
            end.db.gaps[id].findings == FindingsOf(Recomputed(s.db, r).value) &&
            Recomputed(end.db, r) == Measure(boundary, TracksOf(Unique(r.runIds), RunsOf(s.db, r)),
                                             ResolutionFor(r, s.db.areas[r.areaId]))
  {
    hide KeyTaken, Unique, Measure, ValidPolygon, BoundaryProblem, Execute, HonestRun, Apply, Advance, KeyOf,
         FindingsOf, RunsOf, DetectSteps, Recomputed, TracksOf, RunProblem;
    var a := FreshNumber(s.calls.Keys);
    id := FreshNumber(s.db.gaps.Keys + s.db.areas.Keys);
    var choice := Choice(id, Unique(r.runIds));
    before := ReadThenMoved(digest, s, a, a + 1, r, boundary, choice);
    store := Proceed(a, choice);
    var middle := Execute(digest, s, before);
    AreaMovedFacts(s.db, r, boundary);
    DetectStores(digest, middle, a, s.db, r, choice);
    OneMore(digest, s, before, store);
    var stored := Execute(digest, s, before + [store]);
    GapAddedFacts(middle.db, r, id, ComputedGap(s.db, r));
    call := FreshNumber(stored.calls.Keys);
    var otherId := FreshNumber(stored.db.gaps.Keys);
    var other := Choice(otherId, Unique(r.runIds));
    after := DetectSteps(call, r, other);
    DetectReads(digest, stored, call, r, other);
    ExecuteInTwo(digest, s, before + [store], after);
  }

  // ---- Exactly when the cache agrees ----

  ghost predicate AgreesAfter(digest: RunSource -> string, s: State, steps: seq<Step>, areaId: nat, updates: nat,
                              call: nat, id: nat)
  {
    var t := Execute(digest, s, steps);
    LooksUp(t, call, id) && t.calls[call].request.areaId == areaId && id !in s.db.gaps && id in t.db.gaps &&
    areaId in s.db.areas && areaId in t.db.areas &&
    t.db.areas[areaId].version <= s.db.areas[areaId].version + updates ==>
      Agrees(t.calls[call], t.db.gaps[id].findings, t.db.areas[areaId])
  }

  /** Through every interleaving from here with at most so many updates of the area, whatever gap stored since
      a lookup finds holds the findings of computing afresh on the area as it is at the lookup. */
  ghost predicate AgreesWithin(digest: RunSource -> string, s: State, areaId: nat, updates: nat) {
    forall steps, call, id :: AgreesAfter(digest, s, steps, areaId, updates, call, id)
  }

  /** Measuring on the other boundary is refused or gives something else. */
  ghost predicate Differs(db: Db, r: Request, boundary: Polygon)
    requires Detectable(db, r) && Recomputed(db, r).Ok?
  {
    var tracks, resolution := TracksOf(Unique(r.runIds), RunsOf(db, r)), ResolutionFor(r, db.areas[r.areaId]);
    var moved := Measure(boundary, tracks, resolution);
    moved.Err? || FindingsOf(moved.value) != FindingsOf(Recomputed(db, r).value)
  }

  lemma AgreesWithoutUpdates(digest: RunSource -> string, seeds: set<nat>, s: State, areaId: nat)
    requires StateInv(digest, seeds, s)
    requires areaId in s.db.areas && DetectionsHold(s, areaId, IsRow(s.db.areas[areaId]))
    ensures AgreesWithin(digest, s, areaId, 0)
  {
    forall steps, call, id ensures AgreesAfter(digest, s, steps, areaId, 0, call, id) {
      NoUpdateAgrees(digest, seeds, s, steps, areaId, call, id);
    }
  }

  lemma NoUpdateAgrees(digest: RunSource -> string, seeds: set<nat>, s: State, steps: seq<Step>, areaId: nat,
                       call: nat, id: nat)
    requires StateInv(digest, seeds, s)
    requires areaId in s.db.areas && DetectionsHold(s, areaId, IsRow(s.db.areas[areaId]))
    ensures AgreesAfter(digest, s, steps, areaId, 0, call, id)
  {
    hide Execute, StateInv, DetectionsHold, PlanEvolves, RunEvolves, GapEvolves, Agrees, KeyFor, GapByKey;
    var t := Execute(digest, s, steps);
    Safety(digest, seeds, s, steps);
    if LooksUp(t, call, id) && t.calls[call].request.areaId == areaId && id !in s.db.gaps
       && t.db.areas[areaId].version <= s.db.areas[areaId].version {
      LookupAgreesAtVersion(digest, seeds, s, steps, areaId, call, id);
    }
  }

  /** With one update in the interval some lookup disagrees. */
  lemma DisagreesAfterUpdate(digest: RunSource -> string, seeds: set<nat>, s: State, r: Request, boundary: Polygon,
                             updates: nat)
    requires StateInv(digest, seeds, s) && updates >= 1
    requires Detectable(s.db, r) && Recomputed(s.db, r).Ok? && !KeyTaken(s.db, KeyOf(s.db, r))
    requires ValidPolygon(s.db.areas[r.areaId].fields.boundary) && BoundaryProblem(boundary).None?
    requires s.db.areas[r.areaId].fields.status != AreaArchived && Differs(s.db, r, boundary)
    ensures !AgreesWithin(digest, s, r.areaId, updates)
  {
    hide KeyTaken, Unique, Measure, ValidPolygon, BoundaryProblem, Execute, KeyOf, FindingsOf, RunsOf, TracksOf,
         RunProblem, StateInv, StoredSystem, UniqueIndexes, Evolves;
    var before, store, after, call, id := StoredFromEarlierBoundary(digest, s, r, boundary);
    var steps := before + [store] + after;
    var t := Execute(digest, s, steps);
    Safety(digest, seeds, s, steps);
    StoredGapFacts(digest, seeds, t, id);
    FoundIsLookedUp(t, call, r, id);
    RecomputedByCall(t, call, r, id);
    assert !AgreesAfter(digest, s, steps, r.areaId, updates, call, id);
  }

  lemma FoundIsLookedUp(s: State, call: nat, r: Request, id: nat)
    requires UniqueIndexes(s.db) && FindsStored(s, call, r, id)
    ensures LooksUp(s, call, id)
  {
    hide UniqueIndexes, RunProblem, Unique, KeyFor, StoredSystem, GapByKey;
    TheStoredGap(s.db, KeyOf(s.db, r), id);
  }

  lemma RecomputedByCall(s: State, call: nat, r: Request, id: nat)
    requires FindsStored(s, call, r, id) && LooksUp(s, call, id)
    ensures s.calls[call].request == r
    ensures Agrees(s.calls[call], s.db.gaps[id].findings, s.db.areas[r.areaId]) <==>
            Recomputed(s.db, r).Ok? && s.db.gaps[id].findings == FindingsOf(Recomputed(s.db, r).value)
  {
    hide RunProblem, Unique, KeyFor, StoredSystem, GapByKey, Measure, FindingsOf;
  }

  /** From any state in which the detections of an area under way have read the row in force: the cache agrees
      with recomputation through all runs with at most so many updates of the area if and only if there is
      none, for any request to be computed and any admissible boundary that measures otherwise. */
  lemma CacheAgreesExactly(digest: RunSource -> string, seeds: set<nat>, s: State, r: Request, boundary: Polygon,
                           updates: nat)
    requires StateInv(digest, seeds, s)
    requires Detectable(s.db, r) && Recomputed(s.db, r).Ok? && !KeyTaken(s.db, KeyOf(s.db, r))
    requires DetectionsHold(s, r.areaId, IsRow(s.db.areas[r.areaId]))
    requires ValidPolygon(s.db.areas[r.areaId].fields.boundary) && BoundaryProblem(boundary).None?
    requires s.db.areas[r.areaId].fields.status != AreaArchived && Differs(s.db, r, boundary)
    ensures AgreesWithin(digest, s, r.areaId, updates) <==> updates == 0
  {
    hide *;
    if updates == 0 {
      DetectableFacts(s.db, r);
      AgreesWithoutUpdates(digest, seeds, s, r.areaId);
    } else {
      DisagreesAfterUpdate(digest, seeds, s, r, boundary, updates);
    }
  }

  // ---- One such run ----

  const NEAR_BOX := Bounds(0.0, 0.0, 2.0, 2.0)
  const FAR_BOX := Bounds(0.0, 10.0, 2.0, 12.0)

  const LEG: Line := [Point(0.0, 1.0), Point(2.0, 1.0)]

  const SURVEY := AreaFields("harbour", Rectangle(NEAR_BOX, true), 2.0, "UTM50N", 2.0, "team", AreaActive)

  /** One area, one locked plan of its only line, and that line flown and processed. */
  const SEEDED := Db(
    map[1 := Area("A-1", SURVEY, 1)],
    map[1 := Plan(1, PlanFields("plan", [LEG], 90.0, 2.0, 2.0), Locked, 1, 1)],
    map[1 := Run(1, "R-1", [LEG], 2.0, 0, 60, Good, RunState.Processed, "seed", 1, 1)],
    map[])

  const ASKED := DetectGap(1, [1], "grid-v1", 0.0, "idempotency", "summary")

  /** A square of one cell has no gap exactly when its centre is swept. */
  lemma OneCell(b: Bounds, tracks: seq<Track>)
    requires b.maxX - b.minX == 2.0 && b.maxY - b.minY == 2.0 && tracks != []
    ensures var m := Measure(Rectangle(b, true), tracks, 2.0);
            m.Ok? && (m.value.gapRatio == 0.0 <==> Passes(Point(b.minX + 1.0, b.minY + 1.0), tracks) > 0)
  {
    hide Rectangle, InsidePolygon, BoundsOf, AreaOf, CellBox, BoxArtifacts, Passes;
    var boundary, g, c := Rectangle(b, true), GridOver(b, 2.0), Cell(0, 0);
    CeilUnique(2.0 / 2.0, 1);
    RectangleBounds(b, true);
    assert Center(g, c) == Point(b.minX + 1.0, b.minY + 1.0);
    RectangleContains(b, true, Center(g, c));
    assert c in GridCells(g) && c in InsideCells(boundary, g);
    NoGapMeansNoGapCell(boundary, tracks, 2.0);
    if Passes(Center(g, c), tracks) == 0 {
      assert c in GapCells(boundary, g, tracks);
    } else {
      assert GridCells(g) == {c};
      assert c !in GapCells(boundary, g, tracks);
    }
  }

  lemma LegSweepsByHeight(p: Point)
    requires 0.0 <= p.x <= 2.0
    ensures Passes(p, [Track(1, [LEG], 2.0)]) > 0 <==> Square(p.y - 1.0) <= 1.0
  {
    var track := Track(1, [LEG], 2.0);
    HorizontalDistance(p, 0.0, 2.0, 1.0);
    assert Square(1.0) == 1.0;
    assert [track][..0] == [];
    hide SegmentDistanceSquared;
    assert LegSweeps(p, LEG, 0, 2.0) <==> Square(p.y - 1.0) <= 1.0;
    if Sweeps(track, p) {
      assert LineSweeps(p, LEG, 2.0);
    } else {
      assert !LineSweeps(p, track.lines[0], 2.0);
    }
  }

  lemma NearIsCovered()
    ensures Measure(Rectangle(NEAR_BOX, true), [Track(1, [LEG], 2.0)], 2.0).Ok?
    ensures Measure(Rectangle(NEAR_BOX, true), [Track(1, [LEG], 2.0)], 2.0).value.gapRatio == 0.0
    ensures Measure(Rectangle(FAR_BOX, true), [Track(1, [LEG], 2.0)], 2.0).Ok?
    ensures Measure(Rectangle(FAR_BOX, true), [Track(1, [LEG], 2.0)], 2.0).value.gapRatio > 0.0
  {
    hide Measure, Passes;
    var tracks := [Track(1, [LEG], 2.0)];
    OneCell(NEAR_BOX, tracks);
    LegSweepsByHeight(Point(1.0, 1.0));
    OneCell(FAR_BOX, tracks);
    LegSweepsByHeight(Point(1.0, 11.0));
    RatiosShareOut(Rectangle(FAR_BOX, true), tracks, 2.0);
  }

  lemma SeededSystem()
    ensures StoredSystem(SURVEY.crs)
  {
    hide Contains;
    var s := "UTM50N";
    assert TrimSpace(s) == s by { TrimmedStays(s); }
    assert Upper(s) == s;
    forall part | part in {"4326", "WGS84", "WGS 84"} ensures !Contains(s, part) {
      NoSuchStart(s, part);
    }
  }

  /** What begins with a letter that does not occur is not contained. */
  lemma NoSuchStart(s: string, part: string)
    requires part != "" && part[0] !in s
    ensures !Contains(s, part)
  {
    forall i | 0 <= i <= |s| ensures !(part <= s[i..]) {
      if i < |s| {
        assert s[i..][0] == s[i] && s[i] in s;
      }
    }
  }

  lemma SeededIsSound(digest: RunSource -> string)
    ensures Init(digest, {1}, State(SEEDED, map[], map[], map[], map[]))
  {
    hide Rectangle, StoredSystem;
    SeededSystem();
  }

  lemma SeededIsDetectable()
    ensures Detectable(SEEDED, ASKED) && Unique(ASKED.runIds) == [1]
    ensures TracksOf(Unique(ASKED.runIds), RunsOf(SEEDED, ASKED)) == [Track(1, [LEG], 2.0)]
    ensures ResolutionFor(ASKED, SEEDED.areas[1]) == 2.0
  {
    hide Rectangle, StoredSystem;
    SeededSystem();
    assert [1][..0] == [];
  }

  lemma BoxesAreAdmissible()
    ensures ValidPolygon(Rectangle(NEAR_BOX, true)) && BoundaryProblem(Rectangle(FAR_BOX, true)).None?
  {
    hide AreaOf;
    RectangleContains(NEAR_BOX, true, Point(0.0, 0.0));
    RectangleContains(FAR_BOX, true, Point(0.0, 0.0));
  }

  /** From one sound start: the boundary is the same when the gap is stored and when a later request
      finds it, yet the stored gap ratio is zero and computing afresh gives a positive one. */
  lemma UnchangedSinceStoredIsNotEnough(digest: RunSource -> string)
    returns (start: State, before: seq<Step>, store: Step, after: seq<Step>, call: nat, id: nat)
    ensures Init(digest, {1}, start)
    ensures var middle, end := Execute(digest, start, before), Execute(digest, start, before + [store] + after);
            id !in middle.db.gaps && middle.db.areas == end.db.areas && FindsStored(end, call, ASKED, id) &&
            end.db.gaps[id].findings.gapRatio == 0.0 &&
            Recomputed(end.db, ASKED).Ok? && Recomputed(end.db, ASKED).value.gapRatio > 0.0
  {
    hide Execute, Init, Measure, Detectable, FindsStored, RunsOf, Unique, TracksOf, ResolutionFor, ValidPolygon,
         BoundaryProblem;
    start := State(SEEDED, map[], map[], map[], map[]);
    SeededIsSound(digest);
    SeededIsDetectable();
    NearIsCovered();
    BoxesAreAdmissible();
    before, store, after, call, id := StoredFromEarlierBoundary(digest, start, ASKED, Rectangle(FAR_BOX, true));
  }
}
