/** The services as interleaved calls. A call is a request with a program counter and what it has
    read so far; each SQL statement is one step, and steps of different calls interleave freely. */
module Workflow {
  import opened Outcome
  import opened Segments
  import opened Rings
  import opened Coverage
  import opened CoordinateSystems
  import opened States
  import opened InputKeys
  import opened Store

  const REVIEW_MARK := " 复核记录："

  // ---- Requests and replies ----

  datatype Request =
    | ReviewGap(gapId: nat, gapTarget: GapState, expected: nat, note: string)
    | MoveRun(runId: nat, runTarget: RunState, expected: nat, reason: string)
    | ImportRun(planId: nat, code: string, track: seq<Line>, swath: real, startedAt: int, endedAt: int,
                quality: Navigation, actor: nat)
    | DetectGap(areaId: nat, runIds: seq<nat>, algorithm: string, resolution: real, idempotencyKey: string,
                summary: string)
    | UpdatePlan(planId: nat, expected: nat, planFields: PlanFields)
    | LockPlan(planId: nat, expected: nat)
    | CopyPlan(planId: nat, actor: nat)
    | CreatePlan(areaId: nat, planFields: PlanFields, actor: nat)
    | UpdateArea(areaId: nat, expected: nat, areaFields: AreaFields)
    | CreateArea(code: string, areaFields: AreaFields)

  datatype Failure =
    | NotFound | VersionConflict | Duplicate
    | GapTransitionInvalid
    | RunTransitionInvalid | NavigationInvalid | ReasonRequired
    | PlanNotLocked | LinesInvalid | RunTimeInvalid
    | CoordinateSystemInvalid
    | KeyLength | RunSetIncomplete | RunAreaMismatch | RunNotProcessed | BoundaryInvalid
    | CalculationInvalid(error: CoverageError)
    | PlanIsLocked | PlanStateInvalid
    | AreaIsArchived | AreaTooLarge

  datatype Reply =
    | Failed(failure: Failure)
    | GapReply(gapId: nat, gap: Gap, idempotent: bool)
    | RunReply(runId: nat, run: Run, idempotent: bool)
    | PlanReply(planId: nat, plan: Plan)
    | AreaReply(areaId: nat, area: Area)

  /** Where a call stands. The name says what has just been done; the next statement follows. */
  datatype Call =
    | Arrived(request: Request)
    | GapRead(request: Request, gap: Gap)
    | GapWritten(id: nat)
    | RunRead(request: Request, run: Run)
    | RunWritten(id: nat)
    | ImportChecked(request: Request)
    | ImportMissing(request: Request)
    | AreaFetched(request: Request, area: Area)
    | RunsFetched(request: Request, area: Area, order: seq<nat>, runs: seq<Run>)
    | RunsChecked(request: Request, area: Area, order: seq<nat>, runs: seq<Run>)
    | KeyMissing(request: Request, area: Area, order: seq<nat>, runs: seq<Run>)
    | PlanRead(request: Request, plan: Plan)
    | PlanWritten(id: nat)
    | AreaRead(request: Request, area: Area)
    | AreaWritten(id: nat)
    | Replied(reply: Reply)

  /** What the database leaves open: the number of an inserted row and the order of selected rows. */
  datatype Choice = Choice(newId: nat, order: seq<nat>)

  /** The row a computation started from and the runs in the order it used them. */
  datatype Origin = Origin(area: Area, order: seq<nat>)

  /** A committed review: the state asked for and the note. */
  datatype Review = Review(target: GapState, note: string)

  /** What a step did to the gap table. */
  datatype Event = Silent | Noted(gapId: nat, review: Review) | Stored(gapId: nat, origin: Origin)

  datatype Move = Move(db: Db, call: Call, event: Event)

  // ---- Pure parts of the services ----

  /** What a run's checksum is a digest of; the swath is seen to three decimals. */
  datatype RunSource = RunSource(planId: nat, track: seq<Line>, swathMilli: int, startedAt: int, endedAt: int)

  /** Three decimals, to the nearest; a tie goes to the even last digit. */
  function Milli(swath: real): (m: int)
    ensures -0.5 <= swath * 1000.0 - m as real <= 0.5
    ensures swath * 1000.0 - m as real in {-0.5, 0.5} ==> m % 2 == 0
  {
    var x := swath * 1000.0;
    var m := x.Floor;
    var over := x - m as real;
    if over < 0.5 || (over == 0.5 && m % 2 == 0) then m else m + 1
  }

  function SourceOfRun(run: Run): RunSource {
    RunSource(run.planId, run.track, Milli(run.swath), run.startedAt, run.endedAt)
  }

  function SourceOfImport(r: Request): RunSource
    requires r.ImportRun?
  {
    RunSource(r.planId, r.track, Milli(r.swath), r.startedAt, r.endedAt)
  }

  /** Lines the parser accepts: at least one, each with two positions. */
  predicate ValidLines(lines: seq<Line>) {
    lines != [] && forall i :: 0 <= i < |lines| ==> |lines[i]| >= 2
  }

  /** First occurrences, in order. */
  function Unique(values: seq<nat>): (u: seq<nat>)
    ensures forall v :: v in u <==> v in values
    ensures forall i, j :: 0 <= i < j < |u| ==> u[i] != u[j]
  {
    if values == [] then []
    else
      var front, last := values[..|values| - 1], values[|values| - 1];
      var u := Unique(front);
      if last in u then u else u + [last]
  }

  function RunProblem(areaId: nat, plans: map<nat, Plan>, run: Run): Option<Failure> {
    if run.planId !in plans || plans[run.planId].areaId != areaId then Some(RunAreaMismatch)
    else if run.state != RunState.Processed then Some(RunNotProcessed)
    else if !ValidLines(run.track) then Some(LinesInvalid)
    else None
  }

  /** The first problem of the first run that has one. */
  function FirstProblem(areaId: nat, plans: map<nat, Plan>, runs: seq<Run>): (r: Option<Failure>)
    ensures r.None? <==> forall i :: 0 <= i < |runs| ==> RunProblem(areaId, plans, runs[i]).None?
  {
    if runs == [] then None
    else
      var front := FirstProblem(areaId, plans, runs[..|runs| - 1]);
      if front.Some? then front else RunProblem(areaId, plans, runs[|runs| - 1])
  }

  function Checksums(runs: seq<Run>): (c: seq<string>)
    ensures |c| == |runs| && forall i :: 0 <= i < |runs| ==> c[i] == runs[i].checksum
  {
    seq(|runs|, i requires 0 <= i < |runs| => runs[i].checksum)
  }

  function TracksOf(order: seq<nat>, runs: seq<Run>): (t: seq<Track>)
    requires |order| == |runs|
    ensures |t| == |runs| && forall i :: 0 <= i < |runs| ==> t[i] == Track(order[i], runs[i].track, runs[i].swath)
  {
    seq(|runs|, i requires 0 <= i < |runs| => Track(order[i], runs[i].track, runs[i].swath))
  }

  function ResolutionFor(r: Request, area: Area): real
    requires r.DetectGap?
  {
    if r.resolution == 0.0 then area.fields.targetResolution else r.resolution
  }

  function KeyFor(r: Request, area: Area, runs: seq<Run>): InputKey
    requires r.DetectGap?
  {
    StableInputKey(r.areaId, area.fields.crs, r.algorithm, Checksums(runs), ResolutionFor(r, area))
  }

  function FindingsOf(result: CoverageResult): Findings {
    Findings(result.artifacts.gap, result.area * result.gapRatio, result.gapRatio, SeverityForRatio(result.gapRatio),
             result.artifacts.recommended, result.coverageRatio, result.overlapRatio)
  }

  function GapRow(r: Request, key: InputKey, result: CoverageResult): Gap
    requires r.DetectGap?
  {
    Gap(r.areaId, Unique(r.runIds), FindingsOf(result), r.algorithm, key, Detected, r.summary, 1)
  }

  function ImportedRow(digest: RunSource -> string, r: Request): Run
    requires r.ImportRun?
  {
    Run(r.planId, r.code, r.track, r.swath, r.startedAt, r.endedAt, r.quality, Imported,
        digest(SourceOfImport(r)), r.actor, 1)
  }

  const AREA_LIMIT := 1_000_000_000.0

  function BoundaryProblem(boundary: Polygon): Option<Failure> {
    if !ValidPolygon(boundary) then Some(BoundaryInvalid)
    else if AreaOf(boundary) > AREA_LIMIT then Some(AreaTooLarge)
    else None
  }

  /** What an area's fields are refused for, coordinate system first. */
  function AreaProblem(fields: AreaFields): Option<Failure> {
    if !Projected(fields.crs) then Some(CoordinateSystemInvalid) else BoundaryProblem(fields.boundary)
  }

  /** The fields as they are stored. */
  function Settled(fields: AreaFields): AreaFields {
    fields.(name := TrimSpace(fields.name), crs := Normalized(fields.crs), ownerTeam := TrimSpace(fields.ownerTeam))
  }

  function Fail(db: Db, failure: Failure): Move {
    Move(db, Replied(Failed(failure)), Silent)
  }

  // ---- Steps of each service ----

  /** Whose turn it is: each predicate says when the function below it speaks for the call. */
  predicate ReviewTurn(call: Call) {
    (call.Arrived? || call.GapRead?) && call.request.ReviewGap?
  }

  predicate MoveTurn(call: Call) {
    (call.Arrived? || call.RunRead?) && call.request.MoveRun?
  }

  predicate ImportTurn(db: Db, call: Call, choice: Choice) {
    (call.Arrived? || call.ImportChecked? || call.ImportMissing?) && call.request.ImportRun? && choice.newId !in db.runs
  }

  predicate DetectTurn(db: Db, call: Call, choice: Choice) {
    (call.Arrived? || call.AreaFetched? || call.RunsFetched? || call.RunsChecked? || call.KeyMissing?) &&
    call.request.DetectGap? && choice.newId !in db.gaps &&
    (call.AreaFetched? ==> Selects(choice.order, call.request.runIds, db.runs)) &&
    (call.RunsFetched? || call.RunsChecked? || call.KeyMissing? ==> |call.order| == |call.runs|)
  }

  predicate PlanTurn(db: Db, call: Call, choice: Choice) {
    (call.Arrived? || call.PlanRead?) && choice.newId !in db.plans &&
    (call.request.UpdatePlan? || call.request.LockPlan? || call.request.CopyPlan?)
  }

  predicate CreatePlanTurn(db: Db, call: Call, choice: Choice) {
    (call.Arrived? || call.AreaRead?) && call.request.CreatePlan? && choice.newId !in db.plans
  }

  predicate AreaTurn(db: Db, call: Call, choice: Choice) {
    (call.Arrived? || call.AreaRead?) && choice.newId !in db.areas &&
    (call.request.UpdateArea? || (call.request.CreateArea? && call.Arrived?))
  }

  predicate RereadTurn(call: Call) {
    call.GapWritten? || call.RunWritten? || call.PlanWritten? || call.AreaWritten?
  }

  ghost function AdvanceReview(db: Db, call: Call): Move
    requires ReviewTurn(call)
  {
    var r := call.request;
    match call
    case Arrived(_) =>
      if r.gapId !in db.gaps then Fail(db, NotFound)
      else if r.gapTarget !in GapTargets(db.gaps[r.gapId].state) then Fail(db, GapTransitionInvalid)
      else Move(db, GapRead(r, db.gaps[r.gapId]), Silent)
    case GapRead(_, before) =>
      var explanation := before.explanation + REVIEW_MARK + r.note;
      var e := TransitionGap(db, r.gapId, r.expected, before.state, r.gapTarget, explanation);
      if e.affected then Move(e.db, GapWritten(r.gapId), Noted(r.gapId, Review(r.gapTarget, r.note)))
      else Fail(db, VersionConflict)
  }

  ghost function AdvanceMove(db: Db, call: Call): Move
    requires MoveTurn(call)
  {
    var r := call.request;
    match call
    case Arrived(_) =>
      if r.runId !in db.runs then Fail(db, NotFound)
      else
        var before := db.runs[r.runId];
        if r.runTarget !in RunTargets(before.state) then Fail(db, RunTransitionInvalid)
        else if r.runTarget == QualityChecked && before.quality == Invalid then Fail(db, NavigationInvalid)
        else if r.runTarget == Rejected && |r.reason| < 4 then Fail(db, ReasonRequired)
        else Move(db, RunRead(r, before), Silent)
    case RunRead(_, before) =>
      var e := TransitionRun(db, r.runId, r.expected, before.state, r.runTarget);
      if e.affected then Move(e.db, RunWritten(r.runId), Silent) else Fail(db, VersionConflict)
  }

  ghost function AdvanceImport(digest: RunSource -> string, db: Db, call: Call, choice: Choice): Move
    requires ImportTurn(db, call, choice)
  {
    var r := call.request;
    match call
    case Arrived(_) =>
      if r.planId !in db.plans then Fail(db, NotFound)
      else if db.plans[r.planId].state != Locked then Fail(db, PlanNotLocked)
      else if !ValidLines(r.track) then Fail(db, LinesInvalid)
      else if r.endedAt <= r.startedAt then Fail(db, RunTimeInvalid)
      else Move(db, ImportChecked(r), Silent)
    case ImportChecked(_) =>
      var existing := RunByChecksum(db, digest(SourceOfImport(r)));
      if existing.Some? then Move(db, Replied(RunReply(existing.value, db.runs[existing.value], true)), Silent)
      else Move(db, ImportMissing(r), Silent)
    case ImportMissing(_) =>
      var e := InsertRun(db, choice.newId, ImportedRow(digest, r));
      if e.affected then Move(e.db, RunWritten(choice.newId), Silent) else Fail(db, Duplicate)
  }

  ghost function AdvanceDetect(db: Db, call: Call, choice: Choice): Move
    requires DetectTurn(db, call, choice)
  {
    var r := call.request;
    match call
    case Arrived(_) =>
      if |r.idempotencyKey| < 8 || |r.idempotencyKey| > 120 then Fail(db, KeyLength)
      else if r.areaId !in db.areas then Fail(db, NotFound)
      else if !Projected(db.areas[r.areaId].fields.crs) then Fail(db, CoordinateSystemInvalid)
      else Move(db, AreaFetched(r, db.areas[r.areaId]), Silent)
    case AreaFetched(_, area) =>
      Move(db, RunsFetched(r, area, choice.order, RowsOf(choice.order, db.runs)), Silent)
    case RunsFetched(_, area, order, runs) =>
      var problem := FirstProblem(r.areaId, db.plans, runs);
      if |runs| != |Unique(r.runIds)| then Fail(db, RunSetIncomplete)
      else if problem.Some? then Fail(db, problem.value)
      else Move(db, RunsChecked(r, area, order, runs), Silent)
    case RunsChecked(_, area, order, runs) =>
      var existing := GapByKey(db, KeyFor(r, area, runs));
      if existing.Some? then Move(db, Replied(GapReply(existing.value, db.gaps[existing.value], true)), Silent)
      else Move(db, KeyMissing(r, area, order, runs), Silent)
    case KeyMissing(_, area, order, runs) =>
      if !ValidPolygon(area.fields.boundary) then Fail(db, BoundaryInvalid)
      else
        var result := Measure(area.fields.boundary, TracksOf(order, runs), ResolutionFor(r, area));
        if result.Err? then Fail(db, CalculationInvalid(result.error))
        else
          var row := GapRow(r, KeyFor(r, area, runs), result.value);
          var e := InsertGap(db, choice.newId, row);
          if e.affected
          then Move(e.db, Replied(GapReply(choice.newId, row, false)), Stored(choice.newId, Origin(area, order)))
          else Fail(db, Duplicate)
  }

  ghost function AdvancePlan(db: Db, call: Call, choice: Choice): Move
    requires PlanTurn(db, call, choice)
  {
    var r := call.request;
    match call
    case Arrived(_) =>
      if r.planId !in db.plans then Fail(db, NotFound)
      else
        var before := db.plans[r.planId];
        if r.UpdatePlan? && before.state != Draft then Fail(db, PlanIsLocked)
        else if r.UpdatePlan? && !ValidLines(r.planFields.lines) then Fail(db, LinesInvalid)
        else if r.LockPlan? && before.state != Draft then Fail(db, PlanStateInvalid)
        else Move(db, PlanRead(r, before), Silent)
    case PlanRead(_, before) =>
      match r {
        case UpdatePlan(id, expected, fields) =>
          var e := UpdatePlanRow(db, id, expected, fields);
          if e.affected then Move(e.db, PlanWritten(id), Silent) else Fail(db, VersionConflict)
        case LockPlan(id, expected) =>
          var e := TransitionPlan(db, id, expected, Draft, Locked);
          if e.affected then Move(e.db, PlanWritten(id), Silent) else Fail(db, VersionConflict)
        case CopyPlan(_, actor) =>
          var row := CopiedPlan(before, actor);
          Move(InsertPlan(db, choice.newId, row).db, Replied(PlanReply(choice.newId, row)), Silent)
      }
  }

  ghost function AdvanceCreatePlan(db: Db, call: Call, choice: Choice): Move
    requires CreatePlanTurn(db, call, choice)
  {
    var r := call.request;
    match call
    case Arrived(_) =>
      if r.areaId !in db.areas then Fail(db, NotFound)
      else if db.areas[r.areaId].fields.status == AreaArchived then Fail(db, AreaIsArchived)
      else if !ValidLines(r.planFields.lines) then Fail(db, LinesInvalid)
      else Move(db, AreaRead(r, db.areas[r.areaId]), Silent)
    case AreaRead(_, _) =>
      var row := Plan(r.areaId, r.planFields, Draft, 1, r.actor);
      Move(InsertPlan(db, choice.newId, row).db, PlanWritten(choice.newId), Silent)
  }

  ghost function AdvanceArea(db: Db, call: Call, choice: Choice): Move
    requires AreaTurn(db, call, choice)
  {
    var r := call.request;
    match call
    case Arrived(_) =>
      if r.CreateArea? then
        var problem := AreaProblem(r.areaFields);
        if problem.Some? then Fail(db, problem.value)
        else
          var row := Area(Normalized(r.code), Settled(r.areaFields).(status := AreaDraft), 1);
          var e := InsertArea(db, choice.newId, row);
          if e.affected then Move(e.db, AreaWritten(choice.newId), Silent) else Fail(db, Duplicate)
      else if r.areaId !in db.areas then Fail(db, NotFound)
      else if db.areas[r.areaId].fields.status == AreaArchived then Fail(db, AreaIsArchived)
      else if AreaProblem(r.areaFields).Some? then Fail(db, AreaProblem(r.areaFields).value)
      else Move(db, AreaRead(r, db.areas[r.areaId]), Silent)
    case AreaRead(_, _) =>
      var e := UpdateAreaRow(db, r.areaId, r.expected, Settled(r.areaFields));
      if e.affected then Move(e.db, AreaWritten(r.areaId), Silent) else Fail(db, VersionConflict)
  }

  /** The re-read after a write; the row is there because rows are never deleted. */
  ghost function AdvanceReread(db: Db, call: Call): Move
    requires RereadTurn(call)
  {
    match call
    case GapWritten(id) =>
      if id in db.gaps then Move(db, Replied(GapReply(id, db.gaps[id], false)), Silent) else Fail(db, NotFound)
    case RunWritten(id) =>
      if id in db.runs then Move(db, Replied(RunReply(id, db.runs[id], false)), Silent) else Fail(db, NotFound)
    case PlanWritten(id) =>
      if id in db.plans then Move(db, Replied(PlanReply(id, db.plans[id])), Silent) else Fail(db, NotFound)
    case AreaWritten(id) =>
      if id in db.areas then Move(db, Replied(AreaReply(id, db.areas[id])), Silent) else Fail(db, NotFound)
  }

  /** One SQL statement of a call. A call that has replied, or a choice the database could not make,
      stays put. */
  ghost function Advance(digest: RunSource -> string, db: Db, call: Call, choice: Choice): Move {
    if RereadTurn(call) then AdvanceReread(db, call)
    else if call.Replied? then Move(db, call, Silent)
    else if ReviewTurn(call) then AdvanceReview(db, call)
    else if MoveTurn(call) then AdvanceMove(db, call)
    else if ImportTurn(db, call, choice) then AdvanceImport(digest, db, call, choice)
    else if DetectTurn(db, call, choice) then AdvanceDetect(db, call, choice)
    else if PlanTurn(db, call, choice) then AdvancePlan(db, call, choice)
    else if CreatePlanTurn(db, call, choice) then AdvanceCreatePlan(db, call, choice)
    else if AreaTurn(db, call, choice) then AdvanceArea(db, call, choice)
    else Move(db, call, Silent)
  }

  lemma DetectDispatch(digest: RunSource -> string, db: Db, call: Call, choice: Choice)
    requires DetectTurn(db, call, choice)
    ensures Advance(digest, db, call, choice) == AdvanceDetect(db, call, choice)
  {
    hide AdvanceReview, AdvanceMove, AdvanceImport, AdvancePlan, AdvanceCreatePlan, AdvanceArea, AdvanceDetect, Selects;
  }

  // ---- Interleaved runs ----

  /** The database, the calls in flight, and what is remembered of each gap for stating properties:
      the row first stored, the reviews committed since in commit order, and what it was computed from. */
  datatype State = State(
    db: Db, calls: map<nat, Call>,
    first: map<nat, Gap>, reviews: map<nat, seq<Review>>, origins: map<nat, Origin>)

  datatype Step = Arrive(id: nat, request: Request) | Proceed(id: nat, choice: Choice)

  function Recorded(s: State, event: Event, db: Db): State {
    match event
    case Silent => s
    case Noted(id, review) =>
      s.(reviews := s.reviews[id := (if id in s.reviews then s.reviews[id] else []) + [review]])
    case Stored(id, origin) =>
      if id in db.gaps
      then s.(first := s.first[id := db.gaps[id]], reviews := s.reviews[id := []], origins := s.origins[id := origin])
      else s
  }

  ghost function Apply(digest: RunSource -> string, s: State, step: Step): State {
    match step
    case Arrive(id, request) =>
      if id in s.calls then s else s.(calls := s.calls[id := Arrived(request)])
    case Proceed(id, choice) =>
      if id !in s.calls then s
      else
        var m := Advance(digest, s.db, s.calls[id], choice);
        Recorded(s, m.event, m.db).(db := m.db, calls := s.calls[id := m.call])
  }

  /** The state after any interleaved sequence of steps. */
  ghost function Execute(digest: RunSource -> string, s: State, steps: seq<Step>): State {
    if steps == [] then s
    else Apply(digest, Execute(digest, s, steps[..|steps| - 1]), steps[|steps| - 1])
  }
}
