/** What every step of every interleaving keeps: how rows may evolve, what holds across entities, and
    what each call in flight may still rely on of what it read. */
module WorkflowInvariants {
  import opened Outcome
  import opened Rings
  import opened Coverage
  import opened CoordinateSystems
  import opened States
  import opened InputKeys
  import opened Store
  import opened Workflow

  // ---- How rows evolve ----

  ghost predicate AreaEvolves(a: Area, b: Area) {
    b.code == a.code && a.version <= b.version && (a.version == b.version ==> a == b)
  }

  ghost predicate PlanEvolves(p: Plan, q: Plan) {
    q.areaId == p.areaId && p.version <= q.version && (p.version == q.version ==> p == q) &&
    (p.state == Locked ==> q.state == Locked)
  }

  /** A run that counts towards coverage. */
  predicate Counted(r: Run) {
    r.state == RunState.Processed || r.state == Superseded
  }

  ghost predicate RunEvolves(r: Run, q: Run) {
    q == r.(state := q.state, version := q.version) && (q == r || RunRank(r.state) < RunRank(q.state)) &&
    (Counted(r) ==> Counted(q))
  }

  ghost predicate GapEvolves(g: Gap, h: Gap) {
    h == g.(state := h.state, explanation := h.explanation, version := h.version) &&
    (h == g || GapRank(g.state) < GapRank(h.state))
  }

  /** No row disappears and each evolves as its kind may. */
  ghost predicate Evolves(db: Db, later: Db) {
    (forall id :: id in db.areas ==> id in later.areas && AreaEvolves(db.areas[id], later.areas[id])) &&
    (forall id :: id in db.plans ==> id in later.plans && PlanEvolves(db.plans[id], later.plans[id])) &&
    (forall id :: id in db.runs ==> id in later.runs && RunEvolves(db.runs[id], later.runs[id])) &&
    (forall id :: id in db.gaps ==> id in later.gaps && GapEvolves(db.gaps[id], later.gaps[id]))
  }

  lemma EvolvesTransitive(a: Db, b: Db, c: Db)
    requires Evolves(a, b) && Evolves(b, c)
    ensures Evolves(a, c)
  {
  }

  // ---- Across entities ----

  ghost predicate VersionsPositive(db: Db) {
    (forall id :: id in db.areas ==> db.areas[id].version >= 1) &&
    (forall id :: id in db.plans ==> db.plans[id].version >= 1)
  }

  /** Every area is stored with a normalised, projected coordinate system. */
  ghost predicate AreasProjected(db: Db) {
    forall id :: id in db.areas ==> StoredSystem(db.areas[id].fields.crs)
  }

  /** Every run was flown for a plan that is locked. */
  ghost predicate RunsOnLockedPlans(db: Db) {
    forall id :: id in db.runs ==> db.runs[id].planId in db.plans && db.plans[db.runs[id].planId].state == Locked
  }

  /** A run with invalid navigation is only ever imported or rejected. */
  ghost predicate NavigationSound(db: Db) {
    forall id :: id in db.runs && db.runs[id].quality == Invalid ==>
      db.runs[id].state == Imported || db.runs[id].state == Rejected
  }

  /** Every run but the seeded ones carries the digest of its own source. */
  ghost predicate ChecksumsDigest(digest: RunSource -> string, seeds: set<nat>, db: Db) {
    forall id :: id in db.runs && id !in seeds ==> db.runs[id].checksum == digest(SourceOfRun(db.runs[id]))
  }

  ghost predicate SourceSound(db: Db, areaId: nat, id: nat) {
    id in db.runs && Counted(db.runs[id]) && db.runs[id].planId in db.plans &&
    db.plans[db.runs[id].planId].areaId == areaId
  }

  /** A gap's source runs are processed or superseded and belong to its area. */
  ghost predicate GapsSound(db: Db) {
    forall id :: id in db.gaps ==>
      NoDuplicates(db.gaps[id].sourceRunIds) &&
      forall run :: run in db.gaps[id].sourceRunIds ==> SourceSound(db, db.gaps[id].areaId, run)
  }

  ghost predicate DbInv(digest: RunSource -> string, seeds: set<nat>, db: Db) {
    VersionsPositive(db) && AreasProjected(db) && RunsOnLockedPlans(db) && NavigationSound(db) && UniqueIndexes(db) &&
    ChecksumsDigest(digest, seeds, db) && GapsSound(db)
  }

  // ---- What a call relies on ----

  /** Rows the call read for the ids it lists, as they have evolved since. */
  ghost predicate StillThere(db: Db, ids: seq<nat>, order: seq<nat>, runs: seq<Run>) {
    |order| == |runs| && NoDuplicates(order) &&
    forall i :: 0 <= i < |order| ==>
      order[i] in ids && order[i] in db.runs && RunEvolves(runs[i], db.runs[order[i]])
  }

  ghost predicate AllChecked(db: Db, r: Request, runs: seq<Run>)
    requires r.DetectGap?
  {
    |runs| == |Unique(r.runIds)| &&
    forall i :: 0 <= i < |runs| ==>
      runs[i].state == RunState.Processed && runs[i].planId in db.plans && db.plans[runs[i].planId].areaId == r.areaId
  }

  ghost predicate AreaRelied(db: Db, areaId: nat, area: Area) {
    areaId in db.areas && AreaEvolves(area, db.areas[areaId])
  }

  ghost predicate CallInv(db: Db, call: Call) {
    match call
    case Arrived(_) => true
    case GapRead(r, gap) =>
      r.ReviewGap? && r.gapId in db.gaps && GapEvolves(gap, db.gaps[r.gapId]) && r.gapTarget in GapTargets(gap.state)
    case RunRead(r, run) =>
      r.MoveRun? && r.runId in db.runs && RunEvolves(run, db.runs[r.runId]) && r.runTarget in RunTargets(run.state) &&
      !(r.runTarget == QualityChecked && run.quality == Invalid)
    case ImportChecked(r) => r.ImportRun? && r.planId in db.plans && db.plans[r.planId].state == Locked
    case ImportMissing(r) => r.ImportRun? && r.planId in db.plans && db.plans[r.planId].state == Locked
    case AreaFetched(r, area) => r.DetectGap? && AreaRelied(db, r.areaId, area)
    case RunsFetched(r, area, order, runs) =>
      r.DetectGap? && AreaRelied(db, r.areaId, area) && StillThere(db, r.runIds, order, runs)
    case RunsChecked(r, area, order, runs) =>
      r.DetectGap? && AreaRelied(db, r.areaId, area) && StillThere(db, r.runIds, order, runs) && AllChecked(db, r, runs)
    case KeyMissing(r, area, order, runs) =>
      r.DetectGap? && AreaRelied(db, r.areaId, area) && StillThere(db, r.runIds, order, runs) && AllChecked(db, r, runs)
    case PlanRead(r, plan) =>
      (r.UpdatePlan? || r.LockPlan? || r.CopyPlan?) && r.planId in db.plans && PlanEvolves(plan, db.plans[r.planId]) &&
      (r.CopyPlan? || plan.state == Draft)
    case AreaRead(r, area) =>
      (r.UpdateArea? || r.CreatePlan?) && AreaRelied(db, r.areaId, area) && area.fields.status != AreaArchived &&
      (r.UpdateArea? ==> AreaProblem(r.areaFields).None?)
    case GapWritten(id) => id in db.gaps
    case RunWritten(id) => id in db.runs
    case PlanWritten(id) => id in db.plans
    case AreaWritten(id) => id in db.areas
    case Replied(_) => true
  }

  /** What a call relies on survives whatever other calls do. */
  lemma CallStable(db: Db, later: Db, call: Call)
    requires Evolves(db, later) && CallInv(db, call)
    ensures CallInv(later, call)
  {
    hide Unique, NoDuplicates, AreaProblem;
  }

  // ---- What a gap was computed from ----

  /** The stored findings are those of measuring the recorded boundary with the recorded runs, and the
      key is the canonical input of that measurement. */
  ghost predicate OriginOk(db: Db, g: Gap, o: Origin) {
    multiset(o.order) == multiset(g.sourceRunIds) && (forall id :: id in o.order ==> id in db.runs) &&
    var rows := RowsOf(o.order, db.runs);
    g.key == StableInputKey(g.areaId, o.area.fields.crs, g.algorithm, Checksums(rows), g.key.resolution) &&
    var m := Measure(o.area.fields.boundary, TracksOf(o.order, rows), g.key.resolution);
    m.Ok? && g.findings == FindingsOf(m.value)
  }

  lemma OriginStable(db: Db, later: Db, g: Gap, h: Gap, o: Origin)
    requires Evolves(db, later) && OriginOk(db, g, o) && GapEvolves(g, h)
    ensures OriginOk(later, h, o)
  {
    hide Measure, FindingsOf, StableInputKey;
    var rows, evolved := RowsOf(o.order, db.runs), RowsOf(o.order, later.runs);
    forall i | 0 <= i < |o.order|
      ensures rows[i].checksum == evolved[i].checksum && rows[i].track == evolved[i].track
      ensures rows[i].swath == evolved[i].swath
    {
      assert o.order[i] in o.order;
    }
    assert Checksums(rows) == Checksums(evolved);
    assert TracksOf(o.order, rows) == TracksOf(o.order, evolved);
  }

  /** What the step's event says about the gap table. */
  ghost predicate GapsChange(db: Db, m: Move) {
    match m.event
    case Silent => m.db.gaps == db.gaps
    case Noted(id, review) =>
      id in db.gaps && id in m.db.gaps && m.db.gaps == db.gaps[id := m.db.gaps[id]] &&
      var before, after := db.gaps[id], m.db.gaps[id];
      after == before.(state := review.target, explanation := before.explanation + REVIEW_MARK + review.note,
                       version := before.version + 1) &&
      review.target in GapTargets(before.state)
    case Stored(id, origin) =>
      id !in db.gaps && id in m.db.gaps && m.db.gaps == db.gaps[id := m.db.gaps[id]] &&
      m.db.gaps[id].state == Detected && m.db.gaps[id].version == 1 && OriginOk(m.db, m.db.gaps[id], origin)
  }

  /** Everything one step of one call promises. */
  ghost predicate GoodMove(digest: RunSource -> string, seeds: set<nat>, db: Db, m: Move) {
    Evolves(db, m.db) && DbInv(digest, seeds, m.db) && CallInv(m.db, m.call) && GapsChange(db, m)
  }

  lemma StayingPut(digest: RunSource -> string, seeds: set<nat>, db: Db, call: Call)
    requires DbInv(digest, seeds, db) && CallInv(db, call)
    ensures GoodMove(digest, seeds, db, Move(db, call, Silent))
  {
    hide DbInv, CallInv;
  }

  // ---- Each kind of write ----

  lemma GapUpdated(digest: RunSource -> string, seeds: set<nat>, db: Db, id: nat, row: Gap)
    requires DbInv(digest, seeds, db) && id in db.gaps && GapEvolves(db.gaps[id], row)
    ensures var later := db.(gaps := db.gaps[id := row]); DbInv(digest, seeds, later) && Evolves(db, later)
  {
    hide NoDuplicates, StoredSystem;
  }

  lemma RunUpdated(digest: RunSource -> string, seeds: set<nat>, db: Db, id: nat, row: Run)
    requires DbInv(digest, seeds, db) && id in db.runs && RunEvolves(db.runs[id], row)
    requires row.quality == Invalid ==> row.state == Imported || row.state == Rejected
    ensures var later := db.(runs := db.runs[id := row]); DbInv(digest, seeds, later) && Evolves(db, later)
  {
    hide NoDuplicates, Milli, StoredSystem;
  }

  lemma RunInserted(digest: RunSource -> string, seeds: set<nat>, db: Db, id: nat, row: Run)
    requires DbInv(digest, seeds, db) && id !in db.runs && !ChecksumTaken(db, row.checksum)
    requires row.state == Imported && row.checksum == digest(SourceOfRun(row))
    requires row.planId in db.plans && db.plans[row.planId].state == Locked
    ensures var later := db.(runs := db.runs[id := row]); DbInv(digest, seeds, later) && Evolves(db, later)
  {
    hide NoDuplicates, Milli, StoredSystem;
  }

  lemma PlanUpdated(digest: RunSource -> string, seeds: set<nat>, db: Db, id: nat, row: Plan)
    requires DbInv(digest, seeds, db) && id in db.plans && PlanEvolves(db.plans[id], row)
    ensures var later := db.(plans := db.plans[id := row]); DbInv(digest, seeds, later) && Evolves(db, later)
  {
    hide NoDuplicates, Milli, StoredSystem;
  }

  lemma PlanInserted(digest: RunSource -> string, seeds: set<nat>, db: Db, id: nat, row: Plan)
    requires DbInv(digest, seeds, db) && id !in db.plans && row.version >= 1
    ensures var later := db.(plans := db.plans[id := row]); DbInv(digest, seeds, later) && Evolves(db, later)
  {
    hide NoDuplicates, Milli, StoredSystem;
  }

  lemma AreaWrittenTo(digest: RunSource -> string, seeds: set<nat>, db: Db, id: nat, row: Area)
    requires StoredSystem(row.fields.crs)
    requires DbInv(digest, seeds, db) && row.version >= 1 && (id in db.areas ==> AreaEvolves(db.areas[id], row))
    ensures var later := db.(areas := db.areas[id := row]); DbInv(digest, seeds, later) && Evolves(db, later)
  {
    hide NoDuplicates, Milli, StoredSystem;
  }

  // ---- Each kind of call ----

  /** A refused or read-only move keeps everything. */
  lemma NoWrite(digest: RunSource -> string, seeds: set<nat>, db: Db, m: Move)
    requires DbInv(digest, seeds, db) && m.db == db && m.event.Silent? && CallInv(db, m.call)
    ensures GoodMove(digest, seeds, db, m)
  {
    hide DbInv, CallInv;
  }

  /** The conditional update hits only the very row the review read. */
  lemma ReviewHits(db: Db, r: Request, before: Gap, after: Gap)
    requires r.ReviewGap? && CallInv(db, GapRead(r, before))
    requires db.gaps[r.gapId].state == before.state
    requires after == before.(state := r.gapTarget, explanation := after.explanation, version := after.version)
    ensures db.gaps[r.gapId] == before && GapEvolves(before, after) && GapRank(before.state) < GapRank(after.state)
  {
  }

  lemma ReviewStep(digest: RunSource -> string, seeds: set<nat>, db: Db, call: Call)
    requires DbInv(digest, seeds, db) && CallInv(db, call)
    requires ReviewTurn(call)
    ensures GoodMove(digest, seeds, db, AdvanceReview(db, call))
  {
    hide DbInv, Evolves;
    var m, r := AdvanceReview(db, call), call.request;
    if call.Arrived? || m.event.Silent? {
      NoWrite(digest, seeds, db, m);
    } else {
      hide CallInv, GapEvolves, GapRank;
      ReviewHits(db, r, call.gap, m.db.gaps[r.gapId]);
      GapUpdated(digest, seeds, db, r.gapId, m.db.gaps[r.gapId]);
      assert CallInv(m.db, m.call) by { WrittenCall(m.db, m.call); }
    }
  }

  lemma WrittenCall(db: Db, call: Call)
    requires call.GapWritten? ==> call.id in db.gaps
    requires call.RunWritten? ==> call.id in db.runs
    requires call.PlanWritten? ==> call.id in db.plans
    requires call.AreaWritten? ==> call.id in db.areas
    requires call.GapWritten? || call.RunWritten? || call.PlanWritten? || call.AreaWritten? || call.Replied?
    ensures CallInv(db, call)
  {
  }

  lemma MoveHits(db: Db, r: Request, before: Run, after: Run)
    requires r.MoveRun? && CallInv(db, RunRead(r, before)) && NavigationSound(db)
    requires db.runs[r.runId].state == before.state
    requires after == before.(state := r.runTarget, version := after.version)
    ensures db.runs[r.runId] == before && RunEvolves(before, after)
    ensures after.quality == Invalid ==> after.state == Imported || after.state == Rejected
  {
  }

  lemma MoveStep(digest: RunSource -> string, seeds: set<nat>, db: Db, call: Call)
    requires DbInv(digest, seeds, db) && CallInv(db, call)
    requires MoveTurn(call)
    ensures GoodMove(digest, seeds, db, AdvanceMove(db, call))
  {
    hide Evolves, VersionsPositive, AreasProjected, RunsOnLockedPlans, NavigationSound, UniqueIndexes,
         ChecksumsDigest, GapsSound;
    var m, r := AdvanceMove(db, call), call.request;
    if call.Arrived? || m.call.Replied? {
      NoWrite(digest, seeds, db, m);
    } else {
      hide CallInv, RunEvolves, RunRank;
      MoveHits(db, r, call.run, m.db.runs[r.runId]);
      RunUpdated(digest, seeds, db, r.runId, m.db.runs[r.runId]);
      WrittenCall(m.db, m.call);
    }
  }

  lemma ImportStep(digest: RunSource -> string, seeds: set<nat>, db: Db, call: Call, choice: Choice)
    requires DbInv(digest, seeds, db) && CallInv(db, call)
    requires ImportTurn(db, call, choice)
    ensures GoodMove(digest, seeds, db, AdvanceImport(digest, db, call, choice))
  {
    hide DbInv, Evolves, ValidLines, Milli, ChecksumTaken, RunCodeTaken;
    var m := AdvanceImport(digest, db, call, choice);
    if call.ImportMissing? && m.call.RunWritten? {
      RunInserted(digest, seeds, db, choice.newId, ImportedRow(digest, call.request));
      WrittenCall(m.db, m.call);
    } else {
      NoWrite(digest, seeds, db, m);
    }
  }

  lemma PlanStep(digest: RunSource -> string, seeds: set<nat>, db: Db, call: Call, choice: Choice)
    requires DbInv(digest, seeds, db) && CallInv(db, call)
    requires PlanTurn(db, call, choice)
    ensures GoodMove(digest, seeds, db, AdvancePlan(db, call, choice))
  {
    hide DbInv, Evolves, ValidLines;
    var m, r := AdvancePlan(db, call, choice), call.request;
    if call.Arrived? || (m.call.Replied? && m.call.reply.Failed?) {
      NoWrite(digest, seeds, db, m);
    } else if r.CopyPlan? {
      PlanInserted(digest, seeds, db, choice.newId, CopiedPlan(call.plan, r.actor));
      WrittenCall(m.db, m.call);
    } else {
      PlanUpdated(digest, seeds, db, r.planId, m.db.plans[r.planId]);
      WrittenCall(m.db, m.call);
    }
  }

  lemma CreatePlanStep(digest: RunSource -> string, seeds: set<nat>, db: Db, call: Call, choice: Choice)
    requires DbInv(digest, seeds, db) && CallInv(db, call)
    requires CreatePlanTurn(db, call, choice)
    ensures GoodMove(digest, seeds, db, AdvanceCreatePlan(db, call, choice))
  {
    hide DbInv, Evolves, ValidLines;
    var m := AdvanceCreatePlan(db, call, choice);
    if call.AreaRead? {
      PlanInserted(digest, seeds, db, choice.newId,
                   Plan(call.request.areaId, call.request.planFields, Draft, 1, call.request.actor));
      WrittenCall(m.db, m.call);
    } else {
      NoWrite(digest, seeds, db, m);
    }
  }

  lemma AreaStep(digest: RunSource -> string, seeds: set<nat>, db: Db, call: Call, choice: Choice)
    requires DbInv(digest, seeds, db) && CallInv(db, call)
    requires AreaTurn(db, call, choice)
    ensures GoodMove(digest, seeds, db, AdvanceArea(db, call, choice))
  {
    hide DbInv, Evolves, BoundaryProblem, AreaCodeTaken, Projected, Normalized, TrimSpace;
    var m := AdvanceArea(db, call, choice);
    if m.call.AreaWritten? {
      var id := m.call.id;
      ProjectedAsStored(call.request.areaFields.crs);
      NormalizedTwice(call.request.areaFields.crs);
      AreaWrittenTo(digest, seeds, db, id, m.db.areas[id]);
      WrittenCall(m.db, m.call);
    } else {
      NoWrite(digest, seeds, db, m);
    }
  }

  // ---- Detect ----

  function Elements(ids: seq<nat>): set<nat> {
    set id | id in ids
  }

  lemma {:induction false} ElementCount(ids: seq<nat>)
    requires NoDuplicates(ids)
    ensures |Elements(ids)| == |ids|
    ensures multiset(ids) == multiset(Elements(ids))
  {
    if ids == [] {
      assert Elements(ids) == {};
    } else {
      var front, last := ids[..|ids| - 1], ids[|ids| - 1];
      ElementCount(front);
      assert ids == front + [last];
      assert last !in front;
      assert Elements(ids) == Elements(front) + {last};
      assert last !in Elements(front);
    }
  }

  /** Two lists without duplicates, one drawn from the other and as long, hold the same ids. */
  lemma SameElements(order: seq<nat>, ids: seq<nat>)
    requires NoDuplicates(order) && NoDuplicates(ids) && |order| == |ids|
    requires forall id :: id in order ==> id in ids
    ensures multiset(order) == multiset(ids)
    ensures forall id :: id in ids ==> id in order
  {
    ElementCount(order);
    ElementCount(ids);
    var a, b := Elements(order), Elements(ids);
    assert a <= b;
    assert |b - a| == |b| - |a|;
    assert b - a == {};
    assert a == b;
    forall id | id in ids ensures id in order {
      assert id in b;
    }
  }

  lemma DetectOrder(db: Db, r: Request, order: seq<nat>, runs: seq<Run>)
    requires r.DetectGap? && StillThere(db, r.runIds, order, runs) && AllChecked(db, r, runs)
    ensures multiset(order) == multiset(Unique(r.runIds))
    ensures forall id :: id in Unique(r.runIds) ==> SourceSound(db, r.areaId, id)
  {
    forall id | id in order ensures id in Unique(r.runIds) {
      var i :| 0 <= i < |order| && order[i] == id;
      assert order[i] in r.runIds;
    }
    assert NoDuplicates(Unique(r.runIds));
    hide Unique;
    SameElements(order, Unique(r.runIds));
    forall id | id in Unique(r.runIds) ensures SourceSound(db, r.areaId, id) {
      var i :| 0 <= i < |order| && order[i] == id;
      assert RunEvolves(runs[i], db.runs[order[i]]);
    }
  }

  /** The row a computation inserts satisfies everything asked of gaps. */
  lemma NewGapSound(db: Db, later: Db, id: nat, r: Request, area: Area, order: seq<nat>, runs: seq<Run>,
                    result: CoverageResult)
    requires r.DetectGap? && StillThere(db, r.runIds, order, runs) && AllChecked(db, r, runs)
    requires Measure(area.fields.boundary, TracksOf(order, runs), ResolutionFor(r, area)) == Ok(result)
    requires later.runs == db.runs && later.plans == db.plans
    ensures var g := GapRow(r, KeyFor(r, area, runs), result);
            OriginOk(later, g, Origin(area, order)) && NoDuplicates(g.sourceRunIds) &&
            forall run :: run in g.sourceRunIds ==> SourceSound(later, g.areaId, run)
  {
    hide Measure, FindingsOf, Unique, Sorted;
    DetectOrder(db, r, order, runs);
    forall run | run in order ensures run in later.runs {
      var i :| 0 <= i < |order| && order[i] == run;
      assert RunEvolves(runs[i], db.runs[order[i]]);
    }
    var rows := RowsOf(order, later.runs);
    forall i | 0 <= i < |order|
      ensures rows[i].checksum == runs[i].checksum && rows[i].track == runs[i].track && rows[i].swath == runs[i].swath
    {
      assert RunEvolves(runs[i], db.runs[order[i]]);
    }
    assert Checksums(rows) == Checksums(runs);
    assert TracksOf(order, rows) == TracksOf(order, runs);
  }

  lemma GapInserted(digest: RunSource -> string, seeds: set<nat>, db: Db, id: nat, g: Gap)
    requires DbInv(digest, seeds, db) && id !in db.gaps && !KeyTaken(db, g.key)
    requires NoDuplicates(g.sourceRunIds) && forall run :: run in g.sourceRunIds ==> SourceSound(db, g.areaId, run)
    ensures var later := db.(gaps := db.gaps[id := g]); DbInv(digest, seeds, later) && Evolves(db, later)
  {
    hide NoDuplicates, Milli, StoredSystem;
  }

  lemma FetchedStillThere(db: Db, r: Request, order: seq<nat>)
    requires r.DetectGap? && Selects(order, r.runIds, db.runs)
    ensures StillThere(db, r.runIds, order, RowsOf(order, db.runs))
  {
    forall i | 0 <= i < |order| ensures order[i] in r.runIds && order[i] in db.runs {
      assert order[i] in order;
    }
  }

  lemma DetectStep(digest: RunSource -> string, seeds: set<nat>, db: Db, call: Call, choice: Choice)
    requires DbInv(digest, seeds, db) && CallInv(db, call)
    requires DetectTurn(db, call, choice)
    ensures GoodMove(digest, seeds, db, AdvanceDetect(db, call, choice))
  {
    hide DbInv, Evolves, StillThere, Measure, Unique, OriginOk, Selects, KeyTaken, NoDuplicates, FirstProblem,
         Projected,
         KeyFor, ValidPolygon, AllChecked;
    var r, m := call.request, AdvanceDetect(db, call, choice);
    match call {
      case Arrived(_) =>
        NoWrite(digest, seeds, db, m);
      case AreaFetched(_, area) =>
        FetchedStillThere(db, r, choice.order);
        NoWrite(digest, seeds, db, m);
      case RunsFetched(_, area, order, runs) =>
        CheckedRuns(db, r, runs);
        NoWrite(digest, seeds, db, m);
      case RunsChecked(_, area, order, runs) =>
        NoWrite(digest, seeds, db, m);
      case KeyMissing(_, area, order, runs) =>
        if m.event.Silent? {
          NoWrite(digest, seeds, db, m);
        } else {
          var result := Measure(area.fields.boundary, TracksOf(order, runs), ResolutionFor(r, area)).value;
          var row := GapRow(r, KeyFor(r, area, runs), result);
          NewGapSound(db, db, choice.newId, r, area, order, runs, result);
          NewGapSound(db, m.db, choice.newId, r, area, order, runs, result);
          GapInserted(digest, seeds, db, choice.newId, row);
          WrittenCall(m.db, m.call);
        }
    }
  }

  lemma CheckedRuns(db: Db, r: Request, runs: seq<Run>)
    requires r.DetectGap?
    ensures |runs| == |Unique(r.runIds)| && FirstProblem(r.areaId, db.plans, runs).None? ==> AllChecked(db, r, runs)
  {
    hide Unique, ValidLines;
  }
}
