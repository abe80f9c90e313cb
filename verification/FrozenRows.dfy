/** Locked plans and archived areas stay frozen although the updates' conditions name only the
    version: it takes an expected version ahead of the row to slip past the earlier state check. */
module FrozenRows {
  import opened States
  import opened Store
  import opened Workflow
  import opened WorkflowInvariants
  import opened Interleavings

  // ---- Callers that do not run ahead ----

  function PlanVersion(db: Db, id: nat): nat {
    if id in db.plans then db.plans[id].version else 1
  }

  function AreaVersion(db: Db, id: nat): nat {
    if id in db.areas then db.areas[id].version else 1
  }

  /** On arrival the expected version is no larger than the row's; every row starts at one or later. */
  predicate Honest(db: Db, r: Request) {
    (r.UpdatePlan? ==> r.expected <= PlanVersion(db, r.planId)) &&
    (r.UpdateArea? ==> r.expected <= AreaVersion(db, r.areaId))
  }

  ghost predicate HonestRun(digest: RunSource -> string, s: State, steps: seq<Step>) {
    steps == [] ||
    (HonestRun(digest, s, steps[..|steps| - 1]) &&
     (steps[|steps| - 1].Arrive? ==> Honest(Execute(digest, s, steps[..|steps| - 1]).db, steps[|steps| - 1].request)))
  }

  /** What honesty leaves of a call in flight. */
  ghost predicate HonestCall(db: Db, call: Call) {
    match call
    case Arrived(r) => Honest(db, r)
    case PlanRead(r, plan) => r.UpdatePlan? ==> r.expected <= plan.version
    case AreaRead(r, area) => r.UpdateArea? ==> r.expected <= area.version
    case _ => true
  }

  lemma HonestStable(db: Db, later: Db, call: Call)
    requires Evolves(db, later) && VersionsPositive(later) && HonestCall(db, call)
    ensures HonestCall(later, call)
  {
  }

  lemma HonestAdvance(digest: RunSource -> string, db: Db, call: Call, choice: Choice)
    requires HonestCall(db, call)
    ensures HonestCall(db, Advance(digest, db, call, choice).call)
  {
    hide AdvanceReview, AdvanceMove, AdvanceImport, AdvanceDetect, AdvancePlan, AdvanceCreatePlan, AdvanceArea;
    hide ReviewTurn, MoveTurn, ImportTurn, DetectTurn, PlanTurn, CreatePlanTurn, AreaTurn;
    OthersPending(digest, db, call, choice);
    UpdatesPending(db, call, choice);
  }

  /** No other service ends up waiting to update a plan or an area. */
  lemma OthersPending(digest: RunSource -> string, db: Db, call: Call, choice: Choice)
    ensures ReviewTurn(call) ==> HonestCall(db, AdvanceReview(db, call).call)
    ensures MoveTurn(call) ==> HonestCall(db, AdvanceMove(db, call).call)
    ensures ImportTurn(db, call, choice) ==> HonestCall(db, AdvanceImport(digest, db, call, choice).call)
    ensures DetectTurn(db, call, choice) ==> HonestCall(db, AdvanceDetect(db, call, choice).call)
    ensures CreatePlanTurn(db, call, choice) ==> HonestCall(db, AdvanceCreatePlan(db, call, choice).call)
  {
    hide ValidLines, Milli, Selects;
  }

  lemma UpdatesPending(db: Db, call: Call, choice: Choice)
    requires HonestCall(db, call)
    ensures PlanTurn(db, call, choice) ==> HonestCall(db, AdvancePlan(db, call, choice).call)
    ensures AreaTurn(db, call, choice) ==> HonestCall(db, AdvanceArea(db, call, choice).call)
  {
    hide ValidLines, AreaProblem, Settled;
  }

  // ---- One step freezes ----

  ghost predicate KeepsFrozen(db: Db, later: Db) {
    (forall id :: id in db.plans && db.plans[id].state == Locked ==>
       id in later.plans && later.plans[id] == db.plans[id]) &&
    (forall id :: id in db.areas && db.areas[id].fields.status == AreaArchived ==>
       id in later.areas && later.areas[id] == db.areas[id])
  }

  lemma PlanFrozen(db: Db, call: Call, choice: Choice)
    requires CallInv(db, call) && HonestCall(db, call) && PlanTurn(db, call, choice)
    ensures KeepsFrozen(db, AdvancePlan(db, call, choice).db)
  {
    hide ValidLines;
  }

  lemma AreaFrozen(db: Db, call: Call, choice: Choice)
    requires CallInv(db, call) && HonestCall(db, call) && AreaTurn(db, call, choice)
    ensures KeepsFrozen(db, AdvanceArea(db, call, choice).db)
  {
    hide AreaProblem, Settled;
  }

  /** The other services leave both tables alone, or add a plan. */
  lemma OthersFrozen(digest: RunSource -> string, db: Db, call: Call, choice: Choice)
    ensures KeepsFrozen(db, db)
    ensures ReviewTurn(call) ==> KeepsFrozen(db, AdvanceReview(db, call).db)
    ensures MoveTurn(call) ==> KeepsFrozen(db, AdvanceMove(db, call).db)
    ensures ImportTurn(db, call, choice) ==> KeepsFrozen(db, AdvanceImport(digest, db, call, choice).db)
    ensures DetectTurn(db, call, choice) ==> KeepsFrozen(db, AdvanceDetect(db, call, choice).db)
    ensures CreatePlanTurn(db, call, choice) ==> KeepsFrozen(db, AdvanceCreatePlan(db, call, choice).db)
  {
    hide ValidLines, Milli, Selects, KeepsFrozen, Unique;
    FrozenReflexive(db);
    SameTablesFrozen(db);
    if CreatePlanTurn(db, call, choice) {
      AddedPlanFrozen(db, choice.newId);
    }
  }

  lemma SameTablesFrozen(db: Db)
    ensures forall later: Db :: later.plans == db.plans && later.areas == db.areas ==> KeepsFrozen(db, later)
  {
  }

  lemma AddedPlanFrozen(db: Db, id: nat)
    requires id !in db.plans
    ensures forall row: Plan :: KeepsFrozen(db, InsertPlan(db, id, row).db)
  {
  }

  lemma AdvanceFrozen(digest: RunSource -> string, db: Db, call: Call, choice: Choice)
    requires CallInv(db, call) && HonestCall(db, call)
    ensures KeepsFrozen(db, Advance(digest, db, call, choice).db)
  {
    hide AdvanceReview, AdvanceMove, AdvanceImport, AdvanceDetect, AdvancePlan, AdvanceCreatePlan, AdvanceArea,
         CallInv, HonestCall, KeepsFrozen, ReviewTurn, MoveTurn, ImportTurn, DetectTurn, PlanTurn,
         CreatePlanTurn, AreaTurn;
    OthersFrozen(digest, db, call, choice);
    if PlanTurn(db, call, choice) {
      PlanFrozen(db, call, choice);
    }
    if AreaTurn(db, call, choice) {
      AreaFrozen(db, call, choice);
    }
  }

  // ---- Whole runs ----

  ghost predicate AllHonest(s: State) {
    forall id :: id in s.calls ==> HonestCall(s.db, s.calls[id])
  }

  lemma HonestApply(digest: RunSource -> string, seeds: set<nat>, s: State, step: Step)
    requires StateInv(digest, seeds, s) && AllHonest(s)
    requires step.Arrive? ==> Honest(s.db, step.request)
    ensures AllHonest(Apply(digest, s, step)) && KeepsFrozen(s.db, Apply(digest, s, step).db)
  {
    hide DbInv, HistoryInv, CallInv, HonestCall, Advance, Recorded, KeepsFrozen, Evolves, Honest;
    var t := Apply(digest, s, step);
    FrozenReflexive(s.db);
    ApplyGood(digest, seeds, s, step);
    PositiveVersions(digest, seeds, t.db);
    match step {
      case Arrive(id, request) =>
        ArrivesHonest(s.db, request);
      case Proceed(id, choice) =>
        if id in s.calls {
          var m := Advance(digest, s.db, s.calls[id], choice);
          RecordedFields(s, m);
          AdvanceFrozen(digest, s.db, s.calls[id], choice);
          HonestAdvance(digest, s.db, s.calls[id], choice);
          HonestStable(s.db, t.db, m.call);
          forall other | other in t.calls ensures HonestCall(t.db, t.calls[other]) {
            if other != id {
              HonestStable(s.db, t.db, s.calls[other]);
            }
          }
        }
    }
  }

  lemma FrozenReflexive(db: Db)
    ensures KeepsFrozen(db, db)
  {
  }

  lemma PositiveVersions(digest: RunSource -> string, seeds: set<nat>, db: Db)
    requires DbInv(digest, seeds, db)
    ensures VersionsPositive(db)
  {
  }

  lemma ArrivesHonest(db: Db, r: Request)
    requires Honest(db, r)
    ensures HonestCall(db, Arrived(r))
  {
  }

  lemma FrozenTransitive(a: Db, b: Db, c: Db)
    requires KeepsFrozen(a, b) && KeepsFrozen(b, c)
    ensures KeepsFrozen(a, c)
  {
  }

  lemma {:induction false} HonestExecution(digest: RunSource -> string, seeds: set<nat>, s: State, steps: seq<Step>)
    requires StateInv(digest, seeds, s) && AllHonest(s) && HonestRun(digest, s, steps)
    ensures AllHonest(Execute(digest, s, steps)) && KeepsFrozen(s.db, Execute(digest, s, steps).db)
  {
    hide StateInv, AllHonest, KeepsFrozen, Apply, Honest;
    if steps == [] {
      FrozenReflexive(s.db);
    } else {
      var front := steps[..|steps| - 1];
      HonestExecution(digest, seeds, s, front);
      Safety(digest, seeds, s, front);
      HonestApply(digest, seeds, Execute(digest, s, front), steps[|steps| - 1]);
      FrozenTransitive(s.db, Execute(digest, s, front).db, Execute(digest, s, steps).db);
    }
  }

  lemma {:induction false} ExecuteInTwo(digest: RunSource -> string, s: State, first: seq<Step>, second: seq<Step>)
    ensures Execute(digest, s, first + second) == Execute(digest, Execute(digest, s, first), second)
    ensures HonestRun(digest, s, first + second) <==>
            HonestRun(digest, s, first) && HonestRun(digest, Execute(digest, s, first), second)
  {
    hide Apply, Honest;
    if second == [] {
      assert first + second == first;
    } else {
      var steps := first + second;
      assert steps[..|steps| - 1] == first + second[..|second| - 1];
      ExecuteInTwo(digest, s, first, second[..|second| - 1]);
    }
  }

  /** In every interleaving whose callers expect no version ahead of the row, a plan once locked and an
      area once archived never change again, in any column. */
  lemma FrozenForever(digest: RunSource -> string, seeds: set<nat>, start: State, before: seq<Step>, after: seq<Step>)
    requires Init(digest, seeds, start) && HonestRun(digest, start, before + after)
    ensures var db, later := Execute(digest, start, before).db, Execute(digest, start, before + after).db;
            (forall id :: id in db.plans && db.plans[id].state == Locked ==>
               id in later.plans && later.plans[id] == db.plans[id]) &&
            (forall id :: id in db.areas && db.areas[id].fields.status == AreaArchived ==>
               id in later.areas && later.areas[id] == db.areas[id])
  {
    assert AllHonest(start);
    InitGood(digest, seeds, start);
    hide Execute, HonestRun, StateInv, AllHonest, Init;
    ExecuteInTwo(digest, start, before, after);
    Safety(digest, seeds, start, before);
    HonestExecution(digest, seeds, start, before);
    HonestExecution(digest, seeds, Execute(digest, start, before), after);
  }

  /** Gaps keep what they were computed as and runs what they were imported as. */
  ghost predicate KeepsSnapshots(db: Db, later: Db) {
    (forall id :: id in db.gaps ==> (
       id in later.gaps &&
       later.gaps[id] == db.gaps[id].(state := later.gaps[id].state, explanation := later.gaps[id].explanation,
                                      version := later.gaps[id].version))) &&
    (forall id :: id in db.runs ==> (
       id in later.runs &&
       later.runs[id] == db.runs[id].(state := later.runs[id].state, version := later.runs[id].version)))
  }

  lemma EvolvingKeepsSnapshots(db: Db, later: Db)
    requires Evolves(db, later)
    ensures KeepsSnapshots(db, later)
  {
    hide AreaEvolves, PlanEvolves, GapRank, RunRank;
  }

  /** In every interleaving, whatever versions callers expect, a stored gap keeps all it was computed as
      and an imported run all it was imported as; only their states, versions and notes move on. */
  lemma SnapshotsNeverOverwritten(digest: RunSource -> string, seeds: set<nat>, start: State, before: seq<Step>,
                                  after: seq<Step>)
    requires Init(digest, seeds, start)
    ensures KeepsSnapshots(Execute(digest, start, before).db, Execute(digest, start, before + after).db)
  {
    hide Execute, HonestRun, StateInv, Init, Evolves, KeepsSnapshots;
    InitGood(digest, seeds, start);
    ExecuteInTwo(digest, start, before, after);
    Safety(digest, seeds, start, before);
    Safety(digest, seeds, Execute(digest, start, before), after);
    EvolvingKeepsSnapshots(Execute(digest, start, before).db, Execute(digest, start, before + after).db);
  }
}
