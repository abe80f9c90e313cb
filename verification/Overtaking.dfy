/** Callers that run ahead. The update of a plan or an area checks the state when it reads the row and
    only the version when it writes, so an expected version ahead of the row waits for other callers to
    lock or archive it. These are exactly the requests that can overwrite a frozen row. */
module Overtaking {
  import opened CoordinateSystems
  import opened States
  import opened Store
  import opened Workflow
  import opened WorkflowInvariants
  import opened Interleavings
  import opened FrozenRows

  // ---- Building runs ----

  lemma {:induction false} FreshNumber(used: set<nat>) returns (n: nat)
    ensures forall u :: u in used ==> u < n
  {
    if used == {} {
      n := 0;
    } else {
      var u :| u in used;
      var m := FreshNumber(used - {u});
      n := if m > u then m else u + 1;
      forall v | v in used ensures v < n {
        assert v == u || v in used - {u};
      }
    }
  }

  /** A whole call that takes two statements after it arrives. */
  function TwoStatements(call: nat, r: Request, choice: Choice): seq<Step> {
    [Arrive(call, r), Proceed(call, choice), Proceed(call, choice)]
  }

  lemma OneMore(digest: RunSource -> string, s: State, steps: seq<Step>, step: Step)
    ensures Execute(digest, s, steps + [step]) == Apply(digest, Execute(digest, s, steps), step)
    ensures HonestRun(digest, s, steps + [step]) <==>
            HonestRun(digest, s, steps) && (step.Arrive? ==> Honest(Execute(digest, s, steps).db, step.request))
  {
    hide Apply, Honest;
    assert (steps + [step])[..|steps|] == steps;
  }

  lemma TwoStatementsApply(digest: RunSource -> string, s: State, call: nat, r: Request, choice: Choice)
    requires Honest(s.db, r)
    ensures var arrived := Apply(digest, s, Arrive(call, r));
            Execute(digest, s, TwoStatements(call, r, choice))
              == Apply(digest, Apply(digest, arrived, Proceed(call, choice)), Proceed(call, choice))
    ensures HonestRun(digest, s, TwoStatements(call, r, choice))
  {
    hide Apply, Honest;
    OneMore(digest, s, [], Arrive(call, r));
    OneMore(digest, s, [Arrive(call, r)], Proceed(call, choice));
    OneMore(digest, s, [Arrive(call, r), Proceed(call, choice)], Proceed(call, choice));
    assert [] + [Arrive(call, r)] == [Arrive(call, r)];
    assert [Arrive(call, r)] + [Proceed(call, choice)] == [Arrive(call, r), Proceed(call, choice)];
    assert [Arrive(call, r), Proceed(call, choice)] + [Proceed(call, choice)] == TwoStatements(call, r, choice);
  }

  /** Two silent statements of a new call, when what each does is known. */
  lemma SilentStatements(
    digest: RunSource -> string, s: State, call: nat, r: Request, choice: Choice, read: Call, later: Db, written: Call)
    requires call !in s.calls
    requires Advance(digest, s.db, Arrived(r), choice) == Move(s.db, read, Silent)
    requires Advance(digest, s.db, read, choice) == Move(later, written, Silent)
    ensures var arrived := Apply(digest, s, Arrive(call, r));
            Apply(digest, Apply(digest, arrived, Proceed(call, choice)), Proceed(call, choice))
              == s.(db := later, calls := s.calls[call := written])
  {
    hide Advance;
    var arrived := Apply(digest, s, Arrive(call, r));
    var middle := Apply(digest, arrived, Proceed(call, choice));
    assert middle == s.(calls := s.calls[call := read]);
    assert middle.calls[call := written] == s.calls[call := written];
  }

  // ---- Plans ----

  /** The call has read its plan as a draft and is about to issue its update. */
  ghost predicate WaitsOnPlan(s: State, call: nat, r: Request) {
    call in s.calls && s.calls[call].PlanRead? && s.calls[call].request == r
  }

  lemma PlanMoves(digest: RunSource -> string, db: Db, r: Request, choice: Choice, touched: Plan)
    requires choice.newId !in db.plans && (r.UpdatePlan? || r.LockPlan?)
    requires r.planId in db.plans && db.plans[r.planId].state == Draft && r.expected == db.plans[r.planId].version
    requires r.UpdatePlan? ==> ValidLines(r.planFields.lines)
    requires touched == (if r.UpdatePlan? then db.plans[r.planId].(fields := r.planFields, version := r.expected + 1)
                         else db.plans[r.planId].(state := Locked, version := r.expected + 1))
    ensures Advance(digest, db, Arrived(r), choice) == Move(db, PlanRead(r, db.plans[r.planId]), Silent)
    ensures Advance(digest, db, PlanRead(r, db.plans[r.planId]), choice)
              == Move(db.(plans := db.plans[r.planId := touched]), PlanWritten(r.planId), Silent)
  {
    hide ValidLines, AdvanceReview, AdvanceMove, AdvanceImport, AdvanceDetect, AdvanceCreatePlan, AdvanceArea;
  }

  /** A draft plan rewritten, or locked, by one other caller who expects the version that is there. */
  lemma PlanTouched(digest: RunSource -> string, s: State, other: nat, r: Request, choice: Choice)
    requires other !in s.calls && choice.newId !in s.db.plans
    requires r.UpdatePlan? || r.LockPlan?
    requires r.planId in s.db.plans && s.db.plans[r.planId].state == Draft && r.expected == s.db.plans[r.planId].version
    requires r.UpdatePlan? ==> ValidLines(r.planFields.lines)
    ensures var row := s.db.plans[r.planId];
            var touched := if r.UpdatePlan? then row.(fields := r.planFields, version := row.version + 1)
                           else row.(state := Locked, version := row.version + 1);
            Execute(digest, s, TwoStatements(other, r, choice))
              == s.(db := s.db.(plans := s.db.plans[r.planId := touched]),
                   calls := s.calls[other := PlanWritten(r.planId)])
    ensures HonestRun(digest, s, TwoStatements(other, r, choice))
  {
    hide Execute, HonestRun, Apply, Advance, ValidLines, TwoStatements;
    var row := s.db.plans[r.planId];
    var touched := if r.UpdatePlan? then row.(fields := r.planFields, version := row.version + 1)
                   else row.(state := Locked, version := row.version + 1);
    assert Honest(s.db, r);
    TwoStatementsApply(digest, s, other, r, choice);
    PlanMoves(digest, s.db, r, choice, touched);
    SilentStatements(digest, s, other, r, choice, PlanRead(r, row),
                     s.db.(plans := s.db.plans[r.planId := touched]), PlanWritten(r.planId));
  }

  /** Other callers, none of them ahead of the row, lock the plan at exactly the awaited version. */
  lemma {:induction false} PlanOvertaken(digest: RunSource -> string, s: State, call: nat, r: Request)
    returns (steps: seq<Step>)
    requires r.UpdatePlan? && ValidLines(r.planFields.lines) && WaitsOnPlan(s, call, r)
    requires r.planId in s.db.plans && s.db.plans[r.planId].state == Draft && r.expected > s.db.plans[r.planId].version
    ensures HonestRun(digest, s, steps)
    ensures var t := Execute(digest, s, steps);
            WaitsOnPlan(t, call, r) && r.planId in t.db.plans && t.db.plans[r.planId].state == Locked &&
            t.db.plans[r.planId].version == r.expected
    decreases r.expected - s.db.plans[r.planId].version
  {
    hide ValidLines, Execute, HonestRun;
    var other := FreshNumber(s.calls.Keys);
    var newId := FreshNumber(s.db.plans.Keys);
    var version, choice := s.db.plans[r.planId].version, Choice(newId, []);
    if r.expected == version + 1 {
      PlanTouched(digest, s, other, LockPlan(r.planId, version), choice);
      steps := TwoStatements(other, LockPlan(r.planId, version), choice);
    } else {
      var rewrite := UpdatePlan(r.planId, version, r.planFields);
      PlanTouched(digest, s, other, rewrite, choice);
      var first := TwoStatements(other, rewrite, choice);
      var rest := PlanOvertaken(digest, Execute(digest, s, first), call, r);
      steps := first + rest;
      ExecuteInTwo(digest, s, first, rest);
    }
  }

  /** What an arrived plan update can come to. */
  ghost predicate PlanUpdateFollowed(start: Db, s: State, call: nat, r: Request)
    requires r.UpdatePlan? && r.planId in start.plans
  {
    call in s.calls &&
    match s.calls[call]
    case Arrived(q) => q == r
    case PlanRead(q, plan) =>
      q == r && plan.state == Draft && ValidLines(r.planFields.lines) && PlanEvolves(start.plans[r.planId], plan)
    case PlanWritten(_) => true
    case Replied(_) => true
    case _ => false
  }

  lemma PlanUpdateAdvances(digest: RunSource -> string, start: Db, s: State, call: nat, r: Request, choice: Choice)
    requires r.UpdatePlan? && r.planId in start.plans && Evolves(start, s.db)
    requires PlanUpdateFollowed(start, s, call, r)
    ensures PlanUpdateFollowed(start, Apply(digest, s, Proceed(call, choice)), call, r)
  {
    hide AdvanceReview, AdvanceMove, AdvanceImport, AdvanceDetect, AdvanceCreatePlan, AdvanceArea, ValidLines;
    var m := Advance(digest, s.db, s.calls[call], choice);
    assert m.event.Silent?;
  }

  lemma {:induction false} PlanUpdateStaysFollowed(
    digest: RunSource -> string, seeds: set<nat>, s: State, steps: seq<Step>, call: nat, r: Request)
    requires StateInv(digest, seeds, s) && r.UpdatePlan? && r.planId in s.db.plans
    requires PlanUpdateFollowed(s.db, s, call, r)
    ensures PlanUpdateFollowed(s.db, Execute(digest, s, steps), call, r)
  {
    hide StateInv, PlanEvolves, ValidLines;
    if steps != [] {
      var front, last := steps[..|steps| - 1], steps[|steps| - 1];
      PlanUpdateStaysFollowed(digest, seeds, s, front, call, r);
      Safety(digest, seeds, s, front);
      if last.Proceed? && last.id == call {
        PlanUpdateAdvances(digest, s.db, Execute(digest, s, front), call, r, last.choice);
      } else {
        hide Advance;
        OthersUntouched(digest, Execute(digest, s, front), last, call);
      }
    }
  }

  lemma OthersUntouched(digest: RunSource -> string, s: State, step: Step, call: nat)
    requires call in s.calls && !(step.Proceed? && step.id == call)
    ensures call in Apply(digest, s, step).calls && Apply(digest, s, step).calls[call] == s.calls[call]
  {
    hide Advance;
  }

  /** After these steps of callers who do not run ahead, this call's update would rewrite a locked plan. */
  ghost predicate OverwritesLockedPlan(digest: RunSource -> string, s: State, steps: seq<Step>, call: nat, r: Request)
    requires r.UpdatePlan?
  {
    HonestRun(digest, s, steps) &&
    var t := Execute(digest, s, steps);
    WaitsOnPlan(t, call, r) && r.planId in t.db.plans && t.db.plans[r.planId].state == Locked &&
    UpdatePlanRow(t.db, r.planId, r.expected, r.planFields).affected
  }

  /** An arrived plan update can overwrite a locked plan exactly when the plan is still a draft, the new
      lines parse and the expected version is ahead of the row's. */
  lemma LockedPlanOverwrittenExactly(digest: RunSource -> string, seeds: set<nat>, s: State, call: nat, r: Request)
    requires StateInv(digest, seeds, s) && call in s.calls && s.calls[call] == Arrived(r)
    requires r.UpdatePlan? && r.planId in s.db.plans
    ensures (exists steps :: OverwritesLockedPlan(digest, s, steps, call, r)) <==>
            s.db.plans[r.planId].state == Draft && ValidLines(r.planFields.lines) &&
            r.expected > s.db.plans[r.planId].version
  {
    hide StateInv, ValidLines, Execute, HonestRun, Apply;
    var plan := s.db.plans[r.planId];
    forall steps | OverwritesLockedPlan(digest, s, steps, call, r)
      ensures plan.state == Draft && ValidLines(r.planFields.lines) && r.expected > plan.version
    {
      var t := Execute(digest, s, steps);
      PlanUpdateStaysFollowed(digest, seeds, s, steps, call, r);
      Safety(digest, seeds, s, steps);
      WaitingRelies(digest, seeds, t, call);
      var read := t.calls[call].plan;
      assert PlanEvolves(plan, read) && PlanEvolves(read, t.db.plans[r.planId]);
    }
    if plan.state == Draft && ValidLines(r.planFields.lines) && r.expected > plan.version {
      var newId := FreshNumber(s.db.plans.Keys);
      var reading := Proceed(call, Choice(newId, []));
      PlanIsRead(digest, s, call, r, reading.choice);
      OneMore(digest, s, [], reading);
      assert [] + [reading] == [reading];
      EmptyRun(digest, s);
      var rest := PlanOvertaken(digest, Execute(digest, s, [reading]), call, r);
      ExecuteInTwo(digest, s, [reading], rest);
      assert OverwritesLockedPlan(digest, s, [reading] + rest, call, r);
    }
  }

  lemma EmptyRun(digest: RunSource -> string, s: State)
    ensures Execute(digest, s, []) == s && HonestRun(digest, s, [])
  {
  }

  lemma WaitingRelies(digest: RunSource -> string, seeds: set<nat>, s: State, call: nat)
    requires StateInv(digest, seeds, s) && call in s.calls
    ensures CallInv(s.db, s.calls[call])
  {
    hide DbInv, HistoryInv, CallInv;
  }

  lemma PlanIsRead(digest: RunSource -> string, s: State, call: nat, r: Request, choice: Choice)
    requires call in s.calls && s.calls[call] == Arrived(r) && r.UpdatePlan? && choice.newId !in s.db.plans
    requires r.planId in s.db.plans && s.db.plans[r.planId].state == Draft && ValidLines(r.planFields.lines)
    ensures Apply(digest, s, Proceed(call, choice)) == s.(calls := s.calls[call := PlanRead(r, s.db.plans[r.planId])])
  {
    hide ValidLines;
  }

  // ---- Areas ----

  ghost predicate WaitsOnArea(s: State, call: nat, r: Request) {
    call in s.calls && s.calls[call].AreaRead? && s.calls[call].request == r
  }

  lemma AreaMoves(digest: RunSource -> string, db: Db, r: Request, choice: Choice)
    requires choice.newId !in db.areas && r.UpdateArea? && AreaProblem(r.areaFields).None?
    requires r.areaId in db.areas && db.areas[r.areaId].fields.status != AreaArchived
    requires r.expected == db.areas[r.areaId].version
    ensures Advance(digest, db, Arrived(r), choice) == Move(db, AreaRead(r, db.areas[r.areaId]), Silent)
    ensures var touched := db.areas[r.areaId].(fields := Settled(r.areaFields), version := r.expected + 1);
            Advance(digest, db, AreaRead(r, db.areas[r.areaId]), choice)
              == Move(db.(areas := db.areas[r.areaId := touched]), AreaWritten(r.areaId), Silent)
  {
    hide AreaProblem, Settled, AdvanceReview, AdvanceMove, AdvanceImport, AdvanceDetect, AdvancePlan, AdvanceCreatePlan;
  }

  /** An open area rewritten by one other caller who expects the version that is there. */
  lemma AreaTouched(digest: RunSource -> string, s: State, other: nat, r: Request, choice: Choice)
    requires other !in s.calls && choice.newId !in s.db.areas
    requires r.UpdateArea? && AreaProblem(r.areaFields).None?
    requires r.areaId in s.db.areas && s.db.areas[r.areaId].fields.status != AreaArchived
    requires r.expected == s.db.areas[r.areaId].version
    ensures var row := s.db.areas[r.areaId].(fields := Settled(r.areaFields), version := r.expected + 1);
            Execute(digest, s, TwoStatements(other, r, choice))
              == s.(db := s.db.(areas := s.db.areas[r.areaId := row]), calls := s.calls[other := AreaWritten(r.areaId)])
    ensures HonestRun(digest, s, TwoStatements(other, r, choice))
  {
    hide Execute, HonestRun, Apply, Advance, AreaProblem, TwoStatements;
    var row := s.db.areas[r.areaId];
    var touched := row.(fields := Settled(r.areaFields), version := r.expected + 1);
    assert Honest(s.db, r);
    TwoStatementsApply(digest, s, other, r, choice);
    AreaMoves(digest, s.db, r, choice);
    SilentStatements(digest, s, other, r, choice, AreaRead(r, row),
                     s.db.(areas := s.db.areas[r.areaId := touched]), AreaWritten(r.areaId));
  }

  lemma StatusNeverAProblem(fields: AreaFields, status: AreaStatus)
    ensures AreaProblem(fields.(status := status)) == AreaProblem(fields)
    ensures Settled(fields.(status := status)) == Settled(fields).(status := status)
  {
    hide BoundaryProblem, Projected;
  }

  lemma {:induction false} AreaOvertaken(digest: RunSource -> string, s: State, call: nat, r: Request)
    returns (steps: seq<Step>)
    requires r.UpdateArea? && AreaProblem(r.areaFields).None? && WaitsOnArea(s, call, r)
    requires r.areaId in s.db.areas && s.db.areas[r.areaId].fields.status != AreaArchived
    requires r.expected > s.db.areas[r.areaId].version
    ensures HonestRun(digest, s, steps)
    ensures var t := Execute(digest, s, steps);
            WaitsOnArea(t, call, r) && r.areaId in t.db.areas && t.db.areas[r.areaId].fields.status == AreaArchived &&
            t.db.areas[r.areaId].version == r.expected
    decreases r.expected - s.db.areas[r.areaId].version
  {
    hide AreaProblem, Settled, Execute, HonestRun, TwoStatements;
    var other := FreshNumber(s.calls.Keys);
    var newId := FreshNumber(s.db.areas.Keys);
    var version, choice := s.db.areas[r.areaId].version, Choice(newId, []);
    var status := if r.expected == version + 1 then AreaArchived else AreaActive;
    var rewrite := UpdateArea(r.areaId, version, r.areaFields.(status := status));
    StatusNeverAProblem(r.areaFields, status);
    AreaTouched(digest, s, other, rewrite, choice);
    steps := TwoStatements(other, rewrite, choice);
    if r.expected != version + 1 {
      var rest := AreaOvertaken(digest, Execute(digest, s, steps), call, r);
      ExecuteInTwo(digest, s, steps, rest);
      steps := steps + rest;
    }
  }

  /** What an arrived area update can come to. */
  ghost predicate AreaUpdateFollowed(start: Db, s: State, call: nat, r: Request)
    requires r.UpdateArea? && r.areaId in start.areas
  {
    call in s.calls &&
    match s.calls[call]
    case Arrived(q) => q == r
    case AreaRead(q, area) =>
      q == r && area.fields.status != AreaArchived && AreaProblem(r.areaFields).None? &&
      start.areas[r.areaId].version <= area.version
    case AreaWritten(_) => true
    case Replied(_) => true
    case _ => false
  }

  lemma AreaUpdateAdvances(digest: RunSource -> string, start: Db, s: State, call: nat, r: Request, choice: Choice)
    requires r.UpdateArea? && r.areaId in start.areas && Evolves(start, s.db)
    requires AreaUpdateFollowed(start, s, call, r)
    ensures AreaUpdateFollowed(start, Apply(digest, s, Proceed(call, choice)), call, r)
  {
    hide AdvanceReview, AdvanceMove, AdvanceImport, AdvanceDetect, AdvanceCreatePlan, AdvancePlan, AreaProblem;
    var m := Advance(digest, s.db, s.calls[call], choice);
    assert m.event.Silent?;
  }

  lemma {:induction false} AreaUpdateStaysFollowed(
    digest: RunSource -> string, seeds: set<nat>, s: State, steps: seq<Step>, call: nat, r: Request)
    requires StateInv(digest, seeds, s) && r.UpdateArea? && r.areaId in s.db.areas
    requires AreaUpdateFollowed(s.db, s, call, r)
    ensures AreaUpdateFollowed(s.db, Execute(digest, s, steps), call, r)
  {
    hide StateInv, AreaProblem;
    if steps != [] {
      var front, last := steps[..|steps| - 1], steps[|steps| - 1];
      AreaUpdateStaysFollowed(digest, seeds, s, front, call, r);
      Safety(digest, seeds, s, front);
      if last.Proceed? && last.id == call {
        AreaUpdateAdvances(digest, s.db, Execute(digest, s, front), call, r, last.choice);
      } else {
        hide Advance;
        OthersUntouched(digest, Execute(digest, s, front), last, call);
      }
    }
  }

  /** After these steps of callers who do not run ahead, this call's update would rewrite an archived area. */
  ghost predicate OverwritesArchivedArea(digest: RunSource -> string, s: State, steps: seq<Step>, call: nat, r: Request)
    requires r.UpdateArea?
  {
    HonestRun(digest, s, steps) &&
    var t := Execute(digest, s, steps);
    WaitsOnArea(t, call, r) && r.areaId in t.db.areas && t.db.areas[r.areaId].fields.status == AreaArchived &&
    UpdateAreaRow(t.db, r.areaId, r.expected, Settled(r.areaFields)).affected
  }

  // ---- Archived areas reopened ----

  /** A call that read the area while it was open is about to update it at this version. */
  ghost predicate WaitsAt(s: State, call: nat, id: nat, version: nat) {
    call in s.calls && s.calls[call].AreaRead? && s.calls[call].request.UpdateArea? &&
    s.calls[call].request.areaId == id && s.calls[call].request.expected == version
  }

  ghost predicate SomeWaitsAt(s: State, id: nat, version: nat) {
    exists call :: WaitsAt(s, call, id, version)
  }

  ghost predicate SomeReopensAt(s: State, id: nat, version: nat) {
    exists call :: WaitsAt(s, call, id, version) && s.calls[call].request.areaFields.status != AreaArchived
  }

  /** Waiting updates carry the archived row from version `from` to version `last`, and one of those that
      wait at `last` reopens it. */
  ghost predicate ReopensAt(s: State, id: nat, from: nat, last: nat) {
    from <= last && (forall v :: from <= v < last ==> SomeWaitsAt(s, id, v)) && SomeReopensAt(s, id, last)
  }

  /** The waiting updates of `s` can have reopened the area, archived at `from`, by version `version`. */
  ghost predicate ReopenedBy(s: State, id: nat, from: nat, version: nat) {
    exists last: nat :: ReopensAt(s, id, from, last) && last < version
  }

  /** One statement changes an area row only as a pending update of exactly its version. */
  lemma AreaRowChange(digest: RunSource -> string, db: Db, call: Call, choice: Choice, id: nat)
    requires id in db.areas
    ensures var m := Advance(digest, db, call, choice);
            id in m.db.areas &&
            (m.db.areas[id] == db.areas[id] ||
             (call.AreaRead? && call.request.UpdateArea? && call.request.areaId == id &&
              call.request.expected == db.areas[id].version &&
              m.db.areas[id] == db.areas[id].(
                fields := Settled(call.request.areaFields), version := db.areas[id].version + 1)))
    ensures var m := Advance(digest, db, call, choice);
            m.call.AreaRead? && m.call.request.UpdateArea? && m.call.request.areaId == id ==>
              m.call == call || (m.call.area == db.areas[id] && db.areas[id].fields.status != AreaArchived)
  {
    hide AdvanceReview, AdvanceMove, AdvanceImport, AdvanceDetect, AdvancePlan, AdvanceCreatePlan, AdvanceArea;
    hide ReviewTurn, MoveTurn, ImportTurn, DetectTurn, PlanTurn, CreatePlanTurn, AreaTurn;
    OthersLeaveAreas(digest, db, call, choice);
    if AreaTurn(db, call, choice) {
      AreaTurnChange(db, call, choice, id);
    }
  }

  lemma OthersLeaveAreas(digest: RunSource -> string, db: Db, call: Call, choice: Choice)
    ensures ReviewTurn(call) ==> AdvanceReview(db, call).db.areas == db.areas && !AdvanceReview(db, call).call.AreaRead?
    ensures MoveTurn(call) ==> AdvanceMove(db, call).db.areas == db.areas && !AdvanceMove(db, call).call.AreaRead?
    ensures ImportTurn(db, call, choice) ==>
              AdvanceImport(digest, db, call, choice).db.areas == db.areas &&
              !AdvanceImport(digest, db, call, choice).call.AreaRead?
    ensures DetectTurn(db, call, choice) ==>
              AdvanceDetect(db, call, choice).db.areas == db.areas && !AdvanceDetect(db, call, choice).call.AreaRead?
    ensures PlanTurn(db, call, choice) ==>
              AdvancePlan(db, call, choice).db.areas == db.areas && !AdvancePlan(db, call, choice).call.AreaRead?
    ensures CreatePlanTurn(db, call, choice) ==> AdvanceCreatePlan(db, call, choice).db.areas == db.areas
    ensures CreatePlanTurn(db, call, choice) && AdvanceCreatePlan(db, call, choice).call.AreaRead? ==>
              AdvanceCreatePlan(db, call, choice).call.request.CreatePlan?
  {
    hide AdvanceDetect, DetectTurn, ValidLines, Milli, Selects, KeyTaken, ChecksumTaken, RunCodeTaken;
    DetectLeavesAreas(db, call, choice);
  }

  lemma DetectLeavesAreas(db: Db, call: Call, choice: Choice)
    ensures DetectTurn(db, call, choice) ==>
              AdvanceDetect(db, call, choice).db.areas == db.areas && !AdvanceDetect(db, call, choice).call.AreaRead?
  {
    hide ValidLines, Selects, Projected, Unique, FirstProblem, KeyFor, FindingsOf, KeyTaken, GapByKey;
  }

  lemma AreaTurnChange(db: Db, call: Call, choice: Choice, id: nat)
    requires id in db.areas && AreaTurn(db, call, choice)
    ensures var m := AdvanceArea(db, call, choice);
            id in m.db.areas &&
            (m.db.areas[id] == db.areas[id] ||
             (call.AreaRead? && call.request.UpdateArea? && call.request.areaId == id &&
              call.request.expected == db.areas[id].version &&
              m.db.areas[id] == db.areas[id].(
                fields := Settled(call.request.areaFields), version := db.areas[id].version + 1)))
    ensures var m := AdvanceArea(db, call, choice);
            m.call.AreaRead? && m.call.request.UpdateArea? && m.call.request.areaId == id ==>
              m.call == call || (m.call.area == db.areas[id] && db.areas[id].fields.status != AreaArchived)
  {
    hide AreaProblem, Settled;
  }

  /** Seen from a state where the area is archived: the row has come by waiting updates alone, or they have
      reopened it; and whoever waits to update it waited then or read it after that. */
  ghost predicate ArchivedFollowed(start: State, s: State, id: nat)
    requires id in start.db.areas
  {
    var from := start.db.areas[id].version;
    id in s.db.areas && from <= s.db.areas[id].version &&
    (ReopenedBy(start, id, from, s.db.areas[id].version) ||
     (s.db.areas[id].fields.status == AreaArchived &&
      forall v :: from <= v < s.db.areas[id].version ==> SomeWaitsAt(start, id, v))) &&
    forall call :: call in s.calls && s.calls[call].AreaRead? && s.calls[call].request.UpdateArea? &&
                   s.calls[call].request.areaId == id ==>
      s.calls[call].area.version <= s.db.areas[id].version &&
      ((call in start.calls && start.calls[call] == s.calls[call]) ||
       ReopenedBy(start, id, from, s.calls[call].area.version))
  }

  lemma ReopenedLater(s: State, id: nat, from: nat, version: nat, later: nat)
    requires ReopenedBy(s, id, from, version) && version <= later
    ensures ReopenedBy(s, id, from, later)
  {
  }

  lemma FollowedProceeds(digest: RunSource -> string, start: State, s: State, id: nat, call: nat, choice: Choice)
    requires id in start.db.areas && ArchivedFollowed(start, s, id) && call in s.calls
    ensures ArchivedFollowed(start, Apply(digest, s, Proceed(call, choice)), id)
  {
    hide Advance, Recorded, WaitsAt, ReopensAt, TrimSpace, Normalized;
    var m, from := Advance(digest, s.db, s.calls[call], choice), start.db.areas[id].version;
    var t := Apply(digest, s, Proceed(call, choice));
    RecordedFields(s, m);
    AreaRowChange(digest, s.db, s.calls[call], choice, id);
    var before, after := s.db.areas[id].version, t.db.areas[id].version;
    if ReopenedBy(start, id, from, before) {
      ReopenedLater(start, id, from, before, after);
    } else if t.db.areas[id] != s.db.areas[id] {
      WriterWaited(start, s, id, call);
      WaiterCarries(start, s, id, call);
    }
  }

  /** While nothing has been reopened, whoever waits has waited from the start. */
  lemma WriterWaited(start: State, s: State, id: nat, call: nat)
    requires id in start.db.areas && ArchivedFollowed(start, s, id) && call in s.calls
    requires s.calls[call].AreaRead? && s.calls[call].request.UpdateArea? && s.calls[call].request.areaId == id
    requires !ReopenedBy(start, id, start.db.areas[id].version, s.db.areas[id].version)
    ensures call in start.calls && start.calls[call] == s.calls[call]
    ensures WaitsAt(start, call, id, s.calls[call].request.expected)
  {
    hide ReopensAt;
  }

  /** Its write carries the archived row one version on, or reopens it. */
  lemma WaiterCarries(start: State, s: State, id: nat, call: nat)
    requires id in start.db.areas && id in s.db.areas && call in start.calls
    requires WaitsAt(start, call, id, s.db.areas[id].version)
    requires var from := start.db.areas[id].version;
             from <= s.db.areas[id].version &&
             forall v :: from <= v < s.db.areas[id].version ==> SomeWaitsAt(start, id, v)
    ensures var from, next := start.db.areas[id].version, s.db.areas[id].version + 1;
            (forall v :: from <= v < next ==> SomeWaitsAt(start, id, v)) &&
            (start.calls[call].request.areaFields.status != AreaArchived ==> ReopenedBy(start, id, from, next))
  {
    if start.calls[call].request.areaFields.status != AreaArchived {
      assert SomeReopensAt(start, id, s.db.areas[id].version);
      assert ReopensAt(start, id, start.db.areas[id].version, s.db.areas[id].version);
    }
  }

  lemma {:induction false} ArchivedStaysFollowed(digest: RunSource -> string, seeds: set<nat>, s: State,
                                                 steps: seq<Step>, id: nat)
    requires StateInv(digest, seeds, s) && id in s.db.areas && s.db.areas[id].fields.status == AreaArchived
    ensures ArchivedFollowed(s, Execute(digest, s, steps), id)
  {
    hide StateInv, ArchivedFollowed;
    if steps == [] {
      FollowedFromHere(digest, seeds, s, id);
    } else {
      var front, last := steps[..|steps| - 1], steps[|steps| - 1];
      var middle := Execute(digest, s, front);
      ArchivedStaysFollowed(digest, seeds, s, front, id);
      hide Advance;
      match last {
        case Arrive(call, request) =>
          FollowedArrives(digest, s, middle, id, last);
        case Proceed(call, choice) =>
          if call in middle.calls {
            FollowedProceeds(digest, s, middle, id, call, choice);
          }
      }
    }
  }

  lemma FollowedFromHere(digest: RunSource -> string, seeds: set<nat>, s: State, id: nat)
    requires StateInv(digest, seeds, s) && id in s.db.areas && s.db.areas[id].fields.status == AreaArchived
    ensures ArchivedFollowed(s, s, id)
  {
    hide StateInv, ReopenedBy;
    forall call | call in s.calls && s.calls[call].AreaRead? && s.calls[call].request.UpdateArea? &&
                  s.calls[call].request.areaId == id
      ensures s.calls[call].area.version <= s.db.areas[id].version
    {
      WaitingRelies(digest, seeds, s, call);
    }
  }

  lemma FollowedArrives(digest: RunSource -> string, start: State, s: State, id: nat, step: Step)
    requires id in start.db.areas && ArchivedFollowed(start, s, id) && step.Arrive?
    ensures ArchivedFollowed(start, Apply(digest, s, step), id)
  {
    hide ReopenedBy, SomeWaitsAt;
  }

  lemma FirstInTurn(s: State, id: nat, version: nat, last: nat) returns (w: nat)
    requires ReopensAt(s, id, version, last)
    ensures WaitsAt(s, w, id, version)
    ensures version == last ==> s.calls[w].request.areaFields.status != AreaArchived
  {
    if version == last {
      w :| WaitsAt(s, w, id, version) && s.calls[w].request.areaFields.status != AreaArchived;
    } else {
      assert SomeWaitsAt(s, id, version);
      w :| WaitsAt(s, w, id, version);
    }
  }

  /** The waiting updates write one after another until one of them reopens the area. */
  lemma {:induction false} ReopenedInTurn(digest: RunSource -> string, s: State, call: nat, r: Request, id: nat,
                                          last: nat)
    returns (steps: seq<Step>)
    requires call in s.calls && s.calls[call] == Arrived(r)
    requires id in s.db.areas && s.db.areas[id].fields.status == AreaArchived
    requires ReopensAt(s, id, s.db.areas[id].version, last)
    ensures HonestRun(digest, s, steps)
    ensures var t := Execute(digest, s, steps);
            call in t.calls && t.calls[call] == Arrived(r) && id in t.db.areas &&
            t.db.areas[id].fields.status != AreaArchived && t.db.areas[id].version <= last + 1
    decreases last - s.db.areas[id].version
  {
    hide Execute, HonestRun, Apply;
    var version := s.db.areas[id].version;
    var w := FirstInTurn(s, id, version, last);
    var newId := FreshNumber(s.db.areas.Keys);
    var write := Proceed(w, Choice(newId, []));
    WaiterWrites(digest, s, w, id, write.choice);
    OneMore(digest, s, [], write);
    assert [] + [write] == [write];
    EmptyRun(digest, s);
    steps := [write];
    var t := Execute(digest, s, steps);
    if t.db.areas[id].fields.status == AreaArchived {
      ReopensOn(s, t, w, id, last);
      var rest := ReopenedInTurn(digest, t, call, r, id, last);
      ExecuteInTwo(digest, s, steps, rest);
      steps := steps + rest;
    }
  }

  lemma WaiterWrites(digest: RunSource -> string, s: State, w: nat, id: nat, choice: Choice)
    requires id in s.db.areas && WaitsAt(s, w, id, s.db.areas[id].version) && choice.newId !in s.db.areas
    ensures var row := s.db.areas[id];
            var written := row.(fields := Settled(s.calls[w].request.areaFields), version := row.version + 1);
            Apply(digest, s, Proceed(w, choice))
              == s.(db := s.db.(areas := s.db.areas[id := written]), calls := s.calls[w := AreaWritten(id)])
  {
    hide AreaProblem, AdvanceReview, AdvanceMove, AdvanceImport, AdvanceDetect, AdvancePlan, AdvanceCreatePlan, Settled;
  }

  /** Those who wait at later versions still do. */
  lemma ReopensOn(s: State, t: State, w: nat, id: nat, last: nat)
    requires id in s.db.areas && ReopensAt(s, id, s.db.areas[id].version, last) && s.db.areas[id].version < last
    requires WaitsAt(s, w, id, s.db.areas[id].version) && t.calls == s.calls[w := AreaWritten(id)]
    ensures ReopensAt(t, id, s.db.areas[id].version + 1, last)
  {
    forall v | s.db.areas[id].version < v < last ensures SomeWaitsAt(t, id, v) {
      assert SomeWaitsAt(s, id, v);
      var u :| WaitsAt(s, u, id, v);
      assert WaitsAt(t, u, id, v);
    }
    var u :| WaitsAt(s, u, id, last) && s.calls[u].request.areaFields.status != AreaArchived;
    assert WaitsAt(t, u, id, last);
  }

  /** The version at which an update arriving now can first read the area open: now if it is open, else the
      version to which updates already waiting can bring it. */
  ghost predicate OpenBy(s: State, id: nat, version: nat)
    requires id in s.db.areas
  {
    if s.db.areas[id].fields.status != AreaArchived then s.db.areas[id].version < version
    else exists last: nat :: ReopensAt(s, id, s.db.areas[id].version, last) && last + 1 < version
  }

  /** An arrived area update can overwrite an archived area exactly when its fields are admissible and its
      expected version is ahead of the row's; for an area archived on arrival, ahead of a version to which
      updates that already wait can reopen it. */
  lemma ArchivedAreaOverwrittenExactly(digest: RunSource -> string, seeds: set<nat>, s: State, call: nat, r: Request)
    requires StateInv(digest, seeds, s) && call in s.calls && s.calls[call] == Arrived(r)
    requires r.UpdateArea? && r.areaId in s.db.areas
    ensures (exists steps :: OverwritesArchivedArea(digest, s, steps, call, r)) <==>
            AreaProblem(r.areaFields).None? && OpenBy(s, r.areaId, r.expected)
  {
    hide StateInv, AreaProblem, Execute, HonestRun, Apply, ReopensAt;
    forall steps | OverwritesArchivedArea(digest, s, steps, call, r)
      ensures AreaProblem(r.areaFields).None? && OpenBy(s, r.areaId, r.expected)
    {
      OverwriteNeedsAhead(digest, seeds, s, steps, call, r);
    }
    if AreaProblem(r.areaFields).None? && OpenBy(s, r.areaId, r.expected) {
      var opening: seq<Step> := [];
      EmptyRun(digest, s);
      if s.db.areas[r.areaId].fields.status == AreaArchived {
        var last: nat :| ReopensAt(s, r.areaId, s.db.areas[r.areaId].version, last) && last + 1 < r.expected;
        opening := ReopenedInTurn(digest, s, call, r, r.areaId, last);
      }
      var rest := OpenAreaOverwritten(digest, Execute(digest, s, opening), call, r);
      ExecuteInTwo(digest, s, opening, rest);
      assert OverwritesArchivedArea(digest, s, opening + rest, call, r);
    }
  }

  lemma OpenAreaOverwritten(digest: RunSource -> string, s: State, call: nat, r: Request) returns (steps: seq<Step>)
    requires call in s.calls && s.calls[call] == Arrived(r) && r.UpdateArea? && AreaProblem(r.areaFields).None?
    requires r.areaId in s.db.areas && s.db.areas[r.areaId].fields.status != AreaArchived
    requires r.expected > s.db.areas[r.areaId].version
    ensures OverwritesArchivedArea(digest, s, steps, call, r)
  {
    hide AreaProblem, Execute, HonestRun, Apply;
    var newId := FreshNumber(s.db.areas.Keys);
    var reading := Proceed(call, Choice(newId, []));
    AreaIsRead(digest, s, call, r, reading.choice);
    OneMore(digest, s, [], reading);
    assert [] + [reading] == [reading];
    EmptyRun(digest, s);
    var rest := AreaOvertaken(digest, Execute(digest, s, [reading]), call, r);
    ExecuteInTwo(digest, s, [reading], rest);
    steps := [reading] + rest;
  }

  lemma OverwriteNeedsAhead(digest: RunSource -> string, seeds: set<nat>, s: State, steps: seq<Step>, call: nat,
                            r: Request)
    requires StateInv(digest, seeds, s) && call in s.calls && s.calls[call] == Arrived(r)
    requires r.UpdateArea? && r.areaId in s.db.areas
    requires OverwritesArchivedArea(digest, s, steps, call, r)
    ensures AreaProblem(r.areaFields).None? && OpenBy(s, r.areaId, r.expected)
  {
    hide StateInv, AreaProblem, Execute, HonestRun, ReopensAt, Evolves;
    var t := Execute(digest, s, steps);
    AreaUpdateStaysFollowed(digest, seeds, s, steps, call, r);
    Safety(digest, seeds, s, steps);
    WaitingRelies(digest, seeds, t, call);
    assert AreaEvolves(t.calls[call].area, t.db.areas[r.areaId]);
    if s.db.areas[r.areaId].fields.status == AreaArchived {
      ArchivedStaysFollowed(digest, seeds, s, steps, r.areaId);
      assert s.calls[call] != t.calls[call];
    }
  }

  lemma AreaIsRead(digest: RunSource -> string, s: State, call: nat, r: Request, choice: Choice)
    requires call in s.calls && s.calls[call] == Arrived(r) && r.UpdateArea? && choice.newId !in s.db.areas
    requires r.areaId in s.db.areas && s.db.areas[r.areaId].fields.status != AreaArchived
    requires AreaProblem(r.areaFields).None?
    ensures Apply(digest, s, Proceed(call, choice)) == s.(calls := s.calls[call := AreaRead(r, s.db.areas[r.areaId])])
  {
    hide AreaProblem;
  }
}
