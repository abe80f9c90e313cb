/** What a request served without interference keeps: the workflow invariant, and the frozen rows with
    no condition on the expected version. It is interleaving alone that lets a caller run ahead. */
module ServedAlone {
  import opened States
  import opened Store
  import opened Workflow
  import opened WorkflowInvariants
  import opened Interleavings
  import opened FrozenRows
  import opened Overtaking
  import opened Services

  // ---- As a run ----

  /** Being served alone is one of the interleaved runs: the call arrives and takes its statements. */
  lemma {:induction false} AloneIsARun(digest: RunSource -> string, s: State, call: nat, choice: Choice, n: nat)
    returns (steps: seq<Step>)
    requires call in s.calls
    ensures var end := Alone(digest, Standing(s.db, s.calls[call]), choice, n);
            Execute(digest, s, steps).db == end.db && Execute(digest, s, steps).calls == s.calls[call := end.call]
    decreases n
  {
    hide Advance, HonestRun, Recorded;
    if n == 0 {
      steps := [];
      assert s.calls[call := s.calls[call]] == s.calls;
    } else {
      var t := Apply(digest, s, Proceed(call, choice));
      RecordedFields(s, Advance(digest, s.db, s.calls[call], choice));
      var rest := AloneIsARun(digest, t, call, choice, n - 1);
      steps := [Proceed(call, choice)] + rest;
      OneMore(digest, s, [], Proceed(call, choice));
      assert [] + [Proceed(call, choice)] == [Proceed(call, choice)];
      ExecuteInTwo(digest, s, [Proceed(call, choice)], rest);
    }
  }

  lemma ServedIsARun(digest: RunSource -> string, s: State, call: nat, r: Request, choice: Choice, later: Db,
                     reply: Reply)
    returns (steps: seq<Step>)
    requires call !in s.calls && Serves(digest, s.db, r, choice, later, reply)
    ensures Execute(digest, s, steps).db == later
    ensures Execute(digest, s, steps).calls == s.calls[call := Replied(reply)]
  {
    hide Alone, HonestRun;
    var n: nat :| Alone(digest, Standing(s.db, Arrived(r)), choice, n) == Standing(later, Replied(reply));
    var t := Apply(digest, s, Arrive(call, r));
    var rest := AloneIsARun(digest, t, call, choice, n);
    steps := [Arrive(call, r)] + rest;
    OneMore(digest, s, [], Arrive(call, r));
    assert [] + [Arrive(call, r)] == [Arrive(call, r)];
    ExecuteInTwo(digest, s, [Arrive(call, r)], rest);
  }

  // ---- The invariant ----

  lemma {:induction false} AloneKeepsInvariant(
    digest: RunSource -> string, seeds: set<nat>, at: Standing, choice: Choice, n: nat)
    requires DbInv(digest, seeds, at.db) && CallInv(at.db, at.call)
    ensures var end := Alone(digest, at, choice, n); DbInv(digest, seeds, end.db) && Evolves(at.db, end.db)
    decreases n
  {
    hide DbInv, CallInv, Evolves, Advance, GapsChange;
    if n == 0 {
      EvolvesReflexive(at.db);
    } else {
      var m := Advance(digest, at.db, at.call, choice);
      AdvanceGood(digest, seeds, at.db, at.call, choice);
      AloneKeepsInvariant(digest, seeds, Standing(m.db, m.call), choice, n - 1);
      EvolvesTransitive(at.db, m.db, Alone(digest, at, choice, n).db);
    }
  }

  /** Every service method keeps the workflow invariant and only lets rows evolve. */
  lemma ServedKeepsInvariant(digest: RunSource -> string, seeds: set<nat>, db: Db, r: Request, choice: Choice,
                             later: Db, reply: Reply)
    requires DbInv(digest, seeds, db) && Serves(digest, db, r, choice, later, reply)
    ensures DbInv(digest, seeds, later) && Evolves(db, later)
  {
    hide Alone, DbInv, Evolves;
    var n: nat :| Alone(digest, Standing(db, Arrived(r)), choice, n) == Standing(later, Replied(reply));
    AloneKeepsInvariant(digest, seeds, Standing(db, Arrived(r)), choice, n);
  }

  // ---- Frozen rows ----

  /** What a call has read of a plan or an area is still the row. */
  ghost predicate ReadIsCurrent(db: Db, call: Call) {
    match call
    case PlanRead(r, plan) =>
      r.UpdatePlan? || r.LockPlan? ==> r.planId in db.plans && db.plans[r.planId] == plan && plan.state == Draft
    case AreaRead(r, area) =>
      r.UpdateArea? ==> r.areaId in db.areas && db.areas[r.areaId] == area && area.fields.status != AreaArchived
    case _ => true
  }

  lemma PlanAlone(db: Db, call: Call, choice: Choice)
    requires PlanTurn(db, call, choice) && ReadIsCurrent(db, call)
    ensures var m := AdvancePlan(db, call, choice); KeepsFrozen(db, m.db) && ReadIsCurrent(m.db, m.call)
  {
    hide ValidLines;
  }

  lemma AreaAlone(db: Db, call: Call, choice: Choice)
    requires AreaTurn(db, call, choice) && ReadIsCurrent(db, call)
    ensures var m := AdvanceArea(db, call, choice); KeepsFrozen(db, m.db) && ReadIsCurrent(m.db, m.call)
  {
    hide AreaProblem, Settled;
  }

  lemma OthersCurrent(digest: RunSource -> string, db: Db, call: Call, choice: Choice)
    ensures ReviewTurn(call) ==> ReadIsCurrent(AdvanceReview(db, call).db, AdvanceReview(db, call).call)
    ensures MoveTurn(call) ==> ReadIsCurrent(AdvanceMove(db, call).db, AdvanceMove(db, call).call)
    ensures ImportTurn(db, call, choice) ==>
              ReadIsCurrent(AdvanceImport(digest, db, call, choice).db, AdvanceImport(digest, db, call, choice).call)
    ensures DetectTurn(db, call, choice) ==>
              ReadIsCurrent(AdvanceDetect(db, call, choice).db, AdvanceDetect(db, call, choice).call)
    ensures CreatePlanTurn(db, call, choice) ==>
              ReadIsCurrent(AdvanceCreatePlan(db, call, choice).db, AdvanceCreatePlan(db, call, choice).call)
  {
    hide ValidLines, Milli, Selects;
  }

  lemma AdvanceAlone(digest: RunSource -> string, db: Db, call: Call, choice: Choice)
    requires ReadIsCurrent(db, call)
    ensures var m := Advance(digest, db, call, choice); KeepsFrozen(db, m.db) && ReadIsCurrent(m.db, m.call)
  {
    hide AdvanceReview, AdvanceMove, AdvanceImport, AdvanceDetect, AdvancePlan, AdvanceCreatePlan, AdvanceArea,
         KeepsFrozen, ReviewTurn, MoveTurn, ImportTurn, DetectTurn, PlanTurn, CreatePlanTurn, AreaTurn;
    OthersFrozen(digest, db, call, choice);
    OthersCurrent(digest, db, call, choice);
    if PlanTurn(db, call, choice) {
      PlanAlone(db, call, choice);
    }
    if AreaTurn(db, call, choice) {
      AreaAlone(db, call, choice);
    }
  }

  lemma {:induction false} AloneFreezes(digest: RunSource -> string, at: Standing, choice: Choice, n: nat)
    requires ReadIsCurrent(at.db, at.call)
    ensures KeepsFrozen(at.db, Alone(digest, at, choice, n).db)
    decreases n
  {
    hide ReadIsCurrent, KeepsFrozen, Advance;
    if n == 0 {
      FrozenReflexive(at.db);
    } else {
      var m := Advance(digest, at.db, at.call, choice);
      AdvanceAlone(digest, at.db, at.call, choice);
      AloneFreezes(digest, Standing(m.db, m.call), choice, n - 1);
      FrozenTransitive(at.db, m.db, Alone(digest, at, choice, n).db);
    }
  }

  /** Served alone, no request changes a locked plan or an archived area, whatever version it expects. */
  lemma ServedKeepsFrozen(digest: RunSource -> string, db: Db, r: Request, choice: Choice, later: Db, reply: Reply)
    requires Serves(digest, db, r, choice, later, reply)
    ensures KeepsFrozen(db, later)
  {
    hide Alone, KeepsFrozen;
    var n: nat :| Alone(digest, Standing(db, Arrived(r)), choice, n) == Standing(later, Replied(reply));
    AloneFreezes(digest, Standing(db, Arrived(r)), choice, n);
  }

  // ---- The next version of a locked plan ----

  lemma CopyMoves(digest: RunSource -> string, db: Db, r: Request, choice: Choice)
    requires r.CopyPlan? && r.planId in db.plans && choice.newId !in db.plans
    ensures var row := CopiedPlan(db.plans[r.planId], r.actor);
            Advance(digest, db, Arrived(r), choice) == Move(db, PlanRead(r, db.plans[r.planId]), Silent) &&
            Advance(digest, db, PlanRead(r, db.plans[r.planId]), choice)
              == Move(db.(plans := db.plans[choice.newId := row]), Replied(PlanReply(choice.newId, row)), Silent)
  {
    hide AdvanceReview, AdvanceMove, AdvanceImport, AdvanceDetect, AdvanceCreatePlan, AdvanceArea, CopiedPlan;
  }

  /** A locked plan refuses to be edited, but its copy is a draft one version on, of the same area and by
      the copier, that can be edited at that version; the locked row stays as it is. */
  lemma LockedPlanIsEditedThroughACopy(
    digest: RunSource -> string, s: State, a: nat, b: nat, id: nat, actor: nat, fields: PlanFields,
    first: Choice, second: Choice)
    requires a !in s.calls && b !in s.calls && a != b
    requires id in s.db.plans && s.db.plans[id].state == Locked && ValidLines(fields.lines)
    requires first.newId !in s.db.plans && second.newId !in s.db.plans && second.newId != first.newId
    ensures var locked := s.db.plans[id];
            Advance(digest, s.db, Arrived(UpdatePlan(id, locked.version, fields)), first)
              == Move(s.db, Replied(Failed(PlanIsLocked)), Silent) &&
            Execute(digest, s, TwoStatements(a, CopyPlan(id, actor), first) +
                               TwoStatements(b, UpdatePlan(first.newId, locked.version + 1, fields), second)).db
              == s.db.(plans := s.db.plans[first.newId :=
                            Plan(locked.areaId, fields, Draft, locked.version + 2, actor)])
  {
    hide Execute, HonestRun, Apply, ValidLines, COPY_MARK, AdvanceReview, AdvanceMove, AdvanceImport, AdvanceDetect,
         AdvanceCreatePlan, AdvanceArea;
    var locked, copy := s.db.plans[id], CopyPlan(id, actor);
    var row := CopiedPlan(locked, actor);
    CopyMoves(digest, s.db, copy, first);
    TwoStatementsApply(digest, s, a, copy, first);
    SilentStatements(digest, s, a, copy, first, PlanRead(copy, locked), s.db.(plans := s.db.plans[first.newId := row]),
                     Replied(PlanReply(first.newId, row)));
    var t := Execute(digest, s, TwoStatements(a, copy, first));
    var update := UpdatePlan(first.newId, locked.version + 1, fields);
    PlanTouched(digest, t, b, update, second);
    ExecuteInTwo(digest, s, TwoStatements(a, copy, first), TwoStatements(b, update, second));
  }
}
