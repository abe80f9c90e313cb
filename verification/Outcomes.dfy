/** What each request comes to when it is served alone, told column by column: which refusal in which
    case, and otherwise the row as it is stored and answered. The steps of a call are spread over several
    functions; here they are read as one. */
module Outcomes {
  import opened Outcome
  import opened Rings
  import opened Coverage
  import opened CoordinateSystems
  import opened States
  import opened InputKeys
  import opened Store
  import opened Workflow
  import opened WorkflowInvariants
  import opened Services

  /** Served with the same choices, a request has one outcome. */
  lemma SameOutcome(digest: RunSource -> string, db: Db, r: Request, choice: Choice, later: Db, reply: Reply,
                    later': Db, reply': Reply)
    requires Serves(digest, db, r, choice, later, reply) && Serves(digest, db, r, choice, later', reply')
    ensures later == later' && reply == reply'
  {
    hide Alone, Advance;
    var at := Standing(db, Arrived(r));
    var m: nat :| Alone(digest, at, choice, m) == Standing(later, Replied(reply));
    var n: nat :| Alone(digest, at, choice, n) == Standing(later', Replied(reply'));
    OneOutcome(digest, at, choice, m, n, later, reply, later', reply');
  }

  // ---- Reviews and run transitions ----

  /** A review is refused for an unknown gap, a transition the table does not have or another version than the
      row's; otherwise the row is in the state asked for, the note is appended and the row is answered. */
  lemma ReviewOutcome(digest: RunSource -> string, db: Db, r: Request, choice: Choice, later: Db, reply: Reply)
    requires r.ReviewGap? && Serves(digest, db, r, choice, later, reply)
    ensures r.gapId !in db.gaps ==> reply == Failed(NotFound) && later == db
    ensures r.gapId in db.gaps ==>
              var before := db.gaps[r.gapId];
              if r.gapTarget !in GapTargets(before.state) then reply == Failed(GapTransitionInvalid) && later == db
              else if r.expected != before.version then reply == Failed(VersionConflict) && later == db
              else
                var after := before.(state := r.gapTarget, version := before.version + 1,
                                     explanation := before.explanation + " 复核记录：" + r.note);
                later == db.(gaps := db.gaps[r.gapId := after]) && reply == GapReply(r.gapId, after, false)
  {
    hide Serves, GapTargets;
    if r.gapId !in db.gaps {
      ReviewServed(digest, db, r, choice, db, Failed(NotFound));
      SameOutcome(digest, db, r, choice, later, reply, db, Failed(NotFound));
    } else {
      var before := db.gaps[r.gapId];
      if r.gapTarget !in GapTargets(before.state) {
        ReviewServed(digest, db, r, choice, db, Failed(GapTransitionInvalid));
        SameOutcome(digest, db, r, choice, later, reply, db, Failed(GapTransitionInvalid));
      } else if r.expected != before.version {
        ReviewServed(digest, db, r, choice, db, Failed(VersionConflict));
        SameOutcome(digest, db, r, choice, later, reply, db, Failed(VersionConflict));
      } else {
        var after := before.(state := r.gapTarget, version := before.version + 1,
                             explanation := before.explanation + " 复核记录：" + r.note);
        var end := db.(gaps := db.gaps[r.gapId := after]);
        ReviewServed(digest, db, r, choice, end, GapReply(r.gapId, after, false));
        SameOutcome(digest, db, r, choice, later, reply, end, GapReply(r.gapId, after, false));
      }
    }
  }

  /** The same for a run: the navigation guard and the reason come after the table and before the version. */
  lemma MoveOutcome(digest: RunSource -> string, db: Db, r: Request, choice: Choice, later: Db, reply: Reply)
    requires r.MoveRun? && Serves(digest, db, r, choice, later, reply)
    ensures r.runId !in db.runs ==> reply == Failed(NotFound) && later == db
    ensures r.runId in db.runs ==>
              var before := db.runs[r.runId];
              if r.runTarget !in RunTargets(before.state) then reply == Failed(RunTransitionInvalid) && later == db
              else if r.runTarget == QualityChecked && before.quality == Invalid then
                reply == Failed(NavigationInvalid) && later == db
              else if r.runTarget == Rejected && |r.reason| < 4 then reply == Failed(ReasonRequired) && later == db
              else if r.expected != before.version then reply == Failed(VersionConflict) && later == db
              else
                var after := before.(state := r.runTarget, version := before.version + 1);
                later == db.(runs := db.runs[r.runId := after]) && reply == RunReply(r.runId, after, false)
  {
    hide Serves, RunTargets;
    var end, answer := db, Failed(NotFound);
    if r.runId in db.runs {
      var before := db.runs[r.runId];
      if r.runTarget !in RunTargets(before.state) {
        answer := Failed(RunTransitionInvalid);
      } else if r.runTarget == QualityChecked && before.quality == Invalid {
        answer := Failed(NavigationInvalid);
      } else if r.runTarget == Rejected && |r.reason| < 4 {
        answer := Failed(ReasonRequired);
      } else if r.expected != before.version {
        answer := Failed(VersionConflict);
      } else {
        var after := before.(state := r.runTarget, version := before.version + 1);
        end, answer := db.(runs := db.runs[r.runId := after]), RunReply(r.runId, after, false);
      }
    }
    MoveServed(digest, db, r, choice, end, answer);
    SameOutcome(digest, db, r, choice, later, reply, end, answer);
  }

  // ---- Imports ----

  /** The first plan, track and time that will not do is named; a run with the same digest answers for the new
      one; a run code in use is refused; otherwise what is stored and answered is the request, imported. */
  lemma ImportOutcome(digest: RunSource -> string, db: Db, r: Request, choice: Choice, later: Db, reply: Reply)
    requires r.ImportRun? && choice.newId !in db.runs && Serves(digest, db, r, choice, later, reply)
    ensures r.planId !in db.plans ==> reply == Failed(NotFound) && later == db
    ensures r.planId in db.plans ==>
              if db.plans[r.planId].state != Locked then reply == Failed(PlanNotLocked) && later == db
              else if |r.track| == 0 || exists i :: 0 <= i < |r.track| && |r.track[i]| < 2 then
                reply == Failed(LinesInvalid) && later == db
              else if r.startedAt >= r.endedAt then reply == Failed(RunTimeInvalid) && later == db
              else
                var checksum := digest(SourceOfImport(r));
                if exists id :: id in db.runs && db.runs[id].checksum == checksum then
                  later == db && reply.RunReply? && reply.idempotent && reply.runId in db.runs &&
                  reply.run == db.runs[reply.runId] && reply.run.checksum == checksum
                else if exists id :: id in db.runs && db.runs[id].code == r.code then
                  reply == Failed(Duplicate) && later == db
                else
                  var row := Run(r.planId, r.code, r.track, r.swath, r.startedAt, r.endedAt, r.quality, Imported,
                                 checksum, r.actor, 1);
                  later == db.(runs := db.runs[choice.newId := row]) && reply == RunReply(choice.newId, row, false)
  {
    hide Serves, Milli, SourceOfImport;
    var end, answer := db, Failed(NotFound);
    if r.planId in db.plans {
      var checksum := digest(SourceOfImport(r));
      if db.plans[r.planId].state != Locked {
        answer := Failed(PlanNotLocked);
      } else if |r.track| == 0 || exists i :: 0 <= i < |r.track| && |r.track[i]| < 2 {
        answer := Failed(LinesInvalid);
      } else if r.startedAt >= r.endedAt {
        answer := Failed(RunTimeInvalid);
      } else if ChecksumTaken(db, checksum) {
        var id := RunByChecksum(db, checksum).value;
        answer := RunReply(id, db.runs[id], true);
      } else if RunCodeTaken(db, r.code) {
        answer := Failed(Duplicate);
      } else {
        var row := Run(r.planId, r.code, r.track, r.swath, r.startedAt, r.endedAt, r.quality, Imported, checksum,
                       r.actor, 1);
        end, answer := db.(runs := db.runs[choice.newId := row]), RunReply(choice.newId, row, false);
      }
    }
    ImportServed(digest, db, r, choice, end, answer);
    SameOutcome(digest, db, r, choice, later, reply, end, answer);
  }

  /** Importing again the same track for the same plan, times and swath is answered with the run already there,
      whatever code, quality or caller it comes with. */
  lemma ImportTwice(digest: RunSource -> string, db: Db, r: Request, choice: Choice, later: Db, id: nat, row: Run,
                    again: Request, choice': Choice, later': Db, reply': Reply)
    requires UniqueIndexes(db)
    requires r.ImportRun? && choice.newId !in db.runs && Serves(digest, db, r, choice, later, RunReply(id, row, false))
    requires again.ImportRun? && again.planId == r.planId && again.track == r.track && again.swath == r.swath
    requires again.startedAt == r.startedAt && again.endedAt == r.endedAt
    requires choice'.newId !in later.runs && Serves(digest, later, again, choice', later', reply')
    ensures later' == later && reply' == RunReply(id, row, true)
  {
    hide Serves, Milli;
    ImportOutcome(digest, db, r, choice, later, RunReply(id, row, false));
    ImportOutcome(digest, later, again, choice', later', reply');
    assert later.runs[id].checksum == digest(SourceOfImport(again));
  }

  // ---- Plans ----

  lemma CreatePlanOutcome(digest: RunSource -> string, db: Db, r: Request, choice: Choice, later: Db, reply: Reply)
    requires r.CreatePlan? && choice.newId !in db.plans && Serves(digest, db, r, choice, later, reply)
    ensures r.areaId !in db.areas ==> reply == Failed(NotFound) && later == db
    ensures r.areaId in db.areas ==>
              var lines := r.planFields.lines;
              if db.areas[r.areaId].fields.status == AreaArchived then reply == Failed(AreaIsArchived) && later == db
              else if |lines| == 0 || exists i :: 0 <= i < |lines| && |lines[i]| < 2 then
                reply == Failed(LinesInvalid) && later == db
              else
                var row := Plan(r.areaId, r.planFields, Draft, 1, r.actor);
                later == db.(plans := db.plans[choice.newId := row]) && reply == PlanReply(choice.newId, row)
  {
    hide Serves;
    var end, answer := db, Failed(NotFound);
    if r.areaId in db.areas {
      var lines := r.planFields.lines;
      if db.areas[r.areaId].fields.status == AreaArchived {
        answer := Failed(AreaIsArchived);
      } else if |lines| == 0 || exists i :: 0 <= i < |lines| && |lines[i]| < 2 {
        answer := Failed(LinesInvalid);
      } else {
        var row := Plan(r.areaId, r.planFields, Draft, 1, r.actor);
        end, answer := db.(plans := db.plans[choice.newId := row]), PlanReply(choice.newId, row);
      }
    }
    CreatePlanServed(digest, db, r, choice, end, answer);
    SameOutcome(digest, db, r, choice, later, reply, end, answer);
  }

  /** Updating, locking and copying a plan. */
  lemma PlanOutcome(digest: RunSource -> string, db: Db, r: Request, choice: Choice, later: Db, reply: Reply)
    requires r.UpdatePlan? || r.LockPlan? || r.CopyPlan?
    requires choice.newId !in db.plans && Serves(digest, db, r, choice, later, reply)
    ensures r.planId !in db.plans ==> reply == Failed(NotFound) && later == db
    ensures r.planId in db.plans && r.UpdatePlan? ==>
              var before, lines := db.plans[r.planId], r.planFields.lines;
              if before.state != Draft then reply == Failed(PlanIsLocked) && later == db
              else if |lines| == 0 || exists i :: 0 <= i < |lines| && |lines[i]| < 2 then
                reply == Failed(LinesInvalid) && later == db
              else if r.expected != before.version then reply == Failed(VersionConflict) && later == db
              else
                var after := before.(fields := r.planFields, version := before.version + 1);
                later == db.(plans := db.plans[r.planId := after]) && reply == PlanReply(r.planId, after)
    ensures r.planId in db.plans && r.LockPlan? ==>
              var before := db.plans[r.planId];
              if before.state != Draft then reply == Failed(PlanStateInvalid) && later == db
              else if r.expected != before.version then reply == Failed(VersionConflict) && later == db
              else
                var after := before.(state := Locked, version := before.version + 1);
                later == db.(plans := db.plans[r.planId := after]) && reply == PlanReply(r.planId, after)
    ensures r.planId in db.plans && r.CopyPlan? ==>
              var source := db.plans[r.planId];
              var f := source.fields;
              var fields := PlanFields(f.name + " / 复制版本", f.lines, f.heading, f.swath, f.spacing);
              var row := Plan(source.areaId, fields, Draft, source.version + 1, r.actor);
              later == db.(plans := db.plans[choice.newId := row]) && reply == PlanReply(choice.newId, row)
  {
    hide Serves;
    var end, answer := db, Failed(NotFound);
    if r.planId in db.plans {
      var before := db.plans[r.planId];
      if r.CopyPlan? {
        var f := before.fields;
        var row := Plan(before.areaId, PlanFields(f.name + " / 复制版本", f.lines, f.heading, f.swath, f.spacing),
                        Draft, before.version + 1, r.actor);
        end, answer := db.(plans := db.plans[choice.newId := row]), PlanReply(choice.newId, row);
      } else if before.state != Draft {
        answer := Failed(if r.UpdatePlan? then PlanIsLocked else PlanStateInvalid);
      } else if r.UpdatePlan? && (|r.planFields.lines| == 0 ||
                                  exists i :: 0 <= i < |r.planFields.lines| && |r.planFields.lines[i]| < 2) {
        answer := Failed(LinesInvalid);
      } else if r.expected != before.version {
        answer := Failed(VersionConflict);
      } else {
        var after := if r.UpdatePlan? then before.(fields := r.planFields, version := before.version + 1)
                     else before.(state := Locked, version := before.version + 1);
        end, answer := db.(plans := db.plans[r.planId := after]), PlanReply(r.planId, after);
      }
    }
    PlanServed(digest, db, r, choice, end, answer);
    SameOutcome(digest, db, r, choice, later, reply, end, answer);
  }

  // ---- Areas ----

  /** Updating an area: archived first, then coordinate system, boundary and size, then the version; stored are
      the fields asked for, name, coordinate system and team in their stored form. */
  lemma AreaOutcome(digest: RunSource -> string, db: Db, r: Request, choice: Choice, later: Db, reply: Reply)
    requires r.UpdateArea? && choice.newId !in db.areas && Serves(digest, db, r, choice, later, reply)
    ensures r.areaId !in db.areas ==> reply == Failed(NotFound) && later == db
    ensures r.areaId in db.areas ==>
              var before, f := db.areas[r.areaId], r.areaFields;
              if before.fields.status == AreaArchived then reply == Failed(AreaIsArchived) && later == db
              else if !Projected(f.crs) then reply == Failed(CoordinateSystemInvalid) && later == db
              else if !ValidPolygon(f.boundary) then reply == Failed(Failure.BoundaryInvalid) && later == db
              else if AreaOf(f.boundary) > 1_000_000_000.0 then reply == Failed(AreaTooLarge) && later == db
              else if r.expected != before.version then reply == Failed(VersionConflict) && later == db
              else
                var stored := AreaFields(TrimSpace(f.name), f.boundary, f.targetResolution, Normalized(f.crs),
                                         f.defaultSwath, TrimSpace(f.ownerTeam), f.status);
                var after := Area(before.code, stored, before.version + 1);
                later == db.(areas := db.areas[r.areaId := after]) && reply == AreaReply(r.areaId, after)
  {
    hide Serves, Projected, TrimSpace, Normalized, ValidPolygon, AreaOf;
    var end, answer := db, Failed(NotFound);
    if r.areaId in db.areas {
      var before, f := db.areas[r.areaId], r.areaFields;
      if before.fields.status == AreaArchived {
        answer := Failed(AreaIsArchived);
      } else if !Projected(f.crs) {
        answer := Failed(CoordinateSystemInvalid);
      } else if !ValidPolygon(f.boundary) {
        answer := Failed(Failure.BoundaryInvalid);
      } else if AreaOf(f.boundary) > 1_000_000_000.0 {
        answer := Failed(AreaTooLarge);
      } else if r.expected != before.version {
        answer := Failed(VersionConflict);
      } else {
        var stored := AreaFields(TrimSpace(f.name), f.boundary, f.targetResolution, Normalized(f.crs),
                                 f.defaultSwath, TrimSpace(f.ownerTeam), f.status);
        var after := Area(before.code, stored, before.version + 1);
        end, answer := db.(areas := db.areas[r.areaId := after]), AreaReply(r.areaId, after);
      }
    }
    AreaServed(digest, db, r, choice, end, answer);
    SameOutcome(digest, db, r, choice, later, reply, end, answer);
  }

  /** Creating an area: the same tests, then its code in stored form must be free; it starts as a draft. */
  lemma CreateAreaOutcome(digest: RunSource -> string, db: Db, r: Request, choice: Choice, later: Db, reply: Reply)
    requires r.CreateArea? && choice.newId !in db.areas && Serves(digest, db, r, choice, later, reply)
    ensures var f := r.areaFields;
            if !Projected(f.crs) then reply == Failed(CoordinateSystemInvalid) && later == db
            else if !ValidPolygon(f.boundary) then reply == Failed(Failure.BoundaryInvalid) && later == db
            else if AreaOf(f.boundary) > 1_000_000_000.0 then reply == Failed(AreaTooLarge) && later == db
            else if exists id :: id in db.areas && db.areas[id].code == Normalized(r.code) then
              reply == Failed(Duplicate) && later == db
            else
              var stored := AreaFields(TrimSpace(f.name), f.boundary, f.targetResolution, Normalized(f.crs),
                                       f.defaultSwath, TrimSpace(f.ownerTeam), AreaDraft);
              var row := Area(Normalized(r.code), stored, 1);
              later == db.(areas := db.areas[choice.newId := row]) && reply == AreaReply(choice.newId, row)
  {
    hide Serves, Projected, TrimSpace, Normalized, ValidPolygon, AreaOf;
    var end, answer, f := db, Failed(CoordinateSystemInvalid), r.areaFields;
    if !Projected(f.crs) {
    } else if !ValidPolygon(f.boundary) {
      answer := Failed(Failure.BoundaryInvalid);
    } else if AreaOf(f.boundary) > 1_000_000_000.0 {
      answer := Failed(AreaTooLarge);
    } else if AreaCodeTaken(db, Normalized(r.code)) {
      answer := Failed(Duplicate);
    } else {
      var stored := AreaFields(TrimSpace(f.name), f.boundary, f.targetResolution, Normalized(f.crs),
                               f.defaultSwath, TrimSpace(f.ownerTeam), AreaDraft);
      var row := Area(Normalized(r.code), stored, 1);
      end, answer := db.(areas := db.areas[choice.newId := row]), AreaReply(choice.newId, row);
    }
    CreateAreaServed(digest, db, r, choice, end, answer);
    SameOutcome(digest, db, r, choice, later, reply, end, answer);
  }

  // ---- Detections ----

  /** The request gets as far as its runs. */
  predicate ReachesRuns(db: Db, r: Request) {
    r.DetectGap? && 8 <= |r.idempotencyKey| <= 120 && r.areaId in db.areas && Projected(db.areas[r.areaId].fields.crs)
  }

  predicate OfArea(db: Db, run: Run, areaId: nat) {
    run.planId in db.plans && db.plans[run.planId].areaId == areaId
  }

  /** A stored run that can be used: of the area, processed, and with lines of two positions or more. */
  predicate Usable(db: Db, areaId: nat, id: nat) {
    id in db.runs && OfArea(db, db.runs[id], areaId) && db.runs[id].state == RunState.Processed &&
    |db.runs[id].track| > 0 && forall i :: 0 <= i < |db.runs[id].track| ==> |db.runs[id].track[i]| >= 2
  }

  lemma UsableIsNoProblem(db: Db, areaId: nat, id: nat)
    requires id in db.runs
    ensures Usable(db, areaId, id) <==> RunProblem(areaId, db.plans, db.runs[id]).None?
    ensures !Usable(db, areaId, id) ==>
              RunProblem(areaId, db.plans, db.runs[id]) == Some(
                if !OfArea(db, db.runs[id], areaId) then RunAreaMismatch
                else if db.runs[id].state != RunState.Processed then RunNotProcessed
                else LinesInvalid)
  {
  }

  /** All requested runs are stored exactly when as many rows come back as there are different ids. */
  lemma AllStored(order: seq<nat>, ids: seq<nat>, runs: map<nat, Run>)
    requires Selects(order, ids, runs)
    ensures |order| == |Unique(ids)| <==> forall id :: id in ids ==> id in runs
  {
    var unique := Unique(ids);
    hide Unique;
    ElementCount(order);
    ElementCount(unique);
    assert Elements(order) <= Elements(unique);
    if |order| == |unique| {
      SameElements(order, unique);
    }
    if forall id :: id in ids ==> id in runs {
      assert Elements(unique) == Elements(order);
    }
  }

  lemma {:induction false} FirstProblemIs(areaId: nat, plans: map<nat, Plan>, runs: seq<Run>, k: nat)
    requires k < |runs| && RunProblem(areaId, plans, runs[k]).Some?
    requires forall j :: 0 <= j < k ==> RunProblem(areaId, plans, runs[j]).None?
    ensures FirstProblem(areaId, plans, runs) == RunProblem(areaId, plans, runs[k])
  {
    hide RunProblem;
    var upTo := runs[..k + 1];
    assert upTo[..|upTo| - 1] == runs[..k];
    assert forall j :: 0 <= j < k ==> runs[..k][j] == runs[j];
    FirstProblemFound(areaId, plans, runs, k + 1);
  }

  /** A detection that does not come to a lookup, and why: the first that applies of key length, area,
      coordinate system, a missing run and, in the order the runs came, the first run that cannot be used. */
  lemma DetectRefused(digest: RunSource -> string, db: Db, r: Request, choice: Choice, later: Db, reply: Reply, k: nat)
    requires r.DetectGap? && choice.newId !in db.gaps && Selects(choice.order, r.runIds, db.runs)
    requires Serves(digest, db, r, choice, later, reply)
    ensures |r.idempotencyKey| < 8 || |r.idempotencyKey| > 120 ==> reply == Failed(KeyLength) && later == db
    ensures 8 <= |r.idempotencyKey| <= 120 && r.areaId !in db.areas ==> reply == Failed(NotFound) && later == db
    ensures 8 <= |r.idempotencyKey| <= 120 && r.areaId in db.areas && !Projected(db.areas[r.areaId].fields.crs) ==>
              reply == Failed(CoordinateSystemInvalid) && later == db
    ensures ReachesRuns(db, r) && (exists id :: id in r.runIds && id !in db.runs) ==>
              reply == Failed(RunSetIncomplete) && later == db
    ensures ReachesRuns(db, r) && (forall id :: id in r.runIds ==> id in db.runs) &&
            k < |choice.order| && !Usable(db, r.areaId, choice.order[k]) &&
            (forall j :: 0 <= j < k ==> Usable(db, r.areaId, choice.order[j])) ==>
              later == db &&
              reply == Failed(if !OfArea(db, db.runs[choice.order[k]], r.areaId) then RunAreaMismatch
                              else if db.runs[choice.order[k]].state != RunState.Processed then RunNotProcessed
                              else LinesInvalid)
  {
    hide Serves, Projected, Usable, RunProblem, FirstProblem, Unique, Measure, KeyFor;
    var rows := RowsOf(choice.order, db.runs);
    AllStored(choice.order, r.runIds, db.runs);
    if |r.idempotencyKey| < 8 || |r.idempotencyKey| > 120 {
      Refused(digest, db, r, choice, later, reply, KeyLength);
    } else if r.areaId !in db.areas {
      Refused(digest, db, r, choice, later, reply, NotFound);
    } else if !Projected(db.areas[r.areaId].fields.crs) {
      Refused(digest, db, r, choice, later, reply, CoordinateSystemInvalid);
    } else if exists id :: id in r.runIds && id !in db.runs {
      Refused(digest, db, r, choice, later, reply, RunSetIncomplete);
    } else if k < |choice.order| && !Usable(db, r.areaId, choice.order[k]) &&
              (forall j :: 0 <= j < k ==> Usable(db, r.areaId, choice.order[j])) {
      forall j | 0 <= j <= k
        ensures choice.order[j] in db.runs
        ensures RunProblem(r.areaId, db.plans, rows[j]).Some? <==> j == k
      {
        assert choice.order[j] in choice.order;
        UsableIsNoProblem(db, r.areaId, choice.order[j]);
      }
      FirstProblemIs(r.areaId, db.plans, rows, k);
      UsableIsNoProblem(db, r.areaId, choice.order[k]);
      Refused(digest, db, r, choice, later, reply, FirstProblem(r.areaId, db.plans, rows).value);
    }
  }

  lemma Refused(digest: RunSource -> string, db: Db, r: Request, choice: Choice, later: Db, reply: Reply,
                failure: Failure)
    requires r.DetectGap? && choice.newId !in db.gaps && Selects(choice.order, r.runIds, db.runs)
    requires Serves(digest, db, r, choice, later, reply)
    requires var m1 := AdvanceDetect(db, Arrived(r), choice);
             m1.call == Replied(Failed(failure)) ||
             (m1.call.AreaFetched? &&
              AdvanceDetect(db, RunsFetched(r, db.areas[r.areaId], choice.order, RowsOf(choice.order, db.runs)),
                            choice).call == Replied(Failed(failure)))
    ensures reply == Failed(failure) && later == db
  {
    hide Serves, Projected, FirstProblem, Unique, Measure, KeyFor, Selects;
    DetectServed(digest, db, r, choice, db, Failed(failure));
    SameOutcome(digest, db, r, choice, later, reply, db, Failed(failure));
  }

  /** The key names this area, coordinate system, algorithm and resolution and these checksums, in order. */
  ghost predicate Names(key: InputKey, r: Request, crs: string, resolution: real, runs: seq<Run>)
    requires r.DetectGap?
  {
    key.areaId == r.areaId && key.crs == crs && key.algorithm == r.algorithm && key.resolution == resolution &&
    Ordered(key.checksums) && multiset(key.checksums) == multiset(Checksums(runs))
  }

  lemma NamedKey(key: InputKey, r: Request, area: Area, resolution: real, runs: seq<Run>)
    requires r.DetectGap? && resolution == if r.resolution != 0.0 then r.resolution else area.fields.targetResolution
    ensures Names(key, r, area.fields.crs, resolution, runs) <==> key == KeyFor(r, area, runs)
  {
    hide Ordered, Sorted;
    SortedIsOrderedPermutation(Checksums(runs));
    if Names(key, r, area.fields.crs, resolution, runs) {
      OrderedUnique(key.checksums, Sorted(Checksums(runs)));
    }
  }

  ghost predicate SomeNamed(db: Db, r: Request, crs: string, resolution: real, runs: seq<Run>)
    requires r.DetectGap?
  {
    exists id :: id in db.gaps && Names(db.gaps[id].key, r, crs, resolution, runs)
  }

  /** The row a detection stores, column by column. */
  ghost predicate StoredAs(g: Gap, r: Request, crs: string, resolution: real, runs: seq<Run>, m: CoverageResult)
    requires r.DetectGap?
  {
    g.areaId == r.areaId && g.algorithm == r.algorithm && g.explanation == r.summary &&
    g.state == Detected && g.version == 1 && Names(g.key, r, crs, resolution, runs) &&
    (forall id :: id in g.sourceRunIds <==> id in r.runIds) && NoDuplicates(g.sourceRunIds) &&
    g.findings.gap == m.artifacts.gap && g.findings.recommended == m.artifacts.recommended &&
    g.findings.gapRatio == m.gapRatio && g.findings.coverageRatio == m.coverageRatio &&
    g.findings.overlapRatio == m.overlapRatio && g.findings.gapArea == m.area * m.gapRatio &&
    g.findings.severity == SeverityForRatio(m.gapRatio)
  }

  /** A detection whose runs can all be used is measured and keyed at the resolution it asks for, or at the
      area's if it asks for none. If a gap with that input is stored, that gap is the answer; otherwise the
      boundary is measured with the tracks of the runs, and what that gives is stored and answered. */
  lemma DetectOutcome(digest: RunSource -> string, db: Db, r: Request, choice: Choice, later: Db, reply: Reply)
    requires ReachesRuns(db, r) && (forall id :: id in r.runIds ==> Usable(db, r.areaId, id))
    requires choice.newId !in db.gaps && Selects(choice.order, r.runIds, db.runs)
    requires Serves(digest, db, r, choice, later, reply)
    ensures var area, runs := db.areas[r.areaId], RowsOf(choice.order, db.runs);
            var resolution := if r.resolution != 0.0 then r.resolution else area.fields.targetResolution;
            var crs, boundary := area.fields.crs, area.fields.boundary;
            var measured := Measure(boundary, TracksOf(choice.order, runs), resolution);
            if SomeNamed(db, r, crs, resolution, runs) then
              later == db && reply.GapReply? && reply.idempotent && reply.gapId in db.gaps &&
              reply.gap == db.gaps[reply.gapId] && Names(reply.gap.key, r, crs, resolution, runs)
            else if !ValidPolygon(boundary) then reply == Failed(Failure.BoundaryInvalid) && later == db
            else if measured.Err? then reply == Failed(CalculationInvalid(measured.error)) && later == db
            else
              reply.GapReply? && !reply.idempotent && reply.gapId == choice.newId &&
              later == db.(gaps := db.gaps[choice.newId := reply.gap]) &&
              StoredAs(reply.gap, r, crs, resolution, runs, measured.value)
  {
    hide Serves, Projected, Unique, Measure, KeyFor, ValidPolygon, Usable, StoredAs, Names, SomeNamed, NoDuplicates;
    var area, runs := db.areas[r.areaId], RowsOf(choice.order, db.runs);
    var resolution := if r.resolution != 0.0 then r.resolution else area.fields.targetResolution;
    InputFound(db, r, area, resolution, runs);
    if SomeNamed(db, r, area.fields.crs, resolution, runs) {
      DetectFinds(digest, db, r, choice, later, reply);
      NamedKey(reply.gap.key, r, area, resolution, runs);
    } else {
      DetectComputes(digest, db, r, choice, later, reply);
    }
  }

  lemma InputFound(db: Db, r: Request, area: Area, resolution: real, runs: seq<Run>)
    requires r.DetectGap? && resolution == if r.resolution != 0.0 then r.resolution else area.fields.targetResolution
    ensures SomeNamed(db, r, area.fields.crs, resolution, runs) <==> KeyTaken(db, KeyFor(r, area, runs))
  {
    hide Names, KeyFor;
    forall id | id in db.gaps
      ensures Names(db.gaps[id].key, r, area.fields.crs, resolution, runs) <==> db.gaps[id].key == KeyFor(r, area, runs)
    {
      NamedKey(db.gaps[id].key, r, area, resolution, runs);
    }
  }

  /** Past the runs only the lookup and the computation are left. */
  lemma FromTheLookup(digest: RunSource -> string, db: Db, r: Request, choice: Choice, later: Db, reply: Reply)
    requires ReachesRuns(db, r) && (forall id :: id in r.runIds ==> Usable(db, r.areaId, id))
    requires choice.newId !in db.gaps && Selects(choice.order, r.runIds, db.runs)
    requires var area, runs := db.areas[r.areaId], RowsOf(choice.order, db.runs);
             var m4 := AdvanceDetect(db, RunsChecked(r, area, choice.order, runs), choice);
             if m4.call.Replied? then m4.db == later && m4.call.reply == reply
             else
               var m5 := AdvanceDetect(db, KeyMissing(r, area, choice.order, runs), choice);
               m5.db == later && m5.call == Replied(reply)
    ensures Serves(digest, db, r, choice, later, reply)
  {
    var area, runs := db.areas[r.areaId], RowsOf(choice.order, db.runs);
    AllStored(choice.order, r.runIds, db.runs);
    NoProblems(db, r, choice.order);
    hide Serves, Projected, FirstProblem, Unique, Measure, KeyFor, ValidPolygon, Selects, GapRow, KeyTaken, GapByKey;
    assert forall id :: id in r.runIds ==> id in db.runs;
    hide Usable;
    assert AdvanceDetect(db, Arrived(r), choice) == Move(db, AreaFetched(r, area), Silent);
    assert AdvanceDetect(db, RunsFetched(r, area, choice.order, runs), choice)
        == Move(db, RunsChecked(r, area, choice.order, runs), Silent);
    DetectServed(digest, db, r, choice, later, reply);
  }

  lemma DetectFinds(digest: RunSource -> string, db: Db, r: Request, choice: Choice, later: Db, reply: Reply)
    requires ReachesRuns(db, r) && (forall id :: id in r.runIds ==> Usable(db, r.areaId, id))
    requires choice.newId !in db.gaps && Selects(choice.order, r.runIds, db.runs)
    requires Serves(digest, db, r, choice, later, reply)
    requires KeyTaken(db, KeyFor(r, db.areas[r.areaId], RowsOf(choice.order, db.runs)))
    ensures later == db && reply.GapReply? && reply.idempotent && reply.gapId in db.gaps
    ensures reply.gap == db.gaps[reply.gapId]
    ensures reply.gap.key == KeyFor(r, db.areas[r.areaId], RowsOf(choice.order, db.runs))
  {
    hide Serves, Projected, FirstProblem, Unique, Measure, KeyFor, ValidPolygon, NoDuplicates, Usable;
    var id := GapByKey(db, KeyFor(r, db.areas[r.areaId], RowsOf(choice.order, db.runs))).value;
    FromTheLookup(digest, db, r, choice, db, GapReply(id, db.gaps[id], true));
    SameOutcome(digest, db, r, choice, later, reply, db, GapReply(id, db.gaps[id], true));
  }

  lemma DetectComputes(digest: RunSource -> string, db: Db, r: Request, choice: Choice, later: Db, reply: Reply)
    requires ReachesRuns(db, r) && (forall id :: id in r.runIds ==> Usable(db, r.areaId, id))
    requires choice.newId !in db.gaps && Selects(choice.order, r.runIds, db.runs)
    requires Serves(digest, db, r, choice, later, reply)
    requires !KeyTaken(db, KeyFor(r, db.areas[r.areaId], RowsOf(choice.order, db.runs)))
    ensures var area, runs := db.areas[r.areaId], RowsOf(choice.order, db.runs);
            var resolution := if r.resolution != 0.0 then r.resolution else area.fields.targetResolution;
            var measured := Measure(area.fields.boundary, TracksOf(choice.order, runs), resolution);
            if !ValidPolygon(area.fields.boundary) then reply == Failed(Failure.BoundaryInvalid) && later == db
            else if measured.Err? then reply == Failed(CalculationInvalid(measured.error)) && later == db
            else
              reply.GapReply? && !reply.idempotent && reply.gapId == choice.newId &&
              later == db.(gaps := db.gaps[choice.newId := reply.gap]) &&
              StoredAs(reply.gap, r, area.fields.crs, resolution, runs, measured.value)
  {
    hide Serves, Projected, FirstProblem, Unique, Measure, KeyFor, ValidPolygon, NoDuplicates, Usable, StoredAs;
    var area, runs := db.areas[r.areaId], RowsOf(choice.order, db.runs);
    var resolution := if r.resolution != 0.0 then r.resolution else area.fields.targetResolution;
    var measured := Measure(area.fields.boundary, TracksOf(choice.order, runs), resolution);
    var end, answer := db, Failed(Failure.BoundaryInvalid);
    if !ValidPolygon(area.fields.boundary) {
    } else if measured.Err? {
      answer := Failed(CalculationInvalid(measured.error));
    } else {
      var row := GapRow(r, KeyFor(r, area, runs), measured.value);
      RowStored(r, area, resolution, runs, measured.value);
      end, answer := db.(gaps := db.gaps[choice.newId := row]), GapReply(choice.newId, row, false);
    }
    FromTheLookup(digest, db, r, choice, end, answer);
    SameOutcome(digest, db, r, choice, later, reply, end, answer);
  }

  lemma RowStored(r: Request, area: Area, resolution: real, runs: seq<Run>, m: CoverageResult)
    requires r.DetectGap? && resolution == if r.resolution != 0.0 then r.resolution else area.fields.targetResolution
    ensures StoredAs(GapRow(r, KeyFor(r, area, runs), m), r, area.fields.crs, resolution, runs, m)
  {
    NamedKey(KeyFor(r, area, runs), r, area, resolution, runs);
    assert NoDuplicates(Unique(r.runIds));
    hide Names, KeyFor, NoDuplicates, SeverityForRatio;
  }

  lemma NoProblems(db: Db, r: Request, order: seq<nat>)
    requires r.DetectGap? && Selects(order, r.runIds, db.runs)
    requires forall id :: id in r.runIds ==> Usable(db, r.areaId, id)
    ensures FirstProblem(r.areaId, db.plans, RowsOf(order, db.runs)).None?
  {
    hide Usable, RunProblem;
    forall i | 0 <= i < |order| ensures RunProblem(r.areaId, db.plans, RowsOf(order, db.runs)[i]).None? {
      assert order[i] in order;
      UsableIsNoProblem(db, r.areaId, order[i]);
    }
  }
}
