/** The service objects in the source's own form: read, check, write, read back. Each method is proved
    to do what the interleaved steps of its call do when no other call comes between them. */
module Services {
  import opened Outcome
  import opened Segments
  import opened Rings
  import opened Coverage
  import opened RealMath
  import opened TransectLines
  import opened CoordinateSystems
  import opened States
  import opened InputKeys
  import opened Store
  import opened Workflow

  // ---- A call left alone ----

  datatype Standing = Standing(db: Db, call: Call)

  /** Where a call stands after `n` of its statements with nothing in between. */
  ghost function Alone(digest: RunSource -> string, at: Standing, choice: Choice, n: nat): Standing
    decreases n
  {
    if n == 0 then at
    else
      var m := Advance(digest, at.db, at.call, choice);
      Alone(digest, Standing(m.db, m.call), choice, n - 1)
  }

  ghost predicate Finishes(digest: RunSource -> string, at: Standing, choice: Choice, db: Db, reply: Reply) {
    exists n: nat :: Alone(digest, at, choice, n) == Standing(db, Replied(reply))
  }

  lemma Answered(digest: RunSource -> string, choice: Choice, db: Db, reply: Reply)
    ensures Finishes(digest, Standing(db, Replied(reply)), choice, db, reply)
  {
    assert Alone(digest, Standing(db, Replied(reply)), choice, 0) == Standing(db, Replied(reply));
  }

  lemma OneStatement(digest: RunSource -> string, at: Standing, choice: Choice, m: Move, db: Db, reply: Reply)
    requires m == Advance(digest, at.db, at.call, choice)
    requires Finishes(digest, Standing(m.db, m.call), choice, db, reply)
    ensures Finishes(digest, at, choice, db, reply)
  {
    hide Advance;
    var n: nat :| Alone(digest, Standing(m.db, m.call), choice, n) == Standing(db, Replied(reply));
    assert Alone(digest, at, choice, n + 1) == Standing(db, Replied(reply));
  }

  lemma {:induction false} StaysAnswered(digest: RunSource -> string, choice: Choice, db: Db, reply: Reply, n: nat)
    ensures Alone(digest, Standing(db, Replied(reply)), choice, n) == Standing(db, Replied(reply))
  {
    if n > 0 {
      assert Advance(digest, db, Replied(reply), choice) == Move(db, Replied(reply), Silent);
      StaysAnswered(digest, choice, db, reply, n - 1);
    }
  }

  /** A call left alone has one outcome. */
  lemma {:induction false} OneOutcome(digest: RunSource -> string, at: Standing, choice: Choice, m: nat, n: nat,
                                      db: Db, reply: Reply, db': Db, reply': Reply)
    requires Alone(digest, at, choice, m) == Standing(db, Replied(reply))
    requires Alone(digest, at, choice, n) == Standing(db', Replied(reply'))
    ensures db == db' && reply == reply'
    decreases m
  {
    hide Advance;
    if m == 0 {
      StaysAnswered(digest, choice, db, reply, n);
    } else if n == 0 {
      StaysAnswered(digest, choice, db', reply', m);
    } else {
      var s := Advance(digest, at.db, at.call, choice);
      OneOutcome(digest, Standing(s.db, s.call), choice, m - 1, n - 1, db, reply, db', reply');
    }
  }

  /** The outcome of a request served alone. */
  ghost predicate Serves(digest: RunSource -> string, db: Db, r: Request, choice: Choice, later: Db, reply: Reply) {
    Finishes(digest, Standing(db, Arrived(r)), choice, later, reply)
  }

  ghost function Next(digest: RunSource -> string, m: Move, choice: Choice): Move {
    Advance(digest, m.db, m.call, choice)
  }

  /** No service takes more than five statements; one that takes fewer has its reply earlier. */
  lemma FiveStatements(digest: RunSource -> string, db: Db, r: Request, choice: Choice, m1: Move, m2: Move, m3: Move,
                       m4: Move)
    requires m1 == Advance(digest, db, Arrived(r), choice) && m2 == Next(digest, m1, choice)
    requires m3 == Next(digest, m2, choice) && m4 == Next(digest, m3, choice)
    requires Next(digest, m4, choice).call.Replied?
    ensures Serves(digest, db, r, choice, Next(digest, m4, choice).db, Next(digest, m4, choice).call.reply)
  {
    hide Advance, Finishes;
    var m5 := Next(digest, m4, choice);
    Answered(digest, choice, m5.db, m5.call.reply);
    OneStatement(digest, Standing(m4.db, m4.call), choice, m5, m5.db, m5.call.reply);
    OneStatement(digest, Standing(m3.db, m3.call), choice, m4, m5.db, m5.call.reply);
    OneStatement(digest, Standing(m2.db, m2.call), choice, m3, m5.db, m5.call.reply);
    OneStatement(digest, Standing(m1.db, m1.call), choice, m2, m5.db, m5.call.reply);
    OneStatement(digest, Standing(db, Arrived(r)), choice, m1, m5.db, m5.call.reply);
  }

  // ---- Gap reviews ----

  lemma ReviewServed(digest: RunSource -> string, db: Db, r: Request, choice: Choice, later: Db, reply: Reply)
    requires r.ReviewGap?
    requires var m1 := AdvanceReview(db, Arrived(r));
             if m1.call.Replied? then m1.db == later && m1.call.reply == reply
             else
               var m2 := AdvanceReview(m1.db, m1.call);
               if m2.call.Replied? then m2.db == later && m2.call.reply == reply
               else later == m2.db && r.gapId in later.gaps && reply == GapReply(r.gapId, later.gaps[r.gapId], false)
    ensures Serves(digest, db, r, choice, later, reply)
  {
    hide AdvanceMove, AdvanceImport, AdvanceDetect, AdvancePlan, AdvanceCreatePlan, AdvanceArea, Serves;
    var m1 := Advance(digest, db, Arrived(r), choice);
    var m2 := Next(digest, m1, choice);
    var m3 := Next(digest, m2, choice);
    var m4 := Next(digest, m3, choice);
    FiveStatements(digest, db, r, choice, m1, m2, m3, m4);
  }

  // ---- Gap detection ----

  /** First occurrences, kept by a set of those seen. */
  method UniqueIds(values: seq<nat>) returns (result: seq<nat>)
    ensures result == Unique(values)
  {
    var seen := {};
    result := [];
    for i := 0 to |values|
      invariant result == Unique(values[..i])
      invariant forall v :: v in seen <==> v in values[..i]
    {
      assert values[..i + 1][..i] == values[..i];
      if values[i] !in seen {
        seen := seen + {values[i]};
        result := result + [values[i]];
      }
    }
    assert values[..|values|] == values;
  }

  /** The loop over the fetched runs: stops at the first problem, otherwise gathers checksums and tracks. */
  method Gather(areaId: nat, plans: map<nat, Plan>, order: seq<nat>, runs: seq<Run>)
    returns (problem: Option<Failure>, checksums: seq<string>, tracks: seq<Track>)
    requires |order| == |runs|
    ensures problem == FirstProblem(areaId, plans, runs)
    ensures problem.None? ==> checksums == Checksums(runs) && tracks == TracksOf(order, runs)
  {
    hide ValidLines;
    checksums, tracks := [], [];
    for i := 0 to |runs|
      invariant FirstProblem(areaId, plans, runs[..i]).None?
      invariant checksums == Checksums(runs[..i]) && tracks == TracksOf(order[..i], runs[..i])
    {
      var run := runs[i];
      assert runs[..i + 1][..i] == runs[..i];
      problem := None;
      if run.planId !in plans || plans[run.planId].areaId != areaId {
        problem := Some(RunAreaMismatch);
      } else if run.state != RunState.Processed {
        problem := Some(RunNotProcessed);
      } else if !ValidLines(run.track) {
        problem := Some(LinesInvalid);
      }
      if problem.Some? {
        FirstProblemFound(areaId, plans, runs, i + 1);
        return;
      }
      checksums := checksums + [run.checksum];
      tracks := tracks + [Track(order[i], run.track, run.swath)];
    }
    problem := None;
    assert runs[..|runs|] == runs && order[..|order|] == order;
  }

  /** A problem found in a front of the runs is the problem of them all. */
  lemma {:induction false} FirstProblemFound(areaId: nat, plans: map<nat, Plan>, runs: seq<Run>, n: nat)
    requires n <= |runs| && FirstProblem(areaId, plans, runs[..n]).Some?
    ensures FirstProblem(areaId, plans, runs) == FirstProblem(areaId, plans, runs[..n])
  {
    hide RunProblem;
    if n == |runs| {
      assert runs[..n] == runs;
    } else {
      var front := runs[..|runs| - 1];
      assert front[..n] == runs[..n];
      FirstProblemFound(areaId, plans, front, n);
    }
  }

  lemma DetectServed(digest: RunSource -> string, db: Db, r: Request, choice: Choice, later: Db, reply: Reply)
    requires r.DetectGap? && choice.newId !in db.gaps
    requires AdvanceDetect(db, Arrived(r), choice).call.Replied? || Selects(choice.order, r.runIds, db.runs)
    requires var m1 := AdvanceDetect(db, Arrived(r), choice);
             if m1.call.Replied? then m1.db == later && m1.call.reply == reply
             else
               var area, runs := db.areas[r.areaId], RowsOf(choice.order, db.runs);
               var m3 := AdvanceDetect(db, RunsFetched(r, area, choice.order, runs), choice);
               if m3.call.Replied? then m3.db == later && m3.call.reply == reply
               else
                 var m4 := AdvanceDetect(db, RunsChecked(r, area, choice.order, runs), choice);
                 if m4.call.Replied? then m4.db == later && m4.call.reply == reply
                 else
                   var m5 := AdvanceDetect(db, KeyMissing(r, area, choice.order, runs), choice);
                   m5.db == later && m5.call == Replied(reply)
    ensures Serves(digest, db, r, choice, later, reply)
  {
    hide Advance, Serves, Selects, Measure, Unique, KeyFor, ValidPolygon, FindingsOf, FirstProblem, Projected;
    var m1 := Advance(digest, db, Arrived(r), choice);
    var m2 := Next(digest, m1, choice);
    var m3 := Next(digest, m2, choice);
    var m4 := Next(digest, m3, choice);
    DetectDispatch(digest, db, Arrived(r), choice);
    if m1.call.Replied? {
      RepliedStays(digest, m1, choice);
    } else {
      DetectDispatch(digest, db, m1.call, choice);
      DetectDispatch(digest, db, m2.call, choice);
      if m3.call.Replied? {
        RepliedStays(digest, m3, choice);
      } else {
        DetectDispatch(digest, db, m3.call, choice);
        if m4.call.Replied? {
          RepliedStays(digest, m4, choice);
        } else {
          DetectDispatch(digest, db, m4.call, choice);
        }
      }
    }
    FiveStatements(digest, db, r, choice, m1, m2, m3, m4);
  }

  lemma RepliedStays(digest: RunSource -> string, m: Move, choice: Choice)
    requires m.call.Replied?
    ensures Next(digest, m, choice) == Move(m.db, m.call, Silent)
  {
  }

  class CoverageGapService {
    const repository: Repository

    constructor (repository: Repository)
      ensures this.repository == repository
    {
      this.repository := repository;
    }

    /** Reads the area and runs, checks them, looks the canonical input up, and otherwise computes and stores. */
    method Detect(r: Request, ghost digest: RunSource -> string) returns (reply: Reply)
      requires repository.Valid() && r.DetectGap?
      modifies repository
      ensures repository.Valid()
      ensures exists order :: Serves(digest, old(repository.Contents()), r, Choice(old(repository.nextId), order),
                                     repository.Contents(), reply)
    {
      hide Serves, ValidPolygon, Measure, FindingsOf, FirstProblem, Unique, UniqueIndexes, KeyTaken, Selects, Sorted,
           Projected;
      ghost var start, choice := repository.Contents(), Choice(repository.nextId, []);
      if |r.idempotencyKey| < 8 || |r.idempotencyKey| > 120 {
        reply := Failed(KeyLength);
      } else if r.areaId !in repository.areas {
        reply := Failed(NotFound);
      } else if !Projected(repository.areas[r.areaId].fields.crs) {
        reply := Failed(CoordinateSystemInvalid);
      } else {
        var area := repository.areas[r.areaId];
        var order, runs := repository.ByIds(r.runIds);
        choice := Choice(choice.newId, order);
        var ids := UniqueIds(r.runIds);
        var problem, checksums, tracks := Gather(r.areaId, repository.plans, order, runs);
        if |runs| != |ids| {
          reply := Failed(RunSetIncomplete);
        } else if problem.Some? {
          reply := Failed(problem.value);
        } else {
          var resolution := if r.resolution == 0.0 then area.fields.targetResolution else r.resolution;
          var key := StableInputKey(r.areaId, area.fields.crs, r.algorithm, checksums, resolution);
          var existing := repository.ByInputHash(key);
          if existing.Some? {
            reply := GapReply(existing.value, repository.gaps[existing.value], true);
            TheStoredGap(repository.Contents(), key, existing.value);
          } else {
            var valid := ValidatePolygon(area.fields.boundary);
            if valid.Err? {
              reply := Failed(Failure.BoundaryInvalid);
            } else {
              var result := CalculateCoverage(area.fields.boundary, tracks, resolution);
              if result.Err? {
                reply := Failed(CalculationInvalid(result.error));
              } else {
                var row := Gap(r.areaId, ids, FindingsOf(result.value), r.algorithm, key, Detected, r.summary, 1);
                var id, created := repository.CreateGap(row);
                reply := if created then GapReply(id, row, false) else Failed(Duplicate);
              }
            }
          }
        }
      }
      DetectServed(digest, start, r, choice, repository.Contents(), reply);
    }

    /** Read, check, conditional update with the note appended to what was read, read back. */
    method Transition(r: Request, ghost digest: RunSource -> string, ghost choice: Choice) returns (reply: Reply)
      requires repository.Valid() && r.ReviewGap?
      modifies repository
      ensures repository.Valid()
      ensures Serves(digest, old(repository.Contents()), r, choice, repository.Contents(), reply)
    {
      hide Serves;
      ghost var start := repository.Contents();
      if r.gapId !in repository.gaps {
        reply := Failed(NotFound);
      } else {
        var before := repository.gaps[r.gapId];
        if r.gapTarget !in GapTargets(before.state) {
          reply := Failed(GapTransitionInvalid);
        } else {
          var explanation := before.explanation + REVIEW_MARK + r.note;
          var affected := repository.TransitionGapRow(r.gapId, r.expected, before.state, r.gapTarget, explanation);
          if affected {
            reply := GapReply(r.gapId, repository.gaps[r.gapId], false);
          } else {
            reply := Failed(VersionConflict);
          }
        }
      }
      ReviewServed(digest, start, r, choice, repository.Contents(), reply);
    }
  }

  // ---- Runs ----

  lemma MoveServed(digest: RunSource -> string, db: Db, r: Request, choice: Choice, later: Db, reply: Reply)
    requires r.MoveRun?
    requires var m1 := AdvanceMove(db, Arrived(r));
             if m1.call.Replied? then m1.db == later && m1.call.reply == reply
             else
               var m2 := AdvanceMove(m1.db, m1.call);
               if m2.call.Replied? then m2.db == later && m2.call.reply == reply
               else later == m2.db && r.runId in later.runs && reply == RunReply(r.runId, later.runs[r.runId], false)
    ensures Serves(digest, db, r, choice, later, reply)
  {
    hide AdvanceReview, AdvanceImport, AdvanceDetect, AdvancePlan, AdvanceCreatePlan, AdvanceArea, Serves;
    var m1 := Advance(digest, db, Arrived(r), choice);
    var m2 := Next(digest, m1, choice);
    var m3 := Next(digest, m2, choice);
    var m4 := Next(digest, m3, choice);
    FiveStatements(digest, db, r, choice, m1, m2, m3, m4);
  }

  lemma ImportServed(digest: RunSource -> string, db: Db, r: Request, choice: Choice, later: Db, reply: Reply)
    requires r.ImportRun? && choice.newId !in db.runs
    requires var m1 := AdvanceImport(digest, db, Arrived(r), choice);
             if m1.call.Replied? then m1.db == later && m1.call.reply == reply
             else
               var m2 := AdvanceImport(digest, m1.db, m1.call, choice);
               if m2.call.Replied? then m2.db == later && m2.call.reply == reply
               else
                 var m3 := AdvanceImport(digest, m2.db, m2.call, choice);
                 if m3.call.Replied? then m3.db == later && m3.call.reply == reply
                 else later == m3.db && reply == RunReply(choice.newId, later.runs[choice.newId], false)
    ensures Serves(digest, db, r, choice, later, reply)
  {
    hide AdvanceReview, AdvanceMove, AdvanceDetect, AdvancePlan, AdvanceCreatePlan, AdvanceArea, Serves, ValidLines,
         Milli;
    var m1 := Advance(digest, db, Arrived(r), choice);
    var m2 := Next(digest, m1, choice);
    var m3 := Next(digest, m2, choice);
    var m4 := Next(digest, m3, choice);
    FiveStatements(digest, db, r, choice, m1, m2, m3, m4);
  }

  class SonarRunService {
    const repository: Repository
    const digest: RunSource -> string

    constructor (repository: Repository, digest: RunSource -> string)
      ensures this.repository == repository && this.digest == digest
    {
      this.repository, this.digest := repository, digest;
    }

    method Import(r: Request) returns (reply: Reply)
      requires repository.Valid() && r.ImportRun?
      modifies repository
      ensures repository.Valid()
      ensures exists order :: Serves(digest, old(repository.Contents()), r, Choice(old(repository.nextId), order),
                                     repository.Contents(), reply)
    {
      hide Serves, ValidLines, Milli;
      ghost var start, choice := repository.Contents(), Choice(repository.nextId, []);
      if r.planId !in repository.plans {
        reply := Failed(NotFound);
      } else if repository.plans[r.planId].state != Locked {
        reply := Failed(PlanNotLocked);
      } else if !ValidLines(r.track) {
        reply := Failed(LinesInvalid);
      } else if r.endedAt <= r.startedAt {
        reply := Failed(RunTimeInvalid);
      } else {
        var checksum := digest(SourceOfImport(r));
        var existing := repository.ByChecksum(checksum);
        if existing.Some? {
          reply := RunReply(existing.value, repository.runs[existing.value], true);
        } else {
          var row := Run(r.planId, r.code, r.track, r.swath, r.startedAt, r.endedAt, r.quality, Imported, checksum,
                         r.actor, 1);
          var id, created := repository.CreateRun(row);
          reply := if created then RunReply(id, repository.runs[id], false) else Failed(Duplicate);
        }
      }
      ImportServed(digest, start, r, choice, repository.Contents(), reply);
    }

    method Transition(r: Request, ghost choice: Choice) returns (reply: Reply)
      requires repository.Valid() && r.MoveRun?
      modifies repository
      ensures repository.Valid()
      ensures Serves(digest, old(repository.Contents()), r, choice, repository.Contents(), reply)
    {
      hide Serves;
      ghost var start := repository.Contents();
      if r.runId !in repository.runs {
        reply := Failed(NotFound);
      } else {
        var before := repository.runs[r.runId];
        if r.runTarget !in RunTargets(before.state) {
          reply := Failed(RunTransitionInvalid);
        } else if r.runTarget == QualityChecked && before.quality == Invalid {
          reply := Failed(NavigationInvalid);
        } else if r.runTarget == Rejected && |r.reason| < 4 {
          reply := Failed(ReasonRequired);
        } else {
          var affected := repository.TransitionRunRow(r.runId, r.expected, before.state, r.runTarget);
          reply := if affected then RunReply(r.runId, repository.runs[r.runId], false) else Failed(VersionConflict);
        }
      }
      MoveServed(digest, start, r, choice, repository.Contents(), reply);
    }
  }

  // ---- Plans ----

  lemma PlanServed(digest: RunSource -> string, db: Db, r: Request, choice: Choice, later: Db, reply: Reply)
    requires (r.UpdatePlan? || r.LockPlan? || r.CopyPlan?) && choice.newId !in db.plans
    requires var m1 := AdvancePlan(db, Arrived(r), choice);
             if m1.call.Replied? then m1.db == later && m1.call.reply == reply
             else
               var m2 := AdvancePlan(m1.db, m1.call, choice);
               if m2.call.Replied? then m2.db == later && m2.call.reply == reply
               else later == m2.db && r.planId in later.plans && reply == PlanReply(r.planId, later.plans[r.planId])
    ensures Serves(digest, db, r, choice, later, reply)
  {
    hide AdvanceReview, AdvanceMove, AdvanceImport, AdvanceDetect, AdvanceCreatePlan, AdvanceArea, Serves, ValidLines;
    var m1 := Advance(digest, db, Arrived(r), choice);
    var m2 := Next(digest, m1, choice);
    var m3 := Next(digest, m2, choice);
    var m4 := Next(digest, m3, choice);
    FiveStatements(digest, db, r, choice, m1, m2, m3, m4);
  }

  lemma CreatePlanServed(digest: RunSource -> string, db: Db, r: Request, choice: Choice, later: Db, reply: Reply)
    requires r.CreatePlan? && choice.newId !in db.plans
    requires var m1 := AdvanceCreatePlan(db, Arrived(r), choice);
             if m1.call.Replied? then m1.db == later && m1.call.reply == reply
             else
               var m2 := AdvanceCreatePlan(m1.db, m1.call, choice);
               later == m2.db && choice.newId in later.plans &&
               reply == PlanReply(choice.newId, later.plans[choice.newId])
    ensures Serves(digest, db, r, choice, later, reply)
  {
    hide AdvanceReview, AdvanceMove, AdvanceImport, AdvanceDetect, AdvancePlan, AdvanceArea, Serves, ValidLines;
    var m1 := Advance(digest, db, Arrived(r), choice);
    var m2 := Next(digest, m1, choice);
    var m3 := Next(digest, m2, choice);
    var m4 := Next(digest, m3, choice);
    FiveStatements(digest, db, r, choice, m1, m2, m3, m4);
  }

  datatype Generated = Refused(error: GenerateError) | AreaMissing | Asked(request: Request, reply: Reply)

  class TransectPlanService {
    const repository: Repository

    constructor (repository: Repository)
      ensures this.repository == repository
    {
      this.repository := repository;
    }

    method Create(r: Request, ghost digest: RunSource -> string) returns (reply: Reply)
      requires repository.Valid() && r.CreatePlan?
      modifies repository
      ensures repository.Valid()
      ensures exists order :: Serves(digest, old(repository.Contents()), r, Choice(old(repository.nextId), order),
                                     repository.Contents(), reply)
    {
      hide Serves, ValidLines;
      ghost var start, choice := repository.Contents(), Choice(repository.nextId, []);
      if r.areaId !in repository.areas {
        reply := Failed(NotFound);
      } else if repository.areas[r.areaId].fields.status == AreaArchived {
        reply := Failed(AreaIsArchived);
      } else if !ValidLines(r.planFields.lines) {
        reply := Failed(LinesInvalid);
      } else {
        var id := repository.CreatePlanRow(Plan(r.areaId, r.planFields, Draft, 1, r.actor));
        reply := PlanReply(id, repository.plans[id]);
      }
      CreatePlanServed(digest, start, r, choice, repository.Contents(), reply);
    }

    /** Steps lines across the stored boundary and asks for a plan of them. */
    method GeneratePlan(areaId: nat, name: string, heading: real, spacing: real, swath: real, actor: nat,
                        ghost digest: RunSource -> string)
      returns (g: Generated)
      requires repository.Valid() && spacing > 0.0
      modifies repository
      ensures repository.Valid()
      ensures !g.Asked? ==> repository.Contents() == old(repository.Contents())
      ensures g.AreaMissing? <==> areaId !in old(repository.areas)
      ensures areaId in old(repository.areas) ==>
                var polygon := old(repository.areas)[areaId].fields.boundary;
                (g == Refused(GenerateError.BoundaryInvalid) <==> !ValidPolygon(polygon)) &&
                (ValidPolygon(polygon) ==>
                   BoundsOf(polygon).Some? &&
                   var b, horizontal := BoundsOf(polygon).value, Horizontal(heading);
                   var span := Max(b.maxX - b.minX, b.maxY - b.minY);
                   (g == Refused(SpacingExceedsSpan) <==> spacing > span) &&
                   (g == Refused(NoTransects) <==>
                      spacing <= span && High(b, horizontal) <= Low(b, horizontal) + spacing / 2.0) &&
                   (g.Asked? <==> spacing <= span && Low(b, horizontal) + spacing / 2.0 < High(b, horizontal)))
      ensures g.Asked? ==>
                areaId in old(repository.areas) && BoundsOf(old(repository.areas)[areaId].fields.boundary).Some? &&
                var b := BoundsOf(old(repository.areas)[areaId].fields.boundary).value;
                g.request.CreatePlan? && g.request.areaId == areaId && g.request.actor == actor &&
                g.request.planFields == PlanFields(name, g.request.planFields.lines, heading, swath, spacing) &&
                IsPlan(b, Horizontal(heading), spacing, g.request.planFields.lines) &&
                (0.0 <= heading < 360.0 ==> RunsAlongHeading(g.request.planFields.lines, heading)) &&
                exists order :: Serves(digest, old(repository.Contents()), g.request,
                                       Choice(old(repository.nextId), order), repository.Contents(), g.reply)
    {
      hide Serves, ValidPolygon, BoundsOf, IsPlan, RunsAlongHeading;
      if areaId !in repository.areas {
        return AreaMissing;
      }
      var lines := Generate(repository.areas[areaId].fields.boundary, heading, spacing);
      if lines.Err? {
        assert lines.error.BoundaryInvalid? || lines.error.SpacingExceedsSpan? || lines.error.NoTransects?;
        return Refused(lines.error);
      }
      var r := CreatePlan(areaId, PlanFields(name, lines.value, heading, swath, spacing), actor);
      var reply := Create(r, digest);
      return Asked(r, reply);
    }

    method Update(r: Request, ghost digest: RunSource -> string, ghost choice: Choice) returns (reply: Reply)
      requires repository.Valid() && r.UpdatePlan? && choice.newId !in repository.plans
      modifies repository
      ensures repository.Valid()
      ensures Serves(digest, old(repository.Contents()), r, choice, repository.Contents(), reply)
    {
      hide Serves, ValidLines;
      ghost var start := repository.Contents();
      if r.planId !in repository.plans {
        reply := Failed(NotFound);
      } else if repository.plans[r.planId].state != Draft {
        reply := Failed(PlanIsLocked);
      } else if !ValidLines(r.planFields.lines) {
        reply := Failed(LinesInvalid);
      } else {
        var affected := repository.UpdatePlanFields(r.planId, r.expected, r.planFields);
        reply := if affected then PlanReply(r.planId, repository.plans[r.planId]) else Failed(VersionConflict);
      }
      PlanServed(digest, start, r, choice, repository.Contents(), reply);
    }

    method Lock(r: Request, ghost digest: RunSource -> string, ghost choice: Choice) returns (reply: Reply)
      requires repository.Valid() && r.LockPlan? && choice.newId !in repository.plans
      modifies repository
      ensures repository.Valid()
      ensures Serves(digest, old(repository.Contents()), r, choice, repository.Contents(), reply)
    {
      hide Serves;
      ghost var start := repository.Contents();
      if r.planId !in repository.plans {
        reply := Failed(NotFound);
      } else if repository.plans[r.planId].state != Draft {
        reply := Failed(PlanStateInvalid);
      } else {
        var affected := repository.TransitionPlanRow(r.planId, r.expected, Draft, Locked);
        reply := if affected then PlanReply(r.planId, repository.plans[r.planId]) else Failed(VersionConflict);
      }
      PlanServed(digest, start, r, choice, repository.Contents(), reply);
    }

    method Copy(r: Request, ghost digest: RunSource -> string) returns (reply: Reply)
      requires repository.Valid() && r.CopyPlan?
      modifies repository
      ensures repository.Valid()
      ensures exists order :: Serves(digest, old(repository.Contents()), r, Choice(old(repository.nextId), order),
                                     repository.Contents(), reply)
    {
      hide Serves, COPY_MARK;
      ghost var start, choice := repository.Contents(), Choice(repository.nextId, []);
      if r.planId !in repository.plans {
        reply := Failed(NotFound);
      } else {
        var id := repository.CopyPlanRow(repository.plans[r.planId], r.actor);
        reply := PlanReply(id, repository.plans[id]);
      }
      PlanServed(digest, start, r, choice, repository.Contents(), reply);
    }
  }

  // ---- Areas ----

  lemma AreaTurns(db: Db, r: Request, choice: Choice)
    requires r.UpdateArea?
    ensures forall call: Call :: (call.Arrived? || call.AreaRead?) && call.request == r ==>
              !ReviewTurn(call) && !MoveTurn(call) && !ImportTurn(db, call, choice) && !DetectTurn(db, call, choice) &&
              !PlanTurn(db, call, choice) && !CreatePlanTurn(db, call, choice)
  {
  }

  lemma AreaServed(digest: RunSource -> string, db: Db, r: Request, choice: Choice, later: Db, reply: Reply)
    requires r.UpdateArea? && choice.newId !in db.areas
    requires var m1 := AdvanceArea(db, Arrived(r), choice);
             if m1.call.Replied? then m1.db == later && m1.call.reply == reply
             else
               var m2 := AdvanceArea(m1.db, m1.call, choice);
               if m2.call.Replied? then m2.db == later && m2.call.reply == reply
               else later == m2.db && r.areaId in later.areas && reply == AreaReply(r.areaId, later.areas[r.areaId])
    ensures Serves(digest, db, r, choice, later, reply)
  {
    hide AdvanceReview, AdvanceMove, AdvanceImport, AdvanceDetect, AdvancePlan, AdvanceCreatePlan, Serves,
         AreaProblem, Settled,
         ImportTurn, DetectTurn, PlanTurn, CreatePlanTurn, UpdateAreaRow, InsertArea;
    AreaTurns(db, r, choice);
    var m1 := Advance(digest, db, Arrived(r), choice);
    var m2 := Next(digest, m1, choice);
    var m3 := Next(digest, m2, choice);
    var m4 := Next(digest, m3, choice);
    FiveStatements(digest, db, r, choice, m1, m2, m3, m4);
  }

  lemma CreateAreaServed(digest: RunSource -> string, db: Db, r: Request, choice: Choice, later: Db, reply: Reply)
    requires r.CreateArea? && choice.newId !in db.areas
    requires var m := AdvanceArea(db, Arrived(r), choice);
             if m.call.Replied? then m.db == later && m.call.reply == reply
             else later == m.db && choice.newId in later.areas &&
                  reply == AreaReply(choice.newId, later.areas[choice.newId])
    ensures Serves(digest, db, r, choice, later, reply)
  {
    hide AdvanceReview, AdvanceMove, AdvanceImport, AdvanceDetect, AdvancePlan, AdvanceCreatePlan, Serves, AreaProblem,
         Settled, InsertArea, Normalized;
    var m1 := Advance(digest, db, Arrived(r), choice);
    var m2 := Next(digest, m1, choice);
    var m3 := Next(digest, m2, choice);
    var m4 := Next(digest, m3, choice);
    FiveStatements(digest, db, r, choice, m1, m2, m3, m4);
  }

  method ValidateAreaGeometry(boundary: Polygon, crs: string) returns (problem: Option<Failure>)
    ensures forall f: AreaFields :: f.boundary == boundary && f.crs == crs ==> problem == AreaProblem(f)
  {
    hide AreaOf, Projected;
    if !Projected(crs) {
      return Some(CoordinateSystemInvalid);
    }
    var valid := ValidatePolygon(boundary);
    if valid.Err? {
      return Some(Failure.BoundaryInvalid);
    }
    var area := PolygonArea(boundary);
    return if area > AREA_LIMIT then Some(AreaTooLarge) else None;
  }

  class SurveyAreaService {
    const repository: Repository

    constructor (repository: Repository)
      ensures this.repository == repository
    {
      this.repository := repository;
    }

    method Create(r: Request, ghost digest: RunSource -> string) returns (reply: Reply)
      requires repository.Valid() && r.CreateArea?
      modifies repository
      ensures repository.Valid()
      ensures exists order :: Serves(digest, old(repository.Contents()), r, Choice(old(repository.nextId), order),
                                     repository.Contents(), reply)
    {
      hide Serves, AreaProblem, TrimSpace, Normalized;
      ghost var start, choice := repository.Contents(), Choice(repository.nextId, []);
      var problem := ValidateAreaGeometry(r.areaFields.boundary, r.areaFields.crs);
      if problem.Some? {
        reply := Failed(problem.value);
      } else {
        var fields := r.areaFields.(name := TrimSpace(r.areaFields.name), crs := Normalized(r.areaFields.crs),
                                    ownerTeam := TrimSpace(r.areaFields.ownerTeam), status := AreaDraft);
        var id, created := repository.CreateArea(Area(Normalized(r.code), fields, 1));
        reply := if created then AreaReply(id, repository.areas[id]) else Failed(Duplicate);
      }
      CreateAreaServed(digest, start, r, choice, repository.Contents(), reply);
    }

    method Update(r: Request, ghost digest: RunSource -> string, ghost choice: Choice) returns (reply: Reply)
      requires repository.Valid() && r.UpdateArea? && choice.newId !in repository.areas
      modifies repository
      ensures repository.Valid()
      ensures Serves(digest, old(repository.Contents()), r, choice, repository.Contents(), reply)
    {
      hide Serves, AreaProblem, TrimSpace, Normalized;
      ghost var start := repository.Contents();
      if r.areaId !in repository.areas {
        reply := Failed(NotFound);
      } else if repository.areas[r.areaId].fields.status == AreaArchived {
        reply := Failed(AreaIsArchived);
      } else {
        var problem := ValidateAreaGeometry(r.areaFields.boundary, r.areaFields.crs);
        if problem.Some? {
          reply := Failed(problem.value);
        } else {
          var values := r.areaFields.(name := TrimSpace(r.areaFields.name), crs := Normalized(r.areaFields.crs),
                                      ownerTeam := TrimSpace(r.areaFields.ownerTeam));
          var affected := repository.UpdateAreaFields(r.areaId, r.expected, values);
          reply := if affected then AreaReply(r.areaId, repository.areas[r.areaId]) else Failed(VersionConflict);
        }
      }
      AreaServed(digest, start, r, choice, repository.Contents(), reply);
    }
  }

  // ---- Order of first occurrences ----

  function FirstAt(values: seq<nat>, v: nat): (i: nat)
    requires v in values
    ensures i < |values| && values[i] == v && v !in values[..i]
  {
    if values[0] == v then 0 else 1 + FirstAt(values[1..], v)
  }

  /** The distinct ids come in the order in which each first occurs. */
  lemma {:induction false} UniqueInOrder(values: seq<nat>, i: nat, j: nat)
    requires i < j < |Unique(values)|
    ensures FirstAt(values, Unique(values)[i]) < FirstAt(values, Unique(values)[j])
  {
    var front, last := values[..|values| - 1], values[|values| - 1];
    var u := Unique(front);
    forall v | v in front ensures v in values && FirstAt(values, v) == FirstAt(front, v) {
      SameFirst(values, front, v);
    }
    assert forall k :: 0 <= k < |u| ==> u[k] in front;
    if j < |u| {
      UniqueInOrder(front, i, j);
    } else {
      assert FirstAt(values, u[i]) < |front| && last !in front;
      assert values[..|front|] == front;
    }
  }

  lemma {:induction false} SameFirst(values: seq<nat>, front: seq<nat>, v: nat)
    requires front <= values && v in front
    ensures v in values && FirstAt(values, v) == FirstAt(front, v)
  {
    if front[0] != v {
      assert front[1..] <= values[1..];
      SameFirst(values[1..], front[1..], v);
    }
  }
}
