/** Safety over every interleaved run of the services. */
module Interleavings {
  import opened Outcome
  import opened CoordinateSystems
  import opened States
  import opened Store
  import opened Workflow
  import opened WorkflowInvariants

  lemma AdvanceGood(digest: RunSource -> string, seeds: set<nat>, db: Db, call: Call, choice: Choice)
    requires DbInv(digest, seeds, db) && CallInv(db, call)
    ensures GoodMove(digest, seeds, db, Advance(digest, db, call, choice))
  {
    hide DbInv, GoodMove, AdvanceReview, AdvanceMove, AdvanceImport, AdvanceDetect, AdvancePlan, AdvanceCreatePlan,
         AdvanceArea, ReviewTurn, MoveTurn, ImportTurn, DetectTurn, PlanTurn, CreatePlanTurn, AreaTurn;
    StayingPut(digest, seeds, db, call);
    if RereadTurn(call) {
      NoWrite(digest, seeds, db, AdvanceReread(db, call));
    } else {
      hide CallInv;
      if ReviewTurn(call) { ReviewStep(digest, seeds, db, call); }
      else if MoveTurn(call) { MoveStep(digest, seeds, db, call); }
      else if ImportTurn(db, call, choice) { ImportStep(digest, seeds, db, call, choice); }
      else if DetectTurn(db, call, choice) { DetectStep(digest, seeds, db, call, choice); }
      else if PlanTurn(db, call, choice) { PlanStep(digest, seeds, db, call, choice); }
      else if CreatePlanTurn(db, call, choice) { CreatePlanStep(digest, seeds, db, call, choice); }
      else if AreaTurn(db, call, choice) { AreaStep(digest, seeds, db, call, choice); }
    }
  }

  // ---- The invariant of whole states ----

  /** The notes as they appear at the end of an explanation. */
  function Rendered(reviews: seq<Review>): string {
    if reviews == [] then ""
    else Rendered(reviews[..|reviews| - 1]) + REVIEW_MARK + reviews[|reviews| - 1].note
  }

  /** The states the reviews have taken a detected gap through. */
  function StatesOf(reviews: seq<Review>): (path: seq<GapState>)
    ensures |path| == |reviews| + 1 && path[0] == Detected
    ensures forall i :: 0 <= i < |reviews| ==> path[i + 1] == reviews[i].target
  {
    [Detected] + seq(|reviews|, i requires 0 <= i < |reviews| => reviews[i].target)
  }

  /** The gap row is the row first stored, with every committed note appended in commit order, one version
      per review, in the state the last review asked for; the reviews take permitted transitions. */
  ghost predicate GapHistory(db: Db, g: Gap, first: Gap, reviews: seq<Review>, origin: Origin) {
    g == first.(state := StatesOf(reviews)[|reviews|], explanation := first.explanation + Rendered(reviews),
                version := 1 + |reviews|) &&
    first.state == Detected && first.version == 1 && GapPath(StatesOf(reviews)) && OriginOk(db, g, origin)
  }

  ghost predicate HistoryInv(s: State) {
    s.first.Keys == s.reviews.Keys == s.origins.Keys == s.db.gaps.Keys &&
    forall id :: id in s.db.gaps ==> GapHistory(s.db, s.db.gaps[id], s.first[id], s.reviews[id], s.origins[id])
  }

  ghost predicate StateInv(digest: RunSource -> string, seeds: set<nat>, s: State) {
    DbInv(digest, seeds, s.db) && (forall id :: id in s.calls ==> CallInv(s.db, s.calls[id])) && HistoryInv(s)
  }

  /** A fresh database: no call, no gap, and seeded rows that are sound. */
  ghost predicate Init(digest: RunSource -> string, seeds: set<nat>, s: State) {
    s.calls == map[] && s.first == map[] && s.reviews == map[] && s.origins == map[] && s.db.gaps == map[] &&
    DbInv(digest, seeds, s.db)
  }

  lemma Associate(a: string, b: string, c: string, d: string)
    ensures a + b + c + d == a + (b + c + d)
  {
  }

  lemma RenderedGrows(reviews: seq<Review>, review: Review)
    ensures Rendered(reviews + [review]) == Rendered(reviews) + REVIEW_MARK + review.note
  {
    hide REVIEW_MARK;
    assert (reviews + [review])[..|reviews|] == reviews;
  }

  lemma StatesGrow(reviews: seq<Review>, review: Review)
    ensures StatesOf(reviews + [review]) == StatesOf(reviews) + [review.target]
  {
    hide StatesOf;
    var more, path := StatesOf(reviews + [review]), StatesOf(reviews);
    forall i | 0 <= i < |more| ensures more[i] == (path + [review.target])[i] {
      if i > 0 {
        assert more[i - 1 + 1] == (reviews + [review])[i - 1].target;
        if i - 1 < |reviews| {
          assert path[i - 1 + 1] == reviews[i - 1].target;
        }
      }
    }
  }

  lemma ReviewsGrow(reviews: seq<Review>, review: Review)
    ensures Rendered(reviews + [review]) == Rendered(reviews) + REVIEW_MARK + review.note
    ensures StatesOf(reviews + [review]) == StatesOf(reviews) + [review.target]
    ensures GapPath(StatesOf(reviews)) && review.target in GapTargets(StatesOf(reviews)[|reviews|]) ==>
              GapPath(StatesOf(reviews + [review]))
  {
    hide GapTargets, REVIEW_MARK, GapPath, Rendered, StatesOf;
    RenderedGrows(reviews, review);
    StatesGrow(reviews, review);
    PathGrows(StatesOf(reviews), review.target);
  }

  lemma PathGrows(path: seq<GapState>, next: GapState)
    requires path != []
    ensures GapPath(path) && next in GapTargets(path[|path| - 1]) ==> GapPath(path + [next])
  {
    hide GapTargets;
  }

  lemma UntouchedHistory(db: Db, later: Db, g: Gap, first: Gap, reviews: seq<Review>, origin: Origin)
    requires GapHistory(db, g, first, reviews, origin) && Evolves(db, later)
    ensures GapHistory(later, g, first, reviews, origin)
  {
    hide OriginOk, Evolves, StatesOf, GapPath;
    OriginStable(db, later, g, g, origin);
  }

  /** Appending a note to the very row it extends keeps the history in step. */
  lemma NotedHistory(db: Db, later: Db, g: Gap, h: Gap, first: Gap, reviews: seq<Review>, review: Review,
                     origin: Origin)
    requires GapHistory(db, g, first, reviews, origin) && Evolves(db, later)
    requires h == g.(state := review.target, explanation := g.explanation + REVIEW_MARK + review.note,
                     version := g.version + 1)
    requires review.target in GapTargets(g.state) && GapEvolves(g, h)
    ensures GapHistory(later, h, first, reviews + [review], origin)
  {
    hide OriginOk, Evolves, Rendered, REVIEW_MARK, GapTargets, GapPath, GapEvolves;
    OriginStable(db, later, g, h, origin);
    ReviewsGrow(reviews, review);
    Associate(first.explanation, Rendered(reviews), REVIEW_MARK, review.note);
  }

  lemma StoredHistory(db: Db, g: Gap, origin: Origin)
    requires g.state == Detected && g.version == 1 && OriginOk(db, g, origin)
    ensures GapHistory(db, g, g, [], origin)
  {
    hide OriginOk;
    assert g.explanation + "" == g.explanation;
  }

  lemma EvolvedGap(db: Db, later: Db, id: nat)
    requires Evolves(db, later) && id in db.gaps
    ensures id in later.gaps && GapEvolves(db.gaps[id], later.gaps[id])
  {
    hide GapEvolves, RunEvolves, PlanEvolves, AreaEvolves;
  }

  lemma HistoryStep(s: State, m: Move, t: State)
    requires HistoryInv(s) && Evolves(s.db, m.db) && GapsChange(s.db, m)
    requires t.db == m.db && t.first == Recorded(s, m.event, m.db).first
    requires t.reviews == Recorded(s, m.event, m.db).reviews && t.origins == Recorded(s, m.event, m.db).origins
    ensures HistoryInv(t)
  {
    hide OriginOk, GapHistory, Evolves, GapRank, REVIEW_MARK, GapTargets, GapEvolves;
    forall id | id in t.db.gaps
      ensures id in t.first && id in t.reviews && id in t.origins
      ensures GapHistory(t.db, t.db.gaps[id], t.first[id], t.reviews[id], t.origins[id])
    {
      if m.event.Noted? && m.event.gapId == id {
        assert GapEvolves(s.db.gaps[id], t.db.gaps[id]) by { EvolvedGap(s.db, t.db, id); }
        NotedHistory(s.db, t.db, s.db.gaps[id], t.db.gaps[id], s.first[id], s.reviews[id], m.event.review,
                     s.origins[id]);
      } else if m.event.Stored? && m.event.gapId == id {
        StoredHistory(t.db, t.db.gaps[id], m.event.origin);
      } else {
        UntouchedHistory(s.db, t.db, s.db.gaps[id], s.first[id], s.reviews[id], s.origins[id]);
      }
    }
  }

  lemma ApplyGood(digest: RunSource -> string, seeds: set<nat>, s: State, step: Step)
    requires StateInv(digest, seeds, s)
    ensures StateInv(digest, seeds, Apply(digest, s, step))
    ensures Evolves(s.db, Apply(digest, s, step).db)
  {
    hide DbInv, HistoryInv, CallInv, Evolves, Advance, GapsChange, Recorded;
    var t := Apply(digest, s, step);
    EvolvesReflexive(s.db);
    match step {
      case Arrive(id, request) =>
        assert CallInv(s.db, Arrived(request)) by { ArrivedFine(s.db, request); }
        SameHistory(s, t);
      case Proceed(id, choice) =>
        if id in s.calls {
          var m := Advance(digest, s.db, s.calls[id], choice);
          AdvanceGood(digest, seeds, s.db, s.calls[id], choice);
          RecordedFields(s, m);
          HistoryStep(s, m, t);
          forall other | other in t.calls ensures CallInv(t.db, t.calls[other]) {
            if other != id {
              CallStable(s.db, m.db, s.calls[other]);
            }
          }
        }
    }
  }

  lemma EvolvesReflexive(db: Db)
    ensures Evolves(db, db)
  {
  }

  lemma ArrivedFine(db: Db, request: Request)
    ensures CallInv(db, Arrived(request))
  {
  }

  lemma SameHistory(s: State, t: State)
    requires t.db == s.db && t.first == s.first && t.reviews == s.reviews && t.origins == s.origins
    ensures HistoryInv(s) ==> HistoryInv(t)
  {
  }

  lemma RecordedFields(s: State, m: Move)
    ensures Recorded(s, m.event, m.db).calls == s.calls
  {
  }

  /** Every state of every interleaved run satisfies the invariant, and rows only evolve along it. */
  lemma {:induction false} Safety(digest: RunSource -> string, seeds: set<nat>, s: State, steps: seq<Step>)
    requires StateInv(digest, seeds, s)
    ensures StateInv(digest, seeds, Execute(digest, s, steps))
    ensures Evolves(s.db, Execute(digest, s, steps).db)
  {
    hide StateInv, Evolves, Apply;
    if steps == [] {
      EvolvesReflexive(s.db);
    } else {
      var front, last := steps[..|steps| - 1], steps[|steps| - 1];
      Safety(digest, seeds, s, front);
      ApplyGood(digest, seeds, Execute(digest, s, front), last);
      EvolvesTransitive(s.db, Execute(digest, s, front).db, Execute(digest, s, steps).db);
    }
  }

  lemma InitGood(digest: RunSource -> string, seeds: set<nat>, s: State)
    requires Init(digest, seeds, s)
    ensures StateInv(digest, seeds, s)
  {
    hide DbInv;
  }

  // ---- What that gives ----

  /** In every reachable state each run's plan is locked, no run with invalid navigation has passed the
      quality check, and each gap's source runs are processed or superseded runs of the gap's area. */
  lemma CrossEntityInvariant(digest: RunSource -> string, seeds: set<nat>, start: State, steps: seq<Step>)
    requires Init(digest, seeds, start)
    ensures var db := Execute(digest, start, steps).db;
            (forall id :: id in db.runs ==>
               db.runs[id].planId in db.plans && db.plans[db.runs[id].planId].state == Locked) &&
            (forall id :: id in db.runs && db.runs[id].quality == Invalid ==>
               db.runs[id].state !in {QualityChecked, Processing, RunState.Processed, Superseded}) &&
            (forall id, run :: id in db.gaps && run in db.gaps[id].sourceRunIds ==>
               run in db.runs && db.runs[run].state in {RunState.Processed, Superseded} &&
               db.runs[run].planId in db.plans && db.plans[db.runs[run].planId].areaId == db.gaps[id].areaId)
  {
    hide Execute, Init, NoDuplicates;
    InitGood(digest, seeds, start);
    Safety(digest, seeds, start, steps);
  }

  /** Over every interleaving a gap's explanation is its first text followed by the notes of all
      committed reviews in commit order, one version each, and never more than four of them. */
  lemma NotesNeverLost(digest: RunSource -> string, seeds: set<nat>, start: State, steps: seq<Step>, id: nat)
    requires Init(digest, seeds, start)
    requires id in Execute(digest, start, steps).db.gaps
    ensures var s := Execute(digest, start, steps);
            id in s.first && id in s.reviews &&
            s.db.gaps[id].explanation == s.first[id].explanation + Rendered(s.reviews[id]) &&
            s.db.gaps[id].version == 1 + |s.reviews[id]| && |s.reviews[id]| <= 4
  {
    hide Execute, OriginOk, StateInv, Rendered, Init, GapPath;
    InitGood(digest, seeds, start);
    Safety(digest, seeds, start, steps);
    HistoryOf(digest, seeds, Execute(digest, start, steps), id);
    GapPathsDescend(StatesOf(Execute(digest, start, steps).reviews[id]));
  }

  /** Over every interleaving a gap is in the state its last committed review asked for, detected if none,
      and each review asked for a state permitted after the one before. */
  lemma StateIsLastTarget(digest: RunSource -> string, seeds: set<nat>, start: State, steps: seq<Step>, id: nat)
    requires Init(digest, seeds, start)
    requires id in Execute(digest, start, steps).db.gaps
    ensures var s := Execute(digest, start, steps);
            id in s.reviews &&
            var reviews := s.reviews[id];
            s.db.gaps[id].state == (if |reviews| == 0 then Detected else reviews[|reviews| - 1].target) &&
            (forall i :: 0 <= i < |reviews| ==>
               reviews[i].target in GapTargets(if i == 0 then Detected else reviews[i - 1].target))
  {
    hide Execute, OriginOk, StateInv, Rendered, Init, GapTargets;
    InitGood(digest, seeds, start);
    Safety(digest, seeds, start, steps);
    HistoryOf(digest, seeds, Execute(digest, start, steps), id);
    var reviews := Execute(digest, start, steps).reviews[id];
    forall i | 0 <= i < |reviews|
      ensures reviews[i].target in GapTargets(if i == 0 then Detected else reviews[i - 1].target)
    {
      assert StatesOf(reviews)[i + 1] in GapTargets(StatesOf(reviews)[i]);
    }
  }

  lemma HistoryOf(digest: RunSource -> string, seeds: set<nat>, s: State, id: nat)
    requires StateInv(digest, seeds, s) && id in s.db.gaps
    ensures id in s.first && id in s.reviews && id in s.origins
    ensures GapHistory(s.db, s.db.gaps[id], s.first[id], s.reviews[id], s.origins[id])
  {
    hide DbInv, GapHistory, CallInv;
  }

  /** Whenever a review's conditional update is about to take effect, the expected version is the
      version it read and the row is still the one it read. */
  lemma SuccessfulReviewIsCurrent(digest: RunSource -> string, seeds: set<nat>, start: State, steps: seq<Step>,
                                  call: nat)
    requires Init(digest, seeds, start)
    requires call in Execute(digest, start, steps).calls && Execute(digest, start, steps).calls[call].GapRead?
    ensures var s := Execute(digest, start, steps);
            var r, before := s.calls[call].request, s.calls[call].gap;
            r.ReviewGap? && r.gapId in s.db.gaps &&
            (TransitionGap(s.db, r.gapId, r.expected, before.state, r.gapTarget,
                           before.explanation + REVIEW_MARK + r.note).affected
             ==> r.expected == before.version && s.db.gaps[r.gapId] == before)
  {
    hide Execute, Init, OriginOk, DbInv, HistoryInv;
    InitGood(digest, seeds, start);
    Safety(digest, seeds, start, steps);
  }

  /** The sources whose digests are compared: those of the runs imported so far and of the new request. */
  ghost function Arising(seeds: set<nat>, db: Db, r: Request): set<RunSource>
    requires r.ImportRun?
  {
    (set id | id in db.runs && id !in seeds :: SourceOfRun(db.runs[id])) + {SourceOfImport(r)}
  }

  ghost predicate NoCollision(digest: RunSource -> string, sources: set<RunSource>) {
    forall a, b :: a in sources && b in sources && digest(a) == digest(b) ==> a == b
  }

  /** An import answered from an existing run of this service, not a seeded one, is answered with a run
      of the same plan, track, times and swath to three decimals, provided no two of the sources at hand
      have the same digest. */
  lemma ImportReplyMatches(digest: RunSource -> string, seeds: set<nat>, start: State, steps: seq<Step>, call: nat,
                           run: nat)
    requires Init(digest, seeds, start)
    requires call in Execute(digest, start, steps).calls && Execute(digest, start, steps).calls[call].ImportChecked?
    requires Execute(digest, start, steps).calls[call].request.ImportRun?
    requires NoCollision(digest, Arising(seeds, Execute(digest, start, steps).db,
                                         Execute(digest, start, steps).calls[call].request))
    requires RunByChecksum(Execute(digest, start, steps).db,
                           digest(SourceOfImport(Execute(digest, start, steps).calls[call].request))) == Some(run)
    requires run !in seeds
    ensures var s := Execute(digest, start, steps);
            var r := s.calls[call].request;
            run in s.db.runs && s.db.runs[run].planId == r.planId && s.db.runs[run].track == r.track &&
            s.db.runs[run].startedAt == r.startedAt && s.db.runs[run].endedAt == r.endedAt &&
            -0.001 <= s.db.runs[run].swath - r.swath <= 0.001
  {
    hide Execute, Init, SourceOfRun, SourceOfImport, HistoryInv;
    InitGood(digest, seeds, start);
    Safety(digest, seeds, start, steps);
    var s := Execute(digest, start, steps);
    assert SourceOfRun(s.db.runs[run]) in Arising(seeds, s.db, s.calls[call].request);
    SameSource(s.db.runs[run], s.calls[call].request);
  }

  /** Equal sources are those of the same plan, track and times, with swaths within a thousandth. */
  lemma SameSource(run: Run, r: Request)
    requires r.ImportRun? && SourceOfRun(run) == SourceOfImport(r)
    ensures run.planId == r.planId && run.track == r.track && run.startedAt == r.startedAt && run.endedAt == r.endedAt
    ensures -0.001 <= run.swath - r.swath <= 0.001
  {
  }

  /** Whatever callers send, every stored area keeps a normalised projected coordinate system, so the
      detection's own test of it never fails. */
  lemma DetectionNeverRefusesStoredSystem(
    digest: RunSource -> string, seeds: set<nat>, start: State, steps: seq<Step>, id: nat, call: nat, choice: Choice)
    requires Init(digest, seeds, start)
    ensures var s := Execute(digest, start, steps);
            (id in s.db.areas ==> StoredSystem(s.db.areas[id].fields.crs)) &&
            (call in s.calls && DetectTurn(s.db, s.calls[call], choice) ==>
               AdvanceDetect(s.db, s.calls[call], choice).call != Replied(Failed(CoordinateSystemInvalid)))
  {
    hide *;
    InitGood(digest, seeds, start);
    Safety(digest, seeds, start, steps);
    var s := Execute(digest, start, steps);
    SystemsStored(digest, seeds, s);
    SystemOf(s.db, id);
    if call in s.calls && DetectTurn(s.db, s.calls[call], choice) {
      SystemAccepted(s.db, s.calls[call], choice);
    }
  }

  lemma SystemsStored(digest: RunSource -> string, seeds: set<nat>, s: State)
    requires StateInv(digest, seeds, s)
    ensures AreasProjected(s.db)
  {
    hide HistoryInv, CallInv, AreasProjected;
  }

  lemma SystemOf(db: Db, id: nat)
    requires AreasProjected(db)
    ensures id in db.areas ==> StoredSystem(db.areas[id].fields.crs)
  {
    hide StoredSystem;
  }

  lemma SystemAccepted(db: Db, call: Call, choice: Choice)
    requires AreasProjected(db) && DetectTurn(db, call, choice)
    ensures AdvanceDetect(db, call, choice).call != Replied(Failed(CoordinateSystemInvalid))
  {
    hide Normalized, Projected, Selects, Unique, FindingsOf, GapRow, KeyFor;
    if call.RunsFetched? {
      ProblemsOfRuns(call.request.areaId, db.plans, call.runs);
    }
  }

  lemma {:induction false} ProblemsOfRuns(areaId: nat, plans: map<nat, Plan>, runs: seq<Run>)
    ensures FirstProblem(areaId, plans, runs) != Some(CoordinateSystemInvalid)
  {
    hide ValidLines;
    if runs != [] {
      ProblemsOfRuns(areaId, plans, runs[..|runs| - 1]);
    }
  }
}
