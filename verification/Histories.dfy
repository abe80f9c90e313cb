/** What a step of a call leaves behind for good, whatever other calls do before and after it: the state and
    note of a review, the columns of an imported run, the resolution of a detection. */
module Histories {
  import opened Rings
  import opened Coverage
  import opened States
  import opened InputKeys
  import opened Store
  import opened Workflow
  import opened WorkflowInvariants
  import opened Interleavings
  import opened FrozenRows
  import opened Overtaking
  import opened DetectCache

  // ---- Reviews ----

  /** In any state of a run a review that is about to write takes effect exactly when the row has the version it
      expects and the state it read; then the row is in the state it asks for with its note appended, and both
      are remembered as the last review of the gap. */
  lemma ReviewCommits(digest: RunSource -> string, seeds: set<nat>, s: State, call: nat, choice: Choice)
    requires StateInv(digest, seeds, s) && call in s.calls && s.calls[call].GapRead?
    ensures var r, read, t := s.calls[call].request, s.calls[call].gap, Apply(digest, s, Proceed(call, choice));
            r.ReviewGap? && r.gapId in s.db.gaps && r.gapId in s.reviews &&
            var row := s.db.gaps[r.gapId];
            if row.version == r.expected && row.state == read.state then
              var after := row.(state := r.gapTarget, version := row.version + 1,
                                explanation := row.explanation + " 复核记录：" + r.note);
              t.db == s.db.(gaps := s.db.gaps[r.gapId := after]) && t.calls == s.calls[call := GapWritten(r.gapId)] &&
              t.reviews == s.reviews[r.gapId := s.reviews[r.gapId] + [Review(r.gapTarget, r.note)]]
            else t == s.(calls := s.calls[call := Replied(Failed(VersionConflict))])
  {
    hide StateInv, GapHistory, Advance, CallInv;
    WaitingRelies(digest, seeds, s, call);
    var r := s.calls[call].request;
    ReadGap(s.db, s.calls[call]);
    HistoryOf(digest, seeds, s, r.gapId);
    ReviewMoves(digest, s.db, r, s.calls[call].gap, choice);
  }

  lemma ReadGap(db: Db, call: Call)
    requires call.GapRead? && CallInv(db, call)
    ensures call.request.ReviewGap? && call.request.gapId in db.gaps
    ensures db.gaps[call.request.gapId].state == call.gap.state ==> db.gaps[call.request.gapId] == call.gap
  {
    hide GapTargets;
  }

  lemma ReviewMoves(digest: RunSource -> string, db: Db, r: Request, read: Gap, choice: Choice)
    requires r.ReviewGap? && r.gapId in db.gaps
    requires db.gaps[r.gapId].state == read.state ==> db.gaps[r.gapId] == read
    ensures var row := db.gaps[r.gapId];
            var after := row.(state := r.gapTarget, version := row.version + 1,
                              explanation := row.explanation + " 复核记录：" + r.note);
            Advance(digest, db, GapRead(r, read), choice) ==
              if row.version == r.expected && row.state == read.state then
                Move(db.(gaps := db.gaps[r.gapId := after]), GapWritten(r.gapId),
                     Noted(r.gapId, Review(r.gapTarget, r.note)))
              else Move(db, Replied(Failed(VersionConflict)), Silent)
  {
    hide GapTargets, AdvanceMove, AdvanceImport, AdvanceDetect, AdvancePlan, AdvanceCreatePlan, AdvanceArea;
  }

  // ---- Imports ----

  /** A run that an import has inserted is, ever after and whatever else happens, the run of its request; and if
      the request called the navigation invalid, it is only ever imported or rejected. */
  lemma ImportedForGood(digest: RunSource -> string, seeds: set<nat>, start: State, before: seq<Step>, call: nat,
                        choice: Choice, after: seq<Step>, id: nat)
    requires Init(digest, seeds, start)
    requires var s := Execute(digest, start, before);
             call in s.calls && s.calls[call].ImportMissing? &&
             Apply(digest, s, Proceed(call, choice)).calls[call] == RunWritten(id)
    ensures var r := Execute(digest, start, before).calls[call].request;
            var later := Execute(digest, start, before + [Proceed(call, choice)] + after).db;
            r.ImportRun? && id !in Execute(digest, start, before).db.runs && id in later.runs &&
            var run := later.runs[id];
            run.planId == r.planId && run.code == r.code && run.track == r.track && run.swath == r.swath &&
            run.startedAt == r.startedAt && run.endedAt == r.endedAt && run.quality == r.quality &&
            run.importedBy == r.actor && run.checksum == digest(SourceOfImport(r)) &&
            (r.quality == Invalid ==> run.state == Imported || run.state == Rejected)
  {
    hide Execute, HonestRun, StateInv, Init, Apply, CallInv;
    var s, step := Execute(digest, start, before), Proceed(call, choice);
    InitGood(digest, seeds, start);
    Safety(digest, seeds, start, before);
    OneMore(digest, start, before, step);
    Safety(digest, seeds, start, before + [step]);
    ExecuteInTwo(digest, start, before + [step], after);
    var t := Execute(digest, start, before + [step]);
    Safety(digest, seeds, t, after);
    ImportInserts(digest, seeds, s, call, choice, id);
    NavigationHolds(digest, seeds, Execute(digest, t, after));
    EvolvingKeepsSnapshots(t.db, Execute(digest, t, after).db);
    hide Evolves, Milli, SourceOfImport;
  }

  lemma ImportInserts(digest: RunSource -> string, seeds: set<nat>, s: State, call: nat, choice: Choice, id: nat)
    requires StateInv(digest, seeds, s) && call in s.calls && s.calls[call].ImportMissing?
    requires Apply(digest, s, Proceed(call, choice)).calls[call] == RunWritten(id)
    ensures var r, t := s.calls[call].request, Apply(digest, s, Proceed(call, choice));
            r.ImportRun? && id !in s.db.runs && id in t.db.runs &&
            t.db.runs[id] == Run(r.planId, r.code, r.track, r.swath, r.startedAt, r.endedAt, r.quality, Imported,
                                 digest(SourceOfImport(r)), r.actor, 1)
  {
    WaitingRelies(digest, seeds, s, call);
    hide StateInv, Milli, SourceOfImport, AdvanceReview, AdvanceMove, AdvanceDetect, AdvancePlan, AdvanceCreatePlan,
         AdvanceArea, ChecksumTaken, RunCodeTaken;
  }

  lemma NavigationHolds(digest: RunSource -> string, seeds: set<nat>, s: State)
    requires StateInv(digest, seeds, s)
    ensures NavigationSound(s.db)
  {
    hide HistoryInv, CallInv;
  }

  // ---- Detections ----

  /** A detection that answers, from the store or by computing, answers with a gap keyed at the resolution asked
      for, or at that of the area it read if none was; the findings are those of measuring at that resolution. */
  lemma DetectionAtAskedResolution(digest: RunSource -> string, seeds: set<nat>, s: State, call: nat, choice: Choice,
                                   id: nat, gap: Gap, idempotent: bool)
    requires StateInv(digest, seeds, s) && call in s.calls
    requires s.calls[call].RunsChecked? || s.calls[call].KeyMissing?
    requires Apply(digest, s, Proceed(call, choice)).calls[call] == Replied(GapReply(id, gap, idempotent))
    ensures var c, t := s.calls[call], Apply(digest, s, Proceed(call, choice));
            c.request.DetectGap? && |c.order| == |c.runs| &&
            var resolution := if c.request.resolution != 0.0 then c.request.resolution
                              else c.area.fields.targetResolution;
            id in t.origins && id in t.db.gaps && t.db.gaps[id] == gap && gap.key.resolution == resolution &&
            (c.KeyMissing? ==> !idempotent && t.origins[id].area == c.area) &&
            var m := Measure(t.origins[id].area.fields.boundary, TracksOf(c.order, c.runs), resolution);
            m.Ok? && gap.findings.gapRatio == m.value.gapRatio && gap.findings.coverageRatio == m.value.coverageRatio &&
            gap.findings.overlapRatio == m.value.overlapRatio && gap.findings.gap == m.value.artifacts.gap &&
            gap.findings.recommended == m.value.artifacts.recommended &&
            gap.findings.severity == SeverityForRatio(m.value.gapRatio)
  {
    WaitingRelies(digest, seeds, s, call);
    if s.calls[call].RunsChecked? {
      LookupResolution(digest, seeds, s, call, choice, GapReply(id, gap, idempotent));
    } else {
      StoreResolution(digest, s, call, choice, GapReply(id, gap, idempotent));
    }
  }

  lemma LookupResolution(digest: RunSource -> string, seeds: set<nat>, s: State, call: nat, choice: Choice,
                         reply: Reply)
    requires StateInv(digest, seeds, s) && call in s.calls && s.calls[call].RunsChecked? && CallInv(s.db, s.calls[call])
    requires Apply(digest, s, Proceed(call, choice)).calls[call] == Replied(reply)
    ensures var c, t := s.calls[call], Apply(digest, s, Proceed(call, choice));
            t.db == s.db && t.origins == s.origins &&
            c.request.DetectGap? && |c.order| == |c.runs| && reply.GapReply? &&
            reply.gapId in s.origins && reply.gapId in s.db.gaps && s.db.gaps[reply.gapId] == reply.gap &&
            reply.gap.key.resolution == ResolutionFor(c.request, c.area) &&
            var m := Measure(s.origins[reply.gapId].area.fields.boundary, TracksOf(c.order, c.runs),
                             ResolutionFor(c.request, c.area));
            m.Ok? && reply.gap.findings == FindingsOf(m.value)
  {
    IdempotentReply(digest, s, call, choice, reply);
    hide StateInv, Measure, FindingsOf, KeyFor, CallInv, Apply;
    var c := s.calls[call];
    FoundKey(s.db, KeyFor(c.request, c.area, c.runs));
    ReplyFromStored(digest, seeds, s, c, reply);
    LookupWritesNothing(digest, s, call, choice);
    KeyResolution(c.request, c.area, c.runs);
  }

  lemma KeyResolution(r: Request, area: Area, runs: seq<Run>)
    requires r.DetectGap?
    ensures KeyFor(r, area, runs).resolution == ResolutionFor(r, area)
  {
    hide Sorted;
  }

  lemma LookupWritesNothing(digest: RunSource -> string, s: State, call: nat, choice: Choice)
    requires call in s.calls && s.calls[call].RunsChecked? && s.calls[call].request.DetectGap?
    ensures var t := Apply(digest, s, Proceed(call, choice)); t.db == s.db && t.origins == s.origins
  {
    hide KeyFor, GapByKey, Selects, AdvanceReview, AdvanceMove, AdvanceImport, AdvanceCreatePlan, AdvanceArea,
         AdvancePlan;
  }

  lemma StoreResolution(digest: RunSource -> string, s: State, call: nat, choice: Choice, reply: Reply)
    requires call in s.calls && s.calls[call].KeyMissing? && CallInv(s.db, s.calls[call])
    requires Apply(digest, s, Proceed(call, choice)).calls[call] == Replied(reply) && reply.GapReply?
    ensures var c, t := s.calls[call], Apply(digest, s, Proceed(call, choice));
            c.request.DetectGap? && |c.order| == |c.runs| && !reply.idempotent &&
            reply.gapId in t.origins && t.origins[reply.gapId].area == c.area &&
            reply.gapId in t.db.gaps && t.db.gaps[reply.gapId] == reply.gap &&
            reply.gap.key.resolution == ResolutionFor(c.request, c.area) &&
            var m := Measure(c.area.fields.boundary, TracksOf(c.order, c.runs), ResolutionFor(c.request, c.area));
            m.Ok? && reply.gap.findings == FindingsOf(m.value)
  {
    hide StillThere, AllChecked, AreaRelied, Measure, FindingsOf, KeyFor, Advance, KeyTaken, Unique, ValidPolygon;
    var c := s.calls[call];
    SameLength(s.db, c.request.runIds, c.order, c.runs);
    DetectsOrStays(digest, s.db, c, choice);
    KeyResolution(c.request, c.area, c.runs);
  }

  lemma DetectsOrStays(digest: RunSource -> string, db: Db, c: Call, choice: Choice)
    requires c.KeyMissing? && c.request.DetectGap?
    ensures if DetectTurn(db, c, choice) then Advance(digest, db, c, choice) == AdvanceDetect(db, c, choice)
            else Advance(digest, db, c, choice).call == c
  {
    hide AdvanceDetect, Selects;
  }
}
