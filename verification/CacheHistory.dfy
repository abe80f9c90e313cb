/** When a cached detection agrees with recomputation, told from the history of the area's row. A gap is
    computed on a row the area had at some moment of the run; as long as every row the area has had since
    detections in flight read theirs is alike, the reply found is the one recomputation gives. */
module CacheHistory {
  import opened Outcome
  import opened Rings
  import opened Coverage
  import opened Store
  import opened Workflow
  import opened WorkflowInvariants
  import opened Interleavings
  import opened FrozenRows
  import opened Overtaking
  import opened DetectCache

  // ---- Rows read along a run ----

  /** A detection that holds the area's row it has read. */
  predicate HoldsArea(call: Call, areaId: nat) {
    (call.AreaFetched? || call.RunsFetched? || call.RunsChecked? || call.KeyMissing?) &&
    call.request.DetectGap? && call.request.areaId == areaId
  }

  ghost predicate DetectionsHold(s: State, areaId: nat, like: Area -> bool) {
    forall call :: call in s.calls && HoldsArea(s.calls[call], areaId) ==> like(s.calls[call].area)
  }

  /** Gaps of the area stored since, other than `known`, were computed on such a row. */
  ghost predicate OriginsHold(s: State, areaId: nat, known: set<nat>, like: Area -> bool) {
    forall id :: id in s.db.gaps && id !in known && s.db.gaps[id].areaId == areaId ==>
      id in s.origins && like(s.origins[id].area)
  }

  ghost predicate RowIs(db: Db, areaId: nat, like: Area -> bool) {
    areaId in db.areas ==> like(db.areas[areaId])
  }

  /** Every row the area has from `s` to the end of the steps is such a row. */
  ghost predicate RowsHold(digest: RunSource -> string, s: State, steps: seq<Step>, areaId: nat, like: Area -> bool) {
    RowIs(Execute(digest, s, steps).db, areaId, like) &&
    (steps == [] || RowsHold(digest, s, steps[..|steps| - 1], areaId, like))
  }

  /** A detection reads the row in force, and stores only what it computed on the row it holds. */
  lemma DetectionReads(db: Db, call: Call, choice: Choice, areaId: nat)
    requires DetectTurn(db, call, choice)
    ensures var m := AdvanceDetect(db, call, choice);
            HoldsArea(m.call, areaId) ==>
              (HoldsArea(call, areaId) && m.call.area == call.area) ||
              (areaId in db.areas && m.call.area == db.areas[areaId])
    ensures var m := AdvanceDetect(db, call, choice);
            m.event.Stored? ==> m.event.gapId in m.db.gaps && m.event.origin.area == call.area &&
                                HoldsArea(call, m.db.gaps[m.event.gapId].areaId)
  {
    hide Unique, KeyFor, FirstProblem, Selects, FindingsOf, KeyTaken, GapByKey;
  }

  lemma OthersHoldNothing(digest: RunSource -> string, db: Db, call: Call, choice: Choice)
    requires !DetectTurn(db, call, choice)
    ensures var m := Advance(digest, db, call, choice);
            !m.event.Stored? && (m.call == call || !m.call.AreaFetched?) &&
            (m.call == call || !(m.call.RunsFetched? || m.call.RunsChecked? || m.call.KeyMissing?))
  {
    hide AdvanceDetect, DetectTurn, ValidLines, Milli, KeyTaken, ChecksumTaken, RunCodeTaken, AreaCodeTaken,
         AreaProblem;
  }

  lemma AdvanceReads(digest: RunSource -> string, db: Db, call: Call, choice: Choice, areaId: nat)
    ensures var m := Advance(digest, db, call, choice);
            HoldsArea(m.call, areaId) ==>
              (HoldsArea(call, areaId) && m.call.area == call.area) ||
              (areaId in db.areas && m.call.area == db.areas[areaId])
    ensures var m := Advance(digest, db, call, choice);
            m.event.Stored? ==> m.event.gapId in m.db.gaps && HoldsArea(call, m.db.gaps[m.event.gapId].areaId) &&
                                m.event.origin.area == call.area
  {
    hide Advance, AdvanceDetect, DetectTurn;
    if DetectTurn(db, call, choice) {
      DetectDispatch(digest, db, call, choice);
      DetectionReads(db, call, choice, areaId);
    } else {
      OthersHoldNothing(digest, db, call, choice);
    }
  }

  lemma HoldStep(digest: RunSource -> string, seeds: set<nat>, s: State, step: Step, areaId: nat, known: set<nat>,
                 like: Area -> bool)
    requires StateInv(digest, seeds, s) && RowIs(s.db, areaId, like)
    requires DetectionsHold(s, areaId, like) && OriginsHold(s, areaId, known, like)
    ensures var t := Apply(digest, s, step); DetectionsHold(t, areaId, like) && OriginsHold(t, areaId, known, like)
  {
    hide DbInv, HistoryInv, CallInv, Advance, Evolves, OriginOk;
    if step.Proceed? && step.id in s.calls {
      var m := Advance(digest, s.db, s.calls[step.id], step.choice);
      AdvanceGood(digest, seeds, s.db, s.calls[step.id], step.choice);
      AdvanceReads(digest, s.db, s.calls[step.id], step.choice, areaId);
    }
  }

  lemma {:induction false} HoldAlong(digest: RunSource -> string, seeds: set<nat>, s: State, steps: seq<Step>,
                                     areaId: nat, known: set<nat>, like: Area -> bool)
    requires StateInv(digest, seeds, s) && RowsHold(digest, s, steps, areaId, like)
    requires DetectionsHold(s, areaId, like) && OriginsHold(s, areaId, known, like)
    ensures var t := Execute(digest, s, steps);
            DetectionsHold(t, areaId, like) && OriginsHold(t, areaId, known, like)
  {
    hide StateInv, DetectionsHold, OriginsHold, RowIs, Apply, Evolves;
    if steps != [] {
      var front := steps[..|steps| - 1];
      HoldAlong(digest, seeds, s, front, areaId, known, like);
      Safety(digest, seeds, s, front);
      RowAtEnd(digest, s, front, areaId, like);
      HoldStep(digest, seeds, Execute(digest, s, front), steps[|steps| - 1], areaId, known, like);
    }
  }

  lemma RowAtEnd(digest: RunSource -> string, s: State, steps: seq<Step>, areaId: nat, like: Area -> bool)
    requires RowsHold(digest, s, steps, areaId, like)
    ensures RowIs(Execute(digest, s, steps).db, areaId, like)
  {
    hide RowIs, Execute;
  }

  // ---- The origin of a gap is a row the area had ----

  /** The area had this row at some moment of the run. */
  ghost predicate WasRow(digest: RunSource -> string, start: State, steps: seq<Step>, areaId: nat, row: Area) {
    exists n :: 0 <= n <= |steps| && RowAfter(digest, start, steps, n, areaId, row)
  }

  ghost predicate RowAfter(digest: RunSource -> string, start: State, steps: seq<Step>, n: nat, areaId: nat, row: Area)
    requires n <= |steps|
  {
    var db := Execute(digest, start, steps[..n]).db;
    areaId in db.areas && db.areas[areaId] == row
  }

  ghost function RowsOfRun(digest: RunSource -> string, start: State, steps: seq<Step>, areaId: nat): Area -> bool {
    (row: Area) => WasRow(digest, start, steps, areaId, row)
  }

  lemma {:induction false} RowsOfRunHold(digest: RunSource -> string, start: State, steps: seq<Step>, n: nat,
                                         areaId: nat)
    requires n <= |steps|
    ensures RowsHold(digest, start, steps[..n], areaId, RowsOfRun(digest, start, steps, areaId))
  {
    hide Execute;
    var db := Execute(digest, start, steps[..n]).db;
    if areaId in db.areas {
      assert RowAfter(digest, start, steps, n, areaId, db.areas[areaId]);
    }
    if n > 0 {
      assert steps[..n][..n - 1] == steps[..n - 1];
      RowsOfRunHold(digest, start, steps, n - 1, areaId);
    }
  }

  /** Whatever row a gap is recorded to have been computed on, its area had that row during the run. */
  lemma OriginWasRow(digest: RunSource -> string, seeds: set<nat>, start: State, steps: seq<Step>, id: nat)
    requires Init(digest, seeds, start) && id in Execute(digest, start, steps).db.gaps
    ensures var s := Execute(digest, start, steps);
            id in s.origins && WasRow(digest, start, steps, s.db.gaps[id].areaId, s.origins[id].area)
  {
    hide Execute, WasRow, RowsHold;
    var areaId := Execute(digest, start, steps).db.gaps[id].areaId;
    InitGood(digest, seeds, start);
    RowsOfRunHold(digest, start, steps, |steps|, areaId);
    assert steps[..|steps|] == steps;
    hide StateInv;
    HoldAlong(digest, seeds, start, steps, areaId, {}, RowsOfRun(digest, start, steps, areaId));
  }

  // ---- Agreement ----

  /** The call has checked its runs and its lookup finds this gap. */
  ghost predicate LooksUp(s: State, call: nat, id: nat) {
    call in s.calls && s.calls[call].RunsChecked? && s.calls[call].request.DetectGap? &&
    |s.calls[call].order| == |s.calls[call].runs| &&
    GapByKey(s.db, KeyFor(s.calls[call].request, s.calls[call].area, s.calls[call].runs)) == Some(id)
  }

  /** The findings found are those of measuring the area as given with the runs the call holds. */
  ghost predicate Agrees(c: Call, findings: Findings, area: Area)
    requires c.RunsChecked? && c.request.DetectGap? && |c.order| == |c.runs|
  {
    var fromNow := Measure(area.fields.boundary, TracksOf(c.order, c.runs), ResolutionFor(c.request, area));
    fromNow.Ok? && findings == FindingsOf(fromNow.value)
  }

  ghost function HasBoundary(boundary: Polygon): Area -> bool {
    (area: Area) => area.fields.boundary == boundary
  }

  ghost function IsRow(row: Area): Area -> bool {
    (area: Area) => area == row
  }

  /** Both the row a lookup holds and the row the gap it finds was computed on are rows like those the area has
      had since the detections in flight read theirs. */
  lemma LookupHolds(digest: RunSource -> string, seeds: set<nat>, s: State, steps: seq<Step>, like: Area -> bool,
                    call: nat, id: nat)
    requires StateInv(digest, seeds, s) && LooksUp(Execute(digest, s, steps), call, id) && id !in s.db.gaps
    requires var areaId := Execute(digest, s, steps).calls[call].request.areaId;
             DetectionsHold(s, areaId, like) && RowsHold(digest, s, steps, areaId, like)
    ensures var t := Execute(digest, s, steps);
            var c := t.calls[call];
            id in t.db.gaps && id in t.origins && like(c.area) && like(t.origins[id].area) &&
            var stored := Measure(t.origins[id].area.fields.boundary, TracksOf(c.order, c.runs),
                                  ResolutionFor(c.request, c.area));
            stored.Ok? && t.db.gaps[id].findings == FindingsOf(stored.value)
  {
    hide Execute, RowsHold, StateInv, Measure, FindingsOf, KeyFor, TracksOf;
    var t := Execute(digest, s, steps);
    var c := t.calls[call];
    HoldAlong(digest, seeds, s, steps, c.request.areaId, s.db.gaps.Keys, like);
    Safety(digest, seeds, s, steps);
    WaitingRelies(digest, seeds, t, call);
    hide CallInv;
    FoundKey(t.db, KeyFor(c.request, c.area, c.runs));
    ReplyFromStored(digest, seeds, t, c, GapReply(id, t.db.gaps[id], true));
    assert HoldsArea(c, c.request.areaId);
  }

  /** While the area's boundary is held from the moment the detections in flight have read theirs, the reply
      to any lookup since is what the call would compute on the row it read. */
  lemma LookupAgreesOnBoundary(digest: RunSource -> string, seeds: set<nat>, s: State, steps: seq<Step>,
                               boundary: Polygon, call: nat, id: nat)
    requires StateInv(digest, seeds, s) && LooksUp(Execute(digest, s, steps), call, id) && id !in s.db.gaps
    requires var areaId := Execute(digest, s, steps).calls[call].request.areaId;
             DetectionsHold(s, areaId, HasBoundary(boundary)) &&
             RowsHold(digest, s, steps, areaId, HasBoundary(boundary))
    ensures var t := Execute(digest, s, steps);
            id in t.db.gaps && t.calls[call].area.fields.boundary == boundary &&
            Agrees(t.calls[call], t.db.gaps[id].findings, t.calls[call].area)
  {
    hide Execute, RowsHold, StateInv, Measure, FindingsOf, KeyFor, TracksOf, DetectionsHold, GapByKey;
    LookupHolds(digest, seeds, s, steps, HasBoundary(boundary), call, id);
  }

  lemma {:induction false} SameVersionSameRow(digest: RunSource -> string, seeds: set<nat>, s: State, steps: seq<Step>,
                                              areaId: nat)
    requires StateInv(digest, seeds, s) && areaId in s.db.areas
    requires areaId in Execute(digest, s, steps).db.areas
    requires Execute(digest, s, steps).db.areas[areaId].version == s.db.areas[areaId].version
    ensures RowsHold(digest, s, steps, areaId, IsRow(s.db.areas[areaId]))
  {
    hide StateInv, Apply, PlanEvolves, RunEvolves, GapEvolves;
    Safety(digest, seeds, s, steps);
    if steps != [] {
      var front, last := steps[..|steps| - 1], steps[|steps| - 1];
      Safety(digest, seeds, s, front);
      ApplyGood(digest, seeds, Execute(digest, s, front), last);
      SameVersionSameRow(digest, seeds, s, front, areaId);
    }
  }

  /** No gap stored since is found to differ as long as the area's row keeps its version, the detections in
      flight having read that version too. */
  lemma LookupAgreesAtVersion(digest: RunSource -> string, seeds: set<nat>, s: State, steps: seq<Step>, areaId: nat,
                              call: nat, id: nat)
    requires StateInv(digest, seeds, s) && LooksUp(Execute(digest, s, steps), call, id) && id !in s.db.gaps
    requires Execute(digest, s, steps).calls[call].request.areaId == areaId
    requires areaId in s.db.areas && DetectionsHold(s, areaId, IsRow(s.db.areas[areaId]))
    requires areaId in Execute(digest, s, steps).db.areas
    requires Execute(digest, s, steps).db.areas[areaId].version == s.db.areas[areaId].version
    ensures var t := Execute(digest, s, steps);
            id in t.db.gaps && t.calls[call].area == t.db.areas[areaId] &&
            Agrees(t.calls[call], t.db.gaps[id].findings, t.db.areas[areaId])
  {
    hide Execute, RowsHold, StateInv, Measure, FindingsOf, KeyFor, TracksOf, DetectionsHold, GapByKey;
    SameVersionSameRow(digest, seeds, s, steps, areaId);
    RowAtEnd(digest, s, steps, areaId, IsRow(s.db.areas[areaId]));
    LookupHolds(digest, seeds, s, steps, IsRow(s.db.areas[areaId]), call, id);
  }

  /** No detection of the area has read its row yet. */
  ghost predicate NoneHolds(s: State, areaId: nat) {
    forall call :: call in s.calls ==> !HoldsArea(s.calls[call], areaId)
  }

  /** In every interleaving: if, at some moment before the gap was stored, no detection of the area had read
      its row, and the row's version then is the row's version at the lookup, then the idempotent reply holds
      the findings of computing afresh on the area as it is now. */
  lemma CachedReplyAgreesAtVersion(
    digest: RunSource -> string, seeds: set<nat>, start: State, before: seq<Step>, after: seq<Step>, areaId: nat,
    call: nat, choice: Choice, reply: Reply)
    requires Init(digest, seeds, start)
    requires var s, t := Execute(digest, start, before), Execute(digest, start, before + after);
             NoneHolds(s, areaId) && areaId in s.db.areas && areaId in t.db.areas &&
             t.db.areas[areaId].version == s.db.areas[areaId].version &&
             call in t.calls && t.calls[call].RunsChecked? && HoldsArea(t.calls[call], areaId) &&
             Apply(digest, t, Proceed(call, choice)).calls[call] == Replied(reply) &&
             (reply.GapReply? ==> reply.gapId !in s.db.gaps)
    ensures var t := Execute(digest, start, before + after);
            var c := t.calls[call];
            reply.GapReply? && reply.idempotent && c.area == t.db.areas[areaId] && |c.order| == |c.runs| &&
            Agrees(c, reply.gap.findings, t.db.areas[areaId])
  {
    hide Execute, HonestRun, StateInv, Measure, FindingsOf, KeyFor, TracksOf, Apply, CallInv, Init;
    var s, t := Execute(digest, start, before), Execute(digest, start, before + after);
    InitGood(digest, seeds, start);
    ExecuteInTwo(digest, start, before, after);
    Safety(digest, seeds, start, before);
    Safety(digest, seeds, start, before + after);
    WaitingRelies(digest, seeds, t, call);
    IdempotentReply(digest, t, call, choice, reply);
    CheckedFacts(t.db, t.calls[call]);
    var c := t.calls[call];
    SameLength(t.db, c.request.runIds, c.order, c.runs);
    LookupAgreesAtVersion(digest, seeds, s, after, areaId, call, reply.gapId);
  }

  /** The same while only the boundary is held: from such a moment on every row of the area up to the lookup
      has the same boundary. */
  lemma CachedReplyAgreesOnBoundary(
    digest: RunSource -> string, seeds: set<nat>, start: State, before: seq<Step>, after: seq<Step>, areaId: nat,
    boundary: Polygon, call: nat, choice: Choice, reply: Reply)
    requires Init(digest, seeds, start)
    requires var s, t := Execute(digest, start, before), Execute(digest, start, before + after);
             NoneHolds(s, areaId) && RowsHold(digest, s, after, areaId, HasBoundary(boundary)) &&
             call in t.calls && t.calls[call].RunsChecked? && HoldsArea(t.calls[call], areaId) &&
             Apply(digest, t, Proceed(call, choice)).calls[call] == Replied(reply) &&
             (reply.GapReply? ==> reply.gapId !in s.db.gaps)
    ensures var t := Execute(digest, start, before + after);
            var c := t.calls[call];
            reply.GapReply? && reply.idempotent && c.area.fields.boundary == boundary && |c.order| == |c.runs| &&
            Agrees(c, reply.gap.findings, c.area)
  {
    hide Execute, HonestRun, StateInv, Measure, FindingsOf, KeyFor, TracksOf, Apply, CallInv, Init, RowsHold;
    var s, t := Execute(digest, start, before), Execute(digest, start, before + after);
    InitGood(digest, seeds, start);
    ExecuteInTwo(digest, start, before, after);
    Safety(digest, seeds, start, before);
    Safety(digest, seeds, start, before + after);
    WaitingRelies(digest, seeds, t, call);
    IdempotentReply(digest, t, call, choice, reply);
    CheckedFacts(t.db, t.calls[call]);
    var c := t.calls[call];
    SameLength(t.db, c.request.runIds, c.order, c.runs);
    LookupAgreesOnBoundary(digest, seeds, s, after, boundary, call, reply.gapId);
  }
}
