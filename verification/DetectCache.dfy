/** Gap detection as a cache. A stored gap answers every later request with the same canonical input.
    That answer is what computing afresh would give on the boundary the computing call read; the key does
    not name the boundary. */
module DetectCache {
  import opened Outcome
  import opened Segments
  import opened Rings
  import opened Coverage
  import opened CoverageLaws
  import opened States
  import opened InputKeys
  import opened Store
  import opened Workflow
  import opened WorkflowInvariants
  import opened Interleavings
  import opened Overtaking

  // ---- Equal keys, equal runs ----

  lemma NoDuplicatesCount(ids: seq<nat>)
    requires NoDuplicates(ids)
    ensures forall id :: multiset(ids)[id] <= 1
  {
    ElementCount(ids);
  }

  lemma {:induction false} CountedOnce(ids: seq<nat>)
    requires forall id :: multiset(ids)[id] <= 1
    ensures NoDuplicates(ids)
  {
    if ids != [] {
      var front, last := ids[..|ids| - 1], ids[|ids| - 1];
      assert ids == front + [last];
      forall id ensures multiset(front)[id] <= 1 {
        assert multiset(front)[id] <= multiset(ids)[id];
      }
      CountedOnce(front);
      assert multiset(ids)[last] == multiset(front)[last] + 1;
      assert last !in multiset(front);
    }
  }

  /** One run per checksum: equal bags of checksums come from equal sets of runs. */
  lemma SameRuns(db: Db, a: seq<nat>, b: seq<nat>)
    requires UniqueIndexes(db) && NoDuplicates(a) && NoDuplicates(b)
    requires (forall id :: id in a ==> id in db.runs) && (forall id :: id in b ==> id in db.runs)
    requires multiset(Checksums(RowsOf(a, db.runs))) == multiset(Checksums(RowsOf(b, db.runs)))
    ensures multiset(a) == multiset(b)
  {
    hide NoDuplicates;
    var ca, cb := Checksums(RowsOf(a, db.runs)), Checksums(RowsOf(b, db.runs));
    assert |a| == |ca| == |multiset(ca)| == |multiset(cb)| == |cb| == |b|;
    forall id | id in a ensures id in b {
      var i :| 0 <= i < |a| && a[i] == id;
      assert ca[i] in multiset(cb);
      var j :| 0 <= j < |cb| && cb[j] == ca[i];
      assert a[i] in db.runs && b[j] in db.runs;
    }
    SameElements(a, b);
  }

  predicate Stored(db: Db, ids: seq<nat>) {
    forall id :: id in ids ==> id in db.runs
  }

  /** The tracks of these runs as they are stored now. */
  function StoredTracks(db: Db, ids: seq<nat>): seq<Track>
    requires Stored(db, ids)
  {
    TracksOf(ids, RowsOf(ids, db.runs))
  }

  lemma StoredTracksJoin(db: Db, a: seq<nat>, b: seq<nat>)
    requires Stored(db, a) && Stored(db, b)
    ensures Stored(db, a + b) && StoredTracks(db, a + b) == StoredTracks(db, a) + StoredTracks(db, b)
  {
  }

  lemma TakeOut(ids: seq<nat>, id: nat) returns (k: nat)
    requires id in multiset(ids)
    ensures k < |ids| && ids == ids[..k] + ([id] + ids[k + 1..])
    ensures multiset(ids[..k] + ids[k + 1..]) == multiset(ids) - multiset{id}
  {
    k :| 0 <= k < |ids| && ids[k] == id;
    assert ids == ids[..k] + ([id] + ids[k + 1..]);
  }

  /** The bag of tracks depends on the bag of runs only. */
  lemma {:induction false} SameTracks(db: Db, a: seq<nat>, b: seq<nat>)
    requires multiset(a) == multiset(b) && Stored(db, a) && Stored(db, b)
    ensures multiset(StoredTracks(db, a)) == multiset(StoredTracks(db, b))
  {
    hide StoredTracks;
    if a == [] {
      assert |b| == |multiset(b)| == 0;
    } else {
      var first, rest := a[0], a[1..];
      assert a == [first] + rest;
      var k := TakeOut(b, first);
      var left, right := b[..k], b[k + 1..];
      SameTracks(db, rest, left + right);
      StoredTracksJoin(db, [first], rest);
      StoredTracksJoin(db, left, right);
      StoredTracksJoin(db, [first], right);
      StoredTracksJoin(db, left, [first] + right);
    }
  }

  // ---- The cached reply ----

  /** The rows as they are now agree with the rows a call fetched in all that a computation looks at. */
  lemma FetchedRowsCurrent(db: Db, ids: seq<nat>, order: seq<nat>, runs: seq<Run>)
    requires StillThere(db, ids, order, runs)
    ensures forall id :: id in order ==> id in db.runs
    ensures Checksums(RowsOf(order, db.runs)) == Checksums(runs)
    ensures TracksOf(order, RowsOf(order, db.runs)) == TracksOf(order, runs)
  {
    forall id | id in order ensures id in db.runs {
      var i :| 0 <= i < |order| && order[i] == id;
      assert RunEvolves(runs[i], db.runs[order[i]]);
    }
    var rows := RowsOf(order, db.runs);
    forall i | 0 <= i < |order|
      ensures rows[i].checksum == runs[i].checksum && rows[i].track == runs[i].track && rows[i].swath == runs[i].swath
    {
      assert RunEvolves(runs[i], db.runs[order[i]]);
    }
  }

  /** A stored gap with this call's key was computed from the same runs at the same resolution, so it
      holds what this call would compute on the boundary the storing call had read. */
  lemma StoredForSameInput(db: Db, g: Gap, o: Origin, r: Request, area: Area, order: seq<nat>, runs: seq<Run>)
    requires UniqueIndexes(db) && OriginOk(db, g, o) && NoDuplicates(g.sourceRunIds)
    requires r.DetectGap? && StillThere(db, r.runIds, order, runs) && g.key == KeyFor(r, area, runs)
    ensures multiset(o.order) == multiset(order)
    ensures var m := Measure(o.area.fields.boundary, TracksOf(order, runs), ResolutionFor(r, area));
            m.Ok? && g.findings == FindingsOf(m.value)
  {
    hide Measure, FindingsOf, NoDuplicates, Sorted, StillThere, UniqueIndexes, ResolutionFor;
    FetchedRowsCurrent(db, r.runIds, order, runs);
    var rows := RowsOf(o.order, db.runs);
    StableKeyIgnoresOrderOnly(
      g.areaId, o.area.fields.crs, g.algorithm, Checksums(rows), g.key.resolution,
      r.areaId, area.fields.crs, r.algorithm, Checksums(runs), ResolutionFor(r, area));
    assert NoDuplicates(order) by { ListedOnce(db, r.runIds, order, runs); }
    NoDuplicatesCount(g.sourceRunIds);
    CountedOnce(o.order);
    SameRuns(db, o.order, order);
    SameTracks(db, o.order, order);
    MeasureReordered(o.area.fields.boundary, TracksOf(o.order, rows), TracksOf(order, runs), g.key.resolution);
  }

  lemma ListedOnce(db: Db, ids: seq<nat>, order: seq<nat>, runs: seq<Run>)
    requires StillThere(db, ids, order, runs)
    ensures NoDuplicates(order)
  {
  }

  /** In every interleaving, an idempotent reply names the source runs of the request and the findings
      of computing afresh on the boundary the storing call read; on an unchanged boundary it therefore
      equals recomputation. `origins` remembers that boundary. */
  lemma CachedReplyAgrees(
    digest: RunSource -> string, seeds: set<nat>, start: State, steps: seq<Step>, call: nat, choice: Choice,
    reply: Reply)
    requires Init(digest, seeds, start)
    requires call in Execute(digest, start, steps).calls && Execute(digest, start, steps).calls[call].RunsChecked?
    requires Apply(digest, Execute(digest, start, steps), Proceed(call, choice)).calls[call] == Replied(reply)
    ensures var s := Execute(digest, start, steps);
            var c := s.calls[call];
            c.request.DetectGap? && |c.order| == |c.runs| &&
            reply.GapReply? && reply.idempotent && reply.gapId in s.origins &&
            multiset(reply.gap.sourceRunIds) == multiset(Unique(c.request.runIds)) &&
            reply.gap.areaId == c.request.areaId && reply.gap.algorithm == c.request.algorithm &&
            var tracks, resolution := TracksOf(c.order, c.runs), ResolutionFor(c.request, c.area);
            var stored := Measure(s.origins[reply.gapId].area.fields.boundary, tracks, resolution);
            stored.Ok? && reply.gap.findings == FindingsOf(stored.value) &&
            (s.origins[reply.gapId].area.fields.boundary == c.area.fields.boundary ==>
               Measure(c.area.fields.boundary, tracks, resolution).Ok? &&
               reply.gap.findings == FindingsOf(Measure(c.area.fields.boundary, tracks, resolution).value))
  {
    hide *;
    InitGood(digest, seeds, start);
    Safety(digest, seeds, start, steps);
    var s := Execute(digest, start, steps);
    WaitingRelies(digest, seeds, s, call);
    IdempotentReply(digest, s, call, choice, reply);
    ReplyFromStored(digest, seeds, s, s.calls[call], reply);
  }

  /** The only reply from this point is the stored row found by the key. */
  lemma IdempotentReply(digest: RunSource -> string, s: State, call: nat, choice: Choice, reply: Reply)
    requires call in s.calls && s.calls[call].RunsChecked? && CallInv(s.db, s.calls[call])
    requires Apply(digest, s, Proceed(call, choice)).calls[call] == Replied(reply)
    ensures var c := s.calls[call];
            c.request.DetectGap? && reply.GapReply? && reply.idempotent &&
            GapByKey(s.db, KeyFor(c.request, c.area, c.runs)) == Some(reply.gapId) &&
            reply.gap == s.db.gaps[reply.gapId]
  {
    hide KeyFor, AreaRelied, StillThere, AllChecked, Selects, GapByKey, AdvanceReview, AdvanceMove, AdvanceImport,
         AdvanceCreatePlan, AdvanceArea, AdvancePlan;
    var c := s.calls[call];
    assert !RereadTurn(c) && !ReviewTurn(c) && !MoveTurn(c) && !ImportTurn(s.db, c, choice);
    assert !PlanTurn(s.db, c, choice) && !CreatePlanTurn(s.db, c, choice) && !AreaTurn(s.db, c, choice);
    assert DetectTurn(s.db, c, choice);
  }

  lemma ReplyFromStored(digest: RunSource -> string, seeds: set<nat>, s: State, c: Call, reply: Reply)
    requires StateInv(digest, seeds, s) && c.RunsChecked? && CallInv(s.db, c)
    requires c.request.DetectGap? && reply.GapReply? && reply.gapId in s.db.gaps
    requires GapByKey(s.db, KeyFor(c.request, c.area, c.runs)) == Some(reply.gapId)
    requires reply.gap == s.db.gaps[reply.gapId]
    ensures |c.order| == |c.runs| && reply.gapId in s.origins
    ensures multiset(reply.gap.sourceRunIds) == multiset(Unique(c.request.runIds))
    ensures reply.gap.areaId == c.request.areaId && reply.gap.algorithm == c.request.algorithm
    ensures var tracks, resolution := TracksOf(c.order, c.runs), ResolutionFor(c.request, c.area);
            var stored := Measure(s.origins[reply.gapId].area.fields.boundary, tracks, resolution);
            stored.Ok? && reply.gap.findings == FindingsOf(stored.value)
  {
    hide *;
    StoredOrigin(digest, seeds, s, reply.gapId);
    StoredGapFacts(digest, seeds, s, reply.gapId);
    CheckedFacts(s.db, c);
    var r := c.request;
    SameLength(s.db, r.runIds, c.order, c.runs);
    FoundKey(s.db, KeyFor(r, c.area, c.runs));
    KeyNames(r, c.area, c.runs, reply.gap, s.origins[reply.gapId], s.db);
    StoredForSameInput(s.db, reply.gap, s.origins[reply.gapId], r, c.area, c.order, c.runs);
    DetectOrder(s.db, r, c.order, c.runs);
    SourcesOf(s.db, reply.gap, s.origins[reply.gapId]);
  }

  lemma FoundKey(db: Db, key: InputKey)
    requires GapByKey(db, key).Some?
    ensures GapByKey(db, key).value in db.gaps && db.gaps[GapByKey(db, key).value].key == key
  {
  }

  lemma SourcesOf(db: Db, g: Gap, o: Origin)
    requires OriginOk(db, g, o)
    ensures multiset(o.order) == multiset(g.sourceRunIds)
  {
    hide Measure, StableInputKey, FindingsOf;
  }

  lemma KeyNames(r: Request, area: Area, runs: seq<Run>, g: Gap, o: Origin, db: Db)
    requires r.DetectGap? && g.key == KeyFor(r, area, runs) && OriginOk(db, g, o)
    ensures g.areaId == r.areaId && g.algorithm == r.algorithm
  {
    hide Measure, FindingsOf, Sorted, ResolutionFor;
  }

  lemma CheckedFacts(db: Db, c: Call)
    requires c.RunsChecked? && CallInv(db, c)
    ensures c.request.DetectGap? && StillThere(db, c.request.runIds, c.order, c.runs)
    ensures AllChecked(db, c.request, c.runs)
  {
    hide StillThere, AllChecked, AreaRelied;
  }

  lemma StoredOrigin(digest: RunSource -> string, seeds: set<nat>, s: State, id: nat)
    requires StateInv(digest, seeds, s) && id in s.db.gaps
    ensures id in s.origins && OriginOk(s.db, s.db.gaps[id], s.origins[id])
  {
    HistoryOf(digest, seeds, s, id);
    hide StateInv, OriginOk;
  }

  lemma SameLength(db: Db, ids: seq<nat>, order: seq<nat>, runs: seq<Run>)
    requires StillThere(db, ids, order, runs)
    ensures |order| == |runs|
  {
  }

  lemma StoredGapFacts(digest: RunSource -> string, seeds: set<nat>, s: State, id: nat)
    requires StateInv(digest, seeds, s) && id in s.db.gaps
    ensures UniqueIndexes(s.db) && NoDuplicates(s.db.gaps[id].sourceRunIds)
  {
    hide CallInv, HistoryInv, NoDuplicates, SourceSound;
  }

  // ---- What is stored ----

  /** In every reachable state a gap's columns agree with each other, whatever reviews it has been
      through: its ratios share out the whole, the severity is that of the gap ratio, and the gap area
      is that share of the area of the boundary measured. */
  lemma StoredFindingsConsistent(digest: RunSource -> string, seeds: set<nat>, start: State, steps: seq<Step>, id: nat)
    requires Init(digest, seeds, start) && id in Execute(digest, start, steps).db.gaps
    ensures var s := Execute(digest, start, steps);
            var f := s.db.gaps[id].findings;
            f.coverageRatio + f.gapRatio == 1.0 && 0.0 <= f.overlapRatio <= f.coverageRatio <= 1.0 &&
            f.severity == SeverityForRatio(f.gapRatio) &&
            id in s.origins && f.gapArea == AreaOf(s.origins[id].area.fields.boundary) * f.gapRatio &&
            0.0 <= f.gapArea <= AreaOf(s.origins[id].area.fields.boundary)
  {
    hide *;
    InitGood(digest, seeds, start);
    Safety(digest, seeds, start, steps);
    HistoryOf(digest, seeds, Execute(digest, start, steps), id);
    var s := Execute(digest, start, steps);
    FindingsFromOrigin(s.db, s.db.gaps[id], s.first[id], s.reviews[id], s.origins[id]);
  }

  lemma FindingsFromOrigin(db: Db, g: Gap, first: Gap, reviews: seq<Review>, o: Origin)
    requires GapHistory(db, g, first, reviews, o)
    ensures var f := g.findings;
            f.coverageRatio + f.gapRatio == 1.0 && 0.0 <= f.overlapRatio <= f.coverageRatio <= 1.0 &&
            f.severity == SeverityForRatio(f.gapRatio) &&
            f.gapArea == AreaOf(o.area.fields.boundary) * f.gapRatio &&
            0.0 <= f.gapArea <= AreaOf(o.area.fields.boundary)
  {
    hide Measure, AreaOf, FindingsOf, Rendered, GapPath;
    var rows := RowsOf(o.order, db.runs);
    FindingsFromMeasure(o.area.fields.boundary, TracksOf(o.order, rows), g.key.resolution, g.findings);
  }

  lemma FindingsFromMeasure(boundary: Polygon, tracks: seq<Track>, resolution: real, f: Findings)
    requires Measure(boundary, tracks, resolution).Ok? && f == FindingsOf(Measure(boundary, tracks, resolution).value)
    ensures f.coverageRatio + f.gapRatio == 1.0 && 0.0 <= f.overlapRatio <= f.coverageRatio <= 1.0
    ensures f.severity == SeverityForRatio(f.gapRatio)
    ensures f.gapArea == AreaOf(boundary) * f.gapRatio && 0.0 <= f.gapArea <= AreaOf(boundary)
  {
    hide Measure, AreaOf, SeverityForRatio;
    RatiosShareOut(boundary, tracks, resolution);
    MeasuredArea(boundary, tracks, resolution);
    var r := Measure(boundary, tracks, resolution).value;
    ShareOf(r.area, r.gapRatio, f.gapArea);
  }

  lemma MeasuredArea(boundary: Polygon, tracks: seq<Track>, resolution: real)
    requires Measure(boundary, tracks, resolution).Ok?
    ensures Measure(boundary, tracks, resolution).value.area == AreaOf(boundary) >= 0.0
  {
    hide BoundsOf, InsideCells, GapCells, SweptCells, CellBox, BoxArtifacts, GridOver;
  }

  lemma ShareOf(a: real, q: real, part: real)
    requires a >= 0.0 && 0.0 <= q <= 1.0 && part == a * q
    ensures 0.0 <= part <= a
  {
  }
}
