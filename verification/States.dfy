/** Gap severities and the two state machines. */
module States {

  datatype GapSeverity = Minor | Major | Critical

  function SeverityForRatio(ratio: real): GapSeverity {
    if ratio >= 0.12 then Critical
    else if ratio >= 0.05 then Major
    else Minor
  }

  function SeverityRank(s: GapSeverity): nat {
    match s
    case Minor => 0
    case Major => 1
    case Critical => 2
  }

  datatype GapState = Detected | Reviewed | Accepted | FalsePositive | Resurveyed | Closed

  function GapTargets(s: GapState): set<GapState> {
    match s
    case Detected => {Reviewed}
    case Reviewed => {Accepted, FalsePositive}
    case Accepted => {Resurveyed}
    case FalsePositive => {Closed}
    case Resurveyed => {Closed}
    case Closed => {}
  }

  /** Depth of a gap state; it shows the transition graph has no cycle. */
  function GapRank(s: GapState): nat {
    match s
    case Detected => 0
    case Reviewed => 1
    case Accepted => 2
    case FalsePositive => 2
    case Resurveyed => 3
    case Closed => 4
  }

  datatype RunState = Imported | QualityChecked | Processing | Processed | Rejected | Superseded

  function RunTargets(s: RunState): set<RunState> {
    match s
    case Imported => {QualityChecked, Rejected}
    case QualityChecked => {Processing, Rejected}
    case Processing => {RunState.Processed, Rejected}
    case Processed => {Superseded}
    case Rejected => {}
    case Superseded => {}
  }

  function RunRank(s: RunState): nat {
    match s
    case Imported => 0
    case QualityChecked => 1
    case Processing => 2
    case Processed => 3
    case Rejected => 4
    case Superseded => 4
  }

  datatype PlanState = Draft | Locked

  datatype AreaStatus = AreaDraft | AreaActive | AreaArchived

  datatype Navigation = Good | Degraded | Invalid

  // ---- Paths through the two state machines ----

  predicate GapPath(path: seq<GapState>) {
    path != [] && forall i :: 0 <= i < |path| - 1 ==> path[i + 1] in GapTargets(path[i])
  }

  predicate RunPath(path: seq<RunState>) {
    path != [] && forall i :: 0 <= i < |path| - 1 ==> path[i + 1] in RunTargets(path[i])
  }

  /** Every transition goes deeper, so no state recurs and a gap is reviewed at most four times. */
  lemma {:induction false} GapPathsDescend(path: seq<GapState>)
    requires GapPath(path)
    ensures GapRank(path[0]) + |path| - 1 <= GapRank(path[|path| - 1])
    ensures |path| <= 5
    ensures forall i, j :: 0 <= i < j < |path| ==> path[i] != path[j]
  {
    if |path| > 1 {
      var front := path[..|path| - 1];
      GapPathsDescend(front);
      assert path[|path| - 1] in GapTargets(path[|path| - 2]);
      forall i | 0 <= i < |path| - 1 ensures GapRank(path[i]) < GapRank(path[|path| - 1]) {
        GapPathsDescend(path[i..|path| - 1]);
      }
    }
  }

  /** No run state recurs either. */
  lemma {:induction false} RunPathsDescend(path: seq<RunState>)
    requires RunPath(path)
    ensures RunRank(path[0]) + |path| - 1 <= RunRank(path[|path| - 1])
    ensures forall i, j :: 0 <= i < j < |path| ==> path[i] != path[j]
  {
    if |path| > 1 {
      var front := path[..|path| - 1];
      RunPathsDescend(front);
      assert path[|path| - 1] in RunTargets(path[|path| - 2]);
      forall i | 0 <= i < |path| - 1 ensures RunRank(path[i]) < RunRank(path[|path| - 1]) {
        RunPathsDescend(path[i..|path| - 1]);
      }
    }
  }

  /** A run that was imported reaches processing, or anything past it, only through the quality check,
      and no state recurs. */
  lemma {:induction false} ProcessingNeedsQualityCheck(path: seq<RunState>)
    requires RunPath(path) && path[0] == Imported
    ensures path[|path| - 1] in {QualityChecked, Processing, RunState.Processed, Superseded} ==> QualityChecked in path
    ensures RunRank(path[|path| - 1]) >= |path| - 1
    ensures forall i, j :: 0 <= i < j < |path| ==> path[i] != path[j]
  {
    RunPathsDescend(path);
    if |path| > 1 {
      var front := path[..|path| - 1];
      ProcessingNeedsQualityCheck(front);
      assert path[|path| - 1] in RunTargets(path[|path| - 2]);
    }
  }

  lemma GapPathFollows(path: seq<GapState>, k: nat)
    requires GapPath(path) && k + 1 < |path|
    ensures path[k + 1] in GapTargets(path[k])
  {
  }

  /** The two lives of a gap from detection to closure, and no others. */
  lemma GapLives(path: seq<GapState>)
    requires path != [] && path[0] == Detected && path[|path| - 1] == Closed
    ensures GapPath(path) <==>
            path == [Detected, Reviewed, Accepted, Resurveyed, Closed] ||
            path == [Detected, Reviewed, FalsePositive, Closed]
  {
    if GapPath(path) {
      hide GapPath;
      GapPathFollows(path, 0);
      assert path[1] == Reviewed;
      GapPathFollows(path, 1);
      GapPathFollows(path, 2);
      if path[2] == FalsePositive {
        assert path[3] == Closed;
        if |path| > 4 { GapPathFollows(path, 3); }
        assert path == [path[0], path[1], path[2], path[3]];
      } else {
        assert path[3] == Resurveyed;
        GapPathFollows(path, 3);
        assert path[4] == Closed;
        if |path| > 5 { GapPathFollows(path, 4); }
        assert path == [path[0], path[1], path[2], path[3], path[4]];
      }
    }
  }

  lemma RunPathFollows(path: seq<RunState>, k: nat)
    requires RunPath(path) && k + 1 < |path|
    ensures path[k + 1] in RunTargets(path[k])
  {
  }

  predicate RunLife(path: seq<RunState>) {
    path == [Imported, Rejected] || path == [Imported, QualityChecked, Rejected] ||
    path == [Imported, QualityChecked, Processing, Rejected] ||
    path == [Imported, QualityChecked, Processing, RunState.Processed, Superseded]
  }

  /** The lives of a run from import to a state it cannot leave: superseded after processing, or rejected
      before. */
  lemma RunLives(path: seq<RunState>)
    requires path != [] && path[0] == Imported && RunTargets(path[|path| - 1]) == {}
    ensures RunPath(path) <==> RunLife(path)
  {
    if RunPath(path) {
      hide RunPath;
      RunPathFollows(path, 0);
      if path[1] == Rejected {
        if |path| > 2 { RunPathFollows(path, 1); }
        assert path == [path[0], path[1]];
      } else {
        RunPathFollows(path, 1);
        if path[2] == Rejected {
          if |path| > 3 { RunPathFollows(path, 2); }
          assert path == [path[0], path[1], path[2]];
        } else {
          RunPathFollows(path, 2);
          if path[3] == Rejected {
            if |path| > 4 { RunPathFollows(path, 3); }
            assert path == [path[0], path[1], path[2], path[3]];
          } else {
            RunPathFollows(path, 3);
            if |path| > 5 { RunPathFollows(path, 4); }
            assert path == [path[0], path[1], path[2], path[3], path[4]];
          }
        }
      }
    }
  }
}
