/** The rows of the four entities and the SQL statements the repositories issue. Each statement is
    one atomic step on the whole database value; `Repository` is the object the services call, its
    methods proved against those steps. Rows are never deleted. */
module Store {
  import opened Outcome
  import opened Segments
  import opened Rings
  import opened States
  import opened InputKeys

  // ---- Rows ----

  datatype AreaFields = AreaFields(
    name: string, boundary: Polygon, targetResolution: real, crs: string, defaultSwath: real,
    ownerTeam: string, status: AreaStatus)

  datatype Area = Area(code: string, fields: AreaFields, version: nat)

  datatype PlanFields = PlanFields(name: string, lines: seq<Line>, heading: real, swath: real, spacing: real)

  datatype Plan = Plan(areaId: nat, fields: PlanFields, state: PlanState, version: nat, createdBy: nat)

  datatype Run = Run(
    planId: nat, code: string, track: seq<Line>, swath: real, startedAt: int, endedAt: int,
    quality: Navigation, state: RunState, checksum: string, importedBy: nat, version: nat)

  /** The computed columns of a gap row. */
  datatype Findings = Findings(
    gap: Polygon, gapArea: real, gapRatio: real, severity: GapSeverity, recommended: Line,
    coverageRatio: real, overlapRatio: real)

  datatype Gap = Gap(
    areaId: nat, sourceRunIds: seq<nat>, findings: Findings, algorithm: string, key: InputKey,
    state: GapState, explanation: string, version: nat)

  datatype Db = Db(areas: map<nat, Area>, plans: map<nat, Plan>, runs: map<nat, Run>, gaps: map<nat, Gap>)

  // ---- Unique indexes ----

  ghost predicate KeyTaken(db: Db, key: InputKey) {
    exists id :: id in db.gaps && db.gaps[id].key == key
  }

  ghost predicate ChecksumTaken(db: Db, checksum: string) {
    exists id :: id in db.runs && db.runs[id].checksum == checksum
  }

  ghost predicate RunCodeTaken(db: Db, code: string) {
    exists id :: id in db.runs && db.runs[id].code == code
  }

  ghost predicate AreaCodeTaken(db: Db, code: string) {
    exists id :: id in db.areas && db.areas[id].code == code
  }

  /** The row found by its input key, if any. */
  ghost function GapByKey(db: Db, key: InputKey): (r: Option<nat>)
    ensures r.Some? ==> r.value in db.gaps && db.gaps[r.value].key == key
    ensures r.None? ==> !KeyTaken(db, key)
  {
    if KeyTaken(db, key) then var id :| id in db.gaps && db.gaps[id].key == key; Some(id) else None
  }

  ghost function RunByChecksum(db: Db, checksum: string): (r: Option<nat>)
    ensures r.Some? ==> r.value in db.runs && db.runs[r.value].checksum == checksum
    ensures r.None? ==> !ChecksumTaken(db, checksum)
  {
    if ChecksumTaken(db, checksum) then var id :| id in db.runs && db.runs[id].checksum == checksum; Some(id) else None
  }

  /** At most one run per checksum and one gap per input key. */
  ghost predicate UniqueIndexes(db: Db) {
    (forall i, j :: i in db.runs && j in db.runs && db.runs[i].checksum == db.runs[j].checksum ==> i == j) &&
    (forall i, j :: i in db.gaps && j in db.gaps && db.gaps[i].key == db.gaps[j].key ==> i == j)
  }

  /** A stored gap is the one its key finds. */
  lemma TheStoredGap(db: Db, key: InputKey, id: nat)
    requires UniqueIndexes(db) && id in db.gaps && db.gaps[id].key == key
    ensures GapByKey(db, key) == Some(id)
  {
  }

  // ---- Selected rows ----

  predicate NoDuplicates(ids: seq<nat>) {
    forall i, j :: 0 <= i < j < |ids| ==> ids[i] != ids[j]
  }

  /** `order` lists the stored rows among `ids`, each once, in whatever order the database returns them. */
  predicate Selects(order: seq<nat>, ids: seq<nat>, runs: map<nat, Run>) {
    NoDuplicates(order) && (forall id :: id in order ==> id in ids && id in runs) &&
    (forall id :: id in ids && id in runs ==> id in order)
  }

  function RowsOf(order: seq<nat>, runs: map<nat, Run>): (rows: seq<Run>)
    requires forall id :: id in order ==> id in runs
    ensures |rows| == |order| && forall i :: 0 <= i < |order| ==> rows[i] == runs[order[i]]
  {
    seq(|order|, i requires 0 <= i < |order| => assert order[i] in order; runs[order[i]])
  }

  // ---- Statements: the database after, and whether a row was affected ----

  datatype Effect = Effect(db: Db, affected: bool)

  /** UPDATE coverage_gaps ... WHERE id AND version AND gap_state. */
  function TransitionGap(db: Db, id: nat, expected: nat, from: GapState, to: GapState, explanation: string): Effect {
    if id in db.gaps && db.gaps[id].version == expected && db.gaps[id].state == from then
      var row := db.gaps[id].(state := to, explanation := explanation, version := expected + 1);
      Effect(db.(gaps := db.gaps[id := row]), true)
    else Effect(db, false)
  }

  /** INSERT INTO coverage_gaps, refused when the input key is taken. */
  ghost function InsertGap(db: Db, id: nat, row: Gap): Effect {
    if KeyTaken(db, row.key) then Effect(db, false) else Effect(db.(gaps := db.gaps[id := row]), true)
  }

  /** UPDATE sonar_runs ... WHERE id AND version AND run_state. */
  function TransitionRun(db: Db, id: nat, expected: nat, from: RunState, to: RunState): Effect {
    if id in db.runs && db.runs[id].version == expected && db.runs[id].state == from then
      var row := db.runs[id].(state := to, version := expected + 1);
      Effect(db.(runs := db.runs[id := row]), true)
    else Effect(db, false)
  }

  /** INSERT INTO sonar_runs, refused when the run code or checksum is taken. */
  ghost function InsertRun(db: Db, id: nat, row: Run): Effect {
    if ChecksumTaken(db, row.checksum) || RunCodeTaken(db, row.code) then Effect(db, false)
    else Effect(db.(runs := db.runs[id := row]), true)
  }

  /** UPDATE transect_plans ... WHERE id AND version: the state is not part of the condition. */
  function UpdatePlanRow(db: Db, id: nat, expected: nat, fields: PlanFields): Effect {
    if id in db.plans && db.plans[id].version == expected then
      Effect(db.(plans := db.plans[id := db.plans[id].(fields := fields, version := expected + 1)]), true)
    else Effect(db, false)
  }

  /** UPDATE transect_plans SET plan_state ... WHERE id AND version AND plan_state. */
  function TransitionPlan(db: Db, id: nat, expected: nat, from: PlanState, to: PlanState): Effect {
    if id in db.plans && db.plans[id].version == expected && db.plans[id].state == from then
      Effect(db.(plans := db.plans[id := db.plans[id].(state := to, version := expected + 1)]), true)
    else Effect(db, false)
  }

  function InsertPlan(db: Db, id: nat, row: Plan): Effect {
    Effect(db.(plans := db.plans[id := row]), true)
  }

  const COPY_MARK := " / 复制版本"

  /** The row `Copy` inserts: a draft one version past its source. */
  function CopiedPlan(source: Plan, actor: nat): Plan {
    source.(fields := source.fields.(name := source.fields.name + COPY_MARK),
            state := Draft, version := source.version + 1, createdBy := actor)
  }

  /** UPDATE survey_areas ... WHERE id AND version: the status is not part of the condition. */
  function UpdateAreaRow(db: Db, id: nat, expected: nat, fields: AreaFields): Effect {
    if id in db.areas && db.areas[id].version == expected then
      Effect(db.(areas := db.areas[id := db.areas[id].(fields := fields, version := expected + 1)]), true)
    else Effect(db, false)
  }

  ghost function InsertArea(db: Db, id: nat, row: Area): Effect {
    if AreaCodeTaken(db, row.code) then Effect(db, false) else Effect(db.(areas := db.areas[id := row]), true)
  }

  // ---- The repositories' object ----

  class Repository {
    var areas: map<nat, Area>
    var plans: map<nat, Plan>
    var runs: map<nat, Run>
    var gaps: map<nat, Gap>
    var nextId: nat

    /** Row numbers are handed out in sequence, and the unique indexes hold. */
    ghost predicate Valid()
      reads this
    {
      (forall id :: id in areas || id in plans || id in runs || id in gaps ==> id < nextId) &&
      UniqueIndexes(Contents())
    }

    ghost function Contents(): Db
      reads this
    {
      Db(areas, plans, runs, gaps)
    }

    constructor ()
      ensures Valid() && Contents() == Db(map[], map[], map[], map[])
    {
      areas, plans, runs, gaps, nextId := map[], map[], map[], map[], 0;
    }

    method ByInputHash(key: InputKey) returns (found: Option<nat>)
      ensures found.Some? ==> found.value in gaps && gaps[found.value].key == key
      ensures found.None? <==> !KeyTaken(Contents(), key)
    {
      var todo := gaps.Keys;
      found := None;
      while todo != {}
        invariant todo <= gaps.Keys && found.None?
        invariant forall id :: id in gaps && id !in todo ==> gaps[id].key != key
        decreases todo
      {
        var id :| id in todo;
        if gaps[id].key == key {
          return Some(id);
        }
        todo := todo - {id};
      }
    }

    method ByChecksum(checksum: string) returns (found: Option<nat>)
      ensures found.Some? ==> found.value in runs && runs[found.value].checksum == checksum
      ensures found.None? <==> !ChecksumTaken(Contents(), checksum)
    {
      var todo := runs.Keys;
      found := None;
      while todo != {}
        invariant todo <= runs.Keys && found.None?
        invariant forall id :: id in runs && id !in todo ==> runs[id].checksum != checksum
        decreases todo
      {
        var id :| id in todo;
        if runs[id].checksum == checksum {
          return Some(id);
        }
        todo := todo - {id};
      }
    }

    method HasRunCode(code: string) returns (taken: bool)
      ensures taken <==> RunCodeTaken(Contents(), code)
    {
      var todo := runs.Keys;
      while todo != {}
        invariant todo <= runs.Keys
        invariant forall id :: id in runs && id !in todo ==> runs[id].code != code
        decreases todo
      {
        var id :| id in todo;
        if runs[id].code == code {
          return true;
        }
        todo := todo - {id};
      }
      return false;
    }

    /** The stored rows among `ids`, in whatever order the database yields them. */
    method ByIds(ids: seq<nat>) returns (order: seq<nat>, rows: seq<Run>)
      ensures Selects(order, ids, runs) && rows == RowsOf(order, runs)
    {
      order, rows := [], [];
      var todo := runs.Keys;
      while todo != {}
        invariant todo <= runs.Keys && NoDuplicates(order)
        invariant forall id :: id in order ==> id in ids && id in runs && id !in todo
        invariant forall id :: id in ids && id in runs && id !in todo ==> id in order
        invariant rows == RowsOf(order, runs)
        decreases todo
      {
        var id :| id in todo;
        if id in ids {
          assert RowsOf(order + [id], runs) == RowsOf(order, runs) + [runs[id]];
          order, rows := order + [id], rows + [runs[id]];
        }
        todo := todo - {id};
      }
    }

    method CreateGap(row: Gap) returns (id: nat, affected: bool)
      requires Valid()
      modifies this
      ensures Valid() && id == old(nextId)
      ensures Effect(Contents(), affected) == InsertGap(old(Contents()), id, row)
    {
      id := nextId;
      var taken := ByInputHash(row.key);
      affected := taken.None?;
      if affected {
        gaps, nextId := gaps[id := row], nextId + 1;
      }
    }

    method CreateRun(row: Run) returns (id: nat, affected: bool)
      requires Valid()
      modifies this
      ensures Valid() && id == old(nextId)
      ensures Effect(Contents(), affected) == InsertRun(old(Contents()), id, row)
    {
      id := nextId;
      var taken := ByChecksum(row.checksum);
      var codeTaken := HasRunCode(row.code);
      affected := taken.None? && !codeTaken;
      if affected {
        runs, nextId := runs[id := row], nextId + 1;
      }
    }

    method TransitionGapRow(id: nat, expected: nat, from: GapState, to: GapState, explanation: string)
      returns (affected: bool)
      requires Valid()
      modifies this`gaps
      ensures Valid()
      ensures Effect(Contents(), affected) == TransitionGap(old(Contents()), id, expected, from, to, explanation)
    {
      affected := id in gaps && gaps[id].version == expected && gaps[id].state == from;
      if affected {
        gaps := gaps[id := gaps[id].(state := to, explanation := explanation, version := gaps[id].version + 1)];
      }
    }

    method TransitionRunRow(id: nat, expected: nat, from: RunState, to: RunState) returns (affected: bool)
      requires Valid()
      modifies this`runs
      ensures Valid()
      ensures Effect(Contents(), affected) == TransitionRun(old(Contents()), id, expected, from, to)
    {
      affected := id in runs && runs[id].version == expected && runs[id].state == from;
      if affected {
        runs := runs[id := runs[id].(state := to, version := runs[id].version + 1)];
      }
    }

    method UpdatePlanFields(id: nat, expected: nat, fields: PlanFields) returns (affected: bool)
      requires Valid()
      modifies this`plans
      ensures Valid()
      ensures Effect(Contents(), affected) == UpdatePlanRow(old(Contents()), id, expected, fields)
    {
      affected := id in plans && plans[id].version == expected;
      if affected {
        plans := plans[id := plans[id].(fields := fields, version := plans[id].version + 1)];
      }
    }

    method TransitionPlanRow(id: nat, expected: nat, from: PlanState, to: PlanState) returns (affected: bool)
      requires Valid()
      modifies this`plans
      ensures Valid()
      ensures Effect(Contents(), affected) == TransitionPlan(old(Contents()), id, expected, from, to)
    {
      affected := id in plans && plans[id].version == expected && plans[id].state == from;
      if affected {
        plans := plans[id := plans[id].(state := to, version := plans[id].version + 1)];
      }
    }

    method CreatePlanRow(row: Plan) returns (id: nat)
      requires Valid()
      modifies this
      ensures Valid() && id == old(nextId)
      ensures Contents() == InsertPlan(old(Contents()), id, row).db
    {
      id := nextId;
      plans, nextId := plans[id := row], nextId + 1;
    }

    /** Copies the struct, edits the copy's fields and inserts it. */
    method CopyPlanRow(source: Plan, actor: nat) returns (id: nat)
      requires Valid()
      modifies this
      ensures Valid() && id == old(nextId)
      ensures Contents() == InsertPlan(old(Contents()), id, CopiedPlan(source, actor)).db
    {
      var copy := source;
      copy := copy.(fields := copy.fields.(name := source.fields.name + COPY_MARK));
      copy := copy.(state := Draft);
      copy := copy.(version := source.version + 1);
      copy := copy.(createdBy := actor);
      id := nextId;
      plans, nextId := plans[id := copy], nextId + 1;
    }

    method HasAreaCode(code: string) returns (taken: bool)
      ensures taken <==> AreaCodeTaken(Contents(), code)
    {
      var todo := areas.Keys;
      while todo != {}
        invariant todo <= areas.Keys
        invariant forall id :: id in areas && id !in todo ==> areas[id].code != code
        decreases todo
      {
        var id :| id in todo;
        if areas[id].code == code {
          return true;
        }
        todo := todo - {id};
      }
      return false;
    }

    method CreateArea(row: Area) returns (id: nat, affected: bool)
      requires Valid()
      modifies this
      ensures Valid() && id == old(nextId)
      ensures Effect(Contents(), affected) == InsertArea(old(Contents()), id, row)
    {
      id := nextId;
      var taken := HasAreaCode(row.code);
      affected := !taken;
      if affected {
        areas, nextId := areas[id := row], nextId + 1;
      }
    }

    method UpdateAreaFields(id: nat, expected: nat, fields: AreaFields) returns (affected: bool)
      requires Valid()
      modifies this`areas
      ensures Valid()
      ensures Effect(Contents(), affected) == UpdateAreaRow(old(Contents()), id, expected, fields)
    {
      affected := id in areas && areas[id].version == expected;
      if affected {
        areas := areas[id := areas[id].(fields := fields, version := areas[id].version + 1)];
      }
    }
  }
}
