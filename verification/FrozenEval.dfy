/** Sealed evaluation records: validating, grading, and verifying a bundle of them. */
module FrozenEval {
  import opened Grader
  import opened Responder
  import opened Wrappers

  // ----- records ---------------------------------------------------------------

  datatype Status = Completed | FailedRow | Abstained | Interrupted | Unexecuted

  /** Token counts; None is an unknown count. */
  datatype Usage = Usage(inputTokens: Option<int>, outputTokens: Option<int>)

  datatype Row = Row(id: string, status: Status, reason: string, usage: Option<Usage>, turn: Option<Turn>)

  datatype Split = Pilot | HeldOut | OtherSplit

  datatype Case = Case(id: string, historyId: string, taskId: string, split: Split, question: string, asked: Expect)

  datatype Purpose = PilotRun | Diagnostic | Qualification | OtherPurpose

  /** Check rows are tuples in memory and lists once written and read back. */
  datatype Checks = Tuples(g: Graded) | Lists(g: Graded)

  datatype ScoreReason = ChecksFailed | MissingCompletion | CompletedRow | RowStatus(status: Status)

  datatype Score = Score(id: string, outcome: Outcome, reason: ScoreReason, checks: Option<Checks>)

  datatype Body =
    | Manifest(purpose: Purpose, cases: seq<Case>, source: string, queryHash: string, decision: bool, settings: string)
    | Raw(manifestId: string, source: string, purpose: Purpose, runId: string, frozenCommit: string, rows: seq<Row>)
    | Grading(manifestId: string, rawId: string, source: string, grader: string, evaluator: string,
              revision: string, completed: bool, exitCode: int, scores: seq<Score>, unknownUsageRows: nat)

  datatype Record = Record(schemaVersion: int, id: string, body: Body)

  /** What the module relies on: the content digest of a record without its id, the digest of the questions,
      the identities of the current grader and evaluator sources, what counts as an identity, the remaining
      field checks of a manifest, and whether a commit holds a manifest. */
  datatype Env = Env(
    digest: (int, Body) -> string, queryDigest: seq<(string, string)> -> string, graderId: string, evaluatorId: string,
    isIdentity: string -> bool, settingsValid: Body -> bool, committed: (Record, string) -> bool)

  /** json.loads(json.dumps(record)): every tuple becomes a list. */
  function ReadBackScore(s: Score): Score {
    s.(checks := if s.checks.Some? then Some(Lists(s.checks.value.g)) else None)
  }

  function ReadBackScores(ss: seq<Score>): seq<Score> {
    seq(|ss|, i requires 0 <= i < |ss| => ReadBackScore(ss[i]))
  }

  function ReadBackBody(b: Body): Body {
    if b.Grading? then b.(scores := ReadBackScores(b.scores)) else b
  }

  function ReadBack(r: Record): Record {
    r.(body := ReadBackBody(r.body))
  }

  function Seal(env: Env, b: Body): Record {
    Record(1, env.digest(1, b), b)
  }

  /** The record has the known schema and is named by its own content. */
  predicate EnvelopeOk(env: Env, r: Record) {
    r.schemaVersion == 1 && r.id == env.digest(r.schemaVersion, r.body)
  }

  /** The digest is of the written form: tuples and lists are written alike. */
  ghost predicate DigestsWrittenForm(env: Env) {
    forall v, b :: env.digest(v, b) == env.digest(v, ReadBackBody(b))
  }

  // ----- manifests and raw records ---------------------------------------------------

  function CaseIds(cases: seq<Case>): seq<string> {
    seq(|cases|, i requires 0 <= i < |cases| => cases[i].id)
  }

  function RowIds(rows: seq<Row>): seq<string> {
    seq(|rows|, i requires 0 <= i < |rows| => rows[i].id)
  }

  function ScoreIds(ss: seq<Score>): seq<string> {
    seq(|ss|, i requires 0 <= i < |ss| => ss[i].id)
  }

  predicate Distinct<T(==)>(xs: seq<T>) {
    forall i, j | 0 <= i < j < |xs| :: xs[i] != xs[j]
  }

  /** A non-empty list of distinct, non-empty names. */
  predicate GoodIds(names: seq<string>) {
    names != [] && (forall n | n in names :: n != "") && Distinct(names)
  }

  function Questions(cases: seq<Case>): seq<(string, string)> {
    seq(|cases|, i requires 0 <= i < |cases| => (cases[i].id, cases[i].question))
  }

  /** No history is in two splits, and no history has a task twice. */
  predicate Unleaked(cases: seq<Case>) {
    forall i, j | 0 <= i < j < |cases| && cases[i].historyId == cases[j].historyId ::
      cases[i].split == cases[j].split && cases[i].taskId != cases[j].taskId
  }

  /** The two dictionaries the validator fills over the cases. */
  method CheckAssignments(cases: seq<Case>) returns (ok: bool)
    ensures ok <==> Unleaked(cases)
  {
    hide Unleaked, Filled;
    var assignments: map<string, Split> := map[];
    var tasks: set<(string, string)> := {};
    UnleakedStart(cases);
    for i := 0 to |cases|
      invariant Unleaked(cases[..i]) && Filled(cases[..i], assignments, tasks)
    {
      var c := cases[i];
      assert cases[..i + 1] == cases[..i] + [c];
      UnleakedOneMore(cases[..i], c);
      UnleakedPrefix(cases, i + 1);
      FilledTells(cases[..i], assignments, tasks, c);
      if c.historyId in assignments && assignments[c.historyId] != c.split {
        return false;
      }
      FilledOneMore(cases[..i], assignments, tasks, c);
      assignments := assignments[c.historyId := c.split];
      if (c.historyId, c.taskId) in tasks {
        return false;
      }
      tasks := tasks + {(c.historyId, c.taskId)};
    }
    assert cases[..|cases|] == cases;
    ok := true;
  }

  function Histories(cases: seq<Case>): set<string> {
    set c | c in cases :: c.historyId
  }

  function Tasks(cases: seq<Case>): set<(string, string)> {
    set c | c in cases :: (c.historyId, c.taskId)
  }

  predicate SplitsAre(cases: seq<Case>, assignments: map<string, Split>) {
    forall c | c in cases :: c.historyId in assignments && assignments[c.historyId] == c.split
  }

  /** The two dictionaries hold exactly what the cases say. */
  predicate Filled(cases: seq<Case>, assignments: map<string, Split>, tasks: set<(string, string)>) {
    assignments.Keys == Histories(cases) && SplitsAre(cases, assignments) && tasks == Tasks(cases)
  }

  /** What the dictionaries tell about one more case. */
  lemma FilledTells(cases: seq<Case>, assignments: map<string, Split>, tasks: set<(string, string)>, c: Case)
    requires Filled(cases, assignments, tasks)
    ensures c.historyId in assignments && assignments[c.historyId] != c.split <==>
              exists d | d in cases :: d.historyId == c.historyId && d.split != c.split
    ensures (c.historyId, c.taskId) in tasks <==>
              exists d | d in cases :: d.historyId == c.historyId && d.taskId == c.taskId
  {
    if c.historyId in assignments {
      assert c.historyId in Histories(cases);
      var d :| d in cases && d.historyId == c.historyId;
    }
  }

  /** Recording a case that repeats no task and agrees with its history's split. */
  lemma FilledOneMore(cases: seq<Case>, assignments: map<string, Split>, tasks: set<(string, string)>, c: Case)
    requires Filled(cases, assignments, tasks)
    requires c.historyId in assignments ==> assignments[c.historyId] == c.split
    ensures Filled(cases + [c], assignments[c.historyId := c.split], tasks + {(c.historyId, c.taskId)})
  {
    var all := cases + [c];
    assert Histories(all) == Histories(cases) + {c.historyId};
    assert Tasks(all) == Tasks(cases) + {(c.historyId, c.taskId)};
    hide Histories, Tasks;
    assert SplitsAre(all, assignments[c.historyId := c.split]);
  }

  lemma UnleakedStart(cases: seq<Case>)
    ensures Unleaked(cases[..0]) && Filled(cases[..0], map[], {})
  {
  }

  lemma UnleakedOneMore(cases: seq<Case>, c: Case)
    ensures Unleaked(cases + [c]) <==>
              Unleaked(cases) &&
              forall d | d in cases && d.historyId == c.historyId :: d.split == c.split && d.taskId != c.taskId
  {
    var all := cases + [c];
    if Unleaked(all) {
      forall i, j | 0 <= i < j < |cases| && cases[i].historyId == cases[j].historyId
        ensures cases[i].split == cases[j].split && cases[i].taskId != cases[j].taskId
      {
        assert all[i] == cases[i] && all[j] == cases[j];
      }
      forall d | d in cases && d.historyId == c.historyId ensures d.split == c.split && d.taskId != c.taskId {
        var i :| 0 <= i < |cases| && cases[i] == d;
        assert all[i] == d && all[|cases|] == c;
      }
    }
  }

  lemma UnleakedPrefix(cases: seq<Case>, n: nat)
    requires n <= |cases|
    ensures Unleaked(cases) ==> Unleaked(cases[..n])
  {
  }

  predicate ValidManifest(env: Env, m: Record) {
    m.body.Manifest? && EnvelopeOk(env, m) && GoodIds(CaseIds(m.body.cases)) && env.settingsValid(m.body) &&
    m.body.purpose != OtherPurpose && m.body.queryHash == env.queryDigest(Questions(m.body.cases)) &&
    (forall c | c in m.body.cases :: c.split != OtherSplit) && Unleaked(m.body.cases) &&
    (m.body.purpose == Qualification ==> m.body.decision && forall c | c in m.body.cases :: c.split == HeldOut)
  }

  predicate IsGraded(s: Status) {
    s == Status.Completed || s == Abstained
  }

  predicate ValidRow(r: Row) {
    r.reason != "" && (IsGraded(r.status) ==> r.turn.Some?) &&
    (r.usage.Some? ==>
      (r.usage.value.inputTokens.Some? ==> r.usage.value.inputTokens.value >= 0) &&
      (r.usage.value.outputTokens.Some? ==> r.usage.value.outputTokens.value >= 0))
  }

  predicate ValidRaw(env: Env, m: Record, raw: Record) {
    ValidManifest(env, m) && raw.body.Raw? && EnvelopeOk(env, raw) && raw.body.manifestId == m.id &&
    raw.body.source == m.body.source && GoodIds(RowIds(raw.body.rows)) &&
    (forall n | n in RowIds(raw.body.rows) :: n in CaseIds(m.body.cases)) &&
    (forall n | n in CaseIds(m.body.cases) :: n in RowIds(raw.body.rows)) &&
    raw.body.purpose == m.body.purpose && raw.body.runId != "" &&
    (m.body.purpose == Qualification ==> env.committed(m, raw.body.frozenCommit)) &&
    forall r | r in raw.body.rows :: ValidRow(r)
  }

  // ----- grading ----------------------------------------------------------------------

  /** The row of a case; ids are distinct, so there is only one. */
  function RowOf(rows: seq<Row>, id: string): (r: Row)
    requires id in RowIds(rows)
    ensures r in rows && r.id == id
  {
    if rows[0].id == id then rows[0]
    else
      assert RowIds(rows) == [rows[0].id] + RowIds(rows[1..]);
      RowOf(rows[1..], id)
  }

  function ScoreOf(c: Case, row: Row): Score
    requires ValidRow(row)
  {
    if !IsGraded(row.status) then
      Score(c.id, if row.status == FailedRow then Failed else NotRun, RowStatus(row.status), None)
    else
      var g := Grade(c.asked, row.turn.value, true);
      var outcome := OutcomeOf(g);
      Score(c.id, outcome,
            if outcome == Failed then ChecksFailed else if outcome == NotRun then MissingCompletion else CompletedRow,
            Some(Tuples(g)))
  }

  predicate AnyOutcome(ss: seq<Score>, o: Outcome) {
    exists s | s in ss :: s.outcome == o
  }

  function ExitCode(ss: seq<Score>): int {
    if AnyOutcome(ss, Failed) then 1 else if AnyOutcome(ss, NotRun) then 3 else 0
  }

  predicate UsageUnknown(r: Row) {
    r.usage.None? || r.usage.value.inputTokens.None? || r.usage.value.outputTokens.None?
  }

  function UnknownUsage(rows: seq<Row>): nat {
    if rows == [] then 0 else UnknownUsage(rows[1..]) + if UsageUnknown(rows[0]) then 1 else 0
  }

  function ScoresOf(m: Record, raw: Record): seq<Score>
    requires m.body.Manifest? && raw.body.Raw?
    requires forall n | n in CaseIds(m.body.cases) :: n in RowIds(raw.body.rows)
    requires forall r | r in raw.body.rows :: ValidRow(r)
  {
    seq(|m.body.cases|, i requires 0 <= i < |m.body.cases| =>
      assert CaseIds(m.body.cases)[i] == m.body.cases[i].id;
      ScoreOf(m.body.cases[i], RowOf(raw.body.rows, m.body.cases[i].id)))
  }

  /** The sealed record a grading appends. */
  function GradeOf(env: Env, m: Record, raw: Record, revision: string): Record
    requires ValidRaw(env, m, raw)
  {
    var scores := ScoresOf(m, raw);
    Seal(env, Grading(m.id, raw.id, raw.body.source, env.graderId, env.evaluatorId, revision,
                      !AnyOutcome(scores, NotRun), ExitCode(scores), scores, UnknownUsage(raw.body.rows)))
  }

  /** One pass of the grading loop. */
  method ScoreCase(c: Case, row: Row) returns (s: Score)
    requires ValidRow(row)
    ensures s == ScoreOf(c, row)
  {
    hide Grade, OutcomeOf;
    if !IsGraded(row.status) {
      return Score(c.id, if row.status == FailedRow then Failed else NotRun, RowStatus(row.status), None);
    }
    var checked := GradeCase(c.asked, row.turn.value, true);
    var outcome := OutcomeOf(checked);
    var reason :=
      if outcome == Failed then ChecksFailed else if outcome == NotRun then MissingCompletion else CompletedRow;
    s := Score(c.id, outcome, reason, Some(Tuples(checked)));
  }

  method CountUnknown(rows: seq<Row>) returns (unknown: nat)
    ensures unknown == UnknownUsage(rows)
  {
    unknown := 0;
    for i := |rows| downto 0
      invariant unknown == UnknownUsage(rows[i..])
    {
      assert rows[i..][1..] == rows[i + 1..];
      if UsageUnknown(rows[i]) {
        unknown := unknown + 1;
      }
    }
    assert rows[0..] == rows;
  }

  /** The grading loop. */
  method ScoreAll(m: Record, raw: Record) returns (scores: seq<Score>)
    requires m.body.Manifest? && raw.body.Raw?
    requires forall n | n in CaseIds(m.body.cases) :: n in RowIds(raw.body.rows)
    requires forall r | r in raw.body.rows :: ValidRow(r)
    ensures scores == ScoresOf(m, raw)
  {
    hide ScoreOf, ValidRow;
    var cases := m.body.cases;
    scores := [];
    for i := 0 to |cases|
      invariant |scores| == i && forall j | 0 <= j < i :: scores[j] == ScoresOf(m, raw)[j]
    {
      assert CaseIds(cases)[i] == cases[i].id;
      var score := ScoreCase(cases[i], RowOf(raw.body.rows, cases[i].id));
      scores := scores + [score];
    }
  }

  method GradeRaw(env: Env, m: Record, raw: Record, revision: string) returns (r: Option<Record>)
    ensures r == if ValidRaw(env, m, raw) && revision != "" then Some(GradeOf(env, m, raw, revision)) else None
  {
    hide ValidRow, ScoresOf, UnknownUsage, GoodIds, Unleaked, EnvelopeOk;
    if !ValidRaw(env, m, raw) || revision == "" {
      return None;
    }
    var scores := ScoreAll(m, raw);
    var unknown := CountUnknown(raw.body.rows);
    r := Some(Seal(env, Grading(m.id, raw.id, raw.body.source, env.graderId, env.evaluatorId, revision,
                                !AnyOutcome(scores, NotRun), ExitCode(scores), scores, unknown)));
  }

  // ----- verifying a bundle ---------------------------------------------------------------

  function ById(records: seq<Record>): map<string, Record> {
    if records == [] then map[]
    else ById(records[..|records| - 1])[records[|records| - 1].id := records[|records| - 1]]
  }

  /** A grading record agrees with itself, with the manifest and raw record it names and, when made by
      the current grader, with grading them again. */
  predicate GradingOk(env: Env, byId: map<string, Record>, r: Record)
    requires r.body.Grading?
  {
    var b := r.body;
    b.manifestId in byId && b.rawId in byId &&
    var m, raw := byId[b.manifestId], byId[b.rawId];
    ValidRaw(env, m, raw) && b.source == m.body.source && env.isIdentity(b.grader) && env.isIdentity(b.evaluator) &&
    GoodIds(ScoreIds(b.scores)) && ScoreIds(b.scores) == CaseIds(m.body.cases) &&
    b.exitCode == ExitCode(b.scores) && b.completed == !AnyOutcome(b.scores, NotRun) &&
    (b.grader == env.graderId && b.evaluator == env.evaluatorId ==>
      b.revision != "" && r == ReadBack(GradeOf(env, m, raw, b.revision)))
  }

  predicate RecordOk(env: Env, byId: map<string, Record>, r: Record) {
    match r.body
    case Manifest(_, _, _, _, _, _) => ValidManifest(env, r)
    case Raw(manifestId, _, _, _, _, _) => manifestId in byId && ValidRaw(env, byId[manifestId], r)
    case Grading(_, _, _, _, _, _, _, _, _, _) => GradingOk(env, byId, r)
  }

  function IdsOf(records: seq<Record>): seq<string> {
    seq(|records|, i requires 0 <= i < |records| => records[i].id)
  }

  predicate AllSealed(env: Env, records: seq<Record>) {
    forall r | r in records :: EnvelopeOk(env, r)
  }

  predicate AllOk(env: Env, byId: map<string, Record>, records: seq<Record>) {
    forall r | r in records :: RecordOk(env, byId, r)
  }

  function RunOf(r: Record): (string, string)
    requires r.body.Raw?
  {
    (r.body.manifestId, r.body.runId)
  }

  predicate DistinctRuns(records: seq<Record>) {
    forall i, j | 0 <= i < j < |records| && records[i].body.Raw? && records[j].body.Raw? ::
      RunOf(records[i]) != RunOf(records[j])
  }

  /** Every record is sealed, named once and valid next to the others, and no run is recorded twice. */
  predicate Accepts(env: Env, records: seq<Record>) {
    AllSealed(env, records) && Distinct(IdsOf(records)) && AllOk(env, ById(records), records) && DistinctRuns(records)
  }

  lemma {:induction false} ByIdKeys(records: seq<Record>)
    ensures forall k :: k in ById(records) <==> k in IdsOf(records)
  {
    if records != [] {
      var n := |records| - 1;
      ByIdKeys(records[..n]);
      assert IdsOf(records) == IdsOf(records[..n]) + [records[n].id];
    }
  }

  lemma DistinctOneMore(xs: seq<string>, x: string)
    ensures Distinct(xs + [x]) <==> Distinct(xs) && x !in xs
  {
    var all := xs + [x];
    if x in xs {
      var j :| 0 <= j < |xs| && xs[j] == x;
      assert all[j] == all[|xs|];
    }
    if Distinct(all) {
      forall i, j | 0 <= i < j < |xs| ensures xs[i] != xs[j] {
        assert all[i] == xs[i] && all[j] == xs[j];
      }
    }
  }

  lemma ByIdOneMore(records: seq<Record>, i: nat)
    requires i < |records| && Distinct(IdsOf(records[..i]))
    ensures ById(records[..i + 1]) == ById(records[..i])[records[i].id := records[i]]
    ensures Distinct(IdsOf(records[..i + 1])) <==> records[i].id !in ById(records[..i])
  {
    assert records[..i + 1][..i] == records[..i];
    ByIdKeys(records[..i]);
    assert IdsOf(records[..i + 1]) == IdsOf(records[..i]) + [records[i].id];
    DistinctOneMore(IdsOf(records[..i]), records[i].id);
  }

  lemma DistinctPrefix(records: seq<Record>, i: nat)
    requires i <= |records| && Distinct(IdsOf(records))
    ensures Distinct(IdsOf(records[..i]))
  {
    forall a, b | 0 <= a < b < i ensures IdsOf(records[..i])[a] != IdsOf(records[..i])[b] {
      assert IdsOf(records)[a] != IdsOf(records)[b];
    }
  }

  /** The first loop: every record sealed, every id new. */
  method IndexRecords(env: Env, records: seq<Record>) returns (r: Option<map<string, Record>>)
    ensures r == if AllSealed(env, records) && Distinct(IdsOf(records)) then Some(ById(records)) else None
  {
    hide EnvelopeOk, Distinct, ById;
    var byId: map<string, Record> := map[];
    EmptyBundle();
    assert records[..0] == [];
    for i := 0 to |records|
      invariant byId == ById(records[..i]) && Distinct(IdsOf(records[..i])) && AllSealed(env, records[..i])
    {
      if !EnvelopeOk(env, records[i]) { return None; }
      ByIdOneMore(records, i);
      if Distinct(IdsOf(records)) { DistinctPrefix(records, i + 1); }
      if records[i].id in byId { return None; }
      assert records[..i + 1] == records[..i] + [records[i]];
      byId := byId[records[i].id := records[i]];
    }
    assert records[..|records|] == records;
    r := Some(byId);
  }

  lemma EmptyBundle()
    ensures ById([]) == map[] && Distinct(IdsOf([])) && DistinctRuns([]) && RunsIn([]) == {}
  {
  }

  /** The runs recorded so far. */
  function RunsIn(records: seq<Record>): set<(string, string)> {
    set r | r in records && r.body.Raw? :: RunOf(r)
  }

  lemma RunsOneMore(records: seq<Record>, g: Record)
    ensures DistinctRuns(records + [g]) <==> DistinctRuns(records) && (g.body.Raw? ==> RunOf(g) !in RunsIn(records))
    ensures RunsIn(records + [g]) == RunsIn(records) + if g.body.Raw? then {RunOf(g)} else {}
  {
    var all := records + [g];
    if g.body.Raw? && RunOf(g) in RunsIn(records) {
      var x :| x in records && x.body.Raw? && RunOf(x) == RunOf(g);
      var i :| 0 <= i < |records| && records[i] == x;
      assert all[i] == x && all[|records|] == g;
    }
    if DistinctRuns(all) {
      forall i, j | 0 <= i < j < |records| && records[i].body.Raw? && records[j].body.Raw?
        ensures RunOf(records[i]) != RunOf(records[j])
      {
        assert all[i] == records[i] && all[j] == records[j];
      }
    }
  }

  lemma RunsPrefix(records: seq<Record>, i: nat)
    requires i <= |records| && DistinctRuns(records)
    ensures DistinctRuns(records[..i])
  {
  }

  /** The second loop: every record valid next to the others, no run twice. */
  method CheckRecords(env: Env, byId: map<string, Record>, records: seq<Record>) returns (ok: bool)
    ensures ok <==> AllOk(env, byId, records) && DistinctRuns(records)
  {
    hide RecordOk, DistinctRuns, RunsIn;
    var runs: set<(string, string)> := {};
    EmptyBundle();
    assert records[..0] == [];
    for i := 0 to |records|
      invariant AllOk(env, byId, records[..i]) && DistinctRuns(records[..i]) && runs == RunsIn(records[..i])
    {
      var record := records[i];
      if !RecordOk(env, byId, record) { return false; }
      RunsOneMore(records[..i], record);
      assert records[..i + 1] == records[..i] + [record];
      if DistinctRuns(records) { RunsPrefix(records, i + 1); }
      if record.body.Raw? {
        var run := RunOf(record);
        if run in runs { return false; }
        runs := runs + {run};
      }
    }
    assert records[..|records|] == records;
    ok := true;
  }

  method VerifyBundle(env: Env, records: seq<Record>) returns (r: Option<map<string, Record>>)
    ensures r == if Accepts(env, records) then Some(ById(records)) else None
  {
    hide EnvelopeOk, RecordOk, Distinct, DistinctRuns, ById;
    r := IndexRecords(env, records);
    if r.Some? {
      var ok := CheckRecords(env, r.value, records);
      r := if ok then r else None;
    }
  }

  // ----- what grading and verifying promise each other ------------------------------------

  /** The exit code is 1, 3 or 0 exactly by failed, then not run, then all passed. */
  lemma ExitCodeMeans(ss: seq<Score>)
    ensures ExitCode(ss) == 1 <==> exists s | s in ss :: s.outcome == Failed
    ensures ExitCode(ss) == 3 <==> (forall s | s in ss :: s.outcome != Failed) && exists s | s in ss :: s.outcome == NotRun
    ensures ExitCode(ss) == 0 <==> forall s | s in ss :: s.outcome == Passed
    ensures ExitCode(ss) in {0, 1, 3}
  {
    forall s | s in ss ensures s.outcome == Passed || s.outcome == Failed || s.outcome == NotRun {
    }
  }

  /** The row was answered, by completing or by abstaining. */
  predicate WasAnswered(row: Row) {
    row.status == Status.Completed || row.status == Abstained
  }

  /** The case failed: its row did, or it was answered by a turn that contradicts the expectation. */
  predicate Fails(c: Case, row: Row)
    requires ValidRow(row)
  {
    row.status == FailedRow ||
    (WasAnswered(row) &&
     (!EvidenceMet(c.asked, row.turn.value) || row.turn.value.completion.MalformedCompletion? ||
      (Answered(row.turn.value) && !AnswerMet(c.asked, row.turn.value))))
  }

  /** The case was not run: its row was interrupted or never executed, or it was answered without a text. */
  predicate Skipped(c: Case, row: Row)
    requires ValidRow(row)
  {
    row.status == Interrupted || row.status == Unexecuted ||
    (WasAnswered(row) && EvidenceMet(c.asked, row.turn.value) &&
     !row.turn.value.completion.MalformedCompletion? && !Answered(row.turn.value))
  }

  /** A case is scored failed, not run or passed exactly by its row's status and, when it was answered, by
      what its turn has of the expectation; the reason says which. */
  lemma ScoreMeans(c: Case, row: Row)
    requires ValidRow(row)
    ensures ScoreOf(c, row).id == c.id
    ensures ScoreOf(c, row).outcome == Failed <==> Fails(c, row)
    ensures ScoreOf(c, row).outcome == NotRun <==> Skipped(c, row)
    ensures ScoreOf(c, row).outcome == Passed <==>
              WasAnswered(row) && EvidenceMet(c.asked, row.turn.value) && AnswerMet(c.asked, row.turn.value)
    ensures !WasAnswered(row) ==> ScoreOf(c, row).reason == RowStatus(row.status) && ScoreOf(c, row).checks.None?
    ensures WasAnswered(row) ==>
              ScoreOf(c, row).checks == Some(Tuples(Grade(c.asked, row.turn.value, true))) &&
              (ScoreOf(c, row).reason == ChecksFailed <==> Fails(c, row)) &&
              (ScoreOf(c, row).reason == MissingCompletion <==> Skipped(c, row))
  {
    if WasAnswered(row) {
      PassedIsMet(c.asked, row.turn.value);
      FailedMeans(c.asked, row.turn.value);
      NotRunMeans(c.asked, row.turn.value);
    }
    hide EvidenceMet, AnswerMet, Answered, Grade, OutcomeOf;
  }

  /** In a valid raw record the row of a case is the only row of its id. */
  lemma RowIsUnique(rows: seq<Row>, row: Row)
    requires Distinct(RowIds(rows)) && row in rows
    ensures row.id in RowIds(rows) && RowOf(rows, row.id) == row
  {
    var i :| 0 <= i < |rows| && rows[i] == row;
    assert RowIds(rows)[i] == row.id;
    var other := RowOf(rows, row.id);
    var j :| 0 <= j < |rows| && rows[j] == other;
    assert RowIds(rows)[j] == other.id;
  }

  lemma ScoreAt(m: Record, raw: Record, c: Case, row: Row) returns (s: Score)
    requires m.body.Manifest? && raw.body.Raw? && Distinct(RowIds(raw.body.rows))
    requires forall n | n in CaseIds(m.body.cases) :: n in RowIds(raw.body.rows)
    requires forall r | r in raw.body.rows :: ValidRow(r)
    requires c in m.body.cases && row in raw.body.rows && row.id == c.id
    ensures s in ScoresOf(m, raw) && s == ScoreOf(c, row)
  {
    var i :| 0 <= i < |m.body.cases| && m.body.cases[i] == c;
    RowIsUnique(raw.body.rows, row);
    hide ScoreOf, ValidRow;
    s := ScoresOf(m, raw)[i];
  }

  lemma ScoreFrom(m: Record, raw: Record, s: Score) returns (c: Case, row: Row)
    requires m.body.Manifest? && raw.body.Raw?
    requires forall n | n in CaseIds(m.body.cases) :: n in RowIds(raw.body.rows)
    requires forall r | r in raw.body.rows :: ValidRow(r)
    requires s in ScoresOf(m, raw)
    ensures c in m.body.cases && row in raw.body.rows && row.id == c.id && s == ScoreOf(c, row)
  {
    var i :| 0 <= i < |ScoresOf(m, raw)| && ScoresOf(m, raw)[i] == s;
    c := m.body.cases[i];
    assert CaseIds(m.body.cases)[i] == c.id;
    row := RowOf(raw.body.rows, c.id);
  }

  /** Some case and its row. */
  ghost predicate SomeCase(m: Record, raw: Record, failing: bool)
    requires m.body.Manifest? && raw.body.Raw? && forall r | r in raw.body.rows :: ValidRow(r)
  {
    exists c, row :: c in m.body.cases && row in raw.body.rows && row.id == c.id &&
      if failing then Fails(c, row) else Skipped(c, row)
  }

  lemma OutcomesAre(m: Record, raw: Record)
    requires m.body.Manifest? && raw.body.Raw? && Distinct(RowIds(raw.body.rows))
    requires forall n | n in CaseIds(m.body.cases) :: n in RowIds(raw.body.rows)
    requires forall r | r in raw.body.rows :: ValidRow(r)
    ensures AnyOutcome(ScoresOf(m, raw), Failed) <==> SomeCase(m, raw, true)
    ensures AnyOutcome(ScoresOf(m, raw), NotRun) <==> SomeCase(m, raw, false)
  {
    hide ScoreOf, ValidRow, ScoresOf, Fails, Skipped;
    forall failing: bool
      ensures AnyOutcome(ScoresOf(m, raw), if failing then Failed else NotRun) <==> SomeCase(m, raw, failing)
    {
      if s :| s in ScoresOf(m, raw) && s.outcome == if failing then Failed else NotRun {
        var c, row := ScoreFrom(m, raw, s);
        ScoreMeans(c, row);
      }
      if SomeCase(m, raw, failing) {
        var c, row :| c in m.body.cases && row in raw.body.rows && row.id == c.id &&
          if failing then Fails(c, row) else Skipped(c, row);
        var s := ScoreAt(m, raw, c, row);
        ScoreMeans(c, row);
      }
    }
    assert AnyOutcome(ScoresOf(m, raw), Failed) <==> SomeCase(m, raw, true);
  }

  /** The exit code of a grading, told from the manifest and the raw rows: 1 when some case failed, otherwise 3
      when some case was not run, otherwise 0; completed says that none was not run. */
  lemma GradingMeans(env: Env, m: Record, raw: Record, revision: string)
    requires ValidRaw(env, m, raw)
    ensures var b := GradeOf(env, m, raw, revision).body;
            b.exitCode == (if SomeCase(m, raw, true) then 1 else if SomeCase(m, raw, false) then 3 else 0) &&
            (b.completed <==> !SomeCase(m, raw, false))
    ensures var b := GradeOf(env, m, raw, revision).body;
            b.manifestId == m.id && b.rawId == raw.id && b.source == m.body.source && b.revision == revision &&
            b.grader == env.graderId && b.evaluator == env.evaluatorId
  {
    OutcomesAre(m, raw);
    hide SomeCase, ScoresOf, AnyOutcome, ValidManifest, ValidRow, EnvelopeOk, UnknownUsage;
  }

  /** Unknown usage is counted row by row: a row counts when its usage, or one of its two counts, is unknown. */
  lemma {:induction false} UnknownUsageAdds(a: seq<Row>, b: seq<Row>, r: Row)
    ensures UnknownUsage(a + b) == UnknownUsage(a) + UnknownUsage(b)
    ensures UnknownUsage([]) == 0
    ensures UnknownUsage([r]) ==
            if r.usage.None? || r.usage.value.inputTokens.None? || r.usage.value.outputTokens.None? then 1 else 0
  {
    assert [r][1..] == [];
    if a == [] {
      assert a + b == b;
    } else {
      assert (a + b)[1..] == a[1..] + b;
      UnknownUsageAdds(a[1..], b, r);
    }
  }

  lemma IdsAndCases(cases: seq<Case>, n: string)
    ensures n in CaseIds(cases) <==> exists c | c in cases :: c.id == n
  {
    if n in CaseIds(cases) {
      var i :| 0 <= i < |CaseIds(cases)| && CaseIds(cases)[i] == n;
      assert cases[i] in cases;
    }
    if c :| c in cases && c.id == n {
      var i :| 0 <= i < |cases| && cases[i] == c;
      assert CaseIds(cases)[i] == n;
    }
  }

  lemma IdsAndRows(rows: seq<Row>, n: string)
    ensures n in RowIds(rows) <==> exists r | r in rows :: r.id == n
  {
    if n in RowIds(rows) {
      var i :| 0 <= i < |RowIds(rows)| && RowIds(rows)[i] == n;
      assert rows[i] in rows;
    }
    if r :| r in rows && r.id == n {
      var i :| 0 <= i < |rows| && rows[i] == r;
      assert RowIds(rows)[i] == n;
    }
  }

  lemma SameSize(xs: seq<string>, ys: seq<string>)
    requires Distinct(xs) && Distinct(ys) && (forall n | n in xs :: n in ys) && forall n | n in ys :: n in xs
    ensures |xs| == |ys|
  {
    DistinctSize(xs);
    DistinctSize(ys);
    assert (set n | n in xs) == (set n | n in ys);
  }

  /** A valid raw record has exactly one row for every case, and none besides. */
  lemma RowsAreTheCases(env: Env, m: Record, raw: Record)
    requires ValidRaw(env, m, raw)
    ensures |raw.body.rows| == |m.body.cases|
    ensures forall c | c in m.body.cases :: exists row | row in raw.body.rows :: row.id == c.id
    ensures forall row | row in raw.body.rows :: exists c | c in m.body.cases :: c.id == row.id
    ensures forall i, j | 0 <= i < j < |raw.body.rows| :: raw.body.rows[i].id != raw.body.rows[j].id
  {
    var rows, cases := raw.body.rows, m.body.cases;
    SameSize(RowIds(rows), CaseIds(cases));
    hide ValidRow, EnvelopeOk, Unleaked;
    forall c | c in cases ensures exists row | row in rows :: row.id == c.id {
      IdsAndCases(cases, c.id);
      IdsAndRows(rows, c.id);
    }
    forall row | row in rows ensures exists c | c in cases :: c.id == row.id {
      IdsAndRows(rows, row.id);
      IdsAndCases(cases, row.id);
    }
    forall i, j | 0 <= i < j < |rows| ensures rows[i].id != rows[j].id {
      assert RowIds(rows)[i] != RowIds(rows)[j];
    }
  }

  lemma {:induction false} DistinctSize(xs: seq<string>)
    requires Distinct(xs)
    ensures |set x | x in xs| == |xs|
  {
    if xs != [] {
      var n := |xs| - 1;
      assert forall i, j | 0 <= i < j < n :: xs[..n][i] == xs[i] && xs[..n][j] == xs[j];
      DistinctSize(xs[..n]);
      assert xs == xs[..n] + [xs[n]];
      DistinctOneMore(xs[..n], xs[n]);
      assert (set x | x in xs) == (set x | x in xs[..n]) + {xs[n]};
    }
  }

  /** A qualification run is decided on, held out throughout, and its manifest was committed beforehand. */
  lemma QualificationIsFrozen(env: Env, m: Record, raw: Record)
    requires ValidRaw(env, m, raw) && raw.body.purpose == Qualification
    ensures m.body.decision && env.committed(m, raw.body.frozenCommit)
    ensures forall c | c in m.body.cases :: c.split == HeldOut
  {
  }

  /** In an accepted bundle every grading, of whatever grader, names a manifest and a raw record of the bundle
      that belong together, scores each case once in order, and states the code its outcomes have. */
  lemma AcceptedGrading(env: Env, records: seq<Record>, r: Record) returns (m: Record, raw: Record)
    requires Accepts(env, records) && r in records && r.body.Grading?
    ensures m in records && raw in records && m.body.Manifest? && raw.body.Raw?
    ensures r.body.manifestId == m.id && r.body.rawId == raw.id && raw.body.manifestId == m.id
    ensures r.body.source == m.body.source == raw.body.source && ValidRaw(env, m, raw)
    ensures |r.body.scores| == |m.body.cases|
    ensures forall i | 0 <= i < |r.body.scores| :: r.body.scores[i].id == m.body.cases[i].id
    ensures r.body.exitCode ==
            if exists s | s in r.body.scores :: s.outcome == Failed then 1
            else if exists s | s in r.body.scores :: s.outcome == NotRun then 3 else 0
    ensures r.body.completed <==> forall s | s in r.body.scores :: s.outcome != NotRun
  {
    assert GradingOk(env, ById(records), r);
    ByIdHolds(records, r.body.manifestId);
    ByIdHolds(records, r.body.rawId);
    m, raw := ById(records)[r.body.manifestId], ById(records)[r.body.rawId];
    hide GradeOf, ReadBack, ValidManifest, ValidRow, EnvelopeOk, ById, GoodIds;
    assert |ScoreIds(r.body.scores)| == |CaseIds(m.body.cases)|;
    forall i | 0 <= i < |r.body.scores| ensures r.body.scores[i].id == m.body.cases[i].id {
      assert ScoreIds(r.body.scores)[i] == CaseIds(m.body.cases)[i];
    }
  }

  lemma {:induction false} ByIdFinds(records: seq<Record>, r: Record)
    requires Distinct(IdsOf(records)) && r in records
    ensures r.id in ById(records) && ById(records)[r.id] == r
    decreases |records|
  {
    var n := |records| - 1;
    assert records == records[..n] + [records[n]];
    assert IdsOf(records) == IdsOf(records[..n]) + [records[n].id];
    DistinctOneMore(IdsOf(records[..n]), records[n].id);
    if r != records[n] {
      ByIdFinds(records[..n], r);
      ByIdKeys(records[..n]);
    }
  }

  lemma ReadBackKeepsScores(ss: seq<Score>)
    ensures ScoreIds(ReadBackScores(ss)) == ScoreIds(ss)
    ensures forall o :: AnyOutcome(ReadBackScores(ss), o) <==> AnyOutcome(ss, o)
    ensures ExitCode(ReadBackScores(ss)) == ExitCode(ss)
  {
    forall o ensures AnyOutcome(ReadBackScores(ss), o) <==> AnyOutcome(ss, o) {
      if s :| s in ss && s.outcome == o {
        var i :| 0 <= i < |ss| && ss[i] == s;
        assert ReadBackScores(ss)[i] in ReadBackScores(ss);
      }
      if s :| s in ReadBackScores(ss) && s.outcome == o {
        var i :| 0 <= i < |ss| && ReadBackScores(ss)[i] == s;
        assert ss[i] in ss;
      }
    }
  }

  /** A grading written and read back agrees with everything the verifier recomputes. */
  lemma GradedRecordIsOk(env: Env, byId: map<string, Record>, m: Record, raw: Record, revision: string)
    requires ValidRaw(env, m, raw) && revision != ""
    requires m.id in byId && byId[m.id] == m && raw.id in byId && byId[raw.id] == raw
    requires env.isIdentity(env.graderId) && env.isIdentity(env.evaluatorId)
    ensures GradingOk(env, byId, ReadBack(GradeOf(env, m, raw, revision)))
  {
    var scores := ScoresOf(m, raw);
    ReadBackKeepsScores(scores);
    assert ScoreIds(scores) == CaseIds(m.body.cases) by {
      forall i | 0 <= i < |scores| ensures ScoreIds(scores)[i] == CaseIds(m.body.cases)[i] {
        assert CaseIds(m.body.cases)[i] == m.body.cases[i].id;
        ScoreMeans(m.body.cases[i], RowOf(raw.body.rows, m.body.cases[i].id));
      }
    }
  }

  /** Looking records up by id is not disturbed by one more record of a new id. */
  lemma RecordStaysOk(env: Env, byId: map<string, Record>, r: Record, id: string, extra: Record)
    requires RecordOk(env, byId, r) && id !in byId
    ensures RecordOk(env, byId[id := extra], r)
  {
    hide ValidManifest, ValidRaw;
  }

  lemma AppendedAccepted(env: Env, records: seq<Record>, g: Record)
    requires Accepts(env, records) && g.id !in IdsOf(records) && EnvelopeOk(env, g) && g.body.Grading?
    requires RecordOk(env, ById(records)[g.id := g], g)
    ensures Accepts(env, records + [g])
  {
    hide EnvelopeOk, RecordOk, ById, Distinct, DistinctRuns, IdsOf;
    var all := records + [g];
    assert all[..|records|] == records;
    ByIdKeys(records);
    ByIdOneMore(all, |records|);
    assert all[..|records| + 1] == all;
    forall r | r in all ensures EnvelopeOk(env, r) && RecordOk(env, ById(all), r) {
      if r in records {
        RecordStaysOk(env, ById(records), r, g.id, g);
      }
    }
    RunsOneMore(records, g);
  }

  /** Grader and verifier agree: appending a new grading of a valid raw record, once written and read
      back, to any accepted bundle that holds its manifest and raw record gives an accepted bundle. */
  lemma GradingExtendsBundle(env: Env, records: seq<Record>, m: Record, raw: Record, revision: string)
    requires Accepts(env, records) && m in records && raw in records
    requires ValidRaw(env, m, raw) && revision != ""
    requires DigestsWrittenForm(env) && env.isIdentity(env.graderId) && env.isIdentity(env.evaluatorId)
    requires GradeOf(env, m, raw, revision).id !in IdsOf(records)
    ensures Accepts(env, records + [ReadBack(GradeOf(env, m, raw, revision))])
  {
    var g := ReadBack(GradeOf(env, m, raw, revision));
    ByIdFinds(records, m);
    ByIdFinds(records, raw);
    ByIdKeys(records);
    GradedRecordIsOk(env, ById(records)[g.id := g], m, raw, revision);
    AppendedAccepted(env, records, g);
  }

  /** A valid manifest and raw record of different ids make an accepted bundle by themselves. */
  lemma PairIsAccepted(env: Env, m: Record, raw: Record)
    requires ValidRaw(env, m, raw) && m.id != raw.id
    ensures Accepts(env, [m, raw])
  {
    var records := [m, raw];
    assert IdsOf(records) == [m.id, raw.id];
    ByIdFinds(records, m);
    ByIdFinds(records, raw);
  }

  /** In an accepted bundle a record of the current grader and evaluator is exactly what grading again
      gives: one with any other scores, exit code or counts is rejected. */
  lemma CurrentGradingIsReproduced(env: Env, records: seq<Record>, r: Record)
    requires Accepts(env, records) && r in records && r.body.Grading?
    requires r.body.grader == env.graderId && r.body.evaluator == env.evaluatorId
    ensures exists m, raw ::
              m in records && raw in records && m.id == r.body.manifestId && raw.id == r.body.rawId &&
              ValidRaw(env, m, raw) && r == ReadBack(GradeOf(env, m, raw, r.body.revision))
  {
    hide ValidRaw, GradeOf;
    assert GradingOk(env, ById(records), r);
    ByIdHolds(records, r.body.manifestId);
    ByIdHolds(records, r.body.rawId);
    var m, raw := ById(records)[r.body.manifestId], ById(records)[r.body.rawId];
    assert m in records && raw in records && m.id == r.body.manifestId && raw.id == r.body.rawId;
  }

  lemma {:induction false} ByIdHolds(records: seq<Record>, id: string)
    requires id in ById(records)
    ensures ById(records)[id] in records && ById(records)[id].id == id
  {
    var n := |records| - 1;
    if records[n].id != id {
      ByIdHolds(records[..n], id);
    }
  }
}
