/**
 Versioned patches (typed_mutation.go, Exec in mutation.go): optimistic
 concurrency by an UPDATE whose predicate names the version it was read at and
 whose assignments raise it. The database runs each UPDATE atomically, so any
 interleaving of callers is some sequence of patches.
 */
module Versioned {
  import opened Wrappers

  datatype Column = Column(name: string)

  type Row = map<Column, Option<int>>

  datatype Field = SetTo(value: int) | Clear | Default

  function ColumnSet(columns: seq<Column>): set<Column> { set c | c in columns }

  /** `key` is the column the predicate of a patch compares, `version` the version column. */
  datatype Schema = Schema(columns: seq<Column>, defaults: Row, key: Column, version: Column) {
    predicate Valid() {
      && (forall i, j :: 0 <= i < j < |columns| ==> columns[i] != columns[j])
      && key in columns && version in columns && key != version
    }

    /** A row of the table: it has every column, and a version that is not NULL. */
    predicate Holds(row: Row) {
      row.Keys == ColumnSet(columns) && key != version && key in row && version in row && row[version].Some?
    }
  }

  /** UPDATE ... SET fields WHERE key = `target` AND version = `expected`. */
  datatype Patch = Patch(target: int, expected: int, fields: map<Column, Field>)

  /** What NewPatchPlan demands: at least one field, all of them columns of the table. */
  predicate ValidFields(schema: Schema, p: Patch) {
    p.fields != map[] && p.fields.Keys <= ColumnSet(schema.columns)
  }

  /** What WithVersion demands: the version column is not among the fields. */
  predicate ValidPatch(schema: Schema, p: Patch) { schema.version !in p.fields }

  /** The patch leaves the column its own predicate compares. */
  predicate KeepsKey(schema: Schema, p: Patch) { schema.key !in p.fields }

  // ---------- PatchPlan.lower ----------

  datatype Assignment = Assign(column: Column, field: Field) | Increment(column: Column)

  function FieldValue(schema: Schema, column: Column, f: Field): Option<int> {
    match f
    case SetTo(v) => Some(v)
    case Clear => None
    case Default => if column in schema.defaults then schema.defaults[column] else None
  }

  function AssignedValue(schema: Schema, before: Row, a: Assignment): Option<int> {
    match a
    case Assign(c, f) => FieldValue(schema, c, f)
    case Increment(c) => if c in before && before[c].Some? then Some(before[c].value + 1) else None
  }

  /** SQL evaluates every right-hand side on the row as it was. */
  function Assigned(schema: Schema, before: Row, assignments: seq<Assignment>): Row {
    if assignments == [] then before
    else
      var last := assignments[|assignments| - 1];
      Assigned(schema, before, assignments[..|assignments| - 1])[last.column := AssignedValue(schema, before, last)]
  }

  lemma {:induction false} AssignedSnoc(schema: Schema, before: Row, assignments: seq<Assignment>, a: Assignment)
    ensures Assigned(schema, before, assignments + [a])
            == Assigned(schema, before, assignments)[a.column := AssignedValue(schema, before, a)]
  {
    assert (assignments + [a])[..|assignments|] == assignments;
  }

  /** The row a patch turns `before` into. */
  function Patched(schema: Schema, before: Row, fields: map<Column, Field>): Row
    requires schema.version in before && before[schema.version].Some?
  {
    map c | c in before ::
      if c in fields then FieldValue(schema, c, fields[c])
      else if c == schema.version then Some(before[c].value + 1)
      else before[c]
  }

  /** The assignments of a patch, in table column order, the version last. */
  method Lower(schema: Schema, p: Patch) returns (assignments: seq<Assignment>)
    requires schema.Valid() && ValidFields(schema, p) && ValidPatch(schema, p)
    ensures Distinct(assignments)
    ensures Means(schema, p, assignments)
  {
    assignments := [];
    for i := 0 to |schema.columns|
      invariant assignments == FieldAssignments(schema, p.fields, i)
    {
      var column := schema.columns[i];
      if column in p.fields {
        assignments := assignments + [Assign(column, p.fields[column])];
      }
    }
    DistinctFields(schema, p.fields, |schema.columns|);
    forall row | schema.Holds(row)
      ensures Assigned(schema, row, assignments + [Increment(schema.version)]) == Patched(schema, row, p.fields)
    {
      LoweredMeaning(schema, p, row);
    }
    assignments := assignments + [Increment(schema.version)];
  }

  /** On every row of the table the assignments make the patched row. */
  ghost predicate Means(schema: Schema, p: Patch, assignments: seq<Assignment>) {
    forall row :: schema.Holds(row) ==> Assigned(schema, row, assignments) == Patched(schema, row, p.fields)
  }

  ghost predicate Distinct(assignments: seq<Assignment>) {
    forall i, j :: 0 <= i < j < |assignments| ==> assignments[i].column != assignments[j].column
  }

  function FieldAssignments(schema: Schema, fields: map<Column, Field>, n: nat): seq<Assignment>
    requires n <= |schema.columns|
  {
    if n == 0 then [] else
    FieldAssignments(schema, fields, n - 1) +
    var c := schema.columns[n - 1];
    if c in fields then [Assign(c, fields[c])] else []
  }

  lemma {:induction false} DistinctFields(schema: Schema, fields: map<Column, Field>, n: nat)
    requires schema.Valid() && n <= |schema.columns|
    ensures Distinct(FieldAssignments(schema, fields, n))
    ensures forall k :: 0 <= k < |FieldAssignments(schema, fields, n)| ==>
              && FieldAssignments(schema, fields, n)[k].column in fields
              && FieldAssignments(schema, fields, n)[k].column in schema.columns[..n]
  {
    if n > 0 {
      DistinctFields(schema, fields, n - 1);
      assert schema.columns[..n] == schema.columns[..n - 1] + [schema.columns[n - 1]];
      assert schema.columns[n - 1] !in schema.columns[..n - 1];
    }
  }

  ghost function Partial(schema: Schema, before: Row, fields: map<Column, Field>, done: set<Column>): Row {
    map c | c in before :: if c in fields && c in done then FieldValue(schema, c, fields[c]) else before[c]
  }

  lemma {:induction false} PartialStep(schema: Schema, row: Row, fields: map<Column, Field>, done: set<Column>, c: Column)
    requires c in row
    ensures Partial(schema, row, fields, done + {c})
            == if c in fields then Partial(schema, row, fields, done)[c := FieldValue(schema, c, fields[c])]
               else Partial(schema, row, fields, done)
  {
  }

  lemma {:induction false} PartialVersion(schema: Schema, row: Row, fields: map<Column, Field>, done: set<Column>)
    requires schema.version in row && row[schema.version].Some? && schema.version !in fields && fields.Keys <= done
    ensures Partial(schema, row, fields, done)[schema.version := Some(row[schema.version].value + 1)]
            == Patched(schema, row, fields)
  {
  }

  lemma {:induction false} FieldsMeaning(schema: Schema, fields: map<Column, Field>, row: Row, n: nat)
    requires n <= |schema.columns| && ColumnSet(schema.columns) == row.Keys
    ensures Assigned(schema, row, FieldAssignments(schema, fields, n))
            == Partial(schema, row, fields, ColumnSet(schema.columns[..n]))
  {
    if n == 0 {
      assert Partial(schema, row, fields, {}) == row;
    } else {
      FieldsMeaning(schema, fields, row, n - 1);
      var c, done := schema.columns[n - 1], schema.columns[..n - 1];
      assert schema.columns[..n] == done + [c];
      assert ColumnSet(done + [c]) == ColumnSet(done) + {c};
      assert c in ColumnSet(schema.columns);
      PartialStep(schema, row, fields, ColumnSet(done), c);
      var earlier := FieldAssignments(schema, fields, n - 1);
      if c in fields {
        AssignedSnoc(schema, row, earlier, Assign(c, fields[c]));
      } else {
        assert FieldAssignments(schema, fields, n) == earlier;
      }
    }
  }

  lemma {:induction false} LoweredMeaning(schema: Schema, p: Patch, row: Row)
    requires ValidFields(schema, p) && ValidPatch(schema, p)
    requires schema.Holds(row)
    ensures Assigned(schema, row, FieldAssignments(schema, p.fields, |schema.columns|) + [Increment(schema.version)])
            == Patched(schema, row, p.fields)
  {
    var n := |schema.columns|;
    assert schema.columns[..n] == schema.columns;
    var earlier := FieldAssignments(schema, p.fields, n);
    assert Assigned(schema, row, earlier) == Partial(schema, row, p.fields, row.Keys) by {
      FieldsMeaning(schema, p.fields, row, n);
    }
    AssignedSnoc(schema, row, earlier, Increment(schema.version));
    PartialVersion(schema, row, p.fields, row.Keys);
  }

  // ---------- Exec ----------

  datatype Outcome = Applied | ErrPrecondition | ErrMultipleRows

  predicate Matches(schema: Schema, row: Row, p: Patch)
    requires schema.Holds(row)
  {
    row[schema.key] == Some(p.target) && row[schema.version] == Some(p.expected)
  }

  ghost predicate IsTable(schema: Schema, rows: seq<Row>) {
    forall i :: 0 <= i < |rows| ==> schema.Holds(rows[i])
  }

  /** The key selects at most one row, which is what makes the predicate of a patch unique. */
  ghost predicate Unique(schema: Schema, rows: seq<Row>)
    requires IsTable(schema, rows)
  {
    forall i, j :: 0 <= i < j < |rows| && rows[i][schema.key].Some? ==> rows[i][schema.key] != rows[j][schema.key]
  }

  function Affected(schema: Schema, rows: seq<Row>, p: Patch): nat
    requires forall i :: 0 <= i < |rows| ==> schema.Holds(rows[i])
  {
    if rows == [] then 0
    else Affected(schema, rows[..|rows| - 1], p) + if Matches(schema, rows[|rows| - 1], p) then 1 else 0
  }

  function UpdateRow(schema: Schema, row: Row, p: Patch): Row
    requires schema.Holds(row)
  {
    if Matches(schema, row, p) then Patched(schema, row, p.fields) else row
  }

  function Update(schema: Schema, rows: seq<Row>, p: Patch): (r: seq<Row>)
    requires forall i :: 0 <= i < |rows| ==> schema.Holds(rows[i])
    ensures |r| == |rows|
    ensures forall i :: 0 <= i < |rows| ==> r[i] == UpdateRow(schema, rows[i], p)
  {
    seq(|rows|, i requires 0 <= i < |rows| => UpdateRow(schema, rows[i], p))
  }

  function OutcomeOf(affected: nat): Outcome {
    if affected == 0 then ErrPrecondition else if affected > 1 then ErrMultipleRows else Applied
  }

  lemma {:induction false} AffectedAtMostOne(schema: Schema, rows: seq<Row>, p: Patch, n: nat)
    requires IsTable(schema, rows) && Unique(schema, rows) && n <= |rows|
    ensures Affected(schema, rows[..n], p) == if exists i :: 0 <= i < n && Matches(schema, rows[i], p) then 1 else 0
  {
    if n > 0 {
      AffectedAtMostOne(schema, rows, p, n - 1);
      assert rows[..n][..n - 1] == rows[..n - 1];
    }
  }

  lemma {:induction false} PatchedHolds(schema: Schema, row: Row, p: Patch)
    requires schema.Holds(row) && ValidPatch(schema, p)
    ensures schema.Holds(Patched(schema, row, p.fields))
    ensures KeepsKey(schema, p) ==> Patched(schema, row, p.fields)[schema.key] == row[schema.key]
  {
  }

  lemma {:induction false} UpdateKeepsTable(schema: Schema, rows: seq<Row>, p: Patch)
    requires IsTable(schema, rows) && ValidPatch(schema, p)
    ensures IsTable(schema, Update(schema, rows, p))
    ensures KeepsKey(schema, p) ==> forall i :: 0 <= i < |rows| ==> Update(schema, rows, p)[i][schema.key] == rows[i][schema.key]
  {
    var after := Update(schema, rows, p);
    forall i | 0 <= i < |rows|
      ensures schema.Holds(after[i]) && (KeepsKey(schema, p) ==> after[i][schema.key] == rows[i][schema.key])
    {
      PatchedHolds(schema, rows[i], p);
    }
  }

  /** On a table whose key is unique a patch touches one row or none, and never reports several. */
  lemma {:induction false} PatchOutcome(schema: Schema, rows: seq<Row>, p: Patch)
    requires IsTable(schema, rows) && Unique(schema, rows) && ValidPatch(schema, p)
    ensures OutcomeOf(Affected(schema, rows, p)) != ErrMultipleRows
    ensures OutcomeOf(Affected(schema, rows, p)) == Applied <==> exists i :: 0 <= i < |rows| && Matches(schema, rows[i], p)
    ensures OutcomeOf(Affected(schema, rows, p)) == ErrPrecondition ==> Update(schema, rows, p) == rows
  {
    AffectedAtMostOne(schema, rows, p, |rows|);
    assert rows[..|rows|] == rows;
  }

  /** The lowered UPDATE on one row. */
  method ExecRow(schema: Schema, row: Row, ghost p: Patch, target: int, expected: int, assignments: seq<Assignment>)
      returns (after: Row, matched: bool)
    requires schema.Holds(row) && p.target == target && p.expected == expected && Means(schema, p, assignments)
    ensures matched == Matches(schema, row, p) && after == UpdateRow(schema, row, p)
  {
    matched := row[schema.key] == Some(target) && row[schema.version] == Some(expected);
    after := if matched then Assigned(schema, row, assignments) else row;
  }

  /** `after` and `affected` are what the UPDATE makes of the first `n` rows. */
  ghost predicate Executed(schema: Schema, rows: seq<Row>, p: Patch, n: nat, after: seq<Row>, affected: nat)
    requires IsTable(schema, rows)
  {
    && n <= |rows| == |Update(schema, rows, p)|
    && after == Update(schema, rows, p)[..n] && affected == Affected(schema, rows[..n], p)
  }

  lemma {:induction false} ExecutedStep(schema: Schema, rows: seq<Row>, p: Patch, n: nat, after: seq<Row>, affected: nat)
    requires IsTable(schema, rows) && n < |rows| && Executed(schema, rows, p, n, after, affected)
    ensures Executed(schema, rows, p, n + 1, after + [UpdateRow(schema, rows[n], p)],
                     affected + if Matches(schema, rows[n], p) then 1 else 0)
  {
    assert rows[..n + 1][..n] == rows[..n];
    var all := Update(schema, rows, p);
    assert all[..n + 1] == all[..n] + [all[n]];
  }

  // ---------- one patch, position by position ----------

  /** The row has the value and the version the patch names. */
  ghost predicate Hit(schema: Schema, row: Row, p: Patch) {
    && schema.key in row && schema.version in row
    && row[schema.key] == Some(p.target) && row[schema.version] == Some(p.expected)
  }

  /** The columns after a patch: a field set, cleared or defaulted, the version one higher, all others as they were. */
  ghost predicate Rewritten(schema: Schema, p: Patch, before: Row, after: Row) {
    && after.Keys == before.Keys
    && forall c :: c in before ==>
         after[c] ==
         if c in p.fields then
           match p.fields[c]
           case SetTo(v) => Some(v)
           case Clear => None
           case Default => if c in schema.defaults then schema.defaults[c] else None
         else if c == schema.version then Some(p.expected + 1)
         else before[c]
  }

  /** Rows hit are rewritten, others stay; several, one or no hit decide the outcome. */
  ghost predicate PatchStep(schema: Schema, rows: seq<Row>, p: Patch, after: seq<Row>, outcome: Outcome) {
    && |after| == |rows|
    && (forall i :: 0 <= i < |rows| ==> if Hit(schema, rows[i], p) then Rewritten(schema, p, rows[i], after[i]) else after[i] == rows[i])
    && (outcome == ErrMultipleRows <==> exists i, j :: 0 <= i < j < |rows| && Hit(schema, rows[i], p) && Hit(schema, rows[j], p))
    && (outcome == ErrPrecondition <==> forall i :: 0 <= i < |rows| ==> !Hit(schema, rows[i], p))
    && (outcome == Applied <==>
          exists i :: 0 <= i < |rows| && Hit(schema, rows[i], p) && forall j :: 0 <= j < |rows| && j != i ==> !Hit(schema, rows[j], p))
  }

  lemma {:induction false} AffectedSnoc(schema: Schema, rows: seq<Row>, n: nat, p: Patch)
    requires IsTable(schema, rows) && n < |rows|
    ensures Affected(schema, rows[..n + 1], p) == Affected(schema, rows[..n], p) + if Hit(schema, rows[n], p) then 1 else 0
  {
    assert rows[..n + 1][..n] == rows[..n] && schema.Holds(rows[n]);
  }

  /** No hit among the first `n`. */
  ghost predicate Missed(schema: Schema, rows: seq<Row>, n: nat, p: Patch)
    requires n <= |rows|
  {
    forall i :: 0 <= i < n ==> !Hit(schema, rows[i], p)
  }

  /** One hit among the first `n`, at `at`. */
  ghost predicate HitOnce(schema: Schema, rows: seq<Row>, n: nat, p: Patch, at: nat)
    requires n <= |rows|
  {
    at < n && Hit(schema, rows[at], p) && forall i :: 0 <= i < n && i != at ==> !Hit(schema, rows[i], p)
  }

  ghost predicate HitTwice(schema: Schema, rows: seq<Row>, n: nat, p: Patch)
    requires n <= |rows|
  {
    exists i, j :: 0 <= i < j < n && Hit(schema, rows[i], p) && Hit(schema, rows[j], p)
  }

  lemma {:induction false} AffectedExactly(schema: Schema, rows: seq<Row>, n: nat, p: Patch)
    requires IsTable(schema, rows) && n <= |rows|
    ensures Affected(schema, rows[..n], p) == 0 <==> Missed(schema, rows, n, p)
    ensures Affected(schema, rows[..n], p) == 1 <==> exists at: nat :: HitOnce(schema, rows, n, p, at)
    ensures Affected(schema, rows[..n], p) > 1 <==> HitTwice(schema, rows, n, p)
  {
    if n > 0 {
      AffectedExactly(schema, rows, n - 1, p);
      AffectedSnoc(schema, rows, n - 1, p);
      var before := Affected(schema, rows[..n - 1], p);
      if before == 0 {
        NoHit(schema, rows, n, p);
      } else if before == 1 {
        var at: nat :| HitOnce(schema, rows, n - 1, p, at);
        OneHit(schema, rows, n, p, at);
      } else {
        TwoHits(schema, rows, n, p);
      }
    }
  }

  lemma {:induction false} NoHit(schema: Schema, rows: seq<Row>, n: nat, p: Patch)
    requires 0 < n <= |rows| && Missed(schema, rows, n - 1, p)
    ensures !HitTwice(schema, rows, n, p)
    ensures if Hit(schema, rows[n - 1], p) then HitOnce(schema, rows, n, p, n - 1) && !Missed(schema, rows, n, p)
            else Missed(schema, rows, n, p) && forall k: nat :: !HitOnce(schema, rows, n, p, k)
  {
  }

  lemma {:induction false} TwoHits(schema: Schema, rows: seq<Row>, n: nat, p: Patch)
    requires 0 < n <= |rows| && HitTwice(schema, rows, n - 1, p)
    ensures HitTwice(schema, rows, n, p) && !Missed(schema, rows, n, p) && forall k: nat :: !HitOnce(schema, rows, n, p, k)
  {
    var i, j :| 0 <= i < j < n - 1 && Hit(schema, rows[i], p) && Hit(schema, rows[j], p);
  }

  lemma {:induction false} OneHit(schema: Schema, rows: seq<Row>, n: nat, p: Patch, at: nat)
    requires 0 < n <= |rows| && HitOnce(schema, rows, n - 1, p, at)
    ensures !Missed(schema, rows, n, p)
    ensures if Hit(schema, rows[n - 1], p) then HitTwice(schema, rows, n, p) && forall k: nat :: !HitOnce(schema, rows, n, p, k)
            else HitOnce(schema, rows, n, p, at) && !HitTwice(schema, rows, n, p)
  {
  }

  lemma {:induction false} PatchExactly(schema: Schema, rows: seq<Row>, p: Patch)
    requires IsTable(schema, rows) && ValidPatch(schema, p)
    ensures PatchStep(schema, rows, p, Update(schema, rows, p), OutcomeOf(Affected(schema, rows, p)))
  {
    assert rows[..|rows|] == rows;
    AffectedExactly(schema, rows, |rows|, p);
    var after := Update(schema, rows, p);
    forall i | 0 <= i < |rows|
      ensures if Hit(schema, rows[i], p) then Rewritten(schema, p, rows[i], after[i]) else after[i] == rows[i]
    {
      assert schema.Holds(rows[i]) && after[i] == UpdateRow(schema, rows[i], p);
    }
  }

  /** The lowered UPDATE: it leaves the patched rows and reports by how many matched. */
  method ExecPatch(schema: Schema, rows: seq<Row>, p: Patch) returns (after: seq<Row>, outcome: Outcome)
    requires schema.Valid() && IsTable(schema, rows) && ValidFields(schema, p) && ValidPatch(schema, p)
    ensures after == Update(schema, rows, p) && outcome == OutcomeOf(Affected(schema, rows, p))
    ensures PatchStep(schema, rows, p, after, outcome)
  {
    after, outcome := ExecUpdate(schema, rows, p);
    PatchExactly(schema, rows, p);
  }

  /** The loop over the rows. */
  method ExecUpdate(schema: Schema, rows: seq<Row>, p: Patch) returns (after: seq<Row>, outcome: Outcome)
    requires schema.Valid() && IsTable(schema, rows) && ValidFields(schema, p) && ValidPatch(schema, p)
    ensures after == Update(schema, rows, p) && outcome == OutcomeOf(Affected(schema, rows, p))
  {
    var assignments := Lower(schema, p);
    after := [];
    var affected := 0;
    for i := 0 to |rows|
      invariant Executed(schema, rows, p, i, after, affected)
    {
      var row, matched := ExecRow(schema, rows[i], p, p.target, p.expected, assignments);
      ExecutedStep(schema, rows, p, i, after, affected);
      after := after + [row];
      if matched {
        affected := affected + 1;
      }
    }
    assert rows[..|rows|] == rows;
    outcome := OutcomeOf(affected);
  }

  // ---------- runs, seen from one row ----------

  ghost predicate ValidRun(schema: Schema, run: seq<Patch>) {
    forall i :: 0 <= i < |run| ==> ValidPatch(schema, run[i])
  }

  ghost predicate KeepsKeys(schema: Schema, run: seq<Patch>) {
    forall i :: 0 <= i < |run| ==> KeepsKey(schema, run[i])
  }

  function Touch(schema: Schema, row: Row, p: Patch): (r: Row)
    requires schema.Holds(row) && ValidPatch(schema, p)
    ensures schema.Holds(r) && (KeepsKey(schema, p) ==> r[schema.key] == row[schema.key])
    ensures r[schema.version] == Some(row[schema.version].value + if Matches(schema, row, p) then 1 else 0)
  {
    PatchedHolds(schema, row, p);
    if Matches(schema, row, p) then Patched(schema, row, p.fields) else row
  }

  /** The row after the first `n` patches of a run. */
  function RowAfter(schema: Schema, row: Row, run: seq<Patch>, n: nat): (r: Row)
    requires ValidRun(schema, run) && schema.Holds(row) && n <= |run|
    ensures schema.Holds(r) && (KeepsKeys(schema, run) ==> r[schema.key] == row[schema.key])
  {
    if n == 0 then row else Touch(schema, RowAfter(schema, row, run, n - 1), run[n - 1])
  }

  /** Patch `i` of the run finds the row at the version it expects. */
  predicate Hits(schema: Schema, row: Row, run: seq<Patch>, i: nat)
    requires ValidRun(schema, run) && schema.Holds(row) && i < |run|
  {
    Matches(schema, RowAfter(schema, row, run, i), run[i])
  }

  /** The patches among the first `n` that changed the row, in the order they ran. */
  function Successes(schema: Schema, row: Row, run: seq<Patch>, n: nat): seq<Patch>
    requires ValidRun(schema, run) && schema.Holds(row) && n <= |run|
  {
    if n == 0 then []
    else Successes(schema, row, run, n - 1) + if Hits(schema, row, run, n - 1) then [run[n - 1]] else []
  }

  /** The patches applied one after the other, without any version check. */
  function Serial(schema: Schema, row: Row, patches: seq<Patch>): (r: Row)
    requires ValidRun(schema, patches) && schema.Holds(row)
    ensures schema.Holds(r)
  {
    if patches == [] then row
    else
      var before := Serial(schema, row, patches[..|patches| - 1]);
      PatchedHolds(schema, before, patches[|patches| - 1]);
      Patched(schema, before, patches[|patches| - 1].fields)
  }

  lemma {:induction false} SerialSnoc(schema: Schema, row: Row, patches: seq<Patch>, p: Patch)
    requires ValidRun(schema, patches) && schema.Holds(row) && ValidPatch(schema, p)
    ensures ValidRun(schema, patches + [p])
    ensures Serial(schema, row, patches + [p]) == Patched(schema, Serial(schema, row, patches), p.fields)
  {
    assert (patches + [p])[..|patches|] == patches;
  }

  /** The successes expected the consecutive versions from `first` on. */
  ghost predicate Consecutive(patches: seq<Patch>, first: int) {
    forall k :: 0 <= k < |patches| ==> patches[k].expected == first + k
  }

  /**
   The version grows by one per success, so the successes expected consecutive
   versions, and the row is their serial application in version order.
   */
  lemma {:induction false} RunIsSerial(schema: Schema, row: Row, run: seq<Patch>, n: nat)
    requires ValidRun(schema, run) && schema.Holds(row) && n <= |run|
    ensures ValidRun(schema, Successes(schema, row, run, n))
    ensures Consecutive(Successes(schema, row, run, n), row[schema.version].value)
    ensures RowAfter(schema, row, run, n) == Serial(schema, row, Successes(schema, row, run, n))
    ensures RowAfter(schema, row, run, n)[schema.version]
            == Some(row[schema.version].value + |Successes(schema, row, run, n)|)
  {
    if n > 0 {
      RunIsSerial(schema, row, run, n - 1);
      var done := Successes(schema, row, run, n - 1);
      if Hits(schema, row, run, n - 1) {
        SerialSnoc(schema, row, done, run[n - 1]);
      } else {
        assert Successes(schema, row, run, n) == done;
      }
    }
  }

  lemma {:induction false} SuccessesGrow(schema: Schema, row: Row, run: seq<Patch>, i: nat, j: nat)
    requires ValidRun(schema, run) && schema.Holds(row) && i < j <= |run| && Hits(schema, row, run, i)
    ensures |Successes(schema, row, run, i)| < |Successes(schema, row, run, j)|
  {
    if i + 1 < j {
      SuccessesGrow(schema, row, run, i, j - 1);
    }
  }

  // ---------- runs over a table ----------

  /** The table after the first `n` patches of a run. */
  function After(schema: Schema, rows: seq<Row>, run: seq<Patch>, n: nat): (r: seq<Row>)
    requires IsTable(schema, rows) && ValidRun(schema, run) && n <= |run|
    ensures IsTable(schema, r) && |r| == |rows|
  {
    if n == 0 then rows
    else
      var before := After(schema, rows, run, n - 1);
      UpdateKeepsTable(schema, before, run[n - 1]);
      Update(schema, before, run[n - 1])
  }

  /** The table seen row by row. */
  lemma {:induction false} AfterRows(schema: Schema, rows: seq<Row>, run: seq<Patch>, n: nat)
    requires IsTable(schema, rows) && ValidRun(schema, run) && n <= |run|
    ensures forall k :: 0 <= k < |rows| ==> After(schema, rows, run, n)[k] == RowAfter(schema, rows[k], run, n)
  {
    if n > 0 {
      AfterRows(schema, rows, run, n - 1);
    }
  }

  function OutcomeAt(schema: Schema, rows: seq<Row>, run: seq<Patch>, i: nat): Outcome
    requires IsTable(schema, rows) && ValidRun(schema, run) && i < |run|
  {
    OutcomeOf(Affected(schema, After(schema, rows, run, i), run[i]))
  }

  /** Every patch so far reported its own outcome. */
  ghost predicate Reports(schema: Schema, rows: seq<Row>, run: seq<Patch>, outcomes: seq<Outcome>)
    requires IsTable(schema, rows) && ValidRun(schema, run)
  {
    |outcomes| <= |run| && forall i :: 0 <= i < |outcomes| ==> outcomes[i] == OutcomeAt(schema, rows, run, i)
  }

  /** Any interleaving of lowered patches: the table and the outcomes the results below are about. */
  method RunPatches(schema: Schema, rows: seq<Row>, run: seq<Patch>) returns (after: seq<Row>, outcomes: seq<Outcome>)
    requires schema.Valid() && IsTable(schema, rows) && ValidRun(schema, run)
    requires forall i :: 0 <= i < |run| ==> ValidFields(schema, run[i])
    ensures after == After(schema, rows, run, |run|)
    ensures |outcomes| == |run| && Reports(schema, rows, run, outcomes)
    ensures After(schema, rows, run, 0) == rows && forall i :: 0 <= i < |run| ==> StepOf(schema, rows, run, outcomes, i)
  {
    after, outcomes := rows, [];
    for i := 0 to |run|
      invariant after == After(schema, rows, run, i) && |outcomes| == i && Reports(schema, rows, run, outcomes)
    {
      var outcome;
      after, outcome := RunNext(schema, rows, run, i, after);
      ReportsStep(schema, rows, run, outcomes, outcome);
      outcomes := outcomes + [outcome];
    }
    AllSteps(schema, rows, run, outcomes);
  }

  /** Patch `i` took the table before it to the table after it, and reported what it did. */
  ghost predicate StepOf(schema: Schema, rows: seq<Row>, run: seq<Patch>, outcomes: seq<Outcome>, i: nat)
    requires IsTable(schema, rows) && ValidRun(schema, run) && i < |run| == |outcomes|
  {
    PatchStep(schema, After(schema, rows, run, i), run[i], After(schema, rows, run, i + 1), outcomes[i])
  }

  lemma {:induction false} AllSteps(schema: Schema, rows: seq<Row>, run: seq<Patch>, outcomes: seq<Outcome>)
    requires IsTable(schema, rows) && ValidRun(schema, run) && |outcomes| == |run| && Reports(schema, rows, run, outcomes)
    ensures forall i :: 0 <= i < |run| ==> StepOf(schema, rows, run, outcomes, i)
  {
    forall i | 0 <= i < |run|
      ensures StepOf(schema, rows, run, outcomes, i)
    {
      assert ValidPatch(schema, run[i]);
      AfterStep(schema, rows, run, i);
      PatchExactly(schema, After(schema, rows, run, i), run[i]);
    }
  }

  method RunNext(schema: Schema, ghost rows: seq<Row>, run: seq<Patch>, i: nat, table: seq<Row>)
      returns (after: seq<Row>, outcome: Outcome)
    requires schema.Valid() && IsTable(schema, rows) && ValidRun(schema, run) && i < |run| && ValidFields(schema, run[i])
    requires table == After(schema, rows, run, i)
    ensures after == After(schema, rows, run, i + 1) && outcome == OutcomeAt(schema, rows, run, i)
  {
    assert ValidPatch(schema, run[i]);
    AfterStep(schema, rows, run, i);
    after, outcome := ExecPatch(schema, table, run[i]);
  }

  lemma {:induction false} ReportsStep(schema: Schema, rows: seq<Row>, run: seq<Patch>, outcomes: seq<Outcome>, outcome: Outcome)
    requires IsTable(schema, rows) && ValidRun(schema, run) && Reports(schema, rows, run, outcomes)
    requires |outcomes| < |run| && outcome == OutcomeAt(schema, rows, run, |outcomes|)
    ensures Reports(schema, rows, run, outcomes + [outcome])
  {
  }

  lemma {:induction false} AfterStep(schema: Schema, rows: seq<Row>, run: seq<Patch>, i: nat)
    requires IsTable(schema, rows) && ValidRun(schema, run) && i < |run|
    ensures After(schema, rows, run, i + 1) == Update(schema, After(schema, rows, run, i), run[i])
    ensures OutcomeAt(schema, rows, run, i) == OutcomeOf(Affected(schema, After(schema, rows, run, i), run[i]))
  {
  }

  /** A patch succeeds exactly when it hits the one row its key names. */
  lemma {:induction false} SucceedsExactly(schema: Schema, rows: seq<Row>, run: seq<Patch>, i: nat, r: nat)
    requires IsTable(schema, rows) && Unique(schema, rows) && ValidRun(schema, run) && KeepsKeys(schema, run)
    requires i < |run| && r < |rows|
    requires rows[r][schema.key] == Some(run[i].target)
    ensures OutcomeAt(schema, rows, run, i) == Applied <==> Hits(schema, rows[r], run, i)
  {
    var before := After(schema, rows, run, i);
    AfterRows(schema, rows, run, i);
    assert Unique(schema, before);
    PatchOutcome(schema, before, run[i]);
    if k :| 0 <= k < |before| && Matches(schema, before[k], run[i]) {
      assert k == r;
    }
  }

  /**
   In any interleaving, of two patches of one row that both succeed the later one
   expected a later version: no two succeed from the same one.
   */
  lemma {:induction false} NoLostUpdate(schema: Schema, rows: seq<Row>, run: seq<Patch>, i: nat, j: nat, r: nat)
    requires IsTable(schema, rows) && Unique(schema, rows) && ValidRun(schema, run) && KeepsKeys(schema, run)
    requires i < j < |run| && r < |rows|
    requires rows[r][schema.key] == Some(run[i].target) == Some(run[j].target)
    requires OutcomeAt(schema, rows, run, i) == OutcomeAt(schema, rows, run, j) == Applied
    ensures run[i].expected < run[j].expected
  {
    SucceedsExactly(schema, rows, run, i, r);
    SucceedsExactly(schema, rows, run, j, r);
    SuccessesGrow(schema, rows[r], run, i, j);
    RunIsSerial(schema, rows[r], run, i);
    RunIsSerial(schema, rows[r], run, j);
  }
}
