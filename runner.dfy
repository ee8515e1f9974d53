/** The `up` command: the dirty check, the plan, and the insert / execute / update bracketing of
    each migration, first as functions over the table, then as the stateful `Migrator`. */
module Runner {
  import opened Wrappers
  import opened PyStrings
  import opened MigrationFilename
  import opened Planner
  import opened MigrationTable

  /** What running one migration's SQL (`c.execute(sql)`) does as far as the runner can see: it
      raises, or it succeeds, and when the statement was an INSERT the cursor's `lastrowid`
      becomes the rowid of the row it inserted (in whatever table). */
  datatype SqlOutcome = SqlError | SqlOk(insertedRowId: Option<int>)

  /** The committed `migration` table and the cursor's `lastrowid`. */
  datatype Db = Db(rows: seq<Row>, lastRowId: Option<int>)

  /** How a run of `up` ends: it refuses to start on a dirty database, finishes, or stops at
      planned file `at` because its SQL raised or because its row could not be inserted
      (NULL or duplicate version). */
  datatype Outcome = HaltedDirty | Completed | SqlFailed(at: nat) | InsertRejected(at: nat)

  datatype Run = Run(db: Db, outcome: Outcome)

  /** The number of planned files for which a row was inserted. */
  function Attempted(outcome: Outcome, ms: seq<Migration>): nat {
    match outcome
    case HaltedDirty => 0
    case Completed => |ms|
    case SqlFailed(at) => at + 1
    case InsertRejected(at) => at
  }

  /** One planned file as the loop body of `up` sees it: its name parsed with the `up` suffix,
      and what running its SQL does. */
  datatype Migration = Migration(info: MigrationInfo, sql: SqlOutcome)

  /** The plan as the loop visits it, file by file. */
  function Migrations(plan: seq<string>, runSql: string -> SqlOutcome): seq<Migration> {
    seq(|plan|, k requires 0 <= k < |plan| => Migration(ExtractMigrationInformation(plan[k], Up), runSql(plan[k])))
  }

  /** The stored fields of two rows agree; only `dirty` may differ. */
  predicate SameRecord(a: Row, b: Row) {
    a.id == b.id && a.version == b.version && a.description == b.description
  }

  /** Two tables hold the same records in the same order; only `dirty` flags may differ. */
  predicate SameRecords(a: seq<Row>, b: seq<Row>) {
    |a| == |b| && forall k :: 0 <= k < |a| ==> SameRecord(a[k], b[k])
  }

  /** `row` is the record the INSERT into the `migration` table makes for `m`, with id `id`. */
  predicate RecordOf(row: Row, id: int, m: Migration) {
    row.id == id && m.info.version == Some(row.version) && m.info.description == row.description
  }

  /** What one pass of the loop body does: the INSERT is rejected, or the SQL fails after the
      INSERT, or both succeed and the UPDATE runs. */
  datatype Step = Rejected | Failed(db: Db) | Applied(db: Db)

  /** One pass of the loop body, as migrate.py writes it: insert a dirty row (committed), run
      the SQL, then clean the row whose id is the cursor's `lastrowid` at that moment. */
  function ApplyOne(db: Db, m: Migration): Step {
    match InsertRow(db.rows, m.info.version, m.info.description)
    case None => Rejected
    case Some(inserted) =>
      var newId := NextId(db.rows);
      match m.sql
      case SqlError => Failed(Db(inserted, Some(newId)))
      case SqlOk(insertedRowId) =>
        var lastRowId := if insertedRowId.Some? then insertedRowId else Some(newId);
        Applied(Db(SetClean(inserted, lastRowId), lastRowId))
  }

  /** The insert is rejected exactly for a migration without a version or with a version
      already stored; after a successful insert the step fails exactly when the SQL raises. */
  lemma ApplyOneOutcome(db: Db, m: Migration)
    ensures var r := ApplyOne(db, m);
      var v := m.info.version;
      (r.Rejected? <==> v.None? || Recorded(db.rows, v.value)) &&
      (r.Failed? <==> !r.Rejected? && m.sql == SqlError)
  {
    InsertRowSpec(db.rows, m.info.version, m.info.description);
  }

  /** A step that gets past the insert adds one row, the record of `m` under the next free id,
      and keeps the table well formed. */
  lemma ApplyOneAppends(db: Db, m: Migration)
    requires TableOk(db.rows)
    ensures var r := ApplyOne(db, m);
      !r.Rejected? ==>
        TableOk(r.db.rows) && |r.db.rows| == |db.rows| + 1 &&
        RecordOf(r.db.rows[|db.rows|], NextId(db.rows), m)
  {
    InsertRowSpec(db.rows, m.info.version, m.info.description);
    match InsertRow(db.rows, m.info.version, m.info.description)
    case None =>
    case Some(inserted) =>
      match m.sql
      case SqlError =>
      case SqlOk(id) =>
        SetCleanSpec(inserted, if id.Some? then id else Some(NextId(db.rows)));
  }

  /** A step never changes the id, version or description of a stored row. */
  lemma ApplyOneKeepsRecords(db: Db, m: Migration)
    ensures var r := ApplyOne(db, m);
      !r.Rejected? ==>
        |r.db.rows| == |db.rows| + 1 &&
        forall k :: 0 <= k < |db.rows| ==> SameRecord(r.db.rows[k], db.rows[k])
  {
    InsertRowSpec(db.rows, m.info.version, m.info.description);
    match InsertRow(db.rows, m.info.version, m.info.description)
    case None =>
    case Some(inserted) =>
      match m.sql
      case SqlError =>
      case SqlOk(id) =>
        SetCleanSpec(inserted, if id.Some? then id else Some(NextId(db.rows)));
  }

  /** A failed SQL leaves the new record dirty; a successful SQL that inserted nothing leaves it
      clean. Either way the rows stored before are left exactly as they were. */
  lemma ApplyOneDirty(db: Db, m: Migration)
    requires TableOk(db.rows)
    ensures var r := ApplyOne(db, m);
      r.Failed? ==>
        |r.db.rows| == |db.rows| + 1 && r.db.rows[..|db.rows|] == db.rows &&
        r.db.rows[|db.rows|].dirty == Some(1)
    ensures var r := ApplyOne(db, m);
      r.Applied? && m.sql == SqlOk(None) ==>
        |r.db.rows| == |db.rows| + 1 && r.db.rows[..|db.rows|] == db.rows &&
        r.db.rows[|db.rows|].dirty == Some(0)
  {
    NextIdIsFresh(db.rows);
    InsertRowSpec(db.rows, m.info.version, m.info.description);
    match InsertRow(db.rows, m.info.version, m.info.description)
    case None =>
    case Some(inserted) =>
      SetCleanSpec(inserted, Some(NextId(db.rows)));
  }

  /** The loop over the migrations from `i` on. It stops at the first failure, and it ends in
      one of the three run outcomes. */
  function ApplyFrom(db: Db, ms: seq<Migration>, i: nat): (r: Run)
    requires i <= |ms|
    ensures !r.outcome.HaltedDirty?
    ensures r.outcome.SqlFailed? ==> i <= r.outcome.at < |ms|
    ensures r.outcome.InsertRejected? ==> i <= r.outcome.at < |ms|
    decreases |ms| - i
  {
    if i == |ms| then Run(db, Completed)
    else
      match ApplyOne(db, ms[i])
      case Rejected => Run(db, InsertRejected(i))
      case Failed(failed) => Run(failed, SqlFailed(i))
      case Applied(next) => ApplyFrom(next, ms, i + 1)
  }

  /** A whole `up` run against the version snapshot `snapshot`: it halts without touching the
      table exactly when the snapshot is dirty, and otherwise applies the plan. */
  function UpRun(db: Db, snapshot: VersionInfo, listing: seq<string>, runSql: string -> SqlOutcome): (r: Run)
    ensures r.outcome.HaltedDirty? <==> Truthy(snapshot.dirty)
    ensures r.outcome.HaltedDirty? ==> r.db == db
  {
    if Truthy(snapshot.dirty) then Run(db, HaltedDirty)
    else ApplyFrom(db, Migrations(Plan(listing, snapshot.version), runSql), 0)
  }

  /** Every attempted migration adds exactly one row: a run that stops at an insert has added a
      row for each migration before it, one that stops at failing SQL also for that one. */
  lemma {:induction false} ApplyFromLength(db: Db, ms: seq<Migration>, i: nat)
    requires i <= |ms|
    ensures var r := ApplyFrom(db, ms, i);
      var n := Attempted(r.outcome, ms);
      i <= n <= |ms| && |r.db.rows| == |db.rows| + (n - i)
    decreases |ms| - i
  {
    if i < |ms| {
      ApplyOneKeepsRecords(db, ms[i]);
      match ApplyOne(db, ms[i])
      case Rejected =>
      case Failed(failed) =>
      case Applied(next) =>
        ApplyFromLength(next, ms, i + 1);
    }
  }

  /** A run keeps the id, version and description of every row stored before it. */
  lemma {:induction false} ApplyFromKeepsRecordAt(db: Db, ms: seq<Migration>, i: nat, k: nat)
    requires i <= |ms| && k < |db.rows|
    ensures var r := ApplyFrom(db, ms, i);
      k < |r.db.rows| && SameRecord(r.db.rows[k], db.rows[k])
    decreases |ms| - i
  {
    ApplyFromLength(db, ms, i);
    if i < |ms| {
      ApplyOneKeepsRecords(db, ms[i]);
      match ApplyOne(db, ms[i])
      case Rejected =>
      case Failed(failed) =>
      case Applied(next) =>
        ApplyFromKeepsRecordAt(next, ms, i + 1, k);
    }
  }

  /** A run keeps the table well formed: ids ascending, versions distinct. */
  lemma {:induction false} ApplyFromKeepsTableOk(db: Db, ms: seq<Migration>, i: nat)
    requires i <= |ms| && TableOk(db.rows)
    ensures TableOk(ApplyFrom(db, ms, i).db.rows)
    decreases |ms| - i
  {
    if i < |ms| {
      ApplyOneAppends(db, ms[i]);
      match ApplyOne(db, ms[i])
      case Rejected =>
      case Failed(failed) =>
      case Applied(next) =>
        ApplyFromKeepsTableOk(next, ms, i + 1);
    }
  }

  /** The `n`-th row a run adds is the record of the `n`-th attempted migration, under the
      `n`-th id from the next free one: rows are added in plan order under consecutive ids. */
  lemma {:induction false} ApplyFromRecordAt(db: Db, ms: seq<Migration>, i: nat, n: nat)
    requires i <= |ms| && TableOk(db.rows)
    requires |db.rows| + n < |ApplyFrom(db, ms, i).db.rows|
    ensures i + n < |ms|
    ensures RecordOf(ApplyFrom(db, ms, i).db.rows[|db.rows| + n], NextId(db.rows) + n, ms[i + n])
    decreases n
  {
    ApplyFromLength(db, ms, i);
    if i < |ms| {
      ApplyOneAppends(db, ms[i]);
      match ApplyOne(db, ms[i])
      case Rejected =>
      case Failed(failed) =>
      case Applied(next) =>
        if n == 0 {
          ApplyFromKeepsRecordAt(next, ms, i + 1, |db.rows|);
        } else {
          ApplyFromRecordAt(next, ms, i + 1, n - 1);
        }
    }
  }

  /** No migration's SQL inserts a row. */
  predicate NoInserts(ms: seq<Migration>) {
    forall k :: 0 <= k < |ms| && ms[k].sql.SqlOk? ==> ms[k].sql.insertedRowId.None?
  }

  /** When no migration's SQL inserts a row, the rows stored before the run are left exactly as
      they were, and a run stopped by failing SQL has added the failed migration's row. */
  lemma {:induction false} ApplyFromKeepsStoredRowsWithoutInserts(db: Db, ms: seq<Migration>, i: nat)
    requires i <= |ms| && TableOk(db.rows) && NoInserts(ms)
    ensures var r := ApplyFrom(db, ms, i);
      |r.db.rows| >= |db.rows| && r.db.rows[..|db.rows|] == db.rows &&
      (r.outcome.SqlFailed? ==> |r.db.rows| > |db.rows|)
    decreases |ms| - i
  {
    if i < |ms| {
      ApplyOneOutcome(db, ms[i]);
      ApplyOneAppends(db, ms[i]);
      ApplyOneDirty(db, ms[i]);
      match ApplyOne(db, ms[i])
      case Rejected =>
      case Failed(failed) =>
      case Applied(next) =>
        assert ms[i].sql == SqlOk(None);
        ApplyFromKeepsStoredRowsWithoutInserts(next, ms, i + 1);
        var r := ApplyFrom(next, ms, i + 1);
        assert r.db.rows[..|db.rows|] == r.db.rows[..|next.rows|][..|db.rows|];
    }
  }

  /** When no migration's SQL inserts a row, every row a run adds is clean, except the row of a
      migration whose SQL failed, which is the last one and stays dirty. */
  lemma {:induction false} ApplyFromDirtyAtWithoutInserts(db: Db, ms: seq<Migration>, i: nat, k: int)
    requires i <= |ms| && TableOk(db.rows) && NoInserts(ms)
    requires |db.rows| <= k < |ApplyFrom(db, ms, i).db.rows|
    ensures var r := ApplyFrom(db, ms, i);
      r.db.rows[k].dirty == (if r.outcome.SqlFailed? && k == |r.db.rows| - 1 then Some(1) else Some(0))
    decreases |ms| - i
  {
    if i < |ms| {
      ApplyOneOutcome(db, ms[i]);
      ApplyOneAppends(db, ms[i]);
      ApplyOneDirty(db, ms[i]);
      match ApplyOne(db, ms[i])
      case Rejected =>
      case Failed(failed) =>
      case Applied(next) =>
        assert ms[i].sql == SqlOk(None);
        ApplyFromKeepsStoredRowsWithoutInserts(next, ms, i + 1);
        var r := ApplyFrom(next, ms, i + 1);
        if k == |db.rows| {
          assert r.db.rows[k] == next.rows[k] by {
            assert r.db.rows[..|next.rows|][k] == next.rows[k];
          }
        } else {
          ApplyFromDirtyAtWithoutInserts(next, ms, i + 1, k);
        }
    }
  }

  /** Whatever the migrations' SQL does, a run stopped by failing SQL leaves the failed
      migration's row, the latest one, dirty, and the next `up` halts on it. */
  lemma {:induction false} FailedRunHaltsNext(db: Db, ms: seq<Migration>, i: nat, listing: seq<string>, runSql: string -> SqlOutcome)
    requires i <= |ms|
    ensures var r := ApplyFrom(db, ms, i);
      r.outcome.SqlFailed? ==>
        r.db.rows != [] && r.db.rows[|r.db.rows| - 1].dirty == Some(1) &&
        UpRun(r.db, LatestInfo(r.db.rows), listing, runSql).outcome.HaltedDirty?
    decreases |ms| - i
  {
    if i < |ms| {
      InsertRowSpec(db.rows, ms[i].info.version, ms[i].info.description);
      match ApplyOne(db, ms[i])
      case Rejected =>
      case Failed(failed) =>
      case Applied(next) =>
        FailedRunHaltsNext(next, ms, i + 1, listing, runSql);
    }
  }

  /** A run that completes inserted one row per migration, so the migrations carry versions
      that are pairwise distinct and not yet stored: a second migration with an already applied
      version stops the run at its insert. */
  lemma {:induction false} CompletedRunsHaveDistinctVersions(db: Db, ms: seq<Migration>, i: nat)
    requires i <= |ms| && TableOk(db.rows)
    requires ApplyFrom(db, ms, i).outcome.Completed?
    ensures forall k :: i <= k < |ms| ==>
      ms[k].info.version.Some? && !Recorded(db.rows, ms[k].info.version.value)
    ensures forall k, m :: i <= k < m < |ms| ==> ms[k].info.version != ms[m].info.version
    decreases |ms| - i
  {
    if i < |ms| {
      ApplyOneOutcome(db, ms[i]);
      ApplyOneAppends(db, ms[i]);
      ApplyOneKeepsRecords(db, ms[i]);
      match ApplyOne(db, ms[i])
      case Rejected =>
      case Failed(failed) =>
      case Applied(next) =>
        CompletedRunsHaveDistinctVersions(next, ms, i + 1);
        forall k | i < k < |ms|
          ensures !Recorded(db.rows, ms[k].info.version.value) && ms[i].info.version != ms[k].info.version
        {
          assert !Recorded(next.rows, ms[k].info.version.value);
          assert Some(next.rows[|db.rows|].version) == ms[i].info.version;
          forall w | 0 <= w < |db.rows|
            ensures db.rows[w].version != ms[k].info.version.value
          {
            assert SameRecord(next.rows[w], db.rows[w]);
          }
        }
    }
  }

  /** A run that reaches migration `m` while its version is already stored stops at `m`'s
      insert, unless it stopped earlier. */
  lemma {:induction false} StoredVersionStopsAtInsert(db: Db, ms: seq<Migration>, i: nat, m: nat)
    requires i <= m < |ms|
    requires ms[m].info.version.Some? && Recorded(db.rows, ms[m].info.version.value)
    ensures var r := ApplyFrom(db, ms, i);
      r.outcome == InsertRejected(m) || Attempted(r.outcome, ms) <= m
    decreases m - i
  {
    ApplyOneOutcome(db, ms[i]);
    ApplyOneKeepsRecords(db, ms[i]);
    match ApplyOne(db, ms[i])
    case Rejected =>
    case Failed(failed) =>
    case Applied(next) =>
      var v := ms[m].info.version.value;
      var w :| 0 <= w < |db.rows| && db.rows[w].version == v;
      assert SameRecord(next.rows[w], db.rows[w]);
      StoredVersionStopsAtInsert(next, ms, i + 1, m);
  }

  /** The UNIQUE constraint on `version` at work: when two planned files carry the same
      version, the run stops with a rejected insert at the second one, after the files before
      it were applied, unless it stopped earlier. */
  lemma {:induction false} DuplicateVersionStopsAtInsert(db: Db, ms: seq<Migration>, i: nat, k: nat, m: nat)
    requires TableOk(db.rows)
    requires i <= k < m < |ms|
    requires ms[k].info.version.Some? && ms[k].info.version == ms[m].info.version
    ensures var r := ApplyFrom(db, ms, i);
      r.outcome == InsertRejected(m) || Attempted(r.outcome, ms) <= m
    decreases k - i
  {
    ApplyOneAppends(db, ms[i]);
    match ApplyOne(db, ms[i])
    case Rejected =>
    case Failed(failed) =>
    case Applied(next) =>
      ApplyOneKeepsRecords(db, ms[i]);
      if i < k {
        DuplicateVersionStopsAtInsert(next, ms, i + 1, k, m);
      } else {
        assert next.rows[|db.rows|].version == ms[m].info.version.value;
        StoredVersionStopsAtInsert(next, ms, i + 1, m);
      }
  }

  /** After a run that completes, the latest row holds the version of the last migration. */
  lemma CompletedRunEndsOnLastMigration(db: Db, ms: seq<Migration>)
    requires TableOk(db.rows) && ms != []
    requires ApplyFrom(db, ms, 0).outcome.Completed?
    ensures LatestInfo(ApplyFrom(db, ms, 0).db.rows).version == ms[|ms| - 1].info.version
  {
    ApplyFromLength(db, ms, 0);
    ApplyFromRecordAt(db, ms, 0, |ms| - 1);
  }

  /** The same for the planned files: after a run that completes, the latest row holds the
      version of the last planned file. */
  lemma CompletedRunEndsOnLastPlanned(db: Db, plan: seq<string>, runSql: string -> SqlOutcome)
    requires TableOk(db.rows) && plan != []
    requires ExtractMigrationInformation(plan[|plan| - 1], Up).version.Some?
    requires ApplyFrom(db, Migrations(plan, runSql), 0).outcome.Completed?
    ensures LatestInfo(ApplyFrom(db, Migrations(plan, runSql), 0).db.rows).version == Some(SortKey(plan[|plan| - 1]))
  {
    var ms := Migrations(plan, runSql);
    CompletedRunEndsOnLastMigration(db, ms);
    assert ms[|ms| - 1].info == ExtractMigrationInformation(plan[|plan| - 1], Up);
  }

  /** Idempotence: once a run from a fresh process on a clean database completes, a fresh run on
      the same listing plans nothing. */
  lemma SecondRunPlansNothing(db: Db, listing: seq<string>, runSql: string -> SqlOutcome)
    requires TableOk(db.rows)
    ensures var first := UpRun(db, LatestInfo(db.rows), listing, runSql);
      first.outcome.Completed? ==> Plan(listing, LatestInfo(first.db.rows).version) == []
  {
    var current := LatestInfo(db.rows).version;
    var plan := Plan(listing, current);
    if plan == [] {
      assert Migrations(plan, runSql) == [];
    } else {
      PlanUpToLastLeavesNothing(listing, current);
      if !Truthy(LatestInfo(db.rows).dirty) && ApplyFrom(db, Migrations(plan, runSql), 0).outcome.Completed? {
        CompletedRunEndsOnLastPlanned(db, plan, runSql);
      }
    }
  }

  /** As written, the UPDATE that follows a migration's SQL cleans the row whose id is the
      cursor's `lastrowid` at that moment. When that SQL was an INSERT whose rowid differs from the migration's row, the run
      reports success while the migration's own row stays dirty, and the next run halts. */
  lemma StaleRowIdLeavesRecordDirty(db: Db, m: Migration, listing: seq<string>, runSql: string -> SqlOutcome)
    requires TableOk(db.rows)
    requires m.info.version.Some? && !Recorded(db.rows, m.info.version.value)
    requires m.sql.SqlOk? && m.sql.insertedRowId.Some?
    requires m.sql.insertedRowId.value != NextId(db.rows)
    ensures var r := ApplyFrom(db, [m], 0);
      r.outcome.Completed? && |r.db.rows| == |db.rows| + 1 &&
      r.db.rows[|db.rows|].dirty == Some(1) &&
      UpRun(r.db, LatestInfo(r.db.rows), listing, runSql).outcome.HaltedDirty?
  {
    InsertRowSpec(db.rows, m.info.version, m.info.description);
    var inserted := InsertRow(db.rows, m.info.version, m.info.description).value;
    SetCleanSpec(inserted, m.sql.insertedRowId);
  }

  /** The input that shows it: an empty table and a single file "V1_seed.up.sql" (which parses
      to version "V1" and description "seed", by SeedExample) whose SQL is an INSERT that gets
      rowid 7 in its own table. The run completes and its row stays dirty. */
  lemma SeedMigrationStaysDirty()
    ensures var seed := Migration(MigrationInfo(Some("V1"), Some("seed")), SqlOk(Some(7)));
      var r := ApplyFrom(Db([], None), [seed], 0);
      r.outcome.Completed? && r.db.rows == [Row(1, "V1", Some("seed"), Some(1))]
  {
    var seed := Migration(MigrationInfo(Some("V1"), Some("seed")), SqlOk(Some(7)));
    StaleRowIdLeavesRecordDirty(Db([], None), seed, [], f => SqlOk(Some(7)));
    ApplyFromRecordAt(Db([], None), [seed], 0, 0);
  }

  /** The loop body as evidently intended: the UPDATE cleans the row the INSERT just created
      (its id taken from `lastrowid` before the migration's SQL runs). */
  function ApplyOneFixed(db: Db, m: Migration): Step {
    match InsertRow(db.rows, m.info.version, m.info.description)
    case None => Rejected
    case Some(inserted) =>
      var migrationId := NextId(db.rows);
      match m.sql
      case SqlError => Failed(Db(inserted, Some(migrationId)))
      case SqlOk(insertedRowId) =>
        var lastRowId := if insertedRowId.Some? then insertedRowId else Some(migrationId);
        Applied(Db(SetClean(inserted, Some(migrationId)), lastRowId))
  }

  /** Whatever the SQL does, the fixed step adds the record of `m`, keeps every stored row
      exactly as it was, and leaves the new record clean unless the SQL failed. */
  lemma ApplyOneFixedCleans(db: Db, m: Migration)
    requires TableOk(db.rows)
    ensures var r := ApplyOneFixed(db, m);
      !r.Rejected? ==>
        TableOk(r.db.rows) && |r.db.rows| == |db.rows| + 1 &&
        RecordOf(r.db.rows[|db.rows|], NextId(db.rows), m) &&
        r.db.rows[..|db.rows|] == db.rows &&
        r.db.rows[|db.rows|].dirty == (if r.Failed? then Some(1) else Some(0))
  {
    NextIdIsFresh(db.rows);
    InsertRowSpec(db.rows, m.info.version, m.info.description);
    match InsertRow(db.rows, m.info.version, m.info.description)
    case None =>
    case Some(inserted) =>
      SetCleanSpec(inserted, Some(NextId(db.rows)));
  }

  /** The fix changes only which row the UPDATE cleans: a step is rejected or fails exactly
      when the step as written is or does, and a failed step is the same either way. */
  lemma ApplyOneFixedOutcome(db: Db, m: Migration)
    ensures ApplyOneFixed(db, m).Rejected? <==> ApplyOne(db, m).Rejected?
    ensures ApplyOneFixed(db, m).Failed? <==> ApplyOne(db, m).Failed?
    ensures ApplyOneFixed(db, m).Failed? ==> ApplyOneFixed(db, m) == ApplyOne(db, m)
  {
  }

  /** The corrected loop over the migrations from `i` on. */
  function ApplyFromFixed(db: Db, ms: seq<Migration>, i: nat): (r: Run)
    requires i <= |ms|
    ensures !r.outcome.HaltedDirty?
    ensures r.outcome.SqlFailed? ==> i <= r.outcome.at < |ms|
    ensures r.outcome.InsertRejected? ==> i <= r.outcome.at < |ms|
    decreases |ms| - i
  {
    if i == |ms| then Run(db, Completed)
    else
      match ApplyOneFixed(db, ms[i])
      case Rejected => Run(db, InsertRejected(i))
      case Failed(failed) => Run(failed, SqlFailed(i))
      case Applied(next) => ApplyFromFixed(next, ms, i + 1)
  }

  /** With the fix, whatever the migrations' SQL does, the rows stored before the run are left
      exactly as they were, and a run stopped by failing SQL has added the failed row. */
  lemma {:induction false} FixedRunKeepsStoredRows(db: Db, ms: seq<Migration>, i: nat)
    requires i <= |ms| && TableOk(db.rows)
    ensures var r := ApplyFromFixed(db, ms, i);
      |r.db.rows| >= |db.rows| && r.db.rows[..|db.rows|] == db.rows &&
      (r.outcome.SqlFailed? ==> |r.db.rows| > |db.rows|)
    decreases |ms| - i
  {
    if i < |ms| {
      ApplyOneFixedCleans(db, ms[i]);
      match ApplyOneFixed(db, ms[i])
      case Rejected =>
      case Failed(failed) =>
      case Applied(next) =>
        FixedRunKeepsStoredRows(next, ms, i + 1);
        var r := ApplyFromFixed(next, ms, i + 1);
        assert r.db.rows[..|db.rows|] == r.db.rows[..|next.rows|][..|db.rows|];
    }
  }

  /** With the fix, whatever the migrations' SQL does, every row a run adds is clean except the
      row of a failed migration, which is the last one. */
  lemma {:induction false} FixedRunLeavesRecordsClean(db: Db, ms: seq<Migration>, i: nat, k: int)
    requires i <= |ms| && TableOk(db.rows)
    requires |db.rows| <= k < |ApplyFromFixed(db, ms, i).db.rows|
    ensures var r := ApplyFromFixed(db, ms, i);
      r.db.rows[k].dirty == (if r.outcome.SqlFailed? && k == |r.db.rows| - 1 then Some(1) else Some(0))
    decreases |ms| - i
  {
    if i < |ms| {
      ApplyOneFixedCleans(db, ms[i]);
      match ApplyOneFixed(db, ms[i])
      case Rejected =>
      case Failed(failed) =>
      case Applied(next) =>
        FixedRunKeepsStoredRows(next, ms, i + 1);
        var r := ApplyFromFixed(next, ms, i + 1);
        if k == |db.rows| {
          assert r.db.rows[k] == next.rows[k] by {
            assert r.db.rows[..|next.rows|][k] == next.rows[k];
          }
        } else {
          FixedRunLeavesRecordsClean(next, ms, i + 1, k);
        }
    }
  }

  /** Tables with the same records give the next row the same id and hold the same versions. */
  lemma SameRecordsAgree(a: seq<Row>, b: seq<Row>, v: string)
    requires SameRecords(a, b)
    ensures NextId(a) == NextId(b)
    ensures Recorded(a, v) <==> Recorded(b, v)
  {
    if a != [] {
      assert SameRecord(a[|a| - 1], b[|a| - 1]);
    }
    forall k | 0 <= k < |a|
      ensures a[k].version == b[k].version
    {
      assert SameRecord(a[k], b[k]);
    }
  }

  /** On tables with the same records, the fixed step and the step as written end alike and
      leave tables with the same records: the fix changes dirty flags only. */
  lemma ApplyOneFixedSameRecords(db: Db, fixedDb: Db, m: Migration)
    requires SameRecords(db.rows, fixedDb.rows)
    ensures var r := ApplyOne(db, m);
      var f := ApplyOneFixed(fixedDb, m);
      f.Rejected? == r.Rejected? && f.Failed? == r.Failed? &&
      (!r.Rejected? ==> SameRecords(f.db.rows, r.db.rows))
  {
    var v := m.info.version;
    if v.Some? {
      SameRecordsAgree(db.rows, fixedDb.rows, v.value);
    } else {
      SameRecordsAgree(db.rows, fixedDb.rows, "");
    }
    InsertRowSpec(db.rows, v, m.info.description);
    InsertRowSpec(fixedDb.rows, v, m.info.description);
    match InsertRow(db.rows, v, m.info.description)
    case None =>
    case Some(inserted) =>
      var fixedInserted := InsertRow(fixedDb.rows, v, m.info.description).value;
      SetCleanSpec(fixedInserted, Some(NextId(db.rows)));
      match m.sql
      case SqlError =>
      case SqlOk(id) =>
        SetCleanSpec(inserted, if id.Some? then id else Some(NextId(db.rows)));
  }

  /** The corrected run ends exactly as the run as written does and stores the same records:
      what is proved above about outcomes, ids, versions and descriptions holds for it too. */
  lemma {:induction false} FixedRunSameRecords(db: Db, fixedDb: Db, ms: seq<Migration>, i: nat)
    requires i <= |ms| && SameRecords(db.rows, fixedDb.rows)
    ensures var r := ApplyFrom(db, ms, i);
      var f := ApplyFromFixed(fixedDb, ms, i);
      f.outcome == r.outcome && SameRecords(f.db.rows, r.db.rows)
    decreases |ms| - i
  {
    if i < |ms| {
      ApplyOneFixedSameRecords(db, fixedDb, ms[i]);
      var r := ApplyOne(db, ms[i]);
      var f := ApplyOneFixed(fixedDb, ms[i]);
      if r.Applied? {
        FixedRunSameRecords(r.db, f.db, ms, i + 1);
      } else if r.Rejected? {
        assert SameRecords(fixedDb.rows, db.rows) by {
          forall k | 0 <= k < |db.rows|
            ensures SameRecord(fixedDb.rows[k], db.rows[k])
          {
            assert SameRecord(db.rows[k], fixedDb.rows[k]);
          }
        }
      }
    }
  }

  /** The process: the SQLite connection's `migration` table, the cursor's `lastrowid`, and the
      module-global `version_info` cache. */
  class Migrator {
    var rows: seq<Row>
    var lastRowId: Option<int>
    var versionInfo: Option<VersionInfo>

    ghost predicate Valid()
      reads this
    {
      TableOk(rows)
    }

    /** A process starts on an existing table, with no cursor result and nothing cached. */
    constructor (table: seq<Row>)
      requires TableOk(table)
      ensures Valid() && rows == table && lastRowId == None && versionInfo == None
    {
      rows := table;
      lastRowId := None;
      versionInfo := None;
    }

    /** `version()`: the first call reads the latest row and caches it; every later call returns
        the cache, even when rows were inserted since. */
    method Version() returns (info: VersionInfo)
      modifies this`versionInfo
      ensures info == (if old(versionInfo).Some? then old(versionInfo).value else LatestInfo(rows))
      ensures versionInfo == Some(info)
    {
      if versionInfo.Some? {
        return versionInfo.value;
      }
      if |rows| == 0 {
        info := VersionInfo(None, None);
      } else {
        var row := rows[|rows| - 1];
        info := VersionInfo(Some(row.version), row.dirty);
      }
      versionInfo := Some(info);
    }

    /** `shouldApplyMigration(filename, target)`: decides against the (possibly cached)
        snapshot that `version()` returns. */
    method ShouldApplyMigration(filename: string, target: Option<string>) returns (apply: bool)
      modifies this`versionInfo
      ensures versionInfo == Some(if old(versionInfo).Some? then old(versionInfo).value else LatestInfo(rows))
      ensures apply == Planner.ShouldApplyMigration(filename, target, versionInfo.value.version)
    {
      var info := Version();
      apply := Planner.ShouldApplyMigration(filename, target, info.version);
    }

    /** The INSERT that records the migration, and its commit: on success one dirty row is
        appended and the cursor reports its id; on a NOT NULL or UNIQUE violation nothing changes. */
    method InsertMigration(version: Option<string>, description: Option<string>) returns (ok: bool)
      requires Valid()
      modifies this`rows, this`lastRowId
      ensures Valid()
      ensures ok <==> version.Some? && !Recorded(old(rows), version.value)
      ensures ok ==> rows == old(rows) + [Row(NextId(old(rows)), version.value, description, Some(1))]
      ensures ok ==> lastRowId == Some(NextId(old(rows)))
      ensures !ok ==> rows == old(rows) && lastRowId == old(lastRowId)
    {
      InsertRowSpec(rows, version, description);
      match InsertRow(rows, version, description)
      case None =>
        ok := false;
      case Some(table) =>
        lastRowId := Some(NextId(rows));
        rows := table;
        ok := true;
    }

    /** `c.execute(sql)` for one migration: an INSERT moves the cursor's `lastrowid`. */
    method Execute(result: SqlOutcome) returns (ok: bool)
      modifies this`lastRowId
      ensures ok == result.SqlOk?
      ensures lastRowId == (if result.SqlOk? && result.insertedRowId.Some? then result.insertedRowId else old(lastRowId))
    {
      ok := result.SqlOk?;
      if ok && result.insertedRowId.Some? {
        lastRowId := result.insertedRowId;
      }
    }

    /** The UPDATE after the migration's SQL, and its commit, on the row `lastrowid` names. */
    method MarkClean()
      requires Valid()
      modifies this`rows
      ensures Valid() && rows == SetClean(old(rows), lastRowId)
    {
      SetCleanSpec(rows, lastRowId);
      rows := SetClean(rows, lastRowId);
    }

    /** The `for migration_filename in migration_filenames` loop of `up`: it brackets each
        file's SQL between the insert of a dirty row and the update that cleans it, and stops at
        the first failure. */
    method ApplyMigrations(migrationFilenames: seq<string>, runSql: string -> SqlOutcome) returns (outcome: Outcome)
      requires Valid()
      modifies this`rows, this`lastRowId
      ensures Valid()
      ensures Run(Db(rows, lastRowId), outcome) == ApplyFrom(Db(old(rows), old(lastRowId)), Migrations(migrationFilenames, runSql), 0)
    {
      ghost var start := Db(rows, lastRowId);
      ghost var ms := Migrations(migrationFilenames, runSql);
      var i := 0;
      while i < |migrationFilenames|
        invariant 0 <= i <= |migrationFilenames|
        invariant Valid()
        invariant ApplyFrom(Db(rows, lastRowId), ms, i) == ApplyFrom(start, ms, 0)
      {
        ghost var before := Db(rows, lastRowId);
        var filename := migrationFilenames[i];
        var migration := ExtractMigrationInformation(filename, Direction.Up);
        assert ms[i] == Migration(migration, runSql(filename));
        var inserted := InsertMigration(migration.version, migration.description);
        if !inserted {
          assert ApplyOne(before, ms[i]) == Rejected;
          return InsertRejected(i);
        }
        var executed := Execute(runSql(filename));
        if !executed {
          assert ApplyOne(before, ms[i]) == Failed(Db(rows, lastRowId));
          return SqlFailed(i);
        }
        MarkClean();
        assert ApplyOne(before, ms[i]) == Applied(Db(rows, lastRowId));
        i := i + 1;
      }
      return Completed;
    }

    /** The `up` command. It reads the (cached) version; on a dirty snapshot it stops; otherwise
        it filters and sorts the listing and applies the files in that order. */
    method Up(listing: seq<string>, runSql: string -> SqlOutcome) returns (outcome: Outcome)
      requires Valid()
      modifies this
      ensures Valid()
      ensures var snapshot := if old(versionInfo).Some? then old(versionInfo).value else LatestInfo(old(rows));
        versionInfo == Some(snapshot) &&
        Run(Db(rows, lastRowId), outcome) == UpRun(Db(old(rows), old(lastRowId)), snapshot, listing, runSql)
    {
      var info := Version();
      if Truthy(info.dirty) {
        return HaltedDirty;
      }
      var migrationFilenames := Pending(listing, info.version);
      migrationFilenames := SortBy(migrationFilenames, SortKey);
      outcome := ApplyMigrations(migrationFilenames, runSql);
    }
  }
}
