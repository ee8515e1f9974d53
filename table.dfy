/** The `migration` table and the three statements the runner issues against it. */
module MigrationTable {
  import opened Wrappers

  /** One row: `migration_id INTEGER PRIMARY KEY`, `version TEXT NOT NULL UNIQUE`,
      `description TEXT`, `dirty INTEGER` (both of the last two may be NULL). */
  datatype Row = Row(id: int, version: string, description: Option<string>, dirty: Option<int>)

  /** What SQLite guarantees of the table: rows are stored in ascending rowid order, rowids are
      distinct (primary key) and so are versions (UNIQUE). */
  predicate TableOk(rows: seq<Row>) {
    forall i, j {:trigger StoredBefore(rows[i], rows[j])} :: 0 <= i < j < |rows| ==> StoredBefore(rows[i], rows[j])
  }

  /** Row `a` may precede row `b`: a smaller rowid and another version. */
  predicate StoredBefore(a: Row, b: Row) {
    a.id < b.id && a.version != b.version
  }

  /** `{'version': ..., 'dirty': ...}` as `version()` returns it. */
  datatype VersionInfo = VersionInfo(version: Option<string>, dirty: Option<int>)

  /** Python truthiness of the `dirty` column: NULL and 0 are false. */
  predicate Truthy(dirty: Option<int>) {
    dirty.Some? && dirty.value != 0
  }

  /** `SELECT version, dirty FROM migration ORDER BY migration_id DESC LIMIT 1`, or
      `{None, None}` for an empty table: the version and dirty flag of the row with the
      largest id. */
  function LatestInfo(rows: seq<Row>): (r: VersionInfo)
    ensures rows == [] ==> r == VersionInfo(None, None)
    ensures TableOk(rows) && rows != [] ==>
      exists k :: 0 <= k < |rows| && r == VersionInfo(Some(rows[k].version), rows[k].dirty) &&
        forall m :: 0 <= m < |rows| ==> rows[m].id <= rows[k].id
  {
    if rows == [] then VersionInfo(None, None)
    else
      var k := |rows| - 1;
      LastHasLargestId(rows);
      VersionInfo(Some(rows[k].version), rows[k].dirty)
  }

  /** Rows are stored in rowid order, so the last one has the largest id. */
  lemma LastHasLargestId(rows: seq<Row>)
    requires rows != []
    ensures TableOk(rows) ==> forall m :: 0 <= m < |rows| ==> rows[m].id <= rows[|rows| - 1].id
  {
    if TableOk(rows) {
      forall m | 0 <= m < |rows| - 1
        ensures rows[m].id < rows[|rows| - 1].id
      {
        assert StoredBefore(rows[m], rows[|rows| - 1]);
      }
    }
  }

  /** Rewriting columns other than id and version keeps the table well formed. */
  lemma SameKeysKeepTableOk(a: seq<Row>, b: seq<Row>)
    requires TableOk(a) && |a| == |b|
    requires forall k :: 0 <= k < |a| ==> a[k].id == b[k].id && a[k].version == b[k].version
    ensures TableOk(b)
  {
    forall i, j | 0 <= i < j < |b|
      ensures StoredBefore(b[i], b[j])
    {
      assert StoredBefore(a[i], a[j]);
    }
  }

  /** The rowid SQLite gives a new row: one more than the largest rowid, or 1 in an empty
      table. */
  function NextId(rows: seq<Row>): int {
    if rows == [] then 1 else rows[|rows| - 1].id + 1
  }

  /** The next rowid is larger than every id already stored. */
  lemma NextIdIsFresh(rows: seq<Row>)
    ensures TableOk(rows) ==> forall k :: 0 <= k < |rows| ==> rows[k].id < NextId(rows)
  {
    if rows != [] {
      LastHasLargestId(rows);
    }
  }

  /** The table holds a row with this version. */
  predicate Recorded(rows: seq<Row>, version: string) {
    exists k :: 0 <= k < |rows| && rows[k].version == version
  }

  /** `INSERT INTO migration (version, description, dirty) VALUES (?, ?, 1)`. It fails (None)
      exactly when the version is NULL (NOT NULL) or already stored (UNIQUE); otherwise it
      appends one dirty row with a fresh id and keeps the table well formed. */
  function InsertRow(rows: seq<Row>, version: Option<string>, description: Option<string>): Option<seq<Row>> {
    if version.None? || Recorded(rows, version.value) then None
    else Some(rows + [Row(NextId(rows), version.value, description, Some(1))])
  }

  /** The INSERT fails exactly on a NULL or already stored version; otherwise it appends one
      dirty row under the next rowid, and a well-formed table stays well formed. */
  lemma InsertRowSpec(rows: seq<Row>, version: Option<string>, description: Option<string>)
    ensures var r := InsertRow(rows, version, description);
      (r.None? <==> version.None? || Recorded(rows, version.value)) &&
      (r.Some? ==>
        |r.value| == |rows| + 1 && r.value[..|rows|] == rows &&
        r.value[|rows|] == Row(NextId(rows), version.value, description, Some(1))) &&
      (r.Some? && TableOk(rows) ==> TableOk(r.value))
  {
    NextIdIsFresh(rows);
  }

  /** `UPDATE migration SET dirty = 0 WHERE migration_id = ?` with parameter `id`: the row with
      that id, if there is one, becomes clean; a NULL parameter matches no row. Ids, versions
      and descriptions are untouched, so the table stays well formed. */
  function SetClean(rows: seq<Row>, id: Option<int>): seq<Row> {
    seq(|rows|, k requires 0 <= k < |rows| =>
      if id == Some(rows[k].id) then rows[k].(dirty := Some(0)) else rows[k])
  }

  /** The UPDATE keeps every row's id, version and description, cleans exactly the rows whose
      id is the parameter, and so keeps a well-formed table well formed. */
  lemma SetCleanSpec(rows: seq<Row>, id: Option<int>)
    ensures var r := SetClean(rows, id);
      |r| == |rows| &&
      (forall k :: 0 <= k < |rows| ==>
        r[k].id == rows[k].id && r[k].version == rows[k].version &&
        r[k].description == rows[k].description) &&
      (forall k :: 0 <= k < |rows| ==>
        r[k].dirty == (if id == Some(rows[k].id) then Some(0) else rows[k].dirty)) &&
      (TableOk(rows) ==> TableOk(r))
  {
    if TableOk(rows) {
      SameKeysKeepTableOk(rows, SetClean(rows, id));
    }
  }
}
