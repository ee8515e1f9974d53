# sqlite-migrate, modelled in Dafny

`migrate.py` is a small schema-migration tool for SQLite. It keeps a `migration` table with
one row per applied migration: a rowid, a UNIQUE version, a description and a `dirty` flag.
Its `up` command works like this:

- It refuses to run when the newest row is dirty.
- It picks the files of the migrations directory whose name carries a version newer than the
  current one.
- It sorts them by that version.
- For each file, it inserts a dirty row and commits, runs the file's SQL, then clears the flag
  of the row named by the cursor's `lastrowid` and commits.

This project models that engine and proves properties of it:

- `strings.dfy` (module `PyStrings`): Python's ordering of `str` values, which differs from
  Dafny's `<` on sequences.
- `filename.dfy` (module `MigrationFilename`): `extractMigrationInformation`. The regular
  expression is replaced by an explicit rule: the last case-insensitive occurrence of
  `.<direction>.sql`, and the first `_`. A lemma proves that this rule picks the match Python's
  backtracking search picks. Module `FilenameExamples` works concrete names through the rule.
- `planner.dfy` (module `Planner`): `shouldApplyMigration`, the filter of the listing and the
  stable sort by version.
- `table.dfy` (module `MigrationTable`): the `migration` table as a sequence of rows in rowid
  order, with the three statements `up` issues (SELECT latest, INSERT, UPDATE).
- `runner.dfy` (module `Runner`):
  - the loop of `up` as functions over the table: `ApplyOne` for one pass of the loop body,
    `ApplyFrom` for the loop, `UpRun` for the whole command;
  - lemmas about those functions;
  - the `lastrowid` finding below, with a corrected loop;
  - the process as a class, `Migrator`. Its fields are the table, the cursor's `lastrowid`
    and the `version_info` cache. Its `Up` method runs the loop step by step and is proved
    equal to `UpRun`.
- `wrappers.dfy`: an `Option` type, used for Python's `None`.

The migrations' SQL is an oracle `runSql: string -> SqlOutcome`. Running it either raises, or
succeeds and possibly reports the rowid of a row it inserted (in whatever table). That rowid
is what moves the cursor's `lastrowid`. The loop sees each planned file as a `Migration`: the
name parsed with the `up` suffix, and what its SQL does.

## Model

| member | source | states |
|---|---|---|
| `PyStrings.Less` | migrate.py:91-95 | Python's `<` on `str`: code point by code point, a proper prefix below the longer string (its order laws are the lemmas below) |
| `PyStrings.LessEq` | migrate.py:91-94 | Python's `<=` on `str`: equal or below |
| `PyStrings.LessTrichotomous` | migrate.py:90-95 | Python string order is total: exactly one of `a < b`, `a == b`, `b < a` holds |
| `PyStrings.LessIrreflexive` | migrate.py:91 | no string is below itself |
| `PyStrings.LessTransitive` | migrate.py:91-92 | `<` on strings is transitive |
| `PyStrings.LessEqTransitive` | migrate.py:91-92 | `<=` is transitive and `a <= b < c` gives `a < c` |
| `PyStrings.LexicalNotNumeric` | migrate.py:91 | versions compare as text, not numbers: "V10" sorts before "V2" |
| `MigrationFilename.LastSuffixBefore` | migrate.py:65 | finds the last case-insensitive occurrence of `.<direction>.sql` starting before `n`, and none lies after it; None exactly when there is none |
| `MigrationFilename.LastSuffixIs` | migrate.py:65 | an occurrence with no later one is the one found |
| `MigrationFilename.FirstUnderscore` | migrate.py:65 | the index of the first `_`, or the length when there is none |
| `MigrationFilename.ExtractMigrationInformation` | migrate.py:63-68 | version and description are None together, and a parsed version never contains `_` |
| `MigrationFilename.ExtractFindsSuffix` | migrate.py:65-67 | the result is `{None, None}` exactly when no case-insensitive `.<direction>.sql` occurs anywhere in the name |
| `MigrationFilename.ExtractIsGreediestMatch` | migrate.py:65-68 | the result has a version exactly when the pattern matches, and its groups are those of the match tried first: longest version, then the optional `_` taken, then longest description |
| `MigrationFilename.LastSuffixInTail` | migrate.py:65 | a tail that starts with the suffix and has no later occurrence fixes where the match ends |
| `MigrationFilename.ParseComposed` | migrate.py:63-68 | round trip: `v + "_" + d + tail` parses back to `(v, d)` for any `v` without `_`, in any letter case of the suffix |
| `MigrationFilename.ParseComposedWithoutDescription` | migrate.py:63-68 | round trip without description: `v + tail` parses back to `(v, "")` |
| `FilenameExamples.DocstringExample` | migrate.py:64 | "V1.0.3.up.sql" gives version "V1.0.3" |
| `FilenameExamples.TrailingTextIgnored` | migrate.py:65 | the search is unanchored: "V1_x.up.sql.bak" gives "V1" and "x" |
| `FilenameExamples.SeedExample` | migrate.py:65-68 | "V1_seed.up.sql" gives "V1" and "seed" |
| `FilenameExamples.BogusNameIgnored` | migrate.py:66-67 | "bogus.sql" gives `{None, None}` in both directions |
| `Planner.CurrentOrEmpty` | migrate.py:71 | `version()['version'] or ''`: a missing current version reads as "" (used by `Planner.ShouldApplyWindow`) |
| `Planner.HasTarget` | migrate.py:74-78 | Python truthiness of the target: None and "" both mean no target (used by `Planner.ShouldApplyWindow`) |
| `Planner.ShouldApplyMigration` | migrate.py:70-97 | never applies a file when a non-empty target equals the current version, and never applies a file that carries no version in the direction the call chose (up with no target or a target above the current version, down otherwise) |
| `Planner.ShouldApplyWindow` | migrate.py:71-97 | with no target, or a target above the current version, it accepts exactly the `up` files with current < version (<= target if given); otherwise exactly the `down` files with target <= version < current; None reads as "" |
| `Planner.Pending` | migrate.py:115 | the filter keeps exactly the listed files `shouldApplyMigration` accepts with no target |
| `Planner.NothingAcceptedPendsNothing` | migrate.py:115 | when no listed file is accepted, nothing is pending |
| `Planner.SortKey` | migrate.py:118 | the sort key: the version parsed with the `up` suffix (every planned file has one, by `Planner.PlanIsSortedNewerFiles`) |
| `Planner.SortedLastIsLargest` | migrate.py:118 | in a sorted list no key exceeds the last key |
| `Planner.InsertBy` | migrate.py:118 | inserting a file into a list keeps every file and adds one |
| `Planner.InsertKeepsSorted` | migrate.py:118 | insertion into a sorted list keeps it sorted |
| `Planner.SortBy` | migrate.py:118 | the result is sorted by the key and is a permutation of the input |
| `Planner.InsertKeepsOrderOfEqualKeys` | migrate.py:118 | insertion keeps the relative order of files with equal keys |
| `Planner.SortIsStable` | migrate.py:118 | the sort is stable, as Python's `list.sort` is |
| `Planner.Plan` | migrate.py:115-118 | the files `up` applies, in order: the filter, then the sort (stated by `Planner.PlanIsSortedNewerFiles` and `Planner.PlanUpToLastLeavesNothing`) |
| `Planner.PlanIsSortedNewerFiles` | migrate.py:114-118 | the plan is sorted by `up` version, holds exactly the accepted files (with multiplicity), each with a version above the current one, and keeps listing order among equal versions |
| `Planner.PlanUpToLastLeavesNothing` | migrate.py:114-118 | planning is idempotent: against the last planned file's version nothing is planned |
| `MigrationTable.Truthy` | migrate.py:110 | Python truthiness of `dirty`: NULL and 0 are false (used by `Runner.UpRun`) |
| `MigrationTable.LatestInfo` | migrate.py:48-61 | `{None, None}` on an empty table, otherwise the version and dirty flag of the row with the largest id |
| `MigrationTable.LastHasLargestId` | migrate.py:26 | in a well-formed table the last row has the largest rowid |
| `MigrationTable.SameKeysKeepTableOk` | migrate.py:26-27 | changing only `dirty` and `description` keeps the table well formed |
| `MigrationTable.NextId` | migrate.py:26 | the rowid SQLite gives a new row of an INTEGER PRIMARY KEY table: the last rowid plus one, 1 when empty (stated by `MigrationTable.NextIdIsFresh`) |
| `MigrationTable.NextIdIsFresh` | migrate.py:26 | the next rowid is above every stored rowid |
| `MigrationTable.InsertRow` | migrate.py:125 | the INSERT of a dirty row for a migration (stated by `MigrationTable.InsertRowSpec`) |
| `MigrationTable.InsertRowSpec` | migrate.py:27 | the INSERT fails exactly on a NULL or already stored version (NOT NULL, UNIQUE); otherwise it appends one dirty row under the next rowid and keeps the table well formed |
| `MigrationTable.SetClean` | migrate.py:130 | the UPDATE that clears `dirty` on the row with a given id (stated by `MigrationTable.SetCleanSpec`) |
| `MigrationTable.SetCleanSpec` | migrate.py:130 | the UPDATE cleans exactly the rows whose id is the parameter (none for NULL), touches nothing else and keeps the table well formed |
| `Runner.Migrations` | migrate.py:120-122 | each planned file as the loop body sees it: its name parsed again with the `up` suffix, and what its SQL does |
| `Runner.ApplyOne` | migrate.py:122-130 | one pass of the loop body: INSERT, run the SQL, UPDATE on `lastrowid` (stated by the four `Runner.ApplyOne…` lemmas below) |
| `Runner.ApplyOneOutcome` | migrate.py:123-129 | one pass is rejected exactly for a migration without version or with a stored version, and fails exactly when its SQL raises |
| `Runner.ApplyOneAppends` | migrate.py:125-130 | a pass past the insert adds one row, the record of the migration under the next rowid, and keeps the table well formed |
| `Runner.ApplyOneKeepsRecords` | migrate.py:125-130 | a pass never changes the id, version or description of a stored row |
| `Runner.ApplyOneDirty` | migrate.py:125-130 | failing SQL leaves the new row dirty; SQL that inserts nothing leaves it clean; older rows are untouched |
| `Runner.ApplyFrom` | migrate.py:120-131 | the loop ends completed, or stopped at a planned file by a rejected insert or by failing SQL; it never reports a dirty halt |
| `Runner.UpRun` | migrate.py:108-118 | `up` halts exactly when the snapshot's dirty flag is truthy, and then leaves the table as it was |
| `Runner.ApplyFromLength` | migrate.py:120-131 | every attempted file adds exactly one row |
| `Runner.ApplyFromKeepsRecordAt` | migrate.py:120-131 | a run keeps the id, version and description of every row stored before it |
| `Runner.ApplyFromKeepsTableOk` | migrate.py:26-27 | a run keeps ids ascending and versions distinct |
| `Runner.ApplyFromRecordAt` | migrate.py:120-125 | the n-th added row is the record of the n-th planned file under the n-th next rowid: rows are added in plan order |
| `Runner.ApplyFromKeepsStoredRowsWithoutInserts` | migrate.py:120-131 | when no migration's SQL inserts a row, earlier rows stay exactly as they were, and a failed run has added the failed file's row |
| `Runner.ApplyFromDirtyAtWithoutInserts` | migrate.py:125-131 | when no migration's SQL inserts a row, every added row is clean except the last row of a run stopped by failing SQL, which stays dirty |
| `Runner.FailedRunHaltsNext` | migrate.py:110-131 | whatever the SQL does, a run stopped by failing SQL leaves that migration's row, the latest one, dirty, and the next `up` halts on it |
| `Runner.CompletedRunsHaveDistinctVersions` | migrate.py:27 | a completed run had pairwise distinct versions with a value, none stored before |
| `Runner.StoredVersionStopsAtInsert` | migrate.py:27 | a run that reaches a file whose version is already stored stops with a rejected insert at that file |
| `Runner.DuplicateVersionStopsAtInsert` | migrate.py:27 | when two planned files carry the same version, the run stops with a rejected insert at the second one, after the files before it, unless it stopped earlier |
| `Runner.CompletedRunEndsOnLastMigration` | migrate.py:48 | after a completed run the latest row holds the last migration's version |
| `Runner.CompletedRunEndsOnLastPlanned` | migrate.py:118-125 | after a completed run the latest row holds the last planned file's `up` version |
| `Runner.SecondRunPlansNothing` | migrate.py:107-131 | after a completed `up` run, a fresh run on the same listing plans nothing |
| `Runner.StaleRowIdLeavesRecordDirty` | migrate.py:129-130 | as written: when a migration's SQL inserts a row whose rowid is not the migration's, the run completes but the migration's row stays dirty and the next run halts |
| `Runner.SeedMigrationStaysDirty` | migrate.py:129-130 | the concrete case: "V1_seed.up.sql" inserting rowid 7, on an empty table, leaves `(1, "V1", "seed", dirty 1)` |
| `Runner.ApplyOneFixed` | migrate.py:125-130 | the loop body as evidently intended: the UPDATE cleans the migration's own row (stated by `Runner.ApplyOneFixedCleans`) |
| `Runner.ApplyOneFixedCleans` | migrate.py:125-130 | corrected pass: adds the migration's record, keeps older rows, and leaves the new row clean unless the SQL failed, whatever the SQL inserts |
| `Runner.ApplyOneFixedOutcome` | migrate.py:125-130 | the correction only changes which row is cleaned: rejection and failure are as before |
| `Runner.ApplyFromFixed` | migrate.py:120-131 | the corrected loop ends like the loop as written: completed or stopped at a planned file |
| `Runner.FixedRunKeepsStoredRows` | migrate.py:120-131 | with the correction, earlier rows stay exactly as they were, for any SQL |
| `Runner.FixedRunLeavesRecordsClean` | migrate.py:125-131 | with the correction, every added row is clean except the row of a failed file, for any SQL |
| `Runner.SameRecordsAgree` | migrate.py:26-27 | tables with the same records give the same next rowid and hold the same versions |
| `Runner.ApplyOneFixedSameRecords` | migrate.py:125-130 | corrected and as-written passes end alike and store the same records |
| `Runner.FixedRunSameRecords` | migrate.py:120-131 | corrected and as-written runs end alike and store the same records, so the record-level lemmas carry over |
| `Runner.Migrator.constructor` | migrate.py:17-20 | a process starts on an existing table, with no cursor result and no cached version |
| `Runner.Migrator.Version` | migrate.py:38-61 | the first call returns the latest row's version and dirty flag and caches them; every later call returns the cache even after inserts |
| `Runner.Migrator.ShouldApplyMigration` | migrate.py:70-71 | decides against the snapshot `version()` returns, caching it |
| `Runner.Migrator.InsertMigration` | migrate.py:125-126 | the INSERT: on success one dirty row under the next rowid and `lastrowid` names it; on a constraint violation nothing changes |
| `Runner.Migrator.Execute` | migrate.py:127-129 | running the SQL: an INSERT in it moves `lastrowid` |
| `Runner.Migrator.MarkClean` | migrate.py:130-131 | the UPDATE on the row `lastrowid` names |
| `Runner.Migrator.ApplyMigrations` | migrate.py:120-131 | the loop leaves the table, `lastrowid` and the outcome that `ApplyFrom` gives |
| `Runner.Migrator.Up` | migrate.py:107-131 | the command leaves the table, `lastrowid`, cache and outcome that `UpRun` gives on the cached snapshot |

## Left out

- Argument parsing, command dispatch, `help()`, the `version` command's printing and the
  "Unknown command" branch: command-line surface only.
- `log` and the verbosity flag: output only.
- Opening the connection from `DATABASE` and the `CREATE TABLE IF NOT EXISTS` statement. The
  table is a value the caller supplies, and each `commit()` is the point where the modelled
  state changes.
- `os.listdir('/migrations')` and reading the files: the listing is a parameter, and each
  file's SQL is the `runSql` oracle.
- What the migrations' SQL does to the database. Only failure, success and the rowid of a row
  it inserts are modelled. It is assumed not to write to the `migration` table itself.
- Timestamp defaults and the unused `deleted_at` column: nothing reads them.
- `exit()` after a dirty snapshot is the `HaltedDirty` outcome with the table untouched.
- An INSERT that breaks NOT NULL or UNIQUE, or migration SQL that raises, throws an
  exception nobody catches, and the process ends. These are the `InsertRejected` and
  `SqlFailed` outcomes, and the table is what had been committed. The traceback is left out.
- The regular expression's `.` does not match a newline, and `re.IGNORECASE` folds non-ASCII
  letters too. The model assumes names without newlines and folds ASCII only. The suffix
  letters are ASCII, but Unicode folding also matches some other characters to them: `ſ`
  (U+017F, long s) matches the `s` of `.sql`. Python reads `V1.up.ſql` as version `V1`; the
  model finds no version in it. Names that spell the suffix with such characters are not
  captured.
- SQLite's rowid rule is modelled as the last rowid plus one. The fallback to a random free
  rowid once 2^63-1 is used is left out.
- `Planner.SortBy`: models `list.sort` as a stable insertion sort. It is proved to give the
  same result (sorted, a permutation, stable), but not Python's algorithm or its in-place
  update.
- `Planner.SortKey`: maps a missing `up` version to "". Python would compare `None` with a
  string and raise. Every planned file has an `up` version (`Planner.PlanIsSortedNewerFiles`),
  so this cannot happen in `up`.
- The down direction of `shouldApplyMigration` is modelled and proved (`Planner.ShouldApplyWindow`),
  but `up` always passes no target, so it is never reached from the command.
- The `up` loop is its own method, `Runner.Migrator.ApplyMigrations`, so that its proof is
  separate from the dirty check and the planning. Its steps are those of the inline loop.

## Findings

| source | as written | input that shows it | evidently intended | confidence | as-written member | corrected member |
|---|---|---|---|---|---|---|
| migrate.py:129-130 | the UPDATE uses `c.lastrowid` after the migration's SQL ran, so it cleans whatever row that SQL inserted last | empty table; one file "V1_seed.up.sql" whose SQL is an INSERT that gets rowid 7: the run completes but row `(1, "V1", "seed")` stays dirty, and the next `up` halts as dirty | clean the migration's own row, whose id `lastrowid` held right after the INSERT that records the migration | not executed | `Runner.StaleRowIdLeavesRecordDirty`, `Runner.SeedMigrationStaysDirty` | `Runner.ApplyOneFixed`, `Runner.ApplyFromFixed` with `Runner.ApplyOneFixedCleans`, `Runner.FixedRunLeavesRecordsClean`, `Runner.FixedRunSameRecords` |

`Runner.Migrator` follows line 130 as written. `Runner.FixedRunSameRecords` shows that the
correction changes dirty flags only. The outcome and every stored id, version and description
are the same, so the run lemmas about records hold for the corrected loop too.
