# dirdiff: the snapshot comparison, modelled in Dafny

dirdiff records snapshots of a directory tree. Each snapshot is a set of lines
`hash,name,path,millis` appended to a `.dirdiff.csv` file. The two newest
snapshots can then be compared. To compare, the records are loaded into an
in-memory SQLite table `dir_entries`, with dates truncated to whole seconds.
The two newest distinct dates are picked, and the rows of those two
revisions are copied into `working_entries`. A fixed sequence of phases
then shrinks that table:

1. previous-revision rows with an unchanged counterpart are deleted;
2. renamed pairs (same hash and path, new name) are reported, and the
   latest-side row of each pair is deleted (the second DELETE meant for the
   previous side never matches; see Findings);
3. moved pairs (same hash and name, new path) are reported, and the
   latest-side row of each pair is deleted; the previous-side row stays
   (src/main.rs:223-231).

`src/db.rs` is a later draft of the same phases. It adds a `touched_entries`
table that collects the previous-revision rows each phase accounted for,
and a `missing_files` query over the two tables. `src/dir_csv.rs` reads the
snapshot lines back, either all of them or only those of the newest
snapshot, and holds the hidden-name test used while walking a directory.

The model has one module per concern:

- `Docs`: the record.
- `Decimal`: `u64` text.
- `DirCsv`: reading snapshot lines.
- `Relational`: the meaning of each SQL statement over a table held as a
  sequence of rows.
- `Revisions`: the revision list and the pick of two revisions.
- `LocalCompare`: `compare_local` in `src/main.rs`. It is a class
  `LocalConnection` whose methods change the tables in place, tied to the
  pure pipeline `CompareRevisions`.
- `Db`: the draft in `src/db.rs`. It has the same shape, with a class
  `Connection` and the pure phase functions over a `Tables` value.

Every SELECT is a function of the table state. Every DELETE is "drop the
rows whose id the sub-select yields", evaluated on the table as it is when
the statement runs. `src/db.rs` repeats `load_to_local_sqlite`,
`revision_millis`, `load_working_table`, `renamed_files` and `moved_files`
from `src/main.rs` (src/db.rs:141-148, 170-201, 48-67, 91-110). Those copies
are the same statements and are modelled by the same members.
`src/main.rs` also has its own `is_hidden` and `load_csv_entries`
(src/main.rs:58-63, 113-129). They match the `src/dir_csv.rs` versions apart
from the debug printing, and are modelled by `DirCsv.IsHidden` and
`DirCsv.LoadCsvEntries`.

Points in the code that the model follows as written:

- The unchanged phase deletes only the previous-side row of each
  unchanged pair; the latest-side row stays (src/main.rs:283-288).
- The rename phase deletes only the latest side of each renamed pair
  (src/main.rs:255-272); see Findings.
- "Missing" is the `src/db.rs` query (src/db.rs:25-45). The `missing_files`
  of `src/main.rs` is an empty stub (src/main.rs:186-189).
- `w1 LEFT JOIN w2 ... WHERE w2.id IS NULL` (src/db.rs:29-31) is an
  anti-join: the `w1` rows with no matching `w2` row.

## Model

| member | source | states |
|---|---|---|
| Decimal.ParseU64 | src/dir_csv.rs:102 | a parsed `u64` is at most 2^64-1; empty text, a lone `+` and a leading `-` are errors |
| Decimal.NatToString | src/main.rs:26-27 | the written form of a number is non-empty decimal digits, without leading zeros, whose value is the number |
| Decimal.ParseDisplayed | src/dir_csv.rs:102 | parsing the written form of any `u64` gives the number back |
| Decimal.DisplayedCanonical | src/dir_csv.rs:102 | a digit string without leading zeros is the written form of its own value |
| DirCsv.DecodeFrom | src/dir_csv.rs:96-105 | reading succeeds exactly when every record is readable, with one record per line; a failure carries the error of the first unreadable record |
| DirCsv.RecordError | src/dir_csv.rs:97-102 | the error, if any, of one record: a field count different from the first record's (the reader's unequal-lengths error), fewer than four fields, or a date that is not a `u64`; `DecodeFrom` and `FirstFailure` state that the first such error is the error of the whole read |
| DirCsv.DecodeRecords | src/dir_csv.rs:93-110 | what `load_csv_entries` returns; `AllReadable`, `FirstFailure` and `ReadBackWritten` state its success, its failure and its round trip with the writer |
| DirCsv.DecodedAt | src/dir_csv.rs:98-104 | the j-th record read has hash, name and path from fields 0-2 and the date from field 3 |
| DirCsv.LoadCsvEntries | src/dir_csv.rs:93-110 | the reading loop returns exactly what `DecodeRecords` specifies, the first failure included |
| DirCsv.ReadBackWritten | src/main.rs:371-375 | reading back the written records gives the same entries in the same order |
| DirCsv.SeqMax | src/dir_csv.rs:120-122 | the last of the sorted dates is one of them and no smaller than any other |
| DirCsv.WithMillis | src/dir_csv.rs:132-150 | the kept records are exactly the records with the given date |
| DirCsv.LatestEntriesExact | src/dir_csv.rs:112-155 | reading the newest snapshot fails exactly when reading fails or the file is empty; otherwise the result is exactly the records of the newest date |
| DirCsv.LatestEntries | src/dir_csv.rs:112-155 | what `load_csv_latest_entries` returns; `LatestEntriesExact` states its failure cases and that it keeps exactly the records of the newest date |
| DirCsv.FirstFailure | src/dir_csv.rs:115-118 | a failure at record i, with everything before it readable, is the failure of the whole read |
| DirCsv.AllReadable | src/dir_csv.rs:96-105 | when every record is readable, the read succeeds with one record per line, built from its fields |
| DirCsv.LoadCsvLatestEntries | src/dir_csv.rs:113-155 | the two-pass loop returns exactly what `LatestEntries` specifies |
| DirCsv.RecordsDated | src/dir_csv.rs:128-150 | the second pass keeps, in file order, exactly the records dated with the newest date |
| DirCsv.IsHidden | src/dir_csv.rs:39-44 | true exactly when the name is valid text and starts with `.` |
| Relational.KindOf | src/main.rs:201-290 | at most one of the unchanged, renamed and moved join conditions holds for any pair; none holds when the dates are equal, the hashes differ, or both name and path differ |
| Relational.JoinFrom | src/main.rs:235-240 | a pair is in the join exactly when both rows are in the table and the ON and WHERE clauses hold |
| Relational.JoinEmpty | src/main.rs:235-240 | a join with no selected pair yields no rows |
| Relational.DeleteIds | src/main.rs:284-287 | `DELETE ... WHERE id IN` keeps exactly the rows whose id was not selected, and adds none |
| Relational.RowsWithIds | src/db.rs:151-155 | `INSERT ... SELECT` copies exactly the rows whose id was selected |
| Relational.DeleteAndSelectSplit | src/db.rs:150-163 | the rows deleted and the rows copied together make up the table: none lost, none duplicated |
| Relational.LeftIdsOfRow | src/main.rs:257-262 | with a key id, a row's id is selected as `w1.id` exactly when the row is dated `?1` and has a partner |
| Relational.RightIdsOfRow | src/main.rs:265-270 | with a key id, a row's id is selected as `w2.id` exactly when the row is dated `?2` and is the partner of a row dated `?1` |
| Relational.DeleteKeepsKeys | src/main.rs:178-183 | deleting rows keeps the id column a key |
| Relational.StoredRowsFaithful | src/main.rs:146-151 | the i-th row gets id i+1, keeps the text fields, and is dated at the whole second of the record's milliseconds |
| Relational.StoredRowsKeyed | src/main.rs:136-141 | the ids of `dir_entries` are distinct, so id is a key |
| Relational.InsertEntries | src/main.rs:143-152 | the insertion loop stores exactly `StoredRows(entries)` |
| Relational.SeedRows | src/main.rs:274-281 | `working_entries` receives exactly the rows dated latest or previous, ids and all fields kept |
| Relational.RemoveUnchangedExact | src/main.rs:283-288 | exactly the previous-side rows with an identical row of another date are deleted; no row of another date is deleted |
| Relational.RemoveUnchanged | src/main.rs:283-290 | the unchanged phase; `RemoveUnchangedExact` states exactly which rows it deletes |
| Relational.ReportedExactly | src/main.rs:234-252 | the report (renamed or moved) has one record per pair, and a record is reported exactly when it is the latest side of such a pair |
| Relational.RenamedFiles | src/main.rs:234-252 | `renamed_files`; `ReportedExactly` states it reports one record per renamed pair, and exactly the latest sides of such pairs |
| Relational.MovedFiles | src/main.rs:201-221 | `moved_files`; `ReportedExactly` states it reports one record per moved pair, and exactly the latest sides of such pairs |
| Relational.SecondRenameDeleteIsEmpty | src/main.rs:265-271 | the second DELETE of `remove_renamed` selects no id |
| Relational.RemoveRenamedExact | src/main.rs:255-272 | `remove_renamed` deletes exactly the latest-side rows of renamed pairs; afterwards no renamed pair remains |
| Relational.RemoveRenamed | src/main.rs:255-272 | the two DELETEs of `remove_renamed`; `RemoveRenamedExact` and `SecondRenameDeleteIsEmpty` state what they delete |
| Relational.RemoveRenamedPairsExact | src/main.rs:255-272 | the intended rename phase deletes exactly the rows on either side of a renamed pair |
| Relational.RemoveMovedLeavesNoPair | src/main.rs:223-231 | after `remove_moved` no moved (latest, previous) pair remains |
| Relational.RemoveMovedExact | src/main.rs:223-231 | `remove_moved` deletes exactly the latest-side rows of moved pairs |
| Relational.RemoveMoved | src/main.rs:223-231 | `remove_moved`; `RemoveMovedExact` and `RemoveMovedLeavesNoPair` state what it deletes and that no moved pair is left |
| Revisions.InsertDescending | src/main.rs:159 | adding a date keeps the list strictly descending and holds exactly the old dates and the new one |
| Revisions.RevisionMillis | src/main.rs:158-166 | the revision list is strictly descending and holds exactly the stored dates |
| Revisions.DescendingUnique | src/main.rs:158-166 | two strictly descending lists with the same elements are equal, so the revision list is determined |
| Revisions.PickNewestTwo | src/main.rs:318-321 | the pick succeeds exactly when two distinct dates are stored; latest is the newest date, previous the newest date older than it |
| Revisions.PickRevisions | src/main.rs:320-321 | `revisions[0]` and `revisions[1]`, failing where the indexing panics; `PickNewestTwo` states when it succeeds and which dates it picks |
| LocalCompare.PhasesOnlyDelete | src/main.rs:326-352 | each phase only removes rows from the one before it, and the id column stays a key |
| LocalCompare.CompareOutcome | src/main.rs:317-321 | the comparison fails exactly when fewer than two dates are stored; otherwise it compares the newest date with the one just before it |
| LocalCompare.CompareRevisions | src/main.rs:317-354 | the whole comparison; `CompareOutcome`, `RemainingExact` and `RemainingHasNoPairs` state its outcome and the rows it leaves |
| LocalCompare.RemainingExact | src/main.rs:326-352 | the rows left are the two revisions' rows, less previous-side unchanged rows and the latest sides of renamed and moved pairs; no previous-side row is removed after the first phase |
| LocalCompare.RemainingHasNoPairs | src/main.rs:333-352 | no unchanged, renamed or moved pair can be formed from the rows left |
| LocalCompare.IdenticalSnapshotsReportNothing | src/main.rs:333-348 | when every previous-side row has an identical latest-side row, nothing is reported renamed or moved and only latest-side rows remain |
| LocalCompare.StoredRevisions | src/main.rs:146-151 | the revisions are the whole seconds of the snapshot dates, so snapshots taken within one second are one revision |
| LocalCompare.TwoRevisions | src/main.rs:158-166 | two rows of different dates give the revision list [newer, older] |
| LocalCompare.RenamedPairSurvivesUnchanged | src/main.rs:283-288 | neither row of a lone renamed pair is deleted as unchanged |
| LocalCompare.RenamedOriginalRemains | src/main.rs:255-272 | for a store holding only a renamed pair (one previous-side row, one latest-side row), the rename is reported and the new row is deleted, but the original row remains |
| LocalCompare.IntendedRemainingPrevious | src/main.rs:265-271 | with both sides of renamed pairs deleted, the previous-side rows left are exactly those with neither an unchanged nor a renamed counterpart |
| LocalCompare.ReportedDateIsSeconds | src/main.rs:248 | a reported record carries the stored whole seconds as its milliseconds, so a record stamped at or after the first second is reported earlier than it was stamped (5000 ms as 5 ms) |
| LocalCompare.ReportedWithinSecond | src/main.rs:247 | the intended report carries the original timestamp truncated to the second |
| LocalCompare.LocalConnection.constructor | src/main.rs:131-133 | a new connection has empty tables |
| LocalCompare.LocalConnection.LoadToLocalSqlite | src/main.rs:135-155 | `dir_entries` becomes `StoredRows(entries)`, keyed on id |
| LocalCompare.LocalConnection.SetupWorkingTable | src/main.rs:177-184 | `working_entries` is created empty |
| LocalCompare.LocalConnection.LoadWorkingTable | src/main.rs:274-281 | `working_entries` gains the seed rows, and their count is returned |
| LocalCompare.LocalConnection.RemoveUnchangedFromWorkingTable | src/main.rs:283-290 | `working_entries` becomes `RemoveUnchanged` of its old state |
| LocalCompare.LocalConnection.RemoveRenamed | src/main.rs:255-272 | the two DELETEs in order take `working_entries` to `RemoveRenamed` of its old state |
| LocalCompare.LocalConnection.RemoveMoved | src/main.rs:223-231 | `working_entries` becomes `RemoveMoved` of its old state |
| LocalCompare.LocalConnection.CompareLocal | src/main.rs:317-354 | the method returns `CompareRevisions(dir_entries)`, leaves `working_entries` as the remaining rows, and fails before touching it when fewer than two revisions exist |
| Db.Dated | src/db.rs:29-31 | exactly the rows with the given date |
| Db.Except | src/db.rs:27-28 | exactly the rows of the first table that are not rows of the second |
| Db.UnchangedMovesToTouched | src/db.rs:150-163 | the unchanged phase moves rows from `working_entries` to `touched_entries`, none lost or duplicated; the rows moved are exactly the previous-side rows with an unchanged partner |
| Db.DbRemoveUnchanged | src/db.rs:150-164 | the draft's unchanged phase; `UnchangedMovesToTouched` states which rows move to `touched_entries` |
| Db.DbRemoveRenamed | src/db.rs:112-139 | the draft's rename phase; `RenamedRecordsPreviousSide` states what each table gains and loses |
| Db.DbRemoveMoved | src/db.rs:69-88 | the draft's move phase as written; `MovedRecordsNothing` states that `touched_entries` gains nothing |
| Db.RenamedRecordsPreviousSide | src/db.rs:112-139 | `touched_entries` gains exactly the previous-side rows with a renamed partner; `working_entries` loses exactly the latest sides |
| Db.MovedRecordsNothing | src/db.rs:69-88 | as written, the move phase adds nothing to `touched_entries` |
| Db.MovedRecordFirstExact | src/db.rs:69-88 | recording before deleting adds exactly the previous-side rows with a moved partner, and leaves `working_entries` as written |
| Db.SameWorkingAsLocal | src/db.rs:141-163 | the draft leaves `working_entries` exactly as `compare_local` in src/main.rs does |
| Db.UnpairedPreviousExact | src/db.rs:29-31 | the anti-join yields exactly the previous-side rows with no unchanged partner |
| Db.UnpairedPrevious | src/db.rs:29-31 | the anti-join of `missing_files`; `UnpairedPreviousExact` states exactly which rows it yields |
| Db.MissingRows | src/db.rs:25-45 | the rows of `missing_files`; `MissingFilesAreUnchanged` states which rows they are after the phases |
| Db.MissingFiles | src/db.rs:25-45 | the records of `missing_files`; `MissingFilesReportUnchanged` states which records they are after the phases |
| Db.FirstTwoPhases | src/db.rs:112-163 | what the two tables hold after the unchanged and rename phases |
| Db.MissingFilesAreUnchanged | src/db.rs:25-45 | as written, `missing_files` returns exactly the previous-side rows that are unchanged |
| Db.MissingFilesReportUnchanged | src/db.rs:25-45 | as written, `missing_files` reports a record exactly when it is the report of an unchanged previous-side row |
| Db.IntendedMissingExact | src/db.rs:23-24 | the intended query reports a previous-side row exactly when it has no unchanged, renamed or moved counterpart |
| Db.Connection.constructor | src/db.rs:166-168 | a new connection has empty tables |
| Db.Connection.LoadToLocalSqlite | src/db.rs:170-190 | `dir_entries` becomes `StoredRows(entries)`, keyed on id |
| Db.Connection.SetupWorkingTables | src/db.rs:8-21 | `working_entries` and `touched_entries` are created empty, with the same row shape |
| Db.Connection.LoadWorkingTable | src/db.rs:141-148 | `working_entries` gains the seed rows, and their count is returned |
| Db.Connection.RemoveUnchangedFromWorkingTable | src/db.rs:150-164 | INSERT then DELETE take the two tables to `DbRemoveUnchanged` of their old state |
| Db.Connection.RemoveRenamed | src/db.rs:112-139 | INSERT then two DELETEs take the tables to `DbRemoveRenamed` of their old state |
| Db.Connection.RemoveMoved | src/db.rs:69-88 | DELETE then INSERT take the tables to `DbRemoveMoved` of their old state, and `touched_entries` is unchanged |

## Left out

- Directory walking and SHA-1 hashing (`gen_dir_struct` in both files): filesystem I/O and a library digest. A hash is an opaque string.
- Creating and opening `.dirdiff.csv`, and the CSV tokenizer and quoting: file I/O and a library. A record arrives already split into fields. Of the reader's errors, only the unequal-field-count error is modelled.
- Reader I/O and encoding errors, and the result of `reader.seek`, which is ignored: the second pass of `load_csv_latest_entries` is modelled as re-reading the same records.
- The SQLite engine. These engine errors are not modelled: a table that already exists, an id conflict on INSERT, and a prepare or query failure.
- Row order: a join's output order is not fixed by SQL. The model enumerates pairs outer row first.
- Relational.JoinFrom: its contract states which pairs are in the join, not their multiplicity or order.
- Db.Except: SQL `EXCEPT` also removes duplicate rows. The model keeps the order and any repeats of `touched_entries`, and its contract speaks of membership only.
- The invalid SQL of `src/db.rs` is modelled by its evident meaning. `MINUS` is read as `EXCEPT`. `INSERT ... VALUES(SELECT ...)` is read as `INSERT ... SELECT`. The four-column SELECT of `remove_renamed` is read as the whole row. The ten-column `SELECT * FROM working_entries w1 LEFT JOIN working_entries w2` of `missing_files` (src/db.rs:29) is read as the five columns of the `w1` row, the shape of `touched_entries`.
- Integer widths: SQLite's `i64`, the `as u64` casts, `Duration` overflow, a date before the epoch ("Date oopsie") and chrono's timestamp range are not modelled. Dates are unbounded naturals.
- `list_revisions` (the conversion to `NaiveDateTime`), `print_docs`, `print_working_entries` and all verbose/debug printing: output only.
- The `main` argument dispatch, `help`, and the `compare` command that is only named in the help text.
- The empty stubs `missing_files`, `new_files` and `changed_files` of src/main.rs:186-199: they return nothing.
- The counts returned by the DELETE statements. Only the insert count of `load_working_table` is modelled.
- `src/docs.rs` holds only the record type, which is `Docs.Doc`, and a print loop.
- `db.rs` has no driver that runs its phases. `Db.DbPhases` composes them in the order of `compare_local`.

## Findings

| source | as written | input that shows it | evidently intended | confidence | as-written member | corrected member |
|---|---|---|---|---|---|---|
| src/main.rs:265-271 | the second DELETE of `remove_renamed` runs after the first has removed every latest-side row of a renamed pair, so its join is empty and the original row of a renamed file stays in `working_entries` | previous `(h, "a", "/d")`, latest `(h, "b", "/d")`: `(h, "a", "/d")` is still there at the end | both sides of each renamed pair deleted, selected before either DELETE | high, not executed | LocalCompare.RenamedOriginalRemains | LocalCompare.IntendedRemainingPrevious |
| src/db.rs:69-88 | `remove_moved` inserts the previous sides into `touched_entries` after deleting their latest-side partners, so the INSERT selects nothing | previous `(h, "a", "/d")`, latest `(h, "a", "/e")`: `touched_entries` gains no row | record the previous sides first, then delete | high, not executed | Db.MovedRecordsNothing | Db.MovedRecordFirstExact |
| src/db.rs:25-45 | `missing_files` subtracts the unpaired previous-side rows from `touched_entries`, so after the phases it returns exactly the unchanged files | previous and latest both `(h, "a", "/d")`: the unchanged file is reported missing | previous-side rows that no phase accounted for | medium, not executed | Db.MissingFilesAreUnchanged | Db.IntendedMissingExact |
| src/main.rs:248 | a reported record's date reads the stored whole seconds as milliseconds | a record stamped 5000 ms is reported with 5 ms | the stored seconds times 1000 | medium, not executed | LocalCompare.ReportedDateIsSeconds | LocalCompare.ReportedWithinSecond |
