/**
 * src/db.rs, the later draft of the comparison: the same phases over
 * `working_entries`, plus a second table `touched_entries` collecting the
 * previous-revision rows each phase accounts for, and `missing_files`
 * defined from the two tables.
 *
 * Several statements of the draft are not valid SQLite (`MINUS` is not a
 * SQLite operator, `INSERT ... VALUES(SELECT ...)` is malformed, and one
 * INSERT names five columns but selects four); each is modelled by what it
 * evidently means, and each such place is marked below.
 */
module Db {
  import opened Wrappers
  import opened Docs
  import opened Relational
  import LocalCompare

  /** The two tables the phases change. */
  datatype Tables = Tables(working: seq<Row>, touched: seq<Row>)

  /** The rows of `t` dated `d`, in table order. */
  function Dated(t: seq<Row>, d: nat): (r: seq<Row>)
    ensures forall x :: x in r <==> x in t && x.modDate == d
  {
    if t == [] then []
    else (if t[0].modDate == d then [t[0]] else []) + Dated(t[1..], d)
  }

  /** The rows of `a` that are not rows of `b`, in the order of `a`. */
  function Except(a: seq<Row>, b: seq<Row>): (r: seq<Row>)
    ensures forall x :: x in r <==> x in a && x !in b
  {
    if a == [] then []
    else (if a[0] in b then [] else [a[0]]) + Except(a[1..], b)
  }

  // ---------------------------------------------------------------------
  // The phases of db.rs, statement by statement
  // ---------------------------------------------------------------------

  /**
   * `remove_unchanged_from_working_table`: the previous-side rows with an
   * unchanged partner are first copied into `touched_entries` (written as
   * `INSERT ... VALUES(SELECT ...)`, read as `INSERT ... SELECT`), then
   * deleted from `working_entries`.
   */
  function DbRemoveUnchanged(s: Tables, previous: nat): Tables {
    var ids := UnchangedIds(s.working, previous);
    Tables(DeleteIds(s.working, ids), s.touched + RowsWithIds(s.working, ids))
  }

  /**
   * `remove_renamed`: the previous-side rows of the renamed pairs (the
   * parameters are bound as `(previous, latest)`) are copied into
   * `touched_entries` (the SELECT lists four of the five columns; the whole
   * row is meant), then the two DELETEs of src/main.rs run.
   */
  function DbRemoveRenamed(s: Tables, latest: nat, previous: nat): Tables {
    var touched := s.touched + RowsWithIds(s.working, LeftIds(s.working, Renamed, previous, Some(latest)));
    Tables(RemoveRenamed(s.working, latest, previous), touched)
  }

  /**
   * `remove_moved`: the latest-side rows of the moved pairs are deleted,
   * then the previous-side rows of the moved pairs are copied into
   * `touched_entries`, that second statement being evaluated on the table
   * the DELETE left.
   */
  function DbRemoveMoved(s: Tables, latest: nat, previous: nat): Tables {
    var working := RemoveMoved(s.working, latest, previous);
    Tables(working, s.touched + RowsWithIds(working, LeftIds(working, Moved, previous, Some(latest))))
  }

  /** The evident intent of `remove_moved`: the previous sides are recorded before the latest sides are deleted. */
  function DbRemoveMovedRecordFirst(s: Tables, latest: nat, previous: nat): Tables {
    Tables(RemoveMoved(s.working, latest, previous),
      s.touched + RowsWithIds(s.working, LeftIds(s.working, Moved, previous, Some(latest))))
  }

  /** The tables after `setup_working_tables`, `load_working_table` and the three phases, in the order of `compare_local`. */
  function DbPhases(dir: seq<Row>, latest: nat, previous: nat): Tables {
    var s1 := DbRemoveUnchanged(Tables(SeedRows(dir, latest, previous), []), previous);
    DbRemoveMoved(DbRemoveRenamed(s1, latest, previous), latest, previous)
  }

  /** The same, with the move phase recording before it deletes. */
  function DbPhasesIntended(dir: seq<Row>, latest: nat, previous: nat): Tables {
    var s1 := DbRemoveUnchanged(Tables(SeedRows(dir, latest, previous), []), previous);
    DbRemoveMovedRecordFirst(DbRemoveRenamed(s1, latest, previous), latest, previous)
  }

  // ---------------------------------------------------------------------
  // missing_files
  // ---------------------------------------------------------------------

  /** `w1 LEFT JOIN w2 ... WHERE w1.mod_date = previous AND w2.id IS NULL`: previous-side rows with no unchanged partner. */
  function UnpairedPrevious(working: seq<Row>, previous: nat): seq<Row> {
    DeleteIds(Dated(working, previous), UnchangedIds(working, previous))
  }

  /** `missing_files` as written: `touched_entries` less the unpaired previous-side rows (`MINUS` read as `EXCEPT`). */
  function MissingRows(s: Tables, previous: nat): seq<Row> {
    Except(s.touched, UnpairedPrevious(s.working, previous))
  }

  /** The records `missing_files` returns, one per row. */
  function ReportRows(rows: seq<Row>): (docs: seq<Doc>)
    ensures |docs| == |rows|
    ensures forall i :: 0 <= i < |rows| ==> docs[i] == ReportDoc(rows[i])
  {
    seq(|rows|, i requires 0 <= i < |rows| => ReportDoc(rows[i]))
  }

  function MissingFiles(s: Tables, previous: nat): seq<Doc> {
    ReportRows(MissingRows(s, previous))
  }

  /** The evident intent of `missing_files`: the previous-side rows no phase accounted for. */
  function MissingRowsIntended(s: Tables, previous: nat): seq<Row> {
    Except(Dated(s.working, previous), s.touched)
  }

  // ---------------------------------------------------------------------
  // Properties of the phases
  // ---------------------------------------------------------------------

  /**
   * The unchanged phase moves rows from `working_entries` to
   * `touched_entries`: nothing is lost or duplicated, and the rows moved are
   * exactly the previous-side rows with an unchanged partner.
   */
  lemma UnchangedMovesToTouched(s: Tables, previous: nat)
    requires IdsAreKeys(s.working)
    ensures var n := DbRemoveUnchanged(s, previous);
      && multiset(n.working) + multiset(n.touched) == multiset(s.working) + multiset(s.touched)
      && n.touched[..|s.touched|] == s.touched
      && forall r :: r in n.touched[|s.touched|..] <==>
           r in s.working && r.modDate == previous && HasPartner(s.working, Unchanged, r, None)
  {
    var ids := UnchangedIds(s.working, previous);
    var added := RowsWithIds(s.working, ids);
    var n := DbRemoveUnchanged(s, previous);
    DeleteAndSelectSplit(s.working, ids);
    assert n.touched[..|s.touched|] == s.touched && n.touched[|s.touched|..] == added;
    forall r | r in s.working {
      LeftIdsOfRow(s.working, Unchanged, previous, None, r);
    }
  }

  /**
   * The rename phase records in `touched_entries` exactly the previous-side
   * rows with a renamed partner in the latest revision, and deletes from
   * `working_entries` exactly the latest-side rows of the renamed pairs.
   */
  lemma RenamedRecordsPreviousSide(s: Tables, latest: nat, previous: nat)
    requires IdsAreKeys(s.working)
    ensures var n := DbRemoveRenamed(s, latest, previous);
      && n.touched[..|s.touched|] == s.touched
      && (forall r :: r in n.touched[|s.touched|..] <==>
            r in s.working && r.modDate == previous && HasPartner(s.working, Renamed, r, Some(latest)))
      && (forall r :: r in n.working <==>
            r in s.working && !(r.modDate == latest && HasPartner(s.working, Renamed, r, Some(previous))))
  {
    var n := DbRemoveRenamed(s, latest, previous);
    assert n.touched[|s.touched|..] == RowsWithIds(s.working, LeftIds(s.working, Renamed, previous, Some(latest)));
    assert n.touched[..|s.touched|] == s.touched;
    RemoveRenamedExact(s.working, latest, previous);
    forall r | r in s.working {
      LeftIdsOfRow(s.working, Renamed, previous, Some(latest), r);
    }
  }

  /**
   * The move phase as written records nothing: once the latest-side rows of
   * the moved pairs are deleted, no moved pair is left for its INSERT to
   * select.
   */
  lemma MovedRecordsNothing(s: Tables, latest: nat, previous: nat)
    ensures DbRemoveMoved(s, latest, previous).touched == s.touched
  {
    var working := RemoveMoved(s.working, latest, previous);
    RemoveMovedLeavesNoPair(s.working, latest, previous);
    assert forall a, b :: a in working && b in working ==> !Selected(Moved, a, b, previous, Some(latest)) by {
      assert forall a: Row, b: Row :: Matches(Moved, a, b) ==> Matches(Moved, b, a);
    }
    JoinEmpty(working, working, Moved, previous, Some(latest));
    assert LeftIds(working, Moved, previous, Some(latest)) == {};
    RowsWithNoIds(working);
  }

  /** The intended move phase records exactly the previous-side rows with a moved partner in the latest revision. */
  lemma MovedRecordFirstExact(s: Tables, latest: nat, previous: nat)
    requires IdsAreKeys(s.working)
    ensures var n := DbRemoveMovedRecordFirst(s, latest, previous);
      && n.working == DbRemoveMoved(s, latest, previous).working
      && n.touched[..|s.touched|] == s.touched
      && forall r :: r in n.touched[|s.touched|..] <==>
           r in s.working && r.modDate == previous && HasPartner(s.working, Moved, r, Some(latest))
  {
    var n := DbRemoveMovedRecordFirst(s, latest, previous);
    assert n.touched[|s.touched|..] == RowsWithIds(s.working, LeftIds(s.working, Moved, previous, Some(latest)));
    assert n.touched[..|s.touched|] == s.touched;
    forall r | r in s.working {
      LeftIdsOfRow(s.working, Moved, previous, Some(latest), r);
    }
  }

  /** The draft leaves `working_entries` exactly as `compare_local` in src/main.rs does. */
  lemma SameWorkingAsLocal(dir: seq<Row>, latest: nat, previous: nat)
    ensures DbPhases(dir, latest, previous).working == LocalCompare.AfterMoved(dir, latest, previous)
    ensures DbPhasesIntended(dir, latest, previous).working == LocalCompare.AfterMoved(dir, latest, previous)
  {
    var s1 := DbRemoveUnchanged(Tables(SeedRows(dir, latest, previous), []), previous);
    assert s1.working == LocalCompare.AfterUnchanged(dir, latest, previous);
    assert DbRemoveRenamed(s1, latest, previous).working == LocalCompare.AfterRenamed(dir, latest, previous);
  }

  // ---------------------------------------------------------------------
  // Properties of missing_files
  // ---------------------------------------------------------------------

  /** The anti-join keeps exactly the previous-side rows that have no unchanged partner. */
  lemma UnpairedPreviousExact(working: seq<Row>, previous: nat)
    requires IdsAreKeys(working)
    ensures forall x :: x in UnpairedPrevious(working, previous) <==>
      x in working && x.modDate == previous && !HasPartner(working, Unchanged, x, None)
  {
    forall x | x in working {
      LeftIdsOfRow(working, Unchanged, previous, None, x);
    }
  }

  /** The tables after the unchanged and the rename phases, with what each row of them is. */
  lemma FirstTwoPhases(dir: seq<Row>, latest: nat, previous: nat)
    requires IdsAreKeys(dir) && latest != previous
    ensures var seed := SeedRows(dir, latest, previous);
      var s1 := DbRemoveUnchanged(Tables(seed, []), previous);
      var s2 := DbRemoveRenamed(s1, latest, previous);
      && IdsAreKeys(seed) && IdsAreKeys(s1.working) && IdsAreKeys(s2.working)
      && s1.working == LocalCompare.AfterUnchanged(dir, latest, previous)
      && s2.working == LocalCompare.AfterRenamed(dir, latest, previous)
      && (forall r :: r in s1.working <==> r in seed && !(r.modDate == previous && HasPartner(seed, Unchanged, r, None)))
      && (forall r :: r in s2.working && r.modDate == previous <==> r in s1.working && r.modDate == previous)
      && (forall r :: r in s1.touched <==> r in seed && r.modDate == previous && HasPartner(seed, Unchanged, r, None))
      && (forall r :: r in s2.touched <==>
            (|| r in s1.touched
             || (r in s1.working && r.modDate == previous && HasPartner(s1.working, Renamed, r, Some(latest)))))
  {
    var seed := SeedRows(dir, latest, previous);
    var s0 := Tables(seed, []);
    var s1 := DbRemoveUnchanged(s0, previous);
    var s2 := DbRemoveRenamed(s1, latest, previous);
    assert IdsAreKeys(seed);
    RemoveUnchangedExact(seed, previous);
    UnchangedMovesToTouched(s0, previous);
    assert s1.touched == s1.touched[|s0.touched|..];
    RenamedRecordsPreviousSide(s1, latest, previous);
    assert s2.touched == s1.touched + s2.touched[|s1.touched|..];
  }

  /**
   * `missing_files` as written, after the phases: exactly the previous-side
   * rows that were unchanged, that is, the files that are certainly not
   * missing.
   */
  lemma MissingFilesAreUnchanged(dir: seq<Row>, latest: nat, previous: nat)
    requires IdsAreKeys(dir) && latest != previous
    ensures forall r :: r in MissingRows(DbPhases(dir, latest, previous), previous) <==>
      r in dir && r.modDate == previous && HasPartner(SeedRows(dir, latest, previous), Unchanged, r, None)
  {
    var seed := SeedRows(dir, latest, previous);
    var s1 := DbRemoveUnchanged(Tables(seed, []), previous);
    var s2 := DbRemoveRenamed(s1, latest, previous);
    var s3 := DbRemoveMoved(s2, latest, previous);
    FirstTwoPhases(dir, latest, previous);
    MovedRecordsNothing(s2, latest, previous);
    RemoveMovedExact(s2.working, latest, previous);
    assert IdsAreKeys(s3.working);
    UnpairedPreviousExact(s3.working, previous);
    forall r | r in s2.touched
      ensures r in UnpairedPrevious(s3.working, previous) <==> r !in s1.touched
    {
      assert r in s1.touched ==> r !in s1.working;
      assert r in s3.working ==> r in s1.working;
      assert r !in s1.touched ==> r in s3.working;
      assert HasPartner(s3.working, Unchanged, r, None) ==> HasPartner(seed, Unchanged, r, None);
    }
  }

  /**
   * The records `missing_files` returns after the phases: the report of
   * exactly the previous-side rows that were unchanged.
   */
  lemma MissingFilesReportUnchanged(dir: seq<Row>, latest: nat, previous: nat)
    requires IdsAreKeys(dir) && latest != previous
    ensures forall d :: d in MissingFiles(DbPhases(dir, latest, previous), previous) <==>
      exists r :: && r in dir && r.modDate == previous
                  && HasPartner(SeedRows(dir, latest, previous), Unchanged, r, None)
                  && ReportDoc(r) == d
  {
    MissingFilesAreUnchanged(dir, latest, previous);
    var rows := MissingRows(DbPhases(dir, latest, previous), previous);
    var docs := MissingFiles(DbPhases(dir, latest, previous), previous);
    forall d ensures d in docs <==> exists r :: r in rows && ReportDoc(r) == d {
      if d in docs {
        var i :| 0 <= i < |docs| && docs[i] == d;
        assert rows[i] in rows && ReportDoc(rows[i]) == d;
      }
      if exists r :: r in rows && ReportDoc(r) == d {
        var r :| r in rows && ReportDoc(r) == d;
        var i :| 0 <= i < |rows| && rows[i] == r;
        assert docs[i] == d;
      }
    }
  }

  /**
   * The intended `missing_files` over the intended phases: a previous-side
   * row is reported missing exactly when it has no unchanged and no renamed
   * counterpart in the latest revision, and no moved counterpart among the
   * latest-side rows the rename phase left.
   */
  lemma IntendedMissingExact(dir: seq<Row>, latest: nat, previous: nat)
    requires IdsAreKeys(dir) && latest != previous
    ensures forall r :: r in MissingRowsIntended(DbPhasesIntended(dir, latest, previous), previous) <==>
      && r in dir && r.modDate == previous
      && !HasPartner(SeedRows(dir, latest, previous), Unchanged, r, None)
      && !HasPartner(SeedRows(dir, latest, previous), Renamed, r, Some(latest))
      && !HasPartner(LocalCompare.AfterRenamed(dir, latest, previous), Moved, r, Some(latest))
  {
    var seed := SeedRows(dir, latest, previous);
    var s1 := DbRemoveUnchanged(Tables(seed, []), previous);
    var s2 := DbRemoveRenamed(s1, latest, previous);
    var s3 := DbRemoveMovedRecordFirst(s2, latest, previous);
    FirstTwoPhases(dir, latest, previous);
    MovedRecordFirstExact(s2, latest, previous);
    RemoveMovedExact(s2.working, latest, previous);
    assert s3.touched == s2.touched + s3.touched[|s2.touched|..];
    forall r | r in s1.working && r.modDate == previous
      ensures HasPartner(s1.working, Renamed, r, Some(latest)) <==> HasPartner(seed, Renamed, r, Some(latest))
    {
      if HasPartner(seed, Renamed, r, Some(latest)) {
        var w :| w in seed && Matches(Renamed, r, w) && w.modDate == latest;
        assert w in s1.working;
      }
    }
  }

  // ---------------------------------------------------------------------
  // The connection
  // ---------------------------------------------------------------------

  /** The in-memory connection of the draft: `dir_entries`, `working_entries` and `touched_entries`. */
  class Connection {
    var dirEntries: seq<Row>
    var working: seq<Row>
    var touched: seq<Row>

    /** `make_local_sqlite`. */
    constructor ()
      ensures dirEntries == [] && working == [] && touched == []
    {
      dirEntries := [];
      working := [];
      touched := [];
    }

    /** `load_to_local_sqlite`: one row per record, numbered from 1, dated in whole seconds. */
    method LoadToLocalSqlite(entries: seq<Doc>)
      modifies this
      ensures dirEntries == StoredRows(entries) && IdsAreKeys(dirEntries)
      ensures working == old(working) && touched == old(touched)
    {
      var rows := InsertEntries(entries);
      dirEntries := rows;
      StoredRowsKeyed(entries);
    }

    /** `setup_working_tables`: both tables are created empty, with the same row shape. */
    method SetupWorkingTables()
      modifies this
      ensures working == [] && touched == [] && dirEntries == old(dirEntries)
    {
      working := [];
      touched := [];
    }

    /** `load_working_table`: the rows of the two revisions are copied, ids included; the count is returned. */
    method LoadWorkingTable(latest: nat, previous: nat) returns (inserted: nat)
      modifies this
      ensures working == old(working) + SeedRows(dirEntries, latest, previous)
      ensures inserted == |SeedRows(dirEntries, latest, previous)|
      ensures dirEntries == old(dirEntries) && touched == old(touched)
    {
      var seed := SeedRows(dirEntries, latest, previous);
      working := working + seed;
      inserted := |seed|;
    }

    /** `remove_unchanged_from_working_table`: record, then delete. */
    method RemoveUnchangedFromWorkingTable(previous: nat)
      modifies this
      ensures Tables(working, touched) == DbRemoveUnchanged(old(Tables(working, touched)), previous)
      ensures dirEntries == old(dirEntries)
    {
      var ids := UnchangedIds(working, previous);
      touched := touched + RowsWithIds(working, ids);
      working := DeleteIds(working, ids);
    }

    /** `remove_renamed`: record the previous sides, then the two DELETEs. */
    method RemoveRenamed(latest: nat, previous: nat)
      modifies this
      ensures Tables(working, touched) == DbRemoveRenamed(old(Tables(working, touched)), latest, previous)
      ensures dirEntries == old(dirEntries)
    {
      touched := touched + RowsWithIds(working, LeftIds(working, Renamed, previous, Some(latest)));
      working := DeleteIds(working, LeftIds(working, Renamed, latest, Some(previous)));
      working := DeleteIds(working, RightIds(working, Renamed, latest, Some(previous)));
    }

    /** `remove_moved`: the DELETE, then the INSERT, in that order. */
    method RemoveMoved(latest: nat, previous: nat)
      modifies this
      ensures Tables(working, touched) == DbRemoveMoved(old(Tables(working, touched)), latest, previous)
      ensures touched == old(touched)
      ensures dirEntries == old(dirEntries)
    {
      ghost var before := Tables(working, touched);
      working := DeleteIds(working, LeftIds(working, Moved, latest, Some(previous)));
      touched := touched + RowsWithIds(working, LeftIds(working, Moved, previous, Some(latest)));
      MovedRecordsNothing(before, latest, previous);
    }
  }
}
