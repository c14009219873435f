/**
 * `compare_local` in src/main.rs: the in-memory store is loaded with one
 * snapshot file, the two newest revisions are picked, and `working_entries`
 * is seeded with their rows and then shrunk phase by phase (unchanged,
 * renamed, moved), the renamed and moved pairs being reported on the way.
 */
module LocalCompare {
  import opened Wrappers
  import opened Docs
  import opened Relational
  import opened Revisions

  // ---------------------------------------------------------------------
  // The table after each phase, for a given pair of revisions
  // ---------------------------------------------------------------------

  function AfterUnchanged(dir: seq<Row>, latest: nat, previous: nat): seq<Row> {
    RemoveUnchanged(SeedRows(dir, latest, previous), previous)
  }

  function AfterRenamed(dir: seq<Row>, latest: nat, previous: nat): seq<Row> {
    RemoveRenamed(AfterUnchanged(dir, latest, previous), latest, previous)
  }

  function AfterMoved(dir: seq<Row>, latest: nat, previous: nat): seq<Row> {
    RemoveMoved(AfterRenamed(dir, latest, previous), latest, previous)
  }

  /** What one comparison produces: the two revisions, the two reports and the rows left in `working_entries`. */
  datatype LocalReport = LocalReport(latest: nat, previous: nat, renamed: seq<Doc>, moved: seq<Doc>, remaining: seq<Row>)

  /** The whole of `compare_local` over the stored rows `dir`. */
  function CompareRevisions(dir: seq<Row>): Result<LocalReport, CompareError> {
    match PickRevisions(RevisionMillis(dir))
    case Failure(e) => Failure(e)
    case Success(pick) =>
      var (latest, previous) := pick;
      Success(LocalReport(latest, previous,
        RenamedFiles(AfterUnchanged(dir, latest, previous), latest, previous),
        MovedFiles(AfterRenamed(dir, latest, previous), latest, previous),
        AfterMoved(dir, latest, previous)))
  }

  // ---------------------------------------------------------------------
  // Properties of the pipeline
  // ---------------------------------------------------------------------

  /** Every phase only deletes rows, and the key property of the id column survives every phase. */
  lemma PhasesOnlyDelete(dir: seq<Row>, latest: nat, previous: nat)
    ensures multiset(SeedRows(dir, latest, previous)) <= multiset(dir)
    ensures multiset(AfterUnchanged(dir, latest, previous)) <= multiset(SeedRows(dir, latest, previous))
    ensures multiset(AfterRenamed(dir, latest, previous)) <= multiset(AfterUnchanged(dir, latest, previous))
    ensures multiset(AfterMoved(dir, latest, previous)) <= multiset(AfterRenamed(dir, latest, previous))
    ensures IdsAreKeys(dir) ==> IdsAreKeys(AfterMoved(dir, latest, previous))
  {
    var afterLatest := DeleteIds(AfterUnchanged(dir, latest, previous), LeftIds(AfterUnchanged(dir, latest, previous), Renamed, latest, Some(previous)));
    assert multiset(AfterRenamed(dir, latest, previous)) <= multiset(afterLatest);
  }

  /**
   * The comparison fails exactly when the store holds fewer than two
   * distinct dates; otherwise it compares the newest date with the newest
   * date older than it.
   */
  lemma CompareOutcome(dir: seq<Row>)
    ensures CompareRevisions(dir).Success? <==> exists a, b :: a in dir && b in dir && a.modDate != b.modDate
    ensures CompareRevisions(dir).Success? ==>
      var rep := CompareRevisions(dir).value;
      && HasDate(dir, rep.latest) && HasDate(dir, rep.previous) && rep.previous < rep.latest
      && (forall r :: r in dir ==> r.modDate <= rep.latest)
      && (forall r :: r in dir && r.modDate < rep.latest ==> r.modDate <= rep.previous)
  {
    PickNewestTwo(dir);
  }

  /**
   * The rows left after the three phases: the rows of the two revisions,
   * less the previous-side rows with an unchanged partner, the latest-side
   * rows of a renamed pair and the latest-side rows of a moved pair, each
   * judged on the table the phase sees. No previous-side row is removed by
   * the rename or the move phase.
   */
  lemma RemainingExact(dir: seq<Row>, latest: nat, previous: nat)
    requires IdsAreKeys(dir)
    ensures forall r :: r in AfterMoved(dir, latest, previous) <==>
      && r in dir && (r.modDate == latest || r.modDate == previous)
      && !(r.modDate == previous && HasPartner(SeedRows(dir, latest, previous), Unchanged, r, None))
      && !(r.modDate == latest && HasPartner(AfterUnchanged(dir, latest, previous), Renamed, r, Some(previous)))
      && !(r.modDate == latest && HasPartner(AfterRenamed(dir, latest, previous), Moved, r, Some(previous)))
  {
    var seed := SeedRows(dir, latest, previous);
    var a := AfterUnchanged(dir, latest, previous);
    var b := AfterRenamed(dir, latest, previous);
    RemoveUnchangedExact(seed, previous);
    RemoveRenamedExact(a, latest, previous);
    RemoveMovedExact(b, latest, previous);
  }

  /**
   * No pair of the remaining rows is one the phases look for: no unchanged
   * partner of a previous-side row, no renamed and no moved
   * (latest, previous) pair.
   */
  lemma RemainingHasNoPairs(dir: seq<Row>, latest: nat, previous: nat)
    requires IdsAreKeys(dir)
    ensures forall a, b :: a in AfterMoved(dir, latest, previous) && b in AfterMoved(dir, latest, previous) ==>
      && !Selected(Unchanged, a, b, previous, None)
      && !Selected(Renamed, a, b, latest, Some(previous))
      && !Selected(Moved, a, b, latest, Some(previous))
  {
    var seed := SeedRows(dir, latest, previous);
    var ua := AfterUnchanged(dir, latest, previous);
    var rb := AfterRenamed(dir, latest, previous);
    var mc := AfterMoved(dir, latest, previous);
    PhasesOnlyDelete(dir, latest, previous);
    RemoveUnchangedExact(seed, previous);
    RemoveRenamedExact(ua, latest, previous);
    RemoveMovedExact(rb, latest, previous);
    forall a, b | a in mc && b in mc
      ensures !Selected(Unchanged, a, b, previous, None)
      ensures !Selected(Renamed, a, b, latest, Some(previous))
      ensures !Selected(Moved, a, b, latest, Some(previous))
    {
      assert a in multiset(mc) && b in multiset(mc);
      assert a in rb && b in rb && a in ua && b in ua && a in seed && b in seed;
    }
  }

  /**
   * Comparing a snapshot with a copy of itself: when every previous-side row
   * has an identical row in the latest revision, nothing is reported renamed
   * or moved, and only latest-side rows remain.
   */
  lemma IdenticalSnapshotsReportNothing(dir: seq<Row>, latest: nat, previous: nat)
    requires IdsAreKeys(dir) && latest != previous
    requires forall r :: r in dir && r.modDate == previous ==>
      exists w :: w in dir && w.modDate == latest && w.hash == r.hash && w.name == r.name && w.path == r.path
    ensures RenamedFiles(AfterUnchanged(dir, latest, previous), latest, previous) == []
    ensures MovedFiles(AfterRenamed(dir, latest, previous), latest, previous) == []
    ensures forall r :: r in AfterMoved(dir, latest, previous) ==> r.modDate == latest
  {
    var seed := SeedRows(dir, latest, previous);
    var ua := AfterUnchanged(dir, latest, previous);
    var rb := AfterRenamed(dir, latest, previous);
    RemoveUnchangedExact(seed, previous);
    forall r | r in seed && r.modDate == previous ensures HasPartner(seed, Unchanged, r, None) {
      var w :| w in dir && w.modDate == latest && w.hash == r.hash && w.name == r.name && w.path == r.path;
      assert w in seed && Matches(Unchanged, r, w);
    }
    assert forall r :: r in ua ==> r.modDate == latest;
    PhasesOnlyDelete(dir, latest, previous);
    assert forall r :: r in rb ==> r in multiset(ua);
    JoinEmpty(ua, ua, Renamed, latest, Some(previous));
    JoinEmpty(rb, rb, Moved, latest, Some(previous));
    assert forall r :: r in AfterMoved(dir, latest, previous) ==> r in multiset(rb);
  }

  /** The stored revisions are the whole seconds of the snapshot dates: two snapshots taken within one second are one revision. */
  lemma StoredRevisions(entries: seq<Doc>, d: nat)
    ensures d in RevisionMillis(StoredRows(entries)) <==> exists e :: e in entries && e.modMillis / 1000 == d
  {
    var rows := StoredRows(entries);
    if d in RevisionMillis(rows) {
      var r :| r in rows && r.modDate == d;
      var i :| 0 <= i < |rows| && rows[i] == r;
      assert entries[i] in entries;
    }
    if exists e :: e in entries && e.modMillis / 1000 == d {
      var e :| e in entries && e.modMillis / 1000 == d;
      var i :| 0 <= i < |entries| && entries[i] == e;
      assert rows[i] in rows;
    }
  }

  // ---------------------------------------------------------------------
  // Finding: the previous side of a renamed pair is never deleted
  // ---------------------------------------------------------------------

  /** Two rows of different dates make two revisions, the newer first. */
  lemma TwoRevisions(older: Row, newer: Row)
    requires older.modDate < newer.modDate
    ensures RevisionMillis([older, newer]) == [newer.modDate, older.modDate]
  {
    var dir := [older, newer];
    assert forall r :: r in dir <==> r == older || r == newer;
    forall d ensures d in RevisionMillis(dir) <==> d in [newer.modDate, older.modDate] {
      assert HasDate(dir, d) <==> d == older.modDate || d == newer.modDate;
    }
    DescendingUnique(RevisionMillis(dir), [newer.modDate, older.modDate]);
  }

  /** Neither row of a renamed pair has an unchanged partner, so both reach the rename phase. */
  lemma RenamedPairSurvivesUnchanged(before: Row, after: Row)
    requires before.id != after.id && before.modDate < after.modDate
    requires before.hash == after.hash && before.path == after.path && before.name != after.name
    ensures IdsAreKeys([before, after])
    ensures var ua := AfterUnchanged([before, after], after.modDate, before.modDate);
      before in ua && after in ua
  {
    var dir := [before, after];
    var seed := SeedRows(dir, after.modDate, before.modDate);
    assert forall r :: r in seed <==> r == before || r == after;
    assert !HasPartner(seed, Unchanged, before, None);
    RemoveUnchangedExact(seed, before.modDate);
  }

  /**
   * A store holding only one file, renamed between two snapshots: one
   * previous-side row and one latest-side row, nothing else. The
   * renamed pair is reported, but only its latest-side row is deleted: the
   * original row is still in `working_entries` at the end, where it looks
   * like a file that vanished.
   */
  lemma RenamedOriginalRemains(before: Row, after: Row)
    requires before.id != after.id && before.modDate < after.modDate
    requires before.hash == after.hash && before.path == after.path && before.name != after.name
    ensures var rep := CompareRevisions([before, after]);
      && rep.Success?
      && rep.value.latest == after.modDate && rep.value.previous == before.modDate
      && ReportDoc(after) in rep.value.renamed
      && after !in rep.value.remaining && before in rep.value.remaining
  {
    var dir := [before, after];
    var latest, previous := after.modDate, before.modDate;
    TwoRevisions(before, after);
    assert PickRevisions(RevisionMillis(dir)) == Success((latest, previous));
    var ua := AfterUnchanged(dir, latest, previous);
    assert CompareRevisions(dir) == Success(LocalReport(latest, previous,
      RenamedFiles(ua, latest, previous), MovedFiles(AfterRenamed(dir, latest, previous), latest, previous),
      AfterMoved(dir, latest, previous)));
    RenamedPairSurvivesUnchanged(before, after);
    assert Matches(Renamed, after, before);
    RemainingExact(dir, latest, previous);
    ReportedExactly(ua, Renamed, latest, previous, ReportDoc(after));
  }

  /** The rename phase as evidently intended: both sides of every renamed pair are deleted. */
  function AfterRenamedPairs(dir: seq<Row>, latest: nat, previous: nat): seq<Row> {
    RemoveRenamedPairs(AfterUnchanged(dir, latest, previous), latest, previous)
  }

  function AfterMovedIntended(dir: seq<Row>, latest: nat, previous: nat): seq<Row> {
    RemoveMoved(AfterRenamedPairs(dir, latest, previous), latest, previous)
  }

  /**
   * With the intended rename phase, the previous-side rows left at the end
   * are exactly the previous-revision rows with neither an unchanged nor a
   * renamed counterpart in the latest revision.
   */
  lemma IntendedRemainingPrevious(dir: seq<Row>, latest: nat, previous: nat)
    requires IdsAreKeys(dir) && latest != previous
    ensures forall r :: r in AfterMovedIntended(dir, latest, previous) && r.modDate == previous <==>
      && r in dir && r.modDate == previous
      && !HasPartner(SeedRows(dir, latest, previous), Unchanged, r, None)
      && !HasPartner(SeedRows(dir, latest, previous), Renamed, r, Some(latest))
  {
    var seed := SeedRows(dir, latest, previous);
    var ua := AfterUnchanged(dir, latest, previous);
    var rb := AfterRenamedPairs(dir, latest, previous);
    RemoveUnchangedExact(seed, previous);
    RemoveRenamedPairsExact(ua, latest, previous);
    RemoveMovedExact(rb, latest, previous);
    forall r | r in seed && r.modDate == previous && !HasPartner(seed, Unchanged, r, None)
      ensures IsPartnerOf(ua, Renamed, r, latest) <==> HasPartner(seed, Renamed, r, Some(latest))
    {
      if HasPartner(seed, Renamed, r, Some(latest)) {
        var w :| w in seed && Matches(Renamed, r, w) && w.modDate == latest;
        assert w in ua && Matches(Renamed, w, r);
      }
      if IsPartnerOf(ua, Renamed, r, latest) {
        var w :| w in ua && w.modDate == latest && Matches(Renamed, w, r);
        assert w in seed && Matches(Renamed, r, w);
      }
    }
  }

  // ---------------------------------------------------------------------
  // Finding: reported dates read the stored seconds as milliseconds
  // ---------------------------------------------------------------------

  /**
   * A reported record carries the stored whole seconds as its milliseconds,
   * so any record stamped at or after the first second is reported earlier
   * than it was stamped (5000 ms comes back as 5 ms).
   */
  lemma ReportedDateIsSeconds(d: Doc, id: int)
    ensures ReportDoc(StoredRow(d, id)).modMillis == d.modMillis / 1000
    ensures d.modMillis >= 1000 ==> ReportDoc(StoredRow(d, id)).modMillis < d.modMillis
  {
  }

  /** The evident intent of the report mapping: the stored seconds converted back to milliseconds. */
  function ReportDocMillis(r: Row): (d: Doc)
    ensures d.hash == r.hash && d.name == r.name && d.path == r.path
  {
    Doc(r.hash, r.name, r.path, r.modDate * 1000)
  }

  /** A record reported with the intended mapping carries its original timestamp truncated to the second. */
  lemma ReportedWithinSecond(d: Doc, id: int)
    ensures ReportDocMillis(StoredRow(d, id)).modMillis <= d.modMillis < ReportDocMillis(StoredRow(d, id)).modMillis + 1000
    ensures ReportDocMillis(StoredRow(d, id)).modMillis % 1000 == 0
  {
  }

  // ---------------------------------------------------------------------
  // The connection
  // ---------------------------------------------------------------------

  /** The in-memory connection of `compare_local`: `dir_entries` and `working_entries`. */
  class LocalConnection {
    var dirEntries: seq<Row>
    var working: seq<Row>

    /** The id column of `dir_entries` is its primary key. */
    ghost predicate Valid()
      reads this
    {
      IdsAreKeys(dirEntries)
    }

    /** `make_local_sqlite`: an empty in-memory database. */
    constructor ()
      ensures dirEntries == [] && working == []
      ensures Valid()
    {
      dirEntries := [];
      working := [];
    }

    /** `load_to_local_sqlite`: one row per record, numbered from 1, dated in whole seconds. */
    method LoadToLocalSqlite(entries: seq<Doc>)
      modifies this
      ensures dirEntries == StoredRows(entries) && working == old(working)
      ensures Valid()
    {
      var rows := InsertEntries(entries);
      dirEntries := rows;
      StoredRowsKeyed(entries);
    }

    /** `setup_working_table`: `working_entries` is created empty. */
    method SetupWorkingTable()
      modifies this
      ensures working == [] && dirEntries == old(dirEntries)
    {
      working := [];
    }

    /** `load_working_table`: the rows of the two revisions are copied, ids included; the count is returned. */
    method LoadWorkingTable(latest: nat, previous: nat) returns (inserted: nat)
      modifies this
      ensures working == old(working) + SeedRows(dirEntries, latest, previous)
      ensures inserted == |SeedRows(dirEntries, latest, previous)|
      ensures dirEntries == old(dirEntries)
    {
      var seed := SeedRows(dirEntries, latest, previous);
      working := working + seed;
      inserted := |seed|;
    }

    /** `remove_unchanged_from_working_table`. */
    method RemoveUnchangedFromWorkingTable(previous: nat)
      modifies this
      ensures working == RemoveUnchanged(old(working), previous)
      ensures dirEntries == old(dirEntries)
    {
      working := DeleteIds(working, UnchangedIds(working, previous));
    }

    /** `remove_renamed`: two DELETE statements, the second evaluated on the table the first left. */
    method RemoveRenamed(latest: nat, previous: nat)
      modifies this
      ensures working == Relational.RemoveRenamed(old(working), latest, previous)
      ensures dirEntries == old(dirEntries)
    {
      working := DeleteIds(working, LeftIds(working, Renamed, latest, Some(previous)));
      working := DeleteIds(working, RightIds(working, Renamed, latest, Some(previous)));
    }

    /** `remove_moved`. */
    method RemoveMoved(latest: nat, previous: nat)
      modifies this
      ensures working == Relational.RemoveMoved(old(working), latest, previous)
      ensures dirEntries == old(dirEntries)
    {
      working := DeleteIds(working, LeftIds(working, Moved, latest, Some(previous)));
    }

    /**
     * `compare_local`: picks the revisions (failing, before touching the
     * working table, when there are fewer than two), then runs the phases in
     * order and reports the renamed and moved files.
     */
    method CompareLocal() returns (r: Result<LocalReport, CompareError>)
      modifies this
      ensures r == CompareRevisions(dirEntries) && dirEntries == old(dirEntries)
      ensures r.Success? ==> working == r.value.remaining
      ensures r.Failure? ==> working == old(working)
      ensures r.Success? && Valid() ==> forall a, b :: a in working && b in working ==>
        && !Selected(Unchanged, a, b, r.value.previous, None)
        && !Selected(Renamed, a, b, r.value.latest, Some(r.value.previous))
        && !Selected(Moved, a, b, r.value.latest, Some(r.value.previous))
    {
      var revisions := RevisionMillis(dirEntries);
      if |revisions| < 2 {
        return Failure(TooFewRevisions);
      }
      var latest, previous := revisions[0], revisions[1];
      ghost var dir := dirEntries;
      assert PickRevisions(RevisionMillis(dir)) == Success((latest, previous));
      SetupWorkingTable();
      var inserted := LoadWorkingTable(latest, previous);
      assert working == SeedRows(dir, latest, previous);
      RemoveUnchangedFromWorkingTable(previous);
      assert working == AfterUnchanged(dir, latest, previous);
      var renamed := RenamedFiles(working, latest, previous);
      RemoveRenamed(latest, previous);
      assert working == AfterRenamed(dir, latest, previous);
      var moved := MovedFiles(working, latest, previous);
      RemoveMoved(latest, previous);
      assert working == AfterMoved(dir, latest, previous);
      if Valid() {
        RemainingHasNoPairs(dir, latest, previous);
      }
      r := Success(LocalReport(latest, previous, renamed, moved, working));
    }
  }
}
