/**
 * The relational meaning of the SQL that src/main.rs and src/db.rs run over
 * their in-memory tables. A table is a sequence of rows in insertion order;
 * `SELECT DISTINCT` keeps every stored value once, a self-join enumerates
 * the matching pairs, and `DELETE ... WHERE id IN (...)` drops every row
 * whose id the sub-select produced.
 */
module Relational {
  import opened Wrappers
  import opened Docs

  /** One row of `dir_entries`, `working_entries` or `touched_entries`; `modDate` is in whole seconds. */
  datatype Row = Row(id: int, hash: string, name: string, path: string, modDate: nat)

  /** The three self-joins: unchanged, renamed and moved. */
  datatype JoinKind = Unchanged | Renamed | Moved

  /** The ON clause of each self-join (`w1` and `w2` are the two copies of the table). */
  predicate Matches(k: JoinKind, w1: Row, w2: Row) {
    && w1.modDate != w2.modDate
    && w1.hash == w2.hash
    && match k
       case Unchanged => w1.name == w2.name && w1.path == w2.path
       case Renamed => w1.name != w2.name && w1.path == w2.path
       case Moved => w1.path != w2.path && w1.name == w2.name
  }

  /**
   * At most one of the three join conditions holds for any pair of rows, and
   * none holds when the dates are equal, the hashes differ, or both name and
   * path differ.
   */
  function KindOf(w1: Row, w2: Row): (r: Option<JoinKind>)
    ensures forall k :: Matches(k, w1, w2) <==> r == Some(k)
    ensures r.None? <==> w1.modDate == w2.modDate || w1.hash != w2.hash || (w1.name != w2.name && w1.path != w2.path)
  {
    if w1.modDate == w2.modDate || w1.hash != w2.hash then None
    else if w1.name == w2.name && w1.path == w2.path then Some(Unchanged)
    else if w1.path == w2.path then Some(Renamed)
    else if w1.name == w2.name then Some(Moved)
    else None
  }

  /** The WHERE clause: `w1.mod_date = left`, and `w2.mod_date = right` when that parameter is bound. */
  predicate Selected(k: JoinKind, w1: Row, w2: Row, left: nat, right: Option<nat>) {
    Matches(k, w1, w2) && w1.modDate == left && (right.Some? ==> w2.modDate == right.value)
  }

  /** The pairs `(a, b)`, for `b` ranging over `inner` in order, that the join selects. */
  function Partners(a: Row, inner: seq<Row>, k: JoinKind, left: nat, right: Option<nat>): (r: seq<(Row, Row)>)
    ensures forall p :: p in r <==> p.0 == a && p.1 in inner && Selected(k, a, p.1, left, right)
    ensures |r| <= |inner|
  {
    if inner == [] then []
    else
      (if Selected(k, a, inner[0], left, right) then [(a, inner[0])] else [])
      + Partners(a, inner[1..], k, left, right)
  }

  /** The pairs of a nested-loop join, the outer row varying slowest. */
  function JoinFrom(outer: seq<Row>, inner: seq<Row>, k: JoinKind, left: nat, right: Option<nat>): (r: seq<(Row, Row)>)
    ensures forall p :: p in r <==> p.0 in outer && p.1 in inner && Selected(k, p.0, p.1, left, right)
  {
    if outer == [] then []
    else Partners(outer[0], inner, k, left, right) + JoinFrom(outer[1..], inner, k, left, right)
  }

  /** A row with no selected partner in `inner` contributes no pair. */
  lemma {:induction false} PartnersEmpty(a: Row, inner: seq<Row>, k: JoinKind, left: nat, right: Option<nat>)
    requires forall b :: b in inner ==> !Selected(k, a, b, left, right)
    ensures Partners(a, inner, k, left, right) == []
  {
    if inner != [] {
      PartnersEmpty(a, inner[1..], k, left, right);
    }
  }

  /** A join with no selected pair is empty. */
  lemma {:induction false} JoinEmpty(outer: seq<Row>, inner: seq<Row>, k: JoinKind, left: nat, right: Option<nat>)
    requires forall a, b :: a in outer && b in inner ==> !Selected(k, a, b, left, right)
    ensures JoinFrom(outer, inner, k, left, right) == []
  {
    if outer != [] {
      PartnersEmpty(outer[0], inner, k, left, right);
      JoinEmpty(outer[1..], inner, k, left, right);
    }
  }

  /** The self-join `t w1 INNER JOIN t w2 ON ... WHERE ...`. */
  function Join(t: seq<Row>, k: JoinKind, left: nat, right: Option<nat>): seq<(Row, Row)> {
    JoinFrom(t, t, k, left, right)
  }

  /** `SELECT w1.id` of the join. */
  function LeftIds(t: seq<Row>, k: JoinKind, left: nat, right: Option<nat>): set<int> {
    set p | p in Join(t, k, left, right) :: p.0.id
  }

  /** `SELECT w2.id` of the join. */
  function RightIds(t: seq<Row>, k: JoinKind, left: nat, right: Option<nat>): set<int> {
    set p | p in Join(t, k, left, right) :: p.1.id
  }

  /** `DELETE FROM t WHERE id IN ids`. */
  function DeleteIds(t: seq<Row>, ids: set<int>): (r: seq<Row>)
    ensures forall x :: x in r <==> x in t && x.id !in ids
    ensures multiset(r) <= multiset(t)
  {
    if t == [] then []
    else
      assert t == [t[0]] + t[1..];
      (if t[0].id in ids then [] else [t[0]]) + DeleteIds(t[1..], ids)
  }

  /** The rows of `t` whose id is in `ids`, in table order (the source of an `INSERT ... SELECT`). */
  function RowsWithIds(t: seq<Row>, ids: set<int>): (r: seq<Row>)
    ensures forall x :: x in r <==> x in t && x.id in ids
    ensures multiset(r) <= multiset(t)
  {
    if t == [] then []
    else
      assert t == [t[0]] + t[1..];
      (if t[0].id in ids then [t[0]] else []) + RowsWithIds(t[1..], ids)
  }

  /** Selecting no ids selects no rows. */
  lemma {:induction false} RowsWithNoIds(t: seq<Row>)
    ensures RowsWithIds(t, {}) == []
  {
    if t != [] {
      RowsWithNoIds(t[1..]);
    }
  }

  /** Deleting a set of ids and selecting that set split a table: no row is lost or duplicated. */
  lemma {:induction false} DeleteAndSelectSplit(t: seq<Row>, ids: set<int>)
    ensures multiset(DeleteIds(t, ids)) + multiset(RowsWithIds(t, ids)) == multiset(t)
  {
    if t != [] {
      DeleteAndSelectSplit(t[1..], ids);
      assert t == [t[0]] + t[1..];
    }
  }

  /** The id column is a key: two rows of the table with the same id are the same row. */
  predicate IdsAreKeys(t: seq<Row>) {
    forall a, b :: a in t && b in t && a.id == b.id ==> a == b
  }

  /** Some row of `t` is a join partner of `r` (the `w2` of a pair whose `w1` is `r`). */
  predicate HasPartner(t: seq<Row>, k: JoinKind, r: Row, right: Option<nat>) {
    exists w2 :: w2 in t && Matches(k, r, w2) && (right.Some? ==> w2.modDate == right.value)
  }

  /** Some row of `t` is the `w1` of a pair whose `w2` is `r`. */
  predicate IsPartnerOf(t: seq<Row>, k: JoinKind, r: Row, left: nat) {
    exists w1 :: w1 in t && w1.modDate == left && Matches(k, w1, r)
  }

  /** Under a key id, a row's id is selected as `w1.id` exactly when the row itself is a selected `w1`. */
  lemma LeftIdsOfRow(t: seq<Row>, k: JoinKind, left: nat, right: Option<nat>, r: Row)
    requires IdsAreKeys(t) && r in t
    ensures r.id in LeftIds(t, k, left, right) <==> r.modDate == left && HasPartner(t, k, r, right)
  {
    if r.id in LeftIds(t, k, left, right) {
      var p :| p in Join(t, k, left, right) && p.0.id == r.id;
      assert p.0 == r;
      assert p.1 in t;
    }
    if r.modDate == left && HasPartner(t, k, r, right) {
      var w2 :| w2 in t && Matches(k, r, w2) && (right.Some? ==> w2.modDate == right.value);
      assert (r, w2) in Join(t, k, left, right);
    }
  }

  /** Under a key id, a row's id is selected as `w2.id` exactly when the row itself is a selected `w2`. */
  lemma RightIdsOfRow(t: seq<Row>, k: JoinKind, left: nat, right: nat, r: Row)
    requires IdsAreKeys(t) && r in t
    ensures r.id in RightIds(t, k, left, Some(right)) <==> r.modDate == right && IsPartnerOf(t, k, r, left)
  {
    if r.id in RightIds(t, k, left, Some(right)) {
      var p :| p in Join(t, k, left, Some(right)) && p.1.id == r.id;
      assert p.1 == r;
      assert p.0 in t;
    }
    if r.modDate == right && IsPartnerOf(t, k, r, left) {
      var w1 :| w1 in t && w1.modDate == left && Matches(k, w1, r);
      assert (w1, r) in Join(t, k, left, Some(right));
    }
  }

  lemma DeleteKeepsKeys(t: seq<Row>, ids: set<int>)
    requires IdsAreKeys(t)
    ensures IdsAreKeys(DeleteIds(t, ids))
  {
  }

  // ---------------------------------------------------------------------
  // Storing the snapshot records (load_to_local_sqlite)
  // ---------------------------------------------------------------------

  /**
   * The row stored for one record: the next `INTEGER PRIMARY KEY` and the
   * record's date truncated to whole seconds (`Duration::as_secs`).
   */
  function StoredRow(d: Doc, id: int): Row {
    Row(id, d.hash, d.name, d.path, d.modMillis / 1000)
  }

  /** `dir_entries` after inserting `entries` into the freshly created table: ids 1, 2, ... in order. */
  function StoredRows(entries: seq<Doc>): (rows: seq<Row>)
    ensures |rows| == |entries|
  {
    seq(|entries|, i requires 0 <= i < |entries| => StoredRow(entries[i], i + 1))
  }

  /** Every stored row keeps its record's text fields, gets id `i + 1` and a date within the record's second. */
  lemma StoredRowsFaithful(entries: seq<Doc>, i: nat)
    requires i < |entries|
    ensures StoredRows(entries)[i].id == i + 1
    ensures var r := StoredRows(entries)[i]; var d := entries[i];
      r.hash == d.hash && r.name == d.name && r.path == d.path
      && r.modDate * 1000 <= d.modMillis < r.modDate * 1000 + 1000
  {
  }

  /** Distinct positions get distinct ids, so the id column of `dir_entries` is a key. */
  lemma StoredRowsKeyed(entries: seq<Doc>)
    ensures IdsAreKeys(StoredRows(entries))
  {
    var rows := StoredRows(entries);
    forall a, b | a in rows && b in rows && a.id == b.id ensures a == b {
      var i :| 0 <= i < |rows| && rows[i] == a;
      var j :| 0 <= j < |rows| && rows[j] == b;
      assert i == j;
    }
  }

  /** The insertion loop of `load_to_local_sqlite`: one `INSERT` per record, in order. */
  method InsertEntries(entries: seq<Doc>) returns (rows: seq<Row>)
    ensures rows == StoredRows(entries)
  {
    rows := [];
    var i := 0;
    while i < |entries|
      invariant 0 <= i <= |entries|
      invariant |rows| == i
      invariant forall j :: 0 <= j < i ==> rows[j] == StoredRow(entries[j], j + 1)
    {
      rows := rows + [StoredRow(entries[i], |rows| + 1)];
      i := i + 1;
    }
  }

  // ---------------------------------------------------------------------
  // The phases, each as the statement(s) it runs
  // ---------------------------------------------------------------------

  /** `INSERT INTO working_entries SELECT ... FROM dir_entries WHERE mod_date IN (latest, previous)`. */
  function SeedRows(dir: seq<Row>, latest: nat, previous: nat): (r: seq<Row>)
    ensures forall x :: x in r <==> x in dir && (x.modDate == latest || x.modDate == previous)
    ensures multiset(r) <= multiset(dir)
  {
    if dir == [] then []
    else
      assert dir == [dir[0]] + dir[1..];
      (if dir[0].modDate == latest || dir[0].modDate == previous then [dir[0]] else [])
      + SeedRows(dir[1..], latest, previous)
  }

  /** The ids the unchanged phase selects: previous-side rows with an identical row of another date. */
  function UnchangedIds(t: seq<Row>, previous: nat): set<int> {
    LeftIds(t, Unchanged, previous, None)
  }

  /** `remove_unchanged_from_working_table`'s DELETE. */
  function RemoveUnchanged(t: seq<Row>, previous: nat): seq<Row> {
    DeleteIds(t, UnchangedIds(t, previous))
  }

  /**
   * The unchanged phase deletes exactly the previous-side rows that have a
   * partner of another date with the same hash, name and path; no row of
   * another date is deleted.
   */
  lemma RemoveUnchangedExact(t: seq<Row>, previous: nat)
    requires IdsAreKeys(t)
    ensures forall r :: r in RemoveUnchanged(t, previous) <==>
      r in t && !(r.modDate == previous && HasPartner(t, Unchanged, r, None))
    ensures forall r :: r in t && r.modDate != previous ==> r in RemoveUnchanged(t, previous)
  {
    forall r | r in t {
      LeftIdsOfRow(t, Unchanged, previous, None, r);
    }
  }

  /** The record reported for a selected row: the stored seconds are read back as milliseconds. */
  function ReportDoc(r: Row): (d: Doc)
    ensures d.hash == r.hash && d.name == r.name && d.path == r.path
  {
    Doc(r.hash, r.name, r.path, r.modDate)
  }

  /** The `w1` side of every pair of a join, reported as records, one per pair. */
  function ReportLeft(pairs: seq<(Row, Row)>): (docs: seq<Doc>)
    ensures |docs| == |pairs|
    ensures forall i :: 0 <= i < |pairs| ==> docs[i] == ReportDoc(pairs[i].0)
  {
    seq(|pairs|, i requires 0 <= i < |pairs| => ReportDoc(pairs[i].0))
  }

  /** `renamed_files`: the latest-side row of each (latest, previous) pair with equal hash and path and different names. */
  function RenamedFiles(t: seq<Row>, latest: nat, previous: nat): seq<Doc> {
    ReportLeft(Join(t, Renamed, latest, Some(previous)))
  }

  /** `moved_files`: the latest-side row of each (latest, previous) pair with equal hash and name and different paths. */
  function MovedFiles(t: seq<Row>, latest: nat, previous: nat): seq<Doc> {
    ReportLeft(Join(t, Moved, latest, Some(previous)))
  }

  /** A report holds one record per joined pair, and a record is reported exactly when it is the latest side of such a pair. */
  lemma ReportedExactly(t: seq<Row>, k: JoinKind, latest: nat, previous: nat, d: Doc)
    ensures |ReportLeft(Join(t, k, latest, Some(previous)))| == |Join(t, k, latest, Some(previous))|
    ensures d in ReportLeft(Join(t, k, latest, Some(previous))) <==>
      exists a, b :: a in t && b in t && a.modDate == latest && b.modDate == previous
        && Matches(k, a, b) && d == ReportDoc(a)
  {
    var pairs := Join(t, k, latest, Some(previous));
    var docs := ReportLeft(pairs);
    if d in docs {
      var i :| 0 <= i < |docs| && docs[i] == d;
      assert pairs[i] in pairs;
    }
    if exists a, b :: a in t && b in t && a.modDate == latest && b.modDate == previous && Matches(k, a, b) && d == ReportDoc(a) {
      var a, b :| a in t && b in t && a.modDate == latest && b.modDate == previous && Matches(k, a, b) && d == ReportDoc(a);
      assert (a, b) in pairs;
      var i :| 0 <= i < |pairs| && pairs[i] == (a, b);
      assert docs[i] == d;
    }
  }

  /** The two statements of `remove_renamed`: first the latest side of each pair, then the previous side of the pairs still present. */
  function RemoveRenamed(t: seq<Row>, latest: nat, previous: nat): seq<Row> {
    var afterLatest := DeleteIds(t, LeftIds(t, Renamed, latest, Some(previous)));
    DeleteIds(afterLatest, RightIds(afterLatest, Renamed, latest, Some(previous)))
  }

  /**
   * The second DELETE of `remove_renamed` never removes anything: every
   * latest-side row of a renamed pair is already gone, so no pair is left
   * for it to select.
   */
  lemma SecondRenameDeleteIsEmpty(t: seq<Row>, latest: nat, previous: nat)
    ensures var afterLatest := DeleteIds(t, LeftIds(t, Renamed, latest, Some(previous)));
      RightIds(afterLatest, Renamed, latest, Some(previous)) == {}
  {
    var afterLatest := DeleteIds(t, LeftIds(t, Renamed, latest, Some(previous)));
    if p :| p in Join(afterLatest, Renamed, latest, Some(previous)) {
      assert false;
    }
  }

  /**
   * `remove_renamed` as written deletes exactly the latest-side rows of the
   * renamed pairs; every other row, the previous side of each pair included,
   * stays.
   */
  lemma RemoveRenamedExact(t: seq<Row>, latest: nat, previous: nat)
    requires IdsAreKeys(t)
    ensures forall r :: r in RemoveRenamed(t, latest, previous) <==>
      r in t && !(r.modDate == latest && HasPartner(t, Renamed, r, Some(previous)))
    ensures forall a, b ::
      (a in RemoveRenamed(t, latest, previous) && b in RemoveRenamed(t, latest, previous)
       ==> !Selected(Renamed, a, b, latest, Some(previous)))
  {
    var afterLatest := DeleteIds(t, LeftIds(t, Renamed, latest, Some(previous)));
    SecondRenameDeleteIsEmpty(t, latest, previous);
    forall r | r in t {
      LeftIdsOfRow(t, Renamed, latest, Some(previous), r);
    }
  }

  /** The evident intent of `remove_renamed`: both sides of every renamed pair, selected before anything is deleted. */
  function RemoveRenamedPairs(t: seq<Row>, latest: nat, previous: nat): seq<Row> {
    DeleteIds(t, LeftIds(t, Renamed, latest, Some(previous)) + RightIds(t, Renamed, latest, Some(previous)))
  }

  /** The corrected rename phase deletes exactly the rows that take part in a renamed pair, on either side. */
  lemma RemoveRenamedPairsExact(t: seq<Row>, latest: nat, previous: nat)
    requires IdsAreKeys(t)
    ensures forall r :: r in RemoveRenamedPairs(t, latest, previous) <==>
      r in t
      && !(r.modDate == latest && HasPartner(t, Renamed, r, Some(previous)))
      && !(r.modDate == previous && IsPartnerOf(t, Renamed, r, latest))
  {
    var ids := LeftIds(t, Renamed, latest, Some(previous)) + RightIds(t, Renamed, latest, Some(previous));
    forall r | r in t
      ensures r.id in ids <==>
        (r.modDate == latest && HasPartner(t, Renamed, r, Some(previous)))
        || (r.modDate == previous && IsPartnerOf(t, Renamed, r, latest))
    {
      LeftIdsOfRow(t, Renamed, latest, Some(previous), r);
      RightIdsOfRow(t, Renamed, latest, previous, r);
    }
  }

  /** `remove_moved`'s DELETE: the latest-side row of each moved pair. */
  function RemoveMoved(t: seq<Row>, latest: nat, previous: nat): seq<Row> {
    DeleteIds(t, LeftIds(t, Moved, latest, Some(previous)))
  }

  /** After the move phase no moved (latest, previous) pair is left. */
  lemma RemoveMovedLeavesNoPair(t: seq<Row>, latest: nat, previous: nat)
    ensures forall a, b ::
      (a in RemoveMoved(t, latest, previous) && b in RemoveMoved(t, latest, previous)
       && a.modDate == latest && b.modDate == previous) ==> !Matches(Moved, a, b)
  {
    var w := RemoveMoved(t, latest, previous);
    forall a, b | a in w && b in w && a.modDate == latest && b.modDate == previous
      ensures !Matches(Moved, a, b)
    {
      assert a.id !in LeftIds(t, Moved, latest, Some(previous));
      assert Matches(Moved, a, b) ==> (a, b) in Join(t, Moved, latest, Some(previous));
    }
  }

  /** The move phase deletes exactly the latest-side rows of the moved pairs and nothing else. */
  lemma RemoveMovedExact(t: seq<Row>, latest: nat, previous: nat)
    requires IdsAreKeys(t)
    ensures forall r :: r in RemoveMoved(t, latest, previous) <==>
      r in t && !(r.modDate == latest && HasPartner(t, Moved, r, Some(previous)))
  {
    forall r | r in t {
      LeftIdsOfRow(t, Moved, latest, Some(previous), r);
    }
  }
}
