/**
 * The revision list (`revision_millis`) and the choice of the two revisions
 * to compare (the start of `compare_local`).
 */
module Revisions {
  import opened Wrappers
  import opened Relational

  predicate StrictlyDescending(s: seq<nat>) {
    forall i, j :: 0 <= i < j < |s| ==> s[i] > s[j]
  }

  /** The date `d` is stored in some row of `t`. */
  predicate HasDate(t: seq<Row>, d: nat) {
    exists r :: r in t && r.modDate == d
  }

  /** Inserts `x` into a strictly descending list, keeping it strictly descending and without duplicates. */
  function InsertDescending(x: nat, s: seq<nat>): (r: seq<nat>)
    requires StrictlyDescending(s)
    ensures StrictlyDescending(r)
    ensures forall y :: y in r <==> y == x || y in s
  {
    if s == [] then [x]
    else if x > s[0] then [x] + s
    else if x == s[0] then s
    else
      var rest := InsertDescending(x, s[1..]);
      assert forall j :: 0 <= j < |rest| ==> rest[j] in rest;
      [s[0]] + rest
  }

  /**
   * `SELECT DISTINCT mod_date FROM dir_entries ORDER BY mod_date DESC`: every
   * stored date once, newest first.
   */
  function RevisionMillis(t: seq<Row>): (r: seq<nat>)
    ensures StrictlyDescending(r)
    ensures forall d :: d in r <==> HasDate(t, d)
  {
    if t == [] then []
    else
      var rest := RevisionMillis(t[1..]);
      assert forall d :: HasDate(t, d) <==> d == t[0].modDate || HasDate(t[1..], d) by {
        assert forall r :: r in t <==> r == t[0] || r in t[1..];
      }
      InsertDescending(t[0].modDate, rest)
  }

  /** A strictly descending list is determined by its elements, so the revision list is the only possible answer. */
  lemma {:induction false} DescendingUnique(s1: seq<nat>, s2: seq<nat>)
    requires StrictlyDescending(s1) && StrictlyDescending(s2)
    requires forall d :: d in s1 <==> d in s2
    ensures s1 == s2
  {
    assert s1 != [] ==> s1[0] in s2;
    assert s2 != [] ==> s2[0] in s1;
    if s1 != [] && s2 != [] {
      assert s1[0] == s2[0];
      forall d ensures d in s1[1..] <==> d in s2[1..] {
        if d in s1[1..] {
          var i :| 1 <= i < |s1| && s1[i] == d;
          assert d in s2;
          var j :| 0 <= j < |s2| && s2[j] == d;
          assert j != 0;
          assert s2[1..][j - 1] == d;
        }
        if d in s2[1..] {
          var j :| 1 <= j < |s2| && s2[j] == d;
          assert d in s1;
          var i :| 0 <= i < |s1| && s1[i] == d;
          assert i != 0;
          assert s1[1..][i - 1] == d;
        }
      }
      DescendingUnique(s1[1..], s2[1..]);
      assert s1 == [s1[0]] + s1[1..] && s2 == [s2[0]] + s2[1..];
    }
  }

  datatype CompareError = TooFewRevisions

  /**
   * `revisions[0]` and `revisions[1]`; the indexing panics when fewer than two
   * revisions exist, which is reported here as `TooFewRevisions`.
   */
  function PickRevisions(revisions: seq<nat>): Result<(nat, nat), CompareError> {
    if |revisions| < 2 then Failure(TooFewRevisions) else Success((revisions[0], revisions[1]))
  }

  /**
   * The pick succeeds exactly when the store holds two distinct dates; then
   * `latest` is the newest stored date and `previous` the newest stored date
   * older than it.
   */
  lemma PickNewestTwo(t: seq<Row>)
    ensures PickRevisions(RevisionMillis(t)).Success? <==>
      exists a, b :: a in t && b in t && a.modDate != b.modDate
    ensures PickRevisions(RevisionMillis(t)).Success? ==>
      var (latest, previous) := PickRevisions(RevisionMillis(t)).value;
      && HasDate(t, latest) && HasDate(t, previous) && previous < latest
      && (forall r :: r in t ==> r.modDate <= latest)
      && (forall r :: r in t && r.modDate < latest ==> r.modDate <= previous)
  {
    var revs := RevisionMillis(t);
    if exists a, b :: a in t && b in t && a.modDate != b.modDate {
      var a, b :| a in t && b in t && a.modDate != b.modDate;
      assert a.modDate in revs && b.modDate in revs;
      if |revs| < 2 {
        assert false;
      }
    }
    if |revs| >= 2 {
      assert revs[0] in revs && revs[1] in revs;
      assert HasDate(t, revs[0]) && HasDate(t, revs[1]);
      forall r | r in t ensures r.modDate <= revs[0] && (r.modDate < revs[0] ==> r.modDate <= revs[1]) {
        assert HasDate(t, r.modDate);
        var i :| 0 <= i < |revs| && revs[i] == r.modDate;
      }
      var a :| a in t && a.modDate == revs[0];
      var b :| b in t && b.modDate == revs[1];
    }
  }
}
