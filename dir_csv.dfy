/**
 * Reading snapshot lines back (src/dir_csv.rs): every record of the
 * `.dirdiff.csv` file, or only those of the newest snapshot in it, and the
 * hidden-name test used while walking a directory.
 *
 * The CSV tokenizer is not modelled: a record is given already split into
 * its fields. What is modelled is what the code does with the fields and
 * where it panics: the reader (not flexible) refuses a record whose field
 * count differs from the first record's, indexing a missing field panics,
 * and the millisecond field must parse as a `u64`.
 */
module DirCsv {
  import opened Wrappers
  import opened Docs
  import opened Decimal

  /** One CSV record, split into its fields. */
  type Record = seq<string>

  /** Why reading stopped (each is a panic in the source); `index` is the record's position. */
  datatype CsvError = UnequalLengths(index: nat) | MissingField(index: nat) | BadMillis(index: nat) | NoRecords

  /** The failure, if any, met when record `i` is read and its fields 0 to 3 are used. */
  function RecordError(records: seq<Record>, i: nat): Option<CsvError>
    requires i < |records|
  {
    if |records[i]| != |records[0]| then Some(UnequalLengths(i))
    else if |records[i]| < 4 then Some(MissingField(i))
    else if ParseU64(records[i][3]).None? then Some(BadMillis(i))
    else None
  }

  predicate RecordOk(records: seq<Record>, i: nat)
    requires i < |records|
  {
    RecordError(records, i).None?
  }

  /** The record built from a well-formed line: fields 0, 1 and 2, and the epoch plus field 3 in milliseconds. */
  function DocOf(rec: Record): Doc
    requires |rec| >= 4 && ParseU64(rec[3]).Some?
  {
    Doc(rec[0], rec[1], rec[2], ParseU64(rec[3]).value)
  }

  /** Reading records `i..` in order, stopping at the first failure. */
  function DecodeFrom(records: seq<Record>, i: nat): (r: Result<seq<Doc>, CsvError>)
    requires i <= |records|
    decreases |records| - i
    ensures r.Success? <==> forall j :: i <= j < |records| ==> RecordOk(records, j)
    ensures r.Success? ==> |r.value| == |records| - i
    ensures r.Failure? ==>
      exists j :: i <= j < |records| && RecordError(records, j) == Some(r.error)
        && forall m :: i <= m < j ==> RecordOk(records, m)
  {
    if i == |records| then Success([])
    else match RecordError(records, i)
      case Some(e) => assert !RecordOk(records, i); Failure(e)
      case None =>
        match DecodeFrom(records, i + 1)
        case Failure(e) => Failure(e)
        case Success(rest) => Success([DocOf(records[i])] + rest)
  }

  /** Each record read is the one built from its line. */
  lemma {:induction false} DecodedAt(records: seq<Record>, i: nat, j: nat)
    requires i <= j < |records| && DecodeFrom(records, i).Success?
    decreases j - i
    ensures RecordOk(records, j) && DecodeFrom(records, i).value[j - i] == DocOf(records[j])
  {
    if j > i {
      DecodedAt(records, i + 1, j);
    }
  }

  /** What `load_csv_entries` computes: one record per line, in file order, or the first failure. */
  function DecodeRecords(records: seq<Record>): Result<seq<Doc>, CsvError> {
    DecodeFrom(records, 0)
  }

  /** Results already collected, followed by what reading the rest gives. */
  function Prepend(done: seq<Doc>, rest: Result<seq<Doc>, CsvError>): Result<seq<Doc>, CsvError> {
    match rest
    case Success(docs) => Success(done + docs)
    case Failure(e) => Failure(e)
  }

  lemma PrependStep(done: seq<Doc>, d: Doc, rest: Result<seq<Doc>, CsvError>)
    ensures Prepend(done, Prepend([d], rest)) == Prepend(done + [d], rest)
  {
    if rest.Success? {
      assert done + ([d] + rest.value) == (done + [d]) + rest.value;
    }
  }

  /** `load_csv_entries` (and the identical function in src/main.rs): the reading loop. */
  method LoadCsvEntries(records: seq<Record>) returns (r: Result<seq<Doc>, CsvError>)
    ensures r == DecodeRecords(records)
  {
    var results: seq<Doc> := [];
    var i := 0;
    assert DecodeRecords(records).Success? ==> [] + DecodeRecords(records).value == DecodeRecords(records).value;
    while i < |records|
      invariant 0 <= i <= |records|
      invariant Prepend(results, DecodeFrom(records, i)) == DecodeRecords(records)
    {
      var e := RecordError(records, i);
      if e.Some? {
        return Failure(e.value);
      }
      assert DecodeFrom(records, i) == Prepend([DocOf(records[i])], DecodeFrom(records, i + 1));
      PrependStep(results, DocOf(records[i]), DecodeFrom(records, i + 1));
      results := results + [DocOf(records[i])];
      i := i + 1;
    }
    assert results + [] == results;
    r := Success(results);
  }

  /** The fields the CSV writer emits for a record: hash, name, path and the `u64` milliseconds. */
  function EncodeDoc(d: Doc): Record
    requires d.modMillis <= U64_MAX
  {
    [d.hash, d.name, d.path, NatToString(d.modMillis)]
  }

  function EncodeDocs(docs: seq<Doc>): (records: seq<Record>)
    requires forall d :: d in docs ==> d.modMillis <= U64_MAX
    ensures |records| == |docs|
  {
    seq(|docs|, i requires 0 <= i < |docs| => EncodeDoc(docs[i]))
  }

  /** Reading back what was written gives the same records, in the same order. */
  lemma ReadBackWritten(docs: seq<Doc>)
    requires forall d :: d in docs ==> d.modMillis <= U64_MAX
    ensures DecodeRecords(EncodeDocs(docs)) == Success(docs)
  {
    var records := EncodeDocs(docs);
    forall j | 0 <= j < |records| ensures RecordOk(records, j) && DocOf(records[j]) == docs[j] {
      assert docs[j] in docs;
      ParseDisplayed(docs[j].modMillis);
    }
    AllReadable(records);
    assert DecodeRecords(records).value == docs;
  }

  // ---------------------------------------------------------------------
  // load_csv_latest_entries
  // ---------------------------------------------------------------------

  /** The largest element (the last one after `sort`). */
  function SeqMax(s: seq<nat>): (m: nat)
    requires s != []
    ensures m in s && forall x :: x in s ==> x <= m
  {
    if |s| == 1 then s[0]
    else
      var rest := SeqMax(s[1..]);
      assert forall x :: x in s ==> x == s[0] || x in s[1..];
      if s[0] >= rest then s[0] else rest
  }

  function MillisOf(docs: seq<Doc>): (ms: seq<nat>)
    ensures |ms| == |docs| && forall i :: 0 <= i < |docs| ==> ms[i] == docs[i].modMillis
  {
    seq(|docs|, i requires 0 <= i < |docs| => docs[i].modMillis)
  }

  /** The records dated `m`, in file order. */
  function WithMillis(docs: seq<Doc>, m: nat): (r: seq<Doc>)
    ensures forall d :: d in r <==> d in docs && d.modMillis == m
    ensures |r| <= |docs|
  {
    if docs == [] then []
    else
      var last := docs[|docs| - 1];
      assert forall d :: d in docs <==> d in docs[..|docs| - 1] || d == last by {
        assert docs == docs[..|docs| - 1] + [last];
      }
      WithMillis(docs[..|docs| - 1], m) + (if last.modMillis == m then [last] else [])
  }

  /** What `load_csv_latest_entries` computes: the records of the newest date, or a failure. */
  function LatestEntries(records: seq<Record>): Result<seq<Doc>, CsvError> {
    match DecodeRecords(records)
    case Failure(e) => Failure(e)
    case Success(docs) =>
      if docs == [] then Failure(NoRecords) else Success(WithMillis(docs, SeqMax(MillisOf(docs))))
  }

  /**
   * Reading the newest snapshot fails exactly when reading all records fails
   * or there are none; otherwise every returned record carries the newest
   * date, and every record with that date is returned.
   */
  lemma LatestEntriesExact(records: seq<Record>)
    ensures LatestEntries(records).Success? <==> DecodeRecords(records).Success? && records != []
    ensures LatestEntries(records).Success? ==>
      var docs := DecodeRecords(records).value;
      && docs != []
      && var latest := SeqMax(MillisOf(docs));
      && (exists d :: d in docs && d.modMillis == latest)
      && (forall d :: d in docs ==> d.modMillis <= latest)
      && (forall d :: d in LatestEntries(records).value <==> d in docs && d.modMillis == latest)
  {
    var decoded := DecodeRecords(records);
    if decoded.Success? && records != [] {
      var docs := decoded.value;
      var latest := SeqMax(MillisOf(docs));
      var i :| 0 <= i < |docs| && MillisOf(docs)[i] == latest;
      assert docs[i] in docs;
      forall d | d in docs ensures d.modMillis <= latest {
        var j :| 0 <= j < |docs| && docs[j] == d;
        assert MillisOf(docs)[j] in MillisOf(docs);
      }
    }
  }

  /** With all of records `0..i` readable, a failure at record `i` is the failure of the whole read. */
  lemma FirstFailure(records: seq<Record>, i: nat)
    requires i < |records|
    requires forall j :: 0 <= j < i ==> RecordOk(records, j)
    requires RecordError(records, i).Some?
    ensures DecodeRecords(records) == Failure(RecordError(records, i).value)
  {
    assert !RecordOk(records, i);
    var r := DecodeRecords(records);
    var j :| 0 <= j < |records| && RecordError(records, j) == Some(r.error)
      && forall m :: 0 <= m < j ==> RecordOk(records, m);
    assert !RecordOk(records, j);
    assert j == i;
  }

  /** When every record is readable, reading succeeds with one record per line. */
  lemma AllReadable(records: seq<Record>)
    requires forall j :: 0 <= j < |records| ==> RecordOk(records, j)
    ensures DecodeRecords(records).Success?
    ensures var docs := DecodeRecords(records).value;
      |docs| == |records| && forall j :: 0 <= j < |records| ==> RecordOk(records, j) && docs[j] == DocOf(records[j])
  {
    forall j | 0 <= j < |records| ensures RecordOk(records, j) && DecodeRecords(records).value[j] == DocOf(records[j]) {
      DecodedAt(records, 0, j);
    }
  }

  lemma WithMillisStep(docs: seq<Doc>, i: nat, m: nat)
    requires i < |docs|
    ensures WithMillis(docs[..i + 1], m) == WithMillis(docs[..i], m) + (if docs[i].modMillis == m then [docs[i]] else [])
  {
    assert docs[..i + 1][..i] == docs[..i];
  }

  /**
   * `load_csv_latest_entries`: one pass collecting every date, the newest
   * date found by sorting them, and a second pass from the start keeping the
   * records of that date.
   */
  method LoadCsvLatestEntries(records: seq<Record>) returns (r: Result<seq<Doc>, CsvError>)
    ensures r == LatestEntries(records)
  {
    var millis: seq<nat> := [];
    var i := 0;
    while i < |records|
      invariant 0 <= i <= |records| && |millis| == i
      invariant forall j :: 0 <= j < i ==> RecordOk(records, j) && millis[j] == ParseU64(records[j][3]).value
    {
      if RecordError(records, i).Some? {
        FirstFailure(records, i);
        return Failure(RecordError(records, i).value);
      }
      millis := millis + [ParseU64(records[i][3]).value];
      i := i + 1;
    }
    AllReadable(records);
    var docs := DecodeRecords(records).value;
    assert millis == MillisOf(docs);
    if |millis| == 0 {
      return Failure(NoRecords);
    }
    var latest := SeqMax(millis);
    var results := RecordsDated(records, docs, latest);
    r := Success(results);
  }

  /** The second pass of `load_csv_latest_entries`: re-reads every record and keeps those dated `latest`. */
  method RecordsDated(records: seq<Record>, ghost docs: seq<Doc>, latest: nat) returns (results: seq<Doc>)
    requires |docs| == |records|
    requires forall j :: 0 <= j < |records| ==> RecordOk(records, j) && docs[j] == DocOf(records[j])
    ensures results == WithMillis(docs, latest)
  {
    results := [];
    var i := 0;
    while i < |records|
      invariant 0 <= i <= |records|
      invariant results == WithMillis(docs[..i], latest)
    {
      var modMillis := ParseU64(records[i][3]).value;
      assert docs[i].modMillis == modMillis;
      WithMillisStep(docs, i, latest);
      if modMillis == latest {
        results := results + [DocOf(records[i])];
      }
      i := i + 1;
    }
    assert docs[..|docs|] == docs;
  }

  // ---------------------------------------------------------------------
  // is_hidden
  // ---------------------------------------------------------------------

  predicate StartsWith(s: string, prefix: string) {
    |prefix| <= |s| && s[..|prefix|] == prefix
  }

  /**
   * `is_hidden`: the entry's file name (`None` when it is not valid UTF-8,
   * so `to_str` fails) starts with a dot.
   */
  function IsHidden(fileName: Option<string>): (r: bool)
    ensures r <==> fileName.Some? && fileName.value != [] && fileName.value[0] == '.'
  {
    match fileName
    case None => false
    case Some(s) => StartsWith(s, ".")
  }
}
