/**
  The survey file data_survei.csv, seen as the sequence of rows it holds.
  Writing appends one data row per accepted submission; the header row is
  written with the first one, because only then does the file not exist yet.
*/
module Store {
  import opened Wrappers
  import opened Survey

  /** The rows of the file holding the given records, header first. */
  function FileOf(records: seq<Record>): seq<Row> {
    if records == [] then [] else [Columns] + DataRows(records)
  }

  function DataRows(records: seq<Record>): (rows: seq<Row>)
    ensures |rows| == |records|
  {
    seq(|records|, i requires 0 <= i < |records| => Cells(records[i]))
  }

  /** Read the records back: the first row must be the header, every other row a record. */
  function LoadAll(lines: seq<Row>): Option<seq<Record>> {
    if lines == [] then Some([])
    else if lines[0] != Columns then None
    else DecodeRows(lines[1..])
  }

  function DecodeRows(rows: seq<Row>): Option<seq<Record>> {
    if rows == [] then Some([])
    else
      match (DecodeRow(rows[0]), DecodeRows(rows[1..]))
      case (Some(r), Some(rest)) => Some([r] + rest)
      case _ => None
  }

  lemma {:induction false} DecodeDataRows(records: seq<Record>)
    ensures DecodeRows(DataRows(records)) == Some(records)
  {
    if records != [] {
      DecodeCells(records[0]);
      assert DataRows(records)[1..] == DataRows(records[1..]);
      DecodeDataRows(records[1..]);
      assert [records[0]] + records[1..] == records;
    }
  }

  /** Whatever has been written is read back, in order. */
  lemma LoadFileOf(records: seq<Record>)
    ensures LoadAll(FileOf(records)) == Some(records)
  {
    if records != [] {
      assert FileOf(records)[1..] == DataRows(records);
      DecodeDataRows(records);
    }
  }

  /** The header occurs once in a non-empty file, and as its first row. */
  lemma HeaderOnceAndFirst(records: seq<Record>)
    ensures multiset(FileOf(records))[Columns] == if records == [] then 0 else 1
    ensures records != [] ==> FileOf(records)[0] == Columns
    ensures forall i :: 0 < i < |FileOf(records)| ==> FileOf(records)[i] != Columns
  {
    var rows := DataRows(records);
    forall i | 0 <= i < |rows| ensures rows[i] != Columns {
      HeaderIsNoRecord(records[i]);
    }
    assert Columns !in rows;
    if records != [] {
      assert FileOf(records) == [Columns] + rows;
      assert multiset(FileOf(records)) == multiset{Columns} + multiset(rows);
    }
  }

  /** Appending a record adds its row, after a header iff the file was empty. */
  lemma FileOfSnoc(records: seq<Record>, r: Record)
    ensures FileOf(records + [r]) == FileOf(records) + (if records == [] then [Columns] else []) + [Cells(r)]
  {
    assert DataRows(records + [r]) == DataRows(records) + [Cells(r)];
  }

  /** What a press of the submit button did. */
  datatype Outcome = Saved(record: Record) | Incomplete

  class SurveyFile {
    /** Whether data_survei.csv exists. */
    var present: bool
    /** Its rows, in file order. */
    var lines: seq<Row>
    /** The records it holds, in append order. */
    ghost var records: seq<Record>

    ghost predicate Valid()
      reads this
    {
      && present == (records != [])
      && lines == FileOf(records)
      && forall r :: r in records ==> Admissible(r)
    }

    /** The file does not exist yet. */
    constructor ()
      ensures Valid()
      ensures !present && lines == [] && records == []
    {
      present := false;
      lines := [];
      records := [];
    }

    /** DataFrame.to_csv(mode='a', header=not exists), for one record. */
    method Append(r: Record)
      requires Valid() && Admissible(r)
      modifies this
      ensures Valid()
      ensures present
      ensures records == old(records) + [r]
      ensures lines == old(lines) + (if old(present) then [] else [Columns]) + [Cells(r)]
    {
      FileOfSnoc(records, r);
      var header := if present then [] else [Columns];
      lines := lines + header + [Cells(r)];
      present := true;
      records := records + [r];
    }

    /** The form's submit handler: save a complete submission, reject any other. */
    method Submit(s: Submission) returns (outcome: Outcome)
      requires Valid() && FromForm(s)
      modifies this
      ensures Valid()
      ensures outcome.Saved? <==> Complete(s.nama, s.makanan, s.alasan)
      ensures outcome.Saved? ==>
        && Some(outcome.record) == Validate(s)
        && records == old(records) + [outcome.record]
        && lines == old(lines) + (if old(present) then [] else [Columns]) + [Cells(outcome.record)]
        && present
      ensures outcome.Incomplete? ==>
        records == old(records) && lines == old(lines) && present == old(present)
    {
      match Validate(s)
      case Some(r) =>
        Append(r);
        outcome := Saved(r);
      case None =>
        outcome := Incomplete;
    }

    /** Read the saved records, as the survey data page shows them. */
    method Load() returns (rs: Option<seq<Record>>)
      requires Valid()
      ensures rs == Some(records)
      ensures rs.Some? && |rs.value| > 0 <==> present
    {
      LoadFileOf(records);
      if present {
        rs := LoadAll(lines);
      } else {
        rs := Some([]);
      }
    }
  }
}
