/** `save_to_csv`: the submissions file as an in-memory table, and the
    merge-or-append step that rewrites it on every submission. */
module CsvStore {
  import Php
  import opened Wrappers
  import opened Submissions

  /** A table row: the cells of one CSV line. */
  type Row = seq<string>

  /** The submissions file: absent, or present with its lines already split
      into cells. A zero-size file is `Present([])`. */
  datatype StoredFile = Absent | Present(lines: seq<Row>)

  /** The fixed header the handler writes on every save. */
  const Header: Row := [
    "Entry ID", "Timestamp", "Email", "Phone", "Newsletter Consent",
    "E-Mail Consent", "Phone/SMS Consent", "Mail Consent", "Terms Accepted"]

  /** The data rows of a stored file: everything after its first line. A
      missing or zero-size file has none, and the stored header is discarded. */
  function LoadRows(f: StoredFile): (rows: seq<Row>)
    ensures f.Absent? || |f.lines| == 0 ==> rows == []
    ensures f.Present? && |f.lines| > 0 ==> |rows| == |f.lines| - 1 && rows == f.lines[1..]
  {
    if f.Present? && |f.lines| > 0 then f.lines[1..] else []
  }

  /** The file content a save writes: the canonical header, then the rows. */
  function WriteTable(rows: seq<Row>): (lines: seq<Row>)
    ensures |lines| == |rows| + 1 && lines[0] == Header && lines[1..] == rows
  {
    [Header] + rows
  }

  /** Saving and then loading gives back exactly the rows saved. */
  lemma LoadAfterWrite(rows: seq<Row>)
    ensures LoadRows(Present(WriteTable(rows))) == rows
  {
  }

  /** The nine cells of a record, in header order. */
  function Cells(d: Submission): (row: Row)
    ensures |row| == |Header|
  {
    [d.entryId, d.timestamp, d.email, d.phone, d.newsletterConsent,
     d.emailConsent, d.phoneSmsConsent, d.mailConsent, d.termsAccepted]
  }

  /** Reads a record back from a row; rows without exactly nine cells are not
      records. */
  function RecordOf(row: Row): (r: Option<Submission>)
    ensures r.Some? <==> |row| == |Header|
  {
    if |row| == |Header| then
      Some(Submission(row[0], row[1], row[2], row[3], row[4], row[5], row[6], row[7], row[8]))
    else None
  }

  /** The row layout loses nothing: a record's cells read back as the record. */
  lemma RecordOfCells(d: Submission)
    ensures RecordOf(Cells(d)) == Some(d)
  {
  }

  /** The update test of `save_to_csv`: the entry id is PHP-non-empty and the
      row's first cell equals it. PHP compares with loose `==`, which also
      equates numeric strings such as "1" and "01"; the model compares the
      strings exactly. */
  predicate Matches(row: Row, entryId: string) {
    !Php.Empty(entryId) && |row| > 0 && row[0] == entryId
  }

  /** Some row of `rows` is updated rather than a new one appended. */
  predicate AnyMatch(rows: seq<Row>, entryId: string) {
    exists i :: 0 <= i < |rows| && Matches(rows[i], entryId)
  }

  /** A matched row rebuilt: its own id cell, the new record's other eight.
      It reads back as the record under the row's old id. */
  function RebuildRow(row: Row, d: Submission): (r: Row)
    requires |row| > 0
    ensures |r| == |Header| && r[0] == row[0]
    ensures RecordOf(r) == Some(d.(entryId := row[0]))
  {
    [row[0]] + Cells(d)[1..]
  }

  /** The scan over the stored rows: every matching row is rebuilt in place,
      every other row is kept as it was. */
  function MergeRows(rows: seq<Row>, d: Submission): (r: seq<Row>)
    ensures |r| == |rows|
    ensures forall i :: 0 <= i < |rows| && Matches(rows[i], d.entryId) ==>
      |r[i]| == |Header| && r[i][0] == rows[i][0] && r[i][1..] == Cells(d)[1..]
    ensures forall i :: 0 <= i < |rows| && !Matches(rows[i], d.entryId) ==> r[i] == rows[i]
  {
    if rows == [] then []
    else
      var head := if Matches(rows[0], d.entryId) then RebuildRow(rows[0], d) else rows[0];
      [head] + MergeRows(rows[1..], d)
  }

  /** The rows `save_to_csv` writes after its header: the stored rows with
      every match rebuilt in place, or, when nothing matched, the stored rows
      followed by one new row for the record. */
  function Upsert(rows: seq<Row>, d: Submission): (r: seq<Row>)
    ensures |r| >= |rows|
    ensures AnyMatch(rows, d.entryId) ==> |r| == |rows|
    ensures forall i :: 0 <= i < |rows| && Matches(rows[i], d.entryId) ==>
      |r[i]| == |Header| && r[i][0] == rows[i][0] && r[i][1..] == Cells(d)[1..]
    ensures forall i :: 0 <= i < |rows| && !Matches(rows[i], d.entryId) ==> r[i] == rows[i]
    ensures !AnyMatch(rows, d.entryId) ==> r == rows + [Cells(d)]
  {
    if AnyMatch(rows, d.entryId) then MergeRows(rows, d) else rows + [Cells(d)]
  }

  /** With an empty entry id (`""` or `"0"`) nothing is ever updated: the
      record is always appended. */
  lemma EmptyIdAppends(rows: seq<Row>, d: Submission)
    requires Php.Empty(d.entryId)
    ensures Upsert(rows, d) == rows + [Cells(d)]
  {
  }

  /** Submitting the same record twice with a non-empty entry id leaves the
      table as the first submission left it. */
  lemma {:induction false} UpsertIdempotent(rows: seq<Row>, d: Submission)
    requires !Php.Empty(d.entryId)
    ensures Upsert(Upsert(rows, d), d) == Upsert(rows, d)
  {
    var once := Upsert(rows, d);
    var last := |once| - 1;
    if !AnyMatch(rows, d.entryId) {
      assert Matches(once[last], d.entryId);
    }
    assert AnyMatch(once, d.entryId);
    var twice := Upsert(once, d);
    assert |twice| == |once|;
    forall i | 0 <= i < |once|
      ensures twice[i] == once[i]
    {
      if i < |rows| && Matches(rows[i], d.entryId) {
        assert once[i] == [rows[i][0]] + Cells(d)[1..];
        assert twice[i] == [once[i][0]] + twice[i][1..];
      } else if i == |rows| {
        assert once[i] == Cells(d);
        assert twice[i] == [once[i][0]] + twice[i][1..];
      }
    }
  }

  /** The stored-row form of the consent invariant: a row whose newsletter
      cell is a refusal shows `"No"` in every channel cell it has. */
  predicate RowConsistent(row: Row) {
    |row| > 4 && row[4] == Disagree ==>
      forall c :: 5 <= c <= 7 && c < |row| ==> row[c] == No
  }

  predicate TableConsistent(rows: seq<Row>) {
    forall i :: 0 <= i < |rows| ==> RowConsistent(rows[i])
  }

  /** Upserting a record that keeps the consent invariant keeps it for the
      whole table: no refusal row ever shows a consented channel. */
  lemma UpsertKeepsConsent(rows: seq<Row>, d: Submission)
    requires TableConsistent(rows)
    requires ConsentConsistent(d)
    ensures TableConsistent(Upsert(rows, d))
  {
    var r := Upsert(rows, d);
    forall i | 0 <= i < |r|
      ensures RowConsistent(r[i])
    {
      if i < |rows| && Matches(rows[i], d.entryId) {
        assert r[i] == [rows[i][0]] + Cells(d)[1..];
      } else if i < |rows| {
        assert RowConsistent(rows[i]);
      } else {
        assert r[i] == Cells(d);
      }
    }
  }

  /** `save_to_csv` as the handler runs it: read the stored rows one by one,
      rebuilding every match, append the record when nothing matched, and
      produce the whole file content to write back. */
  method SaveToCsv(stored: StoredFile, d: Submission) returns (written: seq<Row>, updated: bool)
    ensures |written| > 0 && written[0] == Header
    ensures updated <==> AnyMatch(LoadRows(stored), d.entryId)
    ensures updated ==> |written| == |LoadRows(stored)| + 1
    ensures !updated ==> written == [Header] + LoadRows(stored) + [Cells(d)]
    ensures forall i :: 0 <= i < |LoadRows(stored)| ==>
      written[i + 1] == (if Matches(LoadRows(stored)[i], d.entryId) then RebuildRow(LoadRows(stored)[i], d) else LoadRows(stored)[i])
    ensures written == WriteTable(Upsert(LoadRows(stored), d))
  {
    var rows := LoadRows(stored);
    var existing: seq<Row> := [];
    updated := false;
    var i := 0;
    while i < |rows|
      invariant 0 <= i <= |rows|
      invariant existing == MergeRows(rows[..i], d)
      invariant updated <==> AnyMatch(rows[..i], d.entryId)
    {
      var row := rows[i];
      assert rows[..i + 1] == rows[..i] + [row];
      MergeRowsAppend(rows[..i], row, d);
      AnyMatchAppend(rows[..i], row, d.entryId);
      if Matches(row, d.entryId) {
        existing := existing + [RebuildRow(row, d)];
        updated := true;
      } else {
        existing := existing + [row];
      }
      i := i + 1;
    }
    assert rows[..i] == rows;
    if !updated {
      existing := existing + [Cells(d)];
    }
    written := [Header] + existing;
    SavedTable(rows, d, written);
  }

  /** The file a save writes, spelled out from the reference upsert. */
  lemma SavedTable(rows: seq<Row>, d: Submission, written: seq<Row>)
    requires written == WriteTable(Upsert(rows, d))
    ensures AnyMatch(rows, d.entryId) ==> |written| == |rows| + 1
    ensures !AnyMatch(rows, d.entryId) ==> written == [Header] + rows + [Cells(d)]
    ensures forall i :: 0 <= i < |rows| ==>
      written[i + 1] == (if Matches(rows[i], d.entryId) then RebuildRow(rows[i], d) else rows[i])
  {
    var r := Upsert(rows, d);
    forall i | 0 <= i < |rows|
      ensures written[i + 1] == (if Matches(rows[i], d.entryId) then RebuildRow(rows[i], d) else rows[i])
    {
      assert written[i + 1] == r[i];
      if Matches(rows[i], d.entryId) {
        assert r[i] == [r[i][0]] + r[i][1..];
      }
    }
  }

  lemma AnyMatchAppend(rows: seq<Row>, row: Row, entryId: string)
    ensures AnyMatch(rows + [row], entryId) <==> AnyMatch(rows, entryId) || Matches(row, entryId)
  {
    var all := rows + [row];
    if AnyMatch(all, entryId) && !Matches(row, entryId) {
      var i :| 0 <= i < |all| && Matches(all[i], entryId);
      assert all[i] == rows[i];
    }
    if Matches(row, entryId) {
      assert Matches(all[|rows|], entryId);
    }
    if AnyMatch(rows, entryId) {
      var i :| 0 <= i < |rows| && Matches(rows[i], entryId);
      assert Matches(all[i], entryId);
    }
  }

  /** Merging one more row merges it on its own and keeps the prefix. */
  lemma {:induction false} MergeRowsAppend(rows: seq<Row>, row: Row, d: Submission)
    ensures MergeRows(rows + [row], d) ==
      MergeRows(rows, d) + [if Matches(row, d.entryId) then RebuildRow(row, d) else row]
  {
    var both := MergeRows(rows + [row], d);
    var expected := MergeRows(rows, d) + [if Matches(row, d.entryId) then RebuildRow(row, d) else row];
    assert |both| == |expected|;
    forall i | 0 <= i < |both|
      ensures both[i] == expected[i]
    {
      var all := rows + [row];
      if Matches(all[i], d.entryId) {
        assert both[i] == [all[i][0]] + both[i][1..];
        if i < |rows| {
          assert expected[i] == [rows[i][0]] + expected[i][1..];
        }
      }
    }
  }
}
