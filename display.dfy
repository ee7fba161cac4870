/** The second converter (`main_step3.py`), which writes the table for
    display: one four-column row per reservation, holding the room with the
    facility names taken out, the start and end datetimes as given, and
    "×" in place of the purpose. */
module Display {
  import opened Wrappers
  import opened Table
  import opened Classifier
  import opened CircledDigits
  import opened RoomName
  import opened Encoding
  import opened Emit

  const PurposeColumn := "利用目的詳細"

  /** `new_csv_header`, written as it is defined; it is not normalized. */
  const OutputHeader: Row := ["会議室名", "開始日時", "終了日時", PurposeColumn]

  /** `new_csv_header.index('利用目的詳細')`: the last column. */
  lemma PurposeIndexFound()
    ensures IndexOf(OutputHeader, PurposeColumn) == Some(3)
  {
    assert OutputHeader[3] == PurposeColumn;
    assert OutputHeader[0] != PurposeColumn by { assert OutputHeader[0][0] != PurposeColumn[0]; }
    assert OutputHeader[1] != PurposeColumn by { assert OutputHeader[1][0] != PurposeColumn[0]; }
    assert OutputHeader[2] != PurposeColumn by { assert OutputHeader[2][0] != PurposeColumn[0]; }
  }

  /** What one reservation row becomes: `None` where reading a datetime
      column raises `IndexError` and the row is skipped. */
  function EmitRow(cols: Columns, room: string, row: Row): Option<Row> {
    if !InRange(cols, row) then None
    else Some([Substitution(RemoveFacilityNames(room)), Substitution(StartText(cols, row)),
               Substitution(EndText(cols, row)), Unavailable])
  }

  /** The whole conversion of a parsed table. */
  function Convert(lines: seq<Row>): Outcome {
    if lines == [] then EmptyInput
    else match RequiredColumns(lines[0])
      case None => MissingRequiredColumn
      case Some(cols) =>
        var out := Collect(EmitRow, cols, DataRows(lines[1..]));
        if out == [] then NoDataRowsFound else Converted([OutputHeader] + out)
  }

  /** `processed_row` built from scratch: the room, the start and end
      datetimes, the purpose looked up in the input header (empty where the
      header or the row lacks it); then the facility names are removed from
      the room. */
  method BuildCells(header: Row, cols: Columns, room: string, row: Row) returns (cells: Row)
    requires InRange(cols, row)
    ensures |cells| == 4
    ensures cells[0] == RemoveFacilityNames(room)
    ensures cells[1] == StartText(cols, row) && cells[2] == EndText(cols, row)
  {
    cells := [room, StartText(cols, row), EndText(cols, row)];
    var purposeAt := IndexOf(header, PurposeColumn);
    if purposeAt.Some? && purposeAt.value < |row| {
      cells := cells + [row[purposeAt.value]];
    } else {
      cells := cells + [""];
    }
    cells := cells[0 := RemoveFacilityNames(cells[0])];
  }

  /** `processed_row[purpose_detail_final_index] = '×'`, guarded by the
      index being found and in range. */
  method MarkUnavailable(cells: Row) returns (r: Row)
    ensures |cells| > 3 ==> r == cells[3 := Unavailable]
    ensures |cells| <= 3 ==> r == cells
  {
    r := cells;
    var finalAt := IndexOf(OutputHeader, PurposeColumn);
    PurposeIndexFound();
    if finalAt.Some? && finalAt.value < |r| {
      r := r[finalAt.value := Unavailable];
    }
  }

  /** The body of the data-row branch: the datetimes read (or the row
      skipped), `processed_row` built, every cell normalized, and the
      purpose overwritten. */
  method ProcessRow(header: Row, cols: Columns, room: string, row: Row) returns (r: Option<Row>)
    ensures r == EmitRow(cols, room, row)
  {
    if !InRange(cols, row) {
      return None;
    }
    var cells := BuildCells(header, cols, room, row);
    var normalized := NormalizeEach(cells);
    var marked := MarkUnavailable(normalized);
    assert marked[0] == Substitution(cells[0]) && marked[1] == Substitution(cells[1]);
    assert marked[2] == Substitution(cells[2]) && marked[3] == Unavailable;
    FourCells(marked);
    return Some(marked);
  }

  /** The loop over `lines[1:]`: the rows it appends after the header. */
  method ConvertBody(lines: seq<Row>, cols: Columns) returns (out: seq<Row>)
    requires |lines| > 0
    ensures out == Collect(EmitRow, cols, DataRows(lines[1..]))
  {
    out := [];
    var room: Option<string> := None;
    assert lines[1..1] == [];
    for i := 1 to |lines|
      invariant room == RoomAfter(lines[1..i])
      invariant out == Collect(EmitRow, cols, DataRows(lines[1..i]))
    {
      var row := lines[i];
      WalkRoom(lines, i);
      if row == [] {
        CollectSkip(EmitRow, cols, lines, i);
      } else if IsHeaderRow(row) {
        room := Some(HeaderRoom(row));
        CollectSkip(EmitRow, cols, lines, i);
      } else if IsDataRow(room, row) {
        var processed := ProcessRow(lines[0], cols, room.value, row);
        CollectStep(EmitRow, cols, lines, i, out, processed);
        if processed.Some? {
          out := out + [processed.value];
        }
      } else {
        CollectSkip(EmitRow, cols, lines, i);
      }
    }
    assert lines[1..|lines|] == lines[1..];
  }

  /** `convert_csv` after decoding: an empty table, then a header missing a
      datetime column, then a table with no reservation kept is refused. */
  method ConvertRows(lines: seq<Row>) returns (r: Outcome)
    ensures r == Convert(lines)
  {
    if |lines| == 0 {
      return EmptyInput;
    }
    var cols := RequiredColumns(lines[0]);
    if cols.None? {
      return MissingRequiredColumn;
    }
    var out := ConvertBody(lines, cols.value);
    if out == [] {
      return NoDataRowsFound;
    }
    return Converted([OutputHeader] + out);
  }

  /** `convert_csv` from the file's bytes. */
  method ConvertCsv(raw: seq<byte>, decode: Decoder, parse: string -> seq<Row>) returns (r: Outcome)
    ensures ReadText(raw, decode).None? ==> r == NoEncodingMatched
    ensures ReadText(raw, decode).Some? ==> r == Convert(parse(ReadText(raw, decode).value))
  {
    var detected, text := Resolve(raw, decode);
    if text.None? {
      return NoEncodingMatched;
    }
    r := ConvertRows(parse(text.value));
  }

  /** "×" holds no circled digit. */
  lemma UnavailablePlain()
    ensures NoCircled(Unavailable)
  {
  }

  /** A row is skipped exactly when a datetime column is out of range; a
      kept row has four cells, none holding a circled digit, the cleaned
      room first, the start and end as read, and "×" last. */
  lemma EmitRowShape(cols: Columns, room: string, row: Row)
    ensures EmitRow(cols, room, row).None? <==> !InRange(cols, row)
    ensures EmitRow(cols, room, row).Some? ==>
              var out := EmitRow(cols, room, row).value;
              && |out| == 4 && out[3] == Unavailable && NoCircledCells(out)
              && out[0] == Normalize(RemoveFacilityNames(room))
              && out[1] == Normalize(StartText(cols, row))
              && out[2] == Normalize(EndText(cols, row))
  {
    if InRange(cols, row) {
      var out := EmitRow(cols, room, row).value;
      assert out[0] == Normalize(RemoveFacilityNames(room));
      assert out[1] == Normalize(StartText(cols, row));
      assert out[2] == Normalize(EndText(cols, row));
      NormalizeClears(RemoveFacilityNames(room));
      NormalizeClears(StartText(cols, row));
      NormalizeClears(EndText(cols, row));
      UnavailablePlain();
      FourCells(out);
      NoCircledFour(out[0], out[1], out[2], out[3]);
    }
  }

  /** The purpose column, and every column but the four datetime columns,
      never reaches the output: rows that agree on those four give the same
      output row. */
  lemma PurposeIgnored(cols: Columns, room: string, a: Row, b: Row)
    requires InRange(cols, a) && InRange(cols, b)
    requires a[cols.startDate] == b[cols.startDate] && a[cols.startTime] == b[cols.startTime]
    requires a[cols.endDate] == b[cols.endDate] && a[cols.endTime] == b[cols.endTime]
    ensures EmitRow(cols, room, a) == EmitRow(cols, room, b)
  {
  }

  /** The ways a conversion of a parsed table ends. */
  lemma ConvertOutcomes(lines: seq<Row>)
    ensures Convert(lines) == EmptyInput <==> lines == []
    ensures Convert(lines) == MissingRequiredColumn <==>
              lines != [] && (StartDate !in lines[0] || StartTime !in lines[0]
                              || EndDate !in lines[0] || EndTime !in lines[0])
    ensures Convert(lines) == NoDataRowsFound <==>
              && lines != [] && RequiredColumns(lines[0]).Some?
              && forall k :: 0 <= k < |DataRows(lines[1..])| ==>
                   !InRange(RequiredColumns(lines[0]).value, DataRows(lines[1..])[k].row)
    ensures !Convert(lines).NoEncodingMatched?
    ensures Convert(lines).Converted? ==>
              && Convert(lines).rows[0] == OutputHeader
              && 2 <= |Convert(lines).rows| <= |DataRows(lines[1..])| + 1
  {
    if lines != [] && RequiredColumns(lines[0]).Some? {
      var cols := RequiredColumns(lines[0]).value;
      var ts := DataRows(lines[1..]);
      CollectEmpty(EmitRow, cols, ts);
      CollectLength(EmitRow, cols, ts);
    }
  }

  /** The shape of every row the display converter writes after the header. */
  predicate DisplayShaped(out: Row) {
    |out| == 4 && out[3] == Unavailable && NoCircledCells(out)
  }

  lemma {:induction false} CollectedShape(cols: Columns, ts: seq<Tagged>)
    ensures forall k :: 0 <= k < |Collect(EmitRow, cols, ts)| ==> DisplayShaped(Collect(EmitRow, cols, ts)[k])
    decreases |ts|
  {
    if ts != [] {
      var n := |ts| - 1;
      CollectedShape(cols, ts[..n]);
      EmitRowShape(cols, ts[n].room, ts[n].row);
    }
  }

  /** Every output row after the header is what some reservation row of
      the input became, and has the display row's shape. */
  lemma OutputRowShape(lines: seq<Row>, cols: Columns, k: nat)
    requires lines != [] && RequiredColumns(lines[0]) == Some(cols)
    requires Convert(lines).Converted? && 0 < k < |Convert(lines).rows|
    ensures exists i :: MadeFrom(EmitRow, cols, DataRows(lines[1..]), i, Convert(lines).rows[k])
    ensures DisplayShaped(Convert(lines).rows[k])
  {
    var ts := DataRows(lines[1..]);
    var out := Collect(EmitRow, cols, ts);
    assert Convert(lines).rows == [OutputHeader] + out;
    assert Convert(lines).rows[k] == out[k - 1];
    CollectSound(EmitRow, cols, ts, k - 1);
    CollectedShape(cols, ts);
  }

  /** Every reservation row whose datetime columns are present is output. */
  lemma EveryDataRowEmitted(lines: seq<Row>, cols: Columns, i: nat)
    requires 0 < i < |lines| && RequiredColumns(lines[0]) == Some(cols)
    requires !IsHeaderRow(lines[i]) && IsDataRow(RoomAfter(lines[1..i]), lines[i])
    requires InRange(cols, lines[i])
    ensures Convert(lines).Converted?
    ensures EmitRow(cols, RoomAfter(lines[1..i]).value, lines[i]).value in Convert(lines).rows
  {
    var rows := lines[1..];
    assert rows[..i - 1] == lines[1..i] && rows[i - 1] == lines[i];
    DataRowsComplete(rows, i - 1);
    var k :| 0 <= k < |DataRows(rows)| && DataRows(rows)[k].index == i - 1;
    DataRowAt(rows, k);
    var out := Collect(EmitRow, cols, DataRows(rows));
    CollectComplete(EmitRow, cols, DataRows(rows), k);
    assert Convert(lines) == Converted([OutputHeader] + out);
  }
}
