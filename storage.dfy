/** The third converter (`main_step4_Claude.py`), which writes the table for
    the database import: one four-column row per reservation, holding the
    cleaned room name, the start and end as ISO 8601 datetimes with the
    Japan offset, and "×" as the purpose. */
module Storage {
  import opened Wrappers
  import opened Text
  import opened Table
  import opened Classifier
  import opened CircledDigits
  import opened RoomName
  import opened DateTime
  import opened Encoding
  import opened Emit

  const RoomColumn := "room_name"
  const StartColumn := "start_datetime"
  const EndColumn := "end_datetime"
  const PurposeColumn := "purpose_detail"

  /** `new_csv_header`, the target table's column names. */
  const OutputHeader: Row := [RoomColumn, StartColumn, EndColumn, PurposeColumn]

  /** `clean_room_name`: the facility names removed, surrounding whitespace
      stripped, circled digits replaced. */
  function CleanRoomName(room: string): string {
    Normalize(Strip(RemoveFacilityNames(room)))
  }

  /** What one reservation row becomes: `None` where reading a datetime
      column raises `IndexError` and the row is skipped. */
  function EmitRow(cols: Columns, room: string, row: Row): Option<Row> {
    if !InRange(cols, row) then None
    else Some([CleanRoomName(room), FormatForSupabase(StartText(cols, row)),
               FormatForSupabase(EndText(cols, row)), Unavailable])
  }

  /** The whole conversion of a parsed table. */
  function Convert(lines: seq<Row>): Outcome {
    if lines == [] then EmptyInput
    else match RequiredColumns(lines[0])
      case None => MissingRequiredColumn
      case Some(cols) =>
        var out := Collect(EmitRow, cols, DataRows(lines[1..]));
        if out == [] then NoDataRowsFound else Converted([OutputHeader] + out)
  }

  /** `total_records`: the rows written below the header. */
  function TotalRecords(rows: seq<Row>): int {
    |rows| - 1
  }

  /** `clean_room_name`, computed as the converter does it: the two
      removals, then `strip()`, then the ten replaces. */
  method CleanRoom(room: string) returns (clean: string)
    ensures clean == CleanRoomName(room)
  {
    clean := RemoveFacilityNames(room);
    clean := Strip(clean);
    clean := Normalize(clean);
  }

  /** The datetimes read from the row and converted for the database. */
  method ReadStamps(cols: Columns, row: Row) returns (startIso: string, endIso: string)
    requires InRange(cols, row)
    ensures startIso == FormatForSupabase(StartText(cols, row))
    ensures endIso == FormatForSupabase(EndText(cols, row))
  {
    var start := StartText(cols, row);
    var end := EndText(cols, row);
    startIso := FormatForSupabase(start);
    endIso := FormatForSupabase(end);
  }

  /** The body of the data-row branch: the datetimes read and converted (or
      the row skipped), the room cleaned, and `processed_row` built from
      scratch. */
  method ProcessRow(cols: Columns, room: string, row: Row) returns (r: Option<Row>)
    ensures r == EmitRow(cols, room, row)
  {
    if !InRange(cols, row) {
      return None;
    }
    var startIso, endIso := ReadStamps(cols, row);
    var clean := CleanRoom(room);
    // the four `processed_row.append` calls, in order
    var processed: Row := [clean, startIso, endIso, Unavailable];
    return Some(processed);
  }

  /** The loop over `lines[1:]`: the rows it appends after the header. */
  method ConvertBody(lines: seq<Row>, cols: Columns) returns (out: seq<Row>)
    requires |lines| > 0
    ensures out == Collect(EmitRow, cols, DataRows(lines[1..]))
  {
    out := [];
    var room: Option<string> := None;
    assert lines[1..1] == [];
    for i := 1 to |lines|
      invariant room == RoomAfter(lines[1..i])
      invariant out == Collect(EmitRow, cols, DataRows(lines[1..i]))
    {
      var row := lines[i];
      WalkRoom(lines, i);
      if row == [] {
        CollectSkip(EmitRow, cols, lines, i);
      } else if IsHeaderRow(row) {
        room := Some(HeaderRoom(row));
        CollectSkip(EmitRow, cols, lines, i);
      } else if IsDataRow(room, row) {
        var processed := ProcessRow(cols, room.value, row);
        CollectStep(EmitRow, cols, lines, i, out, processed);
        if processed.Some? {
          out := out + [processed.value];
        }
      } else {
        CollectSkip(EmitRow, cols, lines, i);
      }
    }
    assert lines[1..|lines|] == lines[1..];
  }

  /** `convert_csv` after decoding: an empty table, then a header missing a
      datetime column, then a table with no reservation kept is refused. */
  method ConvertRows(lines: seq<Row>) returns (r: Outcome)
    ensures r == Convert(lines)
  {
    if |lines| == 0 {
      return EmptyInput;
    }
    var cols := RequiredColumns(lines[0]);
    if cols.None? {
      return MissingRequiredColumn;
    }
    var out := ConvertBody(lines, cols.value);
    if out == [] {
      return NoDataRowsFound;
    }
    return Converted([OutputHeader] + out);
  }

  /** `convert_csv` from the file's bytes. */
  method ConvertCsv(raw: seq<byte>, decode: Decoder, parse: string -> seq<Row>) returns (r: Outcome)
    ensures ReadText(raw, decode).None? ==> r == NoEncodingMatched
    ensures ReadText(raw, decode).Some? ==> r == Convert(parse(ReadText(raw, decode).value))
  {
    var detected, text := Resolve(raw, decode);
    if text.None? {
      return NoEncodingMatched;
    }
    r := ConvertRows(parse(text.value));
  }

  /** A cleaned room name holds neither a circled digit nor whitespace at
      either end, and is no longer than the room it came from. */
  lemma CleanRoomNameSpec(room: string)
    ensures NoCircled(CleanRoomName(room))
    ensures Trimmed(CleanRoomName(room))
    ensures CleanRoomName(room) == [] <==> IsBlank(RemoveFacilityNames(room))
  {
    var u := RemoveFacilityNames(room);
    var s := Strip(u);
    assert Trimmed(s);
    NormalizeClears(s);
    NormalizeKeepsTrimmed(s);
    BlankIffStripEmpty(u);
  }

  /** "×" holds no circled digit. */
  lemma UnavailablePlain()
    ensures NoCircled(Unavailable)
  {
  }

  /** The datetime cells as written: each is the composed text left as it
      was, or an ISO 8601 datetime on the minute with the Japan offset. */
  ghost predicate IsStoredStamp(cell: string, text: string) {
    cell == text || exists t :: ValidStamp(t) && t.second == 0 && cell == FormatIso(t) + JstOffset
  }

  /** A row is skipped exactly when a datetime column is out of range; a
      kept row has four cells: the cleaned room, the composed start and end
      converted by `format_for_supabase` (so each is left as composed or is
      an ISO stamp with the offset), and "×". */
  lemma EmitRowShape(cols: Columns, room: string, row: Row)
    ensures EmitRow(cols, room, row).None? <==> !InRange(cols, row)
    ensures EmitRow(cols, room, row).Some? ==>
              var out := EmitRow(cols, room, row).value;
              && |out| == 4 && out[3] == Unavailable
              && out[0] == CleanRoomName(room) && NoCircled(out[0])
              && out[1] == FormatForSupabase(StartText(cols, row))
              && out[2] == FormatForSupabase(EndText(cols, row))
              && IsStoredStamp(out[1], StartText(cols, row))
              && IsStoredStamp(out[2], EndText(cols, row))
  {
    if InRange(cols, row) {
      CleanRoomNameSpec(room);
    }
  }

  /** The shape of every row the storage converter writes after the header:
      four cells, a room name without circled digits or surrounding
      whitespace, and "×" last. */
  predicate StorageShaped(out: Row) {
    |out| == 4 && out[3] == Unavailable && NoCircled(out[0]) && Trimmed(out[0])
  }

  lemma EmitShaped(cols: Columns, room: string, row: Row)
    ensures EmitRow(cols, room, row).Some? ==> StorageShaped(EmitRow(cols, room, row).value)
  {
    CleanRoomNameSpec(room);
  }

  lemma {:induction false} CollectedShape(cols: Columns, ts: seq<Tagged>)
    ensures forall k :: 0 <= k < |Collect(EmitRow, cols, ts)| ==> StorageShaped(Collect(EmitRow, cols, ts)[k])
    decreases |ts|
  {
    if ts != [] {
      var n := |ts| - 1;
      CollectedShape(cols, ts[..n]);
      EmitShaped(cols, ts[n].room, ts[n].row);
    }
  }

  /** The ways a conversion of a parsed table ends; a converted table
      reports one record per row kept. */
  lemma ConvertOutcomes(lines: seq<Row>)
    ensures Convert(lines) == EmptyInput <==> lines == []
    ensures Convert(lines) == MissingRequiredColumn <==>
              lines != [] && (StartDate !in lines[0] || StartTime !in lines[0]
                              || EndDate !in lines[0] || EndTime !in lines[0])
    ensures Convert(lines) == NoDataRowsFound <==>
              && lines != [] && RequiredColumns(lines[0]).Some?
              && forall k :: 0 <= k < |DataRows(lines[1..])| ==>
                   !InRange(RequiredColumns(lines[0]).value, DataRows(lines[1..])[k].row)
    ensures !Convert(lines).NoEncodingMatched?
    ensures Convert(lines).Converted? ==>
              && Convert(lines).rows[0] == OutputHeader
              && 1 <= TotalRecords(Convert(lines).rows) <= |DataRows(lines[1..])|
  {
    if lines != [] && RequiredColumns(lines[0]).Some? {
      var cols := RequiredColumns(lines[0]).value;
      var ts := DataRows(lines[1..]);
      CollectEmpty(EmitRow, cols, ts);
      CollectLength(EmitRow, cols, ts);
    }
  }

  /** Every output row after the header is what some reservation row of
      the input became, and has the storage row's shape. */
  lemma OutputRowShape(lines: seq<Row>, cols: Columns, k: nat)
    requires lines != [] && RequiredColumns(lines[0]) == Some(cols)
    requires Convert(lines).Converted? && 0 < k < |Convert(lines).rows|
    ensures exists i :: MadeFrom(EmitRow, cols, DataRows(lines[1..]), i, Convert(lines).rows[k])
    ensures StorageShaped(Convert(lines).rows[k])
  {
    var ts := DataRows(lines[1..]);
    var out := Collect(EmitRow, cols, ts);
    assert Convert(lines).rows == [OutputHeader] + out;
    assert Convert(lines).rows[k] == out[k - 1];
    CollectSound(EmitRow, cols, ts, k - 1);
    CollectedShape(cols, ts);
  }

  /** Every reservation row whose datetime columns are present is output. */
  lemma EveryDataRowEmitted(lines: seq<Row>, cols: Columns, i: nat)
    requires 0 < i < |lines| && RequiredColumns(lines[0]) == Some(cols)
    requires !IsHeaderRow(lines[i]) && IsDataRow(RoomAfter(lines[1..i]), lines[i])
    requires InRange(cols, lines[i])
    ensures Convert(lines).Converted?
    ensures EmitRow(cols, RoomAfter(lines[1..i]).value, lines[i]).value in Convert(lines).rows
  {
    var rows := lines[1..];
    assert rows[..i - 1] == lines[1..i] && rows[i - 1] == lines[i];
    DataRowsComplete(rows, i - 1);
    var k :| 0 <= k < |DataRows(rows)| && DataRows(rows)[k].index == i - 1;
    DataRowAt(rows, k);
    var out := Collect(EmitRow, cols, DataRows(rows));
    CollectComplete(EmitRow, cols, DataRows(rows), k);
    assert Convert(lines) == Converted([OutputHeader] + out);
  }
}
