/** The first converter (`main_step1.py`): every reservation row is kept
    whole with the current room put in front of it, and circled digits are
    replaced in every cell of it. The header row gains a room column. */
module Passthrough {
  import opened Wrappers
  import opened Text
  import opened Table
  import opened Classifier
  import opened CircledDigits
  import opened Encoding

  /** The column inserted in front of the original header. */
  const RoomColumn := "会議室名"

  /** `header_row.insert(0, '会議室名')`; the header is not normalized. */
  function OutputHeader(header: Row): Row {
    [RoomColumn] + header
  }

  /** What one reservation row becomes. */
  function EmitRow(t: Tagged): Row {
    NormalizeCells([t.room] + t.row)
  }

  /** One output row per reservation row, in order. */
  function Emitted(ts: seq<Tagged>): seq<Row> {
    seq(|ts|, k requires 0 <= k < |ts| => EmitRow(ts[k]))
  }

  lemma EmittedSnoc(ts: seq<Tagged>, t: Tagged)
    ensures Emitted(ts + [t]) == Emitted(ts) + [EmitRow(t)]
  {
  }

  /** An output row is the room followed by the row's own fields, in their
      order, each cell normalized. */
  lemma EmitRowShape(t: Tagged)
    ensures |EmitRow(t)| == |t.row| + 1
    ensures EmitRow(t)[0] == Normalize(t.room)
    ensures forall f :: 0 <= f < |t.row| ==> EmitRow(t)[f + 1] == Normalize(t.row[f])
  {
    var cells := [t.room] + t.row;
    var r := EmitRow(t);
    assert r == NormalizeCells(cells) && |r| == |cells|;
    assert r[0] == Substitution(cells[0]) && cells[0] == t.room;
    forall f | 0 <= f < |t.row| ensures r[f + 1] == Normalize(t.row[f]) {
      assert r[f + 1] == Substitution(cells[f + 1]);
      assert cells[f + 1] == t.row[f];
    }
  }

  /** The whole conversion of a parsed table. */
  function Convert(lines: seq<Row>): Outcome {
    if lines == [] then EmptyInput
    else
      var out := Emitted(DataRows(lines[1..]));
      if out == [] then NoDataRowsFound else Converted([OutputHeader(lines[0])] + out)
  }

  /** A reservation row extends the output by its converted row. */
  lemma DataStep(lines: seq<Row>, i: nat, out: seq<Row>, newRow: Row)
    requires 1 <= i < |lines| && out == Emitted(DataRows(lines[1..i]))
    requires !IsHeaderRow(lines[i]) && IsDataRow(RoomAfter(lines[1..i]), lines[i])
    requires newRow == NormalizeCells([RoomAfter(lines[1..i]).value] + lines[i])
    ensures out + [newRow] == Emitted(DataRows(lines[1..i + 1]))
  {
    WalkData(lines, i);
    EmittedSnoc(DataRows(lines[1..i]), Tagged(i - 1, RoomAfter(lines[1..i]).value, lines[i]));
  }

  /** The loop over `lines[1:]`, with `current_kaigishitsu` as `room`:
      the rows it appends after the header, in order. */
  method ConvertBody(lines: seq<Row>) returns (out: seq<Row>)
    requires |lines| > 0
    ensures out == Emitted(DataRows(lines[1..]))
  {
    out := [];
    var room: Option<string> := None;
    assert lines[1..1] == [];
    for i := 1 to |lines|
      invariant room == RoomAfter(lines[1..i])
      invariant out == Emitted(DataRows(lines[1..i]))
    {
      var row := lines[i];
      WalkRoom(lines, i);
      if row == [] {
        // an empty record is skipped
        WalkSkip(lines, i);
      } else if IsHeaderRow(row) {
        room := Some(HeaderRoom(row));
        WalkSkip(lines, i);
      } else if IsDataRow(room, row) {
        var newRow := CopyWithRoom(room.value, row);
        DataStep(lines, i, out, newRow);
        out := out + [newRow];
      } else {
        WalkSkip(lines, i);
      }
    }
    assert lines[1..|lines|] == lines[1..];
  }

  /** `convert_csv` after decoding: an empty table is refused, the header
      gains the room column, and a table whose `result_rows` holds only the
      header (`len(result_rows) <= 1`) is refused. */
  method ConvertRows(lines: seq<Row>) returns (r: Outcome)
    ensures r == Convert(lines)
  {
    if |lines| == 0 {
      return EmptyInput;
    }
    var out := ConvertBody(lines);
    if out == [] {
      return NoDataRowsFound;
    }
    var header := OutputHeader(lines[0]);
    return Converted([header] + out);
  }

  /** `new_row = row[:]`, `new_row.insert(0, room)`, then the `for j` loop
      rewriting each cell. */
  method CopyWithRoom(room: string, row: Row) returns (newRow: Row)
    ensures newRow == NormalizeCells([room] + row)
  {
    newRow := [room] + row;
    newRow := NormalizeEach(newRow);
  }

  /** `convert_csv` from the file's bytes: the encoding search, then
      `csv.reader` (the parameter `parse`), then the conversion. */
  method ConvertCsv(raw: seq<byte>, decode: Decoder, parse: string -> seq<Row>) returns (r: Outcome)
    ensures ReadText(raw, decode).None? ==> r == NoEncodingMatched
    ensures ReadText(raw, decode).Some? ==> r == Convert(parse(ReadText(raw, decode).value))
  {
    var detected, text := Resolve(raw, decode);
    if text.None? {
      return NoEncodingMatched;
    }
    r := ConvertRows(parse(text.value));
  }

  /** The ways a conversion ends: an empty table, no reservation row, or
      the header followed by one output row per reservation row. */
  lemma ConvertOutcomes(lines: seq<Row>)
    ensures Convert(lines) == EmptyInput <==> lines == []
    ensures Convert(lines) == NoDataRowsFound <==> lines != [] && DataRows(lines[1..]) == []
    ensures !Convert(lines).MissingRequiredColumn? && !Convert(lines).NoEncodingMatched?
    ensures Convert(lines).Converted? ==>
              && Convert(lines).rows[0] == [RoomColumn] + lines[0]
              && |Convert(lines).rows| == |DataRows(lines[1..])| + 1
  {
    if lines != [] && DataRows(lines[1..]) != [] {
      assert Emitted(DataRows(lines[1..]))[0] == EmitRow(DataRows(lines[1..])[0]);
    }
  }

  /** Each output row is a reservation row of the input, in input order,
      with the room of the closest header row above it in front, all cells
      normalized and the original field order kept. */
  lemma OutputRowShape(lines: seq<Row>, k: nat)
    requires Convert(lines).Converted? && 0 < k < |Convert(lines).rows|
    ensures var t := DataRows(lines[1..])[k - 1];
            var out := Convert(lines).rows[k];
            && 0 < t.index + 1 < |lines| && t.row == lines[t.index + 1]
            && IsDataRow(Some(t.room), t.row) && !IsHeaderRow(t.row)
            && |out| == |t.row| + 1
            && out[0] == Normalize(t.room)
            && (forall f :: 0 <= f < |t.row| ==> out[f + 1] == Normalize(t.row[f]))
            && NoCircled(out[0])
    ensures 1 < k ==> DataRows(lines[1..])[k - 2].index < DataRows(lines[1..])[k - 1].index
  {
    var rows := lines[1..];
    DataRowAt(rows, k - 1);
    var t := DataRows(rows)[k - 1];
    assert rows[t.index] == lines[t.index + 1];
    assert Convert(lines).rows[k] == EmitRow(t);
    EmitRowShape(t);
    NormalizeSpec(t.room, "", "", ' ');
  }

  /** Every reservation row of the input appears in the output. */
  lemma EveryDataRowEmitted(lines: seq<Row>, i: nat)
    requires 0 < i < |lines| && !IsHeaderRow(lines[i]) && IsDataRow(RoomAfter(lines[1..i]), lines[i])
    ensures Convert(lines).Converted?
    ensures exists k :: 0 < k < |Convert(lines).rows|
                        && Convert(lines).rows[k] == EmitRow(Tagged(i - 1, RoomAfter(lines[1..i]).value, lines[i]))
  {
    var rows := lines[1..];
    assert rows[..i - 1] == lines[1..i] && rows[i - 1] == lines[i];
    DataRowsComplete(rows, i - 1);
    var k :| 0 <= k < |DataRows(rows)| && DataRows(rows)[k].index == i - 1;
    DataRowAt(rows, k);
    assert Convert(lines).rows[k + 1] == EmitRow(DataRows(rows)[k]);
  }

  /** Rows above the first header row never reach the output. */
  lemma NothingBeforeFirstHeader(lines: seq<Row>, i: nat)
    requires 0 < i <= |lines| && forall j :: 0 < j < i ==> !IsHeaderRow(lines[j])
    ensures forall k :: 0 <= k < |DataRows(lines[1..])| ==> DataRows(lines[1..])[k].index + 1 >= i
  {
    var rows := lines[1..];
    forall j | 0 <= j < i - 1 ensures !IsHeaderRow(rows[j]) {
      assert rows[j] == lines[j + 1];
    }
    NoDataBeforeFirstHeader(rows, i - 1);
  }
}
