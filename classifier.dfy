/** The section-aware walk all three converters make over the rows below the
    header: a row naming a conference room sets the current room
    (`current_kaigishitsu`) and is not emitted; a reservation row under a
    room is emitted with that room; every other row is dropped. */
module Classifier {
  import opened Wrappers
  import opened Text
  import opened Table

  /** "conference room": the word a room-header row holds in field 1. */
  const RoomMarker := "会議室"

  /** `len(row) > 1 and '会議室' in row[1] and (len(row) <= 2 or not row[2].strip())` */
  predicate IsHeaderRow(row: Row) {
    |row| > 1 && Contains(row[1], RoomMarker) && (|row| <= 2 || IsBlank(row[2]))
  }

  /** The room a header row announces: `row[1].strip()`. */
  function HeaderRoom(row: Row): string
    requires |row| > 1
  {
    Strip(row[1])
  }

  /** Python's truth test on `current_kaigishitsu`: neither `None` nor empty. */
  predicate IsSet(room: Option<string>) {
    room.Some? && room.value != ""
  }

  /** `current_kaigishitsu and len(row) > 2 and row[2].strip()` */
  predicate IsDataRow(room: Option<string>, row: Row) {
    IsSet(room) && |row| > 2 && !IsBlank(row[2])
  }

  /** A header always carries a non-empty room, because the marker it
      holds is not whitespace. */
  lemma HeaderRoomIsSet(row: Row)
    requires IsHeaderRow(row)
    ensures IsSet(Some(HeaderRoom(row)))
  {
    ContainsNonSpaceNotBlank(row[1], RoomMarker, 0);
    BlankIffStripEmpty(row[1]);
  }

  /** No row is both a header row and a data row. */
  lemma HeaderIsNotData(room: Option<string>, row: Row)
    ensures !(IsHeaderRow(row) && IsDataRow(room, row))
  {
  }

  /** The value of `current_kaigishitsu` once `rows` have been walked. */
  function RoomAfter(rows: seq<Row>): Option<string>
    decreases |rows|
  {
    if rows == [] then None
    else
      var last := rows[|rows| - 1];
      if IsHeaderRow(last) then Some(HeaderRoom(last)) else RoomAfter(rows[..|rows| - 1])
  }

  /** A reservation row as the walk passes it to a row transformer: its
      position among the walked rows, the room it belongs to, its fields. */
  datatype Tagged = Tagged(index: nat, room: string, row: Row)

  /** The data rows of `rows`, in order, each with the room current when it
      was read. */
  function DataRows(rows: seq<Row>): seq<Tagged>
    decreases |rows|
  {
    if rows == [] then []
    else
      var n := |rows| - 1;
      var before := RoomAfter(rows[..n]);
      DataRows(rows[..n])
        + if !IsHeaderRow(rows[n]) && IsDataRow(before, rows[n]) then [Tagged(n, before.value, rows[n])] else []
  }

  /** Walking one more row: a header row replaces the current room, any
      other row keeps it. */
  lemma StepRoom(rows: seq<Row>, row: Row)
    ensures RoomAfter(rows + [row])
            == if IsHeaderRow(row) then Some(HeaderRoom(row)) else RoomAfter(rows)
  {
    var q := rows + [row];
    assert q[..|q| - 1] == rows && q[|q| - 1] == row;
  }

  /** Walking one more row: a data row under a room is appended with that
      room, any other row adds nothing. */
  lemma StepData(rows: seq<Row>, row: Row)
    ensures DataRows(rows + [row])
            == DataRows(rows)
               + if !IsHeaderRow(row) && IsDataRow(RoomAfter(rows), row)
                 then [Tagged(|rows|, RoomAfter(rows).value, row)] else []
  {
    var q := rows + [row];
    assert q[..|q| - 1] == rows && q[|q| - 1] == row;
  }

  /** `StepRoom` for the walk over `lines[1:]`, at row `i`. */
  lemma WalkRoom(lines: seq<Row>, i: nat)
    requires 1 <= i < |lines|
    ensures RoomAfter(lines[1..i + 1])
            == if IsHeaderRow(lines[i]) then Some(HeaderRoom(lines[i])) else RoomAfter(lines[1..i])
  {
    StepRoom(lines[1..i], lines[i]);
    assert lines[1..i + 1] == lines[1..i] + [lines[i]];
  }

  /** `StepData` for the walk over `lines[1:]`, at a row `i` that is not
      a data row: nothing is added. */
  lemma WalkSkip(lines: seq<Row>, i: nat)
    requires 1 <= i < |lines|
    requires IsHeaderRow(lines[i]) || !IsDataRow(RoomAfter(lines[1..i]), lines[i])
    ensures DataRows(lines[1..i + 1]) == DataRows(lines[1..i])
  {
    StepData(lines[1..i], lines[i]);
    assert lines[1..i + 1] == lines[1..i] + [lines[i]];
  }

  /** `StepData` for the walk over `lines[1:]`, at a data row `i`. */
  lemma WalkData(lines: seq<Row>, i: nat)
    requires 1 <= i < |lines|
    requires !IsHeaderRow(lines[i]) && IsDataRow(RoomAfter(lines[1..i]), lines[i])
    ensures DataRows(lines[1..i + 1])
            == DataRows(lines[1..i]) + [Tagged(i - 1, RoomAfter(lines[1..i]).value, lines[i])]
  {
    StepData(lines[1..i], lines[i]);
    assert lines[1..i + 1] == lines[1..i] + [lines[i]];
  }

  /** There is no current room until the first header row. */
  lemma {:induction false} NoRoomWithoutHeader(rows: seq<Row>)
    ensures RoomAfter(rows).None? <==> forall j :: 0 <= j < |rows| ==> !IsHeaderRow(rows[j])
    decreases |rows|
  {
    if rows != [] {
      var n := |rows| - 1;
      var p := rows[..n];
      NoRoomWithoutHeader(p);
      assert forall j :: 0 <= j < n ==> rows[j] == p[j];
    }
  }

  /** Row `j` is a header row and no header row follows it before
      position `n`. */
  predicate LastHeaderBefore(rows: seq<Row>, j: int, n: int) {
    0 <= j < n <= |rows| && IsHeaderRow(rows[j])
    && forall m :: j < m < n ==> !IsHeaderRow(rows[m])
  }

  /** Positions below `n` are the same in `rows` and in `rows[..n]`. */
  lemma PrefixSection(rows: seq<Row>, j: int, n: nat)
    requires n <= |rows| && LastHeaderBefore(rows[..n], j, n)
    ensures LastHeaderBefore(rows, j, n) && rows[j] == rows[..n][j]
  {
    forall m | j < m < n ensures !IsHeaderRow(rows[m]) {
      assert rows[m] == rows[..n][m];
    }
  }

  /** The current room is the room of the last header row walked. */
  lemma {:induction false} RoomIsLastHeader(rows: seq<Row>)
    requires RoomAfter(rows).Some?
    ensures exists j {:trigger LastHeaderBefore(rows, j, |rows|)} ::
              LastHeaderBefore(rows, j, |rows|) && RoomAfter(rows).value == HeaderRoom(rows[j])
    decreases |rows|
  {
    var n := |rows| - 1;
    if IsHeaderRow(rows[n]) {
      assert LastHeaderBefore(rows, n, |rows|) && RoomAfter(rows).value == HeaderRoom(rows[n]);
    } else {
      var p := rows[..n];
      assert RoomAfter(rows) == RoomAfter(p);
      RoomIsLastHeader(p);
      var j :| LastHeaderBefore(p, j, n) && RoomAfter(p).value == HeaderRoom(p[j]);
      PrefixSection(rows, j, n);
      assert !IsHeaderRow(rows[n]);
      assert LastHeaderBefore(rows, j, |rows|) && RoomAfter(rows).value == HeaderRoom(rows[j]);
    }
  }

  /** Once set, the current room is never empty. */
  lemma {:induction false} RoomIsSet(rows: seq<Row>)
    ensures RoomAfter(rows).Some? ==> IsSet(RoomAfter(rows))
    decreases |rows|
  {
    if rows != [] {
      RoomIsSet(rows[..|rows| - 1]);
      if IsHeaderRow(rows[|rows| - 1]) {
        HeaderRoomIsSet(rows[|rows| - 1]);
      }
    }
  }

  /** Walking one more row extends the data rows found so far. */
  lemma {:induction false} DataRowsPrefix(rows: seq<Row>, i: nat)
    requires i <= |rows|
    ensures DataRows(rows[..i]) <= DataRows(rows)
    decreases |rows| - i
  {
    if i < |rows| {
      DataRowsPrefix(rows, i + 1);
      var q := rows[..i + 1];
      assert q[..|q| - 1] == rows[..i];
      assert DataRows(rows[..i]) <= DataRows(q);
    } else {
      assert rows[..i] == rows;
    }
  }

  /** Every data row found is a row of the input at its recorded position,
      it passes the data-row test under the room current at that point,
      that room is the one it carries, and positions increase. */
  lemma {:induction false} DataRowsSound(rows: seq<Row>)
    ensures forall k :: 0 <= k < |DataRows(rows)| ==>
              var t := DataRows(rows)[k];
              && t.index < |rows| && rows[t.index] == t.row
              && RoomAfter(rows[..t.index]) == Some(t.room)
              && IsDataRow(Some(t.room), t.row) && !IsHeaderRow(t.row)
    ensures forall k, l :: 0 <= k < l < |DataRows(rows)| ==>
              DataRows(rows)[k].index < DataRows(rows)[l].index
    decreases |rows|
  {
    if rows != [] {
      var n := |rows| - 1;
      var p := rows[..n];
      DataRowsSound(p);
      assert forall j :: 0 <= j < n ==> rows[j] == p[j] && rows[..j] == p[..j];
    }
  }

  /** `DataRowsSound` for the one data row at position `k`. */
  lemma DataRowAt(rows: seq<Row>, k: nat)
    requires k < |DataRows(rows)|
    ensures var t := DataRows(rows)[k];
            && t.index < |rows| && rows[t.index] == t.row
            && RoomAfter(rows[..t.index]) == Some(t.room)
            && IsDataRow(Some(t.room), t.row) && !IsHeaderRow(t.row)
    ensures 0 < k ==> DataRows(rows)[k - 1].index < DataRows(rows)[k].index
  {
    DataRowsSound(rows);
  }

  /** Every row that passes the data-row test under the current room is found. */
  lemma {:induction false} DataRowsComplete(rows: seq<Row>, i: nat)
    requires i < |rows| && !IsHeaderRow(rows[i]) && IsDataRow(RoomAfter(rows[..i]), rows[i])
    ensures exists k :: 0 <= k < |DataRows(rows)| && DataRows(rows)[k].index == i
  {
    DataRowsPrefix(rows, i + 1);
    var q := rows[..i + 1];
    assert q[..i] == rows[..i] && q[i] == rows[i];
    var k := |DataRows(q)| - 1;
    assert DataRows(rows)[k] == DataRows(q)[k];
  }

  /** Rows before the first header row never produce output: no data row is
      found at a position that no earlier header row covers. */
  lemma NoDataBeforeFirstHeader(rows: seq<Row>, i: nat)
    requires i <= |rows| && forall j :: 0 <= j < i ==> !IsHeaderRow(rows[j])
    ensures forall k :: 0 <= k < |DataRows(rows)| ==> DataRows(rows)[k].index >= i
  {
    DataRowsSound(rows);
    forall k | 0 <= k < |DataRows(rows)| ensures DataRows(rows)[k].index >= i {
      var m := DataRows(rows)[k].index;
      if m < i {
        NoRoomWithoutHeader(rows[..m]);
      }
    }
  }

  /** The room a data row is emitted with is that of the closest header row
      above it. */
  lemma DataRoomIsClosestHeader(rows: seq<Row>, k: nat)
    requires k < |DataRows(rows)|
    ensures var t := DataRows(rows)[k];
            && t.index < |rows|
            && exists j {:trigger LastHeaderBefore(rows, j, t.index)} ::
                 LastHeaderBefore(rows, j, t.index) && t.room == HeaderRoom(rows[j])
  {
    DataRowAt(rows, k);
    var t := DataRows(rows)[k];
    var p := rows[..t.index];
    RoomIsLastHeader(p);
    var j :| LastHeaderBefore(p, j, t.index) && RoomAfter(p).value == HeaderRoom(p[j]);
    PrefixSection(rows, j, t.index);
    assert LastHeaderBefore(rows, j, t.index) && t.room == HeaderRoom(rows[j]);
  }

  /** Only a header row can make a data row appear: with no header row at
      all, nothing is emitted. */
  lemma NoHeaderNoData(rows: seq<Row>)
    requires forall j :: 0 <= j < |rows| ==> !IsHeaderRow(rows[j])
    ensures DataRows(rows) == []
  {
    NoDataBeforeFirstHeader(rows, |rows|);
    DataRowsSound(rows);
  }
}
