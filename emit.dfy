/** The walk as the display and storage converters finish it: each
    reservation row is handed to a row transformer together with the
    current room, and the transformer either builds one output row or skips
    the row (where indexing a datetime column raises `IndexError`). */
module Emit {
  import opened Wrappers
  import opened Table
  import opened Classifier

  /** A row transformer: the header's column positions, the room and the
      reservation row give the output row, or `None` when it is skipped. */
  type Transform = (Columns, string, Row) -> Option<Row>

  /** What `result_rows.append` adds for one transformer result. */
  function Kept(o: Option<Row>): seq<Row> {
    if o.Some? then [o.value] else []
  }

  /** The output rows for the reservation rows `ts`, in order. */
  function Collect(f: Transform, cols: Columns, ts: seq<Tagged>): seq<Row>
    decreases |ts|
  {
    if ts == [] then []
    else
      var t := ts[|ts| - 1];
      Collect(f, cols, ts[..|ts| - 1]) + Kept(f(cols, t.room, t.row))
  }

  lemma CollectSnoc(f: Transform, cols: Columns, ts: seq<Tagged>, t: Tagged)
    ensures Collect(f, cols, ts + [t]) == Collect(f, cols, ts) + Kept(f(cols, t.room, t.row))
  {
    assert (ts + [t])[..|ts|] == ts;
  }

  /** A data row at position `i` of the walk over `lines[1:]` appends what
      the transformer makes of it. */
  lemma CollectStep(f: Transform, cols: Columns, lines: seq<Row>, i: nat, out: seq<Row>, r: Option<Row>)
    requires 1 <= i < |lines| && out == Collect(f, cols, DataRows(lines[1..i]))
    requires !IsHeaderRow(lines[i]) && IsDataRow(RoomAfter(lines[1..i]), lines[i])
    requires r == f(cols, RoomAfter(lines[1..i]).value, lines[i])
    ensures Collect(f, cols, DataRows(lines[1..i + 1])) == out + Kept(r)
  {
    WalkData(lines, i);
    CollectSnoc(f, cols, DataRows(lines[1..i]), Tagged(i - 1, RoomAfter(lines[1..i]).value, lines[i]));
  }

  /** Any other row appends nothing. */
  lemma CollectSkip(f: Transform, cols: Columns, lines: seq<Row>, i: nat)
    requires 1 <= i < |lines|
    requires IsHeaderRow(lines[i]) || !IsDataRow(RoomAfter(lines[1..i]), lines[i])
    ensures Collect(f, cols, DataRows(lines[1..i + 1])) == Collect(f, cols, DataRows(lines[1..i]))
  {
    WalkSkip(lines, i);
  }

  /** `out` is what the transformer makes of reservation row `i` of `ts`. */
  predicate MadeFrom(f: Transform, cols: Columns, ts: seq<Tagged>, i: int, out: Row) {
    0 <= i < |ts| && f(cols, ts[i].room, ts[i].row) == Some(out)
  }

  /** Every output row is what the transformer made of some reservation row. */
  lemma {:induction false} CollectSound(f: Transform, cols: Columns, ts: seq<Tagged>, k: nat)
    requires k < |Collect(f, cols, ts)|
    ensures exists i :: MadeFrom(f, cols, ts, i, Collect(f, cols, ts)[k])
    decreases |ts|
  {
    var n := |ts| - 1;
    var p := ts[..n];
    var last := Kept(f(cols, ts[n].room, ts[n].row));
    assert Collect(f, cols, ts) == Collect(f, cols, p) + last;
    if k < |Collect(f, cols, p)| {
      CollectSound(f, cols, p, k);
      var i :| MadeFrom(f, cols, p, i, Collect(f, cols, p)[k]);
      assert ts[i] == p[i];
      assert MadeFrom(f, cols, ts, i, Collect(f, cols, ts)[k]);
    } else {
      assert MadeFrom(f, cols, ts, n, Collect(f, cols, ts)[k]);
    }
  }

  /** Every reservation row the transformer does not skip is output. */
  lemma {:induction false} CollectComplete(f: Transform, cols: Columns, ts: seq<Tagged>, i: nat)
    requires i < |ts| && f(cols, ts[i].room, ts[i].row).Some?
    ensures f(cols, ts[i].room, ts[i].row).value in Collect(f, cols, ts)
    decreases |ts|
  {
    var n := |ts| - 1;
    var p := ts[..n];
    assert Collect(f, cols, ts) == Collect(f, cols, p) + Kept(f(cols, ts[n].room, ts[n].row));
    if i < n {
      assert ts[i] == p[i];
      CollectComplete(f, cols, p, i);
    }
  }

  /** Nothing is output exactly when the transformer skips every row. */
  lemma {:induction false} CollectEmpty(f: Transform, cols: Columns, ts: seq<Tagged>)
    ensures Collect(f, cols, ts) == [] <==> forall i :: 0 <= i < |ts| ==> f(cols, ts[i].room, ts[i].row).None?
    decreases |ts|
  {
    if ts != [] {
      var n := |ts| - 1;
      var p := ts[..n];
      CollectEmpty(f, cols, p);
      assert forall i :: 0 <= i < n ==> ts[i] == p[i];
    }
  }

  /** At most one output row per reservation row. */
  lemma {:induction false} CollectLength(f: Transform, cols: Columns, ts: seq<Tagged>)
    ensures |Collect(f, cols, ts)| <= |ts|
    decreases |ts|
  {
    if ts != [] {
      CollectLength(f, cols, ts[..|ts| - 1]);
    }
  }
}
