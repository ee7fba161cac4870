/** `validate_datetime_format`: the check the storage converter runs over a
    table it wrote. Each row long enough to hold both datetime columns has
    the offset removed from its two values, which must then parse as ISO
    datetimes with the start before the end. */
module Validator {
  import opened Wrappers
  import opened Text
  import opened Table
  import opened DateTime
  import Storage

  /** What is wrong with one row. */
  datatype Problem = Malformed | Inverted

  /** One entry of `validation_errors`: the row's number (counting from 1
      below the header) and what is wrong with it. */
  datatype Issue = Issue(line: nat, problem: Problem)

  /** How the check ends. */
  datatype Report =
    | NoHeader                  // `next(reader)` fails on an empty file
    | ColumnsAbsent             // a datetime column is missing: nothing is checked
    | AllValid(rowCount: nat)   // no issue; `row_count` rows were read
    | Problems(issues: seq<Issue>)

  function Max(a: nat, b: nat): nat {
    if a < b then b else a
  }

  /** `value.replace('+09:00', '')` */
  function StripOffset(value: string): string {
    Replace(value, JstOffset, "")
  }

  /** `datetime.fromisoformat(value.replace('+09:00', ''))`; `None` where it
      raises `ValueError`. */
  function ParseValue(value: string): Option<Stamp> {
    ParseIso(StripOffset(value))
  }

  /** The verdict on one row with the datetimes in columns `si` and `ei`:
      a row too short for them is not checked. */
  function CheckRow(si: nat, ei: nat, row: Row): Option<Problem> {
    if |row| <= Max(si, ei) then None
    else
      var start := ParseValue(row[si]);
      var end := ParseValue(row[ei]);
      if start.None? || end.None? then Some(Malformed)
      else if StampBefore(start.value, end.value) then None
      else Some(Inverted)
  }

  /** A row too short for the datetime columns passes unchecked; a longer
      one is malformed exactly when a value does not parse, and inverted
      exactly when both parse and the start is not before the end. */
  lemma CheckRowCases(si: nat, ei: nat, row: Row)
    ensures |row| <= Max(si, ei) ==> CheckRow(si, ei, row).None?
    ensures CheckRow(si, ei, row) == Some(Malformed) <==>
              |row| > Max(si, ei) && (ParseValue(row[si]).None? || ParseValue(row[ei]).None?)
    ensures CheckRow(si, ei, row) == Some(Inverted) <==>
              && |row| > Max(si, ei) && ParseValue(row[si]).Some? && ParseValue(row[ei]).Some?
              && !StampBefore(ParseValue(row[si]).value, ParseValue(row[ei]).value)
  {
  }

  /** The issue entries for one row at position `n` of the body. */
  function IssueAt(n: nat, verdict: Option<Problem>): seq<Issue> {
    if verdict.Some? then [Issue(n + 1, verdict.value)] else []
  }

  /** The verdict on every row below the header, in order. */
  function Verdicts(si: nat, ei: nat, rows: seq<Row>): seq<Option<Problem>> {
    seq(|rows|, i requires 0 <= i < |rows| => CheckRow(si, ei, rows[i]))
  }

  /** The failed verdicts, each numbered by its row. */
  function Listed(vs: seq<Option<Problem>>): seq<Issue>
    decreases |vs|
  {
    if vs == [] then []
    else
      var n := |vs| - 1;
      Listed(vs[..n]) + IssueAt(n, vs[n])
  }

  /** `validation_errors` after the rows `rows` below the header. */
  function Issues(si: nat, ei: nat, rows: seq<Row>): seq<Issue> {
    Listed(Verdicts(si, ei, rows))
  }

  /** The whole check on a parsed table. */
  function Validate(table: seq<Row>): Report {
    if table == [] then NoHeader
    else
      var header := table[0];
      if Storage.StartColumn !in header || Storage.EndColumn !in header then ColumnsAbsent
      else
        var si := IndexOf(header, Storage.StartColumn).value;
        var ei := IndexOf(header, Storage.EndColumn).value;
        var issues := Issues(si, ei, table[1..]);
        if issues == [] then AllValid(|table| - 1) else Problems(issues)
  }

  /** How many issues are listed one by one. */
  const ShownLimit := 5

  /** `validation_errors[:5]` */
  function Shown(issues: seq<Issue>): seq<Issue> {
    if |issues| <= ShownLimit then issues else issues[..ShownLimit]
  }

  /** The count in the "… 他 N 件" line; 0 where that line is not printed. */
  function Hidden(issues: seq<Issue>): nat {
    if |issues| > ShownLimit then |issues| - ShownLimit else 0
  }

  lemma ListedSnoc(vs: seq<Option<Problem>>, v: Option<Problem>)
    ensures Listed(vs + [v]) == Listed(vs) + IssueAt(|vs|, v)
  {
    assert (vs + [v])[..|vs|] == vs;
  }

  /** Walking one more row of the body appends its issue, if any. */
  lemma IssuesStep(si: nat, ei: nat, table: seq<Row>, i: nat)
    requires 1 <= i < |table|
    ensures Issues(si, ei, table[1..i + 1])
            == Issues(si, ei, table[1..i]) + IssueAt(i - 1, CheckRow(si, ei, table[i]))
  {
    var vs := Verdicts(si, ei, table[1..i]);
    assert Verdicts(si, ei, table[1..i + 1]) == vs + [CheckRow(si, ei, table[i])];
    ListedSnoc(vs, CheckRow(si, ei, table[i]));
  }

  /** The `try` block for one row: the start parsed first, then the end,
      then the comparison. */
  method CheckOne(si: nat, ei: nat, row: Row) returns (verdict: Option<Problem>)
    ensures verdict == CheckRow(si, ei, row)
  {
    verdict := None;
    if |row| > Max(si, ei) {
      var start := ParseValue(row[si]);
      if start.None? {
        return Some(Malformed);
      }
      var end := ParseValue(row[ei]);
      if end.None? {
        return Some(Malformed);
      }
      if !StampBefore(start.value, end.value) {
        verdict := Some(Inverted);
      }
    }
  }

  /** `validate_datetime_format` after the file has been read: the header
      lookups, then the loop counting and checking every row. */
  method ValidateTable(table: seq<Row>) returns (r: Report)
    ensures r == Validate(table)
  {
    if |table| == 0 {
      return NoHeader;
    }
    var header := table[0];
    if !(Storage.StartColumn in header && Storage.EndColumn in header) {
      return ColumnsAbsent;
    }
    var si := IndexOf(header, Storage.StartColumn).value;
    var ei := IndexOf(header, Storage.EndColumn).value;
    var errors: seq<Issue> := [];
    var rowCount := 0;
    assert table[1..1] == [];
    for i := 1 to |table|
      invariant rowCount == i - 1
      invariant errors == Issues(si, ei, table[1..i])
    {
      rowCount := rowCount + 1;
      var verdict := CheckOne(si, ei, table[i]);
      IssuesStep(si, ei, table, i);
      if verdict.Some? {
        errors := errors + [Issue(i, verdict.value)];
      }
    }
    assert table[1..|table|] == table[1..];
    if |errors| > 0 {
      return Problems(errors);
    }
    return AllValid(rowCount);
  }

  /** Every listed issue is a failed verdict, numbered by its position
      counting from 1; the numbers increase. */
  lemma {:induction false} ListedSound(vs: seq<Option<Problem>>)
    ensures forall k :: 0 <= k < |Listed(vs)| ==>
              1 <= Listed(vs)[k].line <= |vs| && vs[Listed(vs)[k].line - 1] == Some(Listed(vs)[k].problem)
    ensures forall k, l :: 0 <= k < l < |Listed(vs)| ==> Listed(vs)[k].line < Listed(vs)[l].line
    decreases |vs|
  {
    if vs != [] {
      var n := |vs| - 1;
      ListedSound(vs[..n]);
    }
  }

  /** Every failed verdict is listed. */
  lemma {:induction false} ListedComplete(vs: seq<Option<Problem>>, i: nat)
    requires i < |vs| && vs[i].Some?
    ensures Issue(i + 1, vs[i].value) in Listed(vs)
    decreases |vs|
  {
    var n := |vs| - 1;
    if i < n {
      ListedComplete(vs[..n], i);
    }
  }

  /** Nothing is listed exactly when every verdict passes. */
  lemma {:induction false} ListedEmpty(vs: seq<Option<Problem>>)
    ensures Listed(vs) == [] <==> forall i :: 0 <= i < |vs| ==> vs[i].None?
    decreases |vs|
  {
    if vs != [] {
      var n := |vs| - 1;
      ListedEmpty(vs[..n]);
      assert forall j :: 0 <= j < n ==> vs[..n][j] == vs[j];
    }
  }

  /** Every issue names a row of the body, by its number, with the verdict
      on that row; the numbers increase. */
  lemma IssuesSound(si: nat, ei: nat, rows: seq<Row>)
    ensures forall k :: 0 <= k < |Issues(si, ei, rows)| ==>
              var e := Issues(si, ei, rows)[k];
              1 <= e.line <= |rows| && CheckRow(si, ei, rows[e.line - 1]) == Some(e.problem)
    ensures forall k, l :: 0 <= k < l < |Issues(si, ei, rows)| ==>
              Issues(si, ei, rows)[k].line < Issues(si, ei, rows)[l].line
  {
    ListedSound(Verdicts(si, ei, rows));
  }

  /** Every row with something wrong is reported. */
  lemma IssuesComplete(si: nat, ei: nat, rows: seq<Row>, i: nat)
    requires i < |rows| && CheckRow(si, ei, rows[i]).Some?
    ensures Issue(i + 1, CheckRow(si, ei, rows[i]).value) in Issues(si, ei, rows)
  {
    ListedComplete(Verdicts(si, ei, rows), i);
  }

  /** No issue exactly when every row passes. */
  lemma IssuesEmpty(si: nat, ei: nat, rows: seq<Row>)
    ensures Issues(si, ei, rows) == [] <==> forall i :: 0 <= i < |rows| ==> CheckRow(si, ei, rows[i]).None?
  {
    var vs := Verdicts(si, ei, rows);
    ListedEmpty(vs);
    assert forall i :: 0 <= i < |rows| ==> vs[i] == CheckRow(si, ei, rows[i]);
  }

  /** The ways the check ends: nothing to read, a missing datetime column,
      every row of the body passing (all of them counted, checked or not),
      or the list of what is wrong. */
  lemma ValidateOutcomes(table: seq<Row>)
    ensures Validate(table) == NoHeader <==> table == []
    ensures Validate(table) == ColumnsAbsent <==>
              table != [] && (Storage.StartColumn !in table[0] || Storage.EndColumn !in table[0])
    ensures Validate(table).AllValid? ==>
              && Validate(table).rowCount == |table| - 1
              && var si := IndexOf(table[0], Storage.StartColumn).value;
                 var ei := IndexOf(table[0], Storage.EndColumn).value;
                 forall i :: 1 <= i < |table| ==> CheckRow(si, ei, table[i]).None?
    ensures Validate(table).Problems? ==> Validate(table).issues != []
  {
    if table != [] && Storage.StartColumn in table[0] && Storage.EndColumn in table[0] {
      var si := IndexOf(table[0], Storage.StartColumn).value;
      var ei := IndexOf(table[0], Storage.EndColumn).value;
      var body := table[1..];
      IssuesEmpty(si, ei, body);
      assert forall i :: 1 <= i < |table| ==> table[i] == body[i - 1];
    }
  }

  /** At most five issues are listed; the rest are only counted, and the
      count line appears exactly when some are left out. */
  lemma ShownSpec(issues: seq<Issue>)
    ensures Shown(issues) <= issues
    ensures |Shown(issues)| <= ShownLimit
    ensures |Shown(issues)| + Hidden(issues) == |issues|
    ensures Hidden(issues) > 0 <==> |issues| > ShownLimit
  {
  }

  /** Removing the offset from a value the storage converter wrote gives
      back the ISO datetime, which parses to the stamp it was made from. */
  lemma OffsetRoundTrip(t: Stamp)
    requires ValidStamp(t) && t.second == 0
    ensures StripOffset(FormatIso(t) + JstOffset) == FormatIso(t)
    ensures ParseValue(FormatIso(t) + JstOffset) == Some(t)
  {
    var s := FormatIso(t);
    IsoHasNoPlus(t);
    forall i | 0 <= i < |s| ensures !MatchAt(s + JstOffset, JstOffset, i) {
      assert (s + JstOffset)[i] == s[i] != JstOffset[0];
    }
    ReplaceAfter(s, JstOffset, JstOffset, "");
    ReplacePrefix(JstOffset, "", "");
    assert JstOffset + "" == JstOffset;
    assert s + "" == s;
    ParseFormatIso(t);
  }

  /** A value shorter than an ISO datetime, such as an empty cell, is
      reported as malformed. */
  lemma ShortValueMalformed(value: string)
    requires |value| < 19
    ensures ParseValue(value).None?
  {
    RemoveShortens(value, JstOffset);
  }

  /** The storage converter's header puts the start in column 1 and the
      end in column 2. */
  lemma StorageColumns()
    ensures IndexOf(Storage.OutputHeader, Storage.StartColumn) == Some(1)
    ensures IndexOf(Storage.OutputHeader, Storage.EndColumn) == Some(2)
  {
    var h := Storage.OutputHeader;
    assert h[0] != Storage.StartColumn by { assert h[0][0] != Storage.StartColumn[0]; }
    assert h[1] == Storage.StartColumn;
    assert h[0] != Storage.EndColumn by { assert h[0][0] != Storage.EndColumn[0]; }
    assert h[1] != Storage.EndColumn by { assert h[1][0] != Storage.EndColumn[0]; }
    assert h[2] == Storage.EndColumn;
  }

  /** A row the storage converter writes with both datetimes converted is
      reported exactly when its start is not before its end. */
  lemma StoredRowVerdict(room: string, a: Stamp, b: Stamp)
    requires ValidStamp(a) && a.second == 0 && ValidStamp(b) && b.second == 0
    ensures CheckRow(1, 2, [room, FormatIso(a) + JstOffset, FormatIso(b) + JstOffset, Unavailable])
            == if StampBefore(a, b) then None else Some(Inverted)
  {
    OffsetRoundTrip(a);
    OffsetRoundTrip(b);
  }

  /** On a table the storage converter wrote, the check finds both
      datetime columns and looks at every row: it reports either every
      record valid, counting all of them, or issues that each name one of
      the records. */
  lemma ValidateStorageOutput(lines: seq<Row>)
    requires Storage.Convert(lines).Converted?
    ensures var rows := Storage.Convert(lines).rows;
            && (Validate(rows).AllValid? || Validate(rows).Problems?)
            && (Validate(rows).AllValid? ==> Validate(rows).rowCount == Storage.TotalRecords(rows))
            && (Validate(rows).Problems? ==>
                  forall k :: 0 <= k < |Validate(rows).issues| ==>
                    1 <= Validate(rows).issues[k].line <= Storage.TotalRecords(rows))
  {
    var rows := Storage.Convert(lines).rows;
    assert rows[0] == Storage.OutputHeader;
    StorageColumns();
    IssuesSound(1, 2, rows[1..]);
  }
}
