/** The parsed table the converters work on, their possible outcomes, and the
    header lookups `list.index` performs. */
module Table {
  import opened Wrappers

  /** One record as `csv.reader` yields it. */
  type Row = seq<string>

  /** How one call of `convert_csv` ends. Every outcome but `Converted`
      returns before the output file is opened. */
  datatype Outcome =
    | NoEncodingMatched
    | EmptyInput
    | MissingRequiredColumn
    | NoDataRowsFound
    | Converted(rows: seq<Row>)

  /** Python's `xs.index(x)`: the first position holding `x`; `None` where
      Python raises `ValueError`. */
  function IndexOf(xs: seq<string>, x: string): (r: Option<nat>)
    ensures r.None? <==> x !in xs
    ensures r.Some? ==> r.value < |xs| && xs[r.value] == x
                        && forall j :: 0 <= j < r.value ==> xs[j] != x
    decreases |xs|
  {
    if xs == [] then None
    else if xs[0] == x then Some(0)
    else match IndexOf(xs[1..], x)
      case None => None
      case Some(k) => Some(k + 1)
  }

  const StartDate := "開始日"
  const StartTime := "開始時刻"
  const EndDate := "終了日"
  const EndTime := "終了時刻"

  /** What the display and storage converters write in place of every
      reservation's purpose. */
  const Unavailable := "×"

  /** Where the four columns the datetime composition reads were found. */
  datatype Columns = Columns(startDate: nat, startTime: nat, endDate: nat, endTime: nat)

  /** The four `orig_header.index(...)` calls; `None` where one of them
      raises `ValueError`. */
  function RequiredColumns(header: Row): (r: Option<Columns>)
    ensures r.None? <==> (StartDate !in header || StartTime !in header
                          || EndDate !in header || EndTime !in header)
    ensures r.Some? ==> Some(r.value.startDate) == IndexOf(header, StartDate)
                        && Some(r.value.startTime) == IndexOf(header, StartTime)
                        && Some(r.value.endDate) == IndexOf(header, EndDate)
                        && Some(r.value.endTime) == IndexOf(header, EndTime)
  {
    match (IndexOf(header, StartDate), IndexOf(header, StartTime),
           IndexOf(header, EndDate), IndexOf(header, EndTime))
    case (Some(a), Some(b), Some(c), Some(d)) => Some(Columns(a, b, c, d))
    case _ => None
  }

  /** Indexing the row with all four columns succeeds (no `IndexError`). */
  predicate InRange(cols: Columns, row: Row) {
    cols.startDate < |row| && cols.startTime < |row| && cols.endDate < |row| && cols.endTime < |row|
  }

  /** `f"{row[kaishi_nichi_idx]} {row[kaishi_jikan_idx]}"`: the start date
      and start time joined by one space. */
  function StartText(cols: Columns, row: Row): string
    requires InRange(cols, row)
  {
    row[cols.startDate] + " " + row[cols.startTime]
  }

  /** `f"{row[shuryo_nichi_idx]} {row[shuryo_jikan_idx]}"`. */
  function EndText(cols: Columns, row: Row): string
    requires InRange(cols, row)
  {
    row[cols.endDate] + " " + row[cols.endTime]
  }

  /** A four-cell row is the display of its cells. */
  lemma FourCells(r: Row)
    requires |r| == 4
    ensures r == [r[0], r[1], r[2], r[3]]
  {
  }
}
