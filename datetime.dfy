/** The date and time handling of the storage converter: `fix_time_format`
    folds the end-of-day notation "24:00" into midnight of the next day,
    `format_for_supabase` renders "YYYY/MM/DD HH:MM" as ISO 8601 with the
    fixed offset +09:00, and the validator reads such stamps back with
    `datetime.fromisoformat`. Only the zero-padded forms are modelled. */
module DateTime {
  import opened Wrappers
  import opened Text

  datatype Date = Date(year: int, month: int, day: int)

  /** A naive `datetime` (no time zone). */
  datatype Stamp = Stamp(date: Date, hour: int, minute: int, second: int)

  const MaxYear := 9999

  predicate IsLeapYear(y: int) {
    y % 4 == 0 && (y % 100 != 0 || y % 400 == 0)
  }

  function DaysInMonth(y: int, m: int): int
    requires 1 <= m <= 12
  {
    if m == 2 then (if IsLeapYear(y) then 29 else 28)
    else if m == 4 || m == 6 || m == 9 || m == 11 then 30
    else 31
  }

  /** The dates Python's `date` can hold. */
  predicate ValidDate(d: Date) {
    1 <= d.year <= MaxYear && 1 <= d.month <= 12 && 1 <= d.day <= DaysInMonth(d.year, d.month)
  }

  predicate ValidStamp(t: Stamp) {
    ValidDate(t.date) && 0 <= t.hour < 24 && 0 <= t.minute < 60 && 0 <= t.second < 60
  }

  /** `date + timedelta(days=1)`; `None` where Python raises `OverflowError`. */
  function NextDay(d: Date): (r: Option<Date>)
    requires ValidDate(d)
    ensures r.Some? ==> ValidDate(r.value)
    ensures r.None? <==> d == Date(MaxYear, 12, 31)
  {
    if d.day < DaysInMonth(d.year, d.month) then Some(Date(d.year, d.month, d.day + 1))
    else if d.month < 12 then Some(Date(d.year, d.month + 1, 1))
    else if d.year < MaxYear then Some(Date(d.year + 1, 1, 1))
    else None
  }

  // ---------------------------------------------------------------------
  // Reference numbering of days: the proleptic Gregorian ordinal.

  function YearLength(y: int): int {
    if IsLeapYear(y) then 366 else 365
  }

  function DaysBeforeYear(y: int): int
    requires y >= 1
    decreases y
  {
    if y == 1 then 0 else DaysBeforeYear(y - 1) + YearLength(y - 1)
  }

  function DaysBeforeMonth(y: int, m: int): int
    requires 1 <= m <= 12
  {
    [0, 31, 59, 90, 120, 151, 181, 212, 243, 273, 304, 334][m - 1]
      + if m > 2 && IsLeapYear(y) then 1 else 0
  }

  /** Day 1 is 0001/01/01, as Python's `date.toordinal()`. */
  function Ordinal(d: Date): int
    requires ValidDate(d)
  {
    DaysBeforeYear(d.year) + DaysBeforeMonth(d.year, d.month) + d.day
  }

  lemma MonthStep(y: int, m: int)
    requires 1 <= m < 12
    ensures DaysBeforeMonth(y, m + 1) == DaysBeforeMonth(y, m) + DaysInMonth(y, m)
  {
  }

  lemma YearFits(y: int, m: int, day: int)
    requires 1 <= m <= 12 && day <= DaysInMonth(y, m)
    ensures DaysBeforeMonth(y, m) + day <= YearLength(y)
  {
  }

  lemma {:induction false} DaysBeforeYearGrows(a: int, b: int)
    requires 1 <= a < b
    ensures DaysBeforeYear(a) + YearLength(a) <= DaysBeforeYear(b)
    decreases b - a
  {
    if a + 1 < b {
      DaysBeforeYearGrows(a + 1, b);
    }
  }

  lemma {:induction false} MonthsGrow(y: int, a: int, b: int)
    requires 1 <= a < b <= 12
    ensures DaysBeforeMonth(y, a) + DaysInMonth(y, a) <= DaysBeforeMonth(y, b)
    decreases b - a
  {
    MonthStep(y, a);
    if a + 1 < b {
      MonthsGrow(y, a + 1, b);
    }
  }

  /** Earlier in the calendar, as `date` compares. */
  predicate DateBefore(a: Date, b: Date) {
    a.year < b.year
    || (a.year == b.year && (a.month < b.month || (a.month == b.month && a.day < b.day)))
  }

  /** The ordinal numbers valid dates in calendar order. */
  lemma OrdinalMonotone(a: Date, b: Date)
    requires ValidDate(a) && ValidDate(b) && DateBefore(a, b)
    ensures Ordinal(a) < Ordinal(b)
  {
    if a.year < b.year {
      YearFits(a.year, a.month, a.day);
      DaysBeforeYearGrows(a.year, b.year);
    } else if a.month < b.month {
      MonthsGrow(a.year, a.month, b.month);
    }
  }

  /** The day after `d` is numbered one more than `d`. */
  lemma NextDayOrdinal(d: Date)
    requires ValidDate(d) && NextDay(d).Some?
    ensures Ordinal(NextDay(d).value) == Ordinal(d) + 1
  {
    if d.day == DaysInMonth(d.year, d.month) {
      if d.month < 12 {
        MonthStep(d.year, d.month);
      } else {
        assert DaysBeforeYear(d.year + 1) == DaysBeforeYear(d.year) + YearLength(d.year);
      }
    }
  }

  /** `NextDay` is calendar-correct: it returns a later date and no valid
      date lies strictly between the two. */
  lemma NextDayIsSuccessor(d: Date, e: Date)
    requires ValidDate(d) && NextDay(d).Some? && ValidDate(e)
    ensures DateBefore(d, NextDay(d).value)
    ensures DateBefore(d, e) ==> !DateBefore(e, NextDay(d).value)
  {
    NextDayOrdinal(d);
    var n := NextDay(d).value;
    if DateBefore(d, e) {
      OrdinalMonotone(d, e);
      if DateBefore(e, n) {
        OrdinalMonotone(e, n);
      }
    }
  }

  /** Month and year roll over. */
  lemma NextDayExamples()
    ensures NextDay(Date(2024, 12, 31)) == Some(Date(2025, 1, 1))
    ensures NextDay(Date(2024, 2, 28)) == Some(Date(2024, 2, 29))
    ensures NextDay(Date(2023, 2, 28)) == Some(Date(2023, 3, 1))
    ensures NextDay(Date(2024, 3, 31)) == Some(Date(2024, 4, 1))
  {
  }

  // ---------------------------------------------------------------------
  // Zero-padded decimal fields.

  function Pow10(n: nat): nat {
    if n == 0 then 1 else 10 * Pow10(n - 1)
  }

  predicate IsDigit(c: char) {
    '0' <= c <= '9'
  }

  /** The last `width` decimal digits of `n`, zero-padded (`%02d`, `%04d`). */
  function Digits(n: nat, width: nat): (r: string)
    ensures |r| == width && forall k :: 0 <= k < |r| ==> IsDigit(r[k])
  {
    if width == 0 then [] else Digits(n / 10, width - 1) + [('0' as int + n % 10) as char]
  }

  /** The value of a string of decimal digits; `None` if some character is not one. */
  function ParseDigits(s: string): Option<nat>
    decreases |s|
  {
    if s == [] then Some(0)
    else if !IsDigit(s[|s| - 1]) then None
    else match ParseDigits(s[..|s| - 1])
      case None => None
      case Some(v) => Some(10 * v + (s[|s| - 1] as int - '0' as int))
  }

  lemma {:induction false} DigitsRoundTrip(n: nat, width: nat)
    requires n < Pow10(width)
    ensures ParseDigits(Digits(n, width)) == Some(n)
  {
    if width > 0 {
      DigitsRoundTrip(n / 10, width - 1);
      var s := Digits(n, width);
      assert s[..|s| - 1] == Digits(n / 10, width - 1);
    }
  }

  /** A two-digit field below `bound` (`%m`, `%d`, `%H`, `%M`, `%S`, padded). */
  function ParseField(s: string, bound: nat): Option<nat> {
    if |s| == 2 then
      match ParseDigits(s)
      case Some(v) => if v < bound then Some(v) else None
      case None => None
    else None
  }

  /** `datetime.strptime(s, '%Y/%m/%d')` (with `sep` '/'), or the date part
      `fromisoformat` reads (with `sep` '-'). */
  function ParseDate(s: string, sep: char): (r: Option<Date>)
    ensures r.Some? ==> ValidDate(r.value)
  {
    if |s| == 10 && s[4] == sep && s[7] == sep then
      match (ParseDigits(s[..4]), ParseField(s[5..7], 13), ParseField(s[8..], 32))
      case (Some(y), Some(m), Some(d)) =>
        if ValidDate(Date(y, m, d)) then Some(Date(y, m, d)) else None
      case _ => None
    else None
  }

  function FormatDate(d: Date, sep: char): (r: string)
    requires ValidDate(d)
    ensures |r| == 10
  {
    Digits(d.year, 4) + [sep] + Digits(d.month, 2) + [sep] + Digits(d.day, 2)
  }

  lemma ParseFormatDate(d: Date, sep: char)
    requires ValidDate(d) && !IsDigit(sep)
    ensures ParseDate(FormatDate(d, sep), sep) == Some(d)
  {
    var s := FormatDate(d, sep);
    assert s[..4] == Digits(d.year, 4);
    assert s[5..7] == Digits(d.month, 2);
    assert s[8..] == Digits(d.day, 2);
    DigitsRoundTrip(d.year, 4);
    DigitsRoundTrip(d.month, 2);
    DigitsRoundTrip(d.day, 2);
  }

  /** `datetime.strptime(s, '%Y/%m/%d %H:%M')` */
  function ParseLocal(s: string): (r: Option<Stamp>)
    ensures r.Some? ==> ValidStamp(r.value) && r.value.second == 0
  {
    if |s| == 16 && s[10] == ' ' && s[13] == ':' then
      match (ParseDate(s[..10], '/'), ParseField(s[11..13], 24), ParseField(s[14..], 60))
      case (Some(d), Some(h), Some(m)) => Some(Stamp(d, h, m, 0))
      case _ => None
    else None
  }

  /** `t.strftime('%Y/%m/%d %H:%M')` */
  function FormatLocal(t: Stamp): (r: string)
    requires ValidStamp(t)
    ensures |r| == 16
  {
    FormatDate(t.date, '/') + " " + Digits(t.hour, 2) + ":" + Digits(t.minute, 2)
  }

  lemma ParseFormatLocal(t: Stamp)
    requires ValidStamp(t) && t.second == 0
    ensures ParseLocal(FormatLocal(t)) == Some(t)
  {
    var s := FormatLocal(t);
    assert s[..10] == FormatDate(t.date, '/');
    assert s[11..13] == Digits(t.hour, 2);
    assert s[14..] == Digits(t.minute, 2);
    ParseFormatDate(t.date, '/');
    DigitsRoundTrip(t.hour, 2);
    DigitsRoundTrip(t.minute, 2);
  }

  /** `datetime.fromisoformat(s)` on the form "YYYY-MM-DDTHH:MM:SS". */
  function ParseIso(s: string): (r: Option<Stamp>)
    ensures r.Some? ==> ValidStamp(r.value)
  {
    if |s| == 19 && s[10] == 'T' && s[13] == ':' && s[16] == ':' then
      match (ParseDate(s[..10], '-'), ParseField(s[11..13], 24),
             ParseField(s[14..16], 60), ParseField(s[17..], 60))
      case (Some(d), Some(h), Some(m), Some(sec)) => Some(Stamp(d, h, m, sec))
      case _ => None
    else None
  }

  /** The fixed UTC offset the storage converter appends (JST). */
  const JstOffset := "+09:00"

  /** `t.strftime('%Y-%m-%dT%H:%M:00')`: the seconds are written as a literal "00". */
  function FormatIso(t: Stamp): (r: string)
    requires ValidStamp(t)
    ensures |r| == 19
  {
    FormatDate(t.date, '-') + "T" + Digits(t.hour, 2) + ":" + Digits(t.minute, 2) + ":00"
  }

  /** A rendered ISO datetime holds no '+', so the offset never starts
      inside it. */
  lemma IsoHasNoPlus(t: Stamp)
    requires ValidStamp(t)
    ensures forall k :: 0 <= k < 19 ==> FormatIso(t)[k] != '+'
  {
    var s := FormatIso(t);
    var ds := FormatDate(t.date, '-');
    forall k | 0 <= k < 19 ensures s[k] != '+' {
      if k < 10 {
        assert s[k] == ds[k];
        if k < 4 {
          assert ds[k] == Digits(t.date.year, 4)[k];
        } else if 4 < k < 7 {
          assert ds[k] == Digits(t.date.month, 2)[k - 5];
        } else if 7 < k {
          assert ds[k] == Digits(t.date.day, 2)[k - 8];
        }
      } else if 10 < k < 13 {
        assert s[k] == Digits(t.hour, 2)[k - 11];
      } else if 13 < k < 16 {
        assert s[k] == Digits(t.minute, 2)[k - 14];
      }
    }
  }

  /** Earlier in time, as naive `datetime` values compare. */
  predicate StampBefore(a: Stamp, b: Stamp) {
    || DateBefore(a.date, b.date)
    || (a.date == b.date
        && (a.hour < b.hour
            || (a.hour == b.hour && (a.minute < b.minute || (a.minute == b.minute && a.second < b.second)))))
  }

  /** The comparison is a strict total order: of two stamps exactly one is
      earlier, or they are equal. */
  lemma StampOrder(a: Stamp, b: Stamp)
    ensures !(StampBefore(a, b) && StampBefore(b, a))
    ensures !StampBefore(a, a)
    ensures StampBefore(a, b) || a == b || StampBefore(b, a)
  {
  }

  lemma ParseFormatIso(t: Stamp)
    requires ValidStamp(t) && t.second == 0
    ensures ParseIso(FormatIso(t)) == Some(t)
  {
    var s := FormatIso(t);
    assert s[..10] == FormatDate(t.date, '-');
    assert s[11..13] == Digits(t.hour, 2);
    assert s[14..16] == Digits(t.minute, 2);
    assert s[17..] == "00";
    assert ParseDigits("00") == Some(0);
    ParseFormatDate(t.date, '-');
    DigitsRoundTrip(t.hour, 2);
    DigitsRoundTrip(t.minute, 2);
  }

  // ---------------------------------------------------------------------
  // fix_time_format and format_for_supabase

  const EndOfDay := " 24:00"

  /** `s.split(' ')[0]`: everything before the first space. */
  function FirstField(s: string): (r: string)
    ensures r <= s && ' ' !in r && (|r| == |s| || s[|r|] == ' ')
  {
    if s == [] || s[0] == ' ' then [] else [s[0]] + FirstField(s[1..])
  }

  /** `fix_time_format`: where " 24:00" occurs, midnight of the day after
      the first space-separated field, read as "YYYY/MM/DD"; the input
      itself where " 24:00" does not occur or that field is no date (or is
      the last day Python can represent). In the first case the result
      reads back as 00:00 on the day numbered one after that field. */
  function FixTimeFormat(s: string): (r: string)
    ensures !Contains(s, EndOfDay) ==> r == s
    ensures Contains(s, EndOfDay) && ParseDate(FirstField(s), '/').Some?
            && NextDay(ParseDate(FirstField(s), '/').value).Some?
            ==> r == FormatLocal(Stamp(NextDay(ParseDate(FirstField(s), '/').value).value, 0, 0, 0))
    ensures Contains(s, EndOfDay)
            && (ParseDate(FirstField(s), '/').None? || NextDay(ParseDate(FirstField(s), '/').value).None?)
            ==> r == s
    ensures r != s ==> && Contains(s, EndOfDay) && ParseDate(FirstField(s), '/').Some?
                       && ParseLocal(r).Some?
                       && ParseLocal(r).value.hour == 0 && ParseLocal(r).value.minute == 0
                       && Ordinal(ParseLocal(r).value.date)
                          == Ordinal(ParseDate(FirstField(s), '/').value) + 1
  {
    if !Contains(s, EndOfDay) then s
    else match ParseDate(FirstField(s), '/')
      case None => s
      case Some(d) =>
        match NextDay(d)
        case None => s
        case Some(n) =>
          NextDayOrdinal(d);
          ParseFormatLocal(Stamp(n, 0, 0, 0));
          FormatLocal(Stamp(n, 0, 0, 0))
  }

  /** `format_for_supabase`: the 24:00 fix, then "YYYY/MM/DD HH:MM"
      re-rendered as "YYYY-MM-DDTHH:MM:00+09:00"; any failure gives back
      the original argument, not the fixed one. */
  function FormatForSupabase(s: string): (r: string)
    ensures r == s || exists t :: ValidStamp(t) && t.second == 0 && r == FormatIso(t) + JstOffset
  {
    match ParseLocal(FixTimeFormat(s))
    case None => s
    case Some(t) => FormatIso(t) + JstOffset
  }

  /** `format_for_supabase` case by case. Without " 24:00", a well-formed
      local time is rendered in ISO form and anything else comes back
      unchanged. With " 24:00", the result is midnight of the day after the
      first field in ISO form; where that field is no date, or the last day
      Python can represent, the original argument comes back, because the
      unfixed text never parses. */
  lemma FormatForSupabaseCases(s: string)
    ensures !Contains(s, EndOfDay) && ParseLocal(s).Some?
            ==> FormatForSupabase(s) == FormatIso(ParseLocal(s).value) + JstOffset
    ensures !Contains(s, EndOfDay) && ParseLocal(s).None? ==> FormatForSupabase(s) == s
    ensures Contains(s, EndOfDay) && ParseDate(FirstField(s), '/').Some?
            && NextDay(ParseDate(FirstField(s), '/').value).Some?
            ==> FormatForSupabase(s)
                == FormatIso(Stamp(NextDay(ParseDate(FirstField(s), '/').value).value, 0, 0, 0)) + JstOffset
    ensures Contains(s, EndOfDay)
            && (ParseDate(FirstField(s), '/').None? || NextDay(ParseDate(FirstField(s), '/').value).None?)
            ==> FormatForSupabase(s) == s
  {
    var d := ParseDate(FirstField(s), '/');
    if Contains(s, EndOfDay) && d.Some? && NextDay(d.value).Some? {
      ParseFormatLocal(Stamp(NextDay(d.value).value, 0, 0, 0));
    }
    LocalNoEndOfDay(s);
  }

  /** The characters of a string `ParseDigits` accepts are all digits. */
  lemma {:induction false} ParsedDigits(s: string)
    ensures ParseDigits(s).Some? ==> forall k :: 0 <= k < |s| ==> IsDigit(s[k])
    decreases |s|
  {
    if s != [] {
      ParsedDigits(s[..|s| - 1]);
      if ParseDigits(s).Some? {
        forall k | 0 <= k < |s| ensures IsDigit(s[k]) {
          if k < |s| - 1 {
            assert s[k] == s[..|s| - 1][k];
          }
        }
      }
    }
  }

  /** Text `strptime(_, '%Y/%m/%d %H:%M')` accepts never holds " 24:00":
      its only space is followed by an hour below 24. */
  lemma LocalNoEndOfDay(s: string)
    ensures ParseLocal(s).Some? ==> !Contains(s, EndOfDay)
  {
    if ParseLocal(s).Some? {
      var ds := s[..10];
      assert ParseDate(ds, '/').Some? && ParseField(s[11..13], 24).Some?;
      assert ParseDigits(ds[..4]).Some? && ParseDigits(ds[5..7]).Some? && ParseDigits(ds[8..]).Some?;
      ParsedDigits(ds[..4]);
      ParsedDigits(ds[5..7]);
      ParsedDigits(ds[8..]);
      assert ParseDigits(s[11..13]).value < 24;
      assert ParseDigits("24") == Some(24);
      assert s[11..13] != "24";
      forall i | 0 <= i <= |s| - |EndOfDay| ensures !MatchAt(s, EndOfDay, i) {
        if i < 4 {
          assert s[i..i + 6][0] == ds[..4][i];
        } else if 4 < i < 7 {
          assert s[i..i + 6][0] == ds[5..7][i - 5];
        } else if 7 < i < 10 {
          assert s[i..i + 6][0] == ds[8..][i - 8];
        } else if i == 10 {
          assert s[10..16][1..3] == s[11..13];
        }
      }
    }
  }

  /** A rendered date holds no space when its separator is none. */
  lemma DateSpaces(d: Date, sep: char)
    requires ValidDate(d) && sep != ' '
    ensures forall k :: 0 <= k < 10 ==> FormatDate(d, sep)[k] != ' '
  {
    var ds := FormatDate(d, sep);
    forall k | 0 <= k < 10 ensures ds[k] != ' ' {
      if k < 4 {
        assert ds[k] == Digits(d.year, 4)[k];
      } else if 4 < k < 7 {
        assert ds[k] == Digits(d.month, 2)[k - 5];
      } else if 7 < k {
        assert ds[k] == Digits(d.day, 2)[k - 8];
      }
    }
  }

  /** A time of day below 24:00 never holds the end-of-day notation. */
  lemma LocalHasNoEndOfDay(t: Stamp)
    requires ValidStamp(t)
    ensures !Contains(FormatLocal(t), EndOfDay)
  {
    var u := Stamp(t.date, t.hour, t.minute, 0);
    assert FormatLocal(u) == FormatLocal(t);
    ParseFormatLocal(u);
    LocalNoEndOfDay(FormatLocal(t));
  }

  /** A well-formed local time is rendered in ISO form with the offset. */
  lemma FormatLocalTime(t: Stamp)
    requires ValidStamp(t) && t.second == 0
    ensures FormatForSupabase(FormatLocal(t)) == FormatIso(t) + JstOffset
  {
    LocalHasNoEndOfDay(t);
    ParseFormatLocal(t);
  }

  lemma FirstFieldOfDate(d: Date, rest: string)
    requires ValidDate(d)
    ensures FirstField(FormatDate(d, '/') + " " + rest) == FormatDate(d, '/')
  {
    var ds := FormatDate(d, '/');
    var s := ds + " " + rest;
    var f := FirstField(s);
    DateSpaces(d, '/');
    assert s[10] == ' ';
    assert forall k :: 0 <= k < 10 ==> s[k] == ds[k];
    assert f == s[..10];
  }

  /** "YYYY/MM/DD 24:00" becomes midnight of the next day. */
  lemma FormatEndOfDay(d: Date)
    requires ValidDate(d) && NextDay(d).Some?
    ensures FixTimeFormat(FormatDate(d, '/') + EndOfDay)
            == FormatLocal(Stamp(NextDay(d).value, 0, 0, 0))
    ensures FormatForSupabase(FormatDate(d, '/') + EndOfDay)
            == FormatIso(Stamp(NextDay(d).value, 0, 0, 0)) + JstOffset
  {
    var ds := FormatDate(d, '/');
    var s := ds + EndOfDay;
    assert MatchAt(s, EndOfDay, 10);
    ParseFormatDate(d, '/');
    assert s == ds + " " + EndOfDay[1..];
    FirstFieldOfDate(d, EndOfDay[1..]);
    ParseFormatLocal(Stamp(NextDay(d).value, 0, 0, 0));
  }

  // Concrete stamps. Each literal is matched against its rendering in a
  // lemma of its own, which keeps the solver from unfolding the whole
  // conversion on the literal.

  lemma YearEndText()
    ensures FormatDate(Date(2024, 12, 31), '/') + EndOfDay == "2024/12/31 24:00"
  {
    assert FormatDate(Date(2024, 12, 31), '/') == "2024/12/31";
  }

  lemma NewYearText()
    ensures FormatLocal(Stamp(Date(2025, 1, 1), 0, 0, 0)) == "2025/01/01 00:00"
  {
  }

  lemma NewYearIsoText()
    ensures FormatIso(Stamp(Date(2025, 1, 1), 0, 0, 0)) + JstOffset == "2025-01-01T00:00:00+09:00"
  {
    assert FormatDate(Date(2025, 1, 1), '-') == "2025-01-01";
  }

  /** Year rollover. */
  lemma YearEndExample()
    ensures FixTimeFormat("2024/12/31 24:00") == "2025/01/01 00:00"
    ensures FormatForSupabase("2024/12/31 24:00") == "2025-01-01T00:00:00+09:00"
  {
    YearEndText();
    NewYearText();
    NewYearIsoText();
    assert NextDay(Date(2024, 12, 31)) == Some(Date(2025, 1, 1));
    FormatEndOfDay(Date(2024, 12, 31));
  }

  lemma LeapDayText()
    ensures FormatDate(Date(2024, 2, 28), '/') + EndOfDay == "2024/02/28 24:00"
  {
    assert FormatDate(Date(2024, 2, 28), '/') == "2024/02/28";
  }

  lemma LeapDayFollows()
    ensures NextDay(Date(2024, 2, 28)) == Some(Date(2024, 2, 29))
  {
  }

  lemma LeapDayMidnightText()
    ensures FormatLocal(Stamp(Date(2024, 2, 29), 0, 0, 0)) == "2024/02/29 00:00"
  {
  }

  /** Leap day. */
  lemma LeapDayExample()
    ensures FixTimeFormat("2024/02/28 24:00") == "2024/02/29 00:00"
  {
    LeapDayText();
    LeapDayFollows();
    LeapDayMidnightText();
    FormatEndOfDay(Date(2024, 2, 28));
  }

  lemma MorningText()
    ensures FormatLocal(Stamp(Date(2024, 3, 31), 9, 0, 0)) == "2024/03/31 09:00"
  {
  }

  lemma MorningIsoText()
    ensures FormatIso(Stamp(Date(2024, 3, 31), 9, 0, 0)) + JstOffset == "2024-03-31T09:00:00+09:00"
  {
    assert FormatDate(Date(2024, 3, 31), '-') == "2024-03-31";
  }

  /** An ordinary time of day. */
  lemma MorningExample()
    ensures FormatForSupabase("2024/03/31 09:00") == "2024-03-31T09:00:00+09:00"
  {
    MorningText();
    MorningIsoText();
    FormatLocalTime(Stamp(Date(2024, 3, 31), 9, 0, 0));
  }

  /** "YYYY/MM/DD 24:00" followed by anything, such as seconds, becomes
      midnight of the next day: only the date before the first space is
      read. */
  lemma FoldWithTail(d: Date, tail: string)
    requires ValidDate(d) && NextDay(d).Some?
    ensures FixTimeFormat(FormatDate(d, '/') + EndOfDay + tail)
            == FormatLocal(Stamp(NextDay(d).value, 0, 0, 0))
  {
    var ds := FormatDate(d, '/');
    var s := ds + EndOfDay + tail;
    assert MatchAt(s, EndOfDay, 10) by { assert s[10..16] == EndOfDay; }
    assert s == ds + " " + (EndOfDay[1..] + tail);
    FirstFieldOfDate(d, EndOfDay[1..] + tail);
    ParseFormatDate(d, '/');
  }

  lemma SecondsText()
    ensures FormatDate(Date(2024, 3, 31), '/') + EndOfDay + ":00" == "2024/03/31 24:00:00"
  {
    assert FormatDate(Date(2024, 3, 31), '/') == "2024/03/31";
  }

  lemma AprilMidnightText()
    ensures FormatLocal(Stamp(Date(2024, 4, 1), 0, 0, 0)) == "2024/04/01 00:00"
  {
  }

  /** A time cell with seconds is folded as well. */
  lemma SecondsExample()
    ensures FixTimeFormat("2024/03/31 24:00:00") == "2024/04/01 00:00"
  {
    SecondsText();
    assert NextDay(Date(2024, 3, 31)) == Some(Date(2024, 4, 1));
    FoldWithTail(Date(2024, 3, 31), ":00");
    AprilMidnightText();
  }

  /** A month that does not exist: the argument comes back unchanged. */
  lemma NoSuchMonthExample()
    ensures FormatForSupabase("2024/13/01 09:00") == "2024/13/01 09:00"
  {
    var s := "2024/13/01 09:00";
    forall i | 0 <= i <= |s| - |EndOfDay| ensures !MatchAt(s, EndOfDay, i) {
      if i < 10 {
        assert s[i..i + 6][0] == s[i] != ' ';
      } else {
        assert s[i..i + 6][1] == s[11] != '2';
      }
    }
    assert ParseDigits("13") == Some(13);
    assert s[5] == '1' && s[6] == '3';
    assert s[..10][5..7] == "13";
    assert ParseDate(s[..10], '/').None?;
    FormatForSupabaseCases(s);
  }
}
