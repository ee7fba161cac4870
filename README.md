# Conference-room reservation CSV converters, modelled in Dafny

The system converts a reservation export into three CSV forms. The export is a
table in which a row naming a conference room (`会議室`) opens a section, and
the reservation rows below that row belong to that room. The three forms are:

- **Passthrough** (`main_step1.py`): every reservation row is kept whole, with the room put in front.
- **Display** (`main_step3.py`): four columns. They are the room without the facility names, the start and end as "date time", and "×" in place of the purpose.
- **Storage** (`main_step4_Claude.py`): four columns for a database import. They are the cleaned room name, the start and end as ISO 8601 with the fixed offset `+09:00` (after folding "24:00" into midnight of the next day), and "×".

All three converters share two steps:

- **Encoding search.** The encodings UTF-8, Shift_JIS and CP932 are tried in that order. Leading byte order marks are then removed.
- **Section walk.** One pass over the rows keeps the current room.

In the passthrough and display data rows, every circled digit ①..⑩ in a written cell is replaced by its number. The storage converter does this for the room name only. The passthrough header row is written unchanged. The storage converter's output can be checked afterwards by `validate_datetime_format`.

The model is organised in modules:

- `Text`: Python's `strip()`, `in` and `replace`.
- `CircledDigits`: the ten chained replaces and their meaning as a character map.
- `RoomName`: removal of the two facility names.
- `DateTime`: the calendar, `fix_time_format`, `format_for_supabase`, and the ISO reading the validator does.
- `Encoding`: the encoding search, over a decode oracle.
- `Table`: rows, header lookups and outcomes.
- `Classifier`: the section walk, given as a reference function `DataRows`.
- `Emit`: the output of a per-row transformer over the walk.
- `Passthrough`, `Display`, `Storage`: the three converters.
- `Validator`: the output check.

Each converter is written twice. The first version is the loop the program runs: a method that reassigns the current room and appends to the result list. The second is a function on the whole table, which the loop's postcondition matches. The properties are proved about the function.

Four details of the code that the model follows:

- **Passthrough header.** The passthrough header gains the column `会議室名`.
- **Storage circled digits.** The storage converter replaces circled digits in the room name only. The datetime cells are not touched.
- **Display room.** The display converter also removes the two facility names from the room, and does not strip it.
- **Byte order marks.** `lstrip('\ufeff')` removes every leading byte order mark, not just one.

## Model

| member | source | states |
|---|---|---|
| Text.Strip | main_step4_Claude.py:174 | `strip()` never lengthens a string and leaves no whitespace at either end |
| Text.StripSpec | main_step1.py:92 | `strip()` yields a contiguous slice of the input; everything cut off on either side is whitespace |
| Text.BlankIffStripEmpty | main_step1.py:91 | `not row[2].strip()` holds exactly when the cell is whitespace throughout |
| Text.ReplaceAbsent | main_step3.py:160 | `replace` of a substring that does not occur changes nothing |
| Text.RemoveShortens | main_step3.py:160 | replacing a substring by "" never lengthens the string |
| Table.IndexOf | main_step3.py:102-105 | `list.index`: no result exactly when the value is absent; otherwise the first position holding it |
| Table.RequiredColumns | main_step3.py:100-110 | the four header lookups fail exactly when one of 開始日/開始時刻/終了日/終了時刻 is missing; otherwise they give each name's first position |
| Classifier.HeaderRoomIsSet | main_step1.py:91-92 | a room-header row always yields a non-empty (truthy) room, because `会議室` is not whitespace |
| Classifier.HeaderIsNotData | main_step1.py:91-97 | no row is both a room-header row and a reservation row |
| Classifier.StepRoom | main_step1.py:91-94 | one more row: a header row replaces the current room with `row[1].strip()`; any other row leaves it |
| Classifier.StepData | main_step1.py:97 | one more row: a reservation row under the current room is appended with that room; any other row adds nothing |
| Classifier.WalkRoom | main_step1.py:86-94 | `StepRoom` at row `i` of the walk over `lines[1:]` |
| Classifier.WalkSkip | main_step1.py:87-88 | an empty, header or non-data row adds no reservation |
| Classifier.WalkData | main_step1.py:97 | a reservation row at `i` is appended with its position and the current room |
| Classifier.NoRoomWithoutHeader | main_step1.py:78 | the current room is unset exactly when no header row has been walked yet |
| Classifier.RoomIsLastHeader | main_step1.py:91-94 | the current room is the stripped field 1 of the last header row walked |
| Classifier.RoomIsSet | main_step1.py:92 | once set, the current room is never empty |
| Classifier.DataRowsPrefix | main_step1.py:86 | walking more rows only extends the reservations found |
| Classifier.DataRowsSound | main_step1.py:86-97 | every reservation found is the input row at its position, passes the data-row test under the room current there, is not a header row, and positions increase |
| Classifier.DataRowAt | main_step1.py:97 | `DataRowsSound` for one reservation |
| Classifier.DataRowsComplete | main_step1.py:97 | every row that passes the data-row test under the current room is found |
| Classifier.NoDataBeforeFirstHeader | main_step1.py:78-97 | rows above the first header row never produce output |
| Classifier.DataRoomIsClosestHeader | main_step1.py:91-97 | a reservation carries the room of the closest header row above it |
| Classifier.NoHeaderNoData | main_step1.py:97 | with no header row at all, nothing is emitted |
| CircledDigits.NormalizeEach | main_step1.py:103-106 | the `for j` loop rewrites every cell with the substitution and changes nothing else |
| CircledDigits.Image | main_step1.py:105-106 | a character becomes its number if it is ①..⑩ and stays itself otherwise; no circled digit remains |
| CircledDigits.ChainChar | main_step1.py:105-106 | on one character the replace chain is a table lookup, because no replacement text is rewritten by a later replace |
| CircledDigits.LookupTable | main_step1.py:105-106 | looking a character up in the ten-entry table gives its `Image` |
| CircledDigits.NormalizeIsTranslate | main_step1.py:105-106 | the ten chained replaces equal the character map `Translate` |
| CircledDigits.TranslateConcat | main_step3.py:164-165 | the character map commutes with concatenation |
| CircledDigits.NormalizeClears | main_step3.py:163-165 | no circled digit survives the substitution |
| CircledDigits.NormalizeIdentity | main_step3.py:163-165 | text without circled digits is left unchanged |
| CircledDigits.NormalizeIdempotent | main_step3.py:163-165 | applying the substitution twice is applying it once |
| CircledDigits.NormalizeKeepsEdges | main_step4_Claude.py:174-178 | the substitution keeps a stripped string stripped |
| CircledDigits.NormalizeKeepsTrimmed | main_step4_Claude.py:174-178 | a stripped string stays stripped, and becomes empty only if it was empty |
| CircledDigits.NormalizeSpec | main_step1.py:103-106 | summary: clears all circled digits, keeps other text, commutes with concatenation, each glyph becomes its number, idempotent |
| CircledDigits.NormalizeGlyphs | main_step4_Claude.py:177-178 | ① .. ⑩ become "1" .. "10" |
| RoomName.RemoveNothing | main_step3.py:160 | a room naming neither facility is kept as it is |
| RoomName.RemoveLeadingBuilding | main_step3.py:160 | a leading `仙台合同庁舎` is removed and the rest is cleaned the same way |
| RoomName.RemoveShortensLabel | main_step3.py:160 | the removals never lengthen the room |
| RoomName.RemoveExample | main_step3.py:160 | "仙台合同庁舎第1会議室" becomes "第1会議室" |
| RoomName.RemovalOrderMatters | main_step4_Claude.py:174 | the two removals do not commute: on one room, building-then-office gives "" and office-then-building leaves the office name |
| DateTime.NextDay | main_step4_Claude.py:30 | `+ timedelta(days=1)` gives a valid date, and it fails only after 9999/12/31 |
| DateTime.NextDayOrdinal | main_step4_Claude.py:30 | the next day is numbered one more in the proleptic Gregorian day count |
| DateTime.OrdinalMonotone | main_step4_Claude.py:30 | the day count respects calendar order |
| DateTime.NextDayIsSuccessor | main_step4_Claude.py:29-31 | the next day is later, and no valid date lies strictly between the two |
| DateTime.NextDayExamples | main_step4_Claude.py:30 | year-end, leap-year and month-end rollover |
| DateTime.Digits | main_step4_Claude.py:31 | zero-padded fields have the stated width and hold only digits |
| DateTime.DigitsRoundTrip | main_step4_Claude.py:44 | reading a zero-padded field gives back its value |
| DateTime.ParseDate | main_step4_Claude.py:29 | `strptime(_, '%Y/%m/%d')` accepts only valid dates |
| DateTime.ParseFormatDate | main_step4_Claude.py:29-31 | a rendered date reads back as the same date |
| DateTime.FormatDate | main_step4_Claude.py:31 | a rendered date is ten characters long |
| DateTime.ParseLocal | main_step4_Claude.py:44 | `strptime(_, '%Y/%m/%d %H:%M')` gives a valid stamp with seconds 0 |
| DateTime.ParseFormatLocal | main_step4_Claude.py:31-44 | a rendered local time reads back as the same stamp |
| DateTime.ParseIso | main_step4_Claude.py:248-249 | `fromisoformat` on "YYYY-MM-DDTHH:MM:SS" gives a valid stamp |
| DateTime.FormatIso | main_step4_Claude.py:45 | a rendered ISO stamp is 19 characters long |
| DateTime.ParseFormatIso | main_step4_Claude.py:248-249 | the ISO rendering reads back as the stamp it was made from |
| DateTime.IsoHasNoPlus | main_step4_Claude.py:248 | a rendered ISO stamp holds no '+', so removing the offset cannot cut into it |
| DateTime.StampOrder | main_step4_Claude.py:252 | the order `datetime` comparison uses is a strict total order |
| DateTime.FirstField | main_step4_Claude.py:27 | `split(' ')[0]` is the prefix before the first space |
| DateTime.FixTimeFormat | main_step4_Claude.py:23-37 | without " 24:00" the input comes back unchanged; with it, the result is "YYYY/MM/DD 00:00" of the day after the first field read as a date, and the input comes back when that field is no date or is 9999/12/31; any changed result is 00:00 one day after the first field |
| DateTime.FormatForSupabase | main_step4_Claude.py:39-50 | the result is the original argument or an ISO stamp on the minute with "+09:00" |
| DateTime.FormatForSupabaseCases | main_step4_Claude.py:39-50 | without " 24:00": a well-formed local time becomes its ISO stamp with "+09:00", anything else comes back unchanged; with it: 00:00 of the next day as an ISO stamp, or the original argument when the first field is no date or has no next day |
| DateTime.ParsedDigits | main_step4_Claude.py:44 | an accepted numeric field holds only digits |
| DateTime.LocalNoEndOfDay | main_step4_Claude.py:26-44 | a text `strptime(_, '%Y/%m/%d %H:%M')` accepts never contains " 24:00", so the two branches of the fold never overlap |
| DateTime.LocalHasNoEndOfDay | main_step4_Claude.py:26 | a rendered time of day below 24:00 never contains " 24:00" |
| DateTime.FormatLocalTime | main_step4_Claude.py:39-45 | a well-formed "YYYY/MM/DD HH:MM" becomes "YYYY-MM-DDTHH:MM:00+09:00" |
| DateTime.FormatEndOfDay | main_step4_Claude.py:26-45 | "YYYY/MM/DD 24:00" becomes 00:00 of the next day, and its ISO form |
| DateTime.YearEndExample | main_step4_Claude.py:23-45 | "2024/12/31 24:00" becomes "2025/01/01 00:00" and "2025-01-01T00:00:00+09:00" |
| DateTime.LeapDayExample | main_step4_Claude.py:23-34 | "2024/02/28 24:00" becomes "2024/02/29 00:00" |
| DateTime.MorningExample | main_step4_Claude.py:39-45 | "2024/03/31 09:00" becomes "2024-03-31T09:00:00+09:00" |
| DateTime.FoldWithTail | main_step4_Claude.py:26-34 | any text that starts "YYYY/MM/DD 24:00" on a date with a next day, whatever follows, becomes "YYYY/MM/DD 00:00" of that next day |
| DateTime.SecondsExample | main_step4_Claude.py:26-33 | "2024/03/31 24:00:00" becomes "2024/04/01 00:00"; the seconds are dropped |
| DateTime.NoSuchMonthExample | main_step4_Claude.py:44-50 | "2024/13/01 09:00" is returned unchanged by the fallback |
| Encoding.StripBoms | main_step1.py:41-42 | every leading U+FEFF is removed and nothing else: the result is a suffix, all cut characters are marks, and it does not start with one |
| Encoding.FirstDecodedIsFirst | main_step1.py:36-56 | the search fails exactly when every candidate fails; otherwise it picks a candidate that decodes, after only failures |
| Encoding.Resolve | main_step1.py:34-57 | the search loop yields the first success with leading marks removed, and reports the encoding exactly when it yields text |
| Encoding.Utf8First | main_step1.py:36-47 | a file that reads as UTF-8 is never tried under another encoding |
| Encoding.ReadTextSpec | main_step1.py:36-62 | no text exactly when every encoding fails; otherwise the first decoding text with its marks removed |
| Encoding.DoubleBom | main_step1.py:41-42 | two leading byte order marks are both removed |
| Passthrough.EmitRowShape | main_step1.py:97-106 | an output row is the room and then the row's own fields, in order, each cell normalized; its length is `len(row) + 1` |
| Passthrough.DataStep | main_step1.py:97-108 | appending a converted reservation row extends the output by exactly that row |
| Passthrough.ConvertBody | main_step1.py:86-108 | the loop appends exactly the converted reservation rows, in order |
| Passthrough.CopyWithRoom | main_step1.py:98-106 | `row[:]`, `insert(0, room)`, then the `for j` loop: the room and the row with every cell normalized |
| Passthrough.ConvertRows | main_step1.py:71-114 | the converter after decoding matches the reference conversion |
| Passthrough.ConvertCsv | main_step1.py:36-114 | no encoding gives the early return; otherwise the conversion of the parsed text |
| Passthrough.ConvertOutcomes | main_step1.py:71-114 | an empty table stops exactly when the input is empty; no reservations stops exactly when none is found; a converted table is `['会議室名'] + header` (not normalized) and one row per reservation |
| Passthrough.OutputRowShape | main_step1.py:86-108 | each output row is an input reservation row, in input order, with its room in front, all cells normalized, field order kept |
| Passthrough.EveryDataRowEmitted | main_step1.py:97-108 | every reservation row of the input appears in the output |
| Passthrough.NothingBeforeFirstHeader | main_step1.py:86-97 | rows above the first header row never reach the output |
| Emit.CollectSnoc | main_step3.py:172 | one more reservation appends what the transformer makes of it |
| Emit.CollectStep | main_step3.py:125-172 | a reservation row at `i` appends the transformer's row, or nothing where it skips the row |
| Emit.CollectSkip | main_step3.py:114-122 | any other row appends nothing |
| Emit.CollectSound | main_step3.py:172 | every output row is what the transformer made of some reservation row |
| Emit.CollectComplete | main_step3.py:134-172 | every reservation row the transformer does not skip is output |
| Emit.CollectEmpty | main_step3.py:174 | nothing is output exactly when the transformer skips every reservation row |
| Emit.CollectLength | main_step3.py:172 | at most one output row per reservation row |
| Display.PurposeIndexFound | main_step3.py:95 | `new_csv_header.index('利用目的詳細')` is 3 |
| Display.BuildCells | main_step3.py:142-160 | `processed_row` has four cells: the room with the facility names removed, then "start date start time", then "end date end time" |
| Display.MarkUnavailable | main_step3.py:167-169 | cell 3 becomes "×" when it exists; nothing else changes |
| Display.ProcessRow | main_step3.py:127-169 | the data-row branch builds exactly `EmitRow`: skipped on `IndexError`, otherwise built, normalized and masked |
| Display.ConvertBody | main_step3.py:113-172 | the loop appends exactly the transformer's rows for the reservations, in order |
| Display.ConvertRows | main_step3.py:71-178 | the converter after decoding matches the reference conversion |
| Display.ConvertCsv | main_step3.py:36-178 | no encoding gives the early return; otherwise the conversion of the parsed text |
| Display.UnavailablePlain | main_step3.py:169 | "×" holds no circled digit |
| Display.EmitRowShape | main_step3.py:127-169 | skipped exactly on `IndexError`; a kept row has four cells, no circled digit, the cleaned room normalized, each datetime as "date time" normalized, and "×" last |
| Display.PurposeIgnored | main_step3.py:151-169 | the purpose, and every column but the four datetime columns, never reaches the output |
| Display.ConvertOutcomes | main_step3.py:71-178 | the empty-table, missing-column and no-reservation returns happen exactly in their cases; a converted table starts with the fixed header and has one to `len(reservations)` rows below it |
| Display.CollectedShape | main_step3.py:172 | every collected row has the display shape |
| Display.OutputRowShape | main_step3.py:113-172 | every output row below the header was made from a reservation row and has the display shape |
| Display.EveryDataRowEmitted | main_step3.py:125-172 | every reservation row whose datetime columns exist appears in the output |
| Storage.CleanRoom | main_step4_Claude.py:174-178 | the room is cleaned in fixed order: the two removals, strip, then the circled-digit replaces |
| Storage.ReadStamps | main_step4_Claude.py:156-161 | start and end are composed "date time" and passed through `format_for_supabase` |
| Storage.ProcessRow | main_step4_Claude.py:153-187 | the data-row branch builds exactly `EmitRow`: skipped on `IndexError`, otherwise `[clean room, ISO start, ISO end, "×"]` |
| Storage.ConvertBody | main_step4_Claude.py:141-187 | the loop appends exactly the transformer's rows for the reservations, in order |
| Storage.ConvertRows | main_step4_Claude.py:100-193 | the converter after decoding matches the reference conversion |
| Storage.ConvertCsv | main_step4_Claude.py:65-193 | no encoding gives the early return; otherwise the conversion of the parsed text |
| Storage.CleanRoomNameSpec | main_step4_Claude.py:174-178 | the cleaned room holds no circled digit, has no whitespace at either end, and is empty exactly when the room without facility names was blank |
| Storage.UnavailablePlain | main_step4_Claude.py:184 | "×" holds no circled digit |
| Storage.EmitRowShape | main_step4_Claude.py:153-187 | skipped exactly on `IndexError`; a kept row has four cells: the cleaned room, `format_for_supabase` of the composed start "date time" and of the composed end (each left as composed or an ISO stamp with "+09:00"), and "×" |
| Storage.EmitShaped | main_step4_Claude.py:171-187 | a kept row has the storage shape |
| Storage.CollectedShape | main_step4_Claude.py:187 | every collected row has the storage shape |
| Storage.ConvertOutcomes | main_step4_Claude.py:100-203 | the empty-table, missing-column and no-reservation returns happen exactly in their cases; a converted table starts with the English header, and `total_records` is between 1 and the number of reservations |
| Storage.OutputRowShape | main_step4_Claude.py:141-187 | every output row below the header was made from a reservation row and has the storage shape |
| Storage.EveryDataRowEmitted | main_step4_Claude.py:153-187 | every reservation row whose datetime columns exist appears in the output |
| Validator.CheckRowCases | main_step4_Claude.py:245-257 | a short row passes unchecked; a long enough row is malformed exactly when a value does not parse, and inverted exactly when both parse and start >= end |
| Validator.ListedSnoc | main_step4_Claude.py:253-256 | one more verdict appends its issue, if any |
| Validator.IssuesStep | main_step4_Claude.py:243-257 | one more row appends its issue, numbered by the row, if any |
| Validator.CheckOne | main_step4_Claude.py:245-257 | the `try` block computes the row's verdict |
| Validator.ValidateTable | main_step4_Claude.py:234-266 | the loop counts every row and collects exactly the issues; the report matches `Validate` |
| Validator.ListedSound | main_step4_Claude.py:243-256 | every listed issue is a failed verdict numbered by its position from 1; numbers increase |
| Validator.ListedComplete | main_step4_Claude.py:253-256 | every failed verdict is listed |
| Validator.ListedEmpty | main_step4_Claude.py:258 | nothing is listed exactly when every verdict passes |
| Validator.IssuesSound | main_step4_Claude.py:243-256 | every issue names a body row, by number, with that row's verdict; numbers increase |
| Validator.IssuesComplete | main_step4_Claude.py:245-256 | every row with something wrong is reported |
| Validator.IssuesEmpty | main_step4_Claude.py:258-266 | no issue exactly when every row passes |
| Validator.ValidateOutcomes | main_step4_Claude.py:234-266 | an empty file and missing columns end exactly in their cases; all valid reports every row of the body counted and passing; otherwise at least one issue |
| Validator.ShownSpec | main_step4_Claude.py:259-263 | at most five issues are listed, they are the first ones, and the count line appears exactly when more exist, giving the rest |
| Validator.OffsetRoundTrip | main_step4_Claude.py:248-249 | removing "+09:00" from a stored stamp gives the ISO stamp back, which parses to its origin |
| Validator.ShortValueMalformed | main_step4_Claude.py:248-256 | a value shorter than an ISO datetime, such as an empty cell, is malformed |
| Validator.StorageColumns | main_step4_Claude.py:237-238 | on the storage header the start is column 1 and the end column 2 |
| Validator.StoredRowVerdict | main_step4_Claude.py:252-253 | a stored row with two converted stamps is reported exactly when start >= end |
| Validator.ValidateStorageOutput | main_step4_Claude.py:236-266 | on storage output both columns are found; the report is all valid with `total_records` rows, or issues each naming one of the records |

## Left out

- File I/O: opening, reading and writing files is not modelled. The converters take the file's bytes and produce an `Outcome` holding the rows to write. The validator takes the table it re-reads.
- The codecs are not modelled. UTF-8, Shift_JIS and CP932 decoding are represented by the `decode` oracle parameter, where `None` stands for any exception raised while opening or reading. A missing file therefore looks, as in the code, like a file no encoding reads, because the inner `except Exception` swallows the `FileNotFoundError`.
- Shift_JIS output with `errors='replace'` is not modelled. This is codec behaviour at write time.
- CSV quoting is not modelled. `csv.reader` is the `parse` parameter, and `csv.writer` is not modelled.
- Diagnostics are not modelled: `logging`, `print`, the console summary of the storage converter, and the validator's messages other than their counts.
- The `__main__` blocks are not modelled: argument checks, path handling, timestamped output names and the console pause.
- The outer `except Exception` around each converter is not modelled. The modelled operations never raise.
- DateTime.ParseLocal: accepts only zero-padded "YYYY/MM/DD HH:MM". `strptime` also takes unpadded fields, and those inputs are treated as parse failures.
- DateTime.ParseIso: accepts only "YYYY-MM-DDTHH:MM:SS". Other forms `fromisoformat` accepts, such as a date alone, fractions or another offset, are reported as malformed.
- DateTime.FormatLocal, DateTime.FormatIso, DateTime.FixTimeFormat, DateTime.FormatForSupabase: render years below 1000 with four digits. The padding `strftime` gives for such years is platform-dependent. On a platform that writes "500/01/02 00:00", the `%Y` of the next `strptime` fails and "0500/01/01 24:00" is returned as it was, where the model returns "0500-01-02T00:00:00+09:00".
- Text.IsSpace: lists the characters `str.isspace()` accepts. Unicode normalisation and case are not modelled.
- Validator.Validate: an empty file is the only exception path modelled. A file that is not UTF-8 or cannot be opened ends in the logged exception, and that path is not modelled.
- Validator.ValidateTable: reads `validation_errors` as its issues. Only the lengths of the two summary lines (the first five and the remaining count) are modelled, in `Shown` and `Hidden`.
- Display.BuildCells: does not state the purpose cell it looks up in the input header. That cell is always overwritten with "×" before the row is written (`MarkUnavailable`, `EmitRowShape`).
- Display.ProcessRow: looks up the purpose column in the input header once per row, as the code does. The two lookups of `new_csv_header` are the constant 3 (`PurposeIndexFound`).
- Storage.ProcessRow: builds the four-cell row in one step, rather than by four `append` calls on an empty list. The contents and order are the same.
- Passthrough.ConvertOutcomes: the closest-header property of the room is stated once for all converters, in `Classifier.DataRoomIsClosestHeader`, rather than again for the passthrough output.
