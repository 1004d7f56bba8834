# Attendance Permission Analyzer — verified model

The analyzer reads an attendance log exported from a time-tracking system.
Each row holds a Gregorian transaction date, an actual entry time and an
actual exit time. The analyzer emits "permission" windows measured against
a 09:00–17:00 workday and an eight-hour shift:

- a **late arrival** `[09:00, entry]` when the entry is after 09:00;
- an **early leave** `[exit, exit limit]` when the exit is before the exit
  limit, the earlier of entry + 8 h and 17:00 of the record's date.

Each window carries its length in whole minutes, truncated. A row with a
blank entry or exit cell is skipped. So is a row whose date falls outside
the optional inclusive date range. A date or timestamp that does not parse
aborts the whole run. The program also formats timestamps on a 12-hour clock
with an Arabic period marker.

Modules, in dependency order:

- `Wrappers` (`wrappers.dfy`): `Option` and `Result`.
- `DateTimes` (`datetimes.dfy`): `DateTime` at one-second resolution.
  A date is a day number and a timestamp is a second, both counted from
  0001-01-01 and bounded by 9999-12-31 23:59:59. The module also has
  `AddHours`, with its out-of-range error, and `Hour`/`Minute`.
- `Whitespace` (`whitespace.dfy`): `char.IsWhiteSpace` and `string.IsNullOrWhiteSpace`.
- `Permission` (`permission.dfy`): the entry type and the per-record rule.
- `Analyzer` (`analyzer.dfy`): one row (blank skip, date parse, filter,
  timestamp parses, rule), the functional scan `Extract`, and the imperative
  `foreach` loop `ExtractEntries`, proved equal to it.
- `ClockFormat` (`clockformat.dfy`): the `hh:mm p` part of the timestamp label.
- `Scenarios` (`scenarios.dfy`): worked examples.

The two `ParseExact` formats are parameters (`Analyzer.Parsers`), one
function per format; the loop makes three calls with them (the date, the
entry time and the exit time). Each function maps the cell text to an
optional day or second. `None` stands for the `FormatException` that ends
the run.

Behaviour of the code that the model keeps:

- Timestamps carry seconds, so a gap under a minute gives `Minutes == 0`
  (`Scenarios.ZeroMinuteEntry`).
- Entry and exit timestamps carry their own date; the model does not assume
  they fall on the record's date.
- Adding eight hours to an entry time in the last eight hours of
  9999-12-31 throws. The model reports this as `Failure(OutOfRange)`.

## Model

| member | source | states |
|---|---|---|
| DateTimes.AtHour | Program.cs:76-78 | `date.AddHours(h)` for an hour of the day stays on that date, at exactly h hours past midnight |
| DateTimes.AddHours | Program.cs:77 | adding eight hours succeeds iff the sum is still a representable `DateTime`, and then moves the stamp forward by exactly that many seconds |
| DateTimes.HourOf | Program.cs:139-140 | `dt.Hour` is in 0..23 |
| DateTimes.MinuteOf | Program.cs:141 | `dt.Minute` is in 0..59 |
| DateTimes.TimeOfDay | Program.cs:139-141 | a stamp is its midnight plus `Hour` hours plus `Minute` minutes plus under a minute of seconds |
| Whitespace.IsNullOrWhiteSpace | Program.cs:66 | the library scan answers true iff every character of the cell is white space (empty included); `ScanRow` calls it on both cells |
| Permission.Window | Program.cs:84-85 | an entry over a non-empty span keeps its endpoints and carries the span truncated to whole minutes |
| Permission.ExitLimit | Program.cs:77-79 | the exit limit is the minimum of entry + 8 h and 17:00 of the record date, so it never passes 17:00 |
| Permission.Rule | Program.cs:76-93 | exactly one entry per strict test that holds (entry > 09:00, exit < exit limit), all well formed; a late window is present iff entry > 09:00; an early window is present iff exit < exit limit; nothing else is emitted; with two entries the late one comes first |
| Permission.LateMinutes | Program.cs:82-86 | the late entry's minutes are (entry − 09:00) div 60 s |
| Permission.EarlyMinutes | Program.cs:89-93 | the early entry's minutes are (exit limit − exit) div 60 s |
| Permission.WholeMinutesUnique | Program.cs:84 | truncation to whole minutes has exactly one answer, the integer quotient by 60 s |
| Permission.OnTimeYieldsNothing | Program.cs:76-93 | entry no later than 09:00 and exit no earlier than the exit limit give no entries |
| Analyzer.AdmitsInclusive | Program.cs:70-71 | the date filter keeps exactly the dates from start to end inclusive, the bounds themselves included; with no bounds it keeps everything |
| Analyzer.ProcessRow | Program.cs:62-93 | a blank entry or exit cell gives no entries and no error; a row fails iff its date does not parse, or the filter admits it and an entry/exit stamp does not parse or the shift end is out of range; a row the filter rejects gives nothing whatever its stamps; the error is the date's `Malformed(DateColumn)`, else the entry cell's `Malformed(InColumn)`, else the exit cell's `Malformed(OutColumn)`, else `OutOfRange` from adding eight hours; successes are at most two well-formed entries |
| Analyzer.ProcessedRow | Program.cs:69-93 | a fully parsed, admitted row yields exactly the rule's entries for its date, entry and exit |
| Analyzer.Extract | Program.cs:60-94 | a successful scan has at most two entries per row |
| Analyzer.ExtractWellFormed | Program.cs:60-94 | every entry of a successful scan is a non-empty window whose minutes are its truncated length |
| Analyzer.ExtractFailure | Program.cs:60-94 | the scan fails iff some row fails, and then with the error of the first failing row, all earlier rows succeeding |
| Analyzer.ExtractAppend | Program.cs:60-94 | the scan of `a + b` is the scan of `a` followed by that of `b` (`Then`): a failure in `a` wins, then a failure in `b`, otherwise the entries are concatenated in order |
| Analyzer.ExtractMembership | Program.cs:60-94 | an entry is in the result iff some row contributed it |
| Analyzer.SkippedRowIsNeutral | Program.cs:66-71 | inserting a blank or filtered-out row anywhere leaves the outcome unchanged |
| Analyzer.ExtendPrefix | Program.cs:60-94 | one more row appends its entries to a successful prefix, or its failure becomes the whole run's failure |
| Analyzer.ScanRow | Program.cs:62-93 | the step-by-step loop body (early `continue`s and throws) computes the row semantics |
| Analyzer.ExtractEntries | Program.cs:53-94 | the loop that appends to the result list computes the functional scan, failing on the first bad row |
| ClockFormat.Hour12 | Program.cs:140 | the 12-hour hour is in 1..12 and congruent to the hour modulo 12 |
| ClockFormat.Period | Program.cs:139 | the marker is U+0635 iff hour < 12, and U+0645 iff hour ≥ 12 |
| ClockFormat.HourRoundTrip | Program.cs:139-140 | the 12-hour hour and marker give back the 24-hour hour |
| ClockFormat.ClockRoundTrip | Program.cs:139-140 | every 12-hour reading with a marker is the image of exactly one hour of the day |
| ClockFormat.TwoDigits | Program.cs:141 | the `00` format gives two decimal digits |
| ClockFormat.TwoDigitsRoundTrip | Program.cs:141 | reading the two digits back gives the number |
| ClockFormat.ClockText | Program.cs:141 | the `hh:mm p` fragment is seven characters |
| ClockFormat.ClockTextRoundTrip | Program.cs:139-141 | the fragment gives back the stamp's 24-hour hour and minute |
| Scenarios.LateArrivalOnly | Program.cs:82-86 | in 09:15, out 17:00: one late entry of 15 minutes |
| Scenarios.EarlyLeaveOnly | Program.cs:77-79 | in 08:00, out 15:30: the limit is 16:00, one early entry of 30 minutes |
| Scenarios.CappedExitLimit | Program.cs:69-93 | an admitted row in at 10:00, out at 17:30: its shift end is 18:00, the limit is capped at 17:00, and the row yields only a 60-minute late entry |
| Scenarios.BothWindowsCoincide | Program.cs:82-93 | in 17:00, out 09:00: the late and the early window are both 09:00-17:00 and both are added |
| Scenarios.ZeroMinuteEntry | Program.cs:84 | an arrival 30 s late gives an entry of 0 minutes |
| Scenarios.BlankExitSkipped | Program.cs:66-67 | an empty exit cell skips the row whatever the rest holds |
| Scenarios.DayBeforeStartExcluded | Program.cs:70 | a row dated the day before the start date is skipped |

## Left out

- Console prompts, the `File.Exists` check and the "no results" message (Program.cs:17-42, 97-101). These are interactive I/O. Parsing the start and end dates at the prompt is also left out: the filter arrives already parsed, each bound optional, as lines 70-71 test them.
- CSV reading with CsvHelper, the Windows-1256 encoding and the header lookup (Program.cs:44-59, 62-64). This is a foreign library. A row arrives as three cell strings. A cell that is null (a missing column) is not modelled.
- The acceptance rules of `DateTime.ParseExact` under the invariant culture. Each parse is an abstract function parameter. Its failure aborts the run.
- Terminal printing and the ClosedXML spreadsheet export (Program.cs:103-131). These are output side effects. Entries keep their timestamps rather than the formatted strings.
- The date part `dd/MM/yy` of the label, and the way `dt.ToString` re-reads the interpolated text as a format string (Program.cs:141). That reading uses the current culture's calendar and separators. `ClockText` models the interpolated `hh:mm p` fragment, with `:` as the separator.
- Permission.Window: minutes are unbounded integers. The `(int)` cast of `TotalMinutes` differs only for spans over about 4085 years. For such spans the C# cast is platform-defined.
- Sub-second precision: parsed values are whole seconds. The model does not use floating-point `TotalMinutes`. For positive whole-second spans its truncation equals integer division by 60 s.
- webhook/main.py: an HTTP echo stub with no logic.
