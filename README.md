# focus-tracker session log, in Dafny

This project models focus-tracker, a command-line tool that records focused-work sessions in a CSV file. The file's first line is a header. Each later line is one session: its start time, and once the session is closed, also its end time and its duration in minutes. The tool keeps no other state. Whether a session is running is read off the shape of the last line.

The repository holds two versions of the tool, and both are modelled:

- `timetracking/focus_tracker.py`, the guarded version (module `TimetrackingFocusTracker`).
  - A session runs only when the last line has exactly one field.
  - Its resolver never raises.
- `focus_tracker.py`, the unguarded version (module `FocusTracker`).
  - A session runs when the last line has fewer than three fields.
  - Every error raised by a command reaches the handler in `main`, so the command is abandoned before anything is written. `init_log` runs outside that handler (focus_tracker.py:86), so its errors end the program.

Shared modules:

- `SessionLog`: the log file as a value.
  - `None` when the file is missing, otherwise its rows, each already split into fields.
  - Also holds the row operations both versions use (append a row, extend the last row), the header, init_log, and the report's running total.
- `Clock`: instants and their stored text.
  - An instant is a number of seconds since 0001-01-01 00:00 of the proleptic Gregorian calendar.
  - It is stored as `YYYY-MM-DD HH:MM`.
- `Duration`: durations as integer tenths of a minute, with their `%.1f` text.
- `Digits`: decimal numerals. `Wrappers`: `Option` and `Result`.

Each version has three parts:

- Pure transition functions `Start`, `End`, `Apply` and `Run`. Each returns the command's outcome together with the file it leaves behind.
- A class `FocusLog` that holds the file and updates it in place. Its methods are proved to agree with those functions and to preserve the version's consistency invariant.
- Lemmas relating the two versions, and one finding about the unguarded one.

The clock is a parameter: `now` is the instant `datetime.now()` would return, in whole seconds. An exception that the source lets reach `main` is an `Error` value. Every such exception is raised before the file is written, so the file is unchanged whenever the outcome is a `Failure`.

The two versions differ in which last line counts as a running session:

- The guarded version counts only a one-field last line (timetracking/focus_tracker.py:47, commented "Only start time").
- `focus_tracker.py:28` counts any last line of fewer than three fields, so a two-field line counts too. `FocusTracker.CurrentSession` models that test as written. The consequence is reported under Findings.

The property "only the last line may have fewer than three fields" is not kept by either version:

- It breaks when the last line has an empty start. In the guarded version it also breaks when the last line has two fields or none (`OpenRowLeftBehind` in both modules).
- Each module therefore proves a strengthened invariant, `Consistent`, that every command keeps (`RunStaysConsistent`).

## Model

| member | source | states |
|---|---|---|
| TimetrackingFocusTracker.CurrentSession | timetracking/focus_tracker.py:32-52 | a session runs exactly when there is a line below the header and the last one has one field; its start text is that field; a missing file, an empty file and a header-only file give no session |
| TimetrackingFocusTracker.StartRejectedWhileActive | timetracking/focus_tracker.py:54-59 | starting while a session with a non-empty start runs leaves the file unchanged and reports that session's start |
| TimetrackingFocusTracker.StartAppendsOpenRow | timetracking/focus_tracker.py:54-65 | starting while idle keeps every existing line and appends exactly one line, the one-field stored start time; on a file with its header, that session then runs |
| TimetrackingFocusTracker.StartKeepsTotal | timetracking/focus_tracker.py:61-64 | on a file that has its first line, starting a session never changes the report total |
| TimetrackingFocusTracker.EndIgnoredWhileIdle | timetracking/focus_tracker.py:67-72 | stopping while no session runs reports that and leaves the file unchanged |
| TimetrackingFocusTracker.EndRejectsBadStart | timetracking/focus_tracker.py:67-79 | stopping a session whose start text strptime rejects raises and leaves the file unchanged |
| TimetrackingFocusTracker.EndClosesOpenRow | timetracking/focus_tracker.py:67-87 | stopping keeps the line count and every line but the last; the last becomes start, end, duration; afterwards no session runs |
| TimetrackingFocusTracker.EndAddsDuration | timetracking/focus_tracker.py:79-83 | stopping adds exactly the session's duration to the report total |
| TimetrackingFocusTracker.EndKeepsReportReadable | timetracking/focus_tracker.py:67-89 | stopping never turns a report that succeeds into one that fails |
| TimetrackingFocusTracker.StartThenEnd | timetracking/focus_tracker.py:54-89 | start at t1 then stop at t2 appends exactly one closed line whose duration is measured from t1 truncated to its minute; no session runs afterwards |
| TimetrackingFocusTracker.StartThenEndAddsDuration | timetracking/focus_tracker.py:61-83 | start then stop adds that session's duration to the report total |
| TimetrackingFocusTracker.StartPreservesConsistent | timetracking/focus_tracker.py:54-65 | start keeps the invariant: every line but the last is closed, and an open last line is a single non-empty start |
| TimetrackingFocusTracker.EndPreservesConsistent | timetracking/focus_tracker.py:67-89 | stop keeps the same invariant |
| TimetrackingFocusTracker.RunStaysConsistent | timetracking/focus_tracker.py:111-124 | every sequence of init, start and stop invocations from a consistent file (a missing file is one) ends in a consistent file |
| TimetrackingFocusTracker.OpenRowLeftBehind | timetracking/focus_tracker.py:43-49 | a last line of fewer than three fields that does not count as running is left open in the middle by the next start |
| TimetrackingFocusTracker.FocusLog.InitLog | timetracking/focus_tracker.py:11-23 | the in-place init_log: a missing file gets the header line; an existing one is left alone |
| TimetrackingFocusTracker.FocusLog.StartSession | timetracking/focus_tracker.py:54-65 | the in-place start_session equals `Start` and keeps `Consistent` |
| TimetrackingFocusTracker.FocusLog.EndSession | timetracking/focus_tracker.py:67-89 | the in-place end_session equals `End` and keeps `Consistent` |
| TimetrackingFocusTracker.FocusLog.GenerateReport | timetracking/focus_tracker.py:99-109 | generate_report's total is the report total of the file |
| FocusTracker.CurrentSession | focus_tracker.py:23-30 | a missing file raises FileNotFound; an empty file raises at the header; an empty last line raises IndexError; otherwise a session runs exactly when the last line below the header has one or two fields, with its first field as start |
| FocusTracker.ResolverErrorsAbort | focus_tracker.py:32-48 | an error from the resolver aborts start and stop with that error and leaves the file unchanged |
| FocusTracker.StartRejectedWhileActive | focus_tracker.py:32-36 | starting while a session with a non-empty start runs leaves the file unchanged and reports that session's start |
| FocusTracker.StartAppendsOpenRow | focus_tracker.py:32-42 | starting while idle keeps every line and appends exactly the one-field stored start time, which then runs |
| FocusTracker.EndIgnoredWhileIdle | focus_tracker.py:44-48 | stopping while no session runs reports that and leaves the file unchanged |
| FocusTracker.EndRejectsBadStart | focus_tracker.py:44-55 | stopping a session whose start text strptime rejects raises and leaves the file unchanged |
| FocusTracker.EndClosesOpenRow | focus_tracker.py:44-63 | stopping keeps the line count and every line but the last, which gains the end time and duration; afterwards no session runs |
| FocusTracker.EndAddsDuration | focus_tracker.py:55-59 | stopping a session whose line holds only its start adds exactly its duration to the report total |
| FocusTracker.ClosingTwoFieldRowBreaksReport | focus_tracker.py:28-29 | stopping a session whose last line has two fields writes four fields, with the end time in the duration column, after which the report fails |
| FocusTracker.ApplyKeepsBadDuration | focus_tracker.py:32-63 | no command repairs a closed line whose duration field is not a duration: start only appends, and stop only extends a last line of fewer than three fields |
| FocusTracker.ReportStaysBroken | focus_tracker.py:74-81 | once a closed line holds a bad duration, the report fails after every later sequence of commands |
| FocusTracker.ClosingTwoFieldRowBreaksLaterReports | focus_tracker.py:28-81 | after a two-field last line is stopped, every later report fails, whatever commands follow |
| FocusTracker.StampIsNotADuration | focus_tracker.py:59 | no stored time text reads as a duration |
| FocusTracker.StartPreservesConsistent | focus_tracker.py:32-42 | start keeps the invariant: every line but the last is closed, and an open last line is empty or has a non-empty start |
| FocusTracker.EndPreservesConsistent | focus_tracker.py:44-63 | stop keeps the same invariant |
| FocusTracker.RunStaysConsistent | focus_tracker.py:85-97 | every sequence of invocations from a consistent file ends in a consistent file |
| FocusTracker.OpenRowLeftBehind | focus_tracker.py:32-42 | a last line with an empty start is idle, and the next start leaves it open in the middle |
| FocusTracker.ResolversAgree | focus_tracker.py:23-30 | on a file with its header whose last line does not have zero or two fields, both resolvers give the same answer and this one does not raise |
| FocusTracker.ResolversDiffer | focus_tracker.py:28 | a two-field last line runs here and not in the guarded version |
| FocusTracker.MissingFileDiffers | focus_tracker.py:24 | start on a missing file raises here; the guarded version writes the start time as the file's first line, where the header belongs |
| FocusTracker.ApplyAgrees | focus_tracker.py:32-63 | on a file with its header that the guarded version keeps consistent, one command has the same effect in both versions |
| FocusTracker.RunsAgree | focus_tracker.py:85-97 | from such a file, every sequence of commands leaves the same file in both versions |
| FocusTracker.FocusLog.InitLog | focus_tracker.py:11-15 | the in-place init_log: a missing file gets the header line; an existing one is left alone |
| FocusTracker.FocusLog.StartSession | focus_tracker.py:32-42 | the in-place start_session equals `Start` and keeps `Consistent` |
| FocusTracker.FocusLog.EndSession | focus_tracker.py:44-65 | the in-place end_session equals `End` and keeps `Consistent` |
| FocusTracker.FocusLog.GenerateReport | focus_tracker.py:74-83 | generate_report's total is the report total of the file |
| SessionLog.InitLogIdempotent | timetracking/focus_tracker.py:17-20 | init_log run twice equals init_log once; it creates the header-only file when the file is missing and changes nothing otherwise |
| SessionLog.AppendRowShape | timetracking/focus_tracker.py:62-64 | appending a line keeps every line and adds exactly one at the end |
| SessionLog.AppendThenExtend | timetracking/focus_tracker.py:83-87 | appending a line and then extending the last line equals appending the extended line |
| SessionLog.ExtendLastShape | timetracking/focus_tracker.py:83-87 | extending the last line keeps the line count and every other line |
| SessionLog.AppendKeepsOnlyLastOpen | timetracking/focus_tracker.py:62-64 | appending after a closed last line keeps every line but the last closed |
| SessionLog.AppendLeavesOpenRow | timetracking/focus_tracker.py:62-64 | appending after an open last line leaves an open line in the middle |
| SessionLog.ExtendKeepsOnlyLastOpen | timetracking/focus_tracker.py:83-87 | extending the last line keeps every other line closed |
| SessionLog.ReportSumsClosedRows | timetracking/focus_tracker.py:105-107 | the report's running total is the sum of the durations of the lines with at least three fields |
| SessionLog.SumDurationsAppend | timetracking/focus_tracker.py:105-107 | the sum over two runs of closed lines is the sum of their sums |
| SessionLog.SumClosedSkipsOpenRow | timetracking/focus_tracker.py:106 | a line of fewer than three fields adds nothing to the total |
| SessionLog.SumClosedAddsClosedRow | timetracking/focus_tracker.py:106-107 | a closed line adds its duration, or stops the report when its third field is not a number |
| SessionLog.SumClosedStopsAtFailure | timetracking/focus_tracker.py:107 | once the total has failed, later lines do not revive it |
| SessionLog.BadDurationFailsReport | timetracking/focus_tracker.py:105-107 | a closed line whose third field float() rejects makes the report fail |
| SessionLog.AppendKeepsBadDuration | timetracking/focus_tracker.py:62-64 | appending a line keeps every session line where it was |
| SessionLog.ExtendKeepsBadDuration | timetracking/focus_tracker.py:83-87 | extending the last line keeps every other session line as it was |
| SessionLog.ReportAddsClosedRow | timetracking/focus_tracker.py:99-107 | appending a closed line adds its duration to the report total |
| SessionLog.ReportAfterExtendLast | timetracking/focus_tracker.py:99-107 | extending an open last line to three or more fields adds the duration its third field reads as, or fails the report |
| SessionLog.SumReport | timetracking/focus_tracker.py:99-107 | the report loop computes the report total, including the errors for a missing file, a missing header and a bad duration |
| Clock.MinuteOf | timetracking/focus_tracker.py:80 | every valid date and time names a minute within the datetime range |
| Clock.DateTimeOf | timetracking/focus_tracker.py:61 | every minute in range has a valid calendar date and time |
| Clock.MinuteOfDateTimeOf | timetracking/focus_tracker.py:61 | the date and time of a minute count names that same minute |
| Clock.MinuteOfInjective | timetracking/focus_tracker.py:79-80 | two valid dates and times naming the same minute are equal |
| Clock.DateTimeOfMinuteOf | timetracking/focus_tracker.py:79-80 | a valid date and time converted to minutes and back is itself |
| Clock.DaysBeforeYearClosedForm | timetracking/focus_tracker.py:80 | the day count before a year equals the Gregorian closed form with leap-year corrections |
| Clock.Parse | timetracking/focus_tracker.py:79 | strptime with "%Y-%m-%d %H:%M" yields only dates and times that exist |
| Clock.ParseFormat | timetracking/focus_tracker.py:79-83 | parsing the formatted text of a date and time gives it back |
| Clock.FormatParse | timetracking/focus_tracker.py:79-83 | text that parses is exactly the formatting of what it parses to |
| Clock.StampRoundTrip | timetracking/focus_tracker.py:61-79 | storing an instant and parsing it back gives the instant truncated to its minute, less than a minute earlier |
| Clock.ParsedStampIsCanonical | timetracking/focus_tracker.py:79 | any text that parses as a timestamp is the stored text of the instant it denotes |
| Duration.TenthsOfMinute | timetracking/focus_tracker.py:80-83 | the stored duration is the elapsed time rounded to the nearest tenth of a minute, within 3 seconds |
| Duration.ParseRender | timetracking/focus_tracker.py:83-107 | float() of the written duration gives back the same number of tenths |
| Duration.HalfHourIsThirtyMinutes | timetracking/focus_tracker.py:83 | a 30-minute session is written as "30.0" |
| Digits.Numeral | timetracking/focus_tracker.py:83 | the decimal numeral of n is non-empty, all digits, without a leading zero, and denotes n |

## Left out

- Argument parsing, the dispatch in `main`, every printed message, and `show_status`. `show_status` only prints the resolver's answer, and the resolver is modelled.
- The `export` command and spreadsheet output: their code is not part of this model.
- Real file I/O:
  - Creating the parent directory in init_log.
  - Permission and disk errors.
  - Partial writes.
  - CSV quoting and line endings. Each line is modelled as the list of fields the CSV reader returns.
- Two invocations running at once: the model is sequential, and the log has no locking.
- The clock: `now` is a parameter in whole seconds, so microseconds are not modelled.
- Clock.Stamp: writes every year with four digits. strftime's `%Y` may write years before 1000 without padding.
- Clock.Parse: accepts only the zero-padded sixteen-character ASCII form with a single space between date and time. strptime is more lenient. It accepts month, day, hour and minute written without their leading zeros; the year still needs four digits. It matches the format's space against any run of whitespace, so two spaces or a tab also parse. Its `%d` accepts a space-padded day such as `" 1"`. Its digit patterns match any Unicode decimal digit, so a full-width year such as `２０２４` parses too. On a hand-edited start time in one of these forms, the model reports BadTimestamp where Python closes the session.
- Duration.TenthsOfMinute: rounds an exact half tenth upward. Python's `%.1f` rounds the binary float, half to even, so exact halves can differ.
- Duration.Render: a duration in (-0.05, 0) minutes is written "0.0". Python writes "-0.0".
- Duration.ParseTenths: reads only fixed-point text with one decimal digit. `float()` also reads exponents, surrounding spaces, `inf` and `nan`, so a report over hand-edited durations may succeed in Python where the model reports BadDuration.
- SessionLog.ReportTotal: sums exact tenths, so the floating-point rounding of a long sum is not modelled.
- TimetrackingFocusTracker.Start on a missing or empty file writes the start time as the first line, as the code does. A header is never added afterwards.

## Findings

| source | as written | input that shows it | evidently intended | confidence | as-written member | corrected member |
|---|---|---|---|---|---|---|
| focus_tracker.py:28 | `len(rows[-1]) < 3` treats a two-field last line as a running session, and `stop` then appends two more fields | a log whose last line is `2024-01-01 09:00,x`; `stop` writes `2024-01-01 09:00,x,<end>,<duration>`, and every later `report` fails because `float(<end>)` raises, whatever commands follow | only a one-field line is a running session, so stopping never breaks the report (the guarded version's test) | not executed | FocusTracker.ClosingTwoFieldRowBreaksLaterReports | TimetrackingFocusTracker.EndKeepsReportReadable |
