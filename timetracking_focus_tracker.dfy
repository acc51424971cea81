/**
 * timetracking/focus_tracker.py, the guarded version of the tracker.  Its
 * resolver counts a session as running only when the last session row has
 * exactly one field, and it never raises: a missing file, a file without a
 * first line and a header-only file all mean "no session".
 */
module TimetrackingFocusTracker {
  import opened Wrappers
  import opened SessionLog
  import Clock
  import Duration

  /** get_current_session: the start text of the running session, if there is one. */
  function CurrentSession(file: LogFile): (r: Option<string>)
    ensures r.Some? <==> DataRows(file) != [] && |Last(DataRows(file))| == 1
    ensures r.Some? ==> r.value == Last(DataRows(file))[0]
  {
    match file
    case None => None
    case Some(rows) =>
      if rows == [] then None
      else if |rows| == 1 then None
      else
        var lastRow := rows[|rows| - 1];
        if |lastRow| == 1 then Some(lastRow[0]) else None
  }

  /** start_session: refused while a session runs, otherwise one row [now] is appended. */
  function Start(file: LogFile, now: int): Step<StartOutcome>
    requires Clock.ValidInstant(now)
  {
    var current := CurrentSession(file);
    if IsActive(current) then Step(AlreadyActive(current.value), file)
    else
      var stamp := Clock.Stamp(now);
      Step(Started(stamp), AppendRow(file, [stamp]))
  }

  /**
   * end_session: refused while no session runs; otherwise the last line's
   * start time is parsed and the line is extended with the end time and the
   * duration, and the whole file is written back.
   */
  function End(file: LogFile, now: int): Step<Result<EndOutcome, Error>>
    requires Clock.ValidInstant(now)
  {
    var current := CurrentSession(file);
    if !IsActive(current) then Step(Success(NoActiveSession), file)
    else
      var lines := Rows(file);
      assert Last(lines) == Last(DataRows(file));
      match Clock.ParseStamp(Last(lines)[0])
      case None => Step(Failure(BadTimestamp), file)
      case Some(start) => Close(lines, start, now)
  }

  /** The log after one command. */
  function Apply(file: LogFile, cmd: Command): LogFile
    requires cmd.Init? || Clock.ValidInstant(cmd.at)
  {
    match cmd
    case Init => InitFile(file)
    case Begin(t) => Start(file, t).file
    case Finish(t) => End(file, t).file
  }

  /** The log after a sequence of commands, one invocation each. */
  function Run(file: LogFile, cmds: seq<Command>): LogFile
    requires ValidCommands(cmds)
    decreases |cmds|
  {
    if cmds == [] then file else Run(Apply(file, cmds[0]), cmds[1..])
  }

  /**
   * The log shapes this version keeps: every session row but the last is
   * closed, and an open last row is a single, non-empty start time.
   */
  predicate Consistent(file: LogFile) {
    OnlyLastOpen(file) &&
    (DataRows(file) != [] ==>
      |Last(DataRows(file))| >= 3 || (|Last(DataRows(file))| == 1 && Last(DataRows(file))[0] != ""))
  }

  /** Starting while a session runs changes nothing and echoes the running session's start. */
  lemma StartRejectedWhileActive(file: LogFile, now: int)
    requires Clock.ValidInstant(now) && IsActive(CurrentSession(file))
    ensures Start(file, now) == Step(AlreadyActive(CurrentSession(file).value), file)
  {
  }

  /**
   * Starting while idle appends exactly the row [now]; every earlier row,
   * the header included, stays as it was, and the new session is then the
   * running one.
   */
  lemma StartAppendsOpenRow(file: LogFile, now: int)
    requires Clock.ValidInstant(now) && !IsActive(CurrentSession(file))
    ensures var s := Start(file, now);
      s.outcome == Started(Clock.Stamp(now)) &&
      s.file.Some? && |Rows(s.file)| == |Rows(file)| + 1 &&
      Rows(s.file)[..|Rows(file)|] == Rows(file) &&
      Last(Rows(s.file)) == [Clock.Stamp(now)] &&
      (Rows(file) != [] ==> CurrentSession(s.file) == Some(Clock.Stamp(now)))
  {
    AppendRowShape(file, [Clock.Stamp(now)]);
  }

  /** Ending while no session runs changes nothing. */
  lemma EndIgnoredWhileIdle(file: LogFile, now: int)
    requires Clock.ValidInstant(now) && !IsActive(CurrentSession(file))
    ensures End(file, now) == Step(Success(NoActiveSession), file)
  {
  }

  /** Ending a session whose start time does not parse raises and changes nothing. */
  lemma EndRejectsBadStart(file: LogFile, now: int, start: string)
    requires Clock.ValidInstant(now)
    requires CurrentSession(file) == Some(start) && start != ""
    requires Clock.ParseStamp(start).None?
    ensures End(file, now) == Step(Failure(BadTimestamp), file)
  {
  }

  /** A running session whose start time parses is closed from the parsed instant. */
  lemma EndIsClose(file: LogFile, now: int, start: string, began: int)
    requires Clock.ValidInstant(now)
    requires CurrentSession(file) == Some(start) && start != ""
    requires Clock.ParseStamp(start) == Some(began)
    ensures Rows(file) != [] && End(file, now) == Close(Rows(file), began, now)
  {
    assert Last(Rows(file)) == Last(DataRows(file));
    assert Last(Rows(file))[0] == start;
  }

  /**
   * Ending the running session keeps the number of rows and every row but
   * the last; the last becomes [start, end, duration] with the duration
   * measured from the parsed start; afterwards no session runs.
   */
  lemma EndClosesOpenRow(file: LogFile, now: int, start: string, began: int)
    requires Clock.ValidInstant(now)
    requires CurrentSession(file) == Some(start) && start != ""
    requires Clock.ParseStamp(start) == Some(began)
    ensures var tenths := Duration.TenthsOfMinute(now - began);
      var s := End(file, now);
      s.outcome == Success(Ended(Clock.Stamp(now), tenths)) &&
      s.file.Some? && |Rows(s.file)| == |Rows(file)| &&
      Rows(s.file)[..|Rows(file)| - 1] == Rows(file)[..|Rows(file)| - 1] &&
      Last(Rows(s.file)) == [start, Clock.Stamp(now), Duration.Render(tenths)] &&
      CurrentSession(s.file) == None
  {
    var tenths := Duration.TenthsOfMinute(now - began);
    EndIsClose(file, now, start, began);
    ExtendLastShape(Rows(file), [Clock.Stamp(now), Duration.Render(tenths)]);
  }

  /** Ending the running session adds exactly its duration to the report total. */
  lemma EndAddsDuration(file: LogFile, now: int, start: string, began: int)
    requires Clock.ValidInstant(now)
    requires CurrentSession(file) == Some(start) && start != ""
    requires Clock.ParseStamp(start) == Some(began)
    ensures var tenths := Duration.TenthsOfMinute(now - began);
      ReportTotal(End(file, now).file) == AddTotals(ReportTotal(file), Success(tenths))
  {
    var tenths := Duration.TenthsOfMinute(now - began);
    EndIsClose(file, now, start, began);
    ReportAfterExtendLast(file, [Clock.Stamp(now), Duration.Render(tenths)]);
    Duration.ParseRender(tenths);
  }

  /**
   * Ending a session never makes a readable report unreadable: only a row
   * holding just its start is closed, and the duration written reads back.
   */
  lemma EndKeepsReportReadable(file: LogFile, now: int)
    requires Clock.ValidInstant(now) && ReportTotal(file).Success?
    ensures ReportTotal(End(file, now).file).Success?
  {
    var current := CurrentSession(file);
    if IsActive(current) && Clock.ParseStamp(current.value).Some? {
      EndAddsDuration(file, now, current.value, Clock.ParseStamp(current.value).value);
    }
  }

  /**
   * A start followed by an end on a log that has its header gives exactly one
   * more row, closed, whose duration is measured from the start instant
   * truncated to its minute; no session runs afterwards.
   */
  lemma StartThenEnd(file: LogFile, t1: int, t2: int)
    requires Clock.ValidInstant(t1) && Clock.ValidInstant(t2)
    requires Rows(file) != [] && !IsActive(CurrentSession(file))
    ensures var began := t1 / 60 * 60;
      var tenths := Duration.TenthsOfMinute(t2 - began);
      var s1 := Start(file, t1);
      var s2 := End(s1.file, t2);
      s1.outcome == Started(Clock.Stamp(t1)) &&
      s2.outcome == Success(Ended(Clock.Stamp(t2), tenths)) &&
      s2.file == Some(Rows(file) + [[Clock.Stamp(t1), Clock.Stamp(t2), Duration.Render(tenths)]]) &&
      CurrentSession(s2.file) == None
  {
    var s1 := Start(file, t1);
    var began := t1 / 60 * 60;
    var tenths := Duration.TenthsOfMinute(t2 - began);
    StartAppendsOpenRow(file, t1);
    Clock.StampRoundTrip(t1);
    EndClosesOpenRow(s1.file, t2, Clock.Stamp(t1), began);
    AppendThenExtend(file, [Clock.Stamp(t1)], [Clock.Stamp(t2), Duration.Render(tenths)]);
  }

  /** A start followed by an end adds the session's duration to the report total. */
  lemma StartThenEndAddsDuration(file: LogFile, t1: int, t2: int)
    requires Clock.ValidInstant(t1) && Clock.ValidInstant(t2)
    requires Rows(file) != [] && !IsActive(CurrentSession(file))
    ensures var began := t1 / 60 * 60;
      var tenths := Duration.TenthsOfMinute(t2 - began);
      ReportTotal(End(Start(file, t1).file, t2).file) == AddTotals(ReportTotal(file), Success(tenths))
  {
    var tenths := Duration.TenthsOfMinute(t2 - t1 / 60 * 60);
    var row := [Clock.Stamp(t1), Clock.Stamp(t2), Duration.Render(tenths)];
    StartThenEnd(file, t1, t2);
    Duration.ParseRender(tenths);
    ReportAddsClosedRow(file, row, tenths);
  }

  /** Starting a session on a log with its header leaves the report total as it was. */
  lemma StartKeepsTotal(file: LogFile, now: int)
    requires Clock.ValidInstant(now) && Rows(file) != []
    ensures ReportTotal(Start(file, now).file) == ReportTotal(file)
  {
    if !IsActive(CurrentSession(file)) {
      AppendRowShape(file, [Clock.Stamp(now)]);
      SumClosedSkipsOpenRow(DataRows(file), [Clock.Stamp(now)]);
    }
  }

  lemma StartPreservesConsistent(file: LogFile, now: int)
    requires Clock.ValidInstant(now) && Consistent(file)
    ensures Consistent(Start(file, now).file)
  {
    if !IsActive(CurrentSession(file)) {
      AppendKeepsOnlyLastOpen(file, [Clock.Stamp(now)]);
    }
  }

  lemma EndPreservesConsistent(file: LogFile, now: int)
    requires Clock.ValidInstant(now) && Consistent(file)
    ensures Consistent(End(file, now).file)
  {
    var current := CurrentSession(file);
    if !IsActive(current) {
      EndIgnoredWhileIdle(file, now);
    } else {
      var start := current.value;
      match Clock.ParseStamp(start) {
        case None =>
          EndRejectsBadStart(file, now, start);
        case Some(began) =>
          EndIsClose(file, now, start, began);
          ExtendKeepsOnlyLastOpen(file, [Clock.Stamp(now), Duration.Render(Duration.TenthsOfMinute(now - began))]);
      }
    }
  }

  /**
   * Every log the tool can reach from a consistent one, by any sequence of
   * init, start and stop invocations, is consistent; a missing file is.
   */
  lemma {:induction false} RunStaysConsistent(file: LogFile, cmds: seq<Command>)
    requires Consistent(file) && ValidCommands(cmds)
    ensures Consistent(Run(file, cmds))
    decreases |cmds|
  {
    if cmds != [] {
      match cmds[0] {
        case Init => {}
        case Begin(t) => StartPreservesConsistent(file, t);
        case Finish(t) => EndPreservesConsistent(file, t);
      }
      RunStaysConsistent(Apply(file, cmds[0]), cmds[1..]);
    }
  }

  /**
   * "Only the last session row is open" alone is not kept: a short last row
   * that does not count as running (two fields, no field, or an empty start)
   * is left in the middle by the next start.
   */
  lemma OpenRowLeftBehind(file: LogFile, now: int)
    requires Clock.ValidInstant(now) && OnlyLastOpen(file)
    requires DataRows(file) != [] && |Last(DataRows(file))| < 3 && !IsActive(CurrentSession(file))
    ensures !OnlyLastOpen(Start(file, now).file)
  {
    AppendLeavesOpenRow(file, [Clock.Stamp(now)]);
  }

  /** The tracker's log file; each command updates it in place. */
  class FocusLog {
    var file: LogFile

    constructor (file: LogFile)
      ensures this.file == file
    {
      this.file := file;
    }

    /** init_log */
    method InitLog()
      modifies this
      ensures file == InitFile(old(file))
      ensures Consistent(old(file)) ==> Consistent(file)
    {
      if file.None? {
        file := Some([Header]);
      }
    }

    /** start_session */
    method StartSession(now: int) returns (outcome: StartOutcome)
      requires Clock.ValidInstant(now)
      modifies this
      ensures Step(outcome, file) == Start(old(file), now)
      ensures Consistent(old(file)) ==> Consistent(file)
    {
      ghost var before := file;
      if Consistent(before) {
        StartPreservesConsistent(before, now);
      }
      var current := CurrentSession(file);
      if current.Some? && current.value != "" {
        outcome := AlreadyActive(current.value);
        return;
      }
      var stamp := Clock.Stamp(now);
      var lines := if file.Some? then file.value else [];
      lines := lines + [[stamp]];
      file := Some(lines);
      outcome := Started(stamp);
    }

    /** end_session */
    method EndSession(now: int) returns (outcome: Result<EndOutcome, Error>)
      requires Clock.ValidInstant(now)
      modifies this
      ensures Step(outcome, file) == End(old(file), now)
      ensures Consistent(old(file)) ==> Consistent(file)
    {
      ghost var before := file;
      var current := CurrentSession(file);
      if current.Some? && current.value != "" {
        var lines := file.value;
        var last := lines[|lines| - 1];
        assert Last(DataRows(file)) == last;
        var start := Clock.ParseStamp(last[0]);
        if start.Some? {
          EndIsClose(file, now, current.value, start.value);
          var stamp := Clock.Stamp(now);
          var tenths := Duration.TenthsOfMinute(now - start.value);
          var closing := [stamp, Duration.Render(tenths)];
          ExtendLastShape(lines, closing);
          lines := lines[|lines| - 1 := last + closing];
          file := Some(lines);
          outcome := Success(Ended(stamp, tenths));
        } else {
          EndRejectsBadStart(file, now, current.value);
          outcome := Failure(BadTimestamp);
        }
      } else {
        EndIgnoredWhileIdle(file, now);
        outcome := Success(NoActiveSession);
      }
      if Consistent(before) {
        EndPreservesConsistent(before, now);
      }
    }

    /** generate_report: the total of the closed sessions' durations, in tenths of a minute. */
    method GenerateReport() returns (total: Result<int, Error>)
      ensures total == ReportTotal(file)
    {
      total := SumReport(file);
    }
  }
}
