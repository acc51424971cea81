/**
 * focus_tracker.py, the unguarded version of the tracker.  Its resolver
 * counts a session as running when the last session row has fewer than
 * three fields, and every error a command raises reaches main's handler: a
 * missing file, a file without a first line and an empty last row raise, and
 * the command is abandoned before anything is written.
 */
module FocusTracker {
  import opened Wrappers
  import opened SessionLog
  import Clock
  import Duration
  import Guarded = TimetrackingFocusTracker

  /**
   * get_current_session: the start text of the last session row when that
   * row has fewer than three fields; opening a missing file, skipping the
   * header of an empty file and reading the first field of an empty row raise.
   */
  function CurrentSession(file: LogFile): (r: Result<Option<string>, Error>)
    ensures r == Failure(FileNotFound) <==> file.None?
    ensures r == Failure(MissingHeader) <==> file == Some([])
    ensures r == Failure(IndexOutOfRange) <==> DataRows(file) != [] && Last(DataRows(file)) == []
    ensures r.Failure? ==> r.error in {FileNotFound, MissingHeader, IndexOutOfRange}
    ensures (r.Success? && r.value.Some?) <==> DataRows(file) != [] && 1 <= |Last(DataRows(file))| < 3
    ensures r.Success? && r.value.Some? ==> r.value.value == Last(DataRows(file))[0]
  {
    match file
    case None => Failure(FileNotFound)
    case Some(lines) =>
      if lines == [] then Failure(MissingHeader)
      else
        var rows := lines[1..];
        if rows != [] && |rows[|rows| - 1]| < 3 then
          var lastRow := rows[|rows| - 1];
          if lastRow == [] then Failure(IndexOutOfRange) else Success(Some(lastRow[0]))
        else Success(None)
  }

  /** start_session: an error from the resolver aborts it; otherwise as in the guarded version. */
  function Start(file: LogFile, now: int): Step<Result<StartOutcome, Error>>
    requires Clock.ValidInstant(now)
  {
    match CurrentSession(file)
    case Failure(e) => Step(Failure(e), file)
    case Success(current) =>
      if IsActive(current) then Step(Success(AlreadyActive(current.value)), file)
      else
        var stamp := Clock.Stamp(now);
        Step(Success(Started(stamp)), AppendRow(file, [stamp]))
  }

  /** end_session: an error from the resolver or from strptime aborts it before the file is written. */
  function End(file: LogFile, now: int): Step<Result<EndOutcome, Error>>
    requires Clock.ValidInstant(now)
  {
    match CurrentSession(file)
    case Failure(e) => Step(Failure(e), file)
    case Success(current) =>
      if !IsActive(current) then Step(Success(NoActiveSession), file)
      else
        var lines := Rows(file);
        assert Last(lines) == Last(DataRows(file));
        match Clock.ParseStamp(Last(lines)[0])
        case None => Step(Failure(BadTimestamp), file)
        case Some(start) => Close(lines, start, now)
  }

  /** The log after one command. */
  function Apply(file: LogFile, cmd: Command): LogFile
    requires cmd.Init? || Clock.ValidInstant(cmd.at)
  {
    match cmd
    case Init => InitFile(file)
    case Begin(t) => Start(file, t).file
    case Finish(t) => End(file, t).file
  }

  /** The log after a sequence of commands, one invocation each. */
  function Run(file: LogFile, cmds: seq<Command>): LogFile
    requires ValidCommands(cmds)
    decreases |cmds|
  {
    if cmds == [] then file else Run(Apply(file, cmds[0]), cmds[1..])
  }

  /**
   * The log shapes this version keeps: every session row but the last is
   * closed, and an open last row either has a non-empty start time or is
   * empty (in which case every later start and end raises).
   */
  predicate Consistent(file: LogFile) {
    OnlyLastOpen(file) &&
    (DataRows(file) != [] && |Last(DataRows(file))| < 3 ==>
      Last(DataRows(file)) == [] || Last(DataRows(file))[0] != "")
  }

  /** An error from the resolver aborts start and end alike and leaves the file as it was. */
  lemma ResolverErrorsAbort(file: LogFile, now: int)
    requires Clock.ValidInstant(now) && CurrentSession(file).Failure?
    ensures var e := CurrentSession(file).error;
      Start(file, now) == Step(Failure(e), file) && End(file, now) == Step(Failure(e), file)
  {
  }

  /** Starting while a session runs changes nothing and echoes the running session's start. */
  lemma StartRejectedWhileActive(file: LogFile, now: int)
    requires Clock.ValidInstant(now)
    requires CurrentSession(file).Success? && IsActive(CurrentSession(file).value)
    ensures Start(file, now) == Step(Success(AlreadyActive(CurrentSession(file).value.value)), file)
  {
  }

  /**
   * Starting while idle appends exactly the row [now]; every earlier row,
   * the header included, stays as it was, and the new session is then the
   * running one.
   */
  lemma StartAppendsOpenRow(file: LogFile, now: int)
    requires Clock.ValidInstant(now)
    requires CurrentSession(file).Success? && !IsActive(CurrentSession(file).value)
    ensures var s := Start(file, now);
      s.outcome == Success(Started(Clock.Stamp(now))) &&
      s.file.Some? && |Rows(s.file)| == |Rows(file)| + 1 &&
      Rows(s.file)[..|Rows(file)|] == Rows(file) &&
      Last(Rows(s.file)) == [Clock.Stamp(now)] &&
      CurrentSession(s.file) == Success(Some(Clock.Stamp(now)))
  {
    AppendRowShape(file, [Clock.Stamp(now)]);
  }

  /** Ending while no session runs changes nothing. */
  lemma EndIgnoredWhileIdle(file: LogFile, now: int)
    requires Clock.ValidInstant(now)
    requires CurrentSession(file).Success? && !IsActive(CurrentSession(file).value)
    ensures End(file, now) == Step(Success(NoActiveSession), file)
  {
  }

  /** Ending a session whose start time does not parse raises and changes nothing. */
  lemma EndRejectsBadStart(file: LogFile, now: int, start: string)
    requires Clock.ValidInstant(now)
    requires CurrentSession(file) == Success(Some(start)) && start != ""
    requires Clock.ParseStamp(start).None?
    ensures End(file, now) == Step(Failure(BadTimestamp), file)
  {
  }

  /** A running session whose start time parses is closed from the parsed instant. */
  lemma EndIsClose(file: LogFile, now: int, start: string, began: int)
    requires Clock.ValidInstant(now)
    requires CurrentSession(file) == Success(Some(start)) && start != ""
    requires Clock.ParseStamp(start) == Some(began)
    ensures Rows(file) != [] && End(file, now) == Close(Rows(file), began, now)
  {
    assert Last(Rows(file)) == Last(DataRows(file));
    assert Last(Rows(file))[0] == start;
  }

  /**
   * Ending the running session keeps the number of rows and every row but
   * the last; the last gains the end time and the duration measured from
   * the parsed start; afterwards no session runs.
   */
  lemma EndClosesOpenRow(file: LogFile, now: int, start: string, began: int)
    requires Clock.ValidInstant(now)
    requires CurrentSession(file) == Success(Some(start)) && start != ""
    requires Clock.ParseStamp(start) == Some(began)
    ensures var tenths := Duration.TenthsOfMinute(now - began);
      var s := End(file, now);
      s.outcome == Success(Ended(Clock.Stamp(now), tenths)) &&
      s.file.Some? && |Rows(s.file)| == |Rows(file)| &&
      Rows(s.file)[..|Rows(file)| - 1] == Rows(file)[..|Rows(file)| - 1] &&
      Last(Rows(s.file)) == Last(Rows(file)) + [Clock.Stamp(now), Duration.Render(tenths)] &&
      CurrentSession(s.file) == Success(None)
  {
    var tenths := Duration.TenthsOfMinute(now - began);
    EndIsClose(file, now, start, began);
    ExtendLastShape(Rows(file), [Clock.Stamp(now), Duration.Render(tenths)]);
  }

  /** Ending a session whose row holds only its start adds exactly its duration to the report total. */
  lemma EndAddsDuration(file: LogFile, now: int, start: string, began: int)
    requires Clock.ValidInstant(now)
    requires DataRows(file) != [] && Last(DataRows(file)) == [start] && start != ""
    requires Clock.ParseStamp(start) == Some(began)
    ensures var tenths := Duration.TenthsOfMinute(now - began);
      ReportTotal(End(file, now).file) == AddTotals(ReportTotal(file), Success(tenths))
  {
    var tenths := Duration.TenthsOfMinute(now - began);
    EndIsClose(file, now, start, began);
    ReportAfterExtendLast(file, [Clock.Stamp(now), Duration.Render(tenths)]);
    Duration.ParseRender(tenths);
  }

  /**
   * A last row of two fields counts as running here, and ending it appends
   * two more: column 2 of the four-field row is then the end time, which is
   * not a duration, so the report fails from then on.
   */
  lemma ClosingTwoFieldRowBreaksReport(file: LogFile, now: int, start: string, began: int)
    requires Clock.ValidInstant(now)
    requires DataRows(file) != [] && |Last(DataRows(file))| == 2
    requires Last(DataRows(file))[0] == start && start != ""
    requires Clock.ParseStamp(start) == Some(began)
    ensures var s := End(file, now);
      s.outcome == Success(Ended(Clock.Stamp(now), Duration.TenthsOfMinute(now - began))) &&
      |Last(Rows(s.file))| == 4 && Last(Rows(s.file))[2] == Clock.Stamp(now) &&
      BadDurationAt(s.file, |DataRows(file)| - 1) &&
      ReportTotal(s.file) == Failure(BadDuration)
  {
    var tenths := Duration.TenthsOfMinute(now - began);
    var fields := [Clock.Stamp(now), Duration.Render(tenths)];
    var after := End(file, now).file;
    EndIsClose(file, now, start, began);
    ExtendLastShape(Rows(file), fields);
    assert Last(DataRows(after)) == Last(Rows(after));
    StampIsNotADuration(now);
    BadDurationFailsReport(after, |DataRows(file)| - 1);
  }

  /**
   * Once a session row holds a bad duration, no later command repairs it:
   * start only appends, and stop only extends a last row of fewer than three
   * fields, which that row is not.
   */
  lemma ApplyKeepsBadDuration(file: LogFile, cmd: Command, k: nat)
    requires BadDurationAt(file, k) && (cmd.Init? || Clock.ValidInstant(cmd.at))
    ensures BadDurationAt(Apply(file, cmd), k)
  {
    match cmd {
      case Init =>
      case Begin(t) =>
        var current := CurrentSession(file);
        if current.Failure? {
          ResolverErrorsAbort(file, t);
        } else if IsActive(current.value) {
          StartRejectedWhileActive(file, t);
        } else {
          AppendKeepsBadDuration(file, [Clock.Stamp(t)], k);
        }
      case Finish(t) =>
        var current := CurrentSession(file);
        if current.Failure? {
          ResolverErrorsAbort(file, t);
        } else if !IsActive(current.value) {
          EndIgnoredWhileIdle(file, t);
        } else {
          var start := current.value.value;
          match Clock.ParseStamp(start) {
            case None =>
              EndRejectsBadStart(file, t, start);
            case Some(began) =>
              EndIsClose(file, t, start, began);
              ExtendKeepsBadDuration(file, [Clock.Stamp(t), Duration.Render(Duration.TenthsOfMinute(t - began))], k);
          }
        }
    }
  }

  /** A report that fails on a bad duration fails after every later sequence of commands. */
  lemma {:induction false} ReportStaysBroken(file: LogFile, cmds: seq<Command>, k: nat)
    requires BadDurationAt(file, k) && ValidCommands(cmds)
    ensures ReportTotal(Run(file, cmds)) == Failure(BadDuration)
    decreases |cmds|
  {
    if cmds == [] {
      BadDurationFailsReport(file, k);
    } else {
      ApplyKeepsBadDuration(file, cmds[0], k);
      ReportStaysBroken(Apply(file, cmds[0]), cmds[1..], k);
    }
  }

  /** Ending a two-field last row breaks every later report, whatever commands follow. */
  lemma ClosingTwoFieldRowBreaksLaterReports(file: LogFile, now: int, start: string, began: int, cmds: seq<Command>)
    requires Clock.ValidInstant(now) && ValidCommands(cmds)
    requires DataRows(file) != [] && |Last(DataRows(file))| == 2
    requires Last(DataRows(file))[0] == start && start != ""
    requires Clock.ParseStamp(start) == Some(began)
    ensures ReportTotal(Run(End(file, now).file, cmds)) == Failure(BadDuration)
  {
    ClosingTwoFieldRowBreaksReport(file, now, start, began);
    ReportStaysBroken(End(file, now).file, cmds, |DataRows(file)| - 1);
  }

  /** A start/end time has a digit where a duration has its decimal point. */
  lemma StampIsNotADuration(t: int)
    requires Clock.ValidInstant(t)
    ensures Duration.ParseTenths(Clock.Stamp(t)) == None
  {
    var s := Clock.Stamp(t);
    assert s[|s| - 2] != '.';
  }

  lemma StartPreservesConsistent(file: LogFile, now: int)
    requires Clock.ValidInstant(now) && Consistent(file)
    ensures Consistent(Start(file, now).file)
  {
    var current := CurrentSession(file);
    if current.Success? && !IsActive(current.value) {
      AppendKeepsOnlyLastOpen(file, [Clock.Stamp(now)]);
    }
  }

  lemma EndPreservesConsistent(file: LogFile, now: int)
    requires Clock.ValidInstant(now) && Consistent(file)
    ensures Consistent(End(file, now).file)
  {
    var current := CurrentSession(file);
    if current.Failure? {
      ResolverErrorsAbort(file, now);
    } else if !IsActive(current.value) {
      EndIgnoredWhileIdle(file, now);
    } else {
      var start := current.value.value;
      match Clock.ParseStamp(start) {
        case None =>
          EndRejectsBadStart(file, now, start);
        case Some(began) =>
          EndIsClose(file, now, start, began);
          ExtendKeepsOnlyLastOpen(file, [Clock.Stamp(now), Duration.Render(Duration.TenthsOfMinute(now - began))]);
      }
    }
  }

  /** Every log the tool can reach from a consistent one, by any sequence of invocations, is consistent. */
  lemma {:induction false} RunStaysConsistent(file: LogFile, cmds: seq<Command>)
    requires Consistent(file) && ValidCommands(cmds)
    ensures Consistent(Run(file, cmds))
    decreases |cmds|
  {
    if cmds != [] {
      match cmds[0] {
        case Init => {}
        case Begin(t) => StartPreservesConsistent(file, t);
        case Finish(t) => EndPreservesConsistent(file, t);
      }
      RunStaysConsistent(Apply(file, cmds[0]), cmds[1..]);
    }
  }

  /**
   * A last row holding an empty start time does not count as running, so
   * the next start leaves it open in the middle of the log.
   */
  lemma OpenRowLeftBehind(file: LogFile, now: int)
    requires Clock.ValidInstant(now)
    requires DataRows(file) != [] && 1 <= |Last(DataRows(file))| < 3 && Last(DataRows(file))[0] == ""
    ensures Start(file, now).outcome == Success(Started(Clock.Stamp(now)))
    ensures !OnlyLastOpen(Start(file, now).file)
  {
    AppendLeavesOpenRow(file, [Clock.Stamp(now)]);
  }

  /**
   * On a log with its header whose last session row does not have zero or
   * two fields, both resolvers give the same answer and this one does not raise.
   */
  lemma ResolversAgree(file: LogFile)
    requires Rows(file) != []
    requires DataRows(file) != [] ==> |Last(DataRows(file))| != 0 && |Last(DataRows(file))| != 2
    ensures CurrentSession(file) == Success(Guarded.CurrentSession(file))
  {
  }

  /** A two-field last row is a running session here and no session in the guarded version. */
  lemma ResolversDiffer(file: LogFile)
    requires DataRows(file) != [] && |Last(DataRows(file))| == 2
    ensures CurrentSession(file) == Success(Some(Last(DataRows(file))[0]))
    ensures Guarded.CurrentSession(file) == None
  {
  }

  /**
   * A start on a missing file raises here; the guarded version creates the
   * file with the start time as its first line, where a header belongs.
   */
  lemma MissingFileDiffers(now: int)
    requires Clock.ValidInstant(now)
    ensures Start(None, now) == Step(Failure(FileNotFound), None)
    ensures Guarded.Start(None, now).file == Some([[Clock.Stamp(now)]])
    ensures DataRows(Guarded.Start(None, now).file) == []
  {
    assert [] + [[Clock.Stamp(now)]] == [[Clock.Stamp(now)]];
  }

  /** On a log the guarded version keeps, with its header, one command has the same effect in both versions. */
  lemma ApplyAgrees(file: LogFile, cmd: Command)
    requires Rows(file) != [] && Guarded.Consistent(file)
    requires cmd.Init? || Clock.ValidInstant(cmd.at)
    ensures Apply(file, cmd) == Guarded.Apply(file, cmd)
    ensures Rows(Apply(file, cmd)) != []
  {
    ResolversAgree(file);
    match cmd {
      case Init =>
      case Begin(t) =>
        AppendRowShape(file, [Clock.Stamp(t)]);
      case Finish(t) =>
        var current := Guarded.CurrentSession(file);
        if IsActive(current) && Clock.ParseStamp(current.value).Some? {
          EndIsClose(file, t, current.value, Clock.ParseStamp(current.value).value);
          ExtendLastShape(Rows(file), [Clock.Stamp(t), Duration.Render(Duration.TenthsOfMinute(t - Clock.ParseStamp(current.value).value))]);
        }
    }
  }

  /**
   * From any log the guarded version keeps, with its header, both versions
   * reach the same log by every sequence of invocations: the two resolvers
   * differ only on logs neither version writes.
   */
  lemma {:induction false} RunsAgree(file: LogFile, cmds: seq<Command>)
    requires Rows(file) != [] && Guarded.Consistent(file) && ValidCommands(cmds)
    ensures Run(file, cmds) == Guarded.Run(file, cmds)
    decreases |cmds|
  {
    if cmds != [] {
      ApplyAgrees(file, cmds[0]);
      Guarded.RunStaysConsistent(file, cmds[..1]);
      assert Guarded.Run(file, cmds[..1]) == Guarded.Apply(file, cmds[0]);
      RunsAgree(Apply(file, cmds[0]), cmds[1..]);
    }
  }

  /** The tracker's log file; each command updates it in place. */
  class FocusLog {
    var file: LogFile

    constructor (file: LogFile)
      ensures this.file == file
    {
      this.file := file;
    }

    /** init_log */
    method InitLog()
      modifies this
      ensures file == InitFile(old(file))
      ensures Consistent(old(file)) ==> Consistent(file)
    {
      if file.None? {
        file := Some([Header]);
      }
    }

    /** start_session */
    method StartSession(now: int) returns (outcome: Result<StartOutcome, Error>)
      requires Clock.ValidInstant(now)
      modifies this
      ensures Step(outcome, file) == Start(old(file), now)
      ensures Consistent(old(file)) ==> Consistent(file)
    {
      ghost var before := file;
      if Consistent(before) {
        StartPreservesConsistent(before, now);
      }
      var current := CurrentSession(file);
      if current.Failure? {
        outcome := Failure(current.error);
        return;
      }
      if current.value.Some? && current.value.value != "" {
        outcome := Success(AlreadyActive(current.value.value));
        return;
      }
      var stamp := Clock.Stamp(now);
      var lines := file.value;
      lines := lines + [[stamp]];
      file := Some(lines);
      outcome := Success(Started(stamp));
    }

    /** end_session */
    method EndSession(now: int) returns (outcome: Result<EndOutcome, Error>)
      requires Clock.ValidInstant(now)
      modifies this
      ensures Step(outcome, file) == End(old(file), now)
      ensures Consistent(old(file)) ==> Consistent(file)
    {
      ghost var before := file;
      var current := CurrentSession(file);
      if current.Failure? {
        outcome := Failure(current.error);
      } else if current.value.Some? && current.value.value != "" {
        var lines := file.value;
        var last := lines[|lines| - 1];
        assert Last(DataRows(file)) == last;
        var start := Clock.ParseStamp(last[0]);
        if start.Some? {
          EndIsClose(file, now, current.value.value, start.value);
          var stamp := Clock.Stamp(now);
          var tenths := Duration.TenthsOfMinute(now - start.value);
          var closing := [stamp, Duration.Render(tenths)];
          ExtendLastShape(lines, closing);
          lines := lines[|lines| - 1 := last + closing];
          file := Some(lines);
          outcome := Success(Ended(stamp, tenths));
        } else {
          EndRejectsBadStart(file, now, current.value.value);
          outcome := Failure(BadTimestamp);
        }
      } else {
        EndIgnoredWhileIdle(file, now);
        outcome := Success(NoActiveSession);
      }
      if Consistent(before) {
        EndPreservesConsistent(before, now);
      }
    }

    /** generate_report: the total of the closed sessions' durations, in tenths of a minute. */
    method GenerateReport() returns (total: Result<int, Error>)
      ensures total == ReportTotal(file)
    {
      total := SumReport(file);
    }
  }
}
