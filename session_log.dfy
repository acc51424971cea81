/**
 * The persisted session log shared by both tracker versions: a CSV file whose
 * first row is the header and whose later rows are sessions.  A session row
 * holds its start time, and once closed also its end time and its duration.
 * The file is a value here: None when it does not exist, otherwise its rows
 * (already split into fields) in file order.
 */
module SessionLog {
  import opened Wrappers
  import Clock
  import Duration

  type Row = seq<string>

  type LogFile = Option<seq<Row>>

  const Header: Row := ["Start Time", "End Time", "Duration (minutes)"]

  /**
   * What the tracker can raise while it works on the log: the file is missing,
   * the file has no first line (no header), the last row is empty and is read
   * by index, strptime rejects a start time, float() rejects a duration.
   */
  datatype Error = FileNotFound | MissingHeader | IndexOutOfRange | BadTimestamp | BadDuration

  /** What start_session reports: the session it began, or the one already running. */
  datatype StartOutcome = Started(at: string) | AlreadyActive(since: string)

  /** What end_session reports: the end time and duration it wrote, or that nothing was running. */
  datatype EndOutcome = Ended(at: string, tenths: int) | NoActiveSession

  /** The outcome of one command together with the log file it leaves behind. */
  datatype Step<O> = Step(outcome: O, file: LogFile)

  /** A command that may change the log, as given to the tool in one invocation. */
  datatype Command = Init | Begin(at: int) | Finish(at: int)

  predicate ValidCommands(cmds: seq<Command>) {
    forall i :: 0 <= i < |cmds| ==> cmds[i].Init? || Clock.ValidInstant(cmds[i].at)
  }

  function Last(rows: seq<Row>): Row
    requires rows != []
  {
    rows[|rows| - 1]
  }

  /** Every row of the file, the header included; none when the file is missing. */
  function Rows(file: LogFile): seq<Row> {
    match file
    case None => []
    case Some(rows) => rows
  }

  /** The rows below the header; none when the file is missing or has no first line. */
  function DataRows(file: LogFile): seq<Row> {
    if Rows(file) == [] then [] else Rows(file)[1..]
  }

  /** Python truthiness of the resolver's answer: a session whose start text is empty counts as none. */
  predicate IsActive(current: Option<string>) {
    current.Some? && current.value != ""
  }

  /** init_log: a missing file is created holding the header row; an existing one is left alone. */
  function InitFile(file: LogFile): LogFile {
    if file.None? then Some([Header]) else file
  }

  /** writerow on the file opened for appending, which creates the file when it is missing. */
  function AppendRow(file: LogFile, row: Row): LogFile {
    Some(Rows(file) + [row])
  }

  /** lines[-1].extend(fields), then every line written back. */
  function ExtendLast(rows: seq<Row>, fields: Row): seq<Row>
    requires rows != []
  {
    rows[..|rows| - 1] + [Last(rows) + fields]
  }

  /**
   * The second half of end_session, once the running session's start time
   * has been read as the instant `start`: the last line gains the end time and
   * the duration in minutes, and every line is written back.
   */
  function Close(lines: seq<Row>, start: int, now: int): Step<Result<EndOutcome, Error>>
    requires Clock.ValidInstant(now) && lines != []
  {
    var stamp := Clock.Stamp(now);
    var tenths := Duration.TenthsOfMinute(now - start);
    Step(Success(Ended(stamp, tenths)), Some(ExtendLast(lines, [stamp, Duration.Render(tenths)])))
  }

  lemma SplitLast(rows: seq<Row>)
    requires rows != []
    ensures rows == rows[..|rows| - 1] + [Last(rows)]
  {
  }

  /** Appending keeps every row and adds exactly the new one at the end. */
  lemma AppendRowShape(file: LogFile, row: Row)
    ensures var r := Rows(AppendRow(file, row));
      |r| == |Rows(file)| + 1 && r[..|Rows(file)|] == Rows(file) && Last(r) == row
    ensures Rows(file) != [] ==> DataRows(AppendRow(file, row)) == DataRows(file) + [row]
  {
    var r := Rows(AppendRow(file, row));
    assert r[..|Rows(file)|] == Rows(file);
  }

  /** Appending a row and then extending it is appending the extended row. */
  lemma AppendThenExtend(file: LogFile, row: Row, fields: Row)
    ensures ExtendLast(Rows(AppendRow(file, row)), fields) == Rows(file) + [row + fields]
  {
    AppendRowShape(file, row);
  }

  /** Extending the last row keeps the row count and every other row. */
  lemma ExtendLastShape(rows: seq<Row>, fields: Row)
    requires rows != []
    ensures var r := ExtendLast(rows, fields);
      |r| == |rows| && r[..|r| - 1] == rows[..|rows| - 1] && Last(r) == Last(rows) + fields
    ensures |rows| >= 2 ==> ExtendLast(rows, fields)[1..] == ExtendLast(rows[1..], fields)
    ensures ExtendLast(rows, fields) == rows[|rows| - 1 := Last(rows) + fields]
  {
    var r := ExtendLast(rows, fields);
    assert r[..|r| - 1] == rows[..|rows| - 1];
    if |rows| >= 2 {
      assert r[1..] == rows[1..][..|rows| - 2] + [Last(rows) + fields];
    }
  }

  /** Every session row except possibly the last one is closed (has at least three fields). */
  predicate OnlyLastOpen(file: LogFile) {
    var data := DataRows(file);
    forall i :: 0 <= i < |data| - 1 ==> |data[i]| >= 3
  }

  /**
   * Appending a row after a closed last row (or to a log with no session
   * rows) keeps every session row but the last closed; the new row is the
   * last session row, unless the file had no header, in which case it became
   * the header.
   */
  lemma AppendKeepsOnlyLastOpen(file: LogFile, row: Row)
    requires OnlyLastOpen(file) && (DataRows(file) != [] ==> |Last(DataRows(file))| >= 3)
    ensures OnlyLastOpen(AppendRow(file, row))
    ensures Rows(file) != [] ==> DataRows(AppendRow(file, row)) != [] && Last(DataRows(AppendRow(file, row))) == row
    ensures Rows(file) == [] ==> DataRows(AppendRow(file, row)) == []
  {
    AppendRowShape(file, row);
    if Rows(file) != [] {
      var data := DataRows(file);
      var data' := DataRows(AppendRow(file, row));
      forall i | 0 <= i < |data'| - 1
        ensures |data'[i]| >= 3
      {
        assert data'[i] == data[i];
      }
    }
  }

  /** Appending a row after an open last row leaves that open row in the middle of the log. */
  lemma AppendLeavesOpenRow(file: LogFile, row: Row)
    requires DataRows(file) != [] && |Last(DataRows(file))| < 3
    ensures !OnlyLastOpen(AppendRow(file, row))
  {
    var data := DataRows(file);
    AppendRowShape(file, row);
    assert DataRows(AppendRow(file, row))[|data| - 1] == Last(data);
  }

  /** Extending the last session row keeps every other session row, so the earlier ones stay closed. */
  lemma ExtendKeepsOnlyLastOpen(file: LogFile, fields: Row)
    requires OnlyLastOpen(file) && DataRows(file) != []
    ensures var after := Some(ExtendLast(Rows(file), fields));
      OnlyLastOpen(after) && DataRows(after) != [] && Last(DataRows(after)) == Last(DataRows(file)) + fields
  {
    var rows := Rows(file);
    var data := DataRows(file);
    var after := Some(ExtendLast(rows, fields));
    ExtendLastShape(rows, fields);
    var r := Rows(after);
    assert DataRows(after)[..|data| - 1] == data[..|data| - 1] by {
      assert DataRows(after)[..|data| - 1] == r[..|r| - 1][1..];
      assert data[..|data| - 1] == rows[..|rows| - 1][1..];
    }
    forall i | 0 <= i < |data| - 1
      ensures |DataRows(after)[i]| >= 3
    {
      assert DataRows(after)[i] == DataRows(after)[..|data| - 1][i];
    }
  }

  lemma InitLogIdempotent(file: LogFile)
    ensures InitFile(InitFile(file)) == InitFile(file)
    ensures file.None? ==> InitFile(file) == Some([Header]) && DataRows(InitFile(file)) == []
    ensures file.Some? ==> InitFile(file) == file
  {
  }

  function AddTotals(a: Result<int, Error>, b: Result<int, Error>): Result<int, Error> {
    if a.Success? && b.Success? then Success(a.value + b.value) else Failure(BadDuration)
  }

  /**
   * generate_report's running total over session rows, in tenths of a minute:
   * rows with fewer than three fields are skipped, and the first column-2
   * text that is not a duration stops the report.
   */
  function SumClosed(rows: seq<Row>): (r: Result<int, Error>)
    ensures r.Failure? ==> r.error == BadDuration
  {
    if rows == [] then Success(0)
    else
      match SumClosed(rows[..|rows| - 1])
      case Failure(e) => Failure(e)
      case Success(total) =>
        var row := Last(rows);
        if |row| < 3 then Success(total)
        else
          match Duration.ParseTenths(row[2])
          case None => Failure(BadDuration)
          case Some(v) => Success(total + v)
  }

  /** generate_report: opening a missing file raises, skipping the header of an empty file raises. */
  function ReportTotal(file: LogFile): Result<int, Error> {
    match file
    case None => Failure(FileNotFound)
    case Some(rows) => if rows == [] then Failure(MissingHeader) else SumClosed(rows[1..])
  }

  /** The closed rows (at least three fields) of a sequence of rows, in order. */
  function ClosedRows(rows: seq<Row>): (r: seq<Row>)
    ensures forall i :: 0 <= i < |r| ==> |r[i]| >= 3
  {
    if rows == [] then []
    else (if |rows[0]| >= 3 then [rows[0]] else []) + ClosedRows(rows[1..])
  }

  /** The sum of the durations in column 2 of closed rows; BadDuration when one of them is not a duration. */
  function SumDurations(rows: seq<Row>): (r: Result<int, Error>)
    requires forall i :: 0 <= i < |rows| ==> |rows[i]| >= 3
    ensures r.Failure? ==> r.error == BadDuration
  {
    if rows == [] then Success(0)
    else
      match Duration.ParseTenths(rows[0][2])
      case None => Failure(BadDuration)
      case Some(v) => AddTotals(Success(v), SumDurations(rows[1..]))
  }

  lemma {:induction false} ClosedRowsAppend(a: seq<Row>, b: seq<Row>)
    ensures ClosedRows(a + b) == ClosedRows(a) + ClosedRows(b)
  {
    if a == [] {
      assert a + b == b;
    } else {
      assert (a + b)[0] == a[0];
      assert (a + b)[1..] == a[1..] + b;
      ClosedRowsAppend(a[1..], b);
    }
  }

  lemma {:induction false} SumDurationsAppend(a: seq<Row>, b: seq<Row>)
    requires forall i :: 0 <= i < |a| ==> |a[i]| >= 3
    requires forall i :: 0 <= i < |b| ==> |b[i]| >= 3
    ensures SumDurations(a + b) == AddTotals(SumDurations(a), SumDurations(b))
  {
    if a == [] {
      assert a + b == b;
    } else {
      assert (a + b)[0] == a[0];
      assert (a + b)[1..] == a[1..] + b;
      SumDurationsAppend(a[1..], b);
    }
  }

  /**
   * The report's running total is the sum of the durations of the closed rows:
   * shorter rows never contribute and never stop it.
   */
  lemma {:induction false} ReportSumsClosedRows(rows: seq<Row>)
    ensures SumClosed(rows) == SumDurations(ClosedRows(rows))
  {
    if rows != [] {
      var init := rows[..|rows| - 1];
      var row := Last(rows);
      assert rows == init + [row];
      ReportSumsClosedRows(init);
      ClosedRowsAppend(init, [row]);
      SumDurationsAppend(ClosedRows(init), ClosedRows([row]));
      if |row| >= 3 {
        assert ClosedRows([row]) == [row] by {
          assert [row][1..] == [];
        }
        SumClosedAddsClosedRow(init, row);
      } else {
        assert ClosedRows([row]) == [] by {
          assert [row][1..] == [];
        }
        assert ClosedRows(init) + [] == ClosedRows(init);
        SumClosedSkipsOpenRow(init, row);
      }
    }
  }

  /** A row that has fewer than three fields, added at the end, leaves the total as it was. */
  lemma SumClosedSkipsOpenRow(rows: seq<Row>, row: Row)
    requires |row| < 3
    ensures SumClosed(rows + [row]) == SumClosed(rows)
  {
    assert (rows + [row])[..|rows|] == rows;
  }

  /** A closed row added at the end adds its duration to the total, or stops the report if it has none. */
  lemma SumClosedAddsClosedRow(rows: seq<Row>, row: Row)
    requires |row| >= 3
    ensures SumClosed(rows + [row]) ==
      match Duration.ParseTenths(row[2])
      case None => Failure(BadDuration)
      case Some(v) => AddTotals(SumClosed(rows), Success(v))
  {
    assert (rows + [row])[..|rows|] == rows;
  }

  /** Appending a closed row whose duration reads back as v adds v to the report total. */
  lemma ReportAddsClosedRow(file: LogFile, row: Row, v: int)
    requires Rows(file) != [] && |row| >= 3 && Duration.ParseTenths(row[2]) == Some(v)
    ensures ReportTotal(AppendRow(file, row)) == AddTotals(ReportTotal(file), Success(v))
  {
    AppendRowShape(file, row);
    SumClosedAddsClosedRow(DataRows(file), row);
  }

  /**
   * Extending the last session row: if it was open, the report total gains
   * the duration the new third field reads as, or stops if it reads as none;
   * if it was closed already, the total is unchanged.
   */
  lemma ReportAfterExtendLast(file: LogFile, fields: Row)
    requires DataRows(file) != []
    ensures var n := |Last(DataRows(file))|;
      var after := Some(ExtendLast(Rows(file), fields));
      var total := SumClosed(DataRows(file)[..|DataRows(file)| - 1]);
      (n < 3 && n + |fields| >= 3 ==>
         ReportTotal(after) ==
           match Duration.ParseTenths((Last(DataRows(file)) + fields)[2])
           case None => Failure(BadDuration)
           case Some(v) => AddTotals(total, Success(v))) &&
      (n < 3 ==> ReportTotal(file) == total)
  {
    var data := DataRows(file);
    var before := data[..|data| - 1];
    var closed := Last(data) + fields;
    ExtendLastShape(Rows(file), fields);
    SplitLast(data);
    assert DataRows(Some(ExtendLast(Rows(file), fields))) == before + [closed];
    if |Last(data)| < 3 {
      SumClosedSkipsOpenRow(before, Last(data));
      if |closed| >= 3 {
        SumClosedAddsClosedRow(before, closed);
      }
    }
  }

  /** Session row k is closed, and its duration field is not a duration. */
  predicate BadDurationAt(file: LogFile, k: nat) {
    k < |DataRows(file)| && |DataRows(file)[k]| >= 3 && Duration.ParseTenths(DataRows(file)[k][2]).None?
  }

  /** A closed row whose duration does not read as one makes the report fail. */
  lemma BadDurationFailsReport(file: LogFile, k: nat)
    requires BadDurationAt(file, k)
    ensures ReportTotal(file) == Failure(BadDuration)
  {
    var data := DataRows(file);
    assert data[..k + 1] == data[..k] + [data[k]];
    SumClosedAddsClosedRow(data[..k], data[k]);
    SumClosedStopsAtFailure(data, k + 1);
  }

  /** Appending a row keeps every session row where it was. */
  lemma AppendKeepsBadDuration(file: LogFile, row: Row, k: nat)
    requires BadDurationAt(file, k)
    ensures BadDurationAt(AppendRow(file, row), k)
  {
    AppendRowShape(file, row);
  }

  /** Extending the last session row keeps every other session row as it was. */
  lemma ExtendKeepsBadDuration(file: LogFile, fields: Row, k: nat)
    requires BadDurationAt(file, k) && k < |DataRows(file)| - 1
    ensures BadDurationAt(Some(ExtendLast(Rows(file), fields)), k)
  {
    var rows := Rows(file);
    ExtendLastShape(rows, fields);
    assert DataRows(Some(ExtendLast(rows, fields)))[k] == ExtendLast(rows, fields)[k + 1] == rows[k + 1];
  }

  /** Once the running total has stopped on a bad duration, later rows do not revive it. */
  lemma {:induction false} SumClosedStopsAtFailure(rows: seq<Row>, k: nat)
    requires k <= |rows| && SumClosed(rows[..k]).Failure?
    ensures SumClosed(rows) == Failure(BadDuration)
    decreases |rows| - k
  {
    if k < |rows| {
      assert rows[..k + 1][..k] == rows[..k];
      SumClosedStopsAtFailure(rows, k + 1);
    } else {
      assert rows[..k] == rows;
    }
  }

  /**
   * generate_report's loop: skip the header, then add up column 2 of every
   * row with at least three fields, in tenths of a minute.
   */
  method SumReport(file: LogFile) returns (total: Result<int, Error>)
    ensures total == ReportTotal(file)
  {
    if file.None? {
      return Failure(FileNotFound);
    }
    var lines := file.value;
    if |lines| == 0 {
      return Failure(MissingHeader);
    }
    var sum := 0;
    var i := 1;
    while i < |lines|
      invariant 1 <= i <= |lines|
      invariant SumClosed(lines[1..i]) == Success(sum)
    {
      var row := lines[i];
      assert lines[1..i + 1] == lines[1..i] + [row];
      if |row| >= 3 {
        SumClosedAddsClosedRow(lines[1..i], row);
        var v := Duration.ParseTenths(row[2]);
        if v.None? {
          assert lines[1..][..i] == lines[1..i + 1];
          SumClosedStopsAtFailure(lines[1..], i);
          return Failure(BadDuration);
        }
        sum := sum + v.value;
      } else {
        SumClosedSkipsOpenRow(lines[1..i], row);
      }
      i := i + 1;
    }
    assert lines[1..i] == lines[1..];
    total := Success(sum);
  }
}
