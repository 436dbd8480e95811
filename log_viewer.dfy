/**
 * The log timestamp-difference viewer: it reads device log lines carrying
 * an uptime stamp `<d>d HH:MM:SS <ms>.<ns>`, classifies them, shows the
 * time since the previous line overall and per type, and keeps a list of
 * picked lines whose neighbour differences and total it shows and exports
 * as CSV. Times are integer nanoseconds, so the stamp's sub-millisecond
 * part is exact.
 */
module LogViewer {
  import opened Wrappers
  import opened Strings

  // ---- parseCustomTimestamp ---------------------------------------------------

  /** The six integers the stamp pattern captures: days, hours, minutes, seconds, milliseconds, and the digits after the point. */
  datatype Stamp = Stamp(days: nat, hours: nat, minutes: nat, seconds: nat, millis: nat, nanos: nat)

  /** A log line and what the stamp pattern finds in it (`None` when it does not match). */
  datatype Line = Line(text: string, stamp: Option<Stamp>)

  const NsPerMs: nat := 1000000

  /** The whole milliseconds of a stamp. */
  function StampMillis(s: Stamp): nat {
    s.days * 86400000 + s.hours * 3600000 + s.minutes * 60000 + s.seconds * 1000 + s.millis
  }

  /** `parseCustomTimestamp`, in nanoseconds: the milliseconds plus the captured digits as millionths of a millisecond. */
  function ParseTimestamp(line: Line): (t: Option<nat>)
    ensures line.stamp.None? <==> t.None?
  {
    if line.stamp.None? then None else Some(StampMillis(line.stamp.value) * NsPerMs + line.stamp.value.nanos)
  }

  /** A stamp whose fields are within a clock's ranges. */
  predicate ClockStamp(s: Stamp) {
    s.hours < 24 && s.minutes < 60 && s.seconds < 60 && s.millis < 1000 && s.nanos < NsPerMs
  }

  /** Comparison of stamps field by field, days first. */
  predicate StampEarlier(a: Stamp, b: Stamp) {
    if a.days != b.days then a.days < b.days
    else if a.hours != b.hours then a.hours < b.hours
    else if a.minutes != b.minutes then a.minutes < b.minutes
    else if a.seconds != b.seconds then a.seconds < b.seconds
    else if a.millis != b.millis then a.millis < b.millis
    else a.nanos < b.nanos
  }

  /** On clock stamps the time splits back into its whole milliseconds and the sub-millisecond digits. */
  lemma TimestampSplit(line: Line)
    requires line.stamp.Some? && ClockStamp(line.stamp.value)
    ensures ParseTimestamp(line).value / NsPerMs == StampMillis(line.stamp.value)
    ensures ParseTimestamp(line).value % NsPerMs == line.stamp.value.nanos
  {
    var s := line.stamp.value;
    DivModUnique(ParseTimestamp(line).value, NsPerMs, StampMillis(s), s.nanos);
  }

  /** On clock stamps, a stamp read earlier field by field is an earlier time. */
  lemma TimestampMonotone(a: Line, b: Line)
    requires a.stamp.Some? && b.stamp.Some? && ClockStamp(a.stamp.value) && ClockStamp(b.stamp.value)
    requires StampEarlier(a.stamp.value, b.stamp.value)
    ensures ParseTimestamp(a).value < ParseTimestamp(b).value
  {
    var x := a.stamp.value;
    var y := b.stamp.value;
    MillisOrder(x, y);
    if StampMillis(x) < StampMillis(y) {
      MulLe(NsPerMs, StampMillis(x) + 1, StampMillis(y));
    }
  }

  /** The time below the day. */
  function DayMillis(s: Stamp): nat {
    s.hours * 3600000 + s.minutes * 60000 + s.seconds * 1000 + s.millis
  }

  lemma MillisOrder(x: Stamp, y: Stamp)
    requires ClockStamp(x) && ClockStamp(y) && StampEarlier(x, y)
    ensures StampMillis(x) < StampMillis(y) || (StampMillis(x) == StampMillis(y) && x.nanos < y.nanos)
  {
    assert StampMillis(x) == x.days * 86400000 + DayMillis(x);
    assert StampMillis(y) == y.days * 86400000 + DayMillis(y);
    if x.days != y.days {
      MulLe(86400000, x.days + 1, y.days);
    } else if x.hours != y.hours {
      MulLe(3600000, x.hours + 1, y.hours);
    } else if x.minutes != y.minutes {
      MulLe(60000, x.minutes + 1, y.minutes);
    }
  }

  // ---- getLogType -------------------------------------------------------------

  /** `getLogType`: the first of the marked types the line mentions, else `default`. */
  function LogType(line: string): (t: string)
    ensures Contains(line, "asp_script_print") ==> t == "asp_script_print"
    ensures !Contains(line, "asp_script_print") && Contains(line, "asp_script_rw_data") ==> t == "asp_script_rw_data"
    ensures !Contains(line, "asp_script_print") && !Contains(line, "asp_script_rw_data") && Contains(line, "jb_modem") ==> t == "jb_modem"
    ensures !Contains(line, "asp_script_print") && !Contains(line, "asp_script_rw_data") && !Contains(line, "jb_modem") ==> t == "default"
  {
    if Contains(line, "asp_script_print") then "asp_script_print"
    else if Contains(line, "asp_script_rw_data") then "asp_script_rw_data"
    else if Contains(line, "jb_modem") then "jb_modem"
    else "default"
  }

  // ---- Math.round and getTimeDiffColor ---------------------------------------

  /** `Math.round` of a nanosecond difference in milliseconds: halves round up. */
  function RoundMs(ns: int): int {
    (ns + 500000) / NsPerMs
  }

  /** The rounded value is at most half a millisecond away from the exact one. */
  lemma RoundMsBounds(ns: int)
    ensures RoundMs(ns) * NsPerMs - 500000 <= ns < RoundMs(ns) * NsPerMs + 500000
  {
    var q := RoundMs(ns);
    var r := (ns + 500000) % NsPerMs;
    assert ns + 500000 == q * NsPerMs + r;
  }

  datatype DiffColor = LightGreen | Yellow | Orange | Red

  /** `getTimeDiffColor`. */
  function TimeDiffColor(diff: int): (c: DiffColor)
    ensures c == LightGreen <==> diff < 1000
    ensures c == Yellow <==> 1000 <= diff < 3000
    ensures c == Orange <==> 3000 <= diff < 6000
    ensures c == Red <==> 6000 <= diff
  {
    if diff < 1000 then LightGreen else if diff < 3000 then Yellow else if diff < 6000 then Orange else Red
  }

  function Severity(c: DiffColor): nat {
    match c
    case LightGreen => 0
    case Yellow => 1
    case Orange => 2
    case Red => 3
  }

  /** A longer gap is never shown in a milder colour. */
  lemma TimeDiffColorMonotone(d1: int, d2: int)
    requires d1 <= d2
    ensures Severity(TimeDiffColor(d1)) <= Severity(TimeDiffColor(d2))
  {
  }

  // ---- processLogs ------------------------------------------------------------

  /** One row of the log table: the time, both differences, the type and the line. */
  datatype Row = Row(time: nat, diff: int, typeDiff: int, logType: string, entry: string)

  /** The rows so far, the previous time, and the last time of each type. */
  datatype Tracker = Tracker(rows: seq<Row>, previous: Option<nat>, lastOfType: map<string, nat>)

  /** One turn of the `processLogs` loop: a stamped line adds a row and moves both trackers. */
  function Step(prior: Tracker, line: Line): Tracker {
    var t := ParseTimestamp(line);
    if t.None? then prior
    else
      var ty := LogType(line.text);
      var d := if prior.previous.Some? then RoundMs(t.value - prior.previous.value) else 0;
      var td := if ty in prior.lastOfType then RoundMs(t.value - prior.lastOfType[ty]) else 0;
      Tracker(prior.rows + [Row(t.value, d, td, ty, line.text)], Some(t.value), prior.lastOfType[ty := t.value])
  }

  /** The state of the `processLogs` loop after the first lines. */
  function Process(lines: seq<Line>): Tracker {
    if lines == [] then Tracker([], None, map[])
    else Step(Process(lines[..|lines| - 1]), lines[|lines| - 1])
  }

  lemma ProcessSnoc(lines: seq<Line>, i: nat)
    requires i < |lines|
    ensures Process(lines[..i + 1]) == Step(Process(lines[..i]), lines[i])
  {
    assert lines[..i + 1][..i] == lines[..i];
  }

  /** The lines that carry a stamp, in order. */
  function Stamped(lines: seq<Line>): seq<Line> {
    if lines == [] then []
    else Stamped(lines[..|lines| - 1]) + (if lines[|lines| - 1].stamp.Some? then [lines[|lines| - 1]] else [])
  }

  /** The index of the last row of type `ty`. */
  function LastOfType(rows: seq<Row>, ty: string): (j: Option<nat>)
    ensures j.Some? ==> j.value < |rows| && rows[j.value].logType == ty && forall k :: j.value < k < |rows| ==> rows[k].logType != ty
    ensures j.None? ==> forall k :: 0 <= k < |rows| ==> rows[k].logType != ty
  {
    if rows == [] then None
    else if rows[|rows| - 1].logType == ty then Some(|rows| - 1)
    else LastOfType(rows[..|rows| - 1], ty)
  }

  /** The trackers always hold the time of the last row and of the last row of each type. */
  ghost predicate Tracks(t: Tracker) {
    (t.previous.None? <==> t.rows == [])
    && (t.previous.Some? ==> t.previous.value == t.rows[|t.rows| - 1].time)
    && forall ty :: ((ty in t.lastOfType <==> LastOfType(t.rows, ty).Some?)
      && (ty in t.lastOfType ==> t.lastOfType[ty] == t.rows[LastOfType(t.rows, ty).value].time))
  }

  lemma {:induction false} ProcessTracks(lines: seq<Line>)
    ensures Tracks(Process(lines))
  {
    if lines != [] {
      ProcessTracks(lines[..|lines| - 1]);
      var prior := Process(lines[..|lines| - 1]);
      var p := Process(lines);
      if p != prior {
        forall ty ensures (ty in p.lastOfType <==> LastOfType(p.rows, ty).Some?)
          && (ty in p.lastOfType ==> p.lastOfType[ty] == p.rows[LastOfType(p.rows, ty).value].time)
        {
          LastOfTypeSnoc(prior.rows, p.rows[|p.rows| - 1], ty);
        }
      }
    }
  }

  lemma LastOfTypeSnoc(rows: seq<Row>, r: Row, ty: string)
    ensures LastOfType(rows + [r], ty) == if r.logType == ty then Some(|rows|) else LastOfType(rows, ty)
  {
    assert (rows + [r])[..|rows|] == rows;
  }

  /** The table has one row per stamped line, in order, with that line's time, type and text. */
  lemma {:induction false} ProcessRows(lines: seq<Line>)
    ensures var rows := Process(lines).rows;
      |rows| == |Stamped(lines)|
      && forall k :: 0 <= k < |rows| ==> (Stamped(lines)[k].stamp.Some?
        && rows[k].time == ParseTimestamp(Stamped(lines)[k]).value
        && rows[k].entry == Stamped(lines)[k].text && rows[k].logType == LogType(Stamped(lines)[k].text))
  {
    if lines != [] {
      ProcessRows(lines[..|lines| - 1]);
    }
  }

  /**
   * The first row's difference is 0 and every later row's is the rounded
   * time since the row before it; the per-type difference is 0 on the
   * first row of its type and otherwise the rounded time since the
   * previous row of that type.
   */
  lemma ProcessDiffs(lines: seq<Line>, k: nat)
    requires k < |Process(lines).rows|
    ensures var rows := Process(lines).rows;
      && rows[k].diff == (if k == 0 then 0 else RoundMs(rows[k].time - rows[k - 1].time))
      && rows[k].typeDiff == (if LastOfType(rows[..k], rows[k].logType).None? then 0
        else RoundMs(rows[k].time - rows[LastOfType(rows[..k], rows[k].logType).value].time))
  {
    ProcessDiff(lines, k);
    ProcessTypeDiff(lines, k);
  }

  lemma {:induction false} ProcessDiff(lines: seq<Line>, k: nat)
    requires k < |Process(lines).rows|
    ensures var rows := Process(lines).rows;
      rows[k].diff == (if k == 0 then 0 else RoundMs(rows[k].time - rows[k - 1].time))
  {
    var init := lines[..|lines| - 1];
    var prior := Process(init);
    if k < |prior.rows| {
      ProcessDiff(init, k);
    } else {
      ProcessTracks(init);
    }
  }

  lemma {:induction false} ProcessTypeDiff(lines: seq<Line>, k: nat)
    requires k < |Process(lines).rows|
    ensures var rows := Process(lines).rows;
      rows[k].typeDiff == (if LastOfType(rows[..k], rows[k].logType).None? then 0
        else RoundMs(rows[k].time - rows[LastOfType(rows[..k], rows[k].logType).value].time))
  {
    var init := lines[..|lines| - 1];
    var prior := Process(init);
    var rows := Process(lines).rows;
    if k < |prior.rows| {
      ProcessTypeDiff(init, k);
      assert rows[..k] == prior.rows[..k];
    } else {
      ProcessTracks(init);
      assert rows[..k] == prior.rows;
    }
  }

  /** The loop of `processLogs`: the rows of the log table, line by line. */
  method TableRows(lines: seq<Line>) returns (rows: seq<Row>)
    ensures rows == Process(lines).rows
  {
    rows := [];
    var previousTimestamp: Option<nat> := None;
    var lastTypeTimestamps: map<string, nat> := map[];
    var i := 0;
    while i < |lines|
      invariant i <= |lines|
      invariant Process(lines[..i]) == Tracker(rows, previousTimestamp, lastTypeTimestamps)
    {
      ProcessSnoc(lines, i);
      var line := lines[i];
      var currentTime := ParseTimestamp(line);
      var logType := LogType(line.text);
      if currentTime.Some? {
        var diffFromPreviousLog := if previousTimestamp.Some? then RoundMs(currentTime.value - previousTimestamp.value) else 0;
        var diffFromPreviousTypeLog := if logType in lastTypeTimestamps then RoundMs(currentTime.value - lastTypeTimestamps[logType]) else 0;
        previousTimestamp := Some(currentTime.value);
        lastTypeTimestamps := lastTypeTimestamps[logType := currentTime.value];
        rows := rows + [Row(currentTime.value, diffFromPreviousLog, diffFromPreviousTypeLog, logType, line.text)];
      }
      i := i + 1;
    }
    assert lines[..i] == lines;
  }

  // ---- The picked logs -----------------------------------------------------------

  /** A log picked into the floating table, with what the stamp pattern finds in its text. */
  datatype Log = Log(time: int, logType: string, entry: string, stamp: Option<Stamp>)

  /**
   * The click handler's log for a table row: the time as `parseInt` reads it
   * back, in whole milliseconds, and the trimmed `innerText` of the type and
   * text cells. The cells hold the type and the line as markup; `innerText`,
   * the text the browser renders for a cell's markup, is a parameter.
   */
  function Pick(row: Row, entryStamp: Option<Stamp>, innerText: string -> string): (log: Log)
    ensures log.time * NsPerMs <= row.time < (log.time + 1) * NsPerMs
    ensures log.logType == JsTrim(innerText(row.logType)) && log.entry == JsTrim(innerText(row.entry))
    ensures log.stamp == entryStamp
  {
    Log(row.time / NsPerMs, JsTrim(innerText(row.logType)), JsTrim(innerText(row.entry)), entryStamp)
  }

  predicate SortedByTime(logs: seq<Log>) {
    forall i, j :: 0 <= i < j < |logs| ==> logs[i].time <= logs[j].time
  }

  /** The equality `addLog` tests: time, type and text. */
  predicate SameLog(a: Log, b: Log) {
    a.time == b.time && a.logType == b.logType && a.entry == b.entry
  }

  predicate AlreadyAdded(logs: seq<Log>, log: Log) {
    exists i :: 0 <= i < |logs| && SameLog(logs[i], log)
  }

  /** What the stable sort by time makes of a sorted list with `x` pushed at its end. */
  function InsertByTime(logs: seq<Log>, x: Log): seq<Log> {
    if logs == [] || logs[|logs| - 1].time <= x.time then logs + [x]
    else InsertByTime(logs[..|logs| - 1], x) + [logs[|logs| - 1]]
  }

  /** Where `x` lands: after every log at or before its time. */
  function InsertPos(logs: seq<Log>, x: Log): (p: nat)
    ensures p <= |logs|
  {
    if logs == [] || logs[|logs| - 1].time <= x.time then |logs| else InsertPos(logs[..|logs| - 1], x)
  }

  /**
   * Pushing and sorting a sorted list inserts the new log after every log
   * whose time is not later and before every later one; the other logs
   * keep their order, and the result is sorted.
   */
  lemma InsertByTimeSpec(logs: seq<Log>, x: Log)
    requires SortedByTime(logs)
    ensures var p := InsertPos(logs, x);
      && InsertByTime(logs, x) == logs[..p] + [x] + logs[p..]
      && (forall i :: 0 <= i < p ==> logs[i].time <= x.time)
      && (forall i :: p <= i < |logs| ==> x.time < logs[i].time)
  {
    InsertByTimeShape(logs, x);
    InsertPosBounds(logs, x);
  }

  lemma {:induction false} InsertByTimeShape(logs: seq<Log>, x: Log)
    ensures var p := InsertPos(logs, x);
      InsertByTime(logs, x) == logs[..p] + [x] + logs[p..]
  {
    if logs != [] && logs[|logs| - 1].time > x.time {
      var init := logs[..|logs| - 1];
      InsertByTimeShape(init, x);
      var p := InsertPos(init, x);
      assert init[..p] == logs[..p];
      assert init[p..] + [logs[|logs| - 1]] == logs[p..];
    }
  }

  lemma {:induction false} InsertPosBounds(logs: seq<Log>, x: Log)
    requires SortedByTime(logs)
    ensures var p := InsertPos(logs, x);
      && (forall i :: 0 <= i < p ==> logs[i].time <= x.time)
      && (forall i :: p <= i < |logs| ==> x.time < logs[i].time)
  {
    if logs != [] && logs[|logs| - 1].time > x.time {
      var init := logs[..|logs| - 1];
      InsertPosBounds(init, x);
      assert forall i :: 0 <= i < |init| ==> init[i] == logs[i];
    }
  }

  /** The result is sorted and holds the old logs and `x`, each once. */
  lemma InsertByTimeSorted(logs: seq<Log>, x: Log)
    requires SortedByTime(logs)
    ensures SortedByTime(InsertByTime(logs, x))
    ensures multiset(InsertByTime(logs, x)) == multiset(logs) + multiset{x}
    ensures |InsertByTime(logs, x)| == |logs| + 1
  {
    InsertByTimeSpec(logs, x);
    var p := InsertPos(logs, x);
    var r := InsertByTime(logs, x);
    assert logs == logs[..p] + logs[p..];
    forall i, j | 0 <= i < j < |r| ensures r[i].time <= r[j].time {
      if j < p || i > p {
      } else if i == p {
        assert r[j] == logs[j - 1];
      } else if j == p {
        assert r[i] == logs[i];
      } else {
        assert r[i] == logs[i] && r[j] == logs[j - 1];
      }
    }
  }

  /** Once added, a log is a duplicate of itself, so adding it again changes nothing. */
  lemma InsertedIsDuplicate(logs: seq<Log>, x: Log)
    requires SortedByTime(logs)
    ensures AlreadyAdded(InsertByTime(logs, x), x)
  {
    InsertByTimeSpec(logs, x);
    assert InsertByTime(logs, x)[InsertPos(logs, x)] == x;
  }

  /** `splice(index, 1)`: a negative index counts from the end, one past the end removes nothing. */
  function Splice(logs: seq<Log>, index: int): seq<Log> {
    var start := if index < 0 then (if |logs| + index < 0 then 0 else |logs| + index)
      else (if index > |logs| then |logs| else index);
    if start < |logs| then logs[..start] + logs[start + 1..] else logs
  }

  /** `removeLog(i)` for a row index drops exactly that row; out-of-range indices behave as `splice` says. */
  lemma SpliceSpec(logs: seq<Log>, index: int)
    ensures 0 <= index < |logs| ==> Splice(logs, index) == logs[..index] + logs[index + 1..]
    ensures index >= |logs| ==> Splice(logs, index) == logs
    ensures -|logs| <= index < 0 ==> Splice(logs, index) == logs[..|logs| + index] + logs[|logs| + index + 1..]
    ensures index < -|logs| && logs != [] ==> Splice(logs, index) == logs[1..]
    ensures logs != [] ==> |Splice(logs, index)| == |logs| - 1 || index >= |logs|
  {
  }

  lemma SpliceSorted(logs: seq<Log>, index: int)
    requires SortedByTime(logs)
    ensures SortedByTime(Splice(logs, index))
  {
    var r := Splice(logs, index);
    if r != logs {
      var start := if index < 0 then (if |logs| + index < 0 then 0 else |logs| + index) else index;
      assert forall i :: 0 <= i < |r| ==> r[i] == logs[if i < start then i else i + 1];
    }
  }

  // ---- The floating table and its export -----------------------------------------

  /** The difference shown on row `i`: 0 on the first row and when the row before has no stamp; a row without a stamp counts as time 0. */
  function NeighbourDiff(logs: seq<Log>, i: nat): int
    requires i < |logs|
  {
    if i == 0 then 0
    else
      var previous := ParseTimestamp(Line(logs[i - 1].entry, logs[i - 1].stamp));
      var current := ParseTimestamp(Line(logs[i].entry, logs[i].stamp));
      if previous.None? then 0
      else RoundMs((if current.Some? then current.value else 0) - previous.value)
  }

  /** The difference shown on each row. */
  function Diffs(logs: seq<Log>): (d: seq<int>)
    ensures |d| == |logs|
  {
    seq(|logs|, i requires 0 <= i < |logs| => NeighbourDiff(logs, i))
  }

  /** The sum of the first `n` numbers. */
  function Sum(xs: seq<int>, n: nat): int
    requires n <= |xs|
  {
    if n == 0 then 0 else Sum(xs, n - 1) + xs[n - 1]
  }

  function TimeOf(log: Log): int
    requires log.stamp.Some?
  {
    ParseTimestamp(Line(log.entry, log.stamp)).value
  }

  /**
   * When every picked log has a stamp, the total is the span from the first
   * to the `n`-th stamp, up to half a millisecond of rounding per row.
   */
  lemma {:induction false} TotalNearSpan(logs: seq<Log>, n: nat)
    requires 0 < n <= |logs|
    requires forall i :: 0 <= i < |logs| ==> logs[i].stamp.Some?
    ensures Sum(Diffs(logs), n) * NsPerMs - (n - 1) * 500000 <= TimeOf(logs[n - 1]) - TimeOf(logs[0])
    ensures TimeOf(logs[n - 1]) - TimeOf(logs[0]) <= Sum(Diffs(logs), n) * NsPerMs + (n - 1) * 500000
  {
    if n > 1 {
      TotalNearSpan(logs, n - 1);
      RoundMsBounds(TimeOf(logs[n - 1]) - TimeOf(logs[n - 2]));
    }
  }

  /** `"` doubled, as `replace(/"/g, '""')` does. */
  function EscapeQuotes(s: string): string {
    if s == [] then [] else (if s[0] == '"' then "\"\"" else [s[0]]) + EscapeQuotes(s[1..])
  }

  /** Reading a quoted CSV field's inside back: `""` is one `"`. */
  function UnescapeQuotes(s: string): string {
    if s == [] then []
    else if |s| >= 2 && s[0] == '"' && s[1] == '"' then "\"" + UnescapeQuotes(s[2..])
    else [s[0]] + UnescapeQuotes(s[1..])
  }

  /** The escaped entry reads back as the entry. */
  lemma {:induction false} EscapeRoundTrip(s: string)
    ensures UnescapeQuotes(EscapeQuotes(s)) == s
  {
    if s != [] {
      EscapeRoundTrip(s[1..]);
      var e := EscapeQuotes(s);
      if s[0] == '"' {
        assert e[2..] == EscapeQuotes(s[1..]);
      } else {
        assert e[1..] == EscapeQuotes(s[1..]);
      }
    }
  }

  /** Escaping adds no line break. */
  lemma {:induction false} EscapeNewlines(s: string)
    ensures '\n' in EscapeQuotes(s) <==> '\n' in s
  {
    if s != [] {
      EscapeNewlines(s[1..]);
    }
  }

  function CsvRow(log: Log, diff: int): string {
    IntToDecimal(diff) + "," + log.logType + ",\"" + EscapeQuotes(log.entry) + "\""
  }

  const CsvHeader := "Time,Type,Log Entry"
  const DefaultFileName := "selected_logs.csv"

  function TotalRow(total: int): string {
    IntToDecimal(total) + " ms, Total Time, \"\""
  }

  /** The CSV lines for the first `n` logs, after the header. */
  function CsvRows(logs: seq<Log>, diffs: seq<int>, n: nat): (rows: seq<string>)
    requires n <= |logs| == |diffs|
    ensures |rows| == n
  {
    seq(n, i requires 0 <= i < n => CsvRow(logs[i], diffs[i]))
  }

  function CsvLines(logs: seq<Log>): seq<string> {
    var diffs := Diffs(logs);
    [CsvHeader] + CsvRows(logs, diffs, |logs|) + [TotalRow(Sum(diffs, |logs|))]
  }

  /** The name taken from the prompt: a cancelled or empty answer gives the default. */
  function ExportName(answer: Option<string>): (name: string)
    ensures name == DefaultFileName <==> answer.None? || answer.value == "" || answer.value == DefaultFileName
    ensures name != DefaultFileName ==> answer == Some(name)
  {
    if answer.None? || answer.value == "" then DefaultFileName else answer.value
  }

  /** `exportFloatingTableLogs`: nothing for an empty table, otherwise the file name and the CSV text. */
  function ExportFile(logs: seq<Log>, answer: Option<string>): Option<(string, string)> {
    if logs == [] then None else Some((ExportName(answer), Join(CsvLines(logs), "\n")))
  }

  lemma CsvRowsSnoc(logs: seq<Log>, diffs: seq<int>, n: nat)
    requires n < |logs| == |diffs|
    ensures CsvRows(logs, diffs, n + 1) == CsvRows(logs, diffs, n) + [CsvRow(logs[n], diffs[n])]
  {
    var a := CsvRows(logs, diffs, n + 1);
    var b := CsvRows(logs, diffs, n) + [CsvRow(logs[n], diffs[n])];
    forall i | 0 <= i < n + 1 ensures a[i] == b[i] {
      if i < n {
        assert b[i] == CsvRows(logs, diffs, n)[i];
      }
    }
  }

  /**
   * When no picked log's type or text holds a line break, the exported text
   * splits back into the header, one row per log in table order (its
   * difference, its type and its text quoted so that it reads back), and
   * the total row last.
   */
  lemma CsvExportLines(logs: seq<Log>, answer: Option<string>)
    requires logs != []
    requires forall i :: 0 <= i < |logs| ==> '\n' !in logs[i].logType && '\n' !in logs[i].entry
    ensures ExportFile(logs, answer).Some?
    ensures var lines := Split(ExportFile(logs, answer).value.1, '\n');
      && |lines| == |logs| + 2 && lines[0] == CsvHeader && lines[|logs| + 1] == TotalRow(Sum(Diffs(logs), |logs|))
      && forall i :: 0 <= i < |logs| ==> (lines[i + 1] == CsvRow(logs[i], Diffs(logs)[i])
        && UnescapeQuotes(EscapeQuotes(logs[i].entry)) == logs[i].entry)
  {
    var lines := CsvLines(logs);
    CsvLinesUnbroken(logs);
    SplitJoin(lines, '\n');
    forall i | 0 <= i < |logs| {
      EscapeRoundTrip(logs[i].entry);
    }
  }

  lemma CsvLinesUnbroken(logs: seq<Log>)
    requires forall i :: 0 <= i < |logs| ==> '\n' !in logs[i].logType && '\n' !in logs[i].entry
    ensures forall i, j :: 0 <= i < |CsvLines(logs)| && 0 <= j < |CsvLines(logs)[i]| ==> CsvLines(logs)[i][j] != '\n'
  {
    var lines := CsvLines(logs);
    var diffs := Diffs(logs);
    var rows := CsvRows(logs, diffs, |logs|);
    var total := Sum(diffs, |logs|);
    assert lines == [CsvHeader] + rows + [TotalRow(total)];
    forall i | 0 <= i < |lines| ensures Unbroken(lines[i]) {
      if i == 0 {
        assert lines[i] == CsvHeader;
      } else if i <= |logs| {
        assert lines[i] == rows[i - 1];
        RowNoNewline(logs[i - 1], diffs[i - 1]);
      } else {
        assert lines[i] == TotalRow(total);
        DecimalNoNewline(total);
      }
    }
    forall i, j | 0 <= i < |lines| && 0 <= j < |lines[i]| ensures lines[i][j] != '\n' {
      assert Unbroken(lines[i]);
    }
  }

  predicate Unbroken(s: string) {
    '\n' !in s
  }

  lemma RowNoNewline(log: Log, diff: int)
    requires '\n' !in log.logType && '\n' !in log.entry
    ensures '\n' !in CsvRow(log, diff)
  {
    EscapeNewlines(log.entry);
    DecimalNoNewline(diff);
  }

  lemma DecimalNoNewline(i: int)
    ensures '\n' !in IntToDecimal(i)
  {
    DigitsNoNewline(if i < 0 then -i else i);
  }

  lemma {:induction false} DigitsNoNewline(n: nat)
    ensures '\n' !in Digits(n, 10)
    decreases n
  {
    if n >= 10 {
      DigitsNoNewline(n / 10);
    }
  }

  /** The export loop: the header, then one row per picked log, then the total row. */
  method CsvBody(logs: seq<Log>) returns (csvRows: seq<string>)
    ensures csvRows == CsvLines(logs)
  {
    ghost var diffs := Diffs(logs);
    csvRows := [CsvHeader];
    var totalTime := 0;
    var i := 0;
    while i < |logs|
      invariant i <= |logs|
      invariant csvRows == [CsvHeader] + CsvRows(logs, diffs, i) && totalTime == Sum(diffs, i)
    {
      var diffFromPreviousLog := NeighbourDiff(logs, i);
      assert diffFromPreviousLog == diffs[i];
      var row := CsvRow(logs[i], diffFromPreviousLog);
      totalTime := totalTime + diffFromPreviousLog;
      CsvRowsSnoc(logs, diffs, i);
      csvRows := csvRows + [row];
      i := i + 1;
    }
    csvRows := csvRows + [TotalRow(totalTime)];
  }

  // ---- The page state ----------------------------------------------------------

  /** The page: the log table's rows, the picked logs, and whether the floating table is shown. */
  class Viewer {
    var table: seq<Row>
    var selected: seq<Log>
    var floatingVisible: bool

    /** The picked logs stay sorted by time. */
    ghost predicate Valid()
      reads this
    {
      SortedByTime(selected)
    }

    constructor()
      ensures Valid() && table == [] && selected == [] && !floatingVisible
    {
      table := [];
      selected := [];
      floatingVisible := false;
    }

    /** `processLogs`: the picked logs are dropped and the table is rebuilt from the lines. */
    method ProcessLogs(lines: seq<Line>)
      modifies this
      ensures Valid()
      ensures table == Process(lines).rows && selected == [] && floatingVisible == old(floatingVisible)
    {
      selected := [];
      table := TableRows(lines);
    }

    /** `addLog`: a log equal to a picked one on time, type and text is ignored; otherwise it joins the sorted list and the floating table shows. */
    method AddLog(log: Log)
      requires Valid()
      modifies this
      ensures Valid() && table == old(table)
      ensures AlreadyAdded(old(selected), log) ==> selected == old(selected) && floatingVisible == old(floatingVisible)
      ensures !AlreadyAdded(old(selected), log) ==> selected == InsertByTime(old(selected), log) && floatingVisible
    {
      var isAlreadyAdded := exists i | 0 <= i < |selected| :: SameLog(selected[i], log);
      if isAlreadyAdded {
        return;
      }
      InsertByTimeSorted(selected, log);
      selected := InsertByTime(selected, log);
      floatingVisible := true;
    }

    /** `removeLog`: the floating table hides once it is empty. */
    method RemoveLog(index: int)
      requires Valid()
      modifies this
      ensures Valid() && table == old(table)
      ensures selected == Splice(old(selected), index)
      ensures floatingVisible == if selected == [] then false else old(floatingVisible)
    {
      SpliceSorted(selected, index);
      selected := Splice(selected, index);
      if selected == [] {
        floatingVisible := false;
      }
    }

    /** `clearFloatingTable`, with the user's answer to the confirmation. */
    method ClearFloatingTable(confirmed: bool)
      requires Valid()
      modifies this
      ensures Valid() && table == old(table)
      ensures confirmed ==> selected == [] && !floatingVisible
      ensures !confirmed ==> selected == old(selected) && floatingVisible == old(floatingVisible)
    {
      if confirmed {
        selected := [];
        floatingVisible := false;
      }
    }

    /** `updateFloatingTable`: each row's difference and the total shown under the table. */
    method UpdateFloatingTable() returns (diffs: seq<int>, totalTime: int)
      ensures diffs == Diffs(selected) && totalTime == Sum(diffs, |diffs|)
    {
      var logs := selected;
      ghost var all := Diffs(logs);
      diffs := [];
      totalTime := 0;
      var i := 0;
      while i < |logs|
        invariant i <= |logs|
        invariant diffs == all[..i] && totalTime == Sum(all, i)
      {
        var diffFromPreviousLog := NeighbourDiff(logs, i);
        assert diffFromPreviousLog == all[i];
        assert all[..i + 1] == all[..i] + [all[i]];
        totalTime := totalTime + diffFromPreviousLog;
        diffs := diffs + [diffFromPreviousLog];
        i := i + 1;
      }
      assert all[..i] == all;
    }

    /** `exportFloatingTableLogs`, with the prompt's answer: the file to download, if any. */
    method ExportFloatingTableLogs(answer: Option<string>) returns (file: Option<(string, string)>)
      ensures file == ExportFile(selected, answer)
    {
      var logs := selected;
      if |logs| == 0 {
        return None;
      }
      var fileName := ExportName(answer);
      var csvRows := CsvBody(logs);
      file := Some((fileName, Join(csvRows, "\n")));
    }
  }
}
