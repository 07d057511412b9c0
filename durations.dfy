/**
 * The duration figures derived from a task: the greedy start/stop pass over its log,
 * the live figure of a running task, the clamped task total and the day total.
 */
module Durations {
  import opened Wrappers
  import opened TimeLog
  import opened TaskRecords

  /** What the pass over the log carries: the time credited so far and the pending start (`lastStart`). */
  datatype Pass = Pass(tracked: int, pending: Option<int>)

  /** One entry of the pass: a start (re)sets the pending start; a stop credits and clears it, or is ignored. */
  function Step(p: Pass, e: Entry): (r: Pass)
    ensures r.pending.Some? <==> e.kind == Start
    ensures r.pending.Some? ==> r.pending.value == e.time
    ensures r.tracked == p.tracked + (if e.kind == Stop && p.pending.Some? then e.time - p.pending.value else 0)
  {
    match e.kind
    case Start => Pass(p.tracked, Some(e.time))
    case Stop => if p.pending.Some? then Pass(p.tracked + (e.time - p.pending.value), None) else p
  }

  /** The left-to-right pass over the whole log. */
  function Scan(log: seq<Entry>): (r: Pass)
    ensures r.pending.Some? <==> IsRunning(log)
    ensures r.pending.Some? ==> r.pending.value == log[|log| - 1].time
  {
    if log == [] then Pass(0, None) else Step(Scan(log[..|log| - 1]), log[|log| - 1])
  }

  /** A task is running when its log is non-empty and its last entry is a start. */
  predicate IsRunning(log: seq<Entry>) {
    |log| > 0 && log[|log| - 1].kind == Start
  }

  /** Reference reading: the sum, over each start immediately followed by a stop, of the time between them. */
  function PairSum(log: seq<Entry>): int {
    if |log| < 2 then 0
    else
      (if log[0].kind == Start && log[1].kind == Stop then log[1].time - log[0].time else 0)
      + PairSum(log[1..])
  }

  /** The time credited for completed start/stop pairs (calculateTaskDuration's `trackedMs`). */
  function CompletedTracked(log: seq<Entry>): int {
    Scan(log).tracked
  }

  /** The live figure: completed pairs plus, for a running task, `now` minus its last start. */
  function LiveTracked(log: seq<Entry>, now: int): int {
    CompletedTracked(log) + (if IsRunning(log) then now - log[|log| - 1].time else 0)
  }

  /** `Math.max(0, x)`. */
  function Clamp(x: int): (r: nat)
    ensures r >= x && (r == x || r == 0)
  {
    if x > 0 then x else 0
  }

  /** A task's displayed total (renderTask, calculateDayTotalTime). */
  function LiveTotal(t: Task, now: int): (r: nat)
    ensures r >= LiveTracked(Entries(t), now) + t.manualTimeAdded - t.manualTimeRemoved
    ensures !IsRunning(Entries(t)) ==> r == ReportTotal(t)
  {
    Clamp(LiveTracked(Entries(t), now) + t.manualTimeAdded - t.manualTimeRemoved)
  }

  /** A task's total in the daily report (calculateTaskDuration): no credit for an open interval. */
  function ReportTotal(t: Task): (r: nat)
    ensures r >= CompletedTracked(Entries(t)) + t.manualTimeAdded - t.manualTimeRemoved
    ensures Sorted(Entries(t)) ==> r >= t.manualTimeAdded - t.manualTimeRemoved
  {
    CompletedNonNegativeIfSorted(Entries(t));
    Clamp(CompletedTracked(Entries(t)) + t.manualTimeAdded - t.manualTimeRemoved)
  }

  /** The day total: the clamped task totals, summed. */
  function DayTotal(tasks: seq<Task>, now: int): (r: nat)
    ensures r == 0 <==> forall i :: 0 <= i < |tasks| ==> LiveTotal(tasks[i], now) == 0
  {
    if tasks == [] then 0
    else
      var front := tasks[..|tasks| - 1];
      assert forall i :: 0 <= i < |front| ==> front[i] == tasks[i];
      DayTotal(front, now) + LiveTotal(tasks[|tasks| - 1], now)
  }

  /** The unclamped sum of the task figures, for comparison with DayTotal. */
  function RawDaySum(tasks: seq<Task>, now: int): int {
    if tasks == [] then 0
    else
      var t := tasks[|tasks| - 1];
      RawDaySum(tasks[..|tasks| - 1], now) + LiveTracked(Entries(t), now) + t.manualTimeAdded - t.manualTimeRemoved
  }

  // ---- the pass against its reference ---------------------------------------

  lemma {:induction false} PairSumSnoc(s: seq<Entry>, e: Entry)
    ensures PairSum(s + [e]) == PairSum(s)
      + (if |s| > 0 && s[|s| - 1].kind == Start && e.kind == Stop then e.time - s[|s| - 1].time else 0)
  {
    if |s| >= 2 {
      assert (s + [e])[1..] == s[1..] + [e];
      PairSumSnoc(s[1..], e);
    } else if |s| == 1 {
      assert (s + [e])[1..] == [e];
    }
  }

  /** The greedy pass credits exactly the adjacent start/stop pairs, and its pending start is the last entry's exactly when the task is running. */
  lemma {:induction false} ScanIsPairSum(log: seq<Entry>)
    ensures Scan(log) == Pass(PairSum(log), if IsRunning(log) then Some(log[|log| - 1].time) else None)
  {
    if log != [] {
      var front := log[..|log| - 1];
      ScanIsPairSum(front);
      PairSumSnoc(front, log[|log| - 1]);
      assert front + [log[|log| - 1]] == log;
    }
  }

  lemma {:induction false} PairSumNonNegative(log: seq<Entry>)
    requires Sorted(log)
    ensures PairSum(log) >= 0
  {
    if |log| >= 2 {
      assert log[0].time <= log[1].time;
      PairSumNonNegative(log[1..]);
    }
  }

  /** On a time-ordered log the credited time is never negative. */
  lemma CompletedNonNegative(log: seq<Entry>)
    requires Sorted(log)
    ensures CompletedTracked(log) >= 0
  {
    ScanIsPairSum(log);
    PairSumNonNegative(log);
  }

  /** The completed figure of a log, which is non-negative whenever the log is in time order. */
  lemma CompletedNonNegativeIfSorted(log: seq<Entry>)
    ensures Sorted(log) ==> CompletedTracked(log) >= 0
  {
    if Sorted(log) {
      CompletedNonNegative(log);
    }
  }

  /** A start later than `now` makes the live figure negative before the clamp: started at 100 and looked at at 50, it is -50. */
  lemma LiveCanBeNegative()
    ensures LiveTracked([Entry(Start, 100)], 50) == -50
  {
    assert [Entry(Start, 100)][..0] == [];
  }

  /** On a time-ordered log, the live figure is not negative unless the running start lies after `now`. */
  lemma LiveNonNegative(log: seq<Entry>, now: int)
    requires Sorted(log)
    requires IsRunning(log) ==> log[|log| - 1].time <= now
    ensures LiveTracked(log, now) >= 0
  {
    CompletedNonNegative(log);
  }

  /** The live figure of a running task grows by exactly the elapsed time; that of a stopped task is constant. */
  lemma LiveAdvances(log: seq<Entry>, t1: int, t2: int)
    ensures LiveTracked(log, t2) - LiveTracked(log, t1) == (if IsRunning(log) then t2 - t1 else 0)
    ensures t1 <= t2 ==> LiveTracked(log, t1) <= LiveTracked(log, t2)
  {
  }

  /** A stop with no pending start adds nothing. */
  lemma UnmatchedStopIgnored(log: seq<Entry>, t: int)
    requires !IsRunning(log)
    ensures CompletedTracked(log + [Entry(Stop, t)]) == CompletedTracked(log)
    ensures !IsRunning(log + [Entry(Stop, t)])
  {
    assert (log + [Entry(Stop, t)])[..|log|] == log;
    ScanIsPairSum(log);
  }

  /** A second start replaces the pending one; the first is never credited. */
  lemma SecondStartOverwrites(log: seq<Entry>, t: int)
    requires IsRunning(log)
    ensures Scan(log + [Entry(Start, t)]) == Pass(CompletedTracked(log), Some(t))
  {
    assert (log + [Entry(Start, t)])[..|log|] == log;
  }

  /** Stopping a running task at `t` credits exactly what its live figure showed at `t`. */
  lemma StopCreditsLiveFigure(log: seq<Entry>, t: int)
    requires IsRunning(log)
    ensures CompletedTracked(log + [Entry(Stop, t)]) == LiveTracked(log, t)
    ensures !IsRunning(log + [Entry(Stop, t)])
  {
    assert (log + [Entry(Stop, t)])[..|log|] == log;
    ScanIsPairSum(log);
  }

  /** The report figure of a running task ignores the trailing start altogether. */
  lemma ReportIgnoresOpenStart(log: seq<Entry>)
    requires IsRunning(log)
    ensures CompletedTracked(log) == CompletedTracked(log[..|log| - 1])
  {
  }

  // ---- totals ---------------------------------------------------------------

  /** Each task's total is part of the day total, which is never below the unclamped sum (clamp, then sum). */
  lemma {:induction false} DayTotalBounds(tasks: seq<Task>, now: int)
    ensures forall i :: 0 <= i < |tasks| ==> LiveTotal(tasks[i], now) <= DayTotal(tasks, now)
    ensures RawDaySum(tasks, now) <= DayTotal(tasks, now)
  {
    if tasks != [] {
      var front := tasks[..|tasks| - 1];
      DayTotalBounds(front, now);
      forall i | 0 <= i < |tasks| ensures LiveTotal(tasks[i], now) <= DayTotal(tasks, now) {
        if i < |front| {
          assert tasks[i] == front[i];
        }
      }
    }
  }

  /** Adding manual time never lowers a task's total, and raises it by the full amount once the total is positive. */
  lemma AddedRaisesTotal(t: Task, ms: int, now: int)
    requires ms > 0
    ensures LiveTotal(t, now) <= LiveTotal(AddManual(t, Added, ms), now) <= LiveTotal(t, now) + ms
    ensures LiveTotal(t, now) > 0 ==> LiveTotal(AddManual(t, Added, ms), now) == LiveTotal(t, now) + ms
  {
  }

  /** Removing manual time lowers a task's total by at most the amount, and never below zero. */
  lemma RemovedLowersTotal(t: Task, ms: int, now: int)
    requires ms > 0
    ensures LiveTotal(t, now) - ms <= LiveTotal(AddManual(t, Removed, ms), now) <= LiveTotal(t, now)
  {
  }

  // ---- the once-a-second refresh of a running task's figure ------------------------

  /**
   * renderTask's interval callback as written. The `tracked` it captured at render time
   * (`renderedAt`) already holds `renderedAt - lastStart`, and each tick adds `now - lastStart`
   * to it again.
   */
  function TickAsWritten(t: Task, renderedAt: int, now: int): (r: int)
    requires IsRunning(Entries(t))
    ensures var lastStart := Entries(t)[|Entries(t)| - 1].time;
      renderedAt >= lastStart ==> r >= LiveTotal(t, now)
    ensures var lastStart := Entries(t)[|Entries(t)| - 1].time;
      renderedAt > lastStart && LiveTotal(t, now) > 0 ==> r > LiveTotal(t, now)
  {
    var log := Entries(t);
    var lastStart := log[|log| - 1].time;
    Clamp(LiveTracked(log, renderedAt) + (now - lastStart) + t.manualTimeAdded - t.manualTimeRemoved)
  }

  /** The callback as written shows the live figure of `now` plus, once more, the time from the last start to the render. */
  lemma TickAsWrittenCountsTwice(t: Task, renderedAt: int, now: int)
    requires IsRunning(Entries(t))
    ensures var log := Entries(t);
      TickAsWritten(t, renderedAt, now)
        == Clamp(LiveTracked(log, now) + (renderedAt - log[|log| - 1].time) + t.manualTimeAdded - t.manualTimeRemoved)
  {
  }

  /** A task started at 09:00 and rendered at 09:45 shows 1:30:01 one second later, where 45:01 have passed. */
  lemma TickAsWrittenExample()
    ensures var t := Task("t", "Morning", Some([Entry(Start, 32400000)]), 0, 0, "");
      && TickAsWritten(t, 35100000, 35101000) == 5401000
      && LiveTotal(t, 35101000) == 2701000
  {
    assert [Entry(Start, 32400000)][..0] == [];
  }

  /** The refresh as intended: completed pairs plus `now - lastStart`, derived afresh on every tick. */
  function Tick(t: Task, now: int): (r: nat)
    requires IsRunning(Entries(t))
    ensures r == LiveTotal(t, now)
  {
    var log := Entries(t);
    var lastStart := log[|log| - 1].time;
    Clamp(CompletedTracked(log) + (now - lastStart) + t.manualTimeAdded - t.manualTimeRemoved)
  }

  /** The intended refresh agrees with the figure shown at render time and never decreases as time passes. */
  lemma TickFromRender(t: Task, renderedAt: int, now: int)
    requires IsRunning(Entries(t)) && renderedAt <= now
    ensures Tick(t, renderedAt) == LiveTotal(t, renderedAt)
    ensures LiveTotal(t, renderedAt) <= Tick(t, now) <= LiveTotal(t, renderedAt) + (now - renderedAt)
  {
    LiveAdvances(Entries(t), renderedAt, now);
  }

  /** A task just added is not running and shows nothing, live or in the report. */
  lemma NewTaskShowsZero(id: string, name: string, now: int)
    ensures !IsRunning(Entries(NewTask(id, name)))
    ensures LiveTotal(NewTask(id, name), now) == 0 && ReportTotal(NewTask(id, name)) == 0
  {
  }

  // ---- worked examples --------------------------------------------------------

  /** A task logged from 09:00 to 10:30 (instants in milliseconds since midnight), with no manual time. */
  function MorningTask(): Task {
    Task("t", "Morning", Some([Entry(Start, 32400000), Entry(Stop, 37800000)]), 0, 0, "")
  }

  /**
   * Ninety minutes tracked; fifteen minutes added make 105 minutes; 200 minutes removed
   * clamp the total to zero.
   */
  lemma MorningTotals(now: int)
    ensures LiveTotal(MorningTask(), now) == 5400000 && ReportTotal(MorningTask()) == 5400000
    ensures LiveTotal(AddManual(MorningTask(), Added, ManualMs(0, 15)), now) == 6300000
    ensures LiveTotal(AddManual(MorningTask(), Removed, ManualMs(0, 200)), now) == 0
  {
    var log := Entries(MorningTask());
    assert log == [Entry(Start, 32400000), Entry(Stop, 37800000)];
    assert log[..1] == [Entry(Start, 32400000)] && log[..1][..0] == [];
    assert Scan(log[..1]) == Pass(0, Some(32400000));
    assert Scan(log) == Pass(5400000, None);
  }

  /** A task started at 09:00 and looked at at 09:45 is running and shows 45 minutes. */
  lemma RunningSinceNine()
    ensures IsRunning([Entry(Start, 32400000)])
    ensures LiveTracked([Entry(Start, 32400000)], 35100000) == 2700000
  {
    assert [Entry(Start, 32400000)][..0] == [];
  }

  // ---- the loops of popup.js ------------------------------------------------

  /** The `forEach` over the log shared by calculateDayTotalTime, renderTask and calculateTaskDuration. */
  method TrackedPass(log: seq<Entry>) returns (tracked: int, lastStart: Option<int>)
    ensures Pass(tracked, lastStart) == Scan(log)
  {
    tracked, lastStart := 0, None;
    for i := 0 to |log|
      invariant Pass(tracked, lastStart) == Scan(log[..i])
    {
      assert log[..i + 1][..i] == log[..i];
      var entry := log[i];
      if entry.kind == Start {
        lastStart := Some(entry.time);
      } else if lastStart.Some? {
        tracked := tracked + (entry.time - lastStart.value);
        lastStart := None;
      }
    }
    assert log[..|log|] == log;
  }

  /** calculateTaskDuration: completed pairs plus the manual adjustments, clamped at zero. */
  method CalculateTaskDuration(task: Task) returns (ms: int)
    ensures ms == ReportTotal(task)
  {
    var trackedMs := 0;
    if task.timeEntries.Some? && |task.timeEntries.value| > 0 {
      var pending;
      trackedMs, pending := TrackedPass(task.timeEntries.value);
    }
    var manualAdded := task.manualTimeAdded;
    var manualRemoved := task.manualTimeRemoved;
    ms := if trackedMs + manualAdded - manualRemoved > 0 then trackedMs + manualAdded - manualRemoved else 0;
  }

  /**
   * renderTask's figures: it sorts the log (returned, as renderTask writes it back), runs the
   * pass, and for a running task adds `now` minus the last start.
   */
  method RenderFigures(task: Task, now: int) returns (entries: seq<Entry>, total: int, running: bool)
    ensures entries == SortByTime(Entries(task))
    ensures running == IsRunning(entries)
    ensures total == LiveTotal(task.(timeEntries := Some(entries)), now)
  {
    var tracked := 0;
    running := false;
    entries := SortByTime(Entries(task));
    if |entries| > 0 {
      var pending;
      tracked, pending := TrackedPass(entries);
      var last := entries[|entries| - 1];
      if last.kind == Start {
        running := true;
        tracked := tracked + (now - last.time);
      }
    }
    var manualAdded := task.manualTimeAdded;
    var manualRemoved := task.manualTimeRemoved;
    total := if tracked + manualAdded - manualRemoved > 0 then tracked + manualAdded - manualRemoved else 0;
  }

  /** One more task of the day's list adds its live total to the day total. */
  lemma DayTotalSnoc(tasks: seq<Task>, j: nat, now: int)
    requires j < |tasks|
    ensures DayTotal(tasks[..j + 1], now) == DayTotal(tasks[..j], now) + LiveTotal(tasks[j], now)
  {
    assert tasks[..j + 1][..j] == tasks[..j];
  }

  /** The callback of calculateDayTotalTime's `forEach` for one task: its live total, clamped. */
  method TaskDayFigure(task: Task, now: int) returns (ms: int)
    ensures ms == LiveTotal(task, now)
  {
    var tracked := 0;
    var lastStart: Option<int> := None;
    if task.timeEntries.Some? && |task.timeEntries.value| > 0 {
      var log := task.timeEntries.value;
      tracked, lastStart := TrackedPass(log);
      var last := log[|log| - 1];
      if last.kind == Start {
        tracked := tracked + (now - lastStart.value);
      }
    }
    var manualAdded := task.manualTimeAdded;
    var manualRemoved := task.manualTimeRemoved;
    ms := if tracked + manualAdded - manualRemoved > 0 then tracked + manualAdded - manualRemoved else 0;
  }

  /**
   * The loop of calculateDayTotalTime over a day's tasks: each task's live total, clamped, then
   * summed. `Tracker.Ledger.CalculateDayTotalTime` adds the lookup of the day in the ledger's field.
   */
  method CalculateDayTotalTime(tasks: seq<Task>, now: int) returns (totalMs: int)
    ensures totalMs == DayTotal(tasks, now)
  {
    totalMs := 0;
    for j := 0 to |tasks|
      invariant totalMs == DayTotal(tasks[..j], now)
    {
      DayTotalSnoc(tasks, j, now);
      var figure := TaskDayFigure(tasks[j], now);
      totalMs := totalMs + figure;
    }
    assert tasks[..|tasks|] == tasks;
  }
}
