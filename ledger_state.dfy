/**
 * The whole ledger as a value: `state.tasks`, a mapping from a date key to that day's
 * task list together with the order in which the date keys were first added (the order
 * `for (const dateKey in state.tasks)` visits them). The operations of the tracker class
 * are specified by the functions of this module.
 */
module LedgerState {
  import opened Wrappers
  import opened TimeLog
  import opened TaskRecords
  import opened Durations

  /** `state.tasks`: each date key's task list. */
  type Days = map<string, seq<Task>>

  /** A running task found by the scan: its date key and its position in that day's list. */
  datatype Ref = Ref(dateKey: string, taskIndex: nat)

  /** No value occurs twice. */
  predicate Distinct<T(==)>(s: seq<T>) {
    forall i, j :: 0 <= i < j < |s| ==> s[i] != s[j]
  }

  /** Every log of every day is in time order. */
  predicate LogsSorted(days: Days) {
    forall k, i :: k in days && 0 <= i < |days[k]| ==> Sorted(Entries(days[k][i]))
  }

  /** The invariant of the ledger: the key order lists each date key once, and every log is in time order. */
  ghost predicate WellFormed(days: Days, order: seq<string>) {
    && Distinct(order)
    && (forall k :: k in days <==> k in order)
    && LogsSorted(days)
  }

  /** `state.tasks[dateKey] || []`. */
  function DayOf(days: Days, key: string): seq<Task> {
    if key in days then days[key] else []
  }

  /** The position names a task of the ledger. */
  predicate Located(days: Days, r: Ref) {
    r.dateKey in days && r.taskIndex < |days[r.dateKey]|
  }

  /** Replaces the task at a located position. */
  function SetTask(days: Days, r: Ref, t: Task): (d: Days)
    requires Located(days, r)
    ensures d.Keys == days.Keys && Located(d, r) && d[r.dateKey][r.taskIndex] == t
    ensures forall k :: k in days ==> |d[k]| == |days[k]|
    ensures forall k, i :: k in days && 0 <= i < |days[k]| && Ref(k, i) != r ==> d[k][i] == days[k][i]
  {
    days[r.dateKey := days[r.dateKey][r.taskIndex := t]]
  }

  /** Replacing one task by a task whose log is in time order keeps every log of the ledger in time order. */
  lemma SetTaskKeepsSorted(days: Days, r: Ref, t: Task)
    requires LogsSorted(days) && Located(days, r) && Sorted(Entries(t))
    ensures LogsSorted(SetTask(days, r, t))
  {
    var d := SetTask(days, r, t);
    forall k, i | k in d && 0 <= i < |d[k]| ensures Sorted(Entries(d[k][i])) {
      if Ref(k, i) != r {
        assert d[k][i] == days[k][i];
      }
    }
  }

  // ---- getCurrentlyRunningTasks -------------------------------------------------

  /** The running tasks of one day's list, in list order. */
  function RunningOfDay(key: string, tasks: seq<Task>): (r: seq<Ref>)
    ensures forall j :: 0 <= j < |r| ==> r[j].dateKey == key && r[j].taskIndex < |tasks|
  {
    if tasks == [] then []
    else
      var n := |tasks| - 1;
      RunningOfDay(key, tasks[..n]) + (if IsRunning(Entries(tasks[n])) then [Ref(key, n)] else [])
  }

  /** The running tasks of the days named by `keys`, day by day in key order. */
  function RunningIn(days: Days, keys: seq<string>): (r: seq<Ref>)
    ensures forall j :: 0 <= j < |r| ==> Located(days, r[j]) && r[j].dateKey in keys
  {
    if keys == [] then []
    else
      var n := |keys| - 1;
      var k := keys[n];
      RunningIn(days, keys[..n]) + (if k in days then RunningOfDay(k, days[k]) else [])
  }

  /** The test the popup writes for a running task: a log container holding entries, the last a start. */
  lemma RunningTest(t: Task)
    ensures IsRunning(Entries(t)) <==>
      t.timeEntries.Some? && |t.timeEntries.value| > 0 && t.timeEntries.value[|t.timeEntries.value| - 1].kind == Start
  {
  }

  /** One more task of a day's list: the scan grows by that task's position when it is running. */
  lemma RunningOfDaySnoc(key: string, tasks: seq<Task>, j: nat)
    requires j < |tasks|
    ensures RunningOfDay(key, tasks[..j + 1])
      == RunningOfDay(key, tasks[..j]) + (if IsRunning(Entries(tasks[j])) then [Ref(key, j)] else [])
  {
    assert tasks[..j + 1][..j] == tasks[..j];
  }

  /** One more day: the scan grows by that day's running tasks. */
  lemma RunningInSnoc(days: Days, keys: seq<string>, i: nat)
    requires i < |keys| && keys[i] in days
    ensures RunningIn(days, keys[..i + 1]) == RunningIn(days, keys[..i]) + RunningOfDay(keys[i], days[keys[i]])
  {
    assert keys[..i + 1][..i] == keys[..i];
  }

  /** The positions strictly increase. */
  predicate Increasing(rs: seq<Ref>) {
    forall i, j :: 0 <= i < j < |rs| ==> rs[i].taskIndex < rs[j].taskIndex
  }

  /** A day's scan finds exactly its running tasks, each once, in increasing position. */
  lemma {:induction false} RunningOfDayExact(key: string, tasks: seq<Task>)
    ensures forall r :: r in RunningOfDay(key, tasks) <==>
      r.dateKey == key && r.taskIndex < |tasks| && IsRunning(Entries(tasks[r.taskIndex]))
    ensures Increasing(RunningOfDay(key, tasks))
  {
    if tasks != [] {
      var n := |tasks| - 1;
      RunningOfDayExact(key, tasks[..n]);
      forall r: Ref | r.dateKey == key && r.taskIndex < n
        ensures tasks[..n][r.taskIndex] == tasks[r.taskIndex]
      {
      }
      var front := RunningOfDay(key, tasks[..n]);
      var rs := front + (if IsRunning(Entries(tasks[n])) then [Ref(key, n)] else []);
      forall i, j | 0 <= i < j < |rs| ensures rs[i].taskIndex < rs[j].taskIndex {
        if j < |front| {
          assert rs[i] == front[i] && rs[j] == front[j];
        } else {
          assert |tasks[..n]| == n;
          assert rs[i] == front[i] && front[i].taskIndex < n && rs[j] == Ref(key, n);
        }
      }
    }
  }

  /** The scan over distinct keys finds exactly the running tasks of those days, each once. */
  lemma {:induction false} RunningInExact(days: Days, keys: seq<string>)
    requires Distinct(keys)
    ensures forall r :: r in RunningIn(days, keys) <==>
      r.dateKey in keys && Located(days, r) && IsRunning(Entries(days[r.dateKey][r.taskIndex]))
    ensures Distinct(RunningIn(days, keys))
  {
    if keys != [] {
      var n := |keys| - 1;
      var k := keys[n];
      assert Distinct(keys[..n]);
      RunningInExact(days, keys[..n]);
      var front := RunningIn(days, keys[..n]);
      var day := if k in days then RunningOfDay(k, days[k]) else [];
      if k in days {
        RunningOfDayExact(k, days[k]);
      }
      assert keys == keys[..n] + [k];
      assert k !in keys[..n];
      var all := front + day;
      forall i, j | 0 <= i < j < |all| ensures all[i] != all[j] {
        if j < |front| {
          assert all[i] == front[i] && all[j] == front[j];
        } else if i >= |front| {
          assert all[i] == day[i - |front|] && all[j] == day[j - |front|];
          assert Increasing(day);
          assert day[i - |front|].taskIndex < day[j - |front|].taskIndex;
        } else {
          assert all[i] == front[i] && front[i].dateKey in keys[..n];
          assert k in days && all[j] == day[j - |front|] && day[j - |front|].dateKey == k;
        }
      }
    }
  }

  /** Where `k` first appears in `keys`. */
  function IndexOf(keys: seq<string>, k: string): (n: nat)
    requires k in keys
    ensures n < |keys| && keys[n] == k
    ensures forall m :: 0 <= m < n ==> keys[m] != k
  {
    if keys[0] == k then 0
    else
      var n := 1 + IndexOf(keys[1..], k);
      assert forall m :: 1 <= m < n ==> keys[m] == keys[1..][m - 1];
      n
  }

  /** A key of a prefix is found at the same place in the whole list. */
  lemma IndexOfPrefix(keys: seq<string>, n: nat, k: string)
    requires n <= |keys| && k in keys[..n]
    ensures IndexOf(keys, k) == IndexOf(keys[..n], k)
  {
    var p := IndexOf(keys[..n], k);
    assert keys[p] == k;
  }

  /** Day-then-task order: earlier days in `keys` first, and within a day by increasing position. */
  predicate DayThenTaskOrder(keys: seq<string>, rs: seq<Ref>)
    requires forall j :: 0 <= j < |rs| ==> rs[j].dateKey in keys
  {
    forall i, j :: 0 <= i < j < |rs| ==>
      || IndexOf(keys, rs[i].dateKey) < IndexOf(keys, rs[j].dateKey)
      || (rs[i].dateKey == rs[j].dateKey && rs[i].taskIndex < rs[j].taskIndex)
  }

  /** Refs ordered under a prefix of the keys stay ordered under all of them, their keys all before position `n`. */
  lemma OrderInPrefix(keys: seq<string>, n: nat, rs: seq<Ref>)
    requires n <= |keys|
    requires forall j :: 0 <= j < |rs| ==> rs[j].dateKey in keys[..n]
    requires DayThenTaskOrder(keys[..n], rs)
    ensures forall j :: 0 <= j < |rs| ==> rs[j].dateKey in keys && IndexOf(keys, rs[j].dateKey) < n
    ensures DayThenTaskOrder(keys, rs)
  {
    forall j | 0 <= j < |rs|
      ensures rs[j].dateKey in keys && IndexOf(keys, rs[j].dateKey) == IndexOf(keys[..n], rs[j].dateKey) < n
    {
      IndexOfPrefix(keys, n, rs[j].dateKey);
    }
  }

  /** Ordered refs of earlier days, followed by the last day's refs in increasing position, are ordered. */
  lemma JoinOrdered(keys: seq<string>, front: seq<Ref>, day: seq<Ref>)
    requires |keys| > 0 && IndexOf(keys, keys[|keys| - 1]) == |keys| - 1
    requires forall j :: 0 <= j < |front| ==> front[j].dateKey in keys && IndexOf(keys, front[j].dateKey) < |keys| - 1
    requires DayThenTaskOrder(keys, front)
    requires forall j :: 0 <= j < |day| ==> day[j].dateKey == keys[|keys| - 1]
    requires Increasing(day)
    ensures forall j :: 0 <= j < |front + day| ==> (front + day)[j].dateKey in keys
    ensures DayThenTaskOrder(keys, front + day)
  {
    var all := front + day;
    forall i, j | 0 <= i < j < |all|
      ensures || IndexOf(keys, all[i].dateKey) < IndexOf(keys, all[j].dateKey)
              || (all[i].dateKey == all[j].dateKey && all[i].taskIndex < all[j].taskIndex)
    {
      if j < |front| {
        assert all[i] == front[i] && all[j] == front[j];
      } else if i >= |front| {
        assert all[i] == day[i - |front|] && all[j] == day[j - |front|];
      } else {
        assert all[i] == front[i] && all[j] == day[j - |front|];
      }
    }
  }

  /** The scan lists the running tasks day by day in key order, and within a day in list order. */
  lemma {:induction false} RunningInOrdered(days: Days, keys: seq<string>)
    requires Distinct(keys)
    ensures DayThenTaskOrder(keys, RunningIn(days, keys))
  {
    if keys != [] {
      var n := |keys| - 1;
      var k := keys[n];
      assert Distinct(keys[..n]);
      RunningInOrdered(days, keys[..n]);
      var front := RunningIn(days, keys[..n]);
      var day := if k in days then RunningOfDay(k, days[k]) else [];
      if k in days {
        RunningOfDayExact(k, days[k]);
      }
      OrderInPrefix(keys, n, front);
      assert IndexOf(keys, k) == n;
      JoinOrdered(keys, front, day);
      assert RunningIn(days, keys) == front + day;
    }
  }

  /** The elements of `rs` other than `target`, in the same order (a `filter` on inequality). */
  function Omit<T(==, !new)>(rs: seq<T>, target: T): (r: seq<T>)
    ensures forall x :: x in r <==> x in rs && x != target
    ensures Distinct(rs) ==> Distinct(r)
  {
    if rs == [] then []
    else
      var n := |rs| - 1;
      assert rs == rs[..n] + [rs[n]];
      var front := Omit(rs[..n], target);
      var r := front + (if rs[n] == target then [] else [rs[n]]);
      assert Distinct(rs) ==> rs[n] !in rs[..n] && Distinct(rs[..n]);
      assert Distinct(rs) ==> rs[n] !in front;
      r
  }

  /** Omitting a value that does not occur changes nothing. */
  lemma {:induction false} OmitAbsent<T(!new)>(rs: seq<T>, target: T)
    requires target !in rs
    ensures Omit(rs, target) == rs
  {
    if rs != [] {
      var n := |rs| - 1;
      assert rs == rs[..n] + [rs[n]];
      OmitAbsent(rs[..n], target);
    }
  }

  // ---- stopping the other running tasks ------------------------------------------

  /** One turn of the stop-others loop: a task that is still running gets a stop at `now`, then its log is re-sorted. */
  function StopOne(days: Days, r: Ref, now: int): (d: Days)
    ensures d.Keys == days.Keys && forall k :: k in days ==> |d[k]| == |days[k]|
    ensures forall k, i :: k in days && 0 <= i < |days[k]| && Ref(k, i) != r ==> d[k][i] == days[k][i]
    ensures Located(days, r) ==> !IsRunning(Entries(days[r.dateKey][r.taskIndex])) ==> d == days
  {
    if Located(days, r) && IsRunning(Entries(days[r.dateKey][r.taskIndex])) then
      SetTask(days, r, WithEntry(days[r.dateKey][r.taskIndex], Entry(Stop, now)))
    else
      days
  }

  /** The stop-others loop over a list of positions, in list order. */
  function StopAll(days: Days, rs: seq<Ref>, now: int): (d: Days)
    ensures d.Keys == days.Keys
    ensures forall k :: k in days ==> |d[k]| == |days[k]|
    ensures LogsSorted(days) ==> LogsSorted(d)
  {
    if rs == [] then days else StopOne(StopAll(days, rs[..|rs| - 1], now), rs[|rs| - 1], now)
  }

  /** One more turn of the stop-others loop. */
  lemma StopAllSnoc(days: Days, rs: seq<Ref>, i: nat, now: int)
    requires i < |rs|
    ensures StopAll(days, rs[..i + 1], now) == StopOne(StopAll(days, rs[..i], now), rs[i], now)
  {
    assert rs[..i + 1][..i] == rs[..i];
  }

  /** A turn at a located position: the task, when its last entry is a start, gets a stop at `now`. */
  lemma StopOneAt(days: Days, r: Ref, now: int)
    requires Located(days, r)
    ensures var t := days[r.dateKey][r.taskIndex];
      StopOne(days, r, now)
        == if IsRunning(Entries(t)) then days[r.dateKey := days[r.dateKey][r.taskIndex := WithEntry(t, Entry(Stop, now))]] else days
  {
  }

  /** Stopping a duplicate-free list of positions gives each running task among them exactly one stop at `now`, and touches nothing else. */
  lemma {:induction false} StopAllExact(days: Days, rs: seq<Ref>, now: int)
    requires Distinct(rs)
    ensures forall k, i :: k in days && 0 <= i < |days[k]| ==>
      StopAll(days, rs, now)[k][i] ==
        if Ref(k, i) in rs && IsRunning(Entries(days[k][i])) then WithEntry(days[k][i], Entry(Stop, now)) else days[k][i]
  {
    if rs != [] {
      var n := |rs| - 1;
      var r := rs[n];
      assert rs == rs[..n] + [r];
      assert Distinct(rs[..n]) && r !in rs[..n];
      StopAllExact(days, rs[..n], now);
    }
  }

  /** A stop at or after the last entry of a sorted running log ends up last, so the task is no longer running. */
  lemma StopAtNowEndsRun(t: Task, now: int)
    requires Sorted(Entries(t)) && IsRunning(Entries(t))
    requires Entries(t)[|Entries(t)| - 1].time <= now
    ensures Entries(WithEntry(t, Entry(Stop, now))) == Entries(t) + [Entry(Stop, now)]
    ensures !IsRunning(Entries(WithEntry(t, Entry(Stop, now))))
  {
    AppendThenSort(Entries(t), Entry(Stop, now));
  }

  /** A stop earlier than the last start of a sorted running log is sorted in below it: the task is still running. */
  lemma StopBeforeLastStartKeepsRun(t: Task, now: int)
    requires Sorted(Entries(t)) && IsRunning(Entries(t))
    requires now < Entries(t)[|Entries(t)| - 1].time
    ensures IsRunning(Entries(WithEntry(t, Entry(Stop, now))))
  {
    AppendThenSort(Entries(t), Entry(Stop, now));
    LastAfterInsert(Entries(t), Entry(Stop, now));
  }

  // ---- confirmTrackingTime --------------------------------------------------------

  /** Why confirmTrackingTime refuses: no task at the position, or one of the guards of its two branches. */
  datatype TrackError = TaskNotFound | AlreadyRunning | AlreadyStopped | NoActiveStart | NoEntries

  /**
   * The guards of the start and the stop branch, on the task's log, as a function for the
   * specification (`Tracker.Ledger.TrackingGuards` runs the same chain as statements). `AlreadyRunning` is the
   * start branch's only error; an accepted start finds the task idle and an accepted stop finds it running.
   */
  function TrackingRefusal(log: seq<Entry>, kind: Kind): (r: Option<TrackError>)
    ensures r.Some? ==> (r.value == AlreadyRunning <==> kind == Start) && r.value != TaskNotFound
    ensures r.None? && kind == Start ==> !IsRunning(log)
    ensures r.None? && kind == Stop ==> IsRunning(log)
  {
    match kind
    case Start => if |log| > 0 && log[|log| - 1].kind == Start then Some(AlreadyRunning) else None
    case Stop =>
      if |log| == 0 then Some(NoEntries)
      else if log[|log| - 1].kind == Stop then Some(AlreadyStopped)
      else if Count(log, Start) <= Count(log, Stop) then Some(NoActiveStart)
      else None
  }

  /** What confirmTrackingTime reports for the task at `(key, idx)`: None when it adds the entry. */
  function TrackingOutcome(days: Days, key: string, idx: nat, kind: Kind): Option<TrackError> {
    if Located(days, Ref(key, idx)) then TrackingRefusal(Entries(days[key][idx]), kind) else Some(TaskNotFound)
  }

  /** `otherRunningTasks`: the scan of every day, filtered to leave out the task being started. */
  function OthersRunning(days: Days, order: seq<string>, target: Ref): seq<Ref> {
    Omit(RunningIn(days, order), target)
  }

  /**
   * The ledger after confirmTrackingTime: the task's missing log container is created first,
   * whatever follows; a refusal stops there. Otherwise, for a start with the stop-others
   * choice, every other running task is stopped at `now`; then the entry is pushed at `at`
   * and the log re-sorted.
   */
  function AfterTracking(days: Days, order: seq<string>, key: string, idx: nat, kind: Kind, at: int, now: int, stopOthers: bool): (d: Days)
    ensures d.Keys == days.Keys && forall k :: k in days ==> |d[k]| == |days[k]|
    ensures !Located(days, Ref(key, idx)) ==> d == days
  {
    var target := Ref(key, idx);
    if !Located(days, target) then days
    else
      var t := Normalized(days[key][idx]);
      var d0 := SetTask(days, target, t);
      if TrackingRefusal(Entries(t), kind).Some? then d0
      else
        var d1 := if kind == Start && stopOthers then StopAll(d0, OthersRunning(d0, order, target), now) else d0;
        SetTask(d1, target, WithEntry(t, Entry(kind, at)))
  }

  /** A start is refused exactly when the task is running. */
  lemma StartRefusedIffRunning(log: seq<Entry>)
    ensures TrackingRefusal(log, Start) == if IsRunning(log) then Some(AlreadyRunning) else None
  {
  }

  /** A stop is accepted exactly when the task is running and its log has more starts than stops. */
  lemma StopAcceptedIff(log: seq<Entry>)
    ensures TrackingRefusal(log, Stop).None? <==> IsRunning(log) && Count(log, Start) > Count(log, Stop)
  {
  }

  /** The log alternates start, stop, start, ... from its first entry. */
  predicate Alternating(log: seq<Entry>) {
    forall i :: 0 <= i < |log| ==> log[i].kind == if i % 2 == 0 then Start else Stop
  }

  /** An alternating log holds one more start than stops when its length is odd, as many otherwise. */
  lemma {:induction false} AlternatingCounts(log: seq<Entry>)
    requires Alternating(log)
    ensures Count(log, Start) == (|log| + 1) / 2 && Count(log, Stop) == |log| / 2
  {
    if log != [] {
      var n := |log| - 1;
      assert Alternating(log[..n]);
      AlternatingCounts(log[..n]);
    }
  }

  /** On an alternating log the start/stop count guard never refuses anything the last-entry guard lets through. */
  lemma CountGuardRedundantWhenAlternating(log: seq<Entry>)
    requires Alternating(log)
    ensures TrackingRefusal(log, Stop).None? <==> IsRunning(log)
  {
    AlternatingCounts(log);
  }

  /** The count guard can refuse to stop a running task: the log stop, stop, start. */
  lemma RunningButUnstoppable()
    ensures var log := [Entry(Stop, 1), Entry(Stop, 2), Entry(Start, 3)];
      Sorted(log) && IsRunning(log) && TrackingRefusal(log, Stop) == Some(NoActiveStart)
  {
    var l1 := [Entry(Stop, 1)];
    var l2 := l1 + [Entry(Stop, 2)];
    var log := l2 + [Entry(Start, 3)];
    assert l1[..0] == [] && l2[..1] == l1 && log[..2] == l2;
    assert Count(l1, Start) == 0 && Count(l1, Stop) == 1;
    assert Count(l2, Start) == 0 && Count(l2, Stop) == 2;
    assert Count(log, Start) == 1 && Count(log, Stop) == 2;
    assert log == [Entry(Stop, 1), Entry(Stop, 2), Entry(Start, 3)];
  }

  /** The filter of the start branch removes nothing: the task being started is not running. */
  lemma FilterRemovesNothing(days: Days, order: seq<string>, target: Ref)
    requires Distinct(order) && Located(days, target)
    requires !IsRunning(Entries(days[target.dateKey][target.taskIndex]))
    ensures OthersRunning(days, order, target) == RunningIn(days, order)
  {
    RunningInExact(days, order);
    OmitAbsent(RunningIn(days, order), target);
  }

  /** A refusal changes no log anywhere; when the task's log container already exists, it changes nothing at all. */
  lemma RefusalKeepsLogs(days: Days, order: seq<string>, key: string, idx: nat, kind: Kind, at: int, now: int, stopOthers: bool)
    requires TrackingOutcome(days, key, idx, kind).Some?
    ensures var d := AfterTracking(days, order, key, idx, kind, at, now, stopOthers);
      && d.Keys == days.Keys
      && (forall k :: k in days ==> |d[k]| == |days[k]|)
      && (forall k, i :: k in days && 0 <= i < |days[k]| ==> Entries(d[k][i]) == Entries(days[k][i]))
    ensures (Located(days, Ref(key, idx)) ==> days[key][idx].timeEntries.Some?) ==>
      AfterTracking(days, order, key, idx, kind, at, now, stopOthers) == days
  {
    if Located(days, Ref(key, idx)) && days[key][idx].timeEntries.Some? {
      assert Normalized(days[key][idx]) == days[key][idx];
      assert days[key][idx := days[key][idx]] == days[key];
    }
  }

  /** Whatever it reports, confirmTrackingTime keeps the ledger well formed. */
  lemma TrackingKeepsWellFormed(days: Days, order: seq<string>, key: string, idx: nat, kind: Kind, at: int, now: int, stopOthers: bool)
    requires WellFormed(days, order)
    ensures WellFormed(AfterTracking(days, order, key, idx, kind, at, now, stopOthers), order)
  {
    var target := Ref(key, idx);
    var d := AfterTracking(days, order, key, idx, kind, at, now, stopOthers);
    if Located(days, target) {
      var t := Normalized(days[key][idx]);
      var d0 := SetTask(days, target, t);
      assert LogsSorted(d0) by {
        forall k, i | k in d0 && 0 <= i < |d0[k]| ensures Sorted(Entries(d0[k][i])) {
          if Ref(k, i) != target {
            assert d0[k][i] == days[k][i];
          }
        }
      }
      if TrackingRefusal(Entries(t), kind).None? {
        var d1 := if kind == Start && stopOthers then StopAll(d0, OthersRunning(d0, order, target), now) else d0;
        assert LogsSorted(d1) && d1.Keys == days.Keys;
        var d2 := SetTask(d1, target, WithEntry(t, Entry(kind, at)));
        assert d == d2;
        assert LogsSorted(d2) by {
          forall k, i | k in d2 && 0 <= i < |d2[k]| ensures Sorted(Entries(d2[k][i])) {
            if Ref(k, i) != target {
              assert d2[k][i] == d1[k][i];
            }
          }
        }
      } else {
        assert d == d0;
      }
      assert d.Keys == days.Keys;
    }
  }

  /** An accepted start or stop pushes exactly one entry onto the task's log, in its place by time; nothing else of the task changes. */
  lemma AcceptedTracking(days: Days, order: seq<string>, key: string, idx: nat, kind: Kind, at: int, now: int, stopOthers: bool)
    requires WellFormed(days, order) && TrackingOutcome(days, key, idx, kind) == None
    ensures var d := AfterTracking(days, order, key, idx, kind, at, now, stopOthers);
      var old_t := days[key][idx];
      && Located(d, Ref(key, idx))
      && Entries(d[key][idx]) == InsertByTime(Entries(old_t), Entry(kind, at))
      && Sorted(Entries(d[key][idx]))
      && multiset(Entries(d[key][idx])) == multiset(Entries(old_t)) + multiset{Entry(kind, at)}
      && d[key][idx].(timeEntries := old_t.timeEntries) == old_t
  {
    AppendThenSort(Entries(days[key][idx]), Entry(kind, at));
  }

  /**
   * `d` has the days and list lengths of `days`, and each task other than `target` is as in
   * `days`, except that, when `stopping`, each running one has one stop at `now` pushed and re-sorted.
   */
  predicate OthersAfter(days: Days, d: Days, target: Ref, stopping: bool, now: int) {
    && d.Keys == days.Keys
    && (forall k :: k in days ==> |d[k]| == |days[k]|)
    && (forall k, i :: k in days && 0 <= i < |days[k]| && Ref(k, i) != target ==>
          d[k][i] == if stopping && IsRunning(Entries(days[k][i])) then WithEntry(days[k][i], Entry(Stop, now)) else days[k][i])
  }

  /**
   * The other tasks after an accepted start or stop: with the stop-others choice on a start,
   * each running one has one stop at `now` pushed and re-sorted; every other task is as it was.
   */
  lemma AcceptedTrackingOthers(days: Days, order: seq<string>, key: string, idx: nat, kind: Kind, at: int, now: int, stopOthers: bool)
    requires WellFormed(days, order) && TrackingOutcome(days, key, idx, kind) == None
    ensures OthersAfter(days, AfterTracking(days, order, key, idx, kind, at, now, stopOthers), Ref(key, idx), kind == Start && stopOthers, now)
  {
    var target := Ref(key, idx);
    var t := Normalized(days[key][idx]);
    var d0 := SetTask(days, target, t);
    if kind == Start && stopOthers {
      StopAllOthers(d0, order, target, now);
      var d1 := StopAll(d0, OthersRunning(d0, order, target), now);
      forall k, i | k in days && 0 <= i < |days[k]| && Ref(k, i) != target
        ensures d1[k][i] == if IsRunning(Entries(days[k][i])) then WithEntry(days[k][i], Entry(Stop, now)) else days[k][i]
      {
        assert d0[k][i] == days[k][i];
      }
    }
  }

  /** The stop-others loop over the scan without the target stops every other running task and nothing else. */
  lemma StopAllOthers(d0: Days, order: seq<string>, target: Ref, now: int)
    requires Distinct(order) && forall k :: k in d0 ==> k in order
    ensures OthersAfter(d0, StopAll(d0, OthersRunning(d0, order, target), now), target, true, now)
  {
    var others := OthersRunning(d0, order, target);
    RunningInExact(d0, order);
    StopAllExact(d0, others, now);
    forall k, i | k in d0 && 0 <= i < |d0[k]| && Ref(k, i) != target
      ensures Ref(k, i) in others <==> IsRunning(Entries(d0[k][i]))
    {
    }
  }

  /** With the stop-others choice, when no running task started after `now`, the started task is the only one left running. */
  lemma StopOthersLeavesOneRunning(days: Days, order: seq<string>, key: string, idx: nat, at: int, now: int)
    requires WellFormed(days, order) && TrackingOutcome(days, key, idx, Start) == None
    requires NoStartAfter(days, now)
    ensures var d := AfterTracking(days, order, key, idx, Start, at, now, true);
      forall k, i :: k in d && 0 <= i < |d[k]| && IsRunning(Entries(d[k][i])) ==> Ref(k, i) == Ref(key, idx)
  {
    AcceptedTrackingOthers(days, order, key, idx, Start, at, now, true);
    StoppedOthersIdle(days, AfterTracking(days, order, key, idx, Start, at, now, true), Ref(key, idx), now);
  }

  /** No running task's last start is later than `now`. */
  predicate NoStartAfter(days: Days, now: int) {
    forall k, i :: k in days && 0 <= i < |days[k]| && IsRunning(Entries(days[k][i])) ==>
      Entries(days[k][i])[|Entries(days[k][i])| - 1].time <= now
  }

  /** After the stop-others loop at a `now` no running task started after, none of those tasks is running. */
  lemma StoppedOthersIdle(days: Days, d: Days, target: Ref, now: int)
    requires LogsSorted(days) && NoStartAfter(days, now) && OthersAfter(days, d, target, true, now)
    ensures forall k, i :: k in d && 0 <= i < |d[k]| && IsRunning(Entries(d[k][i])) ==> Ref(k, i) == target
  {
    forall k, i | k in d && 0 <= i < |d[k]| && Ref(k, i) != target
      ensures !IsRunning(Entries(d[k][i]))
    {
      var t := days[k][i];
      if IsRunning(Entries(t)) {
        StopAtNowEndsRun(t, now);
      }
    }
  }

  /** A start at or after the last entry of the log makes the task running. */
  lemma StartAfterLastRuns(days: Days, order: seq<string>, key: string, idx: nat, at: int, now: int, stopOthers: bool)
    requires WellFormed(days, order) && TrackingOutcome(days, key, idx, Start) == None
    requires var log := Entries(days[key][idx]); log == [] || log[|log| - 1].time <= at
    ensures IsRunning(Entries(AfterTracking(days, order, key, idx, Start, at, now, stopOthers)[key][idx]))
  {
    AcceptedTracking(days, order, key, idx, Start, at, now, stopOthers);
    LastAfterInsert(Entries(days[key][idx]), Entry(Start, at));
  }

  /** A back-dated entry, earlier than the last one, leaves the running state as it was: a back-dated start does not start the task, a back-dated stop does not stop it. */
  lemma BackdatedEntryKeepsState(days: Days, order: seq<string>, key: string, idx: nat, kind: Kind, at: int, now: int, stopOthers: bool)
    requires WellFormed(days, order) && TrackingOutcome(days, key, idx, kind) == None
    requires var log := Entries(days[key][idx]); log != [] && at < log[|log| - 1].time
    ensures IsRunning(Entries(AfterTracking(days, order, key, idx, kind, at, now, stopOthers)[key][idx]))
      <==> IsRunning(Entries(days[key][idx]))
  {
    AcceptedTracking(days, order, key, idx, kind, at, now, stopOthers);
    LastAfterInsert(Entries(days[key][idx]), Entry(kind, at));
  }

  // ---- addTask and the delete-task handler ------------------------------------------

  /** Why addTask refuses a name. */
  datatype AddError = EmptyName | DuplicateName

  /** addTask's guards, on the trimmed name and the day's list (`state.tasks[dateKey] || []`). */
  function AddRefusal(tasks: seq<Task>, name: string): (r: Option<AddError>)
    ensures r == Some(EmptyName) <==> name == []
    ensures r.None? <==> name != [] && forall i :: 0 <= i < |tasks| ==> ToLower(tasks[i].name) != ToLower(name)
  {
    if name == [] then Some(EmptyName) else if NameTaken(tasks, name) then Some(DuplicateName) else None
  }

  /** No two tasks of a list have the same name, ignoring case. */
  predicate NamesDistinct(tasks: seq<Task>) {
    forall i, j :: 0 <= i < j < |tasks| ==> ToLower(tasks[i].name) != ToLower(tasks[j].name)
  }

  /** A name addTask accepts is non-empty and clashes with no name of the day, so names stay distinct. */
  lemma AcceptedNameIsNew(tasks: seq<Task>, name: string, id: string)
    requires AddRefusal(tasks, name) == None
    ensures name != [] && forall i :: 0 <= i < |tasks| ==> ToLower(tasks[i].name) != ToLower(name)
    ensures NamesDistinct(tasks) ==> NamesDistinct(tasks + [NewTask(id, name)])
  {
    var r := tasks + [NewTask(id, name)];
    if NamesDistinct(tasks) {
      forall i, j | 0 <= i < j < |r| ensures ToLower(r[i].name) != ToLower(r[j].name) {
        assert r[i] == tasks[i];
        if j < |tasks| {
          assert r[j] == tasks[j];
        }
      }
    }
  }

  /** Appending a task whose log is in time order to a day, creating the day at the end of the key order when it is new, keeps the ledger well formed. */
  lemma AppendKeepsWellFormed(days: Days, order: seq<string>, key: string, t: Task)
    requires WellFormed(days, order) && Sorted(Entries(t))
    ensures WellFormed(days[key := DayOf(days, key) + [t]], if key in days then order else order + [key])
  {
    var d := days[key := DayOf(days, key) + [t]];
    forall k, i | k in d && 0 <= i < |d[k]| ensures Sorted(Entries(d[k][i])) {
      if k != key || i < |DayOf(days, key)| {
        assert d[k][i] == days[k][i];
      }
    }
  }

  /** Names are compared ignoring case: once "Lunch" is on the day, "lunch" is refused. */
  lemma LunchTwice(id: string)
    ensures AddRefusal([NewTask(id, Trim("Lunch"))], Trim("lunch")) == Some(DuplicateName)
  {
    assert !IsJsWhitespace('L') && !IsJsWhitespace('l') && !IsJsWhitespace('h');
    TrimOfTrimmed("Lunch");
    TrimOfTrimmed("lunch");
    SameIgnoringCase();
    var tasks := [NewTask(id, "Lunch")];
    assert tasks[0].name == "Lunch";
    assert NameTaken(tasks, "lunch");
  }

  lemma SameIgnoringCase()
    ensures ToLower("Lunch") == ToLower("lunch")
  {
    var a := ToLower("Lunch");
    var b := ToLower("lunch");
    assert LowerChar('L') == 'l';
    assert a[0] == b[0] && a[1] == b[1] && a[2] == b[2] && a[3] == b[3] && a[4] == b[4];
  }

  /** Renaming makes no duplicate check: renaming "Work" to "lunch" beside "Lunch" leaves two tasks of the same name. */
  lemma RenameCanClash(a: string, b: string)
    ensures var before := [NewTask(a, "Lunch"), NewTask(b, "Work")];
      var after := before[1 := before[1].(name := "lunch")];
      NamesDistinct(before) && !NamesDistinct(after)
  {
    SameIgnoringCase();
    var before := [NewTask(a, "Lunch"), NewTask(b, "Work")];
    assert ToLower("Lunch")[1] != ToLower("Work")[1];
    var after := before[1 := before[1].(name := "lunch")];
    assert after[0].name == "Lunch" && after[1].name == "lunch";
  }

  /** `tasks.splice(i, 1)`: the task at `i` goes and the later ones move down; out-of-range positions change nothing. */
  function RemoveAt(tasks: seq<Task>, i: nat): (r: seq<Task>)
    ensures i < |tasks| ==> |r| + 1 == |tasks|
    ensures i < |tasks| ==> forall j :: 0 <= j < i ==> r[j] == tasks[j]
    ensures i < |tasks| ==> forall j :: i <= j < |r| ==> r[j] == tasks[j + 1]
    ensures i >= |tasks| ==> r == tasks
  {
    if i < |tasks| then tasks[..i] + tasks[i + 1..] else tasks
  }

  /** The day total of two lists one after the other is the sum of their day totals. */
  lemma {:induction false} DayTotalAppend(a: seq<Task>, b: seq<Task>, now: int)
    ensures DayTotal(a + b, now) == DayTotal(a, now) + DayTotal(b, now)
  {
    if b != [] {
      var n := |b| - 1;
      assert (a + b)[..|a + b| - 1] == a + b[..n];
      DayTotalAppend(a, b[..n], now);
    } else {
      assert a + b == a;
    }
  }

  /** Deleting a task takes exactly its total off the day total. */
  lemma DayTotalAfterRemove(tasks: seq<Task>, i: nat, now: int)
    requires i < |tasks|
    ensures DayTotal(RemoveAt(tasks, i), now) + LiveTotal(tasks[i], now) == DayTotal(tasks, now)
  {
    assert tasks == tasks[..i] + [tasks[i]] + tasks[i + 1..];
    DayTotalAppend(tasks[..i] + [tasks[i]], tasks[i + 1..], now);
    DayTotalAppend(tasks[..i], tasks[i + 1..], now);
    DayTotalAppend(tasks[..i], [tasks[i]], now);
    assert [tasks[i]][..0] == [];
  }

  /** Deleting a task keeps the day's names distinct. */
  lemma RemoveKeepsNamesDistinct(tasks: seq<Task>, i: nat)
    ensures NamesDistinct(tasks) ==> NamesDistinct(RemoveAt(tasks, i))
  {
    var r := RemoveAt(tasks, i);
    if NamesDistinct(tasks) && i < |tasks| {
      forall a, b | 0 <= a < b < |r| ensures ToLower(r[a].name) != ToLower(r[b].name) {
        var a' := if a < i then a else a + 1;
        var b' := if b < i then b else b + 1;
        assert r[a] == tasks[a'] && r[b] == tasks[b'];
      }
    }
  }

  // ---- loadState and saveState ----------------------------------------------------

  /** What JSON.parse gives back of the saved `state.tasks`: its date keys, in order, with their task records. */
  type Snapshot = seq<(string, seq<RawTask>)>

  /** loadState's pass over one day's records. */
  function MigrateDay(raws: seq<RawTask>): (r: seq<Task>)
    ensures |r| == |raws| && forall i :: 0 <= i < |raws| ==> Sorted(Entries(r[i]))
  {
    seq(|raws|, i requires 0 <= i < |raws| => Migrate(raws[i]))
  }

  /** The days of a parsed snapshot, migrated; a repeated key keeps its last value. */
  function LoadDays(saved: Snapshot): (d: Days)
    ensures forall i :: 0 <= i < |saved| ==> saved[i].0 in d
  {
    if saved == [] then map[]
    else
      var n := |saved| - 1;
      assert forall i :: 0 <= i < n ==> saved[..n][i] == saved[i];
      LoadDays(saved[..n])[saved[n].0 := MigrateDay(saved[n].1)]
  }

  /** The key order of a parsed snapshot: where a key first appears. */
  function LoadOrder(saved: Snapshot): (o: seq<string>)
    ensures Distinct(o) && |o| <= |saved|
    ensures forall i :: 0 <= i < |saved| ==> saved[i].0 in o
  {
    if saved == [] then []
    else
      var n := |saved| - 1;
      assert forall i :: 0 <= i < n ==> saved[..n][i] == saved[i];
      var o := LoadOrder(saved[..n]);
      if saved[n].0 in o then o else o + [saved[n].0]
  }

  /** Every loaded date key is one that was saved. */
  lemma {:induction false} LoadDaysOnlySaved(saved: Snapshot)
    ensures forall k :: k in LoadDays(saved) ==> exists i :: 0 <= i < |saved| && saved[i].0 == k
  {
    if saved != [] {
      var n := |saved| - 1;
      LoadDaysOnlySaved(saved[..n]);
      forall k | k in LoadDays(saved) ensures exists i :: 0 <= i < |saved| && saved[i].0 == k {
        if k == saved[n].0 {
          assert saved[n].0 == k;
        } else {
          assert k in LoadDays(saved[..n]);
          var i :| 0 <= i < |saved[..n]| && saved[..n][i].0 == k;
          assert saved[i].0 == k;
        }
      }
    }
  }

  /** Whatever was saved, the loaded ledger is well formed: its key order is the key set without repeats, and every log is sorted. */
  lemma {:induction false} LoadWellFormed(saved: Snapshot)
    ensures WellFormed(LoadDays(saved), LoadOrder(saved))
  {
    if saved != [] {
      var n := |saved| - 1;
      LoadWellFormed(saved[..n]);
      var d := LoadDays(saved);
      var front := LoadDays(saved[..n]);
      forall k, i | k in d && 0 <= i < |d[k]| ensures Sorted(Entries(d[k][i])) {
        if k != saved[n].0 {
          assert d[k] == front[k];
        }
      }
    }
  }

  /** Loading one more record: its key gets its migrated day, and joins the order when it is new. */
  lemma LoadSnoc(saved: Snapshot, i: nat)
    requires i < |saved|
    ensures var key := saved[i].0;
      && LoadDays(saved[..i + 1]) == LoadDays(saved[..i])[key := MigrateDay(saved[i].1)]
      && LoadOrder(saved[..i + 1]) == if key in LoadDays(saved[..i]) then LoadOrder(saved[..i]) else LoadOrder(saved[..i]) + [key]
  {
    assert saved[..i + 1][..i] == saved[..i];
    LoadWellFormed(saved[..i]);
  }

  /** saveState's records of one day. */
  function RecordsOf(tasks: seq<Task>): (r: seq<RawTask>)
    ensures |r| == |tasks| && forall i :: 0 <= i < |tasks| ==> r[i] == ToRecord(tasks[i])
  {
    seq(|tasks|, i requires 0 <= i < |tasks| => ToRecord(tasks[i]))
  }

  /** saveState: every day, in key order, with its task records. */
  function SnapshotOf(days: Days, order: seq<string>): (r: Snapshot)
    ensures |r| == |order| && forall i :: 0 <= i < |order| ==> r[i].0 == order[i]
  {
    if order == [] then []
    else
      var n := |order| - 1;
      SnapshotOf(days, order[..n]) + [(order[n], RecordsOf(DayOf(days, order[n])))]
  }

  /** Loading a saved day whose logs are sorted gives back the same tasks. */
  lemma MigrateRecordsOf(tasks: seq<Task>)
    requires forall i :: 0 <= i < |tasks| ==> Sorted(Entries(tasks[i]))
    ensures MigrateDay(RecordsOf(tasks)) == tasks
  {
    forall i | 0 <= i < |tasks| ensures MigrateDay(RecordsOf(tasks))[i] == tasks[i] {
      MigrateSaved(tasks[i]);
    }
  }

  /** The part of `days` whose keys are listed in `keys`. */
  function Restrict(days: Days, keys: seq<string>): Days {
    map k | k in days && k in keys :: days[k]
  }

  /** Loading what was saved under distinct keys gives back those keys, in order. */
  lemma {:induction false} LoadOrderOfSnapshot(days: Days, keys: seq<string>)
    requires Distinct(keys)
    ensures LoadOrder(SnapshotOf(days, keys)) == keys
  {
    if keys != [] {
      var n := |keys| - 1;
      assert keys == keys[..n] + [keys[n]];
      assert Distinct(keys[..n]) && keys[n] !in keys[..n];
      LoadOrderOfSnapshot(days, keys[..n]);
      assert SnapshotOf(days, keys)[..n] == SnapshotOf(days, keys[..n]);
    }
  }

  /** Adding one more key to a restriction. */
  lemma RestrictSnoc(days: Days, keys: seq<string>, k: string)
    requires k in days
    ensures Restrict(days, keys + [k]) == Restrict(days, keys)[k := days[k]]
  {
    forall x ensures x in keys + [k] <==> x in keys || x == k {
    }
  }

  /** Loading what was saved of the listed days gives back those days. */
  lemma {:induction false} LoadDaysOfSnapshot(days: Days, keys: seq<string>)
    requires LogsSorted(days) && forall k :: k in keys ==> k in days
    ensures LoadDays(SnapshotOf(days, keys)) == Restrict(days, keys)
  {
    if keys != [] {
      var n := |keys| - 1;
      var k := keys[n];
      assert keys == keys[..n] + [k];
      LoadDaysOfSnapshot(days, keys[..n]);
      var saved := SnapshotOf(days, keys);
      assert saved[..n] == SnapshotOf(days, keys[..n]);
      assert saved[n] == (k, RecordsOf(days[k]));
      MigrateRecordsOf(days[k]);
      RestrictSnoc(days, keys[..n], k);
    }
  }

  /** Saving a well-formed ledger and loading it back reproduces it exactly, so every figure derived from it is the same. */
  lemma LoadOfSnapshot(days: Days, order: seq<string>)
    requires WellFormed(days, order)
    ensures LoadDays(SnapshotOf(days, order)) == days && LoadOrder(SnapshotOf(days, order)) == order
  {
    LoadOrderOfSnapshot(days, order);
    LoadDaysOfSnapshot(days, order);
    assert Restrict(days, order) == days;
  }
}
