/**
 * The tracker's mutable state, `state.tasks`, as an object, and the handlers of the popup
 * that change it or read it: loading, the running-task scan, confirming a start or a stop,
 * editing and deleting entries, manual time, adding and deleting tasks, and the day total.
 * Each handler is specified by the functions of LedgerState on the state before the call.
 */
module Tracker {
  import opened Wrappers
  import opened TimeLog
  import opened TaskRecords
  import opened Durations
  import opened LedgerState

  class Ledger {
    /** `state.tasks`. */
    var days: Days
    /** The date keys of `state.tasks` in insertion order. */
    var order: seq<string>

    ghost predicate Valid()
      reads this
    {
      WellFormed(days, order)
    }

    /**
     * loadState on the parsed saved data (`[]` when nothing was saved): each record of each
     * day is migrated in turn.
     */
    constructor (saved: Snapshot)
      ensures Valid()
      ensures days == LoadDays(saved) && order == LoadOrder(saved)
    {
      var d: Days := map[];
      var o: seq<string> := [];
      for i := 0 to |saved|
        invariant d == LoadDays(saved[..i]) && o == LoadOrder(saved[..i])
      {
        LoadSnoc(saved, i);
        var key := saved[i].0;
        var tasks := MigrateRecords(saved[i].1);
        if key !in d {
          o := o + [key];
        }
        d := d[key := tasks];
      }
      assert saved[..|saved|] == saved;
      LoadWellFormed(saved);
      days := d;
      order := o;
    }

    /** The `forEach` of loadState over one day's records: each is migrated, in list order. */
    static method MigrateRecords(raws: seq<RawTask>) returns (tasks: seq<Task>)
      ensures tasks == MigrateDay(raws)
    {
      tasks := [];
      for j := 0 to |raws|
        invariant |tasks| == j && forall m :: 0 <= m < j ==> tasks[m] == Migrate(raws[m])
      {
        tasks := tasks + [Migrate(raws[j])];
      }
    }

    /** getCurrentlyRunningTasks: every day in key order, every task of it in list order. */
    method GetCurrentlyRunningTasks() returns (running: seq<Ref>)
      requires forall k :: k in order ==> k in days
      ensures running == RunningIn(days, order)
    {
      var ds := days;
      var keys := order;
      running := [];
      for i := 0 to |keys|
        invariant running == RunningIn(ds, keys[..i])
      {
        var key := keys[i];
        var tasks := ds[key];
        RunningInSnoc(ds, keys, i);
        ghost var before := running;
        for j := 0 to |tasks|
          invariant running == before + RunningOfDay(key, tasks[..j])
        {
          RunningOfDaySnoc(key, tasks, j);
          var task := tasks[j];
          RunningTest(task);
          if task.timeEntries.Some? && |task.timeEntries.value| > 0 {
            var lastEntry := task.timeEntries.value[|task.timeEntries.value| - 1];
            if lastEntry.kind == Start {
              assert (before + RunningOfDay(key, tasks[..j])) + [Ref(key, j)] == before + (RunningOfDay(key, tasks[..j]) + [Ref(key, j)]);
              running := running + [Ref(key, j)];
            }
          }
        }
        assert tasks[..|tasks|] == tasks;
      }
      assert keys[..|keys|] == keys;
    }

    /**
     * confirmTrackingTime for the task at `(key, idx)`: `kind` is the dialog's start or stop,
     * `at` the instant entered, `now` the current instant and `stopOthers` the answer to the
     * stop-the-other-tasks question.
     */
    method ConfirmTrackingTime(key: string, idx: nat, kind: Kind, at: int, now: int, stopOthers: bool)
      returns (outcome: Option<TrackError>)
      requires Valid()
      modifies this
      ensures Valid() && order == old(order)
      ensures outcome == TrackingOutcome(old(days), key, idx, kind)
      ensures days == AfterTracking(old(days), order, key, idx, kind, at, now, stopOthers)
    {
      var target := Ref(key, idx);
      if !(key in days && idx < |days[key]|) {
        return Some(TaskNotFound);
      }
      TrackingKeepsWellFormed(days, order, key, idx, kind, at, now, stopOthers);
      var task := Normalized(days[key][idx]);
      ghost var d0 := SetTask(days, target, task);
      days := days[key := days[key][idx := task]];
      outcome := TrackingGuards(task.timeEntries.value, kind);
      if outcome.Some? {
        return;
      }
      if kind == Start {
        var allRunning := GetCurrentlyRunningTasks();
        var others := Omit(allRunning, target);
        assert others == OthersRunning(d0, order, target);
        if |others| > 0 && stopOthers {
          forall r | r in others ensures Located(days, r) {
            assert r in allRunning;
          }
          StopOtherTasks(others, now);
        }
        assert days == if stopOthers then StopAll(d0, others, now) else d0;
      }
      days := days[key := days[key][idx := WithEntry(task, Entry(kind, at))]];
    }

    /**
     * The guards of confirmTrackingTime on the task's log: a start is refused when the last entry
     * is a start; a stop when there are no entries, when the last entry is a stop, or when the
     * starts number no more than the stops. This is the handler's own if-chain, statement by
     * statement; `LedgerState.TrackingRefusal` is the same chain as a function, which the
     * specification functions and lemmas use because they cannot call a method.
     */
    static method TrackingGuards(log: seq<Entry>, kind: Kind) returns (refusal: Option<TrackError>)
      ensures refusal == TrackingRefusal(log, kind)
    {
      refusal := None;
      if kind == Start {
        if |log| > 0 && log[|log| - 1].kind == Start {
          refusal := Some(AlreadyRunning);
        }
      } else {
        if |log| > 0 {
          if log[|log| - 1].kind == Stop {
            refusal := Some(AlreadyStopped);
          } else {
            var startCount := Count(log, Start);
            var stopCount := Count(log, Stop);
            if startCount <= stopCount {
              refusal := Some(NoActiveStart);
            }
          }
        } else {
          refusal := Some(NoEntries);
        }
      }
    }

    /** The `forEach` of confirmTrackingTime over the other running tasks: each one still running gets a stop at `now`, then its log is re-sorted. */
    method StopOtherTasks(others: seq<Ref>, now: int)
      requires forall r :: r in others ==> Located(days, r)
      modifies this
      ensures order == old(order)
      ensures days == StopAll(old(days), others, now)
    {
      ghost var start := days;
      var d := days;
      for i := 0 to |others|
        invariant days == start && order == old(order)
        invariant d == StopAll(start, others[..i], now)
      {
        var r := others[i];
        assert r in others;
        StopAllSnoc(start, others, i, now);
        StopOneAt(d, r, now);
        var taskToStop := d[r.dateKey][r.taskIndex];
        RunningTest(taskToStop);
        if taskToStop.timeEntries.Some? && |taskToStop.timeEntries.value| > 0 {
          var lastOther := taskToStop.timeEntries.value[|taskToStop.timeEntries.value| - 1];
          if lastOther.kind == Start {
            d := d[r.dateKey := d[r.dateKey][r.taskIndex := WithEntry(taskToStop, Entry(Stop, now))]];
          }
        }
      }
      assert others[..|others|] == others;
      days := d;
    }

    /** saveEdit: entry `entryIdx` of the task takes the chosen type and time; the log is re-sorted. */
    method SaveEdit(key: string, taskIdx: nat, entryIdx: nat, kind: Kind, at: int)
      requires Valid() && Located(days, Ref(key, taskIdx)) && entryIdx < |Entries(days[key][taskIdx])|
      modifies this
      ensures Valid() && order == old(order)
      ensures days == SetTask(old(days), Ref(key, taskIdx), EditEntry(old(days)[key][taskIdx], entryIdx, Entry(kind, at)))
    {
      var task := days[key][taskIdx];
      SetTaskKeepsSorted(days, Ref(key, taskIdx), EditEntry(task, entryIdx, Entry(kind, at)));
      days := days[key := days[key][taskIdx := EditEntry(task, entryIdx, Entry(kind, at))]];
    }

    /** The delete button of a history entry: `splice(entryIdx, 1)`, dropping the log container once it is empty. */
    method DeleteEntry(key: string, taskIdx: nat, entryIdx: nat)
      requires Valid() && Located(days, Ref(key, taskIdx)) && days[key][taskIdx].timeEntries.Some?
      modifies this
      ensures Valid() && order == old(order)
      ensures days == SetTask(old(days), Ref(key, taskIdx), RemoveEntry(old(days)[key][taskIdx], entryIdx))
    {
      var task := days[key][taskIdx];
      SetTaskKeepsSorted(days, Ref(key, taskIdx), RemoveEntry(task, entryIdx));
      days := days[key := days[key][taskIdx := RemoveEntry(task, entryIdx)]];
    }

    /**
     * saveAddHours and saveRemoveHours: the amount `hours * 3600000 + minutes * 60000` is added
     * to the chosen accumulator when it is positive; otherwise nothing changes.
     */
    method SaveManualTime(key: string, taskIdx: nat, bucket: Bucket, hours: int, minutes: int)
      returns (changed: bool)
      requires Valid() && Located(days, Ref(key, taskIdx))
      modifies this
      ensures Valid() && order == old(order)
      ensures changed <==> ManualMs(hours, minutes) > 0
      ensures days == if changed
        then SetTask(old(days), Ref(key, taskIdx), AddManual(old(days)[key][taskIdx], bucket, ManualMs(hours, minutes)))
        else old(days)
    {
      var task := days[key][taskIdx];
      var ms := hours * 3600000 + minutes * 60000;
      changed := ms > 0;
      if changed {
        SetTaskKeepsSorted(days, Ref(key, taskIdx), AddManual(task, bucket, ms));
        days := days[key := days[key][taskIdx := AddManual(task, bucket, ms)]];
      }
    }

    /** The reset buttons of the history view: the chosen accumulator becomes 0. */
    method ResetManualTime(key: string, taskIdx: nat, bucket: Bucket)
      requires Valid() && Located(days, Ref(key, taskIdx))
      modifies this
      ensures Valid() && order == old(order)
      ensures days == SetTask(old(days), Ref(key, taskIdx), ResetManual(old(days)[key][taskIdx], bucket))
    {
      var task := days[key][taskIdx];
      SetTaskKeepsSorted(days, Ref(key, taskIdx), ResetManual(task, bucket));
      days := days[key := days[key][taskIdx := ResetManual(task, bucket)]];
    }

    /**
     * editTaskName with the prompt's answer (None when cancelled): a non-blank answer that differs
     * from the current name becomes the name, trimmed. No duplicate check is made here.
     */
    method EditTaskName(key: string, taskIdx: nat, newName: Option<string>) returns (changed: bool)
      requires Valid() && Located(days, Ref(key, taskIdx))
      modifies this
      ensures Valid() && order == old(order)
      ensures changed <==> newName.Some? && Trim(newName.value) != "" && newName.value != old(days)[key][taskIdx].name
      ensures days == if changed
        then SetTask(old(days), Ref(key, taskIdx), old(days)[key][taskIdx].(name := Trim(newName.value)))
        else old(days)
    {
      var task := days[key][taskIdx];
      changed := newName.Some? && Trim(newName.value) != "" && newName.value != task.name;
      if changed {
        SetTaskKeepsSorted(days, Ref(key, taskIdx), task.(name := Trim(newName.value)));
        days := days[key := days[key][taskIdx := task.(name := Trim(newName.value))]];
      }
    }

    /**
     * addTask with the input field's text: the trimmed name is refused when empty or when the
     * day already has it (ignoring case); otherwise a new task with the given id is appended,
     * creating the day first if it is missing.
     */
    method AddTask(key: string, input: string, id: string) returns (outcome: Option<AddError>)
      requires Valid()
      modifies this
      ensures Valid()
      ensures outcome == AddRefusal(DayOf(old(days), key), Trim(input))
      ensures outcome.Some? ==> days == old(days) && order == old(order)
      ensures outcome.None? ==>
        && days == old(days)[key := DayOf(old(days), key) + [NewTask(id, Trim(input))]]
        && order == if key in old(days) then old(order) else old(order) + [key]
    {
      var taskName := Trim(input);
      if taskName == [] {
        return Some(EmptyName);
      }
      AppendKeepsWellFormed(days, order, key, NewTask(id, taskName));
      if key !in days {
        days := days[key := []];
        order := order + [key];
      }
      if NameTaken(days[key], taskName) {
        return Some(DuplicateName);
      }
      days := days[key := days[key] + [NewTask(id, taskName)]];
      assert days == old(days)[key := DayOf(old(days), key) + [NewTask(id, taskName)]];
      outcome := None;
    }

    /** The delete button of a task: `splice(index, 1)` on the day's list, then the day goes once it is empty. */
    method DeleteTask(key: string, index: nat)
      requires Valid() && key in days
      modifies this
      ensures Valid()
      ensures var rest := RemoveAt(old(days)[key], index);
        if rest == [] then days == old(days) - {key} && order == Omit(old(order), key)
        else days == old(days)[key := rest] && order == old(order)
    {
      var rest := RemoveAt(days[key], index);
      if rest == [] {
        days := days - {key};
        order := Omit(order, key);
      } else {
        days := days[key := rest];
        assert LogsSorted(days) by {
          forall k, i | k in days && 0 <= i < |days[k]| ensures Sorted(Entries(days[k][i])) {
            if k == key && index < |old(days)[key]| {
              var i' := if i < index then i else i + 1;
              assert days[k][i] == old(days)[k][i'];
            }
          }
        }
      }
    }

    /**
     * calculateDayTotalTime: 0 for a missing or empty day, otherwise the clamped task totals summed.
     * It looks the day up in `state.tasks`, which is this class's field; the loop over the day's
     * list is `Durations.CalculateDayTotalTime`, called here, so that loop is written once.
     */
    method CalculateDayTotalTime(key: string, now: int) returns (totalMs: int)
      ensures totalMs == DayTotal(DayOf(days, key), now)
    {
      if key !in days || |days[key]| == 0 {
        return 0;
      }
      totalMs := Durations.CalculateDayTotalTime(days[key], now);
    }
  }
}
