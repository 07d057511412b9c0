# Time ledger of the task-tracker popup

This project models the data core of a browser-extension time tracker, `popup.js`. The tracker keeps
one list of tasks per calendar day. Each task has:

- a time log of start and stop entries;
- manually added and removed time;
- a name and notes.

The model covers these parts of the popup:

- loading and migrating the saved state;
- starting and stopping tasks, with the option to stop every other running task on a start;
- editing and deleting log entries;
- adding and resetting manual time;
- adding, renaming and deleting tasks;
- the duration arithmetic behind what is shown: a task's figure, its live refresh, the day total
  and the report total;
- the `h:mm:ss` / `HH:MM` formatting of those figures.

Modules, one concern each:

- `Wrappers` holds `Option`.
- `TimeLog` holds entries and logs. JavaScript's stable `Array.prototype.sort` by time becomes
  the stable insertion sort `SortByTime`, with its one-step form `InsertByTime`.
- `TaskRecords` holds the task record and the raw saved record, and the migration from one to the
  other. It also holds the pure task updates (push an entry, edit one, remove one, manual time),
  and `trim`/`toLowerCase`.
- `Durations` holds the greedy start/stop pass and its reference pairing `PairSum`. It also holds
  the live, report and day totals, and the loops that compute them.
- `Formatting` holds `formatDuration` and `formatTimeHHMM`, each proved to read back as the value
  it shows.
- `LedgerState` holds the whole ledger:
  - `days` is a map from date key to the day's tasks;
  - `order` is the key insertion order of the JavaScript object;
  - its invariant is `WellFormed`.
  It also holds the specification functions of the state-changing handlers: `AfterTracking`,
  `StopAll`, `RunningIn`, `AddRefusal`, `RemoveAt`, `LoadDays` and `SnapshotOf`.
- `Tracker` holds the class `Ledger`, whose fields the handlers update in place. Each method is
  proved against the matching function of `LedgerState`.

Times are integers counting milliseconds since the epoch. Date keys are strings. A task is found by
its date key and its index in the day's list, which is what the popup's handlers receive.

Where the popup's behaviour differs from what one might expect of it, the model follows the code:

- Tracking is not all-or-nothing. `confirmTrackingTime` runs `timeEntries = timeEntries || []`
  before its guards, so a refused start or stop still leaves an empty log container behind
  (`LedgerState.RefusalKeepsLogs`).
- A stop is refused in three cases, each with its own error: there are no entries, the last entry
  is a stop, or the starts number no more than the stops. `LedgerState.RunningButUnstoppable`
  shows that the third guard can refuse a task that is running.
- Both the live figure and the day total clamp each task's total at zero. The day total sums the
  clamped figures (`Durations.DayTotalBounds`).
- Logs are re-sorted in memory in three places: at load, at render (`renderTask` sorts the day's
  logs in place, and the next save writes them out) and after an entry is added or edited.
  `Durations.RenderFigures` returns the render's sorted log. Under the ledger's invariant every log
  is already sorted, so the render sort changes nothing (`TimeLog.SortByTimeOfSorted`).

## Model

Some definitions name a source expression and carry no contract of their own, so they have no
row: `Durations.IsRunning`, `Durations.LiveTracked`, `Durations.CompletedTracked`,
`TaskRecords.NameTaken`, `TaskRecords.ManualMs`, `LedgerState.TrackingOutcome` and
`LedgerState.OthersRunning`. The lemmas `LedgerState.RunningTest`, `Durations.LiveAdvances`,
`Durations.ScanIsPairSum`, `LedgerState.AddRefusal` and `LedgerState.AcceptedTrackingOthers`
state their properties.

| member | source | states |
|---|---|---|
| TimeLog.Count | popup.js:1007-1013 | the number of entries of one kind never exceeds the log's length |
| TimeLog.CountsAddUp | popup.js:1007-1013 | the start and stop counts of a log add up to its length |
| TimeLog.InsertByTime | popup.js:1032 | inserting an entry by time adds exactly that entry (by multiset) and keeps a sorted log sorted |
| TimeLog.SortByTime | popup.js:96-100 | loading re-sorts every log: the result is sorted and a permutation of the input |
| TimeLog.SortByTimeOfSorted | popup.js:96-100 | re-sorting an already sorted log changes nothing |
| TimeLog.AppendThenSort | popup.js:991-994 | pushing an entry onto a sorted log and re-sorting it stably is the same as inserting it by time |
| TimeLog.InsertLatest | popup.js:991-994 | an entry not earlier than the last one is simply appended |
| TimeLog.LastAfterInsert | popup.js:1032 | after insertion the last entry is the new one if it is not earlier than the old last entry, and the old last entry otherwise |
| TimeLog.RemoveKeepsSorted | popup.js:734-737 | removing one entry keeps a sorted log sorted |
| TaskRecords.Normalized | popup.js:942 | `timeEntries \|\| []` creates the container and keeps the log and every other field |
| TaskRecords.WithEntry | popup.js:991-994 | pushing an entry and sorting adds exactly that entry, leaves the log sorted and changes no other field |
| TaskRecords.EditEntry | popup.js:806-810 | an edited entry replaces the old one (by multiset); the log keeps its length, is sorted again, and no other field changes |
| TaskRecords.RemoveEntry | popup.js:734-737 | `splice` removes exactly the indexed entry, or nothing when the index is past the end; an emptied log drops its container; sortedness is kept |
| TaskRecords.LeadingSpace | popup.js:1268 | the count of leading characters is all white space and stops at the first character that is not |
| TaskRecords.TrailingSpace | popup.js:1268 | the count of trailing characters is all white space and stops at the last character that is not |
| TaskRecords.Trim | popup.js:1268-1272 | the result is a slice of the input with only white space outside it, with no white space at either end; it is empty exactly when the input is all white space |
| TaskRecords.TrimOfTrimmed | popup.js:1268 | a string with no white space at either end trims to itself |
| TaskRecords.TrimIdempotent | popup.js:1268 | trimming twice is trimming once |
| TaskRecords.ToLower | popup.js:1282-1284 | lower-casing keeps the length, leaves no ASCII capital, turns each capital into its small letter and keeps every other character |
| TaskRecords.Migrate | popup.js:94-114 | loading a record sorts its log (a permutation of the saved one), folds `manualTime` into `manualTimeAdded`, keeps a truthy `name` and otherwise takes a truthy `title`, and gives missing notes the default ""; a missing accumulator reads as 0 |
| TaskRecords.MigrateLegacy | popup.js:107-113 | a legacy record with a title, no name and no notes loads with the title as its name and empty notes |
| TaskRecords.ToRecord | popup.js:84-86 | saving writes a task in the current shape: name, notes, log and both accumulators as the task holds them, no legacy `title` or `manualTime` |
| TaskRecords.AddManual | popup.js:833-885 | the chosen accumulator grows by the amount; the other accumulator and every other field stay as they were |
| TaskRecords.ResetManual | popup.js:651-680 | the chosen accumulator becomes zero; the other accumulator and every other field stay as they were |
| TaskRecords.NewTask | popup.js:1291-1298 | a new task has its id and name, an empty log container, no manual time and empty notes |
| TaskRecords.MigrateSaved | popup.js:94-114 | loading a saved task whose log is sorted gives back the same task |
| TaskRecords.MigrateIdempotent | popup.js:94-114 | migrating an already migrated record and saving it changes nothing |
| TaskRecords.ResetTwice | popup.js:651-659 | a reset bucket reads back as zero, and resetting it again changes nothing |
| Durations.Step | popup.js:163-168 | after one entry a start is pending exactly when the entry is a start, at its time; only a stop after a pending start credits time, the time between the two |
| Durations.Scan | popup.js:161-169 | after the whole pass a start is pending exactly when the log is running, and it is the last entry's time |
| Durations.LiveTotal | popup.js:171-181 | a task's displayed total is never below its unclamped figure, and for a task that is not running it is the report total |
| Durations.ReportTotal | popup.js:1060-1083 | the report total is never below the unclamped completed figure, and for a sorted log never below the net manual time |
| Durations.DayTotal | popup.js:151-185 | the day total is zero exactly when every task of the day shows zero |
| Durations.ScanIsPairSum | popup.js:161-176 | the greedy pass over the log credits exactly the reference pairing of each start with the next stop; it ends with an open start exactly when the log is running |
| Durations.PairSumSnoc | popup.js:161-176 | a trailing entry does not change the paired sum of the entries before it |
| Durations.PairSumNonNegative | popup.js:161-176 | a sorted log pairs to a non-negative sum |
| Durations.CompletedNonNegative | popup.js:1060-1083 | the completed time of a sorted log is never negative |
| Durations.LiveNonNegative | popup.js:337-342 | the live figure of a sorted log is never negative while its open start is not in the future |
| Durations.LiveCanBeNegative | popup.js:337-342 | a start later than `now` makes the live figure negative before the clamp (started at 100, looked at at 50: -50) |
| Durations.LiveAdvances | popup.js:337-342 | the live figure grows one for one with the clock while the task runs and stays still otherwise |
| Durations.UnmatchedStopIgnored | popup.js:165-168 | a stop with no open start adds nothing |
| Durations.SecondStartOverwrites | popup.js:163-164 | a start after an open start replaces it without crediting anything |
| Durations.StopCreditsLiveFigure | popup.js:165-175 | stopping a running task at time t credits exactly the live figure it showed at t |
| Durations.ReportIgnoresOpenStart | popup.js:1060-1083 | the report total gives an open start no credit |
| Durations.Clamp | popup.js:181 | `Math.max(0, x)` is at least x, and is either x or zero |
| Durations.DayTotalBounds | popup.js:151-185 | the day total is at least each task's clamped figure, and at least the unclamped sum |
| Durations.AddedRaisesTotal | popup.js:833-849 | adding manual time raises a task's total by at most that amount, and by exactly that amount when the total was positive |
| Durations.RemovedLowersTotal | popup.js:868-885 | removing manual time lowers a task's total by at most that amount |
| Durations.TickAsWritten | popup.js:429-435 | the refresh as written never shows less than the live total when the render came after the last start, and shows strictly more once the total is positive and the render came later than the start |
| Durations.TickAsWrittenCountsTwice | popup.js:429-435 | the total the refresh timer writes counts the time from the last start to the render twice |
| Durations.TickAsWrittenExample | popup.js:429-435 | a task started at 09:00 and rendered at 09:45 shows 1:30:01 one second later, where its total is 45:01 |
| Durations.Tick | popup.js:429-435 | the corrected refresh shows the task's live total at the tick's time |
| Durations.TickFromRender | popup.js:429-435 | the corrected refresh agrees with the rendered figure at render time, and then grows by no more than the time elapsed |
| Durations.NewTaskShowsZero | popup.js:1291-1298 | a task just added is not running and shows zero, live and in the report |
| Durations.MorningTotals | popup.js:833-849 | a 90-minute task totals 90 minutes, 105 minutes with 15 added, and 0 with 200 removed |
| Durations.RunningSinceNine | popup.js:337-342 | a task started at 09:00 is running and shows 45 minutes at 09:45 |
| Durations.TrackedPass | popup.js:161-176 | the loop over the log computes the greedy pass |
| Durations.CalculateTaskDuration | popup.js:1060-1083 | the loop computes the report total |
| Durations.RenderFigures | popup.js:324-347 | the render re-sorts the log and computes the running flag and the live total from the sorted log |
| Durations.TaskDayFigure | popup.js:156-182 | the callback for one task computes its live total, clamped |
| Durations.CalculateDayTotalTime | popup.js:151-185 | the loop computes the day total |
| Formatting.Digit | popup.js:45-46 | a digit character has the digit's value |
| Formatting.Decimal | popup.js:45-46 | a decimal numeral is all digits, one digit exactly below ten and two digits from ten to 99 |
| Formatting.PadStart2 | popup.js:45-46 | `padStart(2, "0")` gives at least two characters |
| Formatting.DecimalValue | popup.js:45-46 | a decimal numeral reads back as its number |
| Formatting.PaddedValue | popup.js:45-46 | a padded numeral reads back as its number |
| Formatting.LeadingZero | popup.js:45-46 | a leading zero does not change a numeral's value |
| Formatting.Fields | popup.js:40-52 | splitting at colons gives at least one field |
| Formatting.FieldsOfPlain | popup.js:40-52 | a string with no colon is one field |
| Formatting.FieldsOfJoin | popup.js:40-52 | splitting a colon-joined string gives its parts |
| Formatting.DigitsHaveNoColon | popup.js:40-52 | a numeral holds no colon |
| Formatting.Horner60OfThree | popup.js:40-52 | base-60 reading of two or three fields |
| Formatting.TimeUnits | popup.js:40-44 | whole minutes and whole hours can be taken either from milliseconds or from the coarser unit |
| Formatting.FieldValuesOfTwo | popup.js:40-52 | two numeral fields read as their two values |
| Formatting.ClockOfTwo | popup.js:54-63 | `a:b` splits into its two numerals and reads as their values |
| Formatting.ClockOfThree | popup.js:40-52 | `a:b:c` splits into its three numerals and reads as their values |
| Formatting.FormatDuration | popup.js:40-52 | a duration always shows at least four characters, ending in a colon and two characters |
| Formatting.FormatTimeHHMM | popup.js:54-63 | a non-negative time always shows at least five characters, ending in a colon and two characters |
| Formatting.FormatDurationReadsBack | popup.js:40-52 | a positive duration is shown as `m:ss` below an hour and as `h:mm:ss` from an hour on; the first field is the plain decimal numeral of its value, without padding; minutes and seconds are two digits below 60, and the fields in base 60 give the whole seconds |
| Formatting.TwoFieldsRead | popup.js:49-51 | `M:SS` with seconds below 60 reads back as its minutes and seconds, the seconds two digits long |
| Formatting.ThreeFieldsRead | popup.js:47-48 | `H:MM:SS` with minutes and seconds below 60 reads back as its three numbers, the last two fields two digits long |
| Formatting.FormatDurationOfLessThanASecond | popup.js:40-52 | zero, negative and sub-second durations show as `0:00` |
| Formatting.FormatTimeHHMMReadsBack | popup.js:54-63 | a non-negative time of day is shown as two fields of at least two digits, the first being the hours' numeral padded to two digits and no more, with minutes below 60, and the fields in base 60 give the whole minutes |
| LedgerState.SetTask | popup.js:806-810 | replacing one task keeps every key, every day's length and every other task |
| LedgerState.SetTaskKeepsSorted | popup.js:806-810 | replacing a task by one whose log is in time order keeps every log in time order |
| LedgerState.RunningOfDay | popup.js:1040-1057 | the day's scan names only positions of that day |
| LedgerState.RunningIn | popup.js:1040-1057 | the scan names only located positions under the listed keys |
| LedgerState.RunningOfDayExact | popup.js:1040-1057 | a day's scan finds exactly its running tasks, in increasing position |
| LedgerState.RunningInExact | popup.js:1040-1057 | with distinct keys, the scan finds exactly the running tasks, each once |
| LedgerState.RunningInOrdered | popup.js:1040-1057 | with distinct keys, the scan lists the running tasks day by day in key order, and within a day by increasing position |
| LedgerState.RunningTest | popup.js:1046-1048 | the popup's test (an entry container with entries whose last is a start) is exactly the running predicate |
| LedgerState.Omit | popup.js:957-960 | the filter keeps everything but the target, and keeps a repeat-free list repeat-free |
| LedgerState.OmitAbsent | popup.js:957-960 | filtering out something absent changes nothing |
| LedgerState.StopOne | popup.js:969-983 | one turn of the loop keeps every key and day length, touches no task but its own, and changes nothing when its task is not running |
| LedgerState.StopAll | popup.js:962-988 | the stop-others loop keeps every key, every day's length and every log's sortedness |
| LedgerState.StopAllExact | popup.js:962-988 | after the loop over distinct positions, each listed task that was running has one stop at `now` added, and every other task is unchanged |
| LedgerState.StopAllOthers | popup.js:957-988 | the loop over the filtered scan stops every running task other than the target, and changes no other task |
| LedgerState.StopAtNowEndsRun | popup.js:973-983 | a stop at a `now` not before the open start is appended last and ends the run |
| LedgerState.StopBeforeLastStartKeepsRun | popup.js:973-983 | a stop at a `now` before the open start sorts in before it, and the task stays running |
| LedgerState.TrackingRefusal | popup.js:944-1024 | `AlreadyRunning` is the start branch's only refusal and never the stop branch's; an accepted start finds the task idle and an accepted stop finds it running |
| LedgerState.AfterTracking | popup.js:913-1037 | tracking keeps every date key and every day's length, and changes nothing when the task is not found |
| LedgerState.StartRefusedIffRunning | popup.js:944-953 | a start is refused, as already running, exactly when the task is running |
| LedgerState.StopAcceptedIff | popup.js:995-1024 | a stop is accepted exactly when the task is running and has more starts than stops |
| LedgerState.AlternatingCounts | popup.js:995-1024 | an alternating log has one more start than stops when its length is odd, and equal counts otherwise |
| LedgerState.CountGuardRedundantWhenAlternating | popup.js:995-1024 | on an alternating log a stop is accepted exactly when the task is running |
| LedgerState.RunningButUnstoppable | popup.js:1000-1018 | the sorted log stop, stop, start is running, yet its stop is refused |
| LedgerState.FilterRemovesNothing | popup.js:957-960 | when the target is not running, the filter removes nothing from the scan |
| LedgerState.RefusalKeepsLogs | popup.js:942-1024 | a refused start or stop changes no log, key or length; it changes nothing when the container already existed |
| LedgerState.TrackingKeepsWellFormed | popup.js:913-1037 | start and stop keep the ledger well formed |
| LedgerState.AcceptedTracking | popup.js:991-1032 | an accepted start or stop inserts its entry into the task's log by time, and keeps the log sorted and the other fields |
| LedgerState.AcceptedTrackingOthers | popup.js:957-988 | on an accepted start with the stop-others choice, every other running task gets one stop at `now`; otherwise no other task changes |
| LedgerState.StopOthersLeavesOneRunning | popup.js:957-994 | when no open start lies after `now`, the stop-others start leaves only the started task able to run |
| LedgerState.StoppedOthersIdle | popup.js:962-988 | once the loop has stopped the others at such a `now`, none of them is running |
| LedgerState.StartAfterLastRuns | popup.js:991-994 | a start not earlier than the last entry leaves the task running |
| LedgerState.BackdatedEntryKeepsState | popup.js:991-1032 | an entry earlier than the last one sorts in before it and leaves the running state as it was |
| LedgerState.AddRefusal | popup.js:1268-1288 | an empty name is refused as empty; a name is accepted exactly when it is non-empty and differs, ignoring case, from every name of the day |
| LedgerState.AcceptedNameIsNew | popup.js:1268-1291 | an accepted name is non-empty and new ignoring case, so the day's names stay distinct |
| LedgerState.AppendKeepsWellFormed | popup.js:1274-1298 | appending a task with a sorted log, creating its day at the end of the key order when new, keeps the ledger well formed |
| LedgerState.LunchTwice | popup.js:1280-1288 | "lunch" is refused beside "Lunch" as a duplicate |
| LedgerState.SameIgnoringCase | popup.js:1282-1284 | "Lunch" and "lunch" lower-case alike |
| LedgerState.RenameCanClash | popup.js:753-761 | renaming makes no duplicate check, so a rename can give two tasks the same name |
| LedgerState.RemoveAt | popup.js:502-503 | `splice(i, 1)` drops exactly the task at i and shifts the rest down, or does nothing past the end |
| LedgerState.DayTotalAppend | popup.js:151-185 | the day total of two lists joined is the sum of their totals |
| LedgerState.DayTotalAfterRemove | popup.js:499-507 | deleting a task lowers the day total by exactly that task's figure |
| LedgerState.RemoveKeepsNamesDistinct | popup.js:499-507 | deleting a task keeps the day's names distinct |
| LedgerState.MigrateDay | popup.js:94-114 | migration keeps the number of tasks and sorts every log |
| LedgerState.LoadDays | popup.js:88-121 | every saved date key is loaded |
| LedgerState.LoadDaysOnlySaved | popup.js:88-121 | every loaded date key is one that was saved, so the loaded days have exactly the saved date keys |
| LedgerState.LoadOrder | popup.js:88-121 | the loaded key order lists every saved key, once each |
| LedgerState.LoadWellFormed | popup.js:88-121 | any saved state loads into a well-formed ledger |
| LedgerState.SnapshotOf | popup.js:84-86 | saving lists the days in key order |
| LedgerState.MigrateRecordsOf | popup.js:94-114 | a day of sorted tasks survives saving and loading |
| LedgerState.LoadOrderOfSnapshot | popup.js:84-121 | loading a save under distinct keys gives back those keys in order |
| LedgerState.RestrictSnoc | popup.js:88-121 | restricting the days to one more key adds that key's tasks |
| LedgerState.LoadDaysOfSnapshot | popup.js:84-121 | loading a save gives back the days of its keys |
| LedgerState.LoadOfSnapshot | popup.js:84-121 | saving a well-formed ledger and loading it back gives back the same days and the same key order |
| Tracker.Ledger.constructor | popup.js:88-121 | the loaded ledger is well formed and is the migration of the saved days, in their order |
| Tracker.Ledger.MigrateRecords | popup.js:94-114 | the pass over one day's records migrates each record, in list order |
| Tracker.Ledger.GetCurrentlyRunningTasks | popup.js:1040-1057 | the nested loops compute the scan of the running tasks |
| Tracker.Ledger.ConfirmTrackingTime | popup.js:913-1037 | the handler reports `TrackingOutcome` and leaves the ledger as `AfterTracking` describes it, well formed with its key order unchanged |
| Tracker.Ledger.TrackingGuards | popup.js:944-1024 | the guards refuse exactly as `TrackingRefusal` describes: a start after a start; a stop with no entries, after a stop, or with no more starts than stops |
| Tracker.Ledger.StopOtherTasks | popup.js:962-988 | the loop stops the listed tasks as `StopAll` does |
| Tracker.Ledger.SaveEdit | popup.js:789-814 | an edited entry replaces the old one, and the log is re-sorted |
| Tracker.Ledger.DeleteEntry | popup.js:731-741 | the entry is spliced out, and an emptied log drops its container |
| Tracker.Ledger.SaveManualTime | popup.js:833-885 | a positive amount is added to the chosen bucket; zero or less changes nothing |
| Tracker.Ledger.ResetManualTime | popup.js:651-680 | the chosen bucket is set to zero |
| Tracker.Ledger.EditTaskName | popup.js:753-761 | a non-blank answer that differs from the current name becomes the name, trimmed; anything else changes nothing |
| Tracker.Ledger.AddTask | popup.js:1259-1298 | a blank or duplicate name is refused and changes nothing; otherwise the task is appended to its day, which is created at the end of the key order if new |
| Tracker.Ledger.DeleteTask | popup.js:499-507 | the task is spliced out; a day left empty is removed from the days and from the key order |
| Tracker.Ledger.CalculateDayTotalTime | popup.js:151-185 | the handler computes the day total of the day's tasks (none for an unknown day) |

## Left out

- The DOM, the modals, `alert`, `prompt` and `confirm` are left out. The answer to "stop the other
  tasks?" is the `stopOthers` parameter, and the prompt's answer to a rename is an `Option`.
- `localStorage` and `JSON.parse`/`JSON.stringify` are left out, together with the try/catch
  fallback. The model loads an already parsed snapshot, which is empty when nothing was saved, and
  saves its snapshot.
- Parsing date and time text and the locale are left out. Times are integer milliseconds, and date
  keys are opaque strings.
- The clock is left out: `now` is a parameter. The day total reads the clock once per running
  task; the model reads it once for the whole day.
- The generation of task ids is left out: the id is a parameter.
- `setInterval`/`clearInterval` are left out. The refresh timer is modelled by the value it writes
  (`Durations.TickAsWritten`).
- The notes field's debounced save, copying to the clipboard and the report's text layout are left
  out: they are UI, and they change no figure.
- Floating-point arithmetic is left out. The durations are whole milliseconds, so `Math.floor`
  divisions are Dafny's integer divisions on non-negative values.
- `TaskRecords.ToLower`: lower-cases ASCII letters only, where `toLowerCase` follows Unicode.
- JavaScript orders integer-like object keys before the others. Date keys are never integer-like,
  so `order` is plain insertion order.
- A legacy record with neither `name` nor `title` migrates to the name "" here. The code leaves
  the name undefined, and a later `toLowerCase` on it would throw.
- `TaskRecords.Migrate`: a record without `manualTimeAdded` (and without a numeric `manualTime`)
  or without `manualTimeRemoved` loads with that accumulator as 0, and the next save writes the 0.
  The code leaves the field undefined and saves the record without it. No figure differs: every
  read of the accumulators is `x || 0` or `x > 0` (popup.js:179-180, 345-346, 512-513, 633-634,
  843, 879, 1080-1081).
- A migrated task does not keep the leftover `title` and `manualTime` fields of a legacy record.
  No operation reads them again.
- The guards on the popup's selection (no task selected, an invalid time in a form) are left out:
  they are UI.
- The indexed handlers take a located task as a `requires`, where the code throws a `TypeError` on
  a missing day or task. `confirmTrackingTime` checks for a missing task, and the model gives that
  case `TaskNotFound`.
- `Tracker.Ledger.SaveEdit`: requires an entry index inside the log, where `saveEdit` throws a
  `TypeError` assigning `entry.type` on a missing entry (popup.js:807-808).
- `Tracker.Ledger.DeleteEntry`: requires a present log container, where the delete handler throws
  a `TypeError` calling `splice` on an absent one (popup.js:734).
- `Tracker.Ledger.GetCurrentlyRunningTasks`: requires only that every key of the order has a day,
  which is weaker than the ledger's invariant and is all the scan needs.
- `Durations.Tick`: requires a running task, because the refresh timer is only set up for one.

## Findings

| source | as written | input that shows it | evidently intended | confidence | as-written member | corrected member |
|---|---|---|---|---|---|---|
| popup.js:429-435 | the refresh timer adds `now - lastStart` to `tracked`, but `tracked` was captured at render time and already includes the time from the last start to the render (popup.js:337-342) | a task started at 09:00 (32400000 ms) and rendered at 09:45 (35100000 ms) shows 5401000 ms (1:30:01) at 09:45:01, where it has run 2701000 ms (45:01) | the tick shows the completed time plus `now - lastStart` plus the manual time, clamped: the live total at the tick | not executed | Durations.TickAsWritten | Durations.Tick |
