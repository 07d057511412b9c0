/**
 * The task record of a day's list, the record shapes found in saved data, and the
 * single-task updates that the ledger's operations apply.
 */
module TaskRecords {
  import opened Wrappers
  import opened TimeLog

  /** A task of `state.tasks[dateKey]`. `timeEntries` is absent before the first entry and after the last is deleted. */
  datatype Task = Task(
    id: string,
    name: string,
    timeEntries: Option<seq<Entry>>,
    manualTimeAdded: int,
    manualTimeRemoved: int,
    notes: string)

  /** The log, reading an absent container as empty (`task.timeEntries?.length`). */
  function Entries(t: Task): seq<Entry> {
    t.timeEntries.GetOr([])
  }

  /** `taskToModify.timeEntries = taskToModify.timeEntries || []`: the log is the same, its container now exists. */
  function Normalized(t: Task): (r: Task)
    ensures r.timeEntries.Some? && Entries(r) == Entries(t)
    ensures r.(timeEntries := t.timeEntries) == t
  {
    t.(timeEntries := Some(Entries(t)))
  }

  /** Push `e` onto the log, then re-sort it by time. */
  function WithEntry(t: Task, e: Entry): (r: Task)
    ensures r.timeEntries.Some? && Sorted(Entries(r))
    ensures multiset(Entries(r)) == multiset(Entries(t)) + multiset{e}
    ensures r.(timeEntries := t.timeEntries) == t
  {
    t.(timeEntries := Some(SortByTime(Entries(t) + [e])))
  }

  /** saveEdit: overwrite entry `i` with `e` (its type and time), then re-sort the log by time. */
  function EditEntry(t: Task, i: nat, e: Entry): (r: Task)
    requires i < |Entries(t)|
    ensures r.timeEntries.Some? && Sorted(Entries(r)) && |Entries(r)| == |Entries(t)|
    ensures multiset(Entries(r)) == multiset(Entries(t)) - multiset{Entries(t)[i]} + multiset{e}
    ensures r.(timeEntries := t.timeEntries) == t
  {
    var log := Entries(t);
    assert log == log[..i] + [log[i]] + log[i + 1..];
    assert log[i := e] == log[..i] + [e] + log[i + 1..];
    t.(timeEntries := Some(SortByTime(log[i := e])))
  }

  /** `timeEntries.splice(i, 1)`, then `delete task.timeEntries` when the log has become empty. */
  function RemoveEntry(t: Task, i: nat): (r: Task)
    requires t.timeEntries.Some?
    ensures i < |Entries(t)| ==> |Entries(r)| + 1 == |Entries(t)|
    ensures i < |Entries(t)| ==> multiset(Entries(r)) == multiset(Entries(t)) - multiset{Entries(t)[i]}
    ensures i >= |Entries(t)| ==> Entries(r) == Entries(t)
    ensures r.timeEntries.None? <==> Entries(r) == []
    ensures Sorted(Entries(t)) ==> Sorted(Entries(r))
    ensures r.(timeEntries := t.timeEntries) == t
  {
    var log := t.timeEntries.value;
    if i < |log| then
      assert log == log[..i] + [log[i]] + log[i + 1..];
      RemoveKeepsSorted(log, i);
      var rest := log[..i] + log[i + 1..];
      t.(timeEntries := if rest == [] then None else Some(rest))
    else
      t.(timeEntries := if log == [] then None else Some(log))
  }

  /** The two manual accumulators. */
  datatype Bucket = Added | Removed

  /** The accumulator a bucket names: `manualTimeAdded` or `manualTimeRemoved`. */
  function Manual(t: Task, b: Bucket): int {
    match b
    case Added => t.manualTimeAdded
    case Removed => t.manualTimeRemoved
  }

  /** The amount entered in the add/remove dialogs: `hours * 3600000 + minutes * 60000`. */
  function ManualMs(hours: int, minutes: int): int {
    hours * 3600000 + minutes * 60000
  }

  /** `task.manualTimeAdded = (task.manualTimeAdded || 0) + ms`, or the same for `manualTimeRemoved`. */
  function AddManual(t: Task, b: Bucket, ms: int): (r: Task)
    ensures Manual(r, b) == Manual(t, b) + ms
    ensures forall c :: c != b ==> Manual(r, c) == Manual(t, c)
    ensures r.(manualTimeAdded := t.manualTimeAdded, manualTimeRemoved := t.manualTimeRemoved) == t
  {
    match b
    case Added => t.(manualTimeAdded := t.manualTimeAdded + ms)
    case Removed => t.(manualTimeRemoved := t.manualTimeRemoved + ms)
  }

  /** The reset buttons of the history view: the chosen accumulator becomes 0. */
  function ResetManual(t: Task, b: Bucket): (r: Task)
    ensures Manual(r, b) == 0
    ensures forall c :: c != b ==> Manual(r, c) == Manual(t, c)
    ensures r.(manualTimeAdded := t.manualTimeAdded, manualTimeRemoved := t.manualTimeRemoved) == t
  {
    match b
    case Added => t.(manualTimeAdded := 0)
    case Removed => t.(manualTimeRemoved := 0)
  }

  /** The record addTask pushes: an empty log container, no manual time and no notes. */
  function NewTask(id: string, name: string): (r: Task)
    ensures r.id == id && r.name == name && r.notes == ""
    ensures r.timeEntries.Some? && Entries(r) == []
    ensures Manual(r, Added) == 0 && Manual(r, Removed) == 0
  {
    Task(id, name, Some([]), 0, 0, "")
  }

  // ---- names --------------------------------------------------------------

  /** The characters `String.prototype.trim` removes: JavaScript's white space and line terminators. */
  predicate IsJsWhitespace(c: char) {
    c in {'\t', '\n', '\U{000B}', '\U{000C}', '\r', ' ', '\U{00A0}', '\U{1680}',
          '\U{2000}', '\U{2001}', '\U{2002}', '\U{2003}', '\U{2004}', '\U{2005}',
          '\U{2006}', '\U{2007}', '\U{2008}', '\U{2009}', '\U{200A}', '\U{2028}',
          '\U{2029}', '\U{202F}', '\U{205F}', '\U{3000}', '\U{FEFF}'}
  }

  /** How many white-space characters the string starts with. */
  function LeadingSpace(s: string): (n: nat)
    ensures n <= |s|
    ensures forall i :: 0 <= i < n ==> IsJsWhitespace(s[i])
    ensures n < |s| ==> !IsJsWhitespace(s[n])
  {
    if s != [] && IsJsWhitespace(s[0]) then
      var n := 1 + LeadingSpace(s[1..]);
      assert forall i :: 1 <= i < n ==> s[i] == s[1..][i - 1];
      n
    else
      0
  }

  /** How many white-space characters the string ends with. */
  function TrailingSpace(s: string): (n: nat)
    ensures n <= |s|
    ensures forall i :: |s| - n <= i < |s| ==> IsJsWhitespace(s[i])
    ensures n < |s| ==> !IsJsWhitespace(s[|s| - n - 1])
  {
    if s != [] && IsJsWhitespace(s[|s| - 1]) then
      var n := 1 + TrailingSpace(s[..|s| - 1]);
      assert forall i :: |s| - n <= i < |s| - 1 ==> s[i] == s[..|s| - 1][i];
      n
    else
      0
  }

  /** `String.prototype.trim`: the white space at both ends goes, the rest stays as it is. */
  function Trim(s: string): (r: string)
    ensures r != [] ==> !IsJsWhitespace(r[0]) && !IsJsWhitespace(r[|r| - 1])
    ensures r == [] <==> forall i :: 0 <= i < |s| ==> IsJsWhitespace(s[i])
    ensures exists lo, hi ::
      && 0 <= lo <= hi <= |s| && r == s[lo..hi]
      && (forall i :: 0 <= i < lo ==> IsJsWhitespace(s[i]))
      && (forall i :: hi <= i < |s| ==> IsJsWhitespace(s[i]))
  {
    var lo := LeadingSpace(s);
    if lo == |s| then
      assert s[lo..lo] == [];
      []
    else
      var hi := |s| - TrailingSpace(s);
      assert lo < hi;
      s[lo..hi]
  }

  /** A string with no white space at either end is its own trim. */
  lemma TrimOfTrimmed(s: string)
    requires s != [] ==> !IsJsWhitespace(s[0]) && !IsJsWhitespace(s[|s| - 1])
    ensures Trim(s) == s
  {
  }

  /** Trimming twice is trimming once. */
  lemma TrimIdempotent(s: string)
    ensures Trim(Trim(s)) == Trim(s)
  {
    TrimOfTrimmed(Trim(s));
  }

  /** `toLowerCase` on the ASCII letters. */
  function LowerChar(c: char): char {
    if 'A' <= c <= 'Z' then (c as int + 32) as char else c
  }

  /** Lower-casing leaves no ASCII capital, moves each capital to its small letter and keeps every other character. */
  function ToLower(s: string): (r: string)
    ensures |r| == |s|
    ensures forall i :: 0 <= i < |r| ==> !('A' <= r[i] <= 'Z')
    ensures forall i :: 0 <= i < |s| && 'A' <= s[i] <= 'Z' ==> r[i] as int == s[i] as int + 32
    ensures forall i :: 0 <= i < |s| && !('A' <= s[i] <= 'Z') ==> r[i] == s[i]
  {
    seq(|s|, i requires 0 <= i < |s| => LowerChar(s[i]))
  }

  /** `tasks.some((task) => task.name.toLowerCase() === name.toLowerCase())`. */
  predicate NameTaken(tasks: seq<Task>, name: string) {
    exists i :: 0 <= i < |tasks| && ToLower(tasks[i].name) == ToLower(name)
  }

  // ---- saved records and their migration ------------------------------------

  /**
   * A task object as JSON.parse returns it from saved data, old shapes included: `title`
   * (the old name field) and `manualTime` (the old single accumulator).
   */
  datatype RawTask = RawTask(
    id: string,
    name: Option<string>,
    title: Option<string>,
    timeEntries: Option<seq<Entry>>,
    manualTime: Option<int>,
    manualTimeAdded: Option<int>,
    manualTimeRemoved: Option<int>,
    notes: Option<string>)

  /** JavaScript truthiness of an optional string: present and non-empty. */
  predicate Truthy(s: Option<string>) {
    s.Some? && s.value != ""
  }

  /** What loadState makes of one record: sort the log, fold `manualTime` into `manualTimeAdded`, `title` into `name`, default `notes`. */
  function Migrate(r: RawTask): (t: Task)
    ensures Sorted(Entries(t)) && multiset(Entries(t)) == multiset(r.timeEntries.GetOr([]))
    ensures t.timeEntries.Some? <==> r.timeEntries.Some?
    ensures t.manualTimeAdded == r.manualTimeAdded.GetOr(0) + r.manualTime.GetOr(0)
    ensures t.manualTimeRemoved == r.manualTimeRemoved.GetOr(0) && t.id == r.id
    ensures Truthy(r.name) ==> t.name == r.name.value
    ensures !Truthy(r.name) && Truthy(r.title) ==> t.name == r.title.value
    ensures t.notes == r.notes.GetOr("")
  {
    Task(
      r.id,
      if !Truthy(r.name) && Truthy(r.title) then r.title.value else r.name.GetOr(""),
      if r.timeEntries.Some? then Some(SortByTime(r.timeEntries.value)) else None,
      if r.manualTime.Some? then r.manualTimeAdded.GetOr(0) + r.manualTime.value else r.manualTimeAdded.GetOr(0),
      r.manualTimeRemoved.GetOr(0),
      r.notes.GetOr(""))
  }

  /** The record saveState writes for a task (JSON.stringify of the current shape). */
  function ToRecord(t: Task): (r: RawTask)
    ensures r.title.None? && r.manualTime.None?
    ensures r.name == Some(t.name) && r.notes == Some(t.notes) && r.timeEntries == t.timeEntries
    ensures r.manualTimeAdded == Some(t.manualTimeAdded) && r.manualTimeRemoved == Some(t.manualTimeRemoved)
  {
    RawTask(t.id, Some(t.name), None, t.timeEntries, None, Some(t.manualTimeAdded), Some(t.manualTimeRemoved), Some(t.notes))
  }

  /** Saving a task whose log is in time order and loading it back gives the same task. */
  lemma {:induction false} MigrateSaved(t: Task)
    requires Sorted(Entries(t))
    ensures Migrate(ToRecord(t)) == t
  {
    if t.timeEntries.Some? {
      SortByTimeOfSorted(t.timeEntries.value);
    }
  }

  /** A legacy record with a `title` but no `name`, and no `notes`, loads with the title as its name and empty notes. */
  lemma MigrateLegacy(r: RawTask)
    requires !Truthy(r.name) && Truthy(r.title) && r.notes.None?
    ensures Migrate(r).name == r.title.value && Migrate(r).notes == ""
  {
  }

  /** Migration is idempotent: loading what a load produced, once saved, changes nothing more. */
  lemma MigrateIdempotent(r: RawTask)
    ensures Migrate(ToRecord(Migrate(r))) == Migrate(r)
  {
    MigrateSaved(Migrate(r));
  }

  /** A reset accumulator is 0, so resetting again changes nothing. */
  lemma ResetTwice(t: Task, b: Bucket)
    ensures Manual(ResetManual(t, b), b) == 0
    ensures ResetManual(ResetManual(t, b), b) == ResetManual(t, b)
  {
  }
}
