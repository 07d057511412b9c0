/**
 * A task's time log: start/stop entries stamped with integer milliseconds, and the
 * re-sort by time that every mutation of the log ends with.
 */
module TimeLog {

  /** The `type` of an entry: "start" or "stop". */
  datatype Kind = Start | Stop

  /** One `{type, time}` entry; `time` is an instant in milliseconds. */
  datatype Entry = Entry(kind: Kind, time: int)

  /** The entries are in non-decreasing time order. */
  predicate Sorted(s: seq<Entry>) {
    forall i, j :: 0 <= i < j < |s| ==> s[i].time <= s[j].time
  }

  /** How many entries have the given kind (`filter(e => e.type === k).length`). */
  function Count(s: seq<Entry>, k: Kind): (n: nat)
    ensures n <= |s|
  {
    if s == [] then 0 else Count(s[..|s| - 1], k) + (if s[|s| - 1].kind == k then 1 else 0)
  }

  /**
   * Places `e` into `s` after every entry whose time is not later than `e.time`:
   * one step of a stable sort by time.
   */
  function InsertByTime(s: seq<Entry>, e: Entry): (r: seq<Entry>)
    ensures |r| == |s| + 1
    ensures multiset(r) == multiset(s) + multiset{e}
    ensures Sorted(s) ==> Sorted(r)
  {
    if s == [] || s[|s| - 1].time <= e.time then
      s + [e]
    else
      var last := s[|s| - 1];
      var front := s[..|s| - 1];
      assert s == front + [last];
      var r' := InsertByTime(front, e);
      InsertBelowLast(front, last, e, r');
      r' + [last]
  }

  /** The step case of InsertByTime: the displaced last entry goes back on top, still in order. */
  lemma InsertBelowLast(front: seq<Entry>, last: Entry, e: Entry, r: seq<Entry>)
    requires e.time < last.time && multiset(r) == multiset(front) + multiset{e}
    ensures Sorted(front + [last]) && Sorted(r) ==> Sorted(r + [last])
  {
    if !(Sorted(front + [last]) && Sorted(r)) { return; }
    forall i | 0 <= i < |r| ensures r[i].time <= last.time {
      assert r[i] in multiset(r);
      if r[i] != e {
        assert r[i] in multiset(front);
        var j :| 0 <= j < |front| && front[j] == r[i];
        assert (front + [last])[j] == front[j] && (front + [last])[|front|] == last;
      }
    }
    var r2 := r + [last];
    forall a, b | 0 <= a < b < |r2| ensures r2[a].time <= r2[b].time {
      if b < |r| {
        assert r2[a] == r[a] && r2[b] == r[b];
      }
    }
  }

  /**
   * `sort((a, b) => a.time - b.time)`: JavaScript's sort is stable, so the result is the
   * unique stable ordering by time, which this insertion sort computes.
   */
  function SortByTime(s: seq<Entry>): (r: seq<Entry>)
    ensures |r| == |s|
    ensures Sorted(r)
    ensures multiset(r) == multiset(s)
  {
    if s == [] then [] else
      var front := s[..|s| - 1];
      assert s == front + [s[|s| - 1]];
      InsertByTime(SortByTime(front), s[|s| - 1])
  }

  /** Re-sorting a log that is already in time order changes nothing. */
  lemma {:induction false} SortByTimeOfSorted(s: seq<Entry>)
    requires Sorted(s)
    ensures SortByTime(s) == s
  {
    if s != [] {
      var front := s[..|s| - 1];
      var last := s[|s| - 1];
      SortedPrefix(s, |s| - 1);
      calc {
        SortByTime(s);
        InsertByTime(SortByTime(front), last);
        { SortByTimeOfSorted(front); }
        InsertByTime(front, last);
        { InsertLatest(front, last); }
        front + [last];
      }
      assert front + [last] == s;
    }
  }

  /** A prefix of a sorted log is sorted. */
  lemma SortedPrefix(s: seq<Entry>, n: nat)
    requires Sorted(s) && n <= |s|
    ensures Sorted(s[..n])
  {
    forall i, j | 0 <= i < j < n ensures s[..n][i].time <= s[..n][j].time {
      assert s[..n][i] == s[i] && s[..n][j] == s[j];
    }
  }

  /** An entry not earlier than the last one goes on the end. */
  lemma InsertLatest(s: seq<Entry>, e: Entry)
    requires s == [] || s[|s| - 1].time <= e.time
    ensures InsertByTime(s, e) == s + [e]
  {
  }

  /** Appending to a sorted log and re-sorting inserts the new entry by time; nothing else moves. */
  lemma AppendThenSort(s: seq<Entry>, e: Entry)
    requires Sorted(s)
    ensures SortByTime(s + [e]) == InsertByTime(s, e)
  {
    assert (s + [e])[..|s|] == s;
    SortByTimeOfSorted(s);
  }

  /**
   * The inserted entry ends up last exactly when it is not earlier than the previous last entry;
   * otherwise the previous last entry stays last.
   */
  lemma {:induction false} LastAfterInsert(s: seq<Entry>, e: Entry)
    ensures InsertByTime(s, e)[|s|] == (if s == [] || s[|s| - 1].time <= e.time then e else s[|s| - 1])
  {
  }

  /** Removing one entry (`splice(i, 1)`) keeps a log in time order. */
  lemma RemoveKeepsSorted(s: seq<Entry>, i: nat)
    requires i < |s|
    ensures Sorted(s) ==> Sorted(s[..i] + s[i + 1..])
  {
    if !Sorted(s) { return; }
    var r := s[..i] + s[i + 1..];
    forall a, b | 0 <= a < b < |r| ensures r[a].time <= r[b].time {
      var a' := if a < i then a else a + 1;
      var b' := if b < i then b else b + 1;
      assert r[a] == s[a'] && r[b] == s[b'];
    }
  }

  /** Every entry is a start or a stop. */
  lemma {:induction false} CountsAddUp(s: seq<Entry>)
    ensures Count(s, Start) + Count(s, Stop) == |s|
  {
    if s != [] {
      CountsAddUp(s[..|s| - 1]);
    }
  }
}
