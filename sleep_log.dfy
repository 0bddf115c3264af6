/** The sleep log `sleep_data`: a dictionary from ISO date to hours slept or
    None. A Python dictionary iterates in insertion order, so the log is the
    sequence of its items in that order, with no date twice. */
module SleepLog {
  import opened Wrappers
  import opened Dates

  /** One item of the dictionary; `hours == None` is an explicit null. */
  datatype Entry = Entry(date: Date, hours: Option<real>)

  type Log = seq<Entry>

  /** Dictionary keys are unique. */
  predicate DistinctDates(log: Log) {
    forall i, j :: 0 <= i < j < |log| ==> log[i].date != log[j].date
  }

  function Keys(log: Log): set<Date> {
    set e | e in log :: e.date
  }

  /** `sleep_data.get(d)`: the value stored at `d`, or None when `d` is not a
      key. */
  function Get(log: Log, d: Date): (h: Option<real>)
    ensures d in Keys(log) ==> Entry(d, h) in log
    ensures d !in Keys(log) ==> h == None
  {
    if log == [] then None
    else if log[0].date == d then log[0].hours
    else Get(log[1..], d)
  }

  /** In a dictionary, `get` returns the value that is stored at that key. */
  lemma {:induction false} GetStored(log: Log, e: Entry)
    requires DistinctDates(log)
    requires e in log
    ensures Get(log, e.date) == e.hours
  {
    if log[0] != e {
      assert log[0].date != e.date by {
        var j :| 0 <= j < |log| && log[j] == e;
        assert j != 0;
      }
      GetStored(log[1..], e);
    }
  }

  /** Keys are unique, so there are as many keys as items. */
  lemma {:induction false} KeysCount(log: Log)
    requires DistinctDates(log)
    ensures |Keys(log)| == |log|
  {
    if log != [] {
      KeysCount(log[1..]);
      assert Keys(log) == {log[0].date} + Keys(log[1..]);
      assert log[0].date !in Keys(log[1..]);
    }
  }

  /** At least `threshold` hours are recorded at `d`: the entry exists, is not
      None and is not below the threshold. */
  predicate AtLeast(log: Log, d: Date, threshold: real) {
    var h := Get(log, d);
    h.Some? && h.value >= threshold
  }

  /** The items whose value is not None, in log order (the comprehensions
      `... for d, v in sleep_data.items() if v is not None`). */
  function Recorded(log: Log): (r: Log)
    ensures forall e :: e in r <==> e in log && e.hours.Some?
    ensures DistinctDates(log) ==> DistinctDates(r)
  {
    if log == [] then []
    else
      var rest := Recorded(log[1..]);
      assert DistinctDates(log) ==> forall x :: x in rest ==> x.date != log[0].date by {
        if DistinctDates(log) {
          forall x | x in rest ensures x.date != log[0].date {
            var j :| 0 <= j < |log[1..]| && log[1..][j] == x;
            assert log[j + 1] == x;
          }
        }
      }
      (if log[0].hours.Some? then [log[0]] else []) + rest
  }

  // ---------- sorted(): ascending by date ----------

  predicate Ascending(log: Log) {
    forall i, j :: 0 <= i < j < |log| ==> Before(log[i].date, log[j].date)
  }

  /** A strictly ascending log has no date twice. */
  lemma AscendingDistinct(log: Log)
    requires Ascending(log)
    ensures DistinctDates(log)
  {
  }

  function Insert(e: Entry, s: Log): (r: Log)
    requires Ascending(s)
    requires forall x :: x in s ==> x.date != e.date
    ensures multiset(r) == multiset(s) + multiset{e}
    ensures Ascending(r)
  {
    if s == [] then [e]
    else if Before(e.date, s[0].date) then [e] + s
    else
      var rest := Insert(e, s[1..]);
      InsertedFrom(e, s[1..], rest);
      assert forall x :: x in s[1..] ==> Before(s[0].date, x.date);
      AscendingCons(s[0], rest);
      assert s == [s[0]] + s[1..];
      [s[0]] + rest
  }

  /** Every item of an insertion result is the new item or an old one. */
  lemma InsertedFrom(e: Entry, s: Log, r: Log)
    requires multiset(r) == multiset(s) + multiset{e}
    ensures forall x :: x in r ==> x == e || x in s
  {
    forall x | x in r ensures x == e || x in s {
      assert x in multiset(r);
    }
  }

  /** An item dated before everything in an ascending log can go in front. */
  lemma AscendingCons(x: Entry, s: Log)
    requires Ascending(s)
    requires forall y :: y in s ==> Before(x.date, y.date)
    ensures Ascending([x] + s)
  {
    forall i, j | 0 <= i < j < |s| + 1 ensures Before(([x] + s)[i].date, ([x] + s)[j].date) {
      assert ([x] + s)[j] == s[j - 1];
      if i > 0 {
        assert ([x] + s)[i] == s[i - 1];
      }
    }
  }

  /** The items sorted by date, as `sorted(...)` orders the ISO keys. */
  function SortByDate(log: Log): (r: Log)
    requires DistinctDates(log)
    ensures multiset(r) == multiset(log)
    ensures Ascending(r)
  {
    if log == [] then []
    else
      var tail := log[1..];
      assert DistinctDates(tail);
      var rest := SortByDate(tail);
      assert forall x :: x in rest ==> x.date != log[0].date by {
        forall x | x in rest ensures x.date != log[0].date {
          assert x in multiset(tail);
          var j :| 0 <= j < |tail| && tail[j] == x;
          assert log[j + 1] == x;
        }
      }
      assert log == [log[0]] + tail;
      Insert(log[0], rest)
  }

  /** Sorting keeps exactly the same items. */
  lemma SortedMembers(log: Log)
    requires DistinctDates(log)
    ensures forall e :: e in SortByDate(log) <==> e in log
  {
    forall e ensures e in SortByDate(log) <==> e in log {
      assert e in SortByDate(log) <==> e in multiset(SortByDate(log));
      assert e in log <==> e in multiset(log);
    }
  }

  /** `sorted(sleep_data.keys())`: strictly ascending, and exactly the keys. */
  function SortedKeys(log: Log): (ds: seq<Date>)
    requires DistinctDates(log)
    ensures |ds| == |log|
    ensures forall i, j :: 0 <= i < j < |ds| ==> Before(ds[i], ds[j])
    ensures forall d :: d in ds <==> d in Keys(log)
  {
    var sorted := SortByDate(log);
    assert |sorted| == |multiset(sorted)| == |multiset(log)| == |log|;
    var ds := seq(|sorted|, i requires 0 <= i < |sorted| => sorted[i].date);
    assert forall d :: d in ds <==> d in Keys(log) by {
      forall d ensures d in ds <==> d in Keys(log) {
        if d in ds {
          var i :| 0 <= i < |ds| && ds[i] == d;
          assert sorted[i] in multiset(log);
        }
        if d in Keys(log) {
          var e :| e in log && e.date == d;
          assert e in multiset(sorted);
          var i :| 0 <= i < |sorted| && sorted[i] == e;
          assert ds[i] == d;
        }
      }
    }
    ds
  }

  // ---------- the startup entry ----------

  /** What the startup dialog `askfloat(..., minvalue=0.0, maxvalue=24.0)`
      produced: a number, None (the user cancelled), or an exception. */
  datatype Prompt = Answered(hours: real) | Cancelled | Failed

  predicate HoursInRange(log: Log) {
    forall e :: e in log && e.hours.Some? ==> 0.0 <= e.hours.value <= 24.0
  }

  /** The only change the program makes to the log: when today's date is not
      a key, the dialog's answer (None on cancel) is stored under it; when the
      dialog raised, nothing is stored. */
  function RecordToday(log: Log, today: Date, answer: Prompt): (r: Log)
    requires answer.Answered? ==> 0.0 <= answer.hours <= 24.0
    ensures today in Keys(log) || answer.Failed? ==> r == log
    ensures today !in Keys(log) && answer.Answered? ==> r == log + [Entry(today, Some(answer.hours))]
    ensures today !in Keys(log) && answer.Cancelled? ==> r == log + [Entry(today, None)]
    ensures DistinctDates(log) ==> DistinctDates(r)
    ensures HoursInRange(log) ==> HoursInRange(r)
    ensures Keys(r) <= Keys(log) + {today}
  {
    if today in Keys(log) then log
    else
      match answer
      case Answered(h) => log + [Entry(today, Some(h))]
      case Cancelled => log + [Entry(today, None)]
      case Failed => log
  }
}
