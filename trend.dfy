/** The monthly trend tab: the recorded entries, sorted by date and grouped
    by "YYYY-MM", and the statistics of the latest month. */
module Trend {
  import opened Wrappers
  import opened Dates
  import opened SleepLog

  /** `max(monthly)` on an empty dictionary raises ValueError. */
  datatype TrendError = EmptyMax

  // ---------- grouping by month ----------

  /** The entries of `entries` that fall in month m, in their order. */
  function InMonth(entries: Log, m: YearMonth): (r: Log)
    ensures forall e :: e in r ==> e in entries && MonthOf(e.date) == m
  {
    if entries == [] then []
    else
      var e := entries[|entries| - 1];
      InMonth(entries[..|entries| - 1], m) + (if MonthOf(e.date) == m then [e] else [])
  }

  lemma {:induction false} InMonthMembers(entries: Log, m: YearMonth)
    ensures forall e :: e in InMonth(entries, m) <==> e in entries && MonthOf(e.date) == m
  {
    if entries != [] {
      var init := entries[..|entries| - 1];
      InMonthMembers(init, m);
      assert entries == init + [entries[|entries| - 1]];
    }
  }

  /** Grouping keeps the order, so a group of an ascending log is ascending. */
  lemma {:induction false} InMonthAscending(entries: Log, m: YearMonth)
    requires Ascending(entries)
    ensures Ascending(InMonth(entries, m))
  {
    if entries != [] {
      var init, e := entries[..|entries| - 1], entries[|entries| - 1];
      InMonthAscending(init, m);
      InMonthMembers(init, m);
      assert forall x :: x in init ==> Before(x.date, e.date);
    }
  }

  lemma InMonthEmpty(entries: Log, m: YearMonth)
    requires m !in Months(entries)
    ensures InMonth(entries, m) == []
  {
    InMonthMembers(entries, m);
  }

  function Months(entries: Log): set<YearMonth> {
    set e | e in entries :: MonthOf(e.date)
  }

  /** The `defaultdict(list)` loop: each entry is appended to the list of its
      month, so every month that occurs is a key and its list holds that
      month's entries in their order. */
  method GroupByMonth(entries: Log) returns (monthly: map<YearMonth, Log>)
    ensures monthly.Keys == Months(entries)
    ensures forall m :: m in monthly ==> monthly[m] == InMonth(entries, m)
  {
    monthly := map[];
    for k := 0 to |entries|
      invariant monthly.Keys == Months(entries[..k])
      invariant forall m :: m in monthly ==> monthly[m] == InMonth(entries[..k], m)
    {
      var e := entries[k];
      var key := MonthOf(e.date);
      assert entries[..k + 1][..k] == entries[..k];
      assert entries[..k + 1] == entries[..k] + [e];
      var bucket := [];
      if key in monthly {
        bucket := monthly[key];
      } else {
        InMonthEmpty(entries[..k], key);
      }
      monthly := monthly[key := bucket + [e]];
    }
    assert entries[..|entries|] == entries;
  }

  // ---------- the latest month ----------

  /** A finite non-empty set of months has a greatest element. */
  lemma {:induction false} MaxMonthExists(ms: set<YearMonth>)
    requires ms != {}
    ensures exists m :: m in ms && forall x :: x in ms ==> MonthAtMost(x, m)
    decreases |ms|
  {
    var y :| y in ms;
    if ms != {y} {
      MaxMonthExists(ms - {y});
      var m :| m in ms - {y} && forall x :: x in ms - {y} ==> MonthAtMost(x, m);
      if !MonthBefore(m, y) {
        assert forall x :: x in ms ==> MonthAtMost(x, m);
      } else {
        forall x | x in ms ensures MonthAtMost(x, y) {
          if x != y {
            MonthAtMostTransitive(x, m, y);
          }
        }
      }
    } else {
      assert forall x :: x in ms ==> MonthAtMost(x, y);
    }
  }

  lemma MonthAtMostTransitive(a: YearMonth, b: YearMonth, c: YearMonth)
    requires MonthAtMost(a, b) && MonthAtMost(b, c)
    ensures MonthAtMost(a, c)
  {
  }

  /** `max(monthly)`: the greatest "YYYY-MM" key, or ValueError when there
      is none. */
  function LatestMonth(ms: set<YearMonth>): (r: Result<YearMonth, TrendError>)
    ensures r.Err? <==> ms == {}
    ensures r.Ok? ==> r.value in ms && forall x :: x in ms ==> MonthAtMost(x, r.value)
  {
    if ms == {} then Err(EmptyMax)
    else
      MaxMonthExists(ms);
      var m :| m in ms && forall x :: x in ms ==> MonthAtMost(x, m);
      Ok(m)
  }

  // ---------- statistics ----------

  /** `sum(hours)`; its bounds are `SumBounds`. */
  function Sum(hs: seq<real>): (s: real)
  {
    if hs == [] then 0.0 else hs[0] + Sum(hs[1..])
  }

  /** `min(hours)`. */
  function MinOf(hs: seq<real>): (m: real)
    requires hs != []
    ensures m in hs && forall k :: 0 <= k < |hs| ==> m <= hs[k]
  {
    if |hs| == 1 then hs[0]
    else
      var rest := MinOf(hs[1..]);
      if rest < hs[0] then rest else hs[0]
  }

  /** `max(hours)`. */
  function MaxOf(hs: seq<real>): (m: real)
    requires hs != []
    ensures m in hs && forall k :: 0 <= k < |hs| ==> hs[k] <= m
  {
    if |hs| == 1 then hs[0]
    else
      var rest := MaxOf(hs[1..]);
      if rest > hs[0] then rest else hs[0]
  }

  /** `hours.index(x)`: the first position holding x. */
  function IndexOf(hs: seq<real>, x: real): (i: nat)
    requires x in hs
    ensures i < |hs| && hs[i] == x
    ensures forall k :: 0 <= k < i ==> hs[k] != x
  {
    if hs[0] == x then 0 else IndexOf(hs[1..], x) + 1
  }

  lemma {:induction false} SumBounds(hs: seq<real>, lo: real, hi: real)
    requires forall k :: 0 <= k < |hs| ==> lo <= hs[k] <= hi
    ensures (|hs| as real) * lo <= Sum(hs) <= (|hs| as real) * hi
  {
    if hs != [] {
      SumBounds(hs[1..], lo, hi);
      assert (|hs| as real) * lo == lo + (|hs[1..]| as real) * lo;
      assert (|hs| as real) * hi == hi + (|hs[1..]| as real) * hi;
    }
  }

  /** Dividing a total that lies between n * lo and n * hi by n > 0. */
  lemma MeanBounds(total: real, n: real, lo: real, hi: real)
    requires n > 0.0
    requires n * lo <= total <= n * hi
    ensures lo <= total / n <= hi
  {
    var q := total / n;
    assert q * n == total;
  }

  datatype Stats = Stats(avg: real, mi: real, ma: real, iMin: nat, iMax: nat)

  /** `sum(hours) / len(hours)`: the mean lies between the least and the
      greatest of the hours. */
  function Mean(hs: seq<real>): (avg: real)
    requires hs != []
    ensures MinOf(hs) <= avg <= MaxOf(hs)
  {
    MeanBetween(hs, MinOf(hs), MaxOf(hs));
    Sum(hs) / (|hs| as real)
  }

  /** The mean of values that all lie in [lo, hi] lies in [lo, hi]. */
  lemma MeanBetween(hs: seq<real>, lo: real, hi: real)
    requires hs != []
    requires forall k :: 0 <= k < |hs| ==> lo <= hs[k] <= hi
    ensures lo <= Sum(hs) / (|hs| as real) <= hi
  {
    SumBounds(hs, lo, hi);
    MeanBounds(Sum(hs), |hs| as real, lo, hi);
  }

  /** `avg`, `mi`, `ma`, `i_min`, `i_max` of a non-empty list of hours. */
  function Summarize(hs: seq<real>): (s: Stats)
    requires hs != []
    ensures forall k :: 0 <= k < |hs| ==> s.mi <= hs[k] <= s.ma
    ensures s.iMin < |hs| && hs[s.iMin] == s.mi && forall k :: 0 <= k < s.iMin ==> hs[k] != s.mi
    ensures s.iMax < |hs| && hs[s.iMax] == s.ma && forall k :: 0 <= k < s.iMax ==> hs[k] != s.ma
    ensures s.mi <= s.avg <= s.ma
  {
    var mi, ma := MinOf(hs), MaxOf(hs);
    Stats(Mean(hs), mi, ma, IndexOf(hs, mi), IndexOf(hs, ma))
  }

  // ---------- the whole tab ----------

  /** What the trend chart shows: the title month, the dates and hours it
      plots, and the statistics it marks. */
  datatype TrendData = TrendData(month: YearMonth, dates: seq<Date>, hours: seq<real>, stats: Stats)

  /** `dates, hours = zip(*...)` on entries that all have hours. */
  function DatesOf(s: Log): (ds: seq<Date>)
    ensures |ds| == |s| && forall k :: 0 <= k < |s| ==> ds[k] == s[k].date
  {
    seq(|s|, k requires 0 <= k < |s| => s[k].date)
  }

  function HoursOf(s: Log): (hs: seq<real>)
    requires forall e :: e in s ==> e.hours.Some?
    ensures |hs| == |s| && forall k :: 0 <= k < |s| ==> Some(hs[k]) == s[k].hours
  {
    seq(|s|, k requires 0 <= k < |s| => assert s[k] in s; s[k].hours.value)
  }

  /** The trend tab. It fails exactly when no entry has hours. Otherwise the
      month is the latest month with a recorded entry; the dates are strictly
      ascending and are exactly that month's recorded dates, each plotted
      with its own hours; and the statistics are those of the plotted hours. */
  method MonthlyTrend(log: Log) returns (r: Result<TrendData, TrendError>)
    requires DistinctDates(log)
    ensures r.Err? <==> forall e :: e in log ==> e.hours.None?
    ensures r.Ok? ==> exists e :: e in log && e.hours.Some? && MonthOf(e.date) == r.value.month
    ensures r.Ok? ==> forall e :: e in log && e.hours.Some? ==> MonthAtMost(MonthOf(e.date), r.value.month)
    ensures r.Ok? ==> |r.value.dates| == |r.value.hours| > 0
    ensures r.Ok? ==> forall k1, k2 :: 0 <= k1 < k2 < |r.value.dates| ==> Before(r.value.dates[k1], r.value.dates[k2])
    ensures r.Ok? ==> forall k :: 0 <= k < |r.value.dates| ==>
      Entry(r.value.dates[k], Some(r.value.hours[k])) in log && MonthOf(r.value.dates[k]) == r.value.month
    ensures r.Ok? ==> forall e :: e in log && e.hours.Some? && MonthOf(e.date) == r.value.month ==> e.date in r.value.dates
    ensures r.Ok? ==> r.value.hours != [] && r.value.stats == Summarize(r.value.hours)
  {
    var recorded := Recorded(log);
    var entries := SortByDate(recorded);
    SortedMembers(recorded);
    var monthly := GroupByMonth(entries);
    forall e | e in log && e.hours.Some? ensures MonthOf(e.date) in monthly {
      assert e in entries;
    }
    var latest :- LatestMonth(monthly.Keys);
    var group := monthly[latest];
    InMonthMembers(entries, latest);
    InMonthAscending(entries, latest);
    AscendingDistinct(group);
    var sorted := SortByDate(group);
    SortedMembers(group);
    var dates, hours := DatesOf(sorted), HoursOf(sorted);
    TrendFacts(log, latest, sorted, dates, hours);
    r := Ok(TrendData(latest, dates, hours, Summarize(hours)));
  }

  /** The plotted lists of the latest month's sorted entries. */
  lemma TrendFacts(log: Log, latest: YearMonth, sorted: Log, dates: seq<Date>, hours: seq<real>)
    requires forall e :: e in sorted <==> e in log && e.hours.Some? && MonthOf(e.date) == latest
    requires exists e :: e in log && e.hours.Some? && MonthOf(e.date) == latest
    requires |dates| == |sorted| && forall k :: 0 <= k < |sorted| ==> dates[k] == sorted[k].date
    requires |hours| == |sorted| && forall k :: 0 <= k < |sorted| ==> Some(hours[k]) == sorted[k].hours
    ensures |dates| == |hours| > 0
    ensures forall k :: 0 <= k < |dates| ==> Entry(dates[k], Some(hours[k])) in log && MonthOf(dates[k]) == latest
    ensures forall e :: e in log && e.hours.Some? && MonthOf(e.date) == latest ==> e.date in dates
  {
    var e0 :| e0 in log && e0.hours.Some? && MonthOf(e0.date) == latest;
    assert e0 in sorted;
    forall e | e in log && e.hours.Some? && MonthOf(e.date) == latest
      ensures e.date in dates
    {
      var k :| 0 <= k < |sorted| && sorted[k] == e;
      assert dates[k] == e.date;
    }
    forall k | 0 <= k < |dates|
      ensures Entry(dates[k], Some(hours[k])) in log && MonthOf(dates[k]) == latest
    {
      assert sorted[k] in sorted;
      assert sorted[k] == Entry(dates[k], Some(hours[k]));
    }
  }
}
