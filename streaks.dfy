/** The two streaks the calendar click handler reports: the run of days with
    at least 7 hours that ends at the clicked date, and the longest run of
    entries with at least 4 hours anywhere in the log. */
module Streaks {
  import opened Wrappers
  import opened Dates
  import opened SleepLog

  /** `check_day -= timedelta(days=1)` on `date.min` raises OverflowError. */
  datatype StreakError = DateOverflow

  const CURRENT_THRESHOLD := 7.0
  const BEST_THRESHOLD := 4.0

  // ---------- the streak ending at a date ----------

  /** The streak at `dt`: walk back one calendar day at a time while the day
      has an entry that is not None and not below 7. The result k says that
      the k days dt, dt-1, ..., dt-(k-1) qualify and day dt-k does not. */
  method CurrentStreak(log: Log, dt: Date) returns (r: Result<nat, StreakError>)
    ensures r.Ok? ==> forall j :: 0 <= j < r.value ==> AtLeast(log, DaysBack(dt, j), CURRENT_THRESHOLD)
    ensures r.Ok? ==> !AtLeast(log, DaysBack(dt, r.value), CURRENT_THRESHOLD)
    ensures r.Ok? ==> (r.value == 0 <==> !AtLeast(log, dt, CURRENT_THRESHOLD))
    ensures r.Ok? ==> r.value <= |Keys(log)|
    ensures r.Err? <==> exists n: nat :: DaysBack(dt, n) == MIN_DATE && QualifiesThrough(log, dt, n)
  {
    var streak: nat := 0;
    var checkDay := dt;
    ghost var visited: set<Date> := {};
    while true
      invariant checkDay == DaysBack(dt, streak)
      invariant QualifiesBelow(log, dt, streak)
      invariant visited <= Keys(log) && |visited| == streak
      invariant forall v :: v in visited ==> Before(checkDay, v)
      decreases |Keys(log)| - |visited|
    {
      var h := Get(log, checkDay);
      if h.None? || h.value < CURRENT_THRESHOLD {
        break;
      }
      if checkDay == MIN_DATE {
        return Err(DateOverflow);
      }
      assert checkDay in Keys(log);
      assert checkDay !in visited;
      visited := visited + {checkDay};
      streak := streak + 1;
      checkDay := Prev(checkDay);
      SubsetCard(visited, Keys(log));
    }
    SubsetCard(visited, Keys(log));
    forall n: nat | DaysBack(dt, n) == MIN_DATE ensures !QualifiesThrough(log, dt, n) {
      if n >= streak {
        assert !AtLeast(log, DaysBack(dt, streak), CURRENT_THRESHOLD);
      }
    }
    r := Ok(streak);
  }

  /** Every day dt, ..., dt-n qualifies for the current streak. */
  ghost predicate QualifiesThrough(log: Log, dt: Date, n: nat) {
    forall j :: 0 <= j <= n ==> AtLeast(log, DaysBack(dt, j), CURRENT_THRESHOLD)
  }

  /** The first k days back from dt qualify, and none of them is `date.min`. */
  ghost predicate QualifiesBelow(log: Log, dt: Date, k: nat) {
    forall j :: 0 <= j < k ==> AtLeast(log, DaysBack(dt, j), CURRENT_THRESHOLD) && DaysBack(dt, j) != MIN_DATE
  }

  lemma SubsetCard<T>(a: set<T>, b: set<T>)
    requires a <= b
    ensures |a| <= |b|
  {
    assert b == a + (b - a);
  }

  /** The characterisation in `CurrentStreak`'s contract fixes the count:
      two counts that both satisfy it are equal. */
  lemma CurrentStreakUnique(log: Log, dt: Date, k1: nat, k2: nat)
    requires forall j :: 0 <= j < k1 ==> AtLeast(log, DaysBack(dt, j), CURRENT_THRESHOLD)
    requires !AtLeast(log, DaysBack(dt, k1), CURRENT_THRESHOLD)
    requires forall j :: 0 <= j < k2 ==> AtLeast(log, DaysBack(dt, j), CURRENT_THRESHOLD)
    requires !AtLeast(log, DaysBack(dt, k2), CURRENT_THRESHOLD)
    ensures k1 == k2
  {
  }

  // ---------- the best streak ever ----------

  /** Length of the run of `true` that ends just before position k. */
  function RunEndingAt(q: seq<bool>, k: nat): (n: nat)
    requires k <= |q|
    ensures n <= k
  {
    if k == 0 || !q[k - 1] then 0 else RunEndingAt(q, k - 1) + 1
  }

  /** The run ending before k is all `true` and cannot be extended: the
      position before it is `false` or does not exist. */
  lemma {:induction false} RunEndingAtIsMaximal(q: seq<bool>, k: nat)
    requires k <= |q|
    ensures forall i :: k - RunEndingAt(q, k) <= i < k ==> q[i]
    ensures RunEndingAt(q, k) < k ==> !q[k - RunEndingAt(q, k) - 1]
  {
    if k > 0 && q[k - 1] {
      RunEndingAtIsMaximal(q, k - 1);
    }
  }

  /** The longest run of `true` in q[..k]. */
  function LongestRun(q: seq<bool>, k: nat): (n: nat)
    requires k <= |q|
    ensures n <= k
  {
    if k == 0 then 0
    else
      var before, here := LongestRun(q, k - 1), RunEndingAt(q, k);
      if before >= here then before else here
  }

  /** q holds a run of `len` times `true` starting at position lo. */
  ghost predicate RunAt(q: seq<bool>, lo: nat, len: nat) {
    lo + len <= |q| && forall i :: lo <= i < lo + len ==> q[i]
  }

  /** No run of `true` in q[..k] is longer than `LongestRun(q, k)`. */
  lemma {:induction false} LongestRunIsUpperBound(q: seq<bool>, k: nat, lo: nat, len: nat)
    requires lo + len <= k <= |q|
    requires RunAt(q, lo, len)
    ensures len <= LongestRun(q, k)
  {
    if lo + len == k {
      if k > 0 {
        RunEndingAtIsMaximal(q, k);
      }
    } else {
      LongestRunIsUpperBound(q, k - 1, lo, len);
    }
  }

  /** Some run of `true` in q[..k] is as long as `LongestRun(q, k)`. */
  lemma {:induction false} LongestRunIsAttained(q: seq<bool>, k: nat)
    requires k <= |q|
    ensures exists lo: nat :: lo + LongestRun(q, k) <= k && RunAt(q, lo, LongestRun(q, k))
  {
    if k == 0 {
      assert RunAt(q, 0, LongestRun(q, k));
    } else if LongestRun(q, k - 1) >= RunEndingAt(q, k) {
      LongestRunIsAttained(q, k - 1);
      var lo: nat :| lo + LongestRun(q, k - 1) <= k - 1 && RunAt(q, lo, LongestRun(q, k - 1));
      assert LongestRun(q, k) == LongestRun(q, k - 1);
    } else {
      var n := RunEndingAt(q, k);
      RunEndingAtIsMaximal(q, k);
      assert LongestRun(q, k) == n;
      assert RunAt(q, k - n, LongestRun(q, k));
    }
  }

  /** The longest run is 0 exactly when no position is `true`. */
  lemma {:induction false} LongestRunZero(q: seq<bool>, k: nat)
    requires k <= |q|
    ensures LongestRun(q, k) == 0 <==> forall i :: 0 <= i < k ==> !q[i]
  {
    if k > 0 {
      LongestRunZero(q, k - 1);
      if q[k - 1] {
        assert RunEndingAt(q, k) >= 1;
      }
    }
  }

  /** Position i of the sorted keys qualifies for the best streak. */
  function Qualifying(log: Log, keys: seq<Date>): (q: seq<bool>)
    ensures |q| == |keys|
    ensures forall i :: 0 <= i < |keys| ==> q[i] == AtLeast(log, keys[i], BEST_THRESHOLD)
  {
    seq(|keys|, i requires 0 <= i < |keys| => AtLeast(log, keys[i], BEST_THRESHOLD))
  }

  /** The best streak: the length of the longest run of consecutive keys, in
      sorted order, whose entries are not None and not below 4. Keys that are
      apart in the calendar still count as consecutive. */
  method BestStreak(log: Log) returns (best: nat)
    requires DistinctDates(log)
    ensures best == LongestRun(Qualifying(log, SortedKeys(log)), |log|)
    ensures best <= |log|
    ensures forall lo: nat, len: nat :: RunAt(Qualifying(log, SortedKeys(log)), lo, len) ==> len <= best
    ensures exists lo: nat :: RunAt(Qualifying(log, SortedKeys(log)), lo, best)
    ensures best == 0 <==> forall e :: e in log ==> !(e.hours.Some? && e.hours.value >= BEST_THRESHOLD)
  {
    var sortedDates := SortedKeys(log);
    best := LongestQualifyingRun(log, sortedDates);
    ghost var q := Qualifying(log, sortedDates);
    BestStreakFacts(log, q, best);
  }

  /** The two loops over the sorted keys: `cur_streak` counts the
      qualifying keys since the last one that did not qualify, and
      `best_streak` is the largest count seen. */
  method LongestQualifyingRun(log: Log, keys: seq<Date>) returns (best: nat)
    ensures best == LongestRun(Qualifying(log, keys), |keys|)
  {
    best := 0;
    ghost var q := Qualifying(log, keys);
    var n := |keys|;
    var i := 0;
    while i < n
      invariant Scanned(q, i, best)
    {
      RunStart(q, i, best);
      var curStreak := 0;
      while i < n
        invariant InRun(q, i, best, curStreak)
      {
        if AtLeast(log, keys[i], BEST_THRESHOLD) {
          RunStep(q, i, best, curStreak);
          curStreak := curStreak + 1;
          i := i + 1;
        } else {
          break;
        }
      }
      RunEnd(q, i, best, curStreak);
      best := if best >= curStreak then best else curStreak;
      i := i + 1;
    }
  }

  /** The state between two runs: `best` is the longest run before position
      i (or in all of q once i has stepped past the end), and the run just
      ended at a position that does not qualify. */
  ghost predicate Scanned(q: seq<bool>, i: nat, best: nat) {
    i <= |q| + 1
    && best == LongestRun(q, if i <= |q| then i else |q|)
    && (0 < i <= |q| ==> !q[i - 1])
  }

  /** The state inside a run: `cur` is the run ending at position i, and the
      larger of `best` and `cur` is the longest run before i. */
  ghost predicate InRun(q: seq<bool>, i: nat, best: nat, cur: nat) {
    i <= |q|
    && cur == RunEndingAt(q, i)
    && LongestRun(q, i) == if best >= cur then best else cur
  }

  /** A new run starts with `cur_streak = 0`. */
  lemma RunStart(q: seq<bool>, i: nat, best: nat)
    requires Scanned(q, i, best) && i < |q|
    ensures InRun(q, i, best, 0)
  {
  }

  /** A qualifying key extends the run by one. */
  lemma RunStep(q: seq<bool>, i: nat, best: nat, cur: nat)
    requires InRun(q, i, best, cur) && i < |q| && q[i]
    ensures InRun(q, i + 1, best, cur + 1)
  {
  }

  /** The run ends at a key that does not qualify, or at the end of the
      keys; `best_streak = max(best_streak, cur_streak)` and the key after. */
  lemma RunEnd(q: seq<bool>, i: nat, best: nat, cur: nat)
    requires InRun(q, i, best, cur)
    requires i < |q| ==> !q[i]
    ensures Scanned(q, i + 1, if best >= cur then best else cur)
  {
  }

  /** What the longest run of the qualifying keys says about the log. */
  lemma BestStreakFacts(log: Log, q: seq<bool>, best: nat)
    requires DistinctDates(log)
    requires q == Qualifying(log, SortedKeys(log))
    requires best == LongestRun(q, |q|)
    ensures best <= |log|
    ensures forall lo: nat, len: nat :: RunAt(q, lo, len) ==> len <= best
    ensures exists lo: nat :: RunAt(q, lo, best)
    ensures best == 0 <==> forall e :: e in log ==> !(e.hours.Some? && e.hours.value >= BEST_THRESHOLD)
  {
    var n := |q|;
    forall lo: nat, len: nat | RunAt(q, lo, len) ensures len <= best {
      LongestRunIsUpperBound(q, n, lo, len);
    }
    LongestRunIsAttained(q, n);
    LongestRunZero(q, n);
    NoneQualifying(log);
  }

  /** No sorted key qualifies exactly when no entry of the log does. */
  lemma NoneQualifying(log: Log)
    requires DistinctDates(log)
    ensures (forall i :: 0 <= i < |log| ==> !Qualifying(log, SortedKeys(log))[i])
        <==> forall e :: e in log ==> !(e.hours.Some? && e.hours.value >= BEST_THRESHOLD)
  {
    var ds := SortedKeys(log);
    var q := Qualifying(log, ds);
    if exists e :: e in log && e.hours.Some? && e.hours.value >= BEST_THRESHOLD {
      var e :| e in log && e.hours.Some? && e.hours.value >= BEST_THRESHOLD;
      GetStored(log, e);
      assert e.date in Keys(log);
      var i :| 0 <= i < |ds| && ds[i] == e.date;
      assert q[i];
    }
    if exists i :: 0 <= i < |log| && q[i] {
      var i :| 0 <= i < |log| && q[i];
      var h := Get(log, ds[i]);
      assert ds[i] in Keys(log);
      assert Entry(ds[i], h) in log;
    }
  }
}
