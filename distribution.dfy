/** The distribution pie chart: every entry with hours goes into one of the
    bins [1,2), [2,3), ..., [10,11) or "11h+"; the empty bins are then
    dropped and the rest are unzipped into counts, labels and date lists. */
module Distribution {
  import opened Wrappers
  import opened Dates
  import opened SleepLog

  /** `bins = list(range(1, 12))`: the lower edges; bin i < 10 is
      [EDGES[i], EDGES[i + 1]) and bin 10 is "11h+". */
  const EDGES: seq<int> := [1, 2, 3, 4, 5, 6, 7, 8, 9, 10, 11]
  const BIN_COUNT := 11

  /** Reference definition of the bins: v is in bin i < 10 when
      i + 1 <= v < i + 2, and in the last bin when v >= 11. */
  predicate InBin(v: real, i: int)
    ensures InBin(v, i) ==> 0 <= i < BIN_COUNT && v >= 1.0
  {
    if 0 <= i < 10 then (i + 1) as real <= v < (i + 2) as real
    else i == 10 && v >= 11.0
  }

  /** The bins are disjoint, and they cover exactly the values from 1 up. */
  lemma BinsPartition(v: real, i: int, j: int)
    ensures InBin(v, i) && InBin(v, j) ==> i == j
    ensures v < 1.0 ==> !InBin(v, i)
    ensures v >= 1.0 ==> InBin(v, BinOf(v))
  {
  }

  /** The bin of a value from 1 up. */
  function BinOf(v: real): int
    requires v >= 1.0
  {
    if v >= 11.0 then 10 else v.Floor - 1
  }

  /** The dates of `log`, in log order, whose hours fall in bin i. */
  function DatesInBin(log: Log, i: int): (ds: seq<Date>)
    ensures |ds| <= |log|
    ensures !(0 <= i < BIN_COUNT) ==> ds == []
  {
    if log == [] then []
    else
      var e := log[|log| - 1];
      DatesInBin(log[..|log| - 1], i) + (if e.hours.Some? && InBin(e.hours.value, i) then [e.date] else [])
  }

  /** A date is listed in bin i exactly when its entry's hours fall in bin i. */
  lemma {:induction false} DatesInBinMembers(log: Log, i: int, d: Date)
    ensures d in DatesInBin(log, i) <==> exists e :: e in log && e.date == d && e.hours.Some? && InBin(e.hours.value, i)
  {
    if log != [] {
      var init, e := log[..|log| - 1], log[|log| - 1];
      DatesInBinMembers(init, i, d);
      assert log == init + [e];
      if exists x :: x in log && x.date == d && x.hours.Some? && InBin(x.hours.value, i) {
        var x :| x in log && x.date == d && x.hours.Some? && InBin(x.hours.value, i);
        if x != e {
          assert x in init;
        }
      }
    }
  }

  /** The binning loop: each entry with hours is put into the first bin whose
      range holds it, or into the last bin when it is at least 11; None and
      values below 1 are skipped. `counts[i]` is always the length of
      `binDates[i]`. */
  method CountBins(log: Log) returns (counts: seq<nat>, binDates: seq<seq<Date>>)
    ensures |counts| == BIN_COUNT && |binDates| == BIN_COUNT
    ensures forall i :: 0 <= i < BIN_COUNT ==> binDates[i] == DatesInBin(log, i)
    ensures forall i :: 0 <= i < BIN_COUNT ==> counts[i] == |binDates[i]|
  {
    var cs := new nat[BIN_COUNT](_ => 0);
    var ds := new seq<Date>[BIN_COUNT](_ => []);
    for k := 0 to |log|
      invariant forall i :: 0 <= i < BIN_COUNT ==> ds[i] == DatesInBin(log[..k], i) && cs[i] == |ds[i]|
    {
      var e := log[k];
      assert log[..k + 1][..k] == log[..k];
      if e.hours.None? {
        continue;
      }
      var v := e.hours.value;
      var placed := false;
      for i := 0 to BIN_COUNT - 1
        invariant !placed
        invariant forall j :: 0 <= j < i ==> !InBin(v, j)
        invariant forall j :: 0 <= j < BIN_COUNT ==> ds[j] == DatesInBin(log[..k], j) && cs[j] == |ds[j]|
      {
        if EDGES[i] as real <= v < EDGES[i + 1] as real {
          cs[i] := cs[i] + 1;
          ds[i] := ds[i] + [e.date];
          placed := true;
          break;
        }
      }
      if !placed && v >= EDGES[BIN_COUNT - 1] as real {
        cs[BIN_COUNT - 1] := cs[BIN_COUNT - 1] + 1;
        ds[BIN_COUNT - 1] := ds[BIN_COUNT - 1] + [e.date];
      }
    }
    assert log[..|log|] == log;
    counts := cs[..];
    binDates := ds[..];
  }

  // ---------- every entry is counted at most once ----------

  /** The number of entries with hours of at least 1. */
  function Binnable(log: Log): nat {
    if log == [] then 0
    else
      var e := log[|log| - 1];
      Binnable(log[..|log| - 1]) + (if e.hours.Some? && e.hours.value >= 1.0 then 1 else 0)
  }

  /** The total of the first n bins. */
  function BinnedTotal(log: Log, n: nat): nat {
    if n == 0 then 0 else BinnedTotal(log, n - 1) + |DatesInBin(log, n - 1)|
  }

  /** How many of the first n bins hold v. */
  function BinsHolding(v: real, n: nat): nat {
    if n == 0 then 0 else BinsHolding(v, n - 1) + (if InBin(v, n - 1) then 1 else 0)
  }

  /** Of the first n bins, one holds v when v lies in their range, none
      otherwise. */
  lemma {:induction false} BinsHoldingCount(v: real, n: nat)
    requires n <= BIN_COUNT
    ensures n < BIN_COUNT ==> BinsHolding(v, n) == (if 1.0 <= v < (n + 1) as real then 1 else 0)
    ensures n == BIN_COUNT ==> BinsHolding(v, n) == (if v >= 1.0 then 1 else 0)
  {
    if n > 0 {
      BinsHoldingCount(v, n - 1);
    }
  }

  lemma {:induction false} TotalStep(log: Log, n: nat)
    requires log != []
    ensures var init, e := log[..|log| - 1], log[|log| - 1];
      BinnedTotal(log, n) == BinnedTotal(init, n) + (if e.hours.Some? then BinsHolding(e.hours.value, n) else 0)
  {
    if n > 0 {
      TotalStep(log, n - 1);
    }
  }

  lemma {:induction false} TotalEmpty(n: nat)
    ensures BinnedTotal([], n) == 0
  {
    if n > 0 {
      TotalEmpty(n - 1);
    }
  }

  /** Every entry with hours of at least 1 is counted in exactly one bin, and
      the others in none: the counts add up to the number of such entries. */
  lemma {:induction false} EachEntryCountedOnce(log: Log)
    ensures BinnedTotal(log, BIN_COUNT) == Binnable(log)
  {
    if log != [] {
      var init, e := log[..|log| - 1], log[|log| - 1];
      EachEntryCountedOnce(init);
      TotalStep(log, BIN_COUNT);
      if e.hours.Some? {
        BinsHoldingCount(e.hours.value, BIN_COUNT);
      }
    } else {
      TotalEmpty(BIN_COUNT);
    }
  }

  // ---------- dropping the empty bins ----------

  /** `f"{n}"` for a natural number. */
  function Decimal(n: nat): string {
    if n < 10 then [('0' as int + n) as char] else Decimal(n / 10) + [('0' as int + n % 10) as char]
  }

  /** `[f"{bins[i]}–{bins[i+1]}h" for i in range(10)] + ["11h+"]`. */
  const LABELS: seq<string> :=
    ["1\U{2013}2h", "2\U{2013}3h", "3\U{2013}4h", "4\U{2013}5h", "5\U{2013}6h", "6\U{2013}7h",
     "7\U{2013}8h", "8\U{2013}9h", "9\U{2013}10h", "10\U{2013}11h", "11h+"]

  /** Label i < 10 is the f-string of the two edges with an en dash and "h". */
  lemma LabelsFormat(i: nat)
    requires i < BIN_COUNT - 1
    ensures LABELS[i] == Decimal(EDGES[i]) + "\U{2013}" + Decimal(EDGES[i + 1]) + "h"
  {
  }

  datatype Slice = Slice(count: nat, name: string, dates: seq<Date>)

  /** `[(c, l, ds) for c, l, ds in zip(counts, labels, bin_dates) if c > 0]`. */
  function KeepNonEmpty(counts: seq<nat>, labels: seq<string>, dates: seq<seq<Date>>): (r: seq<Slice>)
    ensures |r| <= |counts|
    ensures forall j :: 0 <= j < |r| ==> r[j].count > 0
  {
    if counts == [] || labels == [] || dates == [] then []
    else
      (if counts[0] > 0 then [Slice(counts[0], labels[0], dates[0])] else [])
      + KeepNonEmpty(counts[1..], labels[1..], dates[1..])
  }

  /** The number of the first k bins that are not empty; the position a kept
      bin takes among the kept ones. */
  function NonEmptyBefore(counts: seq<nat>, k: nat): nat
    requires k <= |counts|
  {
    if k == 0 then 0 else NonEmptyBefore(counts, k - 1) + (if counts[k - 1] > 0 then 1 else 0)
  }

  /** Reference definition of the filter: the indices i < k with a positive
      count, in ascending order. */
  function Kept(counts: seq<nat>, k: nat): (ks: seq<nat>)
    requires k <= |counts|
    ensures forall j :: 0 <= j < |ks| ==> ks[j] < k
  {
    if k == 0 then [] else Kept(counts, k - 1) + (if counts[k - 1] > 0 then [k - 1] else [])
  }

  /** `Kept` lists exactly the non-empty bins, strictly ascending, and kept
      index `Kept(counts, k)[j]` has j non-empty bins before it. */
  lemma KeptSpec(counts: seq<nat>, k: nat)
    requires k <= |counts|
    ensures |Kept(counts, k)| == NonEmptyBefore(counts, k)
    ensures forall j :: 0 <= j < |Kept(counts, k)| ==>
      counts[Kept(counts, k)[j]] > 0 && NonEmptyBefore(counts, Kept(counts, k)[j]) == j
    ensures forall j1, j2 :: 0 <= j1 < j2 < |Kept(counts, k)| ==> Kept(counts, k)[j1] < Kept(counts, k)[j2]
    ensures forall i :: 0 <= i < k && counts[i] > 0 ==> i in Kept(counts, k)
  {
    KeptPositions(counts, k);
    KeptAscending(counts, k);
    KeptComplete(counts, k);
  }

  lemma {:induction false} KeptPositions(counts: seq<nat>, k: nat)
    requires k <= |counts|
    ensures |Kept(counts, k)| == NonEmptyBefore(counts, k)
    ensures forall j :: 0 <= j < |Kept(counts, k)| ==>
      counts[Kept(counts, k)[j]] > 0 && NonEmptyBefore(counts, Kept(counts, k)[j]) == j
  {
    if k > 0 {
      KeptPositions(counts, k - 1);
      var ks, prev := Kept(counts, k), Kept(counts, k - 1);
      forall j | 0 <= j < |ks|
        ensures counts[ks[j]] > 0 && NonEmptyBefore(counts, ks[j]) == j
      {
        if j < |prev| {
          assert ks[j] == prev[j];
        }
      }
    }
  }

  lemma {:induction false} KeptAscending(counts: seq<nat>, k: nat)
    requires k <= |counts|
    ensures forall j1, j2 :: 0 <= j1 < j2 < |Kept(counts, k)| ==> Kept(counts, k)[j1] < Kept(counts, k)[j2]
  {
    if k > 0 {
      KeptAscending(counts, k - 1);
    }
  }

  lemma {:induction false} KeptComplete(counts: seq<nat>, k: nat)
    requires k <= |counts|
    ensures forall i :: 0 <= i < k && counts[i] > 0 ==> i in Kept(counts, k)
  {
    if k > 0 {
      KeptComplete(counts, k - 1);
      assert Kept(counts, k) == Kept(counts, k - 1) + (if counts[k - 1] > 0 then [k - 1] else []);
    }
  }

  /** Keeps exactly the bins with a positive count, in ascending bin order:
      bin i with a positive count is the slice at position
      `NonEmptyBefore(counts, i)`, and there are no other slices. */
  lemma {:induction false} KeepNonEmptyPositions(counts: seq<nat>, labels: seq<string>, dates: seq<seq<Date>>)
    requires |labels| == |counts| && |dates| == |counts|
    ensures |KeepNonEmpty(counts, labels, dates)| == NonEmptyBefore(counts, |counts|)
    ensures forall i :: 0 <= i < |counts| && counts[i] > 0 ==>
      NonEmptyBefore(counts, i) < |KeepNonEmpty(counts, labels, dates)|
      && KeepNonEmpty(counts, labels, dates)[NonEmptyBefore(counts, i)] == Slice(counts[i], labels[i], dates[i])
  {
    if counts != [] {
      var cs, ls, ds := counts[1..], labels[1..], dates[1..];
      KeepNonEmptyPositions(cs, ls, ds);
      ShiftNonEmpty(counts);
    }
  }

  /** Counting from the second bin on. */
  lemma {:induction false} ShiftNonEmpty(counts: seq<nat>)
    requires counts != []
    ensures forall k :: 1 <= k <= |counts| ==>
      NonEmptyBefore(counts, k) == (if counts[0] > 0 then 1 else 0) + NonEmptyBefore(counts[1..], k - 1)
  {
    forall k | 1 <= k <= |counts|
      ensures NonEmptyBefore(counts, k) == (if counts[0] > 0 then 1 else 0) + NonEmptyBefore(counts[1..], k - 1)
    {
      ShiftNonEmptyAt(counts, k);
    }
  }

  lemma {:induction false} ShiftNonEmptyAt(counts: seq<nat>, k: nat)
    requires 1 <= k <= |counts|
    ensures NonEmptyBefore(counts, k) == (if counts[0] > 0 then 1 else 0) + NonEmptyBefore(counts[1..], k - 1)
  {
    if k > 1 {
      ShiftNonEmptyAt(counts, k - 1);
    }
  }

  /** The filter is the reference definition: slice j is bin `Kept(...)[j]`. */
  lemma KeepNonEmptyIsKept(counts: seq<nat>, labels: seq<string>, dates: seq<seq<Date>>)
    requires |labels| == |counts| && |dates| == |counts|
    ensures |KeepNonEmpty(counts, labels, dates)| == |Kept(counts, |counts|)|
    ensures forall j :: 0 <= j < |Kept(counts, |counts|)| ==>
      KeepNonEmpty(counts, labels, dates)[j]
        == Slice(counts[Kept(counts, |counts|)[j]], labels[Kept(counts, |counts|)[j]], dates[Kept(counts, |counts|)[j]])
  {
    KeptSpec(counts, |counts|);
    KeepNonEmptyPositions(counts, labels, dates);
  }

  /** `(counts, labels, bin_dates)` after the filter. */
  datatype PieData = PieData(counts: seq<nat>, labels: seq<string>, dates: seq<seq<Date>>)

  /** `zip(*[])` has no values to unpack into three names. */
  datatype PieError = NotEnoughValuesToUnpack

  /** `counts, labels, bin_dates = zip(*data)`. */
  function Unzip(data: seq<Slice>): (r: Result<PieData, PieError>)
    ensures r.Err? <==> data == []
    ensures r.Ok? ==> |r.value.counts| == |data| && |r.value.labels| == |data| && |r.value.dates| == |data|
    ensures r.Ok? ==> forall j :: 0 <= j < |data| ==>
      data[j] == Slice(r.value.counts[j], r.value.labels[j], r.value.dates[j])
  {
    if data == [] then Err(NotEnoughValuesToUnpack)
    else Ok(PieData(
      seq(|data|, j requires 0 <= j < |data| => data[j].count),
      seq(|data|, j requires 0 <= j < |data| => data[j].name),
      seq(|data|, j requires 0 <= j < |data| => data[j].dates)))
  }

  /** The filter and the unpacking: it fails exactly when every bin is empty;
      otherwise slice j is the non-empty bin `Kept(counts, |counts|)[j]`, with
      its count, label and date list still aligned. */
  function PieChart(counts: seq<nat>, labels: seq<string>, binDates: seq<seq<Date>>): (r: Result<PieData, PieError>)
    requires |labels| == |counts| && |binDates| == |counts|
    ensures r.Err? <==> forall i :: 0 <= i < |counts| ==> counts[i] == 0
    ensures r.Ok? ==> |r.value.counts| == |Kept(counts, |counts|)|
    ensures r.Ok? ==> |r.value.labels| == |r.value.counts| && |r.value.dates| == |r.value.counts|
    ensures r.Ok? ==> forall j :: 0 <= j < |r.value.counts| ==>
      r.value.counts[j] == counts[Kept(counts, |counts|)[j]]
      && r.value.labels[j] == labels[Kept(counts, |counts|)[j]]
      && r.value.dates[j] == binDates[Kept(counts, |counts|)[j]]
  {
    var data := KeepNonEmpty(counts, labels, binDates);
    KeepNonEmptyIsKept(counts, labels, binDates);
    KeptSpec(counts, |counts|);
    NonEmptyZero(counts, |counts|);
    Unzip(data)
  }

  lemma {:induction false} NonEmptyZero(counts: seq<nat>, k: nat)
    requires k <= |counts|
    ensures NonEmptyBefore(counts, k) == 0 <==> forall i :: 0 <= i < k ==> counts[i] == 0
  {
    if k > 0 {
      NonEmptyZero(counts, k - 1);
    }
  }

  /** The sizes of the bins of a log. */
  function BinSizes(log: Log): (sizes: seq<nat>)
    ensures |sizes| == BIN_COUNT
  {
    seq(BIN_COUNT, i requires 0 <= i < BIN_COUNT => |DatesInBin(log, i)|)
  }

  /** The bins of a log that some entry falls in, in ascending order. */
  function NonEmptyBins(log: Log): seq<nat> {
    Kept(BinSizes(log), BIN_COUNT)
  }

  /** `NonEmptyBins` is strictly ascending and holds bin i exactly when some
      entry's hours fall in bin i. */
  lemma NonEmptyBinsMembers(log: Log)
    ensures forall j1, j2 :: 0 <= j1 < j2 < |NonEmptyBins(log)| ==> NonEmptyBins(log)[j1] < NonEmptyBins(log)[j2]
    ensures forall i: nat :: i in NonEmptyBins(log) <==>
      i < BIN_COUNT && exists e :: e in log && e.hours.Some? && InBin(e.hours.value, i)
  {
    var sizes := BinSizes(log);
    KeptSpec(sizes, BIN_COUNT);
    forall i: nat ensures i in NonEmptyBins(log) <==> i < BIN_COUNT && exists e :: e in log && e.hours.Some? && InBin(e.hours.value, i) {
      if i in NonEmptyBins(log) {
        var j :| 0 <= j < |NonEmptyBins(log)| && NonEmptyBins(log)[j] == i;
        var d := DatesInBin(log, i)[0];
        DatesInBinMembers(log, i, d);
      }
      if i < BIN_COUNT && exists e :: e in log && e.hours.Some? && InBin(e.hours.value, i) {
        var e :| e in log && e.hours.Some? && InBin(e.hours.value, i);
        DatesInBinMembers(log, i, e.date);
        assert sizes[i] > 0;
      }
    }
  }

  /** The whole pie tab: binning followed by the filter. It fails exactly when
      no entry has hours of at least 1; otherwise slice j is the j-th
      non-empty bin, with its label, its dates and their number. */
  method Distribution(log: Log) returns (r: Result<PieData, PieError>)
    ensures r.Err? <==> forall e :: e in log ==> !(e.hours.Some? && e.hours.value >= 1.0)
    ensures r.Ok? ==> |r.value.counts| == |NonEmptyBins(log)|
    ensures r.Ok? ==> |r.value.labels| == |r.value.counts| && |r.value.dates| == |r.value.counts|
    ensures r.Ok? ==> forall j :: 0 <= j < |r.value.counts| ==>
      r.value.labels[j] == LABELS[NonEmptyBins(log)[j]]
      && r.value.dates[j] == DatesInBin(log, NonEmptyBins(log)[j])
      && r.value.counts[j] == |DatesInBin(log, NonEmptyBins(log)[j])|
  {
    var counts, binDates := CountBins(log);
    assert counts == BinSizes(log);
    r := PieChart(counts, LABELS, binDates);
    AllEmptyIff(log, counts);
  }

  lemma AllEmptyIff(log: Log, counts: seq<nat>)
    requires |counts| == BIN_COUNT
    requires forall i :: 0 <= i < BIN_COUNT ==> counts[i] == |DatesInBin(log, i)|
    ensures (forall i :: 0 <= i < BIN_COUNT ==> counts[i] == 0)
        <==> forall e :: e in log ==> !(e.hours.Some? && e.hours.value >= 1.0)
  {
    if exists e :: e in log && e.hours.Some? && e.hours.value >= 1.0 {
      var e :| e in log && e.hours.Some? && e.hours.value >= 1.0;
      var i := BinOf(e.hours.value);
      DatesInBinMembers(log, i, e.date);
      assert e.date in DatesInBin(log, i);
    }
    if exists i :: 0 <= i < BIN_COUNT && counts[i] != 0 {
      var i :| 0 <= i < BIN_COUNT && counts[i] != 0;
      var d := DatesInBin(log, i)[0];
      DatesInBinMembers(log, i, d);
    }
  }
}
