/**
 The histogram metric. The ghost fields `observed` and `history` are the plain lists of observations since
 the last reset, without and with their times; counts are kept per bucket and exported cumulatively.
 */
module Histogram {
  import opened Percentiles
  import opened Sequences
  import SeriesLog

  const MAX_POINTS := 1000

  // ---------------------------------------------------------------- counts

  /** How many observations are at most x. */
  ghost function AtMost(observed: seq<real>, x: real): nat {
    if observed == [] then 0
    else AtMost(observed[..|observed| - 1], x) + (if observed[|observed| - 1] <= x then 1 else 0)
  }

  lemma AtMostSnoc(observed: seq<real>, v: real, x: real)
    ensures AtMost(observed + [v], x) == AtMost(observed, x) + (if v <= x then 1 else 0)
  {
    assert (observed + [v])[..|observed|] == observed;
  }

  /** An observation counts for a bound from the moment the bound is not below it, the same value included. */
  lemma {:induction false} BoundsAreInclusive(observed: seq<real>, x: real, p: real -> bool)
    requires forall v :: p(v) <==> v <= x
    ensures AtMost(observed, x) == CountIf(observed, p)
  {
    if observed != [] {
      BoundsAreInclusive(observed[..|observed| - 1], x, p);
    }
  }

  lemma {:induction false} AtMostIsMonotone(observed: seq<real>, x: real, y: real)
    requires x <= y
    ensures AtMost(observed, x) <= AtMost(observed, y) <= |observed|
  {
    if observed != [] {
      AtMostIsMonotone(observed[..|observed| - 1], x, y);
    }
  }

  /** The sum of the first n counts. */
  ghost function UpTo(counts: seq<nat>, n: nat): nat
    requires n <= |counts|
  {
    if n == 0 then 0 else UpTo(counts, n - 1) + counts[n - 1]
  }

  lemma {:induction false} IncrementUpTo(counts: seq<nat>, idx: nat, n: nat)
    requires idx < |counts| && n <= |counts|
    ensures UpTo(counts[idx := counts[idx] + 1], n) == UpTo(counts, n) + (if idx < n then 1 else 0)
  {
    if n > 0 {
      IncrementUpTo(counts, idx, n - 1);
    }
  }

  lemma {:induction false} ZerosUpTo(counts: seq<nat>, n: nat)
    requires n <= |counts| && forall i | 0 <= i < |counts| :: counts[i] == 0
    ensures UpTo(counts, n) == 0
  {
    if n > 0 {
      ZerosUpTo(counts, n - 1);
    }
  }

  /** counts put every observation into the first bucket whose bound is not below it, or into the one beyond all bounds. */
  ghost predicate Counted(counts: seq<nat>, bounds: seq<real>, observed: seq<real>) {
    && |counts| == |bounds| + 1
    && (forall i | 0 <= i < |bounds| :: UpTo(counts, i + 1) == AtMost(observed, bounds[i]))
    && UpTo(counts, |bounds| + 1) == |observed|
  }

  ghost predicate IsBucketOf(bounds: seq<real>, v: real, idx: nat) {
    && idx <= |bounds|
    && (forall i | 0 <= i < idx :: bounds[i] < v)
    && (forall i | idx <= i < |bounds| :: v <= bounds[i])
  }

  lemma CountObservation(counts: seq<nat>, bounds: seq<real>, observed: seq<real>, v: real, idx: nat)
    requires Counted(counts, bounds, observed) && IsBucketOf(bounds, v, idx)
    ensures Counted(counts[idx := counts[idx] + 1], bounds, observed + [v])
  {
    forall i | 0 <= i < |bounds|
      ensures UpTo(counts[idx := counts[idx] + 1], i + 1) == AtMost(observed + [v], bounds[i])
    {
      IncrementUpTo(counts, idx, i + 1);
      AtMostSnoc(observed, v, bounds[i]);
    }
    IncrementUpTo(counts, idx, |bounds| + 1);
  }

  lemma NothingCounted(counts: seq<nat>, bounds: seq<real>)
    requires |counts| == |bounds| + 1 && forall i | 0 <= i < |counts| :: counts[i] == 0
    ensures Counted(counts, bounds, [])
  {
    forall i | 0 <= i < |bounds|
      ensures UpTo(counts, i + 1) == AtMost([], bounds[i])
    {
      ZerosUpTo(counts, i + 1);
    }
    ZerosUpTo(counts, |bounds| + 1);
  }

  /** The observations up to the i-th bound; beyond the last bound, all of them. */
  ghost function Cumulative(bounds: seq<real>, observed: seq<real>, i: nat): nat {
    if i < |bounds| then AtMost(observed, bounds[i]) else |observed|
  }

  /** Each bucket's own count: what is above the bound before it and not above its own, so nothing at a repeated bound. */
  lemma BucketCount(counts: seq<nat>, bounds: seq<real>, observed: seq<real>, i: nat)
    requires Counted(counts, bounds, observed) && i < |counts|
    ensures counts[i] == Cumulative(bounds, observed, i) - (if i == 0 then 0 else Cumulative(bounds, observed, i - 1))
    ensures 0 < i < |bounds| && bounds[i - 1] == bounds[i] ==> counts[i] == 0
  {
    assert UpTo(counts, i + 1) == UpTo(counts, i) + counts[i] == Cumulative(bounds, observed, i);
    if i > 0 {
      var j := i - 1;
      assert UpTo(counts, j + 1) == AtMost(observed, bounds[j]);
    }
  }

  /** sort.SearchFloat64s */
  method SearchFloats(bounds: seq<real>, v: real) returns (idx: nat)
    requires Ascending(bounds)
    ensures IsBucketOf(bounds, v, idx)
  {
    var i, j := 0, |bounds|;
    while i < j
      invariant 0 <= i <= j <= |bounds|
      invariant forall k | 0 <= k < i :: bounds[k] < v
      invariant forall k | j <= k < |bounds| :: v <= bounds[k]
    {
      var h := (i + j) / 2;
      if bounds[h] < v {
        i := h + 1;
      } else {
        j := h;
      }
    }
    idx := i;
  }

  // ---------------------------------------------------------------- the export

  datatype Bound = Finite(bound: real) | Infinite

  datatype BucketExport = BucketExport(upperBound: Bound, count: nat)

  /** Every bound with the number of observations up to it, and all observations at the end. */
  ghost predicate IsExport(buckets: seq<BucketExport>, bounds: seq<real>, observed: seq<real>) {
    && |buckets| == |bounds| + 1
    && (forall i | 0 <= i < |bounds| :: buckets[i] == BucketExport(Finite(bounds[i]), AtMost(observed, bounds[i])))
    && buckets[|bounds|] == BucketExport(Infinite, |observed|)
  }

  /** Exported counts never decrease, with equal counts at equal bounds. */
  lemma ExportIsCumulative(buckets: seq<BucketExport>, bounds: seq<real>, observed: seq<real>, i: nat, j: nat)
    requires IsExport(buckets, bounds, observed) && Ascending(bounds) && i <= j < |buckets|
    ensures buckets[i].count <= buckets[j].count
    ensures buckets[i].upperBound == buckets[j].upperBound ==> buckets[i].count == buckets[j].count
  {
    if j < |bounds| {
      AtMostIsMonotone(observed, bounds[i], bounds[j]);
    } else if i < |bounds| {
      AtMostIsMonotone(observed, bounds[i], bounds[i]);
    }
  }

  type Labels = map<string, string>

  datatype MetricPoint = MetricPoint(timestamp: int, value: real, labels: Labels)

  ghost function LastOnes<T>(s: seq<T>, n: nat): seq<T> {
    if |s| <= n then s else s[|s| - n..]
  }

  /** The values of the points. */
  ghost function ValuesOf(points: seq<MetricPoint>): seq<real> {
    seq(|points|, i requires 0 <= i < |points| => points[i].value)
  }

  lemma OneMorePoint(history: seq<MetricPoint>, point: MetricPoint)
    ensures ValuesOf(history + [point]) == ValuesOf(history) + [point.value]
    ensures var points := LastOnes(history, MAX_POINTS) + [point];
            LastOnes(history + [point], MAX_POINTS) == if |points| > MAX_POINTS then points[|points| - MAX_POINTS..] else points
  {}

  lemma TotalOneMore(observed: seq<real>, v: real)
    ensures SeriesLog.Total(observed + [v]) == SeriesLog.Total(observed) + v
  {
    assert (observed + [v])[..|observed|] == observed;
  }

  class Histogram {
    const labels: Labels
    const bounds: seq<real>
    const counts: array<nat>
    var sum: real
    var count: nat
    var points: seq<MetricPoint>
    var lastUpdate: int
    ghost var observed: seq<real>
    ghost var history: seq<MetricPoint>

    constructor (labels: Labels, buckets: seq<real>)
      ensures Valid() && fresh(counts) && observed == [] && history == [] && this.labels == labels
      ensures Ascending(bounds) && multiset(bounds) == multiset(buckets)
    {
      this.labels, bounds := labels, Sorted(buckets);
      counts := new nat[|Sorted(buckets)| + 1](_ => 0);
      sum, count, points, observed, history := 0.0, 0, [], [], [];
      lastUpdate := 0;
      new;
      SortedIsAscending(buckets);
      NothingCounted(counts[..], bounds);
    }

    ghost predicate Valid()
      reads this, counts
    {
      && Ascending(bounds) && Counted(counts[..], bounds, observed)
      && sum == SeriesLog.Total(observed) && count == |observed|
      && ValuesOf(history) == observed && points == LastOnes(history, MAX_POINTS)
    }

    method Observe(value: real, now: int)
      requires Valid()
      modifies this, counts
      ensures Valid() && observed == old(observed) + [value]
      ensures history == old(history) + [MetricPoint(now, value, labels)] && lastUpdate == now
      ensures points == if |history| <= 1000 then history else history[|history| - 1000..]
    {
      var bucketIdx := SearchFloats(bounds, value);
      var point := MetricPoint(now, value, labels);
      CountObservation(counts[..], bounds, observed, value, bucketIdx);
      TotalOneMore(observed, value);
      OneMorePoint(history, point);
      ghost var after := counts[..][bucketIdx := counts[bucketIdx] + 1];
      counts[bucketIdx] := counts[bucketIdx] + 1;
      sum := sum + value;
      count := count + 1;
      lastUpdate := now;
      points := points + [point];
      if |points| > MAX_POINTS {
        points := points[|points| - MAX_POINTS..];
      }
      observed, history := observed + [value], history + [point];
      assert counts[..] == after;
    }

    /** The mean of all observations, or 0 without any. */
    method Value() returns (v: real)
      requires Valid()
      ensures v == if observed == [] then 0.0 else SeriesLog.Total(observed) / |observed| as real
    {
      v := if count == 0 then 0.0 else sum / count as real;
    }

    method Reset()
      requires Valid()
      modifies this, counts
      ensures Valid() && observed == [] && history == [] && lastUpdate == old(lastUpdate)
    {
      for i := 0 to counts.Length
        invariant (forall j | 0 <= j < i :: counts[j] == 0) && lastUpdate == old(lastUpdate)
      {
        counts[i] := 0;
      }
      NothingCounted(counts[..], bounds);
      sum, count, points, observed, history := 0.0, 0, [], [], [];
    }

    method Export() returns (buckets: seq<BucketExport>, totalCount: nat, totalSum: real)
      requires Valid()
      ensures IsExport(buckets, bounds, observed)
      ensures totalCount == |observed| && totalSum == SeriesLog.Total(observed)
    {
      buckets := [];
      var cumulativeCount := 0;
      for i := 0 to |bounds|
        invariant cumulativeCount == UpTo(counts[..], i) && |buckets| == i
        invariant forall j | 0 <= j < i :: buckets[j] == BucketExport(Finite(bounds[j]), AtMost(observed, bounds[j]))
      {
        cumulativeCount := cumulativeCount + counts[i];
        buckets := buckets + [BucketExport(Finite(bounds[i]), cumulativeCount)];
      }
      cumulativeCount := cumulativeCount + counts[counts.Length - 1];
      buckets := buckets + [BucketExport(Infinite, cumulativeCount)];
      totalCount, totalSum := count, sum;
    }
  }
}
