/**
 A time series of a metric: buckets by time in a map, their keys in a sorted list. The ghost field `log`
 is the plain list of observations that have not been cleaned up; every operation is specified by it.
 */
module TimeSeries {
  import opened Percentiles
  import opened Sequences
  import opened SeriesLog

  /** Durations and clock readings are in nanoseconds, times of observations in Unix seconds. */
  const SECOND := 1_000_000_000
  const DEFAULT_RETENTION := 24 * 3600 * SECOND

  // ---------------------------------------------------------------- buckets

  datatype Bucket = Bucket(timestamp: int, count: nat, sum: real, min: real, max: real, values: seq<real>)

  ghost predicate IsLeast(m: real, values: seq<real>) {
    m in values && forall v | v in values :: m <= v
  }

  ghost predicate IsGreatest(m: real, values: seq<real>) {
    m in values && forall v | v in values :: v <= m
  }

  ghost predicate IsBucket(b: Bucket, key: int, values: seq<real>) {
    && b.timestamp == key && b.values == values
    && b.count == |values| && b.sum == Total(values)
    && IsLeast(b.min, values) && IsGreatest(b.max, values)
  }

  /** A bucket is made with its first value as minimum and maximum, and then takes that value in. */
  function EmptyBucket(key: int, value: real): Bucket {
    Bucket(key, 0, 0.0, value, value, [])
  }

  function WithValue(b: Bucket, value: real): Bucket {
    Bucket(b.timestamp, b.count + 1, b.sum + value,
           if value < b.min then value else b.min, if value > b.max then value else b.max, b.values + [value])
  }

  lemma BucketTakesValue(b: Bucket, key: int, values: seq<real>, value: real)
    requires if values == [] then b == EmptyBucket(key, value) else IsBucket(b, key, values)
    ensures IsBucket(WithValue(b, value), key, values + [value])
  {
    var after := values + [value];
    assert after[..|values|] == values && after[|values|] == value;
    assert forall v :: v in after <==> v in values || v == value;
  }

  // ---------------------------------------------------------------- keys

  ghost predicate Increasing(s: seq<int>) {
    forall i, j | 0 <= i < j < |s| :: s[i] < s[j]
  }

  ghost predicate SplitsAt(s: seq<int>, key: int, idx: nat) {
    && idx <= |s|
    && (forall i | 0 <= i < idx :: s[i] < key)
    && (forall i | idx <= i < |s| :: s[i] >= key)
  }

  /** sort.Search for the first element that is at least key. */
  method Search(s: seq<int>, key: int) returns (idx: nat)
    requires Increasing(s)
    ensures SplitsAt(s, key, idx)
  {
    var i, j := 0, |s|;
    while i < j
      invariant 0 <= i <= j <= |s|
      invariant forall k | 0 <= k < i :: s[k] < key
      invariant forall k | j <= k < |s| :: s[k] >= key
    {
      var h := (i + j) / 2;
      if s[h] < key {
        i := h + 1;
      } else {
        j := h;
      }
    }
    idx := i;
  }

  lemma InsertKeepsIncreasing(s: seq<int>, key: int, idx: nat)
    requires Increasing(s) && SplitsAt(s, key, idx) && key !in s
    ensures Increasing(s[..idx] + [key] + s[idx..])
    ensures forall k :: k in s[..idx] + [key] + s[idx..] <==> k in s || k == key
  {
    var t := s[..idx] + [key] + s[idx..];
    forall i, j | 0 <= i < j < |t|
      ensures t[i] < t[j]
    {
      assert t[i] == if i < idx then s[i] else if i == idx then key else s[i - 1];
      assert t[j] == if j < idx then s[j] else if j == idx then key else s[j - 1];
    }
    assert s == s[..idx] + s[idx..];
  }

  method InsertSorted(s: seq<int>, key: int) returns (r: seq<int>)
    requires Increasing(s)
    ensures Increasing(r) && forall k :: k in r <==> k in s || k == key
  {
    var idx := Search(s, key);
    if idx < |s| && s[idx] == key {
      return s;
    }
    InsertKeepsIncreasing(s, key, idx);
    r := s[..idx] + [key] + s[idx..];
  }

  // ---------------------------------------------------------------- the buckets stand for the log

  type Buckets = map<int, Bucket>

  ghost predicate HoldsAt(buckets: Buckets, log: Log, secs: nat, key: int)
    requires secs > 0
  {
    var values := ValuesAt(log, secs, key);
    if values == [] then key !in buckets else key in buckets && IsBucket(buckets[key], key, values)
  }

  ghost predicate Represents(buckets: Buckets, sorted: seq<int>, log: Log, secs: nat)
    requires secs > 0
  {
    && Increasing(sorted)
    && (forall key :: key in sorted <==> key in buckets)
    && (forall key :: HoldsAt(buckets, log, secs, key))
  }

  /** The buckets with one more observation. */
  function WithObservation(buckets: Buckets, secs: nat, o: Observation): Buckets
    requires secs > 0
  {
    var key := RoundTime(o.time, secs);
    var bucket := if key in buckets then buckets[key] else EmptyBucket(key, o.value);
    buckets[key := WithValue(bucket, o.value)]
  }

  lemma ObservationIsHeldAt(buckets: Buckets, log: Log, secs: nat, o: Observation, key: int)
    requires secs > 0 && HoldsAt(buckets, log, secs, key)
    ensures HoldsAt(WithObservation(buckets, secs, o), log + [o], secs, key)
  {
    ValuesIfSnoc(log, o, secs, x => x == key);
    if key == RoundTime(o.time, secs) {
      var bucket := if key in buckets then buckets[key] else EmptyBucket(key, o.value);
      BucketTakesValue(bucket, key, ValuesAt(log, secs, key), o.value);
    }
  }

  lemma ObservationIsHeld(buckets: Buckets, log: Log, secs: nat, o: Observation)
    requires secs > 0 && forall key :: HoldsAt(buckets, log, secs, key)
    ensures forall key :: HoldsAt(WithObservation(buckets, secs, o), log + [o], secs, key)
  {
    var after, log' := WithObservation(buckets, secs, o), log + [o];
    forall key
      ensures HoldsAt(after, log', secs, key)
    {
      ObservationIsHeldAt(buckets, log, secs, o, key);
    }
  }

  lemma CutoffIsHeld(buckets: Buckets, sorted: seq<int>, log: Log, secs: nat, cutoff: int, idx: nat, buckets': Buckets)
    requires secs > 0 && Represents(buckets, sorted, log, secs) && SplitsAt(sorted, cutoff, idx)
    requires forall key :: key in buckets' <==> key in buckets && key !in sorted[..idx]
    requires forall key | key in buckets' :: buckets'[key] == buckets[key]
    ensures Represents(buckets', sorted[idx..], Kept(log, secs, cutoff), secs)
  {
    assert sorted == sorted[..idx] + sorted[idx..];
    forall key
      ensures key in sorted[idx..] <==> key in buckets'
      ensures HoldsAt(buckets', Kept(log, secs, cutoff), secs, key)
    {
      KeptValues(log, secs, cutoff, key);
      assert HoldsAt(buckets, log, secs, key);
      if key in sorted[..idx] {
        assert key < cutoff;
      }
      if key in sorted[idx..] {
        assert key >= cutoff;
      }
    }
  }

  // ---------------------------------------------------------------- what a query returns

  datatype Point = Point(timestamp: int, count: nat, sum: real, min: real, max: real, avg: real, p50: real, p90: real, p95: real, p99: real)

  /** p describes exactly the given values. */
  ghost predicate IsPoint(p: Point, key: int, values: seq<real>) {
    && values != [] && p.timestamp == key
    && p.count == |values| && p.sum == Total(values) && p.avg == p.sum / p.count as real
    && IsLeast(p.min, values) && IsGreatest(p.max, values)
    && p.p50 == Percentile(Sorted(values), 0.5) && p.p90 == Percentile(Sorted(values), 0.9)
    && p.p95 == Percentile(Sorted(values), 0.95) && p.p99 == Percentile(Sorted(values), 0.99)
  }

  method MakePoint(b: Bucket, ghost key: int, ghost values: seq<real>) returns (p: Point)
    requires values != [] && IsBucket(b, key, values)
    ensures IsPoint(p, key, values)
  {
    var sorted := Sorted(b.values);
    p := Point(b.timestamp, b.count, b.sum, b.min, b.max, b.sum / b.count as real,
               Percentile(sorted, 0.5), Percentile(sorted, 0.9), Percentile(sorted, 0.95), Percentile(sorted, 0.99));
  }

  /** In every point minimum, percentiles and maximum are in order. */
  lemma PointIsOrdered(p: Point, key: int, values: seq<real>)
    requires IsPoint(p, key, values)
    ensures p.min <= p.p50 <= p.p90 <= p.p95 <= p.p99 <= p.max
  {
    var sorted := Sorted(values);
    SortedIsAscending(values);
    assert forall v :: v in values <==> v in multiset(sorted);
    assert sorted[0] in multiset(sorted) && sorted[|sorted| - 1] in multiset(sorted);
    PercentilesAreMonotone(sorted, 0.5, 0.9);
    PercentilesAreMonotone(sorted, 0.9, 0.95);
    PercentilesAreMonotone(sorted, 0.95, 0.99);
  }

  ghost function Times(points: seq<Point>): seq<int> {
    seq(|points|, i requires 0 <= i < |points| => points[i].timestamp)
  }

  /** points are, in ascending order, the buckets of the log between two keys that have any value. */
  ghost predicate IsAnswer(points: seq<Point>, log: Log, secs: nat, startKey: int, endKey: int)
    requires secs > 0
  {
    && Increasing(Times(points))
    && (forall key :: key in Times(points) <==> startKey <= key <= endKey && ValuesAt(log, secs, key) != [])
    && (forall p | p in points :: IsPointAt(p, p.timestamp, log, secs))
  }

  /** points are those of the first n keys from start on. */
  ghost predicate Collected(points: seq<Point>, sorted: seq<int>, start: nat, n: nat, log: Log, secs: nat)
    requires secs > 0 && start + n <= |sorted|
  {
    && |points| == n
    && (forall j | 0 <= j < n :: IsPointAt(points[j], sorted[start + j], log, secs))
  }

  ghost predicate IsPointAt(p: Point, key: int, log: Log, secs: nat)
    requires secs > 0
  {
    IsPoint(p, key, ValuesAt(log, secs, key))
  }

  lemma AnswerHasEveryKey(buckets: Buckets, sorted: seq<int>, log: Log, secs: nat, startKey: int, endKey: int, start: nat, n: nat, key: int)
    requires secs > 0 && Represents(buckets, sorted, log, secs) && SplitsAt(sorted, startKey, start) && start + n <= |sorted|
    requires forall i | start <= i < start + n :: sorted[i] <= endKey
    requires start + n < |sorted| ==> sorted[start + n] > endKey
    ensures key in sorted[start..start + n] <==> startKey <= key <= endKey && ValuesAt(log, secs, key) != []
  {
    assert HoldsAt(buckets, log, secs, key);
    if startKey <= key <= endKey && key in sorted {
      var i :| 0 <= i < |sorted| && sorted[i] == key;
      assert start <= i < start + n;
      assert sorted[start..start + n][i - start] == key;
    }
  }

  lemma PartIsIncreasing(sorted: seq<int>, start: nat, n: nat)
    requires Increasing(sorted) && start + n <= |sorted|
    ensures Increasing(sorted[start..start + n])
  {}

  lemma CollectedIsAnswer(points: seq<Point>, buckets: Buckets, sorted: seq<int>, log: Log, secs: nat, startKey: int, endKey: int, start: nat, n: nat)
    requires secs > 0 && Represents(buckets, sorted, log, secs)
    requires SplitsAt(sorted, startKey, start) && start + n <= |sorted| && Collected(points, sorted, start, n, log, secs)
    requires forall i | start <= i < start + n :: sorted[i] <= endKey
    requires start + n < |sorted| ==> sorted[start + n] > endKey
    ensures IsAnswer(points, log, secs, startKey, endKey)
  {
    PartIsIncreasing(sorted, start, n);
    forall j | 0 <= j < n
      ensures points[j].timestamp == sorted[start + j] && IsPointAt(points[j], points[j].timestamp, log, secs)
    {
      assert IsPointAt(points[j], sorted[start + j], log, secs);
    }
    assert Times(points) == sorted[start..start + n];
    forall key {
      AnswerHasEveryKey(buckets, sorted, log, secs, startKey, endKey, start, n, key);
    }
  }

  method PointFor(buckets: Buckets, sorted: seq<int>, i: nat, ghost log: Log, ghost secs: nat) returns (p: Point)
    requires secs > 0 && Represents(buckets, sorted, log, secs) && i < |sorted|
    ensures IsPointAt(p, sorted[i], log, secs)
  {
    var key := sorted[i];
    assert key in sorted && HoldsAt(buckets, log, secs, key);
    p := MakePoint(buckets[key], key, ValuesAt(log, secs, key));
  }

  method CollectPoints(buckets: Buckets, sorted: seq<int>, startIdx: nat, endKey: int, ghost log: Log, ghost secs: nat)
    returns (points: seq<Point>, ghost n: nat)
    requires secs > 0 && Represents(buckets, sorted, log, secs) && startIdx <= |sorted|
    ensures startIdx + n <= |sorted| && Collected(points, sorted, startIdx, n, log, secs)
    ensures forall i | startIdx <= i < startIdx + n :: sorted[i] <= endKey
    ensures startIdx + n < |sorted| ==> sorted[startIdx + n] > endKey
  {
    points, n := [], 0;
    var i := startIdx;
    while i < |sorted| && sorted[i] <= endKey
      invariant i == startIdx + n <= |sorted|
      invariant forall j | startIdx <= j < i :: sorted[j] <= endKey
      invariant Collected(points, sorted, startIdx, n, log, secs)
    {
      var p := PointFor(buckets, sorted, i, log, secs);
      points := points + [p];
      i, n := i + 1, n + 1;
    }
  }

  // ---------------------------------------------------------------- statistics over the points

  datatype Stats = Stats(totalCount: nat, totalSum: real, min: real, max: real, avg: real, stdDev: real)

  /** f of the points' means, each as often as the point has values. */
  ghost function WeightedSum(points: seq<Point>, f: real -> real): real {
    if points == [] then 0.0
    else WeightedSum(points[..|points| - 1], f) + f(points[|points| - 1].avg) * points[|points| - 1].count as real
  }

  ghost function SquareFrom(mean: real): real -> real {
    v => Product(v - mean, v - mean)
  }

  ghost function Product(x: real, y: real): real {
    x * y
  }

  /** The squared distances of the points' means from the overall mean. */
  ghost function SquaredDistances(points: seq<Point>, avg: real): real {
    WeightedSum(points, SquareFrom(avg))
  }

  ghost function Repeat(v: real, n: nat): seq<real> {
    seq(n, _ => v)
  }

  /** The mean of every point, as often as the point has values. */
  ghost function RepeatedMeans(points: seq<Point>): seq<real> {
    if points == [] then []
    else RepeatedMeans(points[..|points| - 1]) + Repeat(points[|points| - 1].avg, points[|points| - 1].count)
  }

  ghost function SumOf(values: seq<real>, f: real -> real): real {
    if values == [] then 0.0 else SumOf(values[..|values| - 1], f) + f(values[|values| - 1])
  }

  ghost function AddedUp(x: real, n: nat): real {
    if n == 0 then 0.0 else AddedUp(x, n - 1) + x
  }

  lemma {:induction false} AddedUpIsProduct(x: real, n: nat)
    ensures AddedUp(x, n) == x * n as real
  {
    if n > 0 {
      AddedUpIsProduct(x, n - 1);
      OneMoreTime(x, n);
    }
  }

  lemma SumOfSnoc(values: seq<real>, v: real, f: real -> real)
    ensures SumOf(values + [v], f) == SumOf(values, f) + f(v)
  {
    assert (values + [v])[..|values|] == values;
  }

  lemma {:induction false} SumOfRepeated(values: seq<real>, n: nat, v: real, f: real -> real)
    ensures SumOf(values + Repeat(v, n), f) == SumOf(values, f) + AddedUp(f(v), n)
  {
    if n == 0 {
      assert values + Repeat(v, n) == values;
    } else {
      SumOfRepeated(values, n - 1, v, f);
      SumOfSnoc(values + Repeat(v, n - 1), v, f);
      assert values + Repeat(v, n) == values + Repeat(v, n - 1) + [v];
    }
  }

  lemma OneMoreTime(x: real, n: nat)
    requires n > 0
    ensures x * (n - 1) as real + x == x * n as real
  {}

  lemma {:induction false} WeightedSumRepeats(points: seq<Point>, f: real -> real)
    ensures SumOf(RepeatedMeans(points), f) == WeightedSum(points, f)
  {
    if points != [] {
      WeightedSumRepeats(points[..|points| - 1], f);
      LastRepeats(points, f);
      LastWeighs(points, f);
    }
  }

  lemma LastRepeats(points: seq<Point>, f: real -> real)
    requires points != []
    ensures var front, last := points[..|points| - 1], points[|points| - 1];
            SumOf(RepeatedMeans(points), f) == SumOf(RepeatedMeans(front), f) + AddedUp(f(last.avg), last.count)
  {
    var front, last := points[..|points| - 1], points[|points| - 1];
    SumOfRepeated(RepeatedMeans(front), last.count, last.avg, f);
  }

  lemma LastWeighs(points: seq<Point>, f: real -> real)
    requires points != []
    ensures var front, last := points[..|points| - 1], points[|points| - 1];
            WeightedSum(points, f) == WeightedSum(front, f) + AddedUp(f(last.avg), last.count)
  {
    AddedUpIsProduct(f(points[|points| - 1].avg), points[|points| - 1].count);
  }

  lemma {:induction false} MeansAreCounted(points: seq<Point>)
    ensures |RepeatedMeans(points)| == TotalCount(points)
  {
    if points != [] {
      MeansAreCounted(points[..|points| - 1]);
    }
  }

  /** The weighted sum is that of the squares over the means, each repeated for every value of its point. */
  lemma SquaredDistancesRepeatMeans(points: seq<Point>, avg: real)
    ensures SquaredDistances(points, avg) == SumOf(RepeatedMeans(points), SquareFrom(avg))
    ensures |RepeatedMeans(points)| == TotalCount(points)
  {
    WeightedSumRepeats(points, SquareFrom(avg));
    MeansAreCounted(points);
  }

  lemma {:induction false} WeightedSumIsNonNegative(points: seq<Point>, f: real -> real)
    requires forall v :: f(v) >= 0.0
    ensures WeightedSum(points, f) >= 0.0
    ensures (forall p | p in points :: p.count > 0) ==> (WeightedSum(points, f) == 0.0 <==> forall p | p in points :: f(p.avg) == 0.0)
  {
    if points != [] {
      var front, last := points[..|points| - 1], points[|points| - 1];
      WeightedSumIsNonNegative(front, f);
      Weight(f(last.avg), last.count);
      assert points == front + [last];
      assert forall p :: p in points <==> p in front || p == last;
    }
  }

  lemma Weight(x: real, n: nat)
    requires x >= 0.0
    ensures x * n as real >= 0.0 && (n > 0 ==> (x * n as real == 0.0 <==> x == 0.0))
  {
    ProductIsNonNegative(x, n as real);
    if n > 0 {
      ProductIsNonNegative(x, (n - 1) as real);
      OneMoreTime(x, n);
    }
  }

  lemma SquareSigns(x: real)
    ensures Product(x, x) >= 0.0 && (Product(x, x) == 0.0 ==> x == 0.0)
  {
    if x > 0.0 {
      BothPositive(x, x);
    } else if x < 0.0 {
      BothNegative(x, x);
    }
  }

  lemma BothPositive(x: real, y: real)
    requires x > 0.0 && y > 0.0
    ensures Product(x, y) > 0.0
  {}

  lemma BothNegative(x: real, y: real)
    requires x < 0.0 && y < 0.0
    ensures Product(x, y) > 0.0
  {}

  lemma SquareFromSigns(mean: real, v: real)
    ensures SquareFrom(mean)(v) >= 0.0 && (SquareFrom(mean)(v) == 0.0 ==> v == mean)
    ensures v == mean ==> SquareFrom(mean)(v) == 0.0
  {
    SquareSigns(v - mean);
  }

  lemma SquaredDistancesAreNonNegative(points: seq<Point>, avg: real)
    ensures SquaredDistances(points, avg) >= 0.0
  {
    forall v
      ensures SquareFrom(avg)(v) >= 0.0
    {
      SquareFromSigns(avg, v);
    }
    WeightedSumIsNonNegative(points, SquareFrom(avg));
  }

  /** They are zero, and so is the standard deviation, exactly if all means are the overall one. */
  lemma NoDistanceExactlyForEqualMeans(points: seq<Point>, avg: real)
    requires forall p | p in points :: p.count > 0
    ensures SquaredDistances(points, avg) == 0.0 <==> forall p | p in points :: p.avg == avg
  {
    forall v
      ensures SquareFrom(avg)(v) >= 0.0 && (SquareFrom(avg)(v) == 0.0 ==> v == avg)
      ensures v == avg ==> SquareFrom(avg)(v) == 0.0
    {
      SquareFromSigns(avg, v);
    }
    WeightedSumIsNonNegative(points, SquareFrom(avg));
  }

  ghost function TotalCount(points: seq<Point>): nat {
    if points == [] then 0 else TotalCount(points[..|points| - 1]) + points[|points| - 1].count
  }

  ghost function TotalSum(points: seq<Point>): real {
    if points == [] then 0.0 else TotalSum(points[..|points| - 1]) + points[|points| - 1].sum
  }

  /** A minimum of 0 is taken for one not set yet. */
  ghost function StatsMin(points: seq<Point>): real {
    if points == [] then 0.0
    else
      var m, p := StatsMin(points[..|points| - 1]), points[|points| - 1];
      if m == 0.0 || p.min < m then p.min else m
  }

  ghost function StatsMax(points: seq<Point>): real {
    if points == [] then 0.0
    else
      var m, p := StatsMax(points[..|points| - 1]), points[|points| - 1];
      if p.max > m then p.max else m
  }

  /** `sqrt` takes the root of the mean squared distance, which is not negative. */
  method CalculateStats(points: seq<Point>, sqrt: real -> real) returns (stats: Stats)
    requires forall p | p in points :: p.count > 0
    ensures stats.totalCount == TotalCount(points) && stats.totalSum == TotalSum(points)
    ensures stats.min == StatsMin(points) && stats.max == StatsMax(points)
    ensures points == [] ==> stats == Stats(0, 0.0, 0.0, 0.0, 0.0, 0.0)
    ensures points != [] ==> stats.totalCount > 0 && stats.avg == stats.totalSum / stats.totalCount as real
    ensures points != [] ==> SquaredDistances(points, stats.avg) / stats.totalCount as real >= 0.0
    ensures points != [] ==> stats.stdDev == sqrt(SquaredDistances(points, stats.avg) / stats.totalCount as real)
  {
    if points == [] {
      return Stats(0, 0.0, 0.0, 0.0, 0.0, 0.0);
    }
    var count: nat, sum: real, min: real, max: real := 0, 0.0, 0.0, 0.0;
    for i := 0 to |points|
      invariant count == TotalCount(points[..i]) && sum == TotalSum(points[..i]) && (i > 0 ==> count > 0)
      invariant min == StatsMin(points[..i]) && max == StatsMax(points[..i])
    {
      assert points[..i + 1][..i] == points[..i];
      var p := points[i];
      assert p in points;
      count, sum := count + p.count, sum + p.sum;
      if min == 0.0 || p.min < min {
        min := p.min;
      }
      if p.max > max {
        max := p.max;
      }
    }
    assert points[..|points|] == points;
    var avg := sum / count as real;
    var distances := SumSquaredDistances(points, avg);
    stats := Stats(count, sum, min, max, avg, sqrt(distances / count as real));
    SquaredDistancesAreNonNegative(points, avg);
    QuotientIsNonNegative(distances, count as real);
  }

  lemma QuotientIsNonNegative(x: real, y: real)
    requires x >= 0.0 && y > 0.0
    ensures x / y >= 0.0
  {}

  /** The second loop of the statistics. */
  method SumSquaredDistances(points: seq<Point>, avg: real) returns (sum: real)
    ensures sum == SquaredDistances(points, avg)
  {
    sum := 0.0;
    for i := 0 to |points|
      invariant sum == SquaredDistances(points[..i], avg)
    {
      assert points[..i + 1][..i] == points[..i];
      var diff := points[i].avg - avg;
      assert SquareFrom(avg)(points[i].avg) == Product(diff, diff);
      sum := sum + diff * diff * points[i].count as real;
    }
    assert points[..|points|] == points;
  }

  /** The totals of points are those of the values in their buckets. */
  lemma {:induction false} PointsAddUp(points: seq<Point>, log: Log, secs: nat, p: int -> bool)
    requires secs > 0 && forall i | 0 <= i < |points| :: IsPointAt(points[i], points[i].timestamp, log, secs) && p(points[i].timestamp)
    ensures TotalCount(points) == |Gather(log, secs, Times(points), p)|
    ensures TotalSum(points) == Total(Gather(log, secs, Times(points), p))
  {
    if points != [] {
      var front, last := points[..|points| - 1], points[|points| - 1];
      PointsAddUp(front, log, secs, p);
      PointAddsItsValues(Gather(log, secs, Times(front), p), last, log, secs);
      GatherOneMore(log, secs, Times(front), last.timestamp, p);
      TimesSnoc(front, last);
      assert points == front + [last];
    }
  }

  lemma TimesSnoc(points: seq<Point>, p: Point)
    ensures Times(points + [p]) == Times(points) + [p.timestamp]
  {}

  lemma PointAddsItsValues(gathered: seq<real>, p: Point, log: Log, secs: nat)
    requires secs > 0 && IsPointAt(p, p.timestamp, log, secs)
    ensures |gathered + ValuesAt(log, secs, p.timestamp)| == |gathered| + p.count
    ensures Total(gathered + ValuesAt(log, secs, p.timestamp)) == Total(gathered) + p.sum
  {
    TotalConcat(gathered, ValuesAt(log, secs, p.timestamp));
  }

  lemma TotalsAreThoseOfTheLog(points: seq<Point>, log: Log, secs: nat, startKey: int, endKey: int)
    requires secs > 0 && IsAnswer(points, log, secs, startKey, endKey)
    ensures var values := ValuesIf(log, secs, k => startKey <= k <= endKey);
            TotalCount(points) == |values| && TotalSum(points) == Total(values)
  {
    var p := k => startKey <= k <= endKey;
    var keys := Times(points);
    forall i | 0 <= i < |points|
      ensures IsPointAt(points[i], points[i].timestamp, log, secs) && p(points[i].timestamp)
    {
      assert points[i] in points && keys[i] == points[i].timestamp;
      assert keys[i] in keys;
    }
    forall o | o in log && p(RoundTime(o.time, secs))
      ensures RoundTime(o.time, secs) in keys
    {
      ObservedBucketIsNotEmpty(log, secs, o);
    }
    PointsAddUp(points, log, secs, p);
    GatherAll(log, secs, keys, p);
    TotalOfPermutation(Gather(log, secs, keys, p), ValuesIf(log, secs, p));
    assert |multiset(Gather(log, secs, keys, p))| == |multiset(ValuesIf(log, secs, p))|;
    ValuesIfSame(log, secs, p, k => startKey <= k <= endKey);
  }

  lemma {:induction false} ObservedBucketIsNotEmpty(log: Log, secs: nat, o: Observation)
    requires secs > 0 && o in log
    ensures ValuesAt(log, secs, RoundTime(o.time, secs)) != []
  {
    var front, last := log[..|log| - 1], log[|log| - 1];
    if o != last {
      assert log == front + [last];
      ObservedBucketIsNotEmpty(front, secs, o);
    }
  }

  ghost predicate IsLeastOf(m: real, points: seq<Point>) {
    (exists p :: p in points && p.min == m) && forall p | p in points :: m <= p.min
  }

  ghost predicate IsGreatestOf(m: real, points: seq<Point>) {
    (exists p :: p in points && p.max == m) && forall p | p in points :: p.max <= m
  }

  ghost predicate SomeBelowZero(points: seq<Point>) {
    exists p :: p in points && p.min < 0.0
  }

  ghost predicate AllAboveZero(points: seq<Point>) {
    forall p | p in points :: p.min > 0.0
  }

  /** What the running minimum is after any points. */
  lemma {:induction false} StatsMinIs(points: seq<Point>)
    requires points != []
    ensures SomeBelowZero(points) || AllAboveZero(points) ==> IsLeastOf(StatsMin(points), points)
    ensures !SomeBelowZero(points) ==> StatsMin(points) >= 0.0 && (StatsMin(points) == 0.0 <==> points[|points| - 1].min == 0.0)
  {
    var front, last := points[..|points| - 1], points[|points| - 1];
    assert points == front + [last];
    if front != [] {
      StatsMinIs(front);
    }
  }

  /** It is the minimum exactly when a point is negative, or all are positive, or the last one is zero. */
  lemma MinIsExactUnlessZeroIsForgotten(points: seq<Point>)
    requires points != []
    ensures IsLeastOf(StatsMin(points), points) <==>
            SomeBelowZero(points) || AllAboveZero(points) || points[|points| - 1].min == 0.0
  {
    StatsMinIs(points);
    assert points[|points| - 1] in points;
  }

  lemma {:induction false} StatsMaxIs(points: seq<Point>)
    ensures StatsMax(points) >= 0.0 && forall p | p in points :: p.max <= StatsMax(points)
    ensures StatsMax(points) > 0.0 ==> exists p :: p in points && p.max == StatsMax(points)
  {
    if points != [] {
      var front, last := points[..|points| - 1], points[|points| - 1];
      assert points == front + [last];
      StatsMaxIs(front);
      assert last in points;
      if StatsMax(front) > 0.0 {
        var p :| p in front && p.max == StatsMax(front);
        assert p in points;
      }
    }
  }

  /** The running maximum starts at zero, so it is exact exactly when some maximum is not negative. */
  lemma MaxIsExactUnlessAllAreNegative(points: seq<Point>)
    ensures IsGreatestOf(StatsMax(points), points) <==> exists p :: p in points && p.max >= 0.0
  {
    StatsMaxIs(points);
    if p :| p in points && p.max >= 0.0 {
      assert p.max <= StatsMax(points);
    }
  }

  // ---------------------------------------------------------------- larger buckets

  /** after is before with the values added, in order, to the bucket at key and nowhere else. */
  ghost predicate Extends(before: Log, after: Log, secs: nat, key: int, values: seq<real>)
    requires secs > 0
  {
    forall k :: ValuesAt(after, secs, k) == ValuesAt(before, secs, k) + (if k == key then values else [])
  }

  lemma OneMoreValue(start: Log, before: Log, secs: nat, key: int, values: seq<real>, i: nat, o: Observation)
    requires secs > 0 && i < |values| && Extends(start, before, secs, key, values[..i])
    requires RoundTime(o.time, secs) == key && o.value == values[i]
    ensures Extends(start, before + [o], secs, key, values[..i + 1])
  {
    assert values[..i + 1] == values[..i] + [values[i]];
    forall k
      ensures ValuesAt(before + [o], secs, k) == ValuesAt(start, secs, k) + (if k == key then values[..i + 1] else [])
    {
      ValuesIfSnoc(before, o, secs, x => x == k);
    }
  }

  ghost function ValuesOf(group: seq<Bucket>): seq<real> {
    if group == [] then [] else ValuesOf(group[..|group| - 1]) + group[|group| - 1].values
  }

  method Concatenate(group: seq<Bucket>) returns (allValues: seq<real>)
    ensures allValues == ValuesOf(group)
  {
    allValues := [];
    for i := 0 to |group|
      invariant allValues == ValuesOf(group[..i])
    {
      assert group[..i + 1][..i] == group[..i];
      allValues := allValues + group[i].values;
    }
    assert group[..|group|] == group;
  }

  type Groups = map<int, seq<Bucket>>

  function GroupOf(groups: Groups, key: int): seq<Bucket> {
    if key in groups then groups[key] else []
  }

  /** The values of the buckets among keys that fall into the new bucket at newKey. */
  ghost function GatherFor(log: Log, secs: nat, keys: seq<int>, newSecs: nat, newKey: int): seq<real>
    requires newSecs > 0 && secs > 0
  {
    Gather(log, secs, keys, k => RoundTime(k, newSecs) == newKey)
  }

  lemma GatherForSnoc(log: Log, secs: nat, keys: seq<int>, key: int, newSecs: nat, newKey: int)
    requires newSecs > 0 && secs > 0
    ensures GatherFor(log, secs, keys + [key], newSecs, newKey) ==
            GatherFor(log, secs, keys, newSecs, newKey) + (if RoundTime(key, newSecs) == newKey then ValuesAt(log, secs, key) else [])
  {
    GatherOneMore(log, secs, keys, key, k => RoundTime(k, newSecs) == newKey);
  }

  /** Each group holds the values of the buckets among keys that fall into its new bucket. */
  ghost predicate AreGroups(groups: Groups, keys: seq<int>, newSecs: nat, log: Log, secs: nat)
    requires newSecs > 0 && secs > 0
  {
    && (forall key :: ValuesOf(GroupOf(groups, key)) == GatherFor(log, secs, keys, newSecs, key))
    && (forall key | key in groups :: RoundTime(key, newSecs) == key)
  }

  lemma GroupTakesBucket(groups: Groups, b: Bucket, keys: seq<int>, newSecs: nat, log: Log, secs: nat, key: int)
    requires newSecs > 0 && secs > 0 && AreGroups(groups, keys, newSecs, log, secs)
    requires b.values == ValuesAt(log, secs, key)
    ensures var newKey := RoundTime(key, newSecs);
            AreGroups(groups[newKey := GroupOf(groups, newKey) + [b]], keys + [key], newSecs, log, secs)
  {
    var newKey := RoundTime(key, newSecs);
    var after := groups[newKey := GroupOf(groups, newKey) + [b]];
    RoundTimeIsIdempotent(key, newSecs);
    forall K
      ensures ValuesOf(GroupOf(after, K)) == GatherFor(log, secs, keys + [key], newSecs, K)
    {
      GatherForSnoc(log, secs, keys, key, newSecs, K);
      assert ValuesOf(GroupOf(groups, K)) == GatherFor(log, secs, keys, newSecs, K);
      assert (GroupOf(groups, K) + [b])[..|GroupOf(groups, K)|] == GroupOf(groups, K);
    }
  }

  ghost predicate HasValuesOf(b: Bucket, key: int, log: Log, secs: nat)
    requires secs > 0
  {
    b.timestamp == key && b.values == ValuesAt(log, secs, key)
  }

  lemma BucketsHaveValues(buckets: Buckets, sorted: seq<int>, log: Log, secs: nat)
    requires secs > 0 && Represents(buckets, sorted, log, secs)
    ensures forall i | 0 <= i < |sorted| :: sorted[i] in buckets && HasValuesOf(buckets[sorted[i]], sorted[i], log, secs)
  {
    forall i | 0 <= i < |sorted|
      ensures sorted[i] in buckets && HasValuesOf(buckets[sorted[i]], sorted[i], log, secs)
    {
      assert sorted[i] in sorted && HoldsAt(buckets, log, secs, sorted[i]);
    }
  }

  method PutInGroup(groups: Groups, bucket: Bucket, newSecs: nat, ghost keys: seq<int>, ghost log: Log, ghost secs: nat) returns (after: Groups)
    requires newSecs > 0 && secs > 0 && AreGroups(groups, keys, newSecs, log, secs)
    requires HasValuesOf(bucket, bucket.timestamp, log, secs)
    ensures AreGroups(after, keys + [bucket.timestamp], newSecs, log, secs)
  {
    GroupTakesBucket(groups, bucket, keys, newSecs, log, secs, bucket.timestamp);
    RoundTimeIsQuotientTimesSecs(bucket.timestamp, newSecs);
    var newKey := Quotient(bucket.timestamp, newSecs) * newSecs;
    after := groups[newKey := GroupOf(groups, newKey) + [bucket]];
  }

  method GroupBuckets(buckets: Buckets, sorted: seq<int>, newSecs: nat, ghost log: Log, ghost secs: nat) returns (groups: Groups)
    requires newSecs > 0 && secs > 0
    requires forall i | 0 <= i < |sorted| :: sorted[i] in buckets && HasValuesOf(buckets[sorted[i]], sorted[i], log, secs)
    ensures AreGroups(groups, sorted, newSecs, log, secs)
  {
    groups := map[];
    for i := 0 to |sorted|
      invariant AreGroups(groups, sorted[..i], newSecs, log, secs)
    {
      groups := PutInGroup(groups, buckets[sorted[i]], newSecs, sorted[..i], log, secs);
      OneMore(sorted, i);
    }
    assert sorted[..|sorted|] == sorted;
  }

  /** Each new bucket has the values, in some order, of the old buckets whose start falls into it. */
  ghost predicate IsDownsampling(log: Log, secs: nat, newLog: Log, newSecs: nat)
    requires secs > 0 && newSecs > 0
  {
    forall key :: multiset(ValuesAt(newLog, newSecs, key)) == multiset(ValuesAt(Rounded(log, secs), newSecs, key))
  }

  /** The log has the values of every group but those that remain. */
  ghost predicate HasGroups(log: Log, secs: nat, groups: Groups, remaining: set<int>)
    requires secs > 0
  {
    forall key :: ValuesAt(log, secs, key) == if key in remaining then [] else ValuesOf(GroupOf(groups, key))
  }

  lemma GroupIsAdded(before: Log, after: Log, secs: nat, groups: Groups, remaining: set<int>, key: int)
    requires secs > 0 && HasGroups(before, secs, groups, remaining) && key in remaining && key in groups
    requires Extends(before, after, secs, key, ValuesOf(groups[key]))
    ensures HasGroups(after, secs, groups, remaining - {key})
  {
    forall k
      ensures ValuesAt(after, secs, k) == if k in remaining - {key} then [] else ValuesOf(GroupOf(groups, k))
    {
      assert ValuesAt(after, secs, k) == ValuesAt(before, secs, k) + (if k == key then ValuesOf(groups[key]) else []);
    }
  }

  lemma DownsamplingFromGroups(buckets: Buckets, sorted: seq<int>, groups: Groups, log: Log, secs: nat, newLog: Log, newSecs: nat)
    requires secs > 0 && newSecs > 0 && Represents(buckets, sorted, log, secs) && AreGroups(groups, sorted, newSecs, log, secs)
    requires HasGroups(newLog, newSecs, groups, {})
    ensures IsDownsampling(log, secs, newLog, newSecs)
  {
    forall key
      ensures multiset(ValuesAt(newLog, newSecs, key)) == multiset(ValuesAt(Rounded(log, secs), newSecs, key))
    {
      var p := k => RoundTime(k, newSecs) == key;
      forall o | o in log
        ensures RoundTime(o.time, secs) in sorted
      {
        ObservedBucketIsNotEmpty(log, secs, o);
        assert HoldsAt(buckets, log, secs, RoundTime(o.time, secs));
      }
      GatherAll(log, secs, sorted, p);
      RoundedValues(log, secs, newSecs, key);
      assert ValuesAt(newLog, newSecs, key) == ValuesOf(GroupOf(groups, key)) == GatherFor(log, secs, sorted, newSecs, key);
    }
  }

  /** Downsampling conserves the observed values, hence their number and sum. */
  lemma DownsamplingConservesValues(log: Log, secs: nat, newLog: Log, newSecs: nat)
    requires secs > 0 && newSecs > 0 && IsDownsampling(log, secs, newLog, newSecs)
    ensures multiset(Values(newLog)) == multiset(Values(log))
    ensures |Values(newLog)| == |Values(log)| && Total(Values(newLog)) == Total(Values(log))
  {
    SameBucketsSameValues(newLog, Rounded(log, secs), newSecs);
    RoundedKeepsValues(log, secs);
    TotalOfPermutation(Values(newLog), Values(log));
    assert |multiset(Values(newLog))| == |multiset(Values(log))|;
  }

  /** The result has the buckets a series with the new resolution would have had from the start, if the new size is a multiple. */
  lemma DownsamplingMatchesDirectBucketing(log: Log, secs: nat, newLog: Log, newSecs: nat, key: int)
    requires secs > 0 && newSecs > 0 && newSecs % secs == 0 && IsDownsampling(log, secs, newLog, newSecs)
    ensures multiset(ValuesAt(newLog, newSecs, key)) == multiset(ValuesAt(log, newSecs, key))
  {
    CoarseningIsExactForMultiplesOnly(secs, newSecs);
  }

  // ---------------------------------------------------------------- the series

  class TimeSeries {
    const resolution: nat
    const retention: nat
    var buckets: Buckets
    var sorted: seq<int>
    ghost var log: Log

    /** A series of any resolution can be made; one below a second has bucket size zero, and then every rounding divides by it. */
    constructor (resolution: nat, retention: nat)
      ensures log == [] && buckets == map[] && sorted == []
      ensures this.resolution >= SECOND ==> Valid()
      ensures this.resolution == if resolution == 0 then 1_000_000_000 else resolution
      ensures this.retention == if retention == 0 then 86_400_000_000_000 else retention
    {
      this.resolution := if resolution == 0 then SECOND else resolution;
      this.retention := if retention == 0 then DEFAULT_RETENTION else retention;
      buckets, sorted, log := map[], [], [];
    }

    /** The bucket size: the whole seconds of the resolution. */
    function Secs(): (secs: nat)
      ensures secs * 1_000_000_000 <= resolution < (secs + 1) * 1_000_000_000
    {
      resolution / SECOND
    }

    ghost predicate Valid()
      reads this
    {
      resolution >= SECOND && retention > 0 && Represents(buckets, sorted, log, Secs())
    }

    method Add(value: real, timestamp: int)
      requires Valid()
      modifies this
      ensures Valid() && log == old(log) + [Observation(timestamp, value)]
    {
      var bucketKey := RoundTime(timestamp, Secs());
      ObservationIsHeld(buckets, log, Secs(), Observation(timestamp, value));
      if bucketKey !in buckets {
        buckets := buckets[bucketKey := EmptyBucket(bucketKey, value)];
        sorted := InsertSorted(sorted, bucketKey);
      }
      buckets := buckets[bucketKey := WithValue(buckets[bucketKey], value)];
      assert buckets == WithObservation(old(buckets), Secs(), Observation(timestamp, value));
      log := log + [Observation(timestamp, value)];
    }

    /** One tick of the cleanup goroutine: buckets that start before the cutoff go, all others stay as they are. */
    method Cleanup(now: int)
      requires Valid()
      modifies this
      ensures Valid() && log == Kept(old(log), Secs(), (now - retention) / 1_000_000_000)
      ensures forall key :: ValuesAt(log, Secs(), key) == if key >= (now - retention) / 1_000_000_000 then ValuesAt(old(log), Secs(), key) else []
    {
      var cutoff := (now - retention) / SECOND;
      var keepIdx := Search(sorted, cutoff);
      ghost var before := buckets;
      for i := 0 to keepIdx
        invariant sorted == old(sorted) && log == old(log)
        invariant forall key :: key in buckets <==> key in before && key !in sorted[..i]
        invariant forall key | key in buckets :: buckets[key] == before[key]
      {
        assert sorted[..i + 1] == sorted[..i] + [sorted[i]];
        buckets := buckets - {sorted[i]};
      }
      CutoffIsHeld(before, sorted, log, Secs(), cutoff, keepIdx, buckets);
      if keepIdx > 0 {
        sorted := sorted[keepIdx..];
      }
      log := Kept(log, Secs(), cutoff);
      forall key {
        KeptValues(old(log), Secs(), cutoff, key);
      }
    }

    method Query(start: int, end: int) returns (points: seq<Point>)
      requires Valid()
      ensures IsAnswer(points, log, Secs(), RoundTime(start, Secs()), RoundTime(end, Secs()))
    {
      var startKey, endKey := RoundTime(start, Secs()), RoundTime(end, Secs());
      var startIdx := Search(sorted, startKey);
      ghost var n: nat;
      points, n := CollectPoints(buckets, sorted, startIdx, endKey, log, Secs());
      CollectedIsAnswer(points, buckets, sorted, log, Secs(), startKey, endKey, startIdx, n);
    }

    /** Adds values one after the other, all at the same time. */
    method AddAll(values: seq<real>, timestamp: int)
      requires Valid()
      modifies this
      ensures Valid() && Extends(old(log), log, Secs(), RoundTime(timestamp, Secs()), values)
    {
      for i := 0 to |values|
        invariant Valid() && Extends(old(log), log, Secs(), RoundTime(timestamp, Secs()), values[..i])
      {
        ghost var before := log;
        Add(values[i], timestamp);
        OneMoreValue(old(log), before, Secs(), RoundTime(timestamp, Secs()), values, i, Observation(timestamp, values[i]));
      }
      assert values[..|values|] == values;
    }

    /** Adds all groups, in any order, each at its key. */
    method AddGroups(groups: Groups)
      requires Valid() && log == [] && forall key | key in groups :: RoundTime(key, Secs()) == key
      modifies this
      ensures Valid() && HasGroups(log, Secs(), groups, {})
    {
      var remaining := groups.Keys;
      while remaining != {}
        invariant remaining <= groups.Keys && Valid()
        invariant HasGroups(log, Secs(), groups, remaining)
        decreases remaining
      {
        ghost var some := SomeElement(remaining);
        var groupKey :| groupKey in remaining;
        var allValues := Concatenate(groups[groupKey]);
        ghost var before := log;
        AddAll(allValues, groupKey);
        GroupIsAdded(before, log, Secs(), groups, remaining, groupKey);
        remaining := remaining - {groupKey};
      }
    }

    /** A new series with larger buckets, made from the buckets of this one; nothing for a resolution that is not larger. */
    method Downsample(newResolution: nat) returns (r: TimeSeries?)
      requires Valid()
      ensures r == null <==> newResolution <= resolution
      ensures r != null ==> fresh(r) && r.Valid() && r.resolution == newResolution && r.retention == retention
      ensures r != null ==> IsDownsampling(log, Secs(), r.log, r.Secs())
    {
      if newResolution <= resolution {
        return null;
      }
      r := new TimeSeries(newResolution, retention);
      BucketsHaveValues(buckets, sorted, log, Secs());
      var groups := GroupBuckets(buckets, sorted, r.Secs(), log, Secs());
      r.AddGroups(groups);
      DownsamplingFromGroups(buckets, sorted, groups, log, Secs(), r.log, r.Secs());
    }
  }
}
