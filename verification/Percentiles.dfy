/** Percentiles of a bucket's values by linear interpolation between the two nearest ranks. */
module Percentiles {

  ghost predicate Ascending(s: seq<real>) {
    forall i, j | 0 <= i <= j < |s| :: s[i] <= s[j]
  }

  // ---------------------------------------------------------------- sort.Float64s

  function Insert(s: seq<real>, v: real): seq<real> {
    if s == [] || s[|s| - 1] <= v then s + [v]
    else Insert(s[..|s| - 1], v) + [s[|s| - 1]]
  }

  function Sorted(s: seq<real>): seq<real> {
    if s == [] then [] else Insert(Sorted(s[..|s| - 1]), s[|s| - 1])
  }

  lemma AppendLargest(front: seq<real>, v: real, r: seq<real>, last: real)
    requires Ascending(r) && multiset(r) == multiset(front) + multiset{v}
    requires v <= last && forall i | 0 <= i < |front| :: front[i] <= last
    ensures Ascending(r + [last])
  {
    forall i | 0 <= i < |r|
      ensures r[i] <= last
    {
      assert r[i] in multiset(r);
    }
  }

  lemma {:induction false} InsertKeepsOrder(s: seq<real>, v: real)
    requires Ascending(s)
    ensures Ascending(Insert(s, v)) && multiset(Insert(s, v)) == multiset(s) + multiset{v}
  {
    if s != [] && s[|s| - 1] > v {
      var front, last := s[..|s| - 1], s[|s| - 1];
      InsertKeepsOrder(front, v);
      assert s == front + [last];
      AppendLargest(front, v, Insert(front, v), last);
    }
  }

  lemma {:induction false} SortedIsAscending(s: seq<real>)
    ensures Ascending(Sorted(s)) && multiset(Sorted(s)) == multiset(s) && |Sorted(s)| == |s|
  {
    if s != [] {
      var front, last := s[..|s| - 1], s[|s| - 1];
      SortedIsAscending(front);
      InsertKeepsOrder(Sorted(front), last);
      assert s == front + [last];
      assert |multiset(Sorted(s))| == |multiset(s)|;
    }
  }

  // ---------------------------------------------------------------- interpolation

  /** The position of a percentile among n sorted values, which may fall between two of them. */
  function Rank(n: nat, p: real): real
    requires n > 0
  {
    p * (n - 1) as real
  }

  function Percentile(sorted: seq<real>, p: real): real
    requires 0.0 <= p < 1.0
  {
    if sorted == [] then 0.0
    else
      var index := Rank(|sorted|, p);
      RankBounds(|sorted|, p);
      var lower := index.Floor;
      var upper := lower + 1;
      if upper >= |sorted| then sorted[lower]
      else
        var weight := index - lower as real;
        sorted[lower] * (1.0 - weight) + sorted[upper] * weight
  }

  /** For the rank k + w among the values, with a whole number k and a fraction w, the percentile lies that fraction of the way from k to the next. */
  lemma PercentileInterpolates(s: seq<real>, p: real, k: nat, w: real)
    requires s != [] && 0.0 <= p < 1.0 && 0.0 <= w < 1.0 && p * (|s| - 1) as real == k as real + w
    ensures k < |s|
    ensures k + 1 < |s| ==> Percentile(s, p) - s[k] == w * (s[k + 1] - s[k])
    ensures k + 1 == |s| ==> Percentile(s, p) == s[k]
  {
    RankBounds(|s|, p);
    assert Rank(|s|, p).Floor == k;
    if k + 1 < |s| {
      Fraction(s[k], s[k + 1], w);
    }
  }

  lemma Fraction(a: real, b: real, w: real)
    ensures a * (1.0 - w) + b * w - a == w * (b - a)
  {}

  /** The median of an odd number of values is the middle one, of an even number the mean of the two in the middle. */
  lemma MedianIsInTheMiddle(s: seq<real>)
    requires s != []
    ensures |s| % 2 == 1 ==> Percentile(s, 0.5) == s[|s| / 2]
    ensures |s| % 2 == 0 ==> Percentile(s, 0.5) == (s[|s| / 2 - 1] + s[|s| / 2]) / 2.0
  {
    if |s| % 2 == 1 {
      PercentileInterpolates(s, 0.5, |s| / 2, 0.0);
    } else {
      PercentileInterpolates(s, 0.5, |s| / 2 - 1, 0.5);
    }
  }

  lemma RankBounds(n: nat, p: real)
    requires n > 0 && 0.0 <= p < 1.0
    ensures 0.0 <= Rank(n, p) <= (n - 1) as real
    ensures 0 <= Rank(n, p).Floor < n
  {
    var m := (n - 1) as real;
    assert m >= 0.0;
    ProductIsNonNegative(p, m);
    ProductIsNonNegative(1.0 - p, m);
    assert (1.0 - p) * m == m - p * m;
  }

  lemma ProductIsNonNegative(a: real, b: real)
    requires a >= 0.0 && b >= 0.0
    ensures a * b >= 0.0
  {}

  lemma Between(a: real, b: real, w: real)
    requires a <= b && 0.0 <= w <= 1.0
    ensures a <= a * (1.0 - w) + b * w <= b
  {
    ProductIsNonNegative(b - a, w);
    ProductIsNonNegative(b - a, 1.0 - w);
    assert a * (1.0 - w) + b * w == a + (b - a) * w == b - (b - a) * (1.0 - w);
  }

  lemma InterpolationGrows(a: real, b: real, w: real, x: real)
    requires a <= b && w <= x
    ensures a * (1.0 - w) + b * w <= a * (1.0 - x) + b * x
  {
    ProductIsNonNegative(b - a, x - w);
    assert a * (1.0 - w) + b * w == a + (b - a) * w;
    assert a * (1.0 - x) + b * x == a + (b - a) * x;
    assert (b - a) * x == (b - a) * w + (b - a) * (x - w);
  }

  /** The percentile lies between the two values it interpolates. */
  lemma PercentileIsBetweenRanks(s: seq<real>, p: real)
    requires Ascending(s) && s != [] && 0.0 <= p < 1.0
    ensures var lower := Rank(|s|, p).Floor;
            0 <= lower < |s| && s[lower] <= Percentile(s, p) <= s[if lower + 1 < |s| then lower + 1 else lower]
  {
    RankBounds(|s|, p);
    var index := Rank(|s|, p);
    var lower := index.Floor;
    if lower + 1 < |s| {
      Between(s[lower], s[lower + 1], index - lower as real);
    }
  }

  lemma RanksAreOrdered(n: nat, p: real, q: real)
    requires n > 0 && p <= q
    ensures Rank(n, p) <= Rank(n, q)
  {
    ProductIsNonNegative(q - p, (n - 1) as real);
    assert (q - p) * (n - 1) as real == q * (n - 1) as real - p * (n - 1) as real;
  }

  lemma SameRanks(s: seq<real>, p: real, q: real)
    requires Ascending(s) && s != [] && 0.0 <= p <= q < 1.0
    requires Rank(|s|, p).Floor == Rank(|s|, q).Floor < |s| - 1
    ensures Percentile(s, p) <= Percentile(s, q)
  {
    RankBounds(|s|, p);
    RanksAreOrdered(|s|, p, q);
    var i, j := Rank(|s|, p), Rank(|s|, q);
    var lower := i.Floor;
    assert j.Floor == lower;
    InterpolationGrows(s[lower], s[lower + 1], i - lower as real, j - lower as real);
  }

  /** Percentiles stay within the values, and a higher one is never smaller. */
  lemma PercentilesAreMonotone(s: seq<real>, p: real, q: real)
    requires Ascending(s) && s != [] && 0.0 <= p <= q < 1.0
    ensures s[0] <= Percentile(s, p) <= Percentile(s, q) <= s[|s| - 1]
  {
    PercentileIsBetweenRanks(s, p);
    PercentileIsBetweenRanks(s, q);
    RanksAreOrdered(|s|, p, q);
    var i, j := Rank(|s|, p), Rank(|s|, q);
    if i.Floor == j.Floor && i.Floor + 1 < |s| {
      SameRanks(s, p, q);
    }
  }
}
