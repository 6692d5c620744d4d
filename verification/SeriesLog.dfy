/**
 The log of observations that a time series stands for, and how it falls into buckets. Times are Unix
 seconds; a bucket size is a whole number of seconds.
 */
module SeriesLog {
  import opened Sequences

  datatype Observation = Observation(time: int, value: real)

  type Log = seq<Observation>

  /** The time without its remainder: a multiple of secs, next towards zero. */
  function RoundTime(t: int, secs: nat): int
    requires secs > 0
  {
    if t >= 0 then t - t % secs else t + -t % secs
  }

  /** The values observed in a bucket, in order. */
  ghost function ValuesAt(log: Log, secs: nat, key: int): seq<real>
    requires secs > 0
  {
    ValuesIf(log, secs, k => k == key)
  }

  /** The values of the buckets that p selects, in the order they were observed. */
  ghost function ValuesIf(log: Log, secs: nat, p: int -> bool): seq<real>
    requires secs > 0
  {
    if log == [] then []
    else
      var o := log[|log| - 1];
      ValuesIf(log[..|log| - 1], secs, p) + (if p(RoundTime(o.time, secs)) then [o.value] else [])
  }

  lemma ValuesIfSnoc(log: Log, o: Observation, secs: nat, p: int -> bool)
    requires secs > 0
    ensures ValuesIf(log + [o], secs, p) == ValuesIf(log, secs, p) + (if p(RoundTime(o.time, secs)) then [o.value] else [])
  {
    assert (log + [o])[..|log|] == log;
  }

  lemma {:induction false} ValuesIfSame(log: Log, secs: nat, p: int -> bool, q: int -> bool)
    requires secs > 0 && forall k :: p(k) == q(k)
    ensures ValuesIf(log, secs, p) == ValuesIf(log, secs, q)
  {
    if log != [] {
      ValuesIfSame(log[..|log| - 1], secs, p, q);
    }
  }

  /** The values of the selected buckets, bucket after bucket. */
  ghost function Gather(log: Log, secs: nat, keys: seq<int>, p: int -> bool): seq<real>
    requires secs > 0
  {
    if keys == [] then []
    else
      var key := keys[|keys| - 1];
      Gather(log, secs, keys[..|keys| - 1], p) + (if p(key) then ValuesAt(log, secs, key) else [])
  }

  lemma GatherOneMore(log: Log, secs: nat, keys: seq<int>, key: int, p: int -> bool)
    requires secs > 0
    ensures Gather(log, secs, keys + [key], p) == Gather(log, secs, keys, p) + (if p(key) then ValuesAt(log, secs, key) else [])
  {
    assert (keys + [key])[..|keys|] == keys;
  }

  lemma {:induction false} GatherEmptyLog(secs: nat, keys: seq<int>, p: int -> bool)
    requires secs > 0
    ensures Gather([], secs, keys, p) == []
  {
    if keys != [] {
      GatherEmptyLog(secs, keys[..|keys| - 1], p);
    }
  }

  /** One more observation is gathered once, with its bucket. */
  lemma {:induction false} GatherSnoc(log: Log, o: Observation, secs: nat, keys: seq<int>, p: int -> bool)
    requires secs > 0 && NoDuplicates(keys)
    ensures var key := RoundTime(o.time, secs);
            multiset(Gather(log + [o], secs, keys, p)) ==
            multiset(Gather(log, secs, keys, p)) + (if key in keys && p(key) then multiset{o.value} else multiset{})
  {
    if keys != [] {
      var front, key := keys[..|keys| - 1], keys[|keys| - 1];
      assert keys == front + [key];
      assert key !in front;
      GatherSnoc(log, o, secs, front, p);
      ValuesIfSnoc(log, o, secs, k => k == key);
    }
  }

  /** Going through the buckets meets the same values as going through the log. */
  lemma {:induction false} GatherAll(log: Log, secs: nat, keys: seq<int>, p: int -> bool)
    requires secs > 0 && NoDuplicates(keys)
    requires forall o | o in log && p(RoundTime(o.time, secs)) :: RoundTime(o.time, secs) in keys
    ensures multiset(Gather(log, secs, keys, p)) == multiset(ValuesIf(log, secs, p))
  {
    if log == [] {
      GatherEmptyLog(secs, keys, p);
    } else {
      var front, o := log[..|log| - 1], log[|log| - 1];
      assert log == front + [o];
      GatherAll(front, secs, keys, p);
      GatherSnoc(front, o, secs, keys, p);
    }
  }

  // ---------------------------------------------------------------- dropping old buckets

  /** The observations whose bucket is not before the cutoff. */
  ghost function Kept(log: Log, secs: nat, cutoff: int): Log
    requires secs > 0
  {
    if log == [] then []
    else
      var o := log[|log| - 1];
      Kept(log[..|log| - 1], secs, cutoff) + (if RoundTime(o.time, secs) >= cutoff then [o] else [])
  }

  lemma {:induction false} KeptValues(log: Log, secs: nat, cutoff: int, key: int)
    requires secs > 0
    ensures ValuesAt(Kept(log, secs, cutoff), secs, key) == if key >= cutoff then ValuesAt(log, secs, key) else []
  {
    if log != [] {
      var front, o := log[..|log| - 1], log[|log| - 1];
      KeptValues(front, secs, cutoff, key);
      ValuesIfSnoc(Kept(front, secs, cutoff), o, secs, k => k == key);
      assert Kept(log, secs, cutoff) == if RoundTime(o.time, secs) >= cutoff then Kept(front, secs, cutoff) + [o] else Kept(front, secs, cutoff);
    }
  }

  // ---------------------------------------------------------------- coarser buckets

  /** The log as the buckets remember it: every time rounded. */
  ghost function Rounded(log: Log, secs: nat): Log
    requires secs > 0
  {
    if log == [] then []
    else
      var o := log[|log| - 1];
      Rounded(log[..|log| - 1], secs) + [Observation(RoundTime(o.time, secs), o.value)]
  }

  /** What rounding first to secs and then to newSecs selects. */
  lemma {:induction false} RoundedValues(log: Log, secs: nat, newSecs: nat, key: int)
    requires secs > 0 && newSecs > 0
    ensures ValuesAt(Rounded(log, secs), newSecs, key) == ValuesIf(log, secs, k => RoundTime(k, newSecs) == key)
  {
    if log != [] {
      var front, o := log[..|log| - 1], log[|log| - 1];
      RoundedValues(front, secs, newSecs, key);
      ValuesIfSnoc(Rounded(front, secs), Observation(RoundTime(o.time, secs), o.value), newSecs, k => k == key);
    }
  }

  lemma ProductsKeepOrder(a: int, b: int, c: nat)
    requires a <= b
    ensures a * c <= b * c
  {
    assert (b - a) * c >= 0;
  }

  lemma OrderOfFactors(a: int, b: int, c: nat)
    requires a * c < b * c
    ensures a < b
  {
    if b <= a {
      ProductsKeepOrder(b, a, c);
    }
  }

  lemma QuotientAndRest(t: nat, secs: nat)
    requires secs > 0
    ensures t == t / secs * secs + t % secs
  {}

  /** Quotient and remainder are determined by their sum and the bound on the remainder. */
  lemma QuotientIs(t: nat, secs: nat, q: nat, r: nat)
    requires t == q * secs + r && r < secs
    ensures t / secs == q && t % secs == r
  {
    QuotientAndRest(t, secs);
    assert (q + 1) * secs == q * secs + secs;
    assert (t / secs + 1) * secs == t / secs * secs + secs;
    OrderOfFactors(q, t / secs + 1, secs);
    OrderOfFactors(t / secs, q + 1, secs);
  }

  /** Go's integer division truncates toward zero. */
  function Quotient(t: int, d: nat): int
    requires d > 0
  {
    if t >= 0 then t / d else -(-t / d)
  }

  /** Rounding as the source writes it; the bucket at 0 takes in the times on both sides of 0. */
  lemma RoundTimeIsQuotientTimesSecs(t: int, secs: nat)
    requires secs > 0
    ensures RoundTime(t, secs) == Quotient(t, secs) * secs
  {
    var n: nat := if t >= 0 then t else -t;
    QuotientAndRest(n, secs);
    assert -(n / secs) * secs == -(n / secs * secs);
  }

  /** Times before 0 round like those after it, so that they too move towards 0, by less than a bucket. */
  lemma RoundingIsSymmetric(t: int, secs: nat)
    requires secs > 0
    ensures RoundTime(-t, secs) == -RoundTime(t, secs)
    ensures t >= 0 ==> RoundTime(t, secs) <= t < RoundTime(t, secs) + secs
    ensures t <= 0 ==> RoundTime(t, secs) - secs < t <= RoundTime(t, secs)
  {}

  /** For times that are not negative, a bucket is the interval of its size from its key on. */
  lemma BucketIsAnInterval(t: nat, secs: nat, key: int)
    requires secs > 0
    ensures RoundTime(t, secs) == key <==> 0 <= key <= t < key + secs && key % secs == 0
  {
    RoundedHasNoRest(t, secs);
    if 0 <= key <= t < key + secs && key % secs == 0 {
      QuotientAndRest(key, secs);
      QuotientIs(t, secs, key / secs, t - key);
    }
  }

  lemma RoundedHasNoRest(n: nat, secs: nat)
    requires secs > 0
    ensures n % secs <= n && (n - n % secs) % secs == 0
  {
    QuotientAndRest(n, secs);
    ProductsKeepOrder(0, n / secs, secs);
    QuotientIs(n - n % secs, secs, n / secs, 0);
  }

  lemma RoundTimeIsIdempotent(t: int, secs: nat)
    requires secs > 0
    ensures RoundTime(RoundTime(t, secs), secs) == RoundTime(t, secs)
  {
    RoundedHasNoRest(if t >= 0 then t else -t, secs);
  }

  /** A time made of big buckets, small buckets and a rest. */
  lemma RestOfParts(q: nat, m: nat, s: nat, secs: nat, size: nat, factor: nat)
    requires secs > 0 && size == factor * secs && s < secs && m * secs + s < size
    ensures (q * size + m * secs + s) % secs == s && (q * size + m * secs) % size == m * secs
  {
    ProductsKeepOrder(0, m, secs);
    ProductsKeepOrder(0, q, size);
    assert (q * factor + m) * secs == q * size + m * secs;
    QuotientIs(q * size + m * secs + s, secs, q * factor + m, s);
    QuotientIs(q * size + m * secs, size, q, m * secs);
  }

  /** What is left over a multiple of secs is left over first. */
  lemma RestOfRounded(t: nat, secs: nat, factor: nat, size: nat)
    requires secs > 0 && size > 0 && size == factor * secs
    ensures t % secs <= t && (t - t % secs) % size == t % size - t % secs
  {
    var q, rest := Divide(t, size);
    var m, s := Divide(rest, secs);
    RestFromParts(t, q, m, s, secs, size, factor);
  }

  lemma Divide(t: nat, d: nat) returns (q: nat, r: nat)
    requires d > 0
    ensures t == q * d + r && r < d
  {
    q, r := t / d, t % d;
  }

  lemma RestFromParts(t: nat, q: nat, m: nat, s: nat, secs: nat, size: nat, factor: nat)
    requires secs > 0 && size == factor * secs && s < secs && m * secs + s < size && t == q * size + m * secs + s
    ensures t % secs == s && t - s >= 0 && (t - s) % size == m * secs && t % size == m * secs + s
  {
    RestOfParts(q, m, s, secs, size, factor);
    ProductsKeepOrder(0, q, size);
    ProductsKeepOrder(0, m, secs);
    QuotientIs(t, size, q, m * secs + s);
  }

  lemma RoundingTwice(t: int, secs: nat, newSecs: nat)
    requires secs > 0 && newSecs > 0 && newSecs % secs == 0
    ensures RoundTime(RoundTime(t, secs), newSecs) == RoundTime(t, newSecs)
  {
    QuotientAndRest(newSecs, secs);
    RestOfRounded(if t >= 0 then t else -t, secs, newSecs / secs, newSecs);
  }

  ghost predicate RoundingsCompose(secs: nat, newSecs: nat)
    requires secs > 0 && newSecs > 0
  {
    forall t :: RoundTime(RoundTime(t, secs), newSecs) == RoundTime(t, newSecs)
  }

  /** The start of the first new bucket that no old bucket starts at falls back a bucket. */
  lemma BoundaryMovesBack(secs: nat, newSecs: nat)
    requires secs > 0 && newSecs > 0 && newSecs % secs != 0
    ensures RoundTime(RoundTime(newSecs, secs), newSecs) == 0 && RoundTime(newSecs, newSecs) == newSecs
  {
    QuotientIs(newSecs, newSecs, 1, 0);
    QuotientAndRest(newSecs, secs);
    ProductsKeepOrder(0, newSecs / secs, secs);
    QuotientIs(newSecs - newSecs % secs, newSecs, 0, newSecs - newSecs % secs);
  }

  /** Coarsening twice is coarsening once exactly when the new bucket size is a multiple of the old. */
  lemma RoundingsComposeExactlyForMultiples(secs: nat, newSecs: nat)
    requires secs > 0 && newSecs > 0
    ensures RoundingsCompose(secs, newSecs) <==> newSecs % secs == 0
  {
    if newSecs % secs == 0 {
      forall t: int
        ensures RoundTime(RoundTime(t, secs), newSecs) == RoundTime(t, newSecs)
      {
        RoundingTwice(t, secs, newSecs);
      }
    } else {
      BoundaryMovesBack(secs, newSecs);
    }
  }

  /** Every bucket of a series made from rounded times holds what a series made from the times themselves would. */
  ghost predicate CoarseningIsExact(secs: nat, newSecs: nat)
    requires secs > 0 && newSecs > 0
  {
    forall log: Log, key :: ValuesAt(Rounded(log, secs), newSecs, key) == ValuesAt(log, newSecs, key)
  }

  lemma OneObservation(o: Observation, secs: nat, key: int)
    requires secs > 0
    ensures ValuesAt([o], secs, key) == if RoundTime(o.time, secs) == key then [o.value] else []
  {
    ValuesIfSnoc([], o, secs, k => k == key);
    assert [] + [o] == [o];
  }

  lemma {:induction false} SameRounding(log: Log, secs: nat, newSecs: nat, key: int)
    requires secs > 0 && newSecs > 0 && RoundingsCompose(secs, newSecs)
    ensures ValuesAt(Rounded(log, secs), newSecs, key) == ValuesAt(log, newSecs, key)
  {
    if log != [] {
      var front, o := log[..|log| - 1], log[|log| - 1];
      SameRounding(front, secs, newSecs, key);
      ValuesIfSnoc(Rounded(front, secs), Observation(RoundTime(o.time, secs), o.value), newSecs, k => k == key);
    }
  }

  /** Coarsening loses nothing exactly when the new bucket size is a multiple of the old. */
  lemma CoarseningIsExactForMultiplesOnly(secs: nat, newSecs: nat)
    requires secs > 0 && newSecs > 0
    ensures CoarseningIsExact(secs, newSecs) <==> newSecs % secs == 0
  {
    RoundingsComposeExactlyForMultiples(secs, newSecs);
    if newSecs % secs == 0 {
      forall log: Log, key {
        SameRounding(log, secs, newSecs, key);
      }
    } else {
      var t :| RoundTime(RoundTime(t, secs), newSecs) != RoundTime(t, newSecs);
      var o := Observation(t, 1.0);
      OneObservation(o, newSecs, RoundTime(t, newSecs));
      OneObservation(Observation(RoundTime(t, secs), 1.0), newSecs, RoundTime(t, newSecs));
      assert [o][..0] == [];
      assert Rounded([o], secs) == [Observation(RoundTime(t, secs), 1.0)];
      assert ValuesAt(Rounded([o], secs), newSecs, RoundTime(t, newSecs)) != ValuesAt([o], newSecs, RoundTime(t, newSecs));
    }
  }

  // ---------------------------------------------------------------- conservation

  ghost function Values(log: Log): seq<real> {
    if log == [] then [] else Values(log[..|log| - 1]) + [log[|log| - 1].value]
  }

  lemma {:induction false} AllBuckets(log: Log, secs: nat)
    requires secs > 0
    ensures ValuesIf(log, secs, k => true) == Values(log)
  {
    if log != [] {
      AllBuckets(log[..|log| - 1], secs);
    }
  }

  lemma {:induction false} SameBucketsSameGather(a: Log, b: Log, aSecs: nat, bSecs: nat, keys: seq<int>)
    requires aSecs > 0 && bSecs > 0
    requires forall k :: multiset(ValuesAt(a, aSecs, k)) == multiset(ValuesAt(b, bSecs, k))
    ensures multiset(Gather(a, aSecs, keys, k => true)) == multiset(Gather(b, bSecs, keys, k => true))
  {
    if keys != [] {
      SameBucketsSameGather(a, b, aSecs, bSecs, keys[..|keys| - 1]);
    }
  }

  ghost function KeysOf(log: Log, secs: nat): set<int>
    requires secs > 0
  {
    set o | o in log :: RoundTime(o.time, secs)
  }

  /** Two logs that agree bucket by bucket have the same values in all. */
  lemma SameBucketsSameValues(a: Log, b: Log, secs: nat)
    requires secs > 0 && forall k :: multiset(ValuesAt(a, secs, k)) == multiset(ValuesAt(b, secs, k))
    ensures multiset(Values(a)) == multiset(Values(b))
  {
    var keys := Enumerate(KeysOf(a, secs) + KeysOf(b, secs));
    forall o | o in a || o in b
      ensures RoundTime(o.time, secs) in keys
    {
      assert RoundTime(o.time, secs) in Elements(keys);
    }
    GatherAll(a, secs, keys, k => true);
    GatherAll(b, secs, keys, k => true);
    SameBucketsSameGather(a, b, secs, secs, keys);
    AllBuckets(a, secs);
    AllBuckets(b, secs);
  }

  lemma {:induction false} RoundedKeepsValues(log: Log, secs: nat)
    requires secs > 0
    ensures Values(Rounded(log, secs)) == Values(log)
  {
    if log != [] {
      RoundedKeepsValues(log[..|log| - 1], secs);
    }
  }

  ghost function Total(s: seq<real>): real {
    if s == [] then 0.0 else Total(s[..|s| - 1]) + s[|s| - 1]
  }

  lemma {:induction false} TotalConcat(s: seq<real>, t: seq<real>)
    ensures Total(s + t) == Total(s) + Total(t)
  {
    if t == [] {
      assert s + t == s;
    } else {
      TotalConcat(s, t[..|t| - 1]);
      assert (s + t)[..|s + t| - 1] == s + t[..|t| - 1];
    }
  }

  lemma {:induction false} TotalOfPermutation(s: seq<real>, t: seq<real>)
    requires multiset(s) == multiset(t)
    ensures Total(s) == Total(t)
  {
    if s == [] {
      assert |multiset(t)| == 0;
    } else {
      var before, after := RemoveLast(s, t);
      TotalOfPermutation(s[..|s| - 1], before + after);
      TotalConcat(before + [s[|s| - 1]], after);
      TotalConcat(before, after);
      assert (before + [s[|s| - 1]])[..|before|] == before;
    }
  }
}
