/** The latency histogram: bucket counters updated in place, and what they say about the samples. */
module Metrics {
  import opened Prelude

  const MS: int := 1_000_000

  const BOUNDS: seq<int> := [1 * MS, 5 * MS, 10 * MS, 25 * MS, 50 * MS, 100 * MS, 250 * MS, 500 * MS, 1000 * MS]

  const BUCKETS: nat := 10

  /** Int64 wrap-around of a Duration. */
  function WrapDuration(d: int): int { (d + TWO_63) % TWO_64 - TWO_63 }

  function Sum(s: seq<int>): int { if s == [] then 0 else Sum(s[..|s| - 1]) + s[|s| - 1] }

  /** How many samples are at most x. */
  function AtMost(s: seq<int>, x: int): nat {
    if s == [] then 0 else AtMost(s[..|s| - 1], x) + if s[|s| - 1] <= x then 1 else 0
  }

  /** The samples that fall into the first i + 1 buckets. */
  function Cumulative(s: seq<int>, i: nat): nat
    requires i < BUCKETS
  {
    if i < |BOUNDS| then AtMost(s, BOUNDS[i]) else |s|
  }

  /** The sample belongs to bucket i: above the previous bound, at most its own. */
  predicate Falls(d: int, i: nat)
    requires i < BUCKETS
  {
    (i > 0 ==> BOUNDS[i - 1] < d) && (i < |BOUNDS| ==> d <= BOUNDS[i])
  }

  /** How many samples belong to bucket i. */
  function InBucket(s: seq<int>, i: nat): nat
    requires i < BUCKETS
  {
    if s == [] then 0 else InBucket(s[..|s| - 1], i) + if Falls(s[|s| - 1], i) then 1 else 0
  }

  /** A bucket holds what its bound admits and the previous bound does not. */
  lemma {:induction false} BucketIsDifference(s: seq<int>, i: nat)
    requires i < BUCKETS
    ensures Cumulative(s, i) == InBucket(s, i) + if i == 0 then 0 else Cumulative(s, i - 1)
  {
    if s != [] {
      BucketIsDifference(s[..|s| - 1], i);
    }
  }

  lemma {:induction false} AtMostMonotone(s: seq<int>, x: int, y: int)
    requires x <= y
    ensures AtMost(s, x) <= AtMost(s, y) <= |s|
  {
    if s != [] {
      AtMostMonotone(s[..|s| - 1], x, y);
    }
  }

  lemma CumulativeMonotone(s: seq<int>, i: nat, k: nat)
    requires i <= k < BUCKETS
    ensures Cumulative(s, i) <= Cumulative(s, k) <= |s|
  {
    AtMostMonotone(s, BOUNDS[if i < |BOUNDS| then i else 0], BOUNDS[if k < |BOUNDS| then k else 8]);
  }

  /** Every duration belongs to one bucket: up to 1, 5, 10, 25, 50, 100, 250, 500, 1000 ms, or above. */
  lemma BucketsPartition(d: int) returns (i: nat)
    ensures i < BUCKETS && forall k :: 0 <= k < BUCKETS ==> (Falls(d, k) <==> k == i)
    ensures
      if d <= 1_000_000 then i == 0
      else if d <= 5_000_000 then i == 1
      else if d <= 10_000_000 then i == 2
      else if d <= 25_000_000 then i == 3
      else if d <= 50_000_000 then i == 4
      else if d <= 100_000_000 then i == 5
      else if d <= 250_000_000 then i == 6
      else if d <= 500_000_000 then i == 7
      else if d <= 1_000_000_000 then i == 8
      else i == 9
  {
    i := 0;
    while i < |BOUNDS| && d > BOUNDS[i]
      invariant i <= |BOUNDS|
      invariant forall k :: 0 <= k < i ==> d > BOUNDS[k]
    {
      i := i + 1;
    }
    assert BOUNDS[0] == 1_000_000 && BOUNDS[1] == 5_000_000 && BOUNDS[2] == 10_000_000;
    assert BOUNDS[3] == 25_000_000 && BOUNDS[4] == 50_000_000 && BOUNDS[5] == 100_000_000;
    assert BOUNDS[6] == 250_000_000 && BOUNDS[7] == 500_000_000 && BOUNDS[8] == 1_000_000_000;
  }

  /** One more sample moves exactly the counter of the first bucket whose bound admits it. */
  lemma ObserveStep(s: seq<int>, d: int, i: nat, hit: nat)
    requires i < BUCKETS && hit < BUCKETS
    requires forall k :: 0 <= k < hit && k < |BOUNDS| ==> d > BOUNDS[k]
    requires hit < |BOUNDS| ==> d <= BOUNDS[hit]
    ensures InBucket(s + [d], i) == InBucket(s, i) + if i == hit then 1 else 0
  {
    var own := BucketsPartition(d);
    assert (s + [d])[..|s + [d]| - 1] == s;
  }

  /** min and max of the samples, both zero when there are none. */
  ghost predicate Extremes(s: seq<int>, min: int, max: int) {
    && (forall d :: d in s ==> 0 <= d && min <= d <= max)
    && (if s == [] then min == max == 0 else min in s && max in s)
  }

  lemma ExtremesStep(s: seq<int>, min: int, max: int, d: int)
    requires Extremes(s, min, max) && d >= 0
    ensures Extremes(s + [d], if s == [] || d < min then d else min, if d > max then d else max)
  {
    assert forall x :: x in s + [d] <==> x in s || x == d;
    if s != [] {
      assert max in s;
    }
  }

  lemma SumStep(s: seq<int>, d: int)
    ensures Sum(s + [d]) == Sum(s) + d
    ensures WrapDuration(WrapDuration(Sum(s)) + d) == WrapDuration(Sum(s + [d]))
  {
    assert (s + [d])[..|s + [d]| - 1] == s;
  }

  /** le_<bound> or gt_<last bound> in a snapshot. */
  datatype Label = AtMostLabel(index: nat) | AboveLabel

  function LabelsTo(n: nat): set<Label> {
    (set i | 0 <= i < n && i < |BOUNDS| :: AtMostLabel(i)) + if n == BUCKETS then {AboveLabel} else {}
  }

  function AllLabels(): set<Label> { LabelsTo(BUCKETS) }

  lemma {:induction false} SumBounds(s: seq<int>, min: int, max: int)
    requires forall d :: d in s ==> min <= d <= max
    ensures min * |s| <= Sum(s) <= max * |s|
  {
    if s != [] {
      var init := s[..|s| - 1];
      assert forall d :: d in init ==> d in s;
      assert s[|s| - 1] in s;
      SumBounds(init, min, max);
      Distribute(min, |init|);
      Distribute(max, |init|);
    }
  }

  lemma TimesMonotone(n: nat, a: int, b: int)
    requires a <= b
    ensures n * a <= n * b
  {
    assert n * b == n * a + n * (b - a);
  }

  lemma CancelFactor(n: nat, a: int, b: int)
    requires n * a < n * b
    ensures a < b
  {
    if b <= a {
      TimesMonotone(n, b, a);
    }
  }

  lemma QuotientBounds(sum: int, n: nat, min: int, max: int)
    requires n > 0 && min * n <= sum <= max * n
    ensures min <= sum / n <= max
  {
    var q := sum / n;
    assert n * q <= sum < n * (q + 1);
    assert n * (max + 1) == max * n + n;
    CancelFactor(n, min, q + 1);
    CancelFactor(n, q, max + 1);
  }

  class Histogram {
    var count: nat
    var total: int
    var min: int
    var max: int
    const buckets: array<nat>
    ghost var samples: seq<int>

    ghost predicate Valid()
      reads this, buckets
    {
      && buckets.Length == BUCKETS
      && count == |samples| < TWO_64
      && Extremes(samples, min, max)
      && total == WrapDuration(Sum(samples))
      && forall i :: 0 <= i < BUCKETS ==> buckets[i] == InBucket(samples, i)
    }

    constructor ()
      ensures Valid() && samples == [] && fresh(buckets)
    {
      count, total, min, max := 0, 0, 0, 0;
      buckets := new nat[BUCKETS](_ => 0);
      samples := [];
    }

    method Observe(duration: int)
      requires Valid() && |samples| + 1 < TWO_64 && duration >= 0
      modifies this, buckets
      ensures Valid() && samples == old(samples) + [duration]
    {
      ExtremesStep(samples, min, max, duration);
      SumStep(samples, duration);
      if count == 0 || duration < min {
        min := duration;
      }
      if duration > max {
        max := duration;
      }
      count := count + 1;
      total := WrapDuration(total + duration);
      samples := samples + [duration];

      CountInBucket(duration, old(samples));
    }

    /** The loop over the bounds: the counter of the first bucket that admits the duration goes up. */
    method CountInBucket(duration: int, ghost before: seq<int>)
      requires buckets.Length == BUCKETS
      requires forall i :: 0 <= i < BUCKETS ==> buckets[i] == InBucket(before, i)
      modifies buckets
      ensures forall i :: 0 <= i < BUCKETS ==> buckets[i] == InBucket(before + [duration], i)
    {
      var index := 0;
      while index < |BOUNDS| && duration > BOUNDS[index]
        invariant 0 <= index <= |BOUNDS|
        invariant forall k :: 0 <= k < index ==> duration > BOUNDS[k]
      {
        index := index + 1;
      }
      forall i | 0 <= i < BUCKETS
        ensures InBucket(before + [duration], i) == InBucket(before, i) + if i == index then 1 else 0
      {
        ObserveStep(before, duration, i, index);
      }
      buckets[index] := buckets[index] + 1;
    }

    /** The cumulative counters of a snapshot: le_ for each bound, gt_ for the rest. */
    method BucketSnapshot() returns (snapshot: map<Label, nat>)
      requires Valid()
      ensures snapshot.Keys == AllLabels()
      ensures forall i :: 0 <= i < |BOUNDS| ==> snapshot[AtMostLabel(i)] == AtMost(samples, BOUNDS[i])
      ensures snapshot[AboveLabel] == |samples| - AtMost(samples, BOUNDS[|BOUNDS| - 1])
    {
      snapshot := map[];
      var cumulative := 0;
      for index := 0 to BUCKETS
        invariant cumulative == if index == 0 then 0 else if index <= |BOUNDS| then Cumulative(samples, index - 1)
                                else Cumulative(samples, |BOUNDS| - 1)
        invariant snapshot.Keys == LabelsTo(index)
        invariant forall i :: 0 <= i < index && i < |BOUNDS| ==> snapshot[AtMostLabel(i)] == AtMost(samples, BOUNDS[i])
        invariant index == BUCKETS ==> snapshot[AboveLabel] == |samples| - AtMost(samples, BOUNDS[|BOUNDS| - 1])
      {
        BucketIsDifference(samples, index);
        if index < |BOUNDS| {
          cumulative := cumulative + buckets[index];
          snapshot := snapshot[AtMostLabel(index) := cumulative];
        } else {
          snapshot := snapshot[AboveLabel := buckets[index]];
        }
      }
    }

    /** The average of a snapshot, before its conversion to milliseconds. */
    method Average() returns (average: int)
      requires Valid() && count > 0
      ensures average == AverageOf(samples)
    {
      average := WrapDuration(TruncatedQuotient(total, WrapDuration(count)));
    }

    /**
     * The value reported for the threshold's rank; only an empty histogram or a percentile above 100
     * can reach the final fallback.
     */
    method PercentileUpperBound(percentile: nat) returns (bound: int)
      requires Valid()
      ensures count > 0 && 1 <= percentile <= 100 ==>
        Threshold(count, percentile) <= |samples| && bound == Reported(samples, max, Threshold(count, percentile))
      ensures bound ==
        if Threshold(count, percentile) <= |samples| then Reported(samples, max, Threshold(count, percentile)) else max
    {
      if count > 0 && 1 <= percentile <= 100 {
        ThresholdIsNearestRank(count, percentile);
      }
      var threshold := Threshold(count, percentile);
      var seen := 0;
      for index := 0 to BUCKETS
        invariant seen == if index == 0 then 0 else Cumulative(samples, index - 1)
        invariant forall k :: 0 <= k < index ==> Cumulative(samples, k) < threshold
      {
        BucketIsDifference(samples, index);
        seen := seen + buckets[index];
        if seen >= threshold {
          CumulativeMonotone(samples, index, BUCKETS - 1);
          RankBucketIs(samples, threshold, index);
          return if index < |BOUNDS| then BOUNDS[index] else max;
        }
      }
      return max;
    }
  }

  /** ceil(m / 100) in uint64 arithmetic, at least 1. */
  function RankOf(m: nat): nat {
    var t := (m % TWO_64 + 99) % TWO_64 / 100;
    if t == 0 then 1 else t
  }

  /** The threshold of the nearest-rank method. */
  function Threshold(count: nat, percentile: nat): nat { RankOf(count * percentile) }

  /** The least t with percentile / 100 * count <= t, on unbounded integers. */
  function NearestRank(count: nat, percentile: nat): nat { (count * percentile + 99) / 100 }

  lemma RankOfVersusCeiling(m: nat)
    requires 0 < m
    ensures 1 <= RankOf(m) && 100 * ((m + 99) / 100 - 1) < m <= 100 * ((m + 99) / 100)
    ensures if m + 99 < TWO_64 then RankOf(m) == (m + 99) / 100 else RankOf(m) < (m + 99) / 100
  {
  }

  /**
   * The threshold is the nearest rank exactly when count * percentile + 99 fits a uint64, and falls
   * short of it otherwise.  Wrapped or not, it is a valid rank, so the loop returns from a bucket.
   */
  lemma ThresholdIsNearestRank(count: nat, p: nat)
    requires 0 < count && 1 <= p <= 100
    ensures 1 <= Threshold(count, p) <= NearestRank(count, p) <= count
    ensures Threshold(count, p) == NearestRank(count, p) <==> count * p + 99 < TWO_64
    ensures 100 * (NearestRank(count, p) - 1) < count * p <= 100 * NearestRank(count, p)
  {
    TimesMonotone(count, 1, p);
    TimesMonotone(count, p, 100);
    RankOfVersusCeiling(count * p);
  }

  /** A count at which the 100th percentile has wrapped around to the first rank, and the 99th has not. */
  const WRAPPING_COUNT: nat := 184_467_440_737_095_516

  lemma ThresholdWraps()
    ensures Threshold(WRAPPING_COUNT, 100) == 1 && NearestRank(WRAPPING_COUNT, 100) == WRAPPING_COUNT
    ensures Threshold(WRAPPING_COUNT, 99) == NearestRank(WRAPPING_COUNT, 99) == 182_622_766_329_724_561
  {
  }

  lemma ThresholdMonotone(count: nat, p: nat, q: nat)
    requires 0 < count && 1 <= p <= q <= 100 && count * q + 99 < TWO_64
    ensures Threshold(count, p) <= Threshold(count, q)
  {
    TimesMonotone(count, 1, p);
    TimesMonotone(count, p, q);
    RankOfVersusCeiling(count * p);
    RankOfVersusCeiling(count * q);
  }

  /** The bucket in which the cumulative count first reaches t. */
  function RankBucket(s: seq<int>, t: nat): (i: nat)
    requires t <= |s|
    ensures i < BUCKETS && t <= Cumulative(s, i)
    ensures forall k :: 0 <= k < i ==> Cumulative(s, k) < t
  {
    RankBucketFrom(s, t, 0)
  }

  function RankBucketFrom(s: seq<int>, t: nat, from: nat): (i: nat)
    requires t <= |s| && from < BUCKETS
    requires forall k :: 0 <= k < from ==> Cumulative(s, k) < t
    ensures i < BUCKETS && t <= Cumulative(s, i)
    ensures forall k :: 0 <= k < i ==> Cumulative(s, k) < t
    decreases BUCKETS - from
  {
    if t <= Cumulative(s, from) then from else RankBucketFrom(s, t, from + 1)
  }

  lemma RankBucketIs(s: seq<int>, t: nat, i: nat)
    requires t <= |s| && i < BUCKETS && t <= Cumulative(s, i)
    requires forall k :: 0 <= k < i ==> Cumulative(s, k) < t
    ensures RankBucket(s, t) == i
  {
  }

  lemma RankBucketMonotone(s: seq<int>, t: nat, u: nat)
    requires t <= u <= |s|
    ensures RankBucket(s, t) <= RankBucket(s, u)
  {
  }

  // ---------------------------------------------------------------------------------------------
  // Percentiles
  // ---------------------------------------------------------------------------------------------

  ghost predicate Sorted(s: seq<int>) { forall i, k :: 0 <= i <= k < |s| ==> s[i] <= s[k] }

  /** AtMost depends only on the multiset of samples. */
  lemma {:induction false} AtMostOfPermutation(s: seq<int>, u: seq<int>, x: int)
    requires multiset(s) == multiset(u)
    ensures AtMost(s, x) == AtMost(u, x)
  {
    if s != [] {
      var last := s[|s| - 1];
      var init := s[..|s| - 1];
      assert s == init + [last];
      assert last in multiset(u);
      var k :| 0 <= k < |u| && u[k] == last;
      var rest := u[..k] + u[k + 1..];
      assert u == u[..k] + [last] + u[k + 1..];
      assert multiset(init) == multiset(s) - multiset{last};
      assert multiset(rest) == multiset(u) - multiset{last};
      AtMostOfPermutation(init, rest, x);
      AtMostRemove(u[..k], last, u[k + 1..], x);
    } else {
      assert |multiset(u)| == 0;
    }
  }

  lemma {:induction false} AtMostConcat(a: seq<int>, b: seq<int>, x: int)
    ensures AtMost(a + b, x) == AtMost(a, x) + AtMost(b, x)
  {
    if b == [] {
      assert a + b == a;
    } else {
      assert (a + b)[..|a + b| - 1] == a + b[..|b| - 1];
      AtMostConcat(a, b[..|b| - 1], x);
    }
  }

  lemma AtMostRemove(a: seq<int>, d: int, b: seq<int>, x: int)
    ensures AtMost(a + [d] + b, x) == AtMost(a + b, x) + if d <= x then 1 else 0
  {
    AtMostConcat(a + [d], b, x);
    AtMostConcat(a, b, x);
    assert (a + [d])[..|a + [d]| - 1] == a;
  }

  /** In a sorted sequence, the first t elements are at most x exactly when the count says so. */
  lemma {:induction false} SortedRank(s: seq<int>, t: nat, x: int)
    requires Sorted(s) && 1 <= t <= |s|
    ensures t <= AtMost(s, x) <==> s[t - 1] <= x
  {
    if t == |s| {
      AtMostMonotone(s[..|s| - 1], x, x);
      if s[t - 1] <= x {
        AllCounted(s, x);
      }
    } else {
      SortedRank(s[..|s| - 1], t, x);
    }
  }

  lemma {:induction false} AllCounted(s: seq<int>, x: int)
    requires forall i :: 0 <= i < |s| ==> s[i] <= x
    ensures AtMost(s, x) == |s|
  {
    if s != [] {
      AllCounted(s[..|s| - 1], x);
    }
  }

  /**
   * Percentile bracketing: the element of rank t of the sorted samples lies in the bucket that the
   * histogram finds, so it is above the bucket's lower bound and at most the reported value.
   */
  lemma NearestRankInBucket(samples: seq<int>, sorted: seq<int>, t: nat)
    requires Sorted(sorted) && multiset(sorted) == multiset(samples)
    requires 1 <= t <= |samples|
    ensures |sorted| == |samples|
    ensures var i := RankBucket(samples, t);
      && (i < |BOUNDS| ==> sorted[t - 1] <= BOUNDS[i])
      && (i > 0 ==> BOUNDS[i - 1] < sorted[t - 1])
  {
    assert |multiset(sorted)| == |multiset(samples)|;
    var i := RankBucket(samples, t);
    if i < |BOUNDS| {
      AtMostOfPermutation(samples, sorted, BOUNDS[i]);
      SortedRank(sorted, t, BOUNDS[i]);
    }
    if i > 0 {
      assert Cumulative(samples, i - 1) < t;
      AtMostOfPermutation(samples, sorted, BOUNDS[i - 1]);
      SortedRank(sorted, t, BOUNDS[i - 1]);
    }
  }

  /** The value that the histogram reports for rank t. */
  function Reported(samples: seq<int>, max: int, t: nat): int
    requires t <= |samples|
  {
    var i := RankBucket(samples, t);
    if i < |BOUNDS| then BOUNDS[i] else max
  }

  /** sorted is samples in order, and max bounds them all. */
  ghost predicate Ordered(samples: seq<int>, sorted: seq<int>, max: int) {
    Sorted(sorted) && multiset(sorted) == multiset(samples) && forall d :: d in samples ==> d <= max
  }

  /** The nearest-rank percentile is at most the reported value and above the bound before it. */
  ghost predicate Bracketed(samples: seq<int>, sorted: seq<int>, max: int, p: nat) {
    var t, n := Threshold(|samples|, p), NearestRank(|samples|, p);
    && t <= |samples| && 1 <= n <= |sorted|
    && sorted[n - 1] <= Reported(samples, max, t)
    && (RankBucket(samples, t) > 0 ==> BOUNDS[RankBucket(samples, t) - 1] < sorted[n - 1])
  }

  lemma PercentileBracket(samples: seq<int>, sorted: seq<int>, max: int, p: nat)
    requires Ordered(samples, sorted, max) && samples != []
    requires 1 <= p <= 100 && |samples| * p + 99 < TWO_64
    ensures Bracketed(samples, sorted, max, p)
  {
    ThresholdIsNearestRank(|samples|, p);
    var t := Threshold(|samples|, p);
    NearestRankInBucket(samples, sorted, t);
    assert sorted[t - 1] in multiset(sorted);
    assert sorted[t - 1] in samples;
  }

  /** t samples of no time at all, and the rest of two seconds. */
  function FastThenSlow(count: nat, t: nat): (s: seq<int>)
    ensures |s| == count
  {
    seq(count, i => if i < t then 0 else 2000 * MS)
  }

  /** Up to rank t the fast bound is reported, and from there on the maximum. */
  lemma FastThenSlowReports(count: nat, t: nat, u: nat)
    requires 1 <= t <= count && 1 <= u <= count
    ensures var s := FastThenSlow(count, t);
      Reported(s, 2000 * MS, u) == if u <= t then BOUNDS[0] else 2000 * MS
  {
    var s := FastThenSlow(count, t);
    SortedRank(s, t, BOUNDS[0]);
    if u <= t {
      RankBucketIs(s, u, 0);
    } else {
      SortedRank(s, u, BOUNDS[|BOUNDS| - 1]);
      RankBucketPast(s, u, |BOUNDS| - 1);
    }
  }

  lemma RankBucketPast(s: seq<int>, t: nat, i: nat)
    requires t <= |s| && i < BUCKETS && Cumulative(s, i) < t
    ensures RankBucket(s, t) > i
  {
    if RankBucket(s, t) <= i {
      CumulativeMonotone(s, RankBucket(s, t), i);
    }
  }

  /** Beyond the range, fast samples up to the wrapped rank and slow ones after it are reported as fast. */
  lemma BracketFailsBeyond(count: nat, p: nat) returns (samples: seq<int>, max: int)
    requires 0 < count && 1 <= p <= 100 && count * p + 99 >= TWO_64
    ensures |samples| == count && Ordered(samples, samples, max) && !Bracketed(samples, samples, max, p)
  {
    ThresholdIsNearestRank(count, p);
    samples, max := FastThenSlow(count, Threshold(count, p)), 2000 * MS;
    FastThenSlowReports(count, Threshold(count, p), Threshold(count, p));
  }

  /**
   * Percentile bracketing, exactly: it holds for all sample sequences of a given length if and only
   * if count * percentile + 99 fits a uint64.
   */
  lemma PercentileBracketExactly(count: nat, p: nat)
    requires 0 < count && 1 <= p <= 100
    ensures count * p + 99 < TWO_64 <==>
      forall samples, sorted, max ::
        |samples| == count && Ordered(samples, sorted, max) ==> Bracketed(samples, sorted, max, p)
  {
    if count * p + 99 < TWO_64 {
      forall samples, sorted, max | |samples| == count && Ordered(samples, sorted, max)
        ensures Bracketed(samples, sorted, max, p)
      {
        PercentileBracket(samples, sorted, max, p);
      }
    } else {
      var samples, max := BracketFailsBeyond(count, p);
    }
  }

  ghost predicate Maximum(samples: seq<int>, max: int) { max in samples && forall d :: d in samples ==> d <= max }

  /** Higher ranks report higher values; the maximum closes the scale. */
  lemma ReportedMonotone(samples: seq<int>, max: int, t: nat, u: nat)
    requires 1 <= t <= u <= |samples| && Maximum(samples, max)
    ensures Reported(samples, max, t) <= Reported(samples, max, u)
  {
    RankBucketMonotone(samples, t, u);
    if max <= BOUNDS[|BOUNDS| - 1] {
      NoOverflow(samples, max);
    }
  }

  /** The value reported for percentile q is no lower than the one reported for p. */
  ghost predicate Climbs(samples: seq<int>, max: int, p: nat, q: nat) {
    var t, u := Threshold(|samples|, p), Threshold(|samples|, q);
    t <= |samples| && u <= |samples| && Reported(samples, max, t) <= Reported(samples, max, u)
  }

  /** When the threshold of q has fallen below that of p, so does what is reported for some samples. */
  lemma ClimbFails(count: nat, p: nat, q: nat) returns (samples: seq<int>, max: int)
    requires 0 < count && 1 <= p <= 100 && 1 <= q <= 100 && Threshold(count, q) < Threshold(count, p)
    ensures |samples| == count && Maximum(samples, max) && !Climbs(samples, max, p, q)
  {
    ThresholdIsNearestRank(count, p);
    ThresholdIsNearestRank(count, q);
    var t := Threshold(count, q);
    samples, max := FastThenSlow(count, t), 2000 * MS;
    FastThenSlowReports(count, t, t);
    FastThenSlowReports(count, t, Threshold(count, p));
    assert samples[count - 1] == max;
  }

  /**
   * One percentile reports no less than another for all samples of a given length if and only if its
   * threshold, as computed, is no lower.
   */
  lemma PercentileMonotoneExactly(count: nat, p: nat, q: nat)
    requires 0 < count && 1 <= p <= 100 && 1 <= q <= 100
    ensures Threshold(count, p) <= Threshold(count, q) <==>
      forall samples, max :: |samples| == count && Maximum(samples, max) ==> Climbs(samples, max, p, q)
  {
    if Threshold(count, p) <= Threshold(count, q) {
      ThresholdIsNearestRank(count, p);
      ThresholdIsNearestRank(count, q);
      forall samples, max | |samples| == count && Maximum(samples, max) ensures Climbs(samples, max, p, q) {
        ReportedMonotone(samples, max, Threshold(count, p), Threshold(count, q));
      }
    } else {
      var samples, max := ClimbFails(count, p, q);
    }
  }

  /** Higher percentiles report higher values as long as the product fits a uint64. */
  lemma PercentileMonotone(samples: seq<int>, max: int, p: nat, q: nat)
    requires Maximum(samples, max) && 1 <= p <= q <= 100 && |samples| * q + 99 < TWO_64
    ensures Climbs(samples, max, p, q)
  {
    ThresholdMonotone(|samples|, p, q);
    PercentileMonotoneExactly(|samples|, p, q);
  }

  /** Past it they need not: samples whose 100th percentile is reported below their 99th. */
  lemma PercentileFalls() returns (samples: seq<int>, max: int)
    ensures |samples| == WRAPPING_COUNT && Maximum(samples, max) && !Climbs(samples, max, 99, 100)
  {
    ThresholdWraps();
    samples, max := ClimbFails(WRAPPING_COUNT, 99, 100);
  }

  lemma NoOverflow(samples: seq<int>, max: int)
    requires max <= BOUNDS[|BOUNDS| - 1] && forall d :: d in samples ==> d <= max
    ensures Cumulative(samples, |BOUNDS| - 1) == |samples|
  {
    forall i | 0 <= i < |samples| ensures samples[i] <= BOUNDS[|BOUNDS| - 1] {
      assert samples[i] in samples;
    }
    AllCounted(samples, BOUNDS[|BOUNDS| - 1]);
  }

  function SumBuckets(s: seq<int>, n: nat): nat
    requires n <= BUCKETS
  {
    if n == 0 then 0 else SumBuckets(s, n - 1) + InBucket(s, n - 1)
  }

  /** Conservation: the first n bucket counters add up to the cumulative count, all of them to the total. */
  lemma {:induction false} BucketsSumToCount(s: seq<int>, n: nat)
    requires 0 < n <= BUCKETS
    ensures SumBuckets(s, n) == Cumulative(s, n - 1)
    ensures n == BUCKETS ==> SumBuckets(s, n) == |s|
  {
    if n > 1 {
      BucketsSumToCount(s, n - 1);
    }
    BucketIsDifference(s, n - 1);
  }

  // ---------------------------------------------------------------------------------------------
  // Averages
  // ---------------------------------------------------------------------------------------------

  /** Integer division that truncates toward zero. */
  function TruncatedQuotient(a: int, b: int): int
    requires b != 0
  {
    var q := (if a < 0 then -a else a) / (if b < 0 then -b else b);
    if (a < 0) != (b < 0) then -q else q
  }

  /** total / time.Duration(count) in int64 arithmetic. */
  function AverageOf(samples: seq<int>): int
    requires 0 < |samples| < TWO_64
  {
    WrapDuration(TruncatedQuotient(WrapDuration(Sum(samples)), WrapDuration(|samples|)))
  }

  lemma DivideMonotone(a: int, b: int, n: nat)
    requires n > 0 && a <= b
    ensures a / n <= b / n
    ensures a + n <= b ==> a / n < b / n
  {
    var q, r := a / n, b / n;
    assert n * q <= a && b < n * (r + 1);
    CancelFactor(n, q, r + 1);
    if a + n <= b {
      assert n * (q + 1) == n * q + n;
      CancelFactor(n, q + 1, r + 1);
    }
  }

  /**
   * The total and the count fit their conversions to int64, or the errors cancel out: a count from
   * 2^63 up turns into the negative count - 2^64.
   */
  predicate AverageFits(total: nat, count: nat)
    requires count > 0
  {
    if count < TWO_63 then total < TWO_63
    else
      || total < TWO_64 - count
      || (total % count == 0 && total / count < TWO_63 && total / count * (TWO_64 - count) <= TWO_63)
  }

  /** The reported average is the average, and so lies between minimum and maximum, exactly when it fits. */
  lemma AverageIsExact(samples: seq<int>, min: int, max: int)
    requires 0 < |samples| < TWO_64 && 0 <= min && forall d :: d in samples ==> min <= d <= max
    ensures 0 <= Sum(samples)
    ensures AverageOf(samples) == Sum(samples) / |samples| <==> AverageFits(Sum(samples), |samples|)
    ensures min <= Sum(samples) / |samples| <= max
  {
    var sum, n := Sum(samples), |samples|;
    SumBounds(samples, min, max);
    TimesMonotone(n, 0, min);
    QuotientBounds(sum, n, min, max);
    if n < TWO_63 {
      WrappedQuotient(sum, n);
    } else {
      NegativeCount(sum, n);
    }
  }

  lemma WrapRange(d: int)
    ensures -TWO_63 <= WrapDuration(d) < TWO_63
    ensures -TWO_63 <= d < TWO_63 ==> WrapDuration(d) == d
    ensures d >= TWO_63 ==> WrapDuration(d) + TWO_64 <= d
  {
  }

  /** Truncated division of an int64 by a positive one stays between zero and the dividend. */
  lemma QuotientInRange(w: int, n: nat)
    requires -TWO_63 <= w < TWO_63 && n > 0
    ensures w >= 0 ==> TruncatedQuotient(w, n) == w / n
    ensures w < 0 ==> TruncatedQuotient(w, n) <= 0
    ensures -TWO_63 <= TruncatedQuotient(w, n) < TWO_63
  {
    QuotientAtMost(if w < 0 then -w else w, n);
  }

  lemma WrappedQuotient(sum: int, n: nat)
    requires 0 <= sum && 0 < n < TWO_63
    ensures WrapDuration(TruncatedQuotient(WrapDuration(sum), WrapDuration(n))) == sum / n <==> sum < TWO_63
  {
    var w := WrapDuration(sum);
    WrapRange(sum);
    WrapRange(n);
    QuotientInRange(w, n);
    WrapRange(TruncatedQuotient(w, n));
    if sum >= TWO_63 {
      DivideMonotone(0, sum, n);
      DivideMonotone(w, sum, n);
    }
  }

  lemma QuotientAtMost(a: nat, n: nat)
    requires n > 0
    ensures 0 <= a / n <= a
  {
    assert n * (a / n) <= a;
    TimesMonotone(a / n, 1, n);
  }

  lemma QuotientUnique(a: nat, k: nat, q: nat)
    requires k > 0
    ensures a / k == q <==> q * k <= a < q * k + k
  {
    var v := a / k;
    assert k * v <= a < k * v + k;
    if q * k <= a < q * k + k {
      assert k * (v + 1) == k * v + k && k * (q + 1) == q * k + k;
      CancelFactor(k, q, v + 1);
      CancelFactor(k, v, q + 1);
    }
  }

  /** total = q * n + r, seen as an int64 when n = 2^64 - k. */
  lemma WrapsToProduct(sum: nat, n: nat, q: nat, r: nat, k: nat)
    requires sum == q * n + r && r < n && n == TWO_64 - k && 0 < k <= TWO_63
    ensures var w := WrapDuration(sum);
      w < 0 && q * k <= -w < q * k + k <==> r == 0 && 0 < q && q * k <= TWO_63
    ensures var w := WrapDuration(sum);
      0 <= w < k && q == 0 <==> sum < k
  {
    var m := (sum + TWO_63) / TWO_64;
    assert q * n == q * TWO_64 - q * k;
    assert WrapDuration(sum) == sum - TWO_64 * m;
    TimesMonotone(k, 0, q);
    if q > 0 {
      TimesMonotone(k, 1, q);
    }
  }

  /** Dividing an int64 by the negative count -k. */
  lemma NegativeDivision(w: int, k: nat, q: nat)
    requires -TWO_63 <= w < TWO_63 && 0 < k <= TWO_63
    ensures WrapDuration(TruncatedQuotient(w, 0 - k)) == q <==>
      if w < 0 then q < TWO_63 && q * k <= -w < q * k + k else w < k && q == 0
  {
    var a := if w < 0 then -w else w;
    QuotientAtMost(a, k);
    QuotientUnique(a, k, q);
    QuotientUnique(a, k, 0);
    WrapRange(-(a / k));
    assert TruncatedQuotient(w, 0 - k) == if w < 0 then a / k else -(a / k);
  }

  lemma NegativeCountParts(sum: nat, n: nat, q: nat, r: nat, k: nat)
    requires sum == q * n + r && r < n && n == TWO_64 - k && 0 < k <= TWO_63
    ensures WrapDuration(TruncatedQuotient(WrapDuration(sum), 0 - k)) == q <==>
      sum < k || (r == 0 && q < TWO_63 && q * k <= TWO_63)
  {
    WrapRange(sum);
    NegativeDivision(WrapDuration(sum), k, q);
    WrapsToProduct(sum, n, q, r, k);
  }

  lemma NegativeCount(sum: nat, n: nat)
    requires TWO_63 <= n < TWO_64
    ensures WrapDuration(TruncatedQuotient(WrapDuration(sum), WrapDuration(n))) == sum / n <==> AverageFits(sum, n)
  {
    var k := TWO_64 - n;
    assert WrapDuration(n) == 0 - k;
    assert sum == sum / n * n + sum % n;
    NegativeCountParts(sum, n, sum / n, sum % n, k);
  }

  /** Two samples whose total wraps: the reported average is negative. */
  lemma AverageWraps()
    ensures AverageOf([TWO_63 / 2, TWO_63 / 2]) == -(TWO_63 / 2)
  {
    var s := [TWO_63 / 2, TWO_63 / 2];
    assert s[..1] == [TWO_63 / 2] && s[..1][..0] == [];
    assert Sum(s[..1]) == TWO_63 / 2;
    assert Sum(s) == TWO_63;
  }

  /** Samples whose count wraps: their total of 5 is reported as an average of -5 instead of 0. */
  lemma CountWraps() returns (samples: seq<int>)
    ensures |samples| == TWO_64 - 1 && (forall d :: d in samples ==> 0 <= d) && Sum(samples) == 5
    ensures AverageOf(samples) == -5 && Sum(samples) / |samples| == 0
  {
    var zeros := seq(TWO_64 - 2, _ => 0);
    SumBounds(zeros, 0, 0);
    SumStep(zeros, 5);
    samples := zeros + [5];
  }

  // ---------------------------------------------------------------------------------------------
  // The recorder
  // ---------------------------------------------------------------------------------------------

  /** Named counters and histograms; a missing recorder or an empty name records nothing. */
  class Recorder {
    var counters: map<string, nat>
    var histograms: map<string, Histogram>

    constructor ()
      ensures Valid() && counters == map[] && histograms == map[]
    {
      counters, histograms := map[], map[];
    }

    /** The objects a recorder owns. */
    function Footprint(): set<object>
      reads this
    {
      {this} + (set n | n in histograms :: histograms[n]) + (set n | n in histograms :: histograms[n].buckets)
    }

    /** Every histogram is well formed, and no two names share one. */
    ghost predicate Valid()
      reads Footprint()
    {
      && (forall n :: n in histograms ==> histograms[n].Valid())
      && (forall n, m :: n in histograms && m in histograms && n != m ==>
            histograms[n] != histograms[m] && histograms[n].buckets != histograms[m].buckets)
    }

    /** Everything observed under a name. */
    ghost function Samples(name: string): seq<int>
      reads Footprint()
    {
      if name in histograms then histograms[name].samples else []
    }

    static method IncCounter(r: Recorder?, name: string)
      modifies r
      ensures r != null ==>
        && r.histograms == old(r.histograms)
        && r.counters ==
             if name == "" then old(r.counters)
             else old(r.counters)[name := (if name in old(r.counters) then old(r.counters)[name] + 1 else 1) % TWO_64]
    {
      if r == null || name == "" {
        return;
      }
      r.counters := r.counters[name := (if name in r.counters then r.counters[name] + 1 else 1) % TWO_64];
    }

    /** The histogram of a name, created empty when there is none. */
    method HistogramFor(name: string) returns (h: Histogram)
      requires Valid()
      modifies this
      ensures Valid() && counters == old(counters)
      ensures name in histograms && h == histograms[name] && h.samples == old(Samples(name))
      ensures forall n :: n in histograms <==> n in old(histograms) || n == name
      ensures forall n :: n in old(histograms) ==> histograms[n] == old(histograms)[n]
      ensures name !in old(histograms) ==> fresh(h) && fresh(h.buckets)
    {
      if name in histograms {
        return histograms[name];
      }
      h := new Histogram();
      histograms := histograms[name := h];
    }

    /** One sample more under a name of this recorder, and nothing else. */
    method Record(name: string, duration: nat)
      requires Valid() && name in histograms && |histograms[name].samples| + 1 < TWO_64
      modifies histograms[name], histograms[name].buckets
      ensures Valid()
      ensures histograms[name].samples == old(histograms[name].samples) + [duration]
      ensures forall n :: n in histograms && n != name ==> histograms[n].samples == old(histograms[n].samples)
    {
      histograms[name].Observe(duration);
    }

    /** What the recorder holds under each name after one more sample. */
    twostate predicate Observed(name: string, duration: nat)
      reads Footprint()
    {
      && name in histograms
      && (forall n :: n in histograms <==> n in old(histograms) || n == name)
      && (forall n :: n in old(histograms) ==> histograms[n] == old(histograms)[n])
      && (forall n :: n in old(histograms) && n != name ==> histograms[n].samples == old(histograms[n].samples))
      && histograms[name].samples == old(Samples(name)) + [duration]
      && (name !in old(histograms) ==> fresh(histograms[name]) && fresh(histograms[name].buckets))
    }

    /** One sample under a name that need not exist yet. */
    method ObserveNamed(name: string, duration: nat)
      requires Valid() && |Samples(name)| + 1 < TWO_64
      modifies Footprint()
      ensures Valid() && counters == old(counters) && Observed(name, duration)
    {
      var h := HistogramFor(name);
      Record(name, duration);
    }

    /**
     * The sample reaches the histogram of its name, created when needed, and no other; negative
     * durations count as zero, and a missing recorder or an empty name records nothing.
     */
    static method ObserveDuration(r: Recorder?, name: string, duration: int)
      requires r != null ==> r.Valid() && |r.Samples(name)| + 1 < TWO_64
      modifies if r == null then {} else r.Footprint()
      ensures r != null ==> r.Valid() && r.counters == old(r.counters)
      ensures r != null && name == "" ==> r.histograms == old(r.histograms) && unchanged(r.histograms.Values)
      ensures r != null && name != "" ==> r.Observed(name, if duration < 0 then 0 else duration)
    {
      if r == null || name == "" {
        return;
      }
      r.ObserveNamed(name, if duration < 0 then 0 else duration);
    }
  }
}
