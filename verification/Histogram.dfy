/** Latency histograms: bucketed counts and the percentile read from them. */
module Histogram {
  import opened Words
  import opened Wrappers

  type U64 = n: nat | n <= U64_MAX

  const LATENCY_BUCKETS_US: seq<nat> := [100, 500, 1_000, 5_000, 10_000, 50_000, 250_000, U64_MAX]
  const PHASE_BUCKETS_US: seq<nat> := [1_000, 5_000, 10_000, 25_000, 50_000, 100_000, 250_000, U64_MAX]

  /** Eight rising bounds, the last of them open-ended. */
  predicate IsLadder(buckets: seq<nat>) {
    && |buckets| == 8 && buckets[7] == U64_MAX
    && forall i, j | 0 <= i < j < 8 :: buckets[i] < buckets[j]
  }

  /** The ladders the daemon records into. */
  lemma LaddersInUse()
    ensures IsLadder(LATENCY_BUCKETS_US) && IsLadder(PHASE_BUCKETS_US)
  {
  }

  /** The first bucket whose bound the value does not exceed. */
  function BucketIndex(value: U64, buckets: seq<nat>): (index: nat)
    requires IsLadder(buckets)
    ensures index < 8 && value <= buckets[index]
    ensures forall j | 0 <= j < index :: buckets[j] < value
  {
    FirstAtLeast(value, buckets, 0)
  }

  function FirstAtLeast(value: U64, buckets: seq<nat>, from: nat): (index: nat)
    requires IsLadder(buckets) && from < 8
    requires forall j | 0 <= j < from :: buckets[j] < value
    ensures index < 8 && value <= buckets[index]
    ensures forall j | 0 <= j < index :: buckets[j] < value
    decreases 8 - from
  {
    if value <= buckets[from] then from else FirstAtLeast(value, buckets, from + 1)
  }

  /** The bound reported for a bucket; the open one reports the bound below it. */
  function UpperBound(index: nat, buckets: seq<nat>): nat
    requires |buckets| == 8
  {
    if index < 8 && buckets[index] != U64_MAX then buckets[index] else buckets[6]
  }

  function Sum(counts: seq<nat>): nat {
    if counts == [] then 0 else Sum(counts[..|counts| - 1]) + counts[|counts| - 1]
  }

  // ------------------------------------------------------------------------ recording

  function CountIn(samples: seq<U64>, buckets: seq<nat>, index: nat): nat
    requires IsLadder(buckets)
  {
    if samples == [] then 0
    else CountIn(samples[..|samples| - 1], buckets, index) +
         (if BucketIndex(samples[|samples| - 1], buckets) == index then 1 else 0)
  }

  /** The counters after recording the samples. */
  ghost predicate Records(counts: seq<nat>, samples: seq<U64>, buckets: seq<nat>)
    requires IsLadder(buckets)
  {
    |counts| == 8 && forall i | 0 <= i < 8 :: counts[i] == CountIn(samples, buckets, i)
  }

  lemma {:induction false} CountInAtMost(samples: seq<U64>, buckets: seq<nat>, index: nat)
    requires IsLadder(buckets)
    ensures CountIn(samples, buckets, index) <= |samples|
  {
    if samples != [] { CountInAtMost(samples[..|samples| - 1], buckets, index); }
  }

  lemma CountInSnoc(samples: seq<U64>, value: U64, buckets: seq<nat>, index: nat)
    requires IsLadder(buckets)
    ensures CountIn(samples + [value], buckets, index) ==
            CountIn(samples, buckets, index) + if BucketIndex(value, buckets) == index then 1 else 0
  {
    assert (samples + [value])[..|samples|] == samples;
  }

  lemma RecordsSnoc(counts: seq<nat>, samples: seq<U64>, value: U64, buckets: seq<nat>, bucket: nat)
    requires IsLadder(buckets) && Records(counts, samples, buckets)
    requires bucket < 8 && bucket == BucketIndex(value, buckets)
    ensures Records(counts[bucket := counts[bucket] + 1], samples + [value], buckets)
  {
    forall i | 0 <= i < 8 {
      CountInSnoc(samples, value, buckets, i);
    }
  }

  lemma DoesNotWrap(count: nat)
    requires count < U64_MAX
    ensures (count + 1) % (U64_MAX + 1) == count + 1
  {
  }

  /** `record_histogram`: one wrapping 64-bit increment. */
  method Record(counts: array<nat>, value: U64, buckets: seq<nat>, ghost samples: seq<U64>)
    requires IsLadder(buckets) && counts.Length == 8
    requires Records(counts[..], samples, buckets) && |samples| < U64_MAX
    modifies counts
    ensures Records(counts[..], samples + [value], buckets)
  {
    var bucket := BucketIndex(value, buckets);
    CountInAtMost(samples, buckets, bucket);
    ghost var before := counts[..];
    assert before[bucket] == counts[bucket];
    DoesNotWrap(counts[bucket]);
    counts[bucket] := (counts[bucket] + 1) % (U64_MAX + 1);
    RecordsSnoc(before, samples, value, buckets, bucket);
    assert counts[..] == before[bucket := before[bucket] + 1];
  }

  // --------------------------------------------------------------------- the percentile

  function Min(a: nat, b: nat): nat {
    if a <= b then a else b
  }

  /** The count to reach: total times percent saturated to 64 bits, over 100 rounded up, at least 1. */
  function Target(total: nat, percent: nat): nat {
    var hundredth := (Min(total * percent, U64_MAX) + 99) / 100;
    if hundredth == 0 then 1 else hundredth
  }

  /** The first bucket at which the running sum reaches the target. */
  function FirstReaching(counts: seq<nat>, target: nat, from: nat): (index: Option<nat>)
    requires from <= |counts| && Sum(counts[..from]) < target
    ensures index.None? <==> Sum(counts) < target
    ensures index.Some? ==>
      && from <= index.value < |counts|
      && Sum(counts[..index.value]) < target <= Sum(counts[..index.value + 1])
    decreases |counts| - from
  {
    if from == |counts| then
      assert counts[..from] == counts;
      None
    else
      assert counts[..from + 1][..from] == counts[..from];
      if target <= Sum(counts[..from + 1]) then
        SumRises(counts, from + 1);
        Some(from)
      else FirstReaching(counts, target, from + 1)
  }

  lemma {:induction false} SumRises(counts: seq<nat>, n: nat)
    requires n <= |counts|
    ensures Sum(counts[..n]) <= Sum(counts)
    decreases |counts|
  {
    if n < |counts| {
      SumRises(counts[..|counts| - 1], n);
      assert counts[..|counts| - 1][..n] == counts[..n];
    } else {
      assert counts[..n] == counts;
    }
  }

  function Percentile(counts: seq<nat>, percent: nat, buckets: seq<nat>): Option<nat>
    requires |counts| == 8 && |buckets| == 8
  {
    if Sum(counts) == 0 then None
    else
      assert counts[..0] == [];
      match FirstReaching(counts, Target(Sum(counts), percent), 0)
      case None => None
      case Some(index) => Some(UpperBound(index, buckets))
  }

  /** `percentile_of_buckets`: the loop with a running sum. */
  method PercentileOfBuckets(counts: seq<nat>, percent: nat, buckets: seq<nat>) returns (r: Option<nat>)
    requires |counts| == 8 && |buckets| == 8 && Sum(counts) <= U64_MAX
    ensures r == Percentile(counts, percent, buckets)
    ensures r.Some? ==> exists index | 0 <= index < 8 ::
      && r.value == UpperBound(index, buckets)
      && Sum(counts[..index]) < Target(Sum(counts), percent) <= Sum(counts[..index + 1])
    ensures r.None? <==> Sum(counts) == 0 || Sum(counts) < Target(Sum(counts), percent)
  {
    var total := 0;
    for i := 0 to 8
      invariant total == Sum(counts[..i])
    {
      assert counts[..i + 1][..i] == counts[..i];
      total := total + counts[i];
    }
    assert counts[..8] == counts;
    if total == 0 {
      return None;
    }
    var target := Target(total, percent);
    var cumulative := 0;
    assert counts[..0] == [];
    for index := 0 to 8
      invariant cumulative == Sum(counts[..index]) < target
      invariant FirstReaching(counts, target, 0) == FirstReaching(counts, target, index)
    {
      assert counts[..index + 1][..index] == counts[..index];
      cumulative := cumulative + counts[index];
      if cumulative >= target {
        return Some(UpperBound(index, buckets));
      }
    }
    return None;
  }

  // ------------------------------------------------------------------- order statistics

  function CountLess(samples: seq<U64>, v: nat): nat {
    if samples == [] then 0
    else CountLess(samples[..|samples| - 1], v) + (if samples[|samples| - 1] < v then 1 else 0)
  }

  function CountUpTo(samples: seq<U64>, v: nat): nat {
    CountLess(samples, v + 1)
  }

  /** `v` is the k-th smallest sample. */
  ghost predicate IsRank(samples: seq<U64>, k: nat, v: nat) {
    v in samples && CountLess(samples, v) < k <= CountUpTo(samples, v)
  }

  lemma {:induction false} CountLessRises(samples: seq<U64>, v: nat, w: nat)
    requires v <= w
    ensures CountLess(samples, v) <= CountLess(samples, w) <= |samples|
  {
    if samples != [] { CountLessRises(samples[..|samples| - 1], v, w); }
  }

  lemma RankIsUnique(samples: seq<U64>, k: nat, v: nat, w: nat)
    requires IsRank(samples, k, v) && IsRank(samples, k, w)
    ensures v == w
  {
    if v < w { CountLessRises(samples, v + 1, w); }
    if w < v { CountLessRises(samples, w + 1, v); }
  }

  /** The samples up to a bucket's bound are those counted up to that bucket. */
  lemma {:induction false} PrefixCounts(counts: seq<nat>, samples: seq<U64>, buckets: seq<nat>, n: nat)
    requires IsLadder(buckets)
    requires Records(counts, samples, buckets) && 0 < n <= 8
    ensures Sum(counts[..n]) == CountUpTo(samples, buckets[n - 1])
    decreases n
  {
    assert counts[..n][..n - 1] == counts[..n - 1];
    if n == 1 {
      assert counts[..0] == [];
      InFirstBucket(samples, buckets);
    } else {
      PrefixCounts(counts, samples, buckets, n - 1);
      InBucket(samples, buckets, n - 1);
    }
  }

  lemma {:induction false} InFirstBucket(samples: seq<U64>, buckets: seq<nat>)
    requires IsLadder(buckets)
    ensures CountIn(samples, buckets, 0) == CountUpTo(samples, buckets[0])
  {
    if samples != [] { InFirstBucket(samples[..|samples| - 1], buckets); }
  }

  lemma {:induction false} InBucket(samples: seq<U64>, buckets: seq<nat>, index: nat)
    requires IsLadder(buckets) && 0 < index < 8
    ensures CountUpTo(samples, buckets[index]) ==
            CountUpTo(samples, buckets[index - 1]) + CountIn(samples, buckets, index)
  {
    if samples != [] {
      InBucket(samples[..|samples| - 1], buckets, index);
      var s := samples[|samples| - 1];
      assert BucketIndex(s, buckets) == index <==> buckets[index - 1] < s <= buckets[index];
    }
  }

  lemma {:induction false} AllCounted(samples: seq<U64>)
    ensures CountUpTo(samples, U64_MAX) == |samples|
  {
    if samples != [] { AllCounted(samples[..|samples| - 1]); }
  }

  /** The counters add up to the number of samples. */
  lemma TotalIsSampleCount(counts: seq<nat>, samples: seq<U64>, buckets: seq<nat>)
    requires IsLadder(buckets) && Records(counts, samples, buckets)
    ensures Sum(counts) == |samples|
  {
    PrefixCounts(counts, samples, buckets, 8);
    AllCounted(samples);
    assert counts[..8] == counts;
  }

  /** The percentile of recorded samples is the bound of the bucket that holds the sample whose rank is
      the target. */
  lemma PercentileRefinesRank(counts: seq<nat>, samples: seq<U64>, buckets: seq<nat>, percent: nat, v: U64)
    requires IsLadder(buckets) && Records(counts, samples, buckets)
    requires samples != [] && IsRank(samples, Target(|samples|, percent), v)
    ensures Percentile(counts, percent, buckets) == Some(UpperBound(BucketIndex(v, buckets), buckets))
  {
    TotalIsSampleCount(counts, samples, buckets);
    var target, b := Target(|samples|, percent), BucketIndex(v, buckets);
    PrefixCounts(counts, samples, buckets, b + 1);
    CountLessRises(samples, v + 1, buckets[b] + 1);
    if b > 0 {
      PrefixCounts(counts, samples, buckets, b);
      CountLessRises(samples, buckets[b - 1] + 1, v);
    }
    assert counts[..0] == [];
    assert Sum(counts[..b]) < target <= Sum(counts[..b + 1]);
    SumRises(counts, b + 1);
    var index := FirstReaching(counts, target, 0).value;
    if index < b { PrefixRises(counts, index + 1, b); }
    if b < index { PrefixRises(counts, b + 1, index); }
  }

  lemma PrefixRises(counts: seq<nat>, m: nat, n: nat)
    requires m <= n <= |counts|
    ensures Sum(counts[..m]) <= Sum(counts[..n])
  {
    SumRises(counts[..n], m);
    assert counts[..n][..m] == counts[..m];
  }

  /** So it bounds that sample from above, except in the open bucket, where it lies below it. */
  lemma PercentileBoundsRank(counts: seq<nat>, samples: seq<U64>, buckets: seq<nat>, percent: nat, v: U64)
    requires IsLadder(buckets) && Records(counts, samples, buckets)
    requires samples != [] && IsRank(samples, Target(|samples|, percent), v)
    ensures var p := Percentile(counts, percent, buckets);
            p.Some? && if v <= buckets[6] then v <= p.value else p.value == buckets[6] < v
  {
    PercentileRefinesRank(counts, samples, buckets, percent, v);
  }

  /** Every rank from 1 to the number of samples has its sample. */
  lemma {:induction false} RankExists(samples: seq<U64>, k: nat) returns (v: U64)
    requires 1 <= k <= |samples|
    ensures IsRank(samples, k, v)
    decreases |samples|
  {
    var m := Greatest(samples);
    var top := samples[m];
    AllBelow(samples, top);
    if k == |samples| {
      v := top;
      LessMisses(samples, m);
    } else {
      var rest := samples[..m] + samples[m + 1..];
      v := RankExists(rest, k);
      CountWithout(samples, m, v);
      CountWithout(samples, m, v + 1);
      assert v in samples;
      assert v <= top;
    }
  }

  lemma {:induction false} Greatest(samples: seq<U64>) returns (m: nat)
    requires samples != []
    ensures m < |samples| && forall i | 0 <= i < |samples| :: samples[i] <= samples[m]
  {
    m := 0;
    for i := 1 to |samples|
      invariant m < |samples| && forall j | 0 <= j < i :: samples[j] <= samples[m]
    {
      if samples[m] < samples[i] { m := i; }
    }
  }

  lemma {:induction false} AllBelow(samples: seq<U64>, top: nat)
    requires forall i | 0 <= i < |samples| :: samples[i] <= top
    ensures CountUpTo(samples, top) == |samples|
  {
    if samples != [] { AllBelow(samples[..|samples| - 1], top); }
  }

  lemma LessMisses(samples: seq<U64>, m: nat)
    requires m < |samples|
    ensures CountLess(samples, samples[m]) < |samples|
  {
    CountWithout(samples, m, samples[m]);
    CountLessRises(samples[..m] + samples[m + 1..], samples[m], samples[m]);
  }

  lemma {:induction false} CountWithout(samples: seq<U64>, m: nat, v: nat)
    requires m < |samples|
    ensures CountLess(samples, v) ==
            CountLess(samples[..m] + samples[m + 1..], v) + (if samples[m] < v then 1 else 0)
    decreases |samples|
  {
    var n := |samples| - 1;
    var front, rest := samples[..n], samples[..m] + samples[m + 1..];
    if m == n {
      assert rest == front;
    } else {
      CountWithout(front, m, v);
      assert rest[..|rest| - 1] == front[..m] + front[m + 1..];
      assert rest[|rest| - 1] == samples[n];
    }
  }

  // -------------------------------------------------------------------------- the target

  /** The smallest rank that covers the percentage. */
  ghost predicate IsNearestRank(total: nat, percent: nat, k: nat) {
    100 * k >= total * percent && (k > 1 ==> 100 * (k - 1) < total * percent) && k >= 1
  }

  /** The target is the nearest rank exactly as long as saturation does not reach the next hundred. */
  lemma TargetIsNearestRank(total: nat, percent: nat)
    ensures IsNearestRank(total, percent, Target(total, percent)) <==> total * percent <= 18_446_744_073_709_551_700
  {
  }

  /** A percentage up to 100 of some samples always has an answer. */
  lemma TargetWithinTotal(total: nat, percent: nat)
    requires total > 0 && percent <= 100
    ensures 1 <= Target(total, percent) <= total
  {
    assert total * percent <= total * 100;
  }

  lemma TargetRises(total: nat, p: nat, q: nat)
    requires p <= q
    ensures Target(total, p) <= Target(total, q)
  {
    ProductRises(total, p, q);
    HundredthRises(Min(total * p, U64_MAX), Min(total * q, U64_MAX));
  }

  lemma ProductRises(total: nat, p: nat, q: nat)
    requires p <= q
    ensures total * p <= total * q
  {
  }

  lemma HundredthRises(x: nat, y: nat)
    requires x <= y
    ensures (x + 99) / 100 <= (y + 99) / 100
  {
  }

  /** A higher percentage never reports a lower bound. */
  lemma PercentileRises(counts: seq<nat>, buckets: seq<nat>, p: nat, q: nat)
    requires |counts| == 8 && IsLadder(buckets) && Sum(counts) > 0 && p <= q <= 100
    ensures Percentile(counts, p, buckets).Some? && Percentile(counts, q, buckets).Some?
    ensures Percentile(counts, p, buckets).value <= Percentile(counts, q, buckets).value
  {
    var total := Sum(counts);
    TargetWithinTotal(total, p);
    TargetWithinTotal(total, q);
    TargetRises(total, p, q);
    assert counts[..0] == [];
    var i := FirstReaching(counts, Target(total, p), 0).value;
    var j := FirstReaching(counts, Target(total, q), 0).value;
    if j < i { PrefixRises(counts, j + 1, i); }
  }
}
