/** Latency buckets and the percentile estimate read off them. Durations are nanoseconds. */
module Latency {

  const MS: int := 1_000_000
  const BUCKET_COUNT: nat := 8

  type Bucket = b: nat | b < BUCKET_COUNT

  /** Counts per bucket. */
  type Buckets = s: seq<nat> | |s| == BUCKET_COUNT witness [0, 0, 0, 0, 0, 0, 0, 0]

  function BucketForLatency(d: int): Bucket {
    if d < 5 * MS then 0
    else if d < 10 * MS then 1
    else if d < 20 * MS then 2
    else if d < 50 * MS then 3
    else if d < 100 * MS then 4
    else if d < 250 * MS then 5
    else if d < 500 * MS then 6
    else 7
  }

  /** The exclusive bound of a bucket; the last bucket, and any other index, is capped at 5 s. */
  function BucketUpperBound(b: int): int {
    if b == 0 then 5 * MS
    else if b == 1 then 10 * MS
    else if b == 2 then 20 * MS
    else if b == 3 then 50 * MS
    else if b == 4 then 100 * MS
    else if b == 5 then 250 * MS
    else if b == 6 then 500 * MS
    else 5000 * MS
  }

  /** Except in the last bucket, a latency lies below its bucket's bound and at or above the
      bound of the bucket before. */
  lemma BucketBoundsLatency(d: int)
    ensures var b := BucketForLatency(d);
            && (b > 0 ==> BucketUpperBound(b - 1) <= d)
            && (b < BUCKET_COUNT - 1 ==> d < BucketUpperBound(b))
  {
  }

  // ----- histograms and order statistics -----

  function CountIn(ds: seq<int>, b: nat): nat {
    if |ds| == 0 then 0 else CountIn(ds[..|ds| - 1], b) + if BucketForLatency(ds[|ds| - 1]) == b then 1 else 0
  }

  function Histogram(ds: seq<int>): Buckets {
    seq(BUCKET_COUNT, b requires 0 <= b < BUCKET_COUNT => CountIn(ds, b))
  }

  /** How many latencies are below d, and how many are at most d. */
  function Below(ds: seq<int>, d: int): nat {
    if |ds| == 0 then 0 else Below(ds[..|ds| - 1], d) + if ds[|ds| - 1] < d then 1 else 0
  }

  function AtMost(ds: seq<int>, d: int): nat {
    if |ds| == 0 then 0 else AtMost(ds[..|ds| - 1], d) + if ds[|ds| - 1] <= d then 1 else 0
  }

  /** d is the k-th smallest of the recorded latencies, counting from 1. */
  ghost predicate IsKthSmallest(ds: seq<int>, k: nat, d: int) {
    d in ds && Below(ds, d) < k <= AtMost(ds, d)
  }

  function Ceil(x: real): int {
    -((-x).Floor)
  }

  /** The rank the estimate looks for. */
  function Rank(n: nat, p: real): nat
    requires p >= 0.0
  {
    var target := Ceil(n as real * p);
    if target <= 0 then 1 else target
  }

  /** The rank is the least positive integer that is at least p times n. */
  lemma RankIsLeast(n: nat, p: real, k: nat)
    requires p >= 0.0
    ensures Rank(n, p) >= 1 && Rank(n, p) as real >= n as real * p
    ensures k >= 1 && k as real >= n as real * p ==> Rank(n, p) <= k
  {
    var x := n as real * p;
    CeilIsLeast(x, k);
  }

  lemma CeilIsLeast(x: real, k: int)
    ensures Ceil(x) as real >= x && (k as real >= x ==> Ceil(x) <= k)
  {
  }

  function SumTo(buckets: Buckets, n: nat): nat
    requires n <= BUCKET_COUNT
  {
    if n == 0 then 0 else SumTo(buckets, n - 1) + buckets[n - 1]
  }

  /** Bucket b holds the k-th smallest of the counted latencies. */
  ghost predicate RankInBucket(buckets: Buckets, k: nat, b: Bucket) {
    SumTo(buckets, b) < k <= SumTo(buckets, b + 1)
  }

  /** d is what the estimate promises for the counts and p: the bound of the bucket that holds
      the rank; 0 without counts; the last bound when p asks beyond the largest. */
  ghost predicate Estimates(buckets: Buckets, p: real, d: int)
    requires p >= 0.0
  {
    var n := SumTo(buckets, BUCKET_COUNT);
    if n == 0 then d == 0
    else if Rank(n, p) > n then d == BucketUpperBound(BUCKET_COUNT - 1)
    else exists b: Bucket :: RankInBucket(buckets, Rank(n, p), b) && d == BucketUpperBound(b)
  }

  method EstimatePercentile(buckets: Buckets, p: real) returns (d: int)
    requires p >= 0.0
    ensures Estimates(buckets, p, d)
  {
    var total := 0;
    for i := 0 to BUCKET_COUNT
      invariant total == SumTo(buckets, i)
    {
      total := total + buckets[i];
    }
    if total == 0 {
      return 0;
    }
    var target := TargetRank(total, p);
    var b := FindBucket(buckets, target);
    SumToMonotone(buckets, if b < BUCKET_COUNT then b + 1 else b, BUCKET_COUNT);
    return BucketUpperBound(if b < BUCKET_COUNT then b else BUCKET_COUNT - 1);
  }

  method TargetRank(total: nat, p: real) returns (target: nat)
    requires p >= 0.0
    ensures target == Rank(total, p) && target > 0
  {
    MulMonotone(total as real, 0.0, p);
    FloorMonotone(-(total as real * p), 0.0);
    target := Ceil(total as real * p);
    if target == 0 {
      target := 1;
    }
  }

  lemma MulMonotone(x: real, p: real, q: real)
    requires x >= 0.0 && p <= q
    ensures x * p <= x * q
  {
    assert x * q - x * p == x * (q - p);
  }

  lemma FloorMonotone(x: real, y: real)
    requires x <= y
    ensures x.Floor <= y.Floor
  {
  }

  /** The cumulative loop: the first bucket at which the running count reaches the target. */
  method FindBucket(buckets: Buckets, target: nat) returns (b: nat)
    requires target > 0
    ensures b <= BUCKET_COUNT
    ensures if b < BUCKET_COUNT then RankInBucket(buckets, target, b) else SumTo(buckets, BUCKET_COUNT) < target
  {
    var cumulative := 0;
    for i := 0 to BUCKET_COUNT
      invariant cumulative == SumTo(buckets, i)
      invariant cumulative < target
    {
      cumulative := cumulative + buckets[i];
      if cumulative >= target {
        return i;
      }
    }
    b := BUCKET_COUNT;
  }

  lemma {:induction false} SumToMonotone(buckets: Buckets, m: nat, n: nat)
    requires m <= n <= BUCKET_COUNT
    ensures SumTo(buckets, m) <= SumTo(buckets, n)
  {
    if m < n {
      SumToMonotone(buckets, m, n - 1);
    }
  }

  /** Higher ranks lie in higher buckets; in particular a rank lies in one bucket only. */
  lemma RanksAreOrdered(buckets: Buckets, k: nat, b: Bucket, l: nat, c: Bucket)
    requires RankInBucket(buckets, k, b) && RankInBucket(buckets, l, c) && k <= l
    ensures b <= c
  {
    if c < b {
      SumToMonotone(buckets, c + 1, b);
    }
  }

  lemma BoundsAreOrdered(b: Bucket, c: Bucket)
    requires b <= c
    ensures BucketUpperBound(b) <= BucketUpperBound(c)
  {
  }

  // ----- the estimate and the true quantile -----

  /** How many latencies fall below bucket b. */
  function BelowBucket(ds: seq<int>, b: nat): nat {
    if |ds| == 0 then 0 else BelowBucket(ds[..|ds| - 1], b) + if BucketForLatency(ds[|ds| - 1]) < b then 1 else 0
  }

  lemma {:induction false} BelowNextBucket(ds: seq<int>, b: nat)
    ensures BelowBucket(ds, b + 1) == BelowBucket(ds, b) + CountIn(ds, b)
    ensures BelowBucket(ds, 0) == 0
  {
    if |ds| > 0 {
      BelowNextBucket(ds[..|ds| - 1], b);
    }
  }

  lemma {:induction false} SumOfHistogram(ds: seq<int>, b: nat)
    requires b <= BUCKET_COUNT
    ensures SumTo(Histogram(ds), b) == BelowBucket(ds, b)
  {
    if b == 0 {
      BelowNextBucket(ds, 0);
    } else {
      SumOfHistogram(ds, b - 1);
      BelowNextBucket(ds, b - 1);
    }
  }

  lemma {:induction false} AllAreCounted(ds: seq<int>)
    ensures BelowBucket(ds, BUCKET_COUNT) == |ds|
  {
    if |ds| > 0 {
      AllAreCounted(ds[..|ds| - 1]);
    }
  }

  lemma {:induction false} BucketBracketsRank(ds: seq<int>, d: int)
    ensures BelowBucket(ds, BucketForLatency(d)) <= Below(ds, d)
    ensures AtMost(ds, d) <= BelowBucket(ds, BucketForLatency(d) + 1)
  {
    if |ds| > 0 {
      BucketBracketsRank(ds[..|ds| - 1], d);
    }
  }

  /** The bucket of the k-th smallest latency is the one that holds rank k. */
  lemma QuantileBucket(ds: seq<int>, k: nat, d: int)
    requires IsKthSmallest(ds, k, d)
    ensures RankInBucket(Histogram(ds), k, BucketForLatency(d))
  {
    var b: nat := BucketForLatency(d);
    BucketBracketsRank(ds, d);
    SumOfHistogram(ds, b);
    SumOfHistogram(ds, b + 1);
  }

  lemma CeilAtMost(n: nat, p: real)
    requires 0.0 <= p <= 1.0
    ensures Ceil(n as real * p) <= n
  {
    MulMonotone(n as real, p, 1.0);
    FloorMonotone(-(n as real), -(n as real * p));
  }

  /** Main result: for latencies recorded one by one, the estimate is the bound of the bucket
      of their ceil(p * n)-th smallest; below 500 ms that latency is strictly under the estimate
      and at least the bound before it. */
  lemma EstimateBoundsQuantile(ds: seq<int>, p: real, estimate: int, d: int)
    requires 0.0 <= p <= 1.0 && |ds| > 0
    requires Estimates(Histogram(ds), p, estimate)
    requires IsKthSmallest(ds, Rank(|ds|, p), d)
    ensures estimate == BucketUpperBound(BucketForLatency(d))
    ensures d < 500 * MS ==>
              d < estimate && (BucketForLatency(d) > 0 ==> BucketUpperBound(BucketForLatency(d) - 1) <= d)
  {
    SumOfHistogram(ds, BUCKET_COUNT);
    AllAreCounted(ds);
    EstimateFindsRank(Histogram(ds), p, estimate);
    QuantileBucketBound(ds, Rank(|ds|, p), estimate, d);
  }

  lemma EstimateFindsRank(buckets: Buckets, p: real, estimate: int)
    requires 0.0 <= p <= 1.0 && Estimates(buckets, p, estimate) && SumTo(buckets, BUCKET_COUNT) > 0
    ensures exists b: Bucket ::
              RankInBucket(buckets, Rank(SumTo(buckets, BUCKET_COUNT), p), b) && estimate == BucketUpperBound(b)
  {
    CeilAtMost(SumTo(buckets, BUCKET_COUNT), p);
  }

  lemma QuantileBucketBound(ds: seq<int>, k: nat, estimate: int, d: int)
    requires IsKthSmallest(ds, k, d)
    requires exists b: Bucket :: RankInBucket(Histogram(ds), k, b) && estimate == BucketUpperBound(b)
    ensures estimate == BucketUpperBound(BucketForLatency(d))
    ensures d < 500 * MS ==>
              d < estimate && (BucketForLatency(d) > 0 ==> BucketUpperBound(BucketForLatency(d) - 1) <= d)
  {
    BucketBoundsLatency(d);
    var b: Bucket :| RankInBucket(Histogram(ds), k, b) && estimate == BucketUpperBound(b);
    QuantileBucket(ds, k, d);
    RanksAreOrdered(Histogram(ds), k, b, k, BucketForLatency(d));
    RanksAreOrdered(Histogram(ds), k, BucketForLatency(d), k, b);
  }

  lemma CeilMonotone(n: nat, p: real, q: real)
    requires 0.0 <= p <= q
    ensures Rank(n, p) <= Rank(n, q)
  {
    MulMonotone(n as real, p, q);
    FloorMonotone(-(n as real * q), -(n as real * p));
  }

  /** The estimate grows with p. */
  lemma EstimateMonotone(buckets: Buckets, p: real, q: real, d: int, e: int)
    requires 0.0 <= p <= q
    requires Estimates(buckets, p, d) && Estimates(buckets, q, e)
    ensures d <= e
  {
    var n := SumTo(buckets, BUCKET_COUNT);
    CeilMonotone(n, p, q);
    if n > 0 && Rank(n, p) <= n {
      var b: Bucket :| RankInBucket(buckets, Rank(n, p), b) && d == BucketUpperBound(b);
      if Rank(n, q) <= n {
        var c: Bucket :| RankInBucket(buckets, Rank(n, q), c) && e == BucketUpperBound(c);
        RanksAreOrdered(buckets, Rank(n, p), b, Rank(n, q), c);
        BoundsAreOrdered(b, c);
      } else {
        BoundsAreOrdered(b, 7);
      }
    }
  }

  // ----- every rank has its latency -----

  lemma {:induction false} LargestBelow(ds: seq<int>, d: int) returns (e: int)
    requires Below(ds, d) > 0
    ensures e in ds && e < d && AtMost(ds, e) == Below(ds, d)
  {
    var init, last := ds[..|ds| - 1], ds[|ds| - 1];
    assert ds == init + [last];
    if Below(init, d) == 0 {
      e := last;
      NoneAtMost(init, d, e);
    } else {
      var f := LargestBelow(init, d);
      if last < d && f < last {
        e := last;
        SameCount(init, f, e, d);
      } else {
        e := f;
      }
    }
  }

  lemma {:induction false} NoneAtMost(ds: seq<int>, d: int, e: int)
    requires Below(ds, d) == 0 && e < d
    ensures AtMost(ds, e) == 0
  {
    if |ds| > 0 {
      NoneAtMost(ds[..|ds| - 1], d, e);
    }
  }

  lemma {:induction false} CountsMonotone(ds: seq<int>, d: int, e: int)
    requires d <= e
    ensures AtMost(ds, d) <= AtMost(ds, e) && Below(ds, d) <= AtMost(ds, d)
    ensures d < e ==> AtMost(ds, d) <= Below(ds, e)
    ensures d in ds ==> Below(ds, d) < AtMost(ds, d)
    ensures AtMost(ds, d) <= |ds|
  {
    if |ds| > 0 {
      assert ds == ds[..|ds| - 1] + [ds[|ds| - 1]];
      CountsMonotone(ds[..|ds| - 1], d, e);
    }
  }

  lemma SameCount(ds: seq<int>, f: int, e: int, d: int)
    requires f <= e < d && AtMost(ds, f) == Below(ds, d)
    ensures AtMost(ds, e) == Below(ds, d)
  {
    CountsMonotone(ds, f, e);
    CountsMonotone(ds, e, d);
  }

  /** Going down from a latency that has at least k at or below it. */
  lemma {:induction false} KthSmallestFrom(ds: seq<int>, k: nat, start: int) returns (d: int)
    requires k > 0 && start in ds && AtMost(ds, start) >= k
    ensures IsKthSmallest(ds, k, d)
    decreases AtMost(ds, start)
  {
    if Below(ds, start) < k {
      d := start;
    } else {
      var e := LargestBelow(ds, start);
      CountsMonotone(ds, start, start);
      d := KthSmallestFrom(ds, k, e);
    }
  }

  lemma AllAtMost(ds: seq<int>, e: int, d: int)
    requires e <= d && AtMost(ds, e) == |ds|
    ensures AtMost(ds, d) == |ds|
  {
    CountsMonotone(ds, e, d);
    CountsMonotone(ds, d, d);
  }

  lemma {:induction false} Largest(ds: seq<int>) returns (d: int)
    requires |ds| > 0
    ensures d in ds && AtMost(ds, d) == |ds|
  {
    var init, last := ds[..|ds| - 1], ds[|ds| - 1];
    d := last;
    if init != [] {
      var e := Largest(init);
      if last < e {
        d := e;
        assert d in init;
      } else {
        AllAtMost(init, e, last);
      }
    }
  }

  /** Some recorded latency has the rank the estimate looks for. */
  lemma QuantileExists(ds: seq<int>, p: real) returns (d: int)
    requires 0.0 <= p <= 1.0 && |ds| > 0
    ensures IsKthSmallest(ds, Rank(|ds|, p), d)
  {
    CeilAtMost(|ds|, p);
    var top := Largest(ds);
    d := KthSmallestFrom(ds, Rank(|ds|, p), top);
  }
}
