/**
 The timing histogram of src/common/sf4e__RollbackDiagnostics.cxx. Durations are reals; counters are
 unbounded.
 */
module TimingHistogram {

  const NUM_BUCKETS := 10
  const NUM_HITCH_THRESHOLDS := 5

  /**
   The upper bounds of all buckets but the last. The last one's, 1e300, decides nothing: a duration
   is counted in the last bucket whether it is below that bound or falls off the end of the scan.
   */
  const BUCKET_UPPER_MS: seq<real> := [0.25, 0.5, 1.0, 2.0, 4.0, 8.0, 16.67, 33.0, 50.0]

  const HITCH_THRESHOLD_MS: seq<real> := [16.67, 25.0, 33.33, 50.0, 100.0]

  type Counts = s: seq<nat> | |s| == NUM_BUCKETS witness [0, 0, 0, 0, 0, 0, 0, 0, 0, 0]
  type Hitches = s: seq<nat> | |s| == NUM_HITCH_THRESHOLDS witness [0, 0, 0, 0, 0]

  datatype Stat = Stat(count: nat, totalMs: real, maxMs: real, lastMs: real, buckets: Counts, hitches: Hitches)

  const EMPTY_STAT := Stat(0, 0.0, 0.0, 0.0, [0, 0, 0, 0, 0, 0, 0, 0, 0, 0], [0, 0, 0, 0, 0])

  function Clamp(ms: real): real {
    if ms < 0.0 then 0.0 else ms
  }

  function Max(a: real, b: real): real {
    if a < b then b else a
  }

  /** The first bucket from i on whose upper bound lies above the duration, else the last. */
  function BucketFrom(ms: real, i: nat): (b: nat)
    requires i < NUM_BUCKETS
    ensures i <= b < NUM_BUCKETS
    ensures b < NUM_BUCKETS - 1 ==> ms < BUCKET_UPPER_MS[b]
    ensures b > i ==> BUCKET_UPPER_MS[b - 1] <= ms
    decreases NUM_BUCKETS - i
  {
    if i == NUM_BUCKETS - 1 || ms < BUCKET_UPPER_MS[i] then i else BucketFrom(ms, i + 1)
  }

  function RecordHitches(hitches: Hitches, ms: real): Hitches {
    seq(NUM_HITCH_THRESHOLDS, i requires 0 <= i < NUM_HITCH_THRESHOLDS =>
      if ms >= HITCH_THRESHOLD_MS[i] then hitches[i] + 1 else hitches[i])
  }

  function RecordTotals(s: Stat, ms: real): Stat {
    s.(count := s.count + 1, totalMs := s.totalMs + ms, maxMs := Max(s.maxMs, ms), lastMs := ms)
  }

  function RecordBucket(buckets: Counts, ms: real): Counts {
    var b := BucketFrom(ms, 0);
    buckets[b := buckets[b] + 1]
  }

  function Record(s: Stat, ms: real): Stat {
    RecordTotals(s, Clamp(ms)).(
      buckets := RecordBucket(s.buckets, Clamp(ms)), hitches := RecordHitches(s.hitches, Clamp(ms)))
  }

  function RecordAll(samples: seq<real>): Stat {
    if samples == [] then EMPTY_STAT else Record(RecordAll(samples[..|samples| - 1]), samples[|samples| - 1])
  }

  // ----- Percentiles -----

  function ClampUnit(p: real): (q: real)
    ensures 0.0 <= q <= 1.0
  {
    if p < 0.0 then 0.0 else if p > 1.0 then 1.0 else p
  }

  /** p times the count, rounded down, with p clamped to [0, 1] and the result to the last index. */
  function Rank(count: nat, p: real): (rank: nat)
    requires count > 0
    ensures rank < count
  {
    var scaled := Scaled(ClampUnit(p), count);
    if scaled >= count then count - 1 else scaled
  }

  /** The cast to an unsigned integer truncates. */
  function Scaled(q: real, count: nat): nat
    requires q >= 0.0
  {
    ProductMonotone(0.0, q, count as real);
    (q * count as real).Floor
  }

  lemma ProductMonotone(a: real, b: real, x: real)
    requires a <= b && x >= 0.0
    ensures a * x <= b * x
  {}

  /** The total of the first n buckets. */
  function Cumulative(buckets: Counts, n: nat): nat
    requires n <= NUM_BUCKETS
  {
    if n == 0 then 0 else Cumulative(buckets, n - 1) + buckets[n - 1]
  }

  /** The first bucket from i on at which the running total exceeds the rank; NUM_BUCKETS if none. */
  function ChosenFrom(buckets: Counts, rank: nat, i: nat): (b: nat)
    requires i <= NUM_BUCKETS
    ensures i <= b <= NUM_BUCKETS
    decreases NUM_BUCKETS - i
  {
    if i == NUM_BUCKETS || rank < Cumulative(buckets, i + 1) then i else ChosenFrom(buckets, rank, i + 1)
  }

  function Chosen(s: Stat, p: real): (b: nat)
    requires s.count > 0
    ensures b <= NUM_BUCKETS
  {
    ChosenFrom(s.buckets, Rank(s.count, p), 0)
  }

  function Percentile(s: Stat, p: real): real {
    if s.count == 0 then 0.0
    else if Chosen(s, p) < NUM_BUCKETS - 1 then BUCKET_UPPER_MS[Chosen(s, p)]
    else s.maxMs
  }

  // ----- The imperative original -----

  class TimingStat {
    var count: nat
    var totalMs: real
    var maxMs: real
    var lastMs: real
    const buckets: array<nat>
    const hitchCounts: array<nat>

    ghost predicate Valid() {
      buckets.Length == NUM_BUCKETS && hitchCounts.Length == NUM_HITCH_THRESHOLDS && buckets != hitchCounts
    }

    ghost function Contents(): Stat
      reads this, buckets, hitchCounts
      requires Valid()
    {
      Stat(count, totalMs, maxMs, lastMs, buckets[..], hitchCounts[..])
    }

    constructor ()
      ensures Valid() && fresh(buckets) && fresh(hitchCounts)
      ensures Contents() == EMPTY_STAT
    {
      count, totalMs, maxMs, lastMs := 0, 0.0, 0.0, 0.0;
      buckets := new nat[NUM_BUCKETS](_ => 0);
      hitchCounts := new nat[NUM_HITCH_THRESHOLDS](_ => 0);
      new;
      assert buckets[..] == EMPTY_STAT.buckets;
      assert hitchCounts[..] == EMPTY_STAT.hitches;
    }

    method CountHitches(ms: real)
      requires Valid()
      modifies hitchCounts
      ensures hitchCounts[..] == RecordHitches(old(hitchCounts[..]), ms)
    {
      for i := 0 to NUM_HITCH_THRESHOLDS
        invariant forall k | 0 <= k < i :: hitchCounts[k] == RecordHitches(old(hitchCounts[..]), ms)[k]
        invariant forall k | i <= k < NUM_HITCH_THRESHOLDS :: hitchCounts[k] == old(hitchCounts[k])
      {
        if ms >= HITCH_THRESHOLD_MS[i] {
          hitchCounts[i] := hitchCounts[i] + 1;
        }
      }
    }

    method CountBucket(ms: real)
      requires Valid()
      modifies buckets
      ensures buckets[..] == RecordBucket(old(buckets[..]), ms)
    {
      for i := 0 to NUM_BUCKETS - 1
        invariant buckets[..] == old(buckets[..])
        invariant BucketFrom(ms, 0) == BucketFrom(ms, i)
      {
        if ms < BUCKET_UPPER_MS[i] {
          buckets[i] := buckets[i] + 1;
          return;
        }
      }
      buckets[NUM_BUCKETS - 1] := buckets[NUM_BUCKETS - 1] + 1;
    }

    method CountTotals(ms: real)
      requires Valid()
      modifies this
      ensures Contents() == RecordTotals(old(Contents()), ms)
    {
      count := count + 1;
      totalMs := totalMs + ms;
      lastMs := ms;
      if ms > maxMs {
        maxMs := ms;
      }
    }

    method RecordMs(duration: real)
      requires Valid()
      modifies this, buckets, hitchCounts
      ensures Contents() == Record(old(Contents()), duration)
    {
      var ms := duration;
      if ms < 0.0 {
        ms := 0.0;
      }
      CountTotals(ms);
      CountHitches(ms);
      CountBucket(ms);
    }

    method ApproxPercentileMs(p: real) returns (r: real)
      requires Valid()
      ensures r == Percentile(Contents(), p)
    {
      if count == 0 {
        return 0.0;
      }
      var rank := Rank(count, p);
      var cumulative := 0;
      for i := 0 to NUM_BUCKETS
        invariant cumulative == Cumulative(buckets[..], i)
        invariant ChosenFrom(buckets[..], rank, 0) == ChosenFrom(buckets[..], rank, i)
      {
        cumulative := cumulative + buckets[i];
        if rank < cumulative {
          if i == NUM_BUCKETS - 1 {
            return maxMs;
          }
          return BUCKET_UPPER_MS[i];
        }
      }
      return maxMs;
    }
  }

  // ----- What the counters mean -----

  /** A negative duration counts as 0. */
  function Clamped(samples: seq<real>): (r: seq<real>)
    ensures |r| == |samples|
  {
    seq(|samples|, i requires 0 <= i < |samples| => if samples[i] >= 0.0 then samples[i] else 0.0)
  }

  function CountBelow(s: seq<real>, x: real): (n: nat)
    ensures n <= |s|
  {
    if s == [] then 0
    else CountBelow(s[..|s| - 1], x) + if s[|s| - 1] < x then 1 else 0
  }

  predicate IsMax(s: seq<real>, m: real) {
    (forall x | x in s :: x <= m) && (s == [] || m in s)
  }

  lemma {:induction false} CumulativeUpdate(buckets: Counts, b: nat, n: nat)
    requires b < NUM_BUCKETS && n <= NUM_BUCKETS
    ensures Cumulative(buckets[b := buckets[b] + 1], n) == Cumulative(buckets, n) + if b < n then 1 else 0
  {
    if n > 0 {
      CumulativeUpdate(buckets, b, n - 1);
    }
  }

  lemma RecordCumulative(s: Stat, ms: real, n: nat)
    requires n <= NUM_BUCKETS
    ensures Cumulative(Record(s, ms).buckets, n) == Cumulative(s.buckets, n) + if BucketFrom(Clamp(ms), 0) < n then 1 else 0
  {
    CumulativeUpdate(s.buckets, BucketFrom(Clamp(ms), 0), n);
  }

  /** A bucket below n is chosen exactly for the durations below the bound that ends bucket n - 1. */
  lemma BucketBelow(ms: real, n: nat)
    requires 0 < n < NUM_BUCKETS
    ensures BucketFrom(ms, 0) < n <==> ms < BUCKET_UPPER_MS[n - 1]
  {
    var b := BucketFrom(ms, 0);
    BoundsIncrease(n - 1, b);
    if b > 0 {
      BoundsIncrease(n - 1, b - 1);
      BoundsIncrease(b - 1, n - 1);
    }
    BoundsIncrease(b, n - 1);
  }

  lemma BoundsIncrease(i: nat, j: nat)
    ensures i <= j < |BUCKET_UPPER_MS| ==> BUCKET_UPPER_MS[i] <= BUCKET_UPPER_MS[j]
  {}

  /** The bucket totals are exactly the numbers of samples below the bounds, and all of them together. */
  lemma {:induction false} BucketsCountSamples(samples: seq<real>, n: nat)
    requires n <= NUM_BUCKETS
    ensures RecordAll(samples).count == |samples|
    ensures Cumulative(RecordAll(samples).buckets, n)
         == if n == 0 then 0
            else if n == NUM_BUCKETS then |samples|
            else CountBelow(Clamped(samples), BUCKET_UPPER_MS[n - 1])
    decreases |samples|
  {
    if samples != [] {
      var front, last := samples[..|samples| - 1], samples[|samples| - 1];
      BucketsCountSamples(front, n);
      RecordCumulative(RecordAll(front), last, n);
      assert Clamped(samples)[..|front|] == Clamped(front);
      if 0 < n < NUM_BUCKETS {
        BucketBelow(Clamp(last), n);
      }
    } else {
      EmptyCumulative(n);
    }
  }

  lemma EmptyCumulative(n: nat)
    requires n <= NUM_BUCKETS
    ensures Cumulative(EMPTY_STAT.buckets, n) == 0
  {}

  lemma {:induction false} MaxIsMax(samples: seq<real>)
    ensures IsMax(Clamped(samples), RecordAll(samples).maxMs)
    ensures RecordAll(samples).maxMs >= 0.0
    decreases |samples|
  {
    if samples != [] {
      var front, last := samples[..|samples| - 1], samples[|samples| - 1];
      MaxIsMax(front);
      assert Clamped(samples) == Clamped(front) + [Clamp(last)];
    }
  }

  function Sum(s: seq<real>): real {
    if s == [] then 0.0 else Sum(s[..|s| - 1]) + s[|s| - 1]
  }

  lemma ClampedAppend(front: seq<real>, last: real)
    ensures Clamped(front + [last]) == Clamped(front) + [Clamp(last)]
  {}

  lemma CountersOfAppend(t: seq<real>, x: real, bound: real)
    ensures CountBelow(t + [x], bound) == CountBelow(t, bound) + if x < bound then 1 else 0
    ensures Sum(t + [x]) == Sum(t) + x
  {
    assert (t + [x])[..|t|] == t;
  }

  /** The other counters: how many samples reached each hitch threshold, their sum and the last one. */
  lemma {:induction false} TotalsDescribeSamples(samples: seq<real>, i: nat)
    requires i < NUM_HITCH_THRESHOLDS
    ensures var s, t := RecordAll(samples), Clamped(samples);
            && s.hitches[i] + CountBelow(t, HITCH_THRESHOLD_MS[i]) == |samples|
            && s.totalMs == Sum(t)
            && (samples != [] ==> s.lastMs == t[|t| - 1])
    decreases |samples|
  {
    if samples != [] {
      var front, last := samples[..|samples| - 1], samples[|samples| - 1];
      TotalsDescribeSamples(front, i);
      assert samples == front + [last];
      ClampedAppend(front, last);
      CountersOfAppend(Clamped(front), Clamp(last), HITCH_THRESHOLD_MS[i]);
    }
  }

  // ----- The percentile against exact order statistics -----

  predicate Sorted(s: seq<real>) {
    forall i, j | 0 <= i <= j < |s| :: s[i] <= s[j]
  }

  lemma {:induction false} AllBelow(s: seq<real>, x: real)
    ensures (forall i | 0 <= i < |s| :: s[i] < x) <==> CountBelow(s, x) == |s|
  {
    if s != [] {
      var front := s[..|s| - 1];
      AllBelow(front, x);
      assert forall i | 0 <= i < |front| :: front[i] == s[i];
    }
  }

  /** Of a sorted sequence, exactly the first CountBelow elements are below the bound. */
  lemma {:induction false} SortedBelow(s: seq<real>, x: real, k: nat)
    requires Sorted(s) && k < |s|
    ensures k < CountBelow(s, x) <==> s[k] < x
    decreases |s|
  {
    var front := s[..|s| - 1];
    if s[|s| - 1] < x {
      AllBelow(s, x);
    } else if k < |front| {
      SortedBelow(front, x, k);
    }
  }

  lemma {:induction false} CountBelowAppend(a: seq<real>, b: seq<real>, x: real)
    ensures CountBelow(a + b, x) == CountBelow(a, x) + CountBelow(b, x)
    decreases |b|
  {
    if b == [] {
      assert a + b == a;
    } else {
      CountBelowAppend(a, b[..|b| - 1], x);
      assert (a + b)[..|a + b| - 1] == a + b[..|b| - 1];
    }
  }

  /** Counting does not depend on the order. */
  lemma {:induction false} CountBelowPermuted(a: seq<real>, b: seq<real>, x: real)
    requires multiset(a) == multiset(b)
    ensures CountBelow(a, x) == CountBelow(b, x)
    decreases |a|
  {
    if a == [] {
      assert |multiset(b)| == 0;
    } else {
      var front, last := a[..|a| - 1], a[|a| - 1];
      assert a == front + [last];
      assert last in multiset(b);
      var i :| 0 <= i < |b| && b[i] == last;
      assert b == b[..i] + [last] + b[i + 1..];
      assert multiset(front) == multiset(a) - multiset{last};
      assert multiset(b[..i] + b[i + 1..]) == multiset(b) - multiset{last};
      CountBelowPermuted(front, b[..i] + b[i + 1..], x);
      CountBelowAppend(b[..i], b[i + 1..], x);
      CountBelowAppend(b[..i] + [last], b[i + 1..], x);
      CountBelowAppend(b[..i], [last], x);
      CountBelowAppend(front, [last], x);
    }
  }

  lemma {:induction false} ChosenIsFirst(buckets: Counts, rank: nat, i: nat)
    requires i <= NUM_BUCKETS
    ensures var b := ChosenFrom(buckets, rank, i);
            && (b < NUM_BUCKETS ==> rank < Cumulative(buckets, b + 1))
            && (b > i ==> Cumulative(buckets, b) <= rank)
    decreases NUM_BUCKETS - i
  {
    if i < NUM_BUCKETS && rank >= Cumulative(buckets, i + 1) {
      ChosenIsFirst(buckets, rank, i + 1);
    }
  }

  function LowerBound(b: nat): real
    requires b < NUM_BUCKETS
  {
    if b == 0 then 0.0 else BUCKET_UPPER_MS[b - 1]
  }

  lemma {:induction false} ChosenExists(buckets: Counts, rank: nat, i: nat)
    requires i < NUM_BUCKETS && rank < Cumulative(buckets, NUM_BUCKETS)
    ensures ChosenFrom(buckets, rank, i) < NUM_BUCKETS
    decreases NUM_BUCKETS - i
  {
    if i + 1 < NUM_BUCKETS {
      ChosenExists(buckets, rank, i + 1);
    }
  }

  lemma {:induction false} ChosenMonotone(buckets: Counts, r: nat, r': nat, i: nat)
    requires i <= NUM_BUCKETS && r <= r'
    ensures ChosenFrom(buckets, r, i) <= ChosenFrom(buckets, r', i)
    decreases NUM_BUCKETS - i
  {
    if i < NUM_BUCKETS && r >= Cumulative(buckets, i + 1) {
      ChosenMonotone(buckets, r, r', i + 1);
    }
  }

  lemma RankMonotone(count: nat, p: real, q: real)
    requires count > 0 && p <= q
    ensures Rank(count, p) <= Rank(count, q)
  {
    var low, high := ClampUnit(p) * count as real, ClampUnit(q) * count as real;
    ProductMonotone(ClampUnit(p), ClampUnit(q), count as real);
    assert low.Floor <= high.Floor;
    assert Scaled(ClampUnit(p), count) == low.Floor;
    assert Scaled(ClampUnit(q), count) == high.Floor;
  }

  /** The counters agree with the (clamped) samples t. */
  ghost predicate Describes(s: Stat, t: seq<real>) {
    && s.count == |t| == Cumulative(s.buckets, NUM_BUCKETS)
    && (forall n | 0 < n < NUM_BUCKETS :: Cumulative(s.buckets, n) == CountBelow(t, BUCKET_UPPER_MS[n - 1]))
    && IsMax(t, s.maxMs) && s.maxMs >= 0.0
    && (forall x | x in t :: x >= 0.0)
  }

  lemma CountersDescribeSamples(samples: seq<real>)
    ensures Describes(RecordAll(samples), Clamped(samples))
  {
    MaxIsMax(samples);
    BucketsCountSamples(samples, NUM_BUCKETS);
    forall n | 0 < n < NUM_BUCKETS
      ensures Cumulative(RecordAll(samples).buckets, n) == CountBelow(Clamped(samples), BUCKET_UPPER_MS[n - 1])
    {
      BucketsCountSamples(samples, n);
    }
  }

  lemma DescribesPermuted(s: Stat, t: seq<real>, sorted: seq<real>)
    requires Describes(s, t) && multiset(sorted) == multiset(t)
    ensures Describes(s, sorted)
  {
    assert |sorted| == |multiset(sorted)| == |multiset(t)|;
    assert forall x :: x in sorted <==> x in multiset(sorted);
    assert forall x :: x in t <==> x in multiset(t);
    forall n | 0 < n < NUM_BUCKETS ensures Cumulative(s.buckets, n) == CountBelow(sorted, BUCKET_UPPER_MS[n - 1]) {
      CountBelowPermuted(sorted, t, BUCKET_UPPER_MS[n - 1]);
    }
  }

  /** The sorted sample at a rank lies in the bucket chosen for the rank. */
  lemma RankInBucket(s: Stat, t: seq<real>, rank: nat, b: nat)
    requires Describes(s, t) && Sorted(t) && rank < |t| && b < NUM_BUCKETS
    requires rank < Cumulative(s.buckets, b + 1) && (b > 0 ==> Cumulative(s.buckets, b) <= rank)
    ensures LowerBound(b) <= t[rank]
    ensures b < NUM_BUCKETS - 1 ==> t[rank] < BUCKET_UPPER_MS[b]
  {
    assert t[rank] in t;
    if b > 0 {
      SortedBelow(t, BUCKET_UPPER_MS[b - 1], rank);
    }
    if b < NUM_BUCKETS - 1 {
      assert Cumulative(s.buckets, b + 1) == CountBelow(t, BUCKET_UPPER_MS[b + 1 - 1]);
      SortedBelow(t, BUCKET_UPPER_MS[b], rank);
    }
  }

  /** A rank below the count always falls into a bucket. */
  lemma ChosenBucket(s: Stat, p: real)
    requires s.count == Cumulative(s.buckets, NUM_BUCKETS) > 0
    ensures Chosen(s, p) < NUM_BUCKETS && Rank(s.count, p) < Cumulative(s.buckets, Chosen(s, p) + 1)
    ensures Chosen(s, p) > 0 ==> Cumulative(s.buckets, Chosen(s, p)) <= Rank(s.count, p)
  {
    ChosenExists(s.buckets, Rank(s.count, p), 0);
    ChosenIsFirst(s.buckets, Rank(s.count, p), 0);
  }

  // ----- The rank, and the value reported for it -----

  /** The index that p asks for among count sorted samples: the first for p <= 0, the last for p >= 1. */
  predicate IsRank(count: nat, p: real, r: nat) {
    && r < count
    && (p <= 0.0 ==> r == 0)
    && (0.0 < p < 1.0 ==> r as real <= p * count as real < r as real + 1.0)
    && (p >= 1.0 ==> r == count - 1)
  }

  /** There is exactly one such index, and it is the one computed. */
  lemma RankIsTheRank(count: nat, p: real, r: nat)
    requires count > 0
    ensures IsRank(count, p, r) <==> r == Rank(count, p)
  {
    var x := p * count as real;
    if 0.0 < p < 1.0 {
      ProductMonotone(p, 1.0, count as real);
      ProductBelow(p, count);
      assert Scaled(ClampUnit(p), count) == x.Floor;
    } else if p <= 0.0 {
      assert 0.0 * count as real == 0.0;
      assert Scaled(0.0, count) == 0;
    } else {
      assert 1.0 * count as real == count as real;
      assert Scaled(1.0, count) == count;
    }
  }

  lemma ProductBelow(p: real, count: nat)
    requires p < 1.0 && count > 0
    ensures p * count as real < count as real
  {
    assert (1.0 - p) * count as real > 0.0;
  }

  /** The value is the least of the histogram's bounds above x. */
  predicate IsBoundAbove(x: real, bound: real) {
    bound in BUCKET_UPPER_MS && x < bound && forall other | other in BUCKET_UPPER_MS && x < other :: bound <= other
  }

  lemma BucketBoundIsLeast(b: nat, x: real)
    requires b < NUM_BUCKETS - 1 && LowerBound(b) <= x < BUCKET_UPPER_MS[b]
    ensures IsBoundAbove(x, BUCKET_UPPER_MS[b])
  {
    forall other | other in BUCKET_UPPER_MS && x < other ensures BUCKET_UPPER_MS[b] <= other {
      var j :| 0 <= j < |BUCKET_UPPER_MS| && BUCKET_UPPER_MS[j] == other;
      if j < b {
        BoundsIncrease(j, b - 1);
      } else {
        BoundsIncrease(b, j);
      }
    }
  }

  /**
   For every sample sequence and every p, with x the sample at the rank of p among the sorted samples:
   the value reported is the least bound of the histogram above x, or the largest sample when x is
   50 ms or more.
   */
  lemma PercentileBrackets(samples: seq<real>, sorted: seq<real>, p: real, r: nat)
    requires samples != [] && Sorted(sorted) && multiset(sorted) == multiset(Clamped(samples))
    requires IsRank(|samples|, p, r)
    ensures |sorted| == |samples|
    ensures var reported := Percentile(RecordAll(samples), p);
            && (sorted[r] < 50.0 ==> IsBoundAbove(sorted[r], reported))
            && (sorted[r] >= 50.0 ==> reported == sorted[|sorted| - 1])
  {
    var s := RecordAll(samples);
    CountersDescribeSamples(samples);
    DescribesPermuted(s, Clamped(samples), sorted);
    RankIsTheRank(|samples|, p, r);
    PercentileOfSorted(s, sorted, p);
    var b := Chosen(s, p);
    if b < NUM_BUCKETS - 1 {
      BucketBoundIsLeast(b, sorted[r]);
      BoundsIncrease(b, NUM_BUCKETS - 2);
    } else {
      MaxIsLast(sorted, s.maxMs);
    }
  }

  lemma MaxIsLast(sorted: seq<real>, m: real)
    requires Sorted(sorted) && sorted != [] && IsMax(sorted, m)
    ensures m == sorted[|sorted| - 1]
  {
    var i :| 0 <= i < |sorted| && sorted[i] == m;
    assert sorted[|sorted| - 1] in sorted;
  }

  lemma PercentileOfSorted(s: Stat, t: seq<real>, p: real)
    requires Describes(s, t) && Sorted(t) && t != []
    ensures Chosen(s, p) < NUM_BUCKETS
    ensures LowerBound(Chosen(s, p)) <= t[Rank(s.count, p)] <= Percentile(s, p)
    ensures Chosen(s, p) < NUM_BUCKETS - 1 ==> t[Rank(s.count, p)] < Percentile(s, p)
  {
    ChosenBucket(s, p);
    RankInBucket(s, t, Rank(s.count, p), Chosen(s, p));
    assert t[Rank(s.count, p)] in t;
  }

  /** When the open last bucket is not empty, the maximum is at least every finite bound. */
  lemma LastBucketMax(s: Stat, t: seq<real>, b: nat)
    requires Describes(s, t) && Cumulative(s.buckets, NUM_BUCKETS - 1) < |t| && b < NUM_BUCKETS - 1
    ensures BUCKET_UPPER_MS[b] <= s.maxMs
  {
    var last := NUM_BUCKETS - 2;
    AllBelow(t, BUCKET_UPPER_MS[last]);
    var i :| 0 <= i < |t| && t[i] >= BUCKET_UPPER_MS[last];
    assert t[i] in t;
    BoundsIncrease(b, last);
  }

  lemma PercentileMonotoneFor(s: Stat, t: seq<real>, p: real, q: real)
    requires Describes(s, t) && p <= q
    ensures Percentile(s, p) <= Percentile(s, q)
  {
    if t != [] {
      ChosenBucket(s, p);
      ChosenBucket(s, q);
      RankMonotone(s.count, p, q);
      ChosenMonotone(s.buckets, Rank(s.count, p), Rank(s.count, q), 0);
      if Chosen(s, q) < NUM_BUCKETS - 1 {
        BoundsIncrease(Chosen(s, p), Chosen(s, q));
      } else if Chosen(s, p) < NUM_BUCKETS - 1 {
        LastBucketMax(s, t, Chosen(s, p));
      }
    }
  }

  /** A larger p never reports a smaller value, also when it reaches the open last bucket. */
  lemma PercentileMonotone(samples: seq<real>, p: real, q: real)
    requires p <= q
    ensures 0.0 == Percentile(RecordAll([]), p) <= Percentile(RecordAll(samples), p) <= Percentile(RecordAll(samples), q)
  {
    CountersDescribeSamples(samples);
    PercentileMonotoneFor(RecordAll(samples), Clamped(samples), p, q);
  }
}
