/** The latency histogram: internal/store/histogram.go. */
module LatencyHistogram {

  import opened Buckets

  // ---- Counting samples -------------------------------------------------------------------

  ghost function Count(samples: seq<int>, p: int -> bool): nat {
    if samples == [] then 0
    else Count(samples[..|samples| - 1], p) + if p(samples[|samples| - 1]) then 1 else 0
  }

  lemma {:induction false} CountImplies(samples: seq<int>, p: int -> bool, q: int -> bool)
    requires forall x :: p(x) ==> q(x)
    ensures Count(samples, p) <= Count(samples, q) <= |samples|
  {
    if samples != [] {
      CountImplies(samples[..|samples| - 1], p, q);
    }
  }

  lemma {:induction false} CountSplits(samples: seq<int>, p: int -> bool, q: int -> bool, r: int -> bool)
    requires forall x :: (r(x) <==> p(x) || q(x)) && !(p(x) && q(x))
    ensures Count(samples, r) == Count(samples, p) + Count(samples, q)
  {
    if samples != [] {
      CountSplits(samples[..|samples| - 1], p, q, r);
    }
  }

  lemma {:induction false} CountAppend(a: seq<int>, b: seq<int>, p: int -> bool)
    ensures Count(a + b, p) == Count(a, p) + Count(b, p)
  {
    if b == [] {
      assert a + b == a;
    } else {
      assert (a + b)[..|a + b| - 1] == a + b[..|b| - 1];
      CountAppend(a, b[..|b| - 1], p);
    }
  }

  lemma {:induction false} CountNone(samples: seq<int>, p: int -> bool)
    requires forall x :: !p(x)
    ensures Count(samples, p) == 0
  {
    if samples != [] {
      CountNone(samples[..|samples| - 1], p);
    }
  }

  lemma {:induction false} CountAll(samples: seq<int>, p: int -> bool)
    requires forall x :: p(x)
    ensures Count(samples, p) == |samples|
  {
    if samples != [] {
      CountAll(samples[..|samples| - 1], p);
    }
  }

  ghost function InBucket(g: real, i: int): int -> bool { d => BucketIndex(g, d) == i }
  ghost function BelowBucket(g: real, i: int): int -> bool { d => BucketIndex(g, d) < i }
  ghost function Below(v: int): int -> bool { d => d < v }
  ghost function AtMost(v: int): int -> bool { d => d <= v }

  /** `v` is the `t`-th of the samples in ascending order. */
  ghost predicate IsOrderStat(samples: seq<int>, t: int, v: int) {
    Count(samples, Below(v)) < t <= Count(samples, AtMost(v))
  }

  /** In a sorted list the order statistics are its elements. */
  lemma {:induction false} OrderStatOfSorted(samples: seq<int>, t: int)
    requires forall i, j :: 0 <= i <= j < |samples| ==> samples[i] <= samples[j]
    requires 1 <= t <= |samples|
    ensures IsOrderStat(samples, t, samples[t - 1])
  {
    var v, upto, rest := samples[t - 1], samples[..t - 1], samples[t - 1..];
    assert samples == upto + rest && samples == samples[..t] + samples[t..];
    CountAppend(upto, rest, Below(v));
    CountAppend(samples[..t], samples[t..], AtMost(v));
    CountHere(rest, Below(v), false);
    CountHere(samples[..t], AtMost(v), true);
    CountImplies(upto, Below(v), Below(v));
  }

  lemma {:induction false} CountHere(samples: seq<int>, p: int -> bool, all: bool)
    requires forall i :: 0 <= i < |samples| ==> p(samples[i]) == all
    ensures Count(samples, p) == if all then |samples| else 0
  {
    if samples != [] {
      CountHere(samples[..|samples| - 1], p, all);
    }
  }

  // ---- Bucket counts ----------------------------------------------------------------------

  ghost function SumTo(counts: seq<int>, n: nat): int
    requires n <= |counts|
  {
    if n == 0 then 0 else SumTo(counts, n - 1) + counts[n - 1]
  }

  /** The counts of the samples, bucket by bucket. */
  ghost function CountsOf(g: real, samples: seq<int>): seq<int> {
    seq(BUCKETS, i => Count(samples, InBucket(g, i)))
  }

  ghost predicate Represents(g: real, counts: seq<int>, total: int, samples: seq<int>) {
    counts == CountsOf(g, samples) && total == |samples|
  }

  lemma {:induction false} SumIsBelow(g: real, samples: seq<int>, n: nat)
    requires IsGrowth(g) && n <= BUCKETS
    ensures SumTo(CountsOf(g, samples), n) == Count(samples, BelowBucket(g, n))
  {
    if n == 0 {
      forall d ensures !BelowBucket(g, 0)(d) {
        IndexInRange(g, d);
      }
      CountNone(samples, BelowBucket(g, 0));
    } else {
      SumIsBelow(g, samples, n - 1);
      CountSplits(samples, BelowBucket(g, n - 1), InBucket(g, n - 1), BelowBucket(g, n));
    }
  }

  lemma SumIsAll(g: real, samples: seq<int>)
    requires IsGrowth(g)
    ensures SumTo(CountsOf(g, samples), BUCKETS) == |samples|
  {
    SumIsBelow(g, samples, BUCKETS);
    forall d ensures BelowBucket(g, BUCKETS)(d) {
      IndexInRange(g, d);
    }
    CountAll(samples, BelowBucket(g, BUCKETS));
  }

  /** Adding one to a duration's bucket records that duration. */
  lemma AddRecordsSample(g: real, samples: seq<int>, d: int)
    requires IsGrowth(g)
    ensures var b := BucketIndex(g, d);
            && 0 <= b < BUCKETS
            && CountsOf(g, samples + [d]) == CountsOf(g, samples)[b := CountsOf(g, samples)[b] + 1]
  {
    IndexInRange(g, d);
    assert (samples + [d])[..|samples|] == samples;
  }

  lemma RepresentsIsConsistent(g: real, counts: seq<int>, total: int, samples: seq<int>)
    requires IsGrowth(g) && Represents(g, counts, total, samples)
    ensures |counts| == BUCKETS && total == SumTo(counts, BUCKETS)
    ensures forall i :: 0 <= i < BUCKETS ==> counts[i] >= 0
  {
    SumIsAll(g, samples);
  }

  function Ceiling(x: real): int { -((-x).Floor) }

  /** The 1-based rank a quantile asks for. */
  function Rank(q: real, total: int): int {
    if q <= 0.0 then 1 else if q >= 1.0 then total else Ceiling(q * total as real)
  }

  lemma RankInRange(q: real, total: int)
    requires total >= 1
    ensures 1 <= Rank(q, total) <= total
  {
    if 0.0 < q < 1.0 {
      var x := q * total as real;
      assert 0.0 < x by { Positive(q, total as real); }
      assert x < total as real by { Positive(1.0 - q, total as real); }
    }
  }

  lemma Positive(x: real, y: real)
    requires x > 0.0 && y > 0.0
    ensures x * y > 0.0
  {
  }

  lemma {:induction false} CountBounds(samples: seq<int>, p: int -> bool)
    ensures 0 <= Count(samples, p) <= |samples|
    ensures Count(samples, p) == 0 <==> forall x :: x in samples ==> !p(x)
    ensures Count(samples, p) == |samples| <==> forall x :: x in samples ==> p(x)
  {
    if samples != [] {
      var front, last := samples[..|samples| - 1], samples[|samples| - 1];
      assert samples == front + [last];
      CountBounds(front, p);
    }
  }

  /** The sample of that rank is the quantile: fewer than that share of the samples lie below it, and at
      least that share no higher.  At the ends it is the least and the greatest sample. */
  lemma RankIsQuantile(samples: seq<int>, q: real, v: int)
    requires samples != []
    ensures 0.0 < q < 1.0 ==>
              (IsOrderStat(samples, Rank(q, |samples|), v) <==>
               Count(samples, Below(v)) as real < q * |samples| as real <= Count(samples, AtMost(v)) as real)
    ensures q <= 0.0 ==>
              (IsOrderStat(samples, Rank(q, |samples|), v) <==> v in samples && forall x :: x in samples ==> v <= x)
    ensures q >= 1.0 ==>
              (IsOrderStat(samples, Rank(q, |samples|), v) <==> v in samples && forall x :: x in samples ==> x <= v)
  {
    CountBounds(samples, Below(v));
    CountBounds(samples, AtMost(v));
    assert v in samples <==> exists x :: x in samples && AtMost(v)(x) && !Below(v)(x);
  }

  /** The bucket in which the cumulative count reaches `t`. */
  ghost predicate IsRankBucket(counts: seq<int>, t: int, i: int) {
    0 <= i < |counts| && SumTo(counts, i) < t <= SumTo(counts, i + 1)
  }

  /** The first bucket with a positive count, or bucket 0. */
  ghost predicate FirstPositive(counts: seq<int>, i: int) {
    && 0 <= i < |counts|
    && (forall k :: 0 <= k < i ==> counts[k] <= 0)
    && (counts[i] > 0 || (i == 0 && forall k :: 0 <= k < |counts| ==> counts[k] <= 0))
  }

  /** The last bucket with a positive count, or bucket 0. */
  ghost predicate LastPositive(counts: seq<int>, i: int) {
    && 0 <= i < |counts|
    && if counts[i] > 0 then forall k :: i < k < |counts| ==> counts[k] <= 0
       else i == 0 && forall k :: 0 <= k < |counts| ==> counts[k] <= 0
  }

  ghost predicate StaysBelow(counts: seq<int>, t: int, n: int)
    requires n <= |counts|
  {
    forall k :: 0 < k <= n ==> SumTo(counts, k) < t
  }

  ghost predicate Reaches(counts: seq<int>, t: int, i: int) {
    0 <= i < |counts| && StaysBelow(counts, t, i) && SumTo(counts, i + 1) >= t
  }

  /** The bucket a quantile is read from, whatever the counts are. */
  ghost predicate Answers(counts: seq<int>, total: int, q: real, i: int) {
    if q <= 0.0 then FirstPositive(counts, i)
    else if q >= 1.0 then LastPositive(counts, i)
    else
      var t := Ceiling(q * total as real);
      Reaches(counts, t, i) || (StaysBelow(counts, t, |counts|) && LastPositive(counts, i))
  }

  /** With the counts the total stands for, that is the bucket holding the quantile's rank. */
  lemma AnswerHoldsTheRank(counts: seq<int>, total: int, q: real, i: int)
    requires forall k :: 0 <= k < |counts| ==> counts[k] >= 0
    requires total == SumTo(counts, |counts|) && total != 0 && Answers(counts, total, q, i)
    ensures 1 <= Rank(q, total) <= total && IsRankBucket(counts, Rank(q, total), i)
  {
    TotalPositive(counts);
    SumNatural(counts, |counts|);
    RankInRange(q, total);
    if q <= 0.0 {
      SumOfZeros(counts, i);
    } else if q >= 1.0 {
      SumFlat(counts, i + 1, |counts|);
    } else if i > 0 {
      assert SumTo(counts, i) < Rank(q, total);
    }
  }

  /** That bucket is the one the `t`-th sample fell into. */
  lemma RankBucketHoldsOrderStat(g: real, samples: seq<int>, t: int, i: int, v: int)
    requires IsGrowth(g) && IsRankBucket(CountsOf(g, samples), t, i) && IsOrderStat(samples, t, v)
    ensures BucketIndex(g, v) == i
  {
    var b := BucketIndex(g, v);
    IndexInRange(g, v);
    SumIsBelow(g, samples, i);
    SumIsBelow(g, samples, i + 1);
    if b < i {
      forall d | AtMost(v)(d) ensures BelowBucket(g, i)(d) {
        IndexMonotone(g, d, v);
      }
      CountImplies(samples, AtMost(v), BelowBucket(g, i));
    } else if b > i {
      forall d | BelowBucket(g, i + 1)(d) ensures Below(v)(d) {
        if v <= d {
          IndexMonotone(g, v, d);
        }
      }
      CountImplies(samples, BelowBucket(g, i + 1), Below(v));
    }
  }

  /** What a histogram reports for a rank of its samples: at least the true value exactly when that
      does not exceed the largest duration, and at most one growth step above it or the smallest. */
  lemma QuantileError(g: real, samples: seq<int>, t: int, i: int, v: int)
    requires IsGrowth(g) && IsRankBucket(CountsOf(g, samples), t, i) && IsOrderStat(samples, t, v)
    ensures var r := BucketUpperBound(g, i);
            && (v <= r <==> v <= MAX_NANOS)
            && r as real <= g * (if v < MIN_NANOS then MIN_NANOS else v) as real
  {
    RankBucketHoldsOrderStat(g, samples, t, i, v);
    UpperBoundError(g, v);
  }

  // ---- Merging ----------------------------------------------------------------------------

  ghost function Sum(a: seq<int>, b: seq<int>): seq<int>
    requires |a| == |b|
  {
    seq(|a|, i requires 0 <= i < |a| => a[i] + b[i])
  }

  /** Merging by addition is the same as having recorded all samples in one histogram. */
  lemma MergeIsPooling(g: real, a: seq<int>, b: seq<int>)
    ensures CountsOf(g, a + b) == Sum(CountsOf(g, a), CountsOf(g, b))
  {
    forall i | 0 <= i < BUCKETS ensures CountsOf(g, a + b)[i] == CountsOf(g, a)[i] + CountsOf(g, b)[i] {
      CountAppend(a, b, InBucket(g, i));
    }
  }

  ghost function Pool(parts: seq<seq<int>>): seq<int> {
    if parts == [] then [] else Pool(parts[..|parts| - 1]) + parts[|parts| - 1]
  }

  /** Any number of histograms added up, in order. */
  ghost function MergeAll(g: real, parts: seq<seq<int>>): (counts: seq<int>)
    ensures |counts| == BUCKETS
  {
    if parts == [] then CountsOf(g, [])
    else Sum(MergeAll(g, parts[..|parts| - 1]), CountsOf(g, parts[|parts| - 1]))
  }

  /** So a quantile over any number of merged minutes has the error of one over the pooled samples. */
  lemma {:induction false} MergeAllIsPooling(g: real, parts: seq<seq<int>>)
    ensures MergeAll(g, parts) == CountsOf(g, Pool(parts))
  {
    if parts != [] {
      MergeAllIsPooling(g, parts[..|parts| - 1]);
      MergeIsPooling(g, Pool(parts[..|parts| - 1]), parts[|parts| - 1]);
    }
  }

  /** A quantile over any number of merged histograms, answered from their added counts: the true value
      of its rank among the pooled samples is not understated, unless it exceeds the largest duration,
      and is overstated by at most one growth step. */
  lemma MergedQuantileError(g: real, parts: seq<seq<int>>, q: real, i: int, v: int)
    requires IsGrowth(g) && Pool(parts) != []
    requires Answers(MergeAll(g, parts), |Pool(parts)|, q, i)
    requires IsOrderStat(Pool(parts), Rank(q, |Pool(parts)|), v)
    ensures var r := BucketUpperBound(g, i);
            && (v <= r <==> v <= MAX_NANOS)
            && r as real <= g * (if v < MIN_NANOS then MIN_NANOS else v) as real
  {
    var samples := Pool(parts);
    MergeAllIsPooling(g, parts);
    RepresentsIsConsistent(g, CountsOf(g, samples), |samples|, samples);
    AnswerHoldsTheRank(CountsOf(g, samples), |samples|, q, i);
    QuantileError(g, samples, Rank(q, |samples|), i, v);
  }

  // ---- The histogram itself ---------------------------------------------------------------

  class Histogram {
    const g: real
    var counts: array<int>
    var total: int

    /** As far as the type goes: counts may be anything, but there is one a bucket. */
    ghost predicate Valid()
      reads this
    {
      counts.Length == BUCKETS
    }

    /** The cached total is right and nothing was subtracted. */
    ghost predicate Consistent()
      reads this, counts
      requires Valid()
    {
      total == SumTo(counts[..], BUCKETS) && forall i :: 0 <= i < BUCKETS ==> counts[i] >= 0
    }

    constructor (g: real)
      ensures Valid() && Consistent() && this.g == g && fresh(counts)
      ensures forall i :: 0 <= i < BUCKETS ==> counts[i] == 0
    {
      this.g := g;
      counts := new int[BUCKETS](_ => 0);
      total := 0;
      new;
      SumOfZeros(counts[..], BUCKETS);
    }

    /** A bucket out of range is ignored. */
    method Add(bucket: int, count: int)
      requires Valid()
      modifies this`total, counts
      ensures Valid() && counts == old(counts)
      ensures if 0 <= bucket < BUCKETS
              then counts[..] == old(counts[..])[bucket := old(counts[bucket]) + count] && total == old(total) + count
              else counts[..] == old(counts[..]) && total == old(total)
      ensures old(Consistent()) && count >= 0 ==> Consistent()
    {
      if bucket < 0 || bucket >= BUCKETS {
        return;
      }
      ghost var before := counts[..];
      counts[bucket] := counts[bucket] + count;
      total := total + count;
      SumAfterUpdate(before, bucket, count, BUCKETS);
    }

    method Merge(other: Histogram)
      requires Valid() && other.Valid() && (counts == other.counts ==> this == other)
      modifies this`total, counts
      ensures Valid() && counts == old(counts)
      ensures counts[..] == Sum(old(counts[..]), old(other.counts[..]))
      ensures total == old(total) + old(other.total)
    {
      ghost var a, b := counts[..], other.counts[..];
      for i := 0 to counts.Length
        invariant counts.Length == BUCKETS
        invariant forall k :: 0 <= k < i ==> counts[k] == a[k] + b[k]
        invariant forall k :: i <= k < BUCKETS ==> counts[k] == a[k] && other.counts[k] == b[k]
        invariant total == old(total) && other.total == old(other.total)
      {
        counts[i] := counts[i] + other.counts[i];
      }
      total := total + other.total;
    }

    /** The upper bound of the bucket that answers for the quantile, or zero for no samples. */
    method Quantile(q: real) returns (r: int)
      requires Valid()
      ensures total == 0 ==> r == 0
      ensures total != 0 ==> exists i :: Answers(counts[..], total, q, i) && r == BucketUpperBound(g, i)
    {
      if total == 0 {
        return 0;
      }
      if q <= 0.0 {
        var first := FirstNonEmpty();
        return BucketUpperBound(g, first);
      }
      if q >= 1.0 {
        var last := LastNonEmpty();
        return BucketUpperBound(g, last);
      }
      ghost var all := counts[..];
      var target := Ceiling(q * total as real);
      var cumulative := 0;
      for i := 0 to counts.Length
        invariant cumulative == SumTo(all, i) && StaysBelow(all, target, i)
      {
        cumulative := cumulative + counts[i];
        if cumulative >= target {
          assert Reaches(all, target, i);
          return BucketUpperBound(g, i);
        }
      }
      var last := LastNonEmpty();
      return BucketUpperBound(g, last);
    }

    method FirstNonEmpty() returns (first: int)
      requires Valid()
      ensures FirstPositive(counts[..], first)
    {
      for i := 0 to counts.Length
        invariant forall k :: 0 <= k < i ==> counts[k] <= 0
      {
        if counts[i] > 0 {
          return i;
        }
      }
      first := 0;
    }

    method LastNonEmpty() returns (last: int)
      requires Valid()
      ensures LastPositive(counts[..], last)
    {
      for i := counts.Length downto 0
        invariant forall k :: i <= k < BUCKETS ==> counts[k] <= 0
      {
        if counts[i] > 0 {
          return i;
        }
      }
      last := 0;
    }
  }

  lemma {:induction false} SumOfZeros(counts: seq<int>, n: nat)
    requires n <= |counts| && forall i :: 0 <= i < n ==> counts[i] == 0
    ensures SumTo(counts, n) == 0
  {
    if n > 0 {
      SumOfZeros(counts, n - 1);
    }
  }

  lemma {:induction false} SumAfterUpdate(counts: seq<int>, b: nat, more: int, n: nat)
    requires b < |counts| && n <= |counts|
    ensures SumTo(counts[b := counts[b] + more], n) == SumTo(counts, n) + if b < n then more else 0
  {
    if n > 0 {
      SumAfterUpdate(counts, b, more, n - 1);
    }
  }

  lemma {:induction false} SumFlat(counts: seq<int>, m: nat, n: nat)
    requires m <= n <= |counts| && forall i :: m <= i < n ==> counts[i] == 0
    ensures SumTo(counts, n) == SumTo(counts, m)
  {
    if m < n {
      SumFlat(counts, m, n - 1);
    }
  }

  lemma TotalPositive(counts: seq<int>)
    requires forall i :: 0 <= i < |counts| ==> counts[i] >= 0
    requires SumTo(counts, |counts|) != 0
    ensures exists i :: 0 <= i < |counts| && counts[i] > 0
  {
    if forall i :: 0 <= i < |counts| ==> counts[i] == 0 {
      SumOfZeros(counts, |counts|);
    }
  }

  lemma {:induction false} SumNatural(counts: seq<int>, n: nat)
    requires n <= |counts| && forall i :: 0 <= i < n ==> counts[i] >= 0
    ensures SumTo(counts, n) >= 0
  {
    if n > 0 {
      SumNatural(counts, n - 1);
    }
  }
}
