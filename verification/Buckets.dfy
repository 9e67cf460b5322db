/** Logarithmic latency buckets: the arithmetic of internal/store/histogram.go.

    Floating point is modelled by reals.  The growth ratio `g` is the number the program computes it
    as: the one whose 256th power is the ratio of the largest to the smallest duration.
  */
module Buckets {

  const BUCKETS := 256
  const MIN_NANOS := 1000
  const MAX_NANOS := 1_000_000_000_000

  function Pow(g: real, n: nat): real {
    if n == 0 then 1.0 else g * Pow(g, n - 1)
  }

  ghost predicate IsGrowth(g: real) {
    g > 1.0 && Pow(g, 256) == 1_000_000_000.0
  }

  /** The lower edge of bucket `i`, and the upper one of the bucket before it. */
  function Edge(g: real, i: nat): real { 1000.0 * Pow(g, i) }

  /** The quotient of the logarithms, rounded down: the last of the first `n` edges not above `d`. */
  function FloorLog(g: real, d: int, n: nat): nat {
    if n == 0 || Edge(g, n) <= d as real then n else FloorLog(g, d, n - 1)
  }

  function BucketIndex(g: real, d: int): int {
    if d <= MIN_NANOS then 0
    else if d >= MAX_NANOS then BUCKETS - 1
    else FloorLog(g, d, BUCKETS - 1)
  }

  function BucketUpperBound(g: real, i: int): int {
    if i < 0 then MIN_NANOS
    else if i >= BUCKETS - 1 then MAX_NANOS
    else Edge(g, i + 1).Floor
  }

  lemma EdgeStep(g: real, i: nat)
    ensures Edge(g, i + 1) == g * Edge(g, i)
  {
    var p := Pow(g, i);
    assert 1000.0 * (g * p) == g * (1000.0 * p);
  }

  lemma EdgesEnd(g: real)
    requires IsGrowth(g)
    ensures Edge(g, 0) == 1000.0 && Edge(g, 256) == 1_000_000_000_000.0
  {
  }

  lemma {:induction false} EdgePositive(g: real, i: nat)
    requires g > 1.0
    ensures Edge(g, i) >= 1000.0
  {
    if i > 0 {
      EdgePositive(g, i - 1);
      EdgeStep(g, i - 1);
      Grows(g, Edge(g, i - 1));
    }
  }

  lemma Grows(g: real, x: real)
    requires g > 1.0 && x > 0.0
    ensures g * x > x
  {
    assert (g - 1.0) * x > 0.0;
  }

  lemma {:induction false} EdgesRise(g: real, i: nat, j: nat)
    requires g > 1.0 && i <= j
    ensures Edge(g, i) <= Edge(g, j)
  {
    if i < j {
      EdgesRise(g, i, j - 1);
      EdgePositive(g, j - 1);
      EdgeStep(g, j - 1);
      Grows(g, Edge(g, j - 1));
    }
  }

  lemma {:induction false} FloorLogBetween(g: real, d: int, n: nat)
    requires g > 1.0 && d >= MIN_NANOS
    ensures var r := FloorLog(g, d, n);
            r <= n && Edge(g, r) <= d as real && (r < n ==> (d as real) < Edge(g, r + 1))
  {
    if n > 0 && !(Edge(g, n) <= d as real) {
      FloorLogBetween(g, d, n - 1);
    } else if n == 0 {
      assert Edge(g, 0) == 1000.0;
    }
  }

  /** A duration between the extremes lies between the edges of its bucket. */
  lemma BucketContains(g: real, d: int)
    requires IsGrowth(g) && 1000 < d < 1_000_000_000_000
    ensures var i := BucketIndex(g, d);
            0 <= i < BUCKETS && Edge(g, i) <= d as real < Edge(g, i + 1)
  {
    FloorLogBetween(g, d, BUCKETS - 1);
    EdgesEnd(g);
  }

  lemma IndexInRange(g: real, d: int)
    requires IsGrowth(g)
    ensures 0 <= BucketIndex(g, d) < BUCKETS
  {
    if MIN_NANOS < d < MAX_NANOS {
      BucketContains(g, d);
    }
  }

  /** Longer durations never land in lower buckets. */
  lemma IndexMonotone(g: real, d: int, e: int)
    requires IsGrowth(g) && d <= e
    ensures BucketIndex(g, d) <= BucketIndex(g, e)
  {
    IndexInRange(g, d);
    IndexInRange(g, e);
    if MIN_NANOS < d && e < MAX_NANOS {
      BucketContains(g, d);
      BucketContains(g, e);
      if BucketIndex(g, d) > BucketIndex(g, e) {
        EdgesRise(g, BucketIndex(g, e) + 1, BucketIndex(g, d));
      }
    }
  }

  /** A bucket's upper bound never understates a duration in it, unless that saturates, and never
      exceeds it by more than one growth step. */
  lemma UpperBoundError(g: real, d: int)
    requires IsGrowth(g)
    ensures var u := BucketUpperBound(g, BucketIndex(g, d));
            && (d <= u <==> d <= MAX_NANOS)
            && u as real <= g * (if d < MIN_NANOS then MIN_NANOS else d) as real
  {
    EdgesEnd(g);
    EdgeStep(g, 0);
    if d <= MIN_NANOS {
      Grows(g, 1000.0);
    } else if d >= MAX_NANOS {
      Grows(g, d as real);
    } else {
      BucketContains(g, d);
      var i := BucketIndex(g, d);
      EdgeStep(g, i);
      Scaled(g, Edge(g, i), d as real);
    }
  }

  lemma Scaled(g: real, x: real, y: real)
    requires g > 1.0 && x <= y
    ensures g * x <= g * y
  {
    assert g * (y - x) >= 0.0;
  }
}
