/** The ingest rate limiter: internal/pipeline/limits.go.  Times are in seconds; floats are reals. */
module RateLimit {

  datatype Bucket = Bucket(tokens: real, lastFill: real)

  function Min(a: real, b: real): real { if a < b then a else b }

  function Earned(seconds: real, limit: int): real { seconds * limit as real }

  function Refill(b: Bucket, limit: int, now: real): Bucket {
    Bucket(Min(b.tokens + Earned(now - b.lastFill, limit), limit as real), now)
  }

  predicate Admits(b: Bucket, limit: int, now: real) {
    limit <= 0 || Refill(b, limit, now).tokens >= 1.0
  }

  function After(b: Bucket, limit: int, now: real): Bucket {
    if limit <= 0 then b
    else
      var r := Refill(b, limit, now);
      if r.tokens < 1.0 then r else r.(tokens := r.tokens - 1.0)
  }

  /** The bucket after calls at all those times. */
  function AfterAll(b: Bucket, limit: int, times: seq<real>): Bucket {
    if times == [] then b else After(AfterAll(b, limit, times[..|times| - 1]), limit, times[|times| - 1])
  }

  /** How many of the calls are admitted. */
  function Admitted(b: Bucket, limit: int, times: seq<real>): nat {
    if times == [] then 0
    else
      var front, last := times[..|times| - 1], times[|times| - 1];
      Admitted(b, limit, front) + if Admits(AfterAll(b, limit, front), limit, last) then 1 else 0
  }

  ghost predicate Clock(from: real, times: seq<real>) {
    && (forall i :: 0 <= i < |times| ==> from <= times[i])
    && (forall i, j :: 0 <= i < j < |times| ==> times[i] <= times[j])
  }

  ghost predicate Valid(b: Bucket, limit: int) { 0.0 <= b.tokens <= limit as real }

  lemma EarnedMore(x: real, y: real, limit: int)
    requires x <= y && limit >= 0
    ensures Earned(x, limit) <= Earned(y, limit)
  {
    assert (y - x) * limit as real >= 0.0;
  }

  lemma EarnedTogether(x: real, y: real, limit: int)
    ensures Earned(x, limit) + Earned(y, limit) == Earned(x + y, limit)
  {
  }

  lemma CallKeepsValid(b: Bucket, limit: int, now: real)
    requires limit > 0 && Valid(b, limit) && b.lastFill <= now
    ensures Valid(After(b, limit, now), limit) && After(b, limit, now).lastFill == now
  {
    EarnedMore(0.0, now - b.lastFill, limit);
  }

  /** A call uses no more than was there and what the time since has earned, nor more than the limit. */
  lemma CallIsPaidFor(b: Bucket, limit: int, now: real)
    requires limit > 0
    ensures var used := After(b, limit, now).tokens + if Admits(b, limit, now) then 1.0 else 0.0;
            used <= b.tokens + Earned(now - b.lastFill, limit) && used <= limit as real
  {
    var r := Refill(b, limit, now);
    Least(b.tokens + Earned(now - b.lastFill, limit), limit as real);
    assert After(b, limit, now) == if r.tokens < 1.0 then r else r.(tokens := r.tokens - 1.0);
  }

  lemma Least(x: real, y: real)
    ensures Min(x, y) <= x && Min(x, y) <= y
  {
  }

  /** Tokens stay within the limit over any stretch of calls. */
  lemma {:induction false} CallsKeepValid(b: Bucket, limit: int, times: seq<real>)
    requires limit > 0 && Valid(b, limit) && Clock(b.lastFill, times)
    ensures Valid(AfterAll(b, limit, times), limit)
    ensures AfterAll(b, limit, times).lastFill == if times == [] then b.lastFill else times[|times| - 1]
  {
    if times != [] {
      CallsKeepValid(b, limit, times[..|times| - 1]);
      CallKeepsValid(AfterAll(b, limit, times[..|times| - 1]), limit, times[|times| - 1]);
    }
  }

  /** `n` calls admitted since time `first`, and the tokens left, were together paid for by time. */
  ghost predicate Paid(b: Bucket, limit: int, n: nat, first: real) {
    n as real + b.tokens <= limit as real + Earned(b.lastFill - first, limit)
  }

  lemma OneMorePaid(b: Bucket, limit: int, n: nat, first: real, now: real)
    requires limit > 0 && Paid(b, limit, n, first)
    ensures Paid(After(b, limit, now), limit, n + if Admits(b, limit, now) then 1 else 0, first)
  {
    CallIsPaidFor(b, limit, now);
    EarnedTogether(now - b.lastFill, b.lastFill - first, limit);
  }

  lemma FirstPaid(b: Bucket, limit: int, now: real)
    requires limit > 0
    ensures Paid(After(b, limit, now), limit, if Admits(b, limit, now) then 1 else 0, now)
  {
    CallIsPaidFor(b, limit, now);
  }

  lemma {:induction false} CallsArePaid(b: Bucket, limit: int, times: seq<real>)
    requires limit > 0 && times != []
    ensures Paid(AfterAll(b, limit, times), limit, Admitted(b, limit, times), times[0])
  {
    var front, last := times[..|times| - 1], times[|times| - 1];
    if front == [] {
      assert Admitted(b, limit, front) == 0 && AfterAll(b, limit, front) == b;
      FirstPaid(b, limit, last);
    } else {
      CallsArePaid(b, limit, front);
      OneMorePaid(AfterAll(b, limit, front), limit, Admitted(b, limit, front), times[0], last);
    }
  }

  /** At most the limit for each second, and once more for the start. */
  ghost predicate WithinBurst(n: nat, limit: int, seconds: real) {
    n as real <= Earned(seconds, limit) + limit as real
  }

  /** From time s to time t at most limit * (t - s) + limit calls are admitted, whatever came before. */
  lemma BurstIsBounded(b: Bucket, limit: int, times: seq<real>)
    requires limit > 0 && Valid(b, limit) && Clock(b.lastFill, times) && times != []
    ensures WithinBurst(Admitted(b, limit, times), limit, times[|times| - 1] - times[0])
  {
    CallsArePaid(b, limit, times);
    CallsKeepValid(b, limit, times);
    PaidBound(AfterAll(b, limit, times), limit, Admitted(b, limit, times), times[0], times[|times| - 1]);
  }

  lemma PaidBound(b: Bucket, limit: int, n: nat, first: real, last: real)
    requires Paid(b, limit, n, first) && Valid(b, limit) && b.lastFill == last
    ensures WithinBurst(n, limit, last - first)
  {
  }

  /** A call that comes a token's time after the one before it is always admitted. */
  lemma SteadyCallsAdmitted(b: Bucket, limit: int, now: real)
    requires limit > 0 && Valid(b, limit) && now - b.lastFill >= 1.0 / (limit as real)
    ensures Admits(b, limit, now)
  {
    EarnedMore(1.0 / (limit as real), now - b.lastFill, limit);
    OverItself(limit as real);
  }

  lemma OverItself(l: real)
    requires l > 0.0
    ensures (1.0 / l) * l == 1.0
  {
  }

  /** Without a limit every call is admitted. */
  lemma {:induction false} NoLimitAdmitsAll(b: Bucket, limit: int, times: seq<real>)
    requires limit <= 0
    ensures Admitted(b, limit, times) == |times| && AfterAll(b, limit, times) == b
  {
    if times != [] {
      NoLimitAdmitsAll(b, limit, times[..|times| - 1]);
    }
  }

  /** A full bucket lets as many calls through at once as the limit says, whenever they come. */
  lemma {:induction false} FullBucketAdmits(b: Bucket, limit: int, times: seq<real>)
    requires limit > 0 && b.tokens == limit as real && Clock(b.lastFill, times) && |times| <= limit
    ensures Admitted(b, limit, times) == |times|
    ensures AfterAll(b, limit, times).tokens >= (limit - |times|) as real
  {
    if times != [] {
      var front, now := times[..|times| - 1], times[|times| - 1];
      FullBucketAdmits(b, limit, front);
      CallsKeepValid(b, limit, front);
      EarnedMore(0.0, now - AfterAll(b, limit, front).lastFill, limit);
    }
  }

  class RateLimiter {
    const limit: int
    var tokens: real
    var lastFill: real

    ghost function View(): Bucket
      reads this
    {
      Bucket(tokens, lastFill)
    }

    constructor (perSecond: int, now: real)
      ensures limit == perSecond && View() == Bucket(perSecond as real, now)
    {
      limit, tokens, lastFill := perSecond, perSecond as real, now;
    }

    method Allow(now: real) returns (ok: bool)
      modifies this
      ensures ok == Admits(old(View()), limit, now) && View() == After(old(View()), limit, now)
    {
      if limit <= 0 {
        return true;
      }
      var elapsed := now - lastFill;
      lastFill := now;
      tokens := tokens + elapsed * limit as real;
      if tokens > limit as real {
        tokens := limit as real;
      }
      if tokens < 1.0 {
        return false;
      }
      tokens := tokens - 1.0;
      return true;
    }
  }
}
