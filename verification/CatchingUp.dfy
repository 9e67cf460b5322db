/** How far rollup passes get, and that they never touch a minute still running
    (internal/store/maintenance.go). */
module CatchingUp {

  import opened Aggregates
  import opened Maintenance
  import opened RollupRuns
  import opened Lifetimes
  import opened Wrappers

  const SIX_HOURS := 6 * 60 * 60 * 1_000_000_000

  /** A pass starts where the last one ended, stops at a full minute that is over, and covers six hours at
      most, but less only if it gets to the running minute. */
  lemma PassIsFinished(db: Db, read: int, now: int)
    ensures PassWindow(db, read, now).None? <==> ResumeFrom(db, read) >= now - now % 60_000_000_000
    ensures PassWindow(db, read, now).Some? ==>
              var p := PassWindow(db, read, now).value;
              && p.from == ResumeFrom(db, read) && p.from < p.to <= now && p.to - p.from <= SIX_HOURS
              && (p.to - p.from < SIX_HOURS ==> now < p.to + 60_000_000_000)
  {
  }

  /** The clock of the run never shows more than `t`. */
  ghost predicate ClockUpTo(events: seq<Event>, t: int) {
    forall e :: e in events && e.BeginPass? ==> e.now <= t
  }

  ghost predicate OnlyFinished(w: World, t: int) {
    && (w.pending.Some? ==> w.pending.value.to <= t)
    && (forall p :: p in w.passes ==> p.to <= t)
  }

  lemma {:induction false} PassesFinished(w: World, events: seq<Event>, t: int)
    requires OnlyFinished(w, t) && ClockUpTo(events, t)
    ensures OnlyFinished(Run(w, events), t)
    decreases |events|
  {
    if events != [] {
      var e := events[0];
      assert e in events && forall f :: f in events[1..] ==> f in events;
      if e.BeginPass? {
        PassIsFinished(w.db, e.read, e.now);
      }
      PassesFinished(Step(w, e), events[1..], t);
    }
  }

  lemma {:induction false} DepsStayAligned(w: World, events: seq<Event>)
    requires forall k :: k in w.db.deps ==> Aligned(k.minute)
    ensures forall k :: k in Run(w, events).db.deps ==> Aligned(k.minute)
    decreases |events|
  {
    if events != [] {
      DepsStayAligned(Step(w, events[0]), events[1..]);
    }
  }

  /** In every run: a minute that has a row, of either kind, was over when the clock was last read. */
  lemma NoRowForRunningMinute(events: seq<Event>, t: int)
    requires ClockUpTo(events, t)
    ensures forall k :: k in Run(EMPTY, events).db.rollup ==> k.minute + MINUTE <= t
    ensures forall k :: k in Run(EMPTY, events).db.deps ==> k.minute + MINUTE <= t
  {
    var w := Run(EMPTY, events);
    PassesFinished(EMPTY, events, t);
    RunKeepsInv(EMPTY, events);
    if w.db.watermark.Some? {
      WatermarkAligned(w);
      assert w.passes[|w.passes| - 1] in w.passes;
    }
    forall k | k in w.db.rollup ensures k.minute + MINUTE <= t {
      assert RowExact(w, k);
      if !Aligned(k.minute) {
        NoSuchKey(w.onTime, k);
      }
      OwnBelow(k.minute, w.db.watermark.value);
    }
    DepsStayAligned(EMPTY, events);
    forall k | k in w.db.deps ensures k.minute + MINUTE <= t {
      assert DepBelow(w, k);
      OwnBelow(k.minute, w.db.watermark.value);
    }
  }

  /** `n` undisturbed passes, one after the other. */
  ghost function Passes(db: Db, now: int, n: nat): Db
    decreases n
  {
    if n == 0 then db
    else
      match PassWindow(db, now, now)
      case None => db
      case Some(p) => Passes(RollUp(db, p), now, n - 1)
  }

  /** After `n` passes rollups have come `n` times six hours further, or to the running minute. */
  lemma {:induction false} PassesGetThere(db: Db, now: int, n: nat)
    requires ResumeFrom(db, now) <= now
    requires db.watermark.Some? ==> Aligned(db.watermark.value)
    ensures var there, start := ResumeFrom(Passes(db, now, n), now), ResumeFrom(db, now);
            there == if start + n * SIX_HOURS <= Truncate(now) then start + n * SIX_HOURS else Truncate(now)
    decreases n
  {
    var start := ResumeFrom(db, now);
    assert Aligned(start) && start <= Truncate(now);
    if n > 0 && PassWindow(db, now, now).Some? {
      var p := PassWindow(db, now, now).value;
      assert Aligned(p.to) && p.to <= Truncate(now);
      PassesGetThere(RollUp(db, p), now, n - 1);
      assert n * SIX_HOURS == SIX_HOURS + (n - 1) * SIX_HOURS;
    }
  }

  /** `n` passes as events of a run. */
  function Rounds(now: int, n: nat): seq<Event> {
    if n == 0 then [] else [BeginPass(now, now), CommitPass] + Rounds(now, n - 1)
  }

  lemma {:induction false} RoundsArePasses(w: World, now: int, n: nat)
    requires w.pending.None?
    ensures Run(w, Rounds(now, n)).db == Passes(w.db, now, n)
    decreases n
  {
    if n > 0 {
      var rest := Rounds(now, n - 1);
      var all := [BeginPass(now, now), CommitPass] + rest;
      assert all[0] == BeginPass(now, now) && all[1..] == [CommitPass] + rest;
      assert all[1..][0] == CommitPass && all[1..][1..] == rest;
      RoundsArePasses(Step(Step(w, BeginPass(now, now)), CommitPass), now, n - 1);
    }
  }

  lemma {:induction false} RunAppend(w: World, a: seq<Event>, b: seq<Event>)
    ensures Run(w, a + b) == Run(Run(w, a), b)
    decreases |a|
  {
    if a == [] {
      assert a + b == b;
    } else {
      assert (a + b)[1..] == a[1..] + b;
      RunAppend(Step(w, a[0]), a[1..], b);
    }
  }

  lemma {:induction false} RoundsSpare(now: int, n: nat, t: int)
    ensures Spares(Rounds(now, n), t)
  {
    if n > 0 {
      RoundsSpare(now, n - 1, t);
    }
  }

  /** Nothing finished stays uncounted: whatever came before, once so many passes have run undisturbed,
      every on-time entry span of a minute that is over is counted in the row of its minute. */
  lemma FinishedMinutesAreCounted(events: seq<Event>, now: int, n: nat, s: Span)
    requires var w := Run(EMPTY, events);
             && w.pending.None? && ResumeFrom(w.db, now) <= now
             && ResumeFrom(w.db, now) + n * SIX_HOURS >= Truncate(now)
             && s in Run(w, Rounds(now, n)).onTime
    requires IsEntry(s) && s.ts < Truncate(now) && Spares(events, Truncate(s.ts))
    ensures var v := Run(Run(EMPTY, events), Rounds(now, n));
            KeyOf(s) in v.db.rollup && v.db.rollup[KeyOf(s)] == RowIn(v.onTime, Own(Truncate(s.ts)), KeyOf(s))
  {
    var w, all := Run(EMPTY, events), events + Rounds(now, n);
    RunAppend(EMPTY, events, Rounds(now, n));
    RoundsSpare(now, n, Truncate(s.ts));
    RoundsArePasses(w, now, n);
    RunKeepsInv(EMPTY, events);
    if w.db.watermark.Some? {
      WatermarkAligned(w);
    }
    PassesGetThere(w.db, now, n);
    StoredUntilFirst(all, s);
    CountedUntilExpired(all, s);
  }

  /** Before anything has been rolled up, rollups start no later than any on-time span. */
  lemma StoredUntilFirst(events: seq<Event>, s: Span)
    requires s in Run(EMPTY, events).onTime
    ensures var db := Run(EMPTY, events).db;
            db.watermark.None? ==> forall now :: ResumeFrom(db, now) <= s.ts
  {
    RunKeepsInv(EMPTY, events);
  }

  /** With no watermark recorded a pass starts at the minute of the oldest span stored, and where there is
      none at the minute of the clock. */
  lemma StartsAtOldest(db: Db, now: int)
    requires db.watermark.None?
    ensures db.spans == [] ==> ResumeFrom(db, now) <= now < ResumeFrom(db, now) + 60_000_000_000
    ensures db.spans != [] ==>
              && (forall s :: s in db.spans ==> ResumeFrom(db, now) <= s.ts)
              && exists s :: s in db.spans && s.ts < ResumeFrom(db, now) + 60_000_000_000
  {
    if db.spans != [] {
      var s := Oldest(db.spans);
    }
  }

  lemma {:induction false} Oldest(spans: seq<Span>) returns (s: Span)
    requires spans != []
    ensures s in spans && s.ts == MinTime(spans)
  {
    s := spans[|spans| - 1];
    if |spans| > 1 && s.ts != MinTime(spans) {
      s := Oldest(spans[..|spans| - 1]);
    }
  }
}
