/** How long retention keeps what it deletes: internal/store/maintenance.go. */
module Lifetimes {

  import opened Aggregates
  import opened Maintenance
  import opened RollupRuns
  import opened Wrappers

  /** Span retention deletes exactly the spans that are past their lifetime and below the watermark; with
      nothing rolled up yet, or no lifetime set, it deletes none.  The tables of rollups are not touched. */
  lemma SpansKeptIff(db: Db, now: int, keep: int, s: Span)
    ensures var after := ExpireSpans(db, now, keep);
            && after == db.(spans := after.spans)
            && multiset(after.spans)[s] ==
               (if keep <= 0 || s.ts >= now - keep || db.watermark.None? || s.ts >= db.watermark.value
                then multiset(db.spans)[s] else 0)
  {
    SinceHas(db.spans, SpanCutoff(db, now, keep), s);
    if db.watermark.None? && s !in db.spans {
      assert multiset(db.spans)[s] == 0;
    }
  }

  /** Rollup retention keeps exactly the rows of minutes within their lifetime, unchanged, and no spans'
      worth of anything else. */
  lemma RowsKeptIff(db: Db, now: int, keep: int)
    ensures var after := ExpireRollups(db, now, keep);
            && after.spans == db.spans && after.watermark == db.watermark
            && (forall k :: k in after.rollup <==> k in db.rollup && (keep <= 0 || k.minute >= now - keep))
            && (forall k :: k in after.rollup ==> after.rollup[k] == db.rollup[k])
            && (forall k :: k in after.deps <==> k in db.deps && (keep <= 0 || k.minute >= now - keep))
            && (forall k :: k in after.deps ==> after.deps[k] == db.deps[k])
  {
  }

  /** No retention of the run reaches the time `t`. */
  ghost predicate Spares(events: seq<Event>, t: int) {
    forall e :: e in events && (e.DropSpans? || e.DropRollups?) && e.keep > 0 ==> e.now - e.keep <= t
  }

  lemma StepKeepsYoung(w: World, e: Event, s: Span)
    requires Spares([e], s.ts)
    ensures multiset(Step(w, e).db.spans)[s] == multiset(w.db.spans)[s] + Written([e])[s]
  {
    assert e in [e] && [e][1..] == [];
    if e.DropSpans? {
      SpansKeptIff(w.db, e.now, e.keep, s);
    }
  }

  /** Whatever else happens, a span is stored as often as it was written until a retention reaches it. */
  lemma {:induction false} YoungSpansStay(w: World, events: seq<Event>, s: Span)
    requires Spares(events, s.ts)
    ensures multiset(Run(w, events).db.spans)[s] == multiset(w.db.spans)[s] + Written(events)[s]
    decreases |events|
  {
    if events != [] {
      var e, rest := events[0], events[1..];
      assert e in events && forall f :: f in rest ==> f in events;
      StepKeepsYoung(w, e, s);
      YoungSpansStay(Step(w, e), rest, s);
      assert Written(events) == Written([e]) + Written(rest) by {
        assert [e][1..] == [];
      }
    }
  }

  /** No row is removed before its minute is past the lifetime of rollups. */
  lemma {:induction false} RowsExpireByAge(w: World, events: seq<Event>, k: Key)
    requires k !in w.expired && Spares(events, k.minute)
    ensures k !in Run(w, events).expired
    decreases |events|
  {
    if events != [] {
      assert events[0] in events && forall f :: f in events[1..] ==> f in events;
      RowsExpireByAge(Step(w, events[0]), events[1..], k);
    }
  }

  /** So after any run an on-time entry span is counted in the row of its minute once that is rolled up, for
      as long as no retention has reached that minute. */
  lemma CountedUntilExpired(events: seq<Event>, s: Span)
    requires s in Run(EMPTY, events).onTime && IsEntry(s) && Spares(events, Truncate(s.ts))
    ensures var w := Run(EMPTY, events);
            w.db.watermark.Some? && s.ts < w.db.watermark.value ==>
              KeyOf(s) in w.db.rollup
              && w.db.rollup[KeyOf(s)] == RowIn(w.onTime, Own(Truncate(s.ts)), KeyOf(s))
  {
    ExactlyOnce(events, s);
    RowsExpireByAge(EMPTY, events, KeyOf(s));
  }
}
