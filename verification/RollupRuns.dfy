/** Exactly-once accounting over every run of writes, rollup passes and retention. */
module RollupRuns {

  import opened Aggregates
  import opened Maintenance
  import opened Wrappers

  /** The minute a row belongs to. */
  function Own(minute: int): Window { Window(minute, minute + MINUTE) }

  /** The latency row for `k` is exact: it counts each on-time entry span of its minute once and
      nothing else, exists only below the watermark, and is missing only if retention removed it. */
  ghost predicate RowExact(w: World, k: Key) {
    if w.db.watermark.None? || k.minute >= w.db.watermark.value then k !in w.db.rollup && k !in w.expired
    else if k in w.expired || Total(w.onTime, Own(k.minute), k, Spans) == 0 then k !in w.db.rollup
    else k in w.db.rollup && w.db.rollup[k] == RowIn(w.onTime, Own(k.minute), k)
  }

  /** Likewise the dependency rows of a pass, which count the pairs with both ends in its range. */
  ghost predicate DepExact(w: World, p: Window, k: DepKey) {
    p in w.passes && In(k.minute, p) ==>
      if k in w.expiredDeps || DepTotal(w.onTime, p, k, Spans) == 0 then k !in w.db.deps
      else k in w.db.deps && w.db.deps[k] == DepRowIn(w.onTime, p, k)
  }

  ghost predicate DepBelow(w: World, k: DepKey) {
    k in w.db.deps || k in w.expiredDeps ==> w.db.watermark.Some? && k.minute < w.db.watermark.value
  }

  ghost predicate ValidWindow(p: Window) { Aligned(p.from) && Aligned(p.to) && p.from < p.to }

  /** The committed ranges follow each other without a gap and end at the watermark. */
  ghost predicate Tiled(w: World) {
    && (w.passes == [] <==> w.db.watermark.None?)
    && (forall i :: 0 <= i < |w.passes| ==> ValidWindow(w.passes[i]))
    && (forall i :: 0 <= i < |w.passes| - 1 ==> w.passes[i].to == w.passes[i + 1].from)
    && (w.passes != [] ==> w.db.watermark == Some(w.passes[|w.passes| - 1].to))
  }

  ghost predicate PendingOk(w: World) {
    w.pending.Some? ==>
      && ValidWindow(w.pending.value)
      && (w.db.watermark.Some? ==> w.pending.value.from == w.db.watermark.value)
  }

  /** Every on-time span not yet below the watermark is still stored, and late ones are below it. */
  ghost predicate Stored(w: World) {
    match w.db.watermark
    case None => w.db.spans == w.onTime && w.late == []
    case Some(t) =>
      && Since(w.db.spans, t) == Since(w.onTime, t)
      && (forall s :: s in w.late ==> s.ts < t)
      && w.passes != [] && (forall s :: s in w.onTime ==> s.ts >= w.passes[0].from)
  }

  ghost predicate Inv(w: World) {
    && Tiled(w) && PendingOk(w) && Stored(w)
    && (forall k :: RowExact(w, k))
    && (forall p, k :: DepExact(w, p, k))
    && (forall k :: DepBelow(w, k))
  }

  // ---- Writes -----------------------------------------------------------------------------

  lemma OnTimeAfter(db: Db, batch: seq<Span>)
    ensures db.watermark.Some? ==> forall s :: s in OnTime(db, batch) ==> s.ts >= db.watermark.value
    ensures db.watermark.Some? ==> forall s :: s in Late(db, batch) ==> s.ts < db.watermark.value
  {
    if db.watermark.Some? {
      forall s ensures s in OnTime(db, batch) ==> s.ts >= db.watermark.value
               ensures s in Late(db, batch) ==> s.ts < db.watermark.value
      {
        SinceHas(batch, db.watermark.value, s);
      }
    }
  }

  lemma WriteStored(w: World, batch: seq<Span>)
    requires Inv(w)
    ensures Stored(Step(w, Write(batch)))
  {
    OnTimeAfter(w.db, batch);
    if w.db.watermark.Some? {
      var t := w.db.watermark.value;
      SinceAppend(w.db.spans, batch, t);
      SinceAppend(w.onTime, OnTime(w.db, batch), t);
      SinceTwice(batch, t, t);
      PassesBelow(w, 0);
    }
  }

  lemma {:induction false} PassesBelow(w: World, i: nat)
    requires Tiled(w) && i < |w.passes|
    ensures w.passes[i].to <= w.db.watermark.value
    decreases |w.passes| - i
  {
    if i < |w.passes| - 1 {
      PassesBelow(w, i + 1);
    }
  }

  lemma WriteRow(w: World, batch: seq<Span>, k: Key)
    requires Inv(w)
    ensures RowExact(Step(w, Write(batch)), k)
  {
    assert RowExact(w, k);
    OnTimeAfter(w.db, batch);
    if w.db.watermark.Some? && k.minute < w.db.watermark.value && k !in w.expired {
      if Aligned(k.minute) {
        OwnBelow(k.minute, w.db.watermark.value);
        LaterSpansChangeNothing(w.onTime, OnTime(w.db, batch), Own(k.minute));
      } else {
        NoSuchKey(w.onTime, k);
        NoSuchKey(w.onTime + OnTime(w.db, batch), k);
      }
    }
  }

  lemma OwnBelow(minute: int, t: int)
    requires Aligned(minute) && Aligned(t) && minute < t
    ensures Own(minute).to <= t
  {
  }

  lemma {:induction false} NoSuchKey(spans: seq<Span>, k: Key)
    requires !Aligned(k.minute)
    ensures forall w, col :: Total(spans, w, k, col) == 0
  {
    if spans != [] {
      NoSuchKey(spans[..|spans| - 1], k);
    }
  }

  lemma WriteDep(w: World, batch: seq<Span>, p: Window, k: DepKey)
    requires Inv(w)
    ensures DepExact(Step(w, Write(batch)), p, k)
  {
    assert DepExact(w, p, k);
    OnTimeAfter(w.db, batch);
    if i :| 0 <= i < |w.passes| && w.passes[i] == p {
      PassesBelow(w, i);
      LaterSpansChangeNothing(w.onTime, OnTime(w.db, batch), p);
    }
  }

  lemma WriteKeepsInv(w: World, batch: seq<Span>)
    requires Inv(w)
    ensures Inv(Step(w, Write(batch)))
  {
    WriteStored(w, batch);
    forall k ensures RowExact(Step(w, Write(batch)), k) {
      WriteRow(w, batch, k);
    }
    forall p, k ensures DepExact(Step(w, Write(batch)), p, k) {
      WriteDep(w, batch, p, k);
    }
    forall k ensures DepBelow(Step(w, Write(batch)), k) {
      assert DepBelow(w, k);
    }
  }

  // ---- Passes -----------------------------------------------------------------------------

  lemma WatermarkAligned(w: World)
    requires Tiled(w) && w.db.watermark.Some?
    ensures Aligned(w.db.watermark.value)
  {
    assert ValidWindow(w.passes[|w.passes| - 1]);
  }

  lemma SameBut(w: World, v: World)
    requires Inv(w) && v == w.(pending := v.pending) && PendingOk(v)
    ensures Inv(v)
  {
    forall k ensures RowExact(v, k) {
      assert RowExact(w, k);
    }
    forall p, k ensures DepExact(v, p, k) {
      assert DepExact(w, p, k);
    }
    forall k ensures DepBelow(v, k) {
      assert DepBelow(w, k);
    }
  }

  lemma BeginKeepsInv(w: World, read: int, now: int)
    requires Inv(w)
    ensures Inv(Step(w, BeginPass(read, now)))
  {
    if w.db.watermark.Some? {
      WatermarkAligned(w);
    }
    assert Aligned(CATCH_UP_LIMIT);
    SameBut(w, Step(w, BeginPass(read, now)));
  }

  /** The on-time spans a commit leaves have the totals the query read from the table. */
  lemma CommitReads(w: World)
    requires Inv(w) && w.pending.Some?
    ensures var p, v := w.pending.value, Step(w, CommitPass);
            && (forall k, col :: Total(w.db.spans, p, k, col) == Total(v.onTime, p, k, col))
            && (forall k, col :: DepTotal(w.db.spans, p, k, col) == DepTotal(v.onTime, p, k, col))
  {
    var p, v := w.pending.value, Step(w, CommitPass);
    if w.db.watermark.None? {
      SinceTwice(w.onTime, p.from, p.from);
    }
    SameTotals(w.db.spans, v.onTime, p.from, p);
  }

  lemma CommitStored(w: World)
    requires Inv(w) && w.pending.Some?
    ensures Stored(Step(w, CommitPass)) && Tiled(Step(w, CommitPass))
  {
    var p, v := w.pending.value, Step(w, CommitPass);
    assert v.passes[|w.passes|] == p;
    if w.db.watermark.None? {
      SinceTwice(w.onTime, p.from, p.to);
      forall s
        ensures s in v.onTime ==> s.ts >= p.from
        ensures s in v.late ==> s.ts < p.from
      {
        SinceHas(w.onTime, p.from, s);
      }
    } else {
      SinceTwice(w.db.spans, p.from, p.to);
      SinceTwice(w.onTime, p.from, p.to);
      assert v.passes[0] == w.passes[0];
    }
  }

  /** Within an aligned range a key's row is the row of its own minute. */
  lemma OwnTotal(spans: seq<Span>, p: Window, k: Key, col: Column)
    requires Aligned(p.from) && Aligned(p.to) && In(k.minute, p)
    ensures Total(spans, p, k, col) == Total(spans, Own(k.minute), k, col)
  {
    if Aligned(k.minute) {
      var m := k.minute;
      OwnBelow(m, p.to);
      TotalSplits(spans, p.from, m, p.to, k, col);
      TotalSplits(spans, m, m + MINUTE, p.to, k, col);
      TotalElsewhere(spans, Window(p.from, m), k, col);
      TotalElsewhere(spans, Window(m + MINUTE, p.to), k, col);
    } else {
      NoSuchKey(spans, k);
    }
  }

  lemma CommitRow(w: World, k: Key)
    requires Inv(w) && w.pending.Some?
    ensures RowExact(Step(w, CommitPass), k)
  {
    var p, v := w.pending.value, Step(w, CommitPass);
    assert RowExact(w, k);
    CommitReads(w);
    KeyHasRow(w.db.spans, p, k);
    if k in KeysIn(w.db.spans, p) {
      KeyInWindow(w.db.spans, p, k);
    }
    if In(k.minute, p) {
      forall col ensures Total(v.onTime, p, k, col) == Total(v.onTime, Own(k.minute), k, col) {
        OwnTotal(v.onTime, p, k, col);
      }
    } else if k.minute < p.from && w.db.watermark.None? {
      NothingBefore(w.onTime, p.from, k);
    }
  }

  /** Spans from a minute on have no row in an earlier minute. */
  lemma NothingBefore(spans: seq<Span>, t: int, k: Key)
    requires Aligned(t) && k.minute < t
    ensures Total(Since(spans, t), Own(k.minute), k, Spans) == 0
  {
    var rest := Since(spans, t);
    forall s | s in rest ensures s.ts >= t {
      SinceHas(spans, t, s);
    }
    if Aligned(k.minute) {
      OwnBelow(k.minute, t);
      TotalLater([], rest, Own(k.minute), k, Spans);
      assert [] + rest == rest;
    } else {
      NoSuchKey(rest, k);
    }
  }

  lemma CommitDep(w: World, q: Window, k: DepKey)
    requires Inv(w) && w.pending.Some?
    ensures DepExact(Step(w, CommitPass), q, k)
  {
    var p, v := w.pending.value, Step(w, CommitPass);
    assert DepExact(w, q, k) && DepBelow(w, k);
    CommitReads(w);
    DepKeyHasRow(w.db.spans, p, k);
    if k in DepKeysIn(w.db.spans, p) {
      DepKeyInWindow(w.db.spans, p, k);
    }
    if i :| 0 <= i < |w.passes| && w.passes[i] == q {
      PassesBelow(w, i);
    }
  }

  lemma CommitDepBelow(w: World, k: DepKey)
    requires Inv(w) && w.pending.Some?
    ensures DepBelow(Step(w, CommitPass), k)
  {
    var p := w.pending.value;
    assert DepBelow(w, k);
    if k in DepKeysIn(w.db.spans, p) {
      DepKeyInWindow(w.db.spans, p, k);
    }
  }

  lemma CommitKeepsInv(w: World)
    requires Inv(w)
    ensures Inv(Step(w, CommitPass))
  {
    if w.pending.Some? {
      CommitStored(w);
      forall k ensures RowExact(Step(w, CommitPass), k) {
        CommitRow(w, k);
      }
      forall q, k ensures DepExact(Step(w, CommitPass), q, k) {
        CommitDep(w, q, k);
      }
      forall k ensures DepBelow(Step(w, CommitPass), k) {
        CommitDepBelow(w, k);
      }
    }
  }

  /** Clearing the range first leaves nothing the new rows could clash with. */
  lemma InsertedRowsAreNew(w: World)
    requires Inv(w) && w.pending.Some?
    ensures var p := w.pending.value;
            && ClearRollup(w.db.rollup, p).Keys !! RollupRows(w.db.spans, p).Keys
            && ClearDeps(w.db.deps, p).Keys !! DepRows(w.db.spans, p).Keys
  {
    var p := w.pending.value;
    forall k | k in KeysIn(w.db.spans, p) ensures In(k.minute, p) {
      KeyInWindow(w.db.spans, p, k);
    }
    forall k | k in DepKeysIn(w.db.spans, p) ensures In(k.minute, p) {
      DepKeyInWindow(w.db.spans, p, k);
    }
  }

  // ---- Retention --------------------------------------------------------------------------

  /** Span retention never reaches the watermark, and deletes nothing before there is one. */
  lemma DropOnlyBelow(w: World, now: int, keep: int)
    requires Inv(w)
    ensures var after := ExpireSpans(w.db, now, keep).spans;
            match w.db.watermark
            case None => after == w.db.spans
            case Some(t) => Since(after, t) == Since(w.db.spans, t)
  {
    match w.db.watermark
    case None =>
      if keep > 0 && w.db.spans != [] {
        SinceAll(w.db.spans, SpanCutoff(w.db, now, keep));
      }
    case Some(t) => SinceTwice(w.db.spans, SpanCutoff(w.db, now, keep), t);
  }

  lemma DropSpansKeepsInv(w: World, now: int, keep: int)
    requires Inv(w)
    ensures Inv(Step(w, DropSpans(now, keep)))
  {
    var v := Step(w, DropSpans(now, keep));
    DropOnlyBelow(w, now, keep);
    forall k ensures RowExact(v, k) {
      assert RowExact(w, k);
    }
    forall p, k ensures DepExact(v, p, k) {
      assert DepExact(w, p, k);
    }
    forall k ensures DepBelow(v, k) {
      assert DepBelow(w, k);
    }
  }

  lemma DropRollupsKeepsInv(w: World, now: int, keep: int)
    requires Inv(w)
    ensures Inv(Step(w, DropRollups(now, keep)))
  {
    var v := Step(w, DropRollups(now, keep));
    forall k ensures RowExact(v, k) {
      assert RowExact(w, k);
    }
    forall p, k ensures DepExact(v, p, k) {
      assert DepExact(w, p, k);
    }
    forall k ensures DepBelow(v, k) {
      assert DepBelow(w, k);
    }
  }

  // ---- Every run --------------------------------------------------------------------------

  lemma {:induction false} RunKeepsInv(w: World, events: seq<Event>)
    requires Inv(w)
    ensures Inv(Run(w, events))
    decreases |events|
  {
    if events != [] {
      match events[0] {
        case Write(batch) => WriteKeepsInv(w, batch);
        case BeginPass(read, now) => BeginKeepsInv(w, read, now);
        case AbortPass => SameBut(w, w.(pending := None));
        case CommitPass => CommitKeepsInv(w);
        case DropSpans(now, keep) => DropSpansKeepsInv(w, now, keep);
        case DropRollups(now, keep) => DropRollupsKeepsInv(w, now, keep);
      }
      RunKeepsInv(Step(w, events[0]), events[1..]);
    }
  }

  /** After any run, an on-time span is stored as often as it was written while its minute has no
      row, or is counted once in the one row of its minute unless retention removed that row. */
  lemma ExactlyOnce(events: seq<Event>, s: Span)
    requires s in Run(EMPTY, events).onTime
    ensures var w := Run(EMPTY, events);
            if w.db.watermark.Some? && s.ts < w.db.watermark.value then
              IsEntry(s) && KeyOf(s) !in w.expired ==>
                && KeyOf(s) in w.db.rollup
                && w.db.rollup[KeyOf(s)] == RowIn(w.onTime, Own(Truncate(s.ts)), KeyOf(s))
            else
              && multiset(w.db.spans)[s] == multiset(w.onTime)[s]
              && KeyOf(s) !in w.db.rollup && KeyOf(s) !in w.expired
  {
    var w := Run(EMPTY, events);
    RunKeepsInv(EMPTY, events);
    assert RowExact(w, KeyOf(s));
    if w.db.watermark.Some? {
      var t := w.db.watermark.value;
      WatermarkAligned(w);
      MinuteBelow(s.ts, t);
      SinceHas(w.db.spans, t, s);
      SinceHas(w.onTime, t, s);
      KeyHasRow(w.onTime, Own(Truncate(s.ts)), KeyOf(s));
    }
  }

  /** Each dependency row counts exactly the on-time pairs with both ends in the range of its pass. */
  lemma DepsCountPairsOfOnePass(events: seq<Event>, p: Window, k: DepKey)
    requires p in Run(EMPTY, events).passes && In(k.minute, p) && k !in Run(EMPTY, events).expiredDeps
    ensures var w := Run(EMPTY, events);
            && (k in w.db.deps <==> k in DepKeysIn(w.onTime, p))
            && (k in w.db.deps ==> w.db.deps[k] == DepRowIn(w.onTime, p, k))
  {
    var w := Run(EMPTY, events);
    RunKeepsInv(EMPTY, events);
    assert DepExact(w, p, k);
    DepKeyHasRow(w.onTime, p, k);
  }

  function Written(events: seq<Event>): multiset<Span>
    decreases |events|
  {
    if events == [] then multiset{}
    else (if events[0].Write? then multiset(events[0].batch) else multiset{}) + Written(events[1..])
  }

  lemma SplitByTime(spans: seq<Span>, t: int)
    ensures multiset(Since(spans, t)) + multiset(Before(spans, t)) == multiset(spans)
  {
    forall s ensures (multiset(Since(spans, t)) + multiset(Before(spans, t)))[s] == multiset(spans)[s] {
      SinceHas(spans, t, s);
    }
  }

  lemma StepForgetsNothing(w: World, e: Event)
    ensures var v := Step(w, e);
            multiset(v.onTime) + multiset(v.late) == multiset(w.onTime) + multiset(w.late) + Written([e])
  {
    assert Written([e][1..]) == multiset{};
    if e.Write? && w.db.watermark.Some? {
      SplitByTime(e.batch, w.db.watermark.value);
    } else if e.CommitPass? && w.pending.Some? {
      SplitByTime(w.onTime, w.pending.value.from);
    }
  }

  /** On-time and late spans together are all that was ever written, each as often. */
  lemma {:induction false} NothingForgotten(w: World, events: seq<Event>)
    ensures multiset(Run(w, events).onTime) + multiset(Run(w, events).late) ==
            multiset(w.onTime) + multiset(w.late) + Written(events)
    decreases |events|
  {
    if events != [] {
      StepForgetsNothing(w, events[0]);
      NothingForgotten(Step(w, events[0]), events[1..]);
      assert Written([events[0]]) + Written(events[1..]) == Written(events) by {
        assert [events[0]][1..] == [];
      }
    }
  }

  lemma RunOfOne(w: World, a: Event)
    ensures Run(w, [a]) == Step(w, a)
  {
    assert [a][1..] == [];
  }

  // ---- The first pass ---------------------------------------------------------------------

  /** What may come between the two halves of one pass. */
  ghost predicate IsGap(gap: seq<Event>) {
    forall e :: e in gap ==> e.Write? || e.DropSpans? || e.DropRollups? || e.BeginPass?
  }

  lemma {:induction false} GapKeepsPass(w: World, gap: seq<Event>)
    requires IsGap(gap) && w.pending.Some?
    ensures Run(w, gap).pending == w.pending && Run(w, gap).db.watermark == w.db.watermark
    ensures Run(w, gap).passes == w.passes
    decreases |gap|
  {
    if gap != [] {
      assert gap[0] in gap;
      GapKeepsPass(Step(w, gap[0]), gap[1..]);
    }
  }

  /** A very first pass, from reading where to start to its commit. */
  ghost function FirstPass(w: World, read: int, now: int, gap: seq<Event>): World {
    Step(Run(Step(w, BeginPass(read, now)), gap), CommitPass)
  }

  ghost predicate BeforeFirstPass(w: World, read: int, now: int) {
    Inv(w) && w.db.watermark.None? && w.pending.None? && PassWindow(w.db, read, now).Some?
  }

  /** The spans a first pass leaves behind are exactly those written into its gap with a timestamp before
      the minute it starts at: that of the oldest span it saw, or with none stored the one its clock was
      first read in. */
  lemma FirstPassMisses(w: World, read: int, now: int, gap: seq<Event>, s: Span)
    requires BeforeFirstPass(w, read, now) && IsGap(gap)
    ensures s in FirstPass(w, read, now, gap).late <==> s in Written(gap) && s.ts < ResumeFrom(w.db, read)
  {
    var u := Run(Step(w, BeginPass(read, now)), gap);
    GapState(w, read, now, gap);
    assert s in u.onTime <==> s in multiset(u.onTime);
    assert s in w.onTime <==> s in multiset(w.onTime);
    SinceHas(u.onTime, u.pending.value.from, s);
  }

  lemma GapState(w: World, read: int, now: int, gap: seq<Event>)
    requires BeforeFirstPass(w, read, now) && IsGap(gap)
    ensures var u := Run(Step(w, BeginPass(read, now)), gap);
            && Inv(u) && u.pending == PassWindow(w.db, read, now) && u.db.watermark.None? && u.late == []
            && u.passes == [] && multiset(u.onTime) == multiset(w.onTime) + Written(gap)
  {
    var begun := Step(w, BeginPass(read, now));
    BeginKeepsInv(w, read, now);
    GapKeepsPass(begun, gap);
    RunKeepsInv(begun, gap);
    NothingForgotten(begun, gap);
    var u := Run(begun, gap);
    assert begun.onTime == w.onTime && begun.late == u.late == [];
    WithoutLate(multiset(u.onTime), multiset(w.onTime), Written(gap));
  }

  lemma WithoutLate(a: multiset<Span>, b: multiset<Span>, c: multiset<Span>)
    requires a + multiset([]) == b + multiset([]) + c
    ensures a == b + c
  {
    assert a + multiset([]) == a && b + multiset([]) == b;
  }

  /** So it leaves none behind if and only if no such span was written. */
  lemma FirstPassMissesNothingIff(w: World, read: int, now: int, gap: seq<Event>)
    requires BeforeFirstPass(w, read, now) && IsGap(gap)
    ensures FirstPass(w, read, now, gap).late == [] <==>
            forall s :: s in Written(gap) ==> s.ts >= ResumeFrom(w.db, read)
  {
    var late := FirstPass(w, read, now, gap).late;
    forall s ensures s in late <==> s in Written(gap) && s.ts < ResumeFrom(w.db, read) {
      FirstPassMisses(w, read, now, gap, s);
    }
    assert late != [] ==> late[0] in late;
  }

  lemma {:induction false} FirstRangeStays(w: World, events: seq<Event>)
    ensures w.passes <= Run(w, events).passes
    decreases |events|
  {
    if events != [] {
      FirstRangeStays(Step(w, events[0]), events[1..]);
    }
  }

  /** A minute before the first range never gets a row, however the run goes on. */
  lemma NoRowBeforeFirstRange(w: World, events: seq<Event>, k: Key)
    requires Inv(w) && w.passes != [] && k.minute < w.passes[0].from
    ensures k !in Run(w, events).db.rollup
  {
    var v := Run(w, events);
    RunKeepsInv(w, events);
    FirstRangeStays(w, events);
    assert v.passes[0] == w.passes[0] && ValidWindow(v.passes[0]) && RowExact(v, k);
    SinceAll(v.onTime, v.passes[0].from);
    NothingBefore(v.onTime, v.passes[0].from, k);
  }

  /** A span left behind is never rolled up: its minute has no row of its group in any continuation. */
  lemma MissedForGood(w: World, read: int, now: int, gap: seq<Event>, after: seq<Event>, s: Span)
    requires BeforeFirstPass(w, read, now) && IsGap(gap) && s in FirstPass(w, read, now, gap).late
    ensures KeyOf(s) !in Run(FirstPass(w, read, now, gap), after).db.rollup
  {
    FirstPassMisses(w, read, now, gap, s);
    GapState(w, read, now, gap);
    CommitKeepsInv(Run(Step(w, BeginPass(read, now)), gap));
    MinuteBelow(s.ts, ResumeFrom(w.db, read));
    assert FirstPass(w, read, now, gap).passes == [PassWindow(w.db, read, now).value];
    NoRowBeforeFirstRange(FirstPass(w, read, now, gap), after, KeyOf(s));
  }

  /** This does happen: `a` is stored, a first pass begins, and the older `b` is written before its commit. */
  lemma FirstPassCanMissASpan(a: Span, b: Span, read: int, now: int, after: seq<Event>)
    requires Truncate(b.ts) < Truncate(a.ts) < Truncate(now)
    ensures var w := FirstPass(Run(EMPTY, [Write([a])]), read, now, [Write([b])]);
            b in w.late && KeyOf(b) !in Run(w, after).db.rollup
  {
    var w := Run(EMPTY, [Write([a])]);
    RunOfOne(EMPTY, Write([a]));
    RunKeepsInv(EMPTY, [Write([a])]);
    assert w.db.spans == [a];
    FirstWindow(w.db, a, read, now);
    assert Written([Write([b])]) == multiset([b]) by {
      assert [Write([b])][1..] == [];
    }
    assert b in multiset([b]);
    MinuteBelow(b.ts, Truncate(a.ts));
    FirstPassMisses(w, read, now, [Write([b])], b);
    MissedForGood(w, read, now, [Write([b])], after, b);
  }

  lemma FirstWindow(db: Db, a: Span, read: int, now: int)
    requires db.spans == [a] && db.watermark.None? && Truncate(a.ts) < Truncate(now)
    ensures PassWindow(db, read, now).Some? && ResumeFrom(db, read) == Truncate(a.ts)
  {
  }
}
