/** Rollup and retention: internal/store/maintenance.go.

    A rollup pass reads the watermark before it takes the write lock, so spans may be written
    between the two halves of a pass.  The state machine therefore has the halves as separate
    steps, and no assumption about the clock: every step is given whatever time it reads.
  */
module Maintenance {

  import opened Aggregates
  import opened Wrappers

  const CATCH_UP_LIMIT := 360 * MINUTE

  /** The tables a pass works on.  A rollup table has at most one row per group. */
  datatype Db = Db(spans: seq<Span>, rollup: map<Key, Row>, deps: map<DepKey, Row>, watermark: Option<int>)

  function MinTime(spans: seq<Span>): (t: int)
    requires spans != []
    ensures forall s :: s in spans ==> t <= s.ts
  {
    var last := spans[|spans| - 1].ts;
    assert spans == spans[..|spans| - 1] + [spans[|spans| - 1]];
    if |spans| == 1 then last
    else
      var m := MinTime(spans[..|spans| - 1]);
      if last < m then last else m
  }

  /** Where rollups resume: the watermark, else the oldest span's minute, else the current one. */
  function ResumeFrom(db: Db, now: int): int {
    match db.watermark
    case Some(t) => t
    case None => if db.spans == [] then Truncate(now) else Truncate(MinTime(db.spans))
  }

  /** The range a pass covers, if there is a finished minute to roll up. */
  function PassWindow(db: Db, read: int, now: int): Option<Window> {
    var from, to := ResumeFrom(db, read), Truncate(now);
    if from >= to then None
    else Some(Window(from, if to - from > CATCH_UP_LIMIT then from + CATCH_UP_LIMIT else to))
  }

  function ClearRollup(rows: map<Key, Row>, w: Window): map<Key, Row> {
    map k | k in rows && !In(k.minute, w) :: rows[k]
  }

  function ClearDeps(rows: map<DepKey, Row>, w: Window): map<DepKey, Row> {
    map k | k in rows && !In(k.minute, w) :: rows[k]
  }

  function RollupRows(spans: seq<Span>, w: Window): map<Key, Row> {
    map k | k in KeysIn(spans, w) :: RowIn(spans, w, k)
  }

  function DepRows(spans: seq<Span>, w: Window): map<DepKey, Row> {
    map k | k in DepKeysIn(spans, w) :: DepRowIn(spans, w, k)
  }

  /** The transaction of a pass: clear the range, re-derive it, move the watermark. */
  function RollUp(db: Db, w: Window): Db {
    Db(db.spans,
       ClearRollup(db.rollup, w) + RollupRows(db.spans, w),
       ClearDeps(db.deps, w) + DepRows(db.spans, w),
       Some(w.to))
  }

  function Since(spans: seq<Span>, t: int): seq<Span> {
    if spans == [] then []
    else
      var last := spans[|spans| - 1];
      if last.ts >= t then Since(spans[..|spans| - 1], t) + [last] else Since(spans[..|spans| - 1], t)
  }

  function Before(spans: seq<Span>, t: int): seq<Span> {
    if spans == [] then []
    else
      var last := spans[|spans| - 1];
      if last.ts < t then Before(spans[..|spans| - 1], t) + [last] else Before(spans[..|spans| - 1], t)
  }

  /** Span retention deletes below the cutoff, but never above the watermark. */
  function SpanCutoff(db: Db, now: int, keep: int): int {
    var cutoff, mark := now - keep, ResumeFrom(db, now);
    if mark < cutoff then mark else cutoff
  }

  function ExpireSpans(db: Db, now: int, keep: int): Db {
    if keep > 0 then db.(spans := Since(db.spans, SpanCutoff(db, now, keep))) else db
  }

  function ExpireRollups(db: Db, now: int, keep: int): Db {
    if keep > 0 then
      db.(rollup := map k | k in db.rollup && k.minute >= now - keep :: db.rollup[k],
          deps := map k | k in db.deps && k.minute >= now - keep :: db.deps[k])
    else db
  }

  // ---- Runs -------------------------------------------------------------------------------

  datatype Event =
    | Write(batch: seq<Span>)
    | BeginPass(read: int, now: int)
    | AbortPass
    | CommitPass
    | DropSpans(now: int, keep: int)
    | DropRollups(now: int, keep: int)

  /** The tables and what has happened so far: `onTime` and `late` split every span ever written,
      `passes` lists the committed ranges, `expired` and `expiredDeps` the groups retention removed. */
  datatype World = World(db: Db, pending: Option<Window>, onTime: seq<Span>, late: seq<Span>,
                         passes: seq<Window>, expired: set<Key>, expiredDeps: set<DepKey>)

  const EMPTY := World(Db([], map[], map[], None), None, [], [], [], {}, {})

  /** A span is late when it is older than the watermark recorded as it arrives.  The first pass has
      recorded none yet: what is written below its range while it runs becomes late with its commit. */
  function Step(w: World, e: Event): World {
    match e
    case Write(batch) =>
      w.(db := w.db.(spans := w.db.spans + batch),
         onTime := w.onTime + OnTime(w.db, batch),
         late := w.late + Late(w.db, batch))
    case BeginPass(read, now) =>
      if w.pending.Some? then w else w.(pending := PassWindow(w.db, read, now))
    case AbortPass => w.(pending := None)
    case CommitPass =>
      (match w.pending
       case None => w
       case Some(p) =>
         World(RollUp(w.db, p), None,
               if w.db.watermark.None? then Since(w.onTime, p.from) else w.onTime,
               if w.db.watermark.None? then w.late + Before(w.onTime, p.from) else w.late,
               w.passes + [p], w.expired, w.expiredDeps))
    case DropSpans(now, keep) => w.(db := ExpireSpans(w.db, now, keep))
    case DropRollups(now, keep) =>
      w.(db := ExpireRollups(w.db, now, keep),
         expired := w.expired + (w.db.rollup.Keys - ExpireRollups(w.db, now, keep).rollup.Keys),
         expiredDeps := w.expiredDeps + (w.db.deps.Keys - ExpireRollups(w.db, now, keep).deps.Keys))
  }

  function OnTime(db: Db, batch: seq<Span>): seq<Span> {
    if db.watermark.Some? then Since(batch, db.watermark.value) else batch
  }

  function Late(db: Db, batch: seq<Span>): seq<Span> {
    if db.watermark.Some? then Before(batch, db.watermark.value) else []
  }

  function Run(w: World, events: seq<Event>): World
    decreases |events|
  {
    if events == [] then w else Run(Step(w, events[0]), events[1..])
  }

  // ---- Spans at or after a time -----------------------------------------------------------

  lemma {:induction false} SinceHas(spans: seq<Span>, t: int, s: Span)
    ensures s in Since(spans, t) <==> s in spans && s.ts >= t
    ensures s in Before(spans, t) <==> s in spans && s.ts < t
    ensures multiset(Since(spans, t))[s] == if s.ts >= t then multiset(spans)[s] else 0
    ensures multiset(Before(spans, t))[s] == if s.ts < t then multiset(spans)[s] else 0
  {
    if spans != [] {
      assert spans == spans[..|spans| - 1] + [spans[|spans| - 1]];
      SinceHas(spans[..|spans| - 1], t, s);
    }
  }

  lemma {:induction false} SinceAppend(a: seq<Span>, b: seq<Span>, t: int)
    ensures Since(a + b, t) == Since(a, t) + Since(b, t)
  {
    if b == [] {
      assert a + b == a;
    } else {
      assert (a + b)[..|a + b| - 1] == a + b[..|b| - 1];
      SinceAppend(a, b[..|b| - 1], t);
    }
  }

  lemma {:induction false} SinceTwice(spans: seq<Span>, t: int, u: int)
    ensures Since(Since(spans, t), u) == Since(spans, if t < u then u else t)
  {
    if spans != [] {
      var front, last := spans[..|spans| - 1], spans[|spans| - 1];
      SinceTwice(front, t, u);
      if last.ts >= t {
        assert (Since(front, t) + [last])[..|Since(front, t)|] == Since(front, t);
      }
    }
  }

  lemma {:induction false} SinceAll(spans: seq<Span>, t: int)
    requires forall s :: s in spans ==> s.ts >= t
    ensures Since(spans, t) == spans
  {
    if spans != [] {
      assert spans == spans[..|spans| - 1] + [spans[|spans| - 1]];
      SinceAll(spans[..|spans| - 1], t);
    }
  }

  /** Rows of later minutes do not depend on earlier spans. */
  lemma {:induction false} TotalSince(spans: seq<Span>, w: Window, k: Key, col: Column, t: int)
    requires t <= w.from
    ensures Total(spans, w, k, col) == Total(Since(spans, t), w, k, col)
  {
    if spans != [] {
      var front, last := spans[..|spans| - 1], spans[|spans| - 1];
      TotalSince(front, w, k, col, t);
      if last.ts >= t {
        assert (Since(front, t) + [last])[..|Since(front, t)|] == Since(front, t);
      }
    }
  }

  lemma {:induction false} ParentsSince(child: Span, parents: seq<Span>, w: Window, k: DepKey, col: Column, t: int)
    requires t <= w.from
    ensures ParentsTotal(child, parents, w, k, col) == ParentsTotal(child, Since(parents, t), w, k, col)
  {
    if parents != [] {
      var front, last := parents[..|parents| - 1], parents[|parents| - 1];
      ParentsSince(child, front, w, k, col, t);
      if last.ts >= t {
        assert (Since(front, t) + [last])[..|Since(front, t)|] == Since(front, t);
      }
    }
  }

  lemma {:induction false} PairsSince(children: seq<Span>, parents: seq<Span>, w: Window, k: DepKey, col: Column, t: int)
    requires t <= w.from
    ensures PairsTotal(children, parents, w, w, k, col) == PairsTotal(Since(children, t), Since(parents, t), w, w, k, col)
  {
    if children != [] {
      var front, last := children[..|children| - 1], children[|children| - 1];
      PairsSince(front, parents, w, k, col, t);
      ParentsSince(last, parents, w, k, col, t);
      if last.ts >= t {
        assert (Since(front, t) + [last])[..|Since(front, t)|] == Since(front, t);
      }
    }
  }

  /** What both tables count in a range depends only on the spans from its start. */
  lemma SameTotals(a: seq<Span>, b: seq<Span>, t: int, w: Window)
    requires Since(a, t) == Since(b, t) && t <= w.from
    ensures forall k, col :: Total(a, w, k, col) == Total(b, w, k, col)
    ensures forall k, col :: DepTotal(a, w, k, col) == DepTotal(b, w, k, col)
  {
    forall k, col ensures Total(a, w, k, col) == Total(b, w, k, col) {
      TotalSince(a, w, k, col, t);
      TotalSince(b, w, k, col, t);
    }
    forall k, col ensures DepTotal(a, w, k, col) == DepTotal(b, w, k, col) {
      PairsSince(a, a, w, k, col, t);
      PairsSince(b, b, w, k, col, t);
    }
  }

  // Appending later spans, by splitting off the range's end.

  lemma {:induction false} TotalLater(spans: seq<Span>, more: seq<Span>, w: Window, k: Key, col: Column)
    requires forall s :: s in more ==> s.ts >= w.to
    ensures Total(spans + more, w, k, col) == Total(spans, w, k, col)
  {
    if more == [] {
      assert spans + more == spans;
    } else {
      assert more == more[..|more| - 1] + [more[|more| - 1]];
      assert (spans + more)[..|spans + more| - 1] == spans + more[..|more| - 1];
      TotalLater(spans, more[..|more| - 1], w, k, col);
    }
  }

  lemma {:induction false} ParentsLater(child: Span, parents: seq<Span>, more: seq<Span>, w: Window, k: DepKey, col: Column)
    requires forall s :: s in more ==> s.ts >= w.to
    ensures ParentsTotal(child, parents + more, w, k, col) == ParentsTotal(child, parents, w, k, col)
  {
    if more == [] {
      assert parents + more == parents;
    } else {
      assert more == more[..|more| - 1] + [more[|more| - 1]];
      assert (parents + more)[..|parents + more| - 1] == parents + more[..|more| - 1];
      ParentsLater(child, parents, more[..|more| - 1], w, k, col);
    }
  }

  lemma {:induction false} PairsLaterParents(children: seq<Span>, parents: seq<Span>, more: seq<Span>,
                                             w: Window, k: DepKey, col: Column)
    requires forall s :: s in more ==> s.ts >= w.to
    ensures PairsTotal(children, parents + more, w, w, k, col) == PairsTotal(children, parents, w, w, k, col)
  {
    if children != [] {
      PairsLaterParents(children[..|children| - 1], parents, more, w, k, col);
      ParentsLater(children[|children| - 1], parents, more, w, k, col);
    }
  }

  lemma {:induction false} PairsLaterChildren(children: seq<Span>, more: seq<Span>, parents: seq<Span>,
                                              w: Window, k: DepKey, col: Column)
    requires forall s :: s in more ==> s.ts >= w.to
    ensures PairsTotal(children + more, parents, w, w, k, col) == PairsTotal(children, parents, w, w, k, col)
  {
    if more == [] {
      assert children + more == children;
    } else {
      assert more == more[..|more| - 1] + [more[|more| - 1]];
      assert (children + more)[..|children + more| - 1] == children + more[..|more| - 1];
      PairsLaterChildren(children, more[..|more| - 1], parents, w, k, col);
    }
  }

  lemma LaterSpansChangeNothing(spans: seq<Span>, more: seq<Span>, w: Window)
    requires forall s :: s in more ==> s.ts >= w.to
    ensures forall k, col :: Total(spans + more, w, k, col) == Total(spans, w, k, col)
    ensures forall k, col :: DepTotal(spans + more, w, k, col) == DepTotal(spans, w, k, col)
  {
    forall k, col ensures Total(spans + more, w, k, col) == Total(spans, w, k, col) {
      TotalLater(spans, more, w, k, col);
    }
    forall k, col ensures DepTotal(spans + more, w, k, col) == DepTotal(spans, w, k, col) {
      PairsLaterParents(spans + more, spans, more, w, k, col);
      PairsLaterChildren(spans, more, spans, w, k, col);
    }
  }
}
