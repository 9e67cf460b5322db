/** The maintenance component itself: passes that change the tables in place
    (internal/store/maintenance.go). */
module RollupMaintainer {

  import opened Aggregates
  import opened Maintenance
  import opened Wrappers

  function Bump(r: Row, s: Span): Row {
    Row(r.count + 1, r.errors + Weight(s, Errors), r.sum + s.duration)
  }

  /** The latency aggregation, one span at a time. */
  method GroupSpans(spans: seq<Span>, w: Window) returns (rows: map<Key, Row>)
    ensures rows == RollupRows(spans, w)
  {
    rows := map[];
    for i := 0 to |spans|
      invariant rows.Keys == KeysIn(spans[..i], w)
      invariant forall k :: k in rows ==> rows[k] == RowIn(spans[..i], w, k)
    {
      ghost var before := rows;
      var s := spans[i];
      assert spans[..i + 1] == spans[..i] + [s] && spans[..i + 1][..i] == spans[..i];
      if IsEntry(s) && In(s.ts, w) {
        var k := KeyOf(s);
        rows := rows[k := Bump(if k in rows then rows[k] else Row(0, 0, 0), s)];
        if k !in before {
          NoRowYet(spans[..i], w, k);
        }
      }
    }
    assert spans[..|spans|] == spans;
  }

  lemma {:induction false} NoRowYet(spans: seq<Span>, w: Window, k: Key)
    requires k !in KeysIn(spans, w)
    ensures RowIn(spans, w, k) == Row(0, 0, 0)
  {
    if spans != [] {
      var front, last := spans[..|spans| - 1], spans[|spans| - 1];
      assert spans == front + [last];
      NoRowYet(front, w, k);
    }
  }

  /** One column once the first `i` children are done and child `i` has met the first `j` parents. */
  ghost function Partial(spans: seq<Span>, w: Window, i: nat, j: nat, k: DepKey, col: Column): int
    requires i <= |spans| && j <= |spans|
  {
    PairsTotal(spans[..i], spans, w, w, k, col)
    + if i < |spans| && In(spans[i].ts, w) then ParentsTotal(spans[i], spans[..j], w, k, col) else 0
  }

  ghost predicate Holds(rows: map<DepKey, Row>, spans: seq<Span>, w: Window, i: nat, j: nat, k: DepKey)
    requires i <= |spans| && j <= |spans|
  {
    && (k in rows <==> Partial(spans, w, i, j, k, Spans) > 0)
    && (k in rows ==> rows[k].count == Partial(spans, w, i, j, k, Spans)
                      && rows[k].errors == Partial(spans, w, i, j, k, Errors)
                      && rows[k].sum == Partial(spans, w, i, j, k, Nanos))
    && (k !in rows ==> Partial(spans, w, i, j, k, Errors) == 0 && Partial(spans, w, i, j, k, Nanos) == 0)
  }

  function AddPair(rows: map<DepKey, Row>, child: Span, parent: Span, w: Window): map<DepKey, Row> {
    if In(child.ts, w) && In(parent.ts, w) && Linked(child, parent) then
      var k := DepKeyOf(child, parent);
      rows[k := Bump(if k in rows then rows[k] else Row(0, 0, 0), child)]
    else rows
  }

  lemma PairAdded(rows: map<DepKey, Row>, spans: seq<Span>, w: Window, i: nat, j: nat, k: DepKey)
    requires i < |spans| && j < |spans| && Holds(rows, spans, w, i, j, k)
    ensures Holds(AddPair(rows, spans[i], spans[j], w), spans, w, i, j + 1, k)
  {
    assert spans[..j + 1][..j] == spans[..j];
    PairsCount(spans[..i], spans, w, w, k);
    ParentsCount(spans[i], spans[..j], w, k);
  }

  lemma ChildDone(rows: map<DepKey, Row>, spans: seq<Span>, w: Window, i: nat, k: DepKey)
    requires i < |spans| && Holds(rows, spans, w, i, |spans|, k)
    ensures Holds(rows, spans, w, i + 1, 0, k)
  {
    assert spans[..i + 1][..i] == spans[..i] && spans[..|spans|] == spans;
  }

  /** The dependency aggregation over all pairs of spans. */
  method GroupPairs(spans: seq<Span>, w: Window) returns (rows: map<DepKey, Row>)
    ensures rows == DepRows(spans, w)
  {
    rows := map[];
    for i := 0 to |spans|
      invariant forall k :: Holds(rows, spans, w, i, 0, k)
    {
      for j := 0 to |spans|
        invariant forall k :: Holds(rows, spans, w, i, j, k)
      {
        ghost var before, next := rows, j + 1;
        rows := AddPair(rows, spans[i], spans[j], w);
        forall k ensures Holds(rows, spans, w, i, next, k) {
          PairAdded(before, spans, w, i, j, k);
        }
      }
      ghost var next := i + 1;
      forall k ensures Holds(rows, spans, w, next, 0, k) {
        ChildDone(rows, spans, w, i, k);
      }
    }
    forall k
      ensures k in rows <==> k in DepKeysIn(spans, w)
      ensures k in rows ==> rows[k] == DepRowIn(spans, w, k)
    {
      AllPairsDone(rows, spans, w, k);
    }
  }

  lemma AllPairsDone(rows: map<DepKey, Row>, spans: seq<Span>, w: Window, k: DepKey)
    requires Holds(rows, spans, w, |spans|, 0, k)
    ensures k in rows <==> k in DepKeysIn(spans, w)
    ensures k in rows ==> rows[k] == DepRowIn(spans, w, k)
  {
    assert spans[..|spans|] == spans;
    DepKeyHasRow(spans, w, k);
  }

  class Maintainer {
    var spans: seq<Span>
    var rollup: map<Key, Row>
    var deps: map<DepKey, Row>
    var watermark: Option<int>

    ghost function Tables(): Db
      reads this
    {
      Db(spans, rollup, deps, watermark)
    }

    constructor ()
      ensures Tables() == EMPTY.db
    {
      spans, rollup, deps, watermark := [], map[], map[], None;
    }

    method WriteSpans(batch: seq<Span>)
      modifies this
      ensures Tables() == old(Tables()).(spans := old(spans) + batch)
    {
      spans := spans + batch;
    }

    /** Reads where to resume; with no recorded watermark, from the oldest span. */
    method ReadWatermark(now: int) returns (from: int)
      ensures from == ResumeFrom(Tables(), now)
    {
      if watermark.Some? {
        return watermark.value;
      }
      if spans == [] {
        return Truncate(now);
      }
      return Truncate(MinTime(spans));
    }

    /** One undisturbed pass, which reads the clock twice: for the minute to start at, where nothing is
        stored, and for the minute to stop at.  `minutes` is how many it processed. */
    method Rollup(read: int, now: int) returns (minutes: int)
      modifies this
      ensures match PassWindow(old(Tables()), read, now)
              case None => minutes == 0 && Tables() == old(Tables())
              case Some(p) => minutes == (p.to - p.from) / MINUTE && Tables() == RollUp(old(Tables()), p)
    {
      var from := ReadWatermark(read);
      var to := Truncate(now);
      if from >= to {
        return 0;
      }
      if to - from > CATCH_UP_LIMIT {
        to := from + CATCH_UP_LIMIT;
      }
      var w := Window(from, to);
      rollup := map k | k in rollup && !In(k.minute, w) :: rollup[k];
      deps := map k | k in deps && !In(k.minute, w) :: deps[k];
      var newRows := GroupSpans(spans, w);
      rollup := rollup + newRows;
      var newDeps := GroupPairs(spans, w);
      deps := deps + newDeps;
      watermark := Some(to);
      minutes := (to - from) / MINUTE;
      assert PassWindow(old(Tables()), read, now) == Some(w);
      assert rollup == ClearRollup(old(rollup), w) + RollupRows(old(spans), w);
      assert deps == ClearDeps(old(deps), w) + DepRows(old(spans), w);
    }

    /** Span, then rollup retention; a lifetime of zero or less keeps everything. */
    method Retention(now: int, spanKeep: int, rollupKeep: int)
      modifies this
      ensures Tables() == ExpireRollups(ExpireSpans(old(Tables()), now, spanKeep), now, rollupKeep)
    {
      if spanKeep > 0 {
        var cutoff := now - spanKeep;
        var mark := ReadWatermark(now);
        if mark < cutoff {
          cutoff := mark;
        }
        spans := Since(spans, cutoff);
      }
      if rollupKeep > 0 {
        rollup := map k | k in rollup && k.minute >= now - rollupKeep :: rollup[k];
        deps := map k | k in deps && k.minute >= now - rollupKeep :: deps[k];
      }
    }
  }

  /** Re-running a range double counts nothing: what the first run inserted is cleared, and derived again. */
  lemma RollupIdempotent(db: Db, p: Window)
    requires Aligned(p.from) && Aligned(p.to)
    ensures RollUp(RollUp(db, p), p) == RollUp(db, p)
  {
    var rows, deps := RollupRows(db.spans, p), DepRows(db.spans, p);
    forall k | k in rows ensures In(k.minute, p) {
      KeyInWindow(db.spans, p, k);
    }
    forall k | k in deps ensures In(k.minute, p) {
      DepKeyInWindow(db.spans, p, k);
    }
    assert ClearRollup(ClearRollup(db.rollup, p) + rows, p) == ClearRollup(db.rollup, p);
    assert ClearDeps(ClearDeps(db.deps, p) + deps, p) == ClearDeps(db.deps, p);
  }

  /** A pass replaces what its range held, stale rows included, and leaves all other rows as they are. */
  lemma PassReplacesRange(db: Db, p: Window)
    requires Aligned(p.from) && Aligned(p.to)
    ensures var v := RollUp(db, p);
            && v.spans == db.spans && v.watermark == Some(p.to)
            && (forall k: Key :: p.from <= k.minute < p.to ==> (k in v.rollup <==> k in KeysIn(db.spans, p)))
            && (forall k: Key :: p.from <= k.minute < p.to && k in v.rollup ==> v.rollup[k] == RowIn(db.spans, p, k))
            && (forall k: DepKey :: p.from <= k.minute < p.to ==> (k in v.deps <==> k in DepKeysIn(db.spans, p)))
            && (forall k: DepKey :: p.from <= k.minute < p.to && k in v.deps ==> v.deps[k] == DepRowIn(db.spans, p, k))
  {
  }

  lemma OtherRowsStay(db: Db, p: Window, k: Key, l: DepKey)
    requires Aligned(p.from) && Aligned(p.to) && !In(k.minute, p) && !In(l.minute, p)
    ensures var v := RollUp(db, p);
            && (k in v.rollup <==> k in db.rollup) && (k in db.rollup ==> v.rollup[k] == db.rollup[k])
            && (l in v.deps <==> l in db.deps) && (l in db.deps ==> v.deps[l] == db.deps[l])
  {
    if k in KeysIn(db.spans, p) {
      KeyInWindow(db.spans, p, k);
    }
    if l in DepKeysIn(db.spans, p) {
      DepKeyInWindow(db.spans, p, l);
    }
  }
}
