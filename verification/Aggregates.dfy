/** What the rollup queries of internal/store/maintenance.go aggregate.

    Timestamps are integers in nanoseconds.  A query is modelled by the rows it returns, never by
    how the database engine computes them.
  */
module Aggregates {

  import opened Wrappers

  datatype Text = Text(chars: string)
  datatype Span = Span(ts: int, traceId: Text, spanId: Text, parentId: Option<Text>,
                       service: Text, operation: Text, kind: int, durBucket: int,
                       duration: int, isError: bool, isRoot: bool)

  datatype Row = Row(count: int, errors: int, sum: int)

  /** The columns of `rollup_1m` that rows are grouped by. */
  datatype Key = Key(minute: int, service: Text, operation: Text, kind: int, durBucket: int)

  /** The columns of `deps_1m` that rows are grouped by. */
  datatype DepKey = DepKey(minute: int, caller: Text, callee: Text)

  /** A half-open time range. */
  datatype Window = Window(from: int, to: int)

  const MINUTE: int := 60_000_000_000

  function Truncate(t: int): (m: int)
    ensures m <= t < m + MINUTE && Aligned(m)
    ensures Aligned(t) ==> m == t
  {
    t - t % MINUTE
  }

  predicate Aligned(t: int) { t % MINUTE == 0 }

  predicate In(t: int, w: Window) { w.from <= t < w.to }

  /** Against an aligned range it makes no difference whether a time or its minute is compared. */
  lemma MinuteInWindow(t: int, w: Window)
    requires Aligned(w.from) && Aligned(w.to)
    ensures In(Truncate(t), w) <==> In(t, w)
  {
    MinuteBelow(t, w.from);
    MinuteBelow(t, w.to);
  }

  lemma MinuteBelow(t: int, b: int)
    requires Aligned(b)
    ensures Truncate(t) < b <==> t < b
  {
  }

  /** The aggregated columns of a row. */
  datatype Column = Spans | Errors | Nanos

  function Weight(s: Span, col: Column): int {
    match col
    case Spans => 1
    case Errors => if s.isError then 1 else 0
    case Nanos => s.duration
  }

  // ---- Latency rows -----------------------------------------------------------------------

  /** Inbound requests, consumed messages and trace roots. */
  predicate IsEntry(s: Span) { s.kind == 2 || s.kind == 5 || s.isRoot }

  function KeyOf(s: Span): Key {
    Key(Truncate(s.ts), s.service, s.operation, s.kind, s.durBucket)
  }

  predicate Counts(s: Span, w: Window, k: Key) { IsEntry(s) && In(s.ts, w) && KeyOf(s) == k }

  /** One column of the row for `k`, over the entry spans of a time range. */
  function Total(spans: seq<Span>, w: Window, k: Key, col: Column): int {
    if spans == [] then 0
    else
      var last := spans[|spans| - 1];
      Total(spans[..|spans| - 1], w, k, col) + if Counts(last, w, k) then Weight(last, col) else 0
  }

  function RowIn(spans: seq<Span>, w: Window, k: Key): Row {
    Row(Total(spans, w, k, Spans), Total(spans, w, k, Errors), Total(spans, w, k, Nanos))
  }

  /** The keys the query groups by: those some entry span in the range has. */
  function KeysIn(spans: seq<Span>, w: Window): set<Key> {
    set s | s in spans && IsEntry(s) && In(s.ts, w) :: KeyOf(s)
  }

  lemma {:induction false} KeyHasRow(spans: seq<Span>, w: Window, k: Key)
    ensures k in KeysIn(spans, w) <==> Total(spans, w, k, Spans) > 0
    ensures Total(spans, w, k, Spans) >= 0
  {
    if spans != [] {
      var front, last := spans[..|spans| - 1], spans[|spans| - 1];
      assert spans == front + [last];
      KeyHasRow(front, w, k);
      assert k in KeysIn(spans, w) <==> k in KeysIn(front, w) || Counts(last, w, k);
    }
  }

  lemma KeyInWindow(spans: seq<Span>, w: Window, k: Key)
    requires Aligned(w.from) && Aligned(w.to) && k in KeysIn(spans, w)
    ensures In(k.minute, w)
  {
    var s :| s in spans && IsEntry(s) && In(s.ts, w) && KeyOf(s) == k;
    MinuteInWindow(s.ts, w);
  }

  lemma {:induction false} TotalAppend(a: seq<Span>, b: seq<Span>, w: Window, k: Key, col: Column)
    ensures Total(a + b, w, k, col) == Total(a, w, k, col) + Total(b, w, k, col)
  {
    if b == [] {
      assert a + b == a;
    } else {
      assert (a + b)[..|a + b| - 1] == a + b[..|b| - 1];
      TotalAppend(a, b[..|b| - 1], w, k, col);
    }
  }

  /** Splitting the range anywhere splits every row without loss. */
  lemma {:induction false} TotalSplits(spans: seq<Span>, a: int, b: int, c: int, k: Key, col: Column)
    requires a <= b <= c
    ensures Total(spans, Window(a, c), k, col) == Total(spans, Window(a, b), k, col) + Total(spans, Window(b, c), k, col)
  {
    if spans != [] {
      TotalSplits(spans[..|spans| - 1], a, b, c, k, col);
    }
  }

  /** Outside its own minute a key has nothing to count. */
  lemma {:induction false} TotalElsewhere(spans: seq<Span>, w: Window, k: Key, col: Column)
    requires Aligned(w.from) && Aligned(w.to) && !In(k.minute, w)
    ensures Total(spans, w, k, col) == 0
  {
    if spans != [] {
      TotalElsewhere(spans[..|spans| - 1], w, k, col);
      MinuteInWindow(spans[|spans| - 1].ts, w);
    }
  }

  /** At an aligned cut no row is shared: each belongs to one side, whole. */
  lemma RowsOnOneSide(spans: seq<Span>, a: int, b: int, c: int, k: Key)
    requires a <= b <= c && Aligned(a) && Aligned(b) && Aligned(c)
    ensures k in KeysIn(spans, Window(a, c)) <==> k in KeysIn(spans, Window(a, b)) || k in KeysIn(spans, Window(b, c))
    ensures !(k in KeysIn(spans, Window(a, b)) && k in KeysIn(spans, Window(b, c)))
    ensures k in KeysIn(spans, Window(a, b)) ==> RowIn(spans, Window(a, c), k) == RowIn(spans, Window(a, b), k)
    ensures k in KeysIn(spans, Window(b, c)) ==> RowIn(spans, Window(a, c), k) == RowIn(spans, Window(b, c), k)
  {
    KeyHasRow(spans, Window(a, b), k);
    KeyHasRow(spans, Window(b, c), k);
    KeyHasRow(spans, Window(a, c), k);
    forall col ensures Total(spans, Window(a, c), k, col) ==
                       Total(spans, Window(a, b), k, col) + Total(spans, Window(b, c), k, col)
    {
      TotalSplits(spans, a, b, c, k, col);
    }
    if k in KeysIn(spans, Window(a, b)) {
      KeyInWindow(spans, Window(a, b), k);
      OtherSideEmpty(spans, Window(b, c), k);
    }
    if k in KeysIn(spans, Window(b, c)) {
      KeyInWindow(spans, Window(b, c), k);
      OtherSideEmpty(spans, Window(a, b), k);
    }
  }

  lemma OtherSideEmpty(spans: seq<Span>, w: Window, k: Key)
    requires Aligned(w.from) && Aligned(w.to) && !In(k.minute, w)
    ensures forall col :: Total(spans, w, k, col) == 0
  {
    forall col ensures Total(spans, w, k, col) == 0 {
      TotalElsewhere(spans, w, k, col);
    }
  }

  // ---- Dependency rows --------------------------------------------------------------------

  predicate Linked(child: Span, parent: Span) {
    && child.parentId == Some(parent.spanId) && child.traceId == parent.traceId
    && child.service != parent.service
  }

  function DepKeyOf(child: Span, parent: Span): DepKey {
    DepKey(Truncate(child.ts), parent.service, child.service)
  }

  predicate Joins(child: Span, parent: Span, k: DepKey) { Linked(child, parent) && DepKeyOf(child, parent) == k }

  /** One column over the pairs of one child with the parents in a range. */
  function ParentsTotal(child: Span, parents: seq<Span>, w: Window, k: DepKey, col: Column): int {
    if parents == [] then 0
    else
      var last := parents[|parents| - 1];
      ParentsTotal(child, parents[..|parents| - 1], w, k, col)
      + if In(last.ts, w) && Joins(child, last, k) then Weight(child, col) else 0
  }

  /** One column of the row for `k`, over all pairs of a child in `cw` with a parent in `pw`. */
  function PairsTotal(children: seq<Span>, parents: seq<Span>, cw: Window, pw: Window, k: DepKey, col: Column): int {
    if children == [] then 0
    else
      var last := children[|children| - 1];
      PairsTotal(children[..|children| - 1], parents, cw, pw, k, col)
      + if In(last.ts, cw) then ParentsTotal(last, parents, pw, k, col) else 0
  }

  /** The dependency query joins the spans of a range with those of the same range. */
  function DepTotal(spans: seq<Span>, w: Window, k: DepKey, col: Column): int {
    PairsTotal(spans, spans, w, w, k, col)
  }

  function DepRowIn(spans: seq<Span>, w: Window, k: DepKey): Row {
    Row(DepTotal(spans, w, k, Spans), DepTotal(spans, w, k, Errors), DepTotal(spans, w, k, Nanos))
  }

  function DepKeysIn(spans: seq<Span>, w: Window): set<DepKey> {
    set c, p | c in spans && p in spans && In(c.ts, w) && In(p.ts, w) && Linked(c, p) :: DepKeyOf(c, p)
  }

  lemma {:induction false} ParentsSplit(child: Span, parents: seq<Span>, a: int, b: int, c: int, k: DepKey, col: Column)
    requires a <= b <= c
    ensures ParentsTotal(child, parents, Window(a, c), k, col) ==
            ParentsTotal(child, parents, Window(a, b), k, col) + ParentsTotal(child, parents, Window(b, c), k, col)
  {
    if parents != [] {
      ParentsSplit(child, parents[..|parents| - 1], a, b, c, k, col);
    }
  }

  lemma {:induction false} PairsSplitByParent(children: seq<Span>, parents: seq<Span>, cw: Window,
                                              a: int, b: int, c: int, k: DepKey, col: Column)
    requires a <= b <= c
    ensures PairsTotal(children, parents, cw, Window(a, c), k, col) ==
            PairsTotal(children, parents, cw, Window(a, b), k, col) + PairsTotal(children, parents, cw, Window(b, c), k, col)
  {
    if children != [] {
      PairsSplitByParent(children[..|children| - 1], parents, cw, a, b, c, k, col);
      ParentsSplit(children[|children| - 1], parents, a, b, c, k, col);
    }
  }

  lemma {:induction false} PairsSplitByChild(children: seq<Span>, parents: seq<Span>, pw: Window,
                                             a: int, b: int, c: int, k: DepKey, col: Column)
    requires a <= b <= c
    ensures PairsTotal(children, parents, Window(a, c), pw, k, col) ==
            PairsTotal(children, parents, Window(a, b), pw, k, col) + PairsTotal(children, parents, Window(b, c), pw, k, col)
  {
    if children != [] {
      PairsSplitByChild(children[..|children| - 1], parents, pw, a, b, c, k, col);
    }
  }

  /** Splitting the range loses exactly the pairs that straddle the cut, in either direction. */
  lemma DepTotalSplits(spans: seq<Span>, a: int, b: int, c: int, k: DepKey, col: Column)
    requires a <= b <= c
    ensures DepTotal(spans, Window(a, c), k, col) ==
            DepTotal(spans, Window(a, b), k, col) + DepTotal(spans, Window(b, c), k, col)
            + PairsTotal(spans, spans, Window(a, b), Window(b, c), k, col)
            + PairsTotal(spans, spans, Window(b, c), Window(a, b), k, col)
  {
    PairsSplitByChild(spans, spans, Window(a, c), a, b, c, k, col);
    PairsSplitByParent(spans, spans, Window(a, b), a, b, c, k, col);
    PairsSplitByParent(spans, spans, Window(b, c), a, b, c, k, col);
  }

  ghost predicate HasParentIn(child: Span, parents: seq<Span>, w: Window, k: DepKey) {
    exists p :: p in parents && In(p.ts, w) && Joins(child, p, k)
  }

  ghost predicate HasPairIn(children: seq<Span>, parents: seq<Span>, cw: Window, pw: Window, k: DepKey) {
    exists c :: c in children && In(c.ts, cw) && HasParentIn(c, parents, pw, k)
  }

  lemma {:induction false} ParentsCount(child: Span, parents: seq<Span>, w: Window, k: DepKey)
    ensures ParentsTotal(child, parents, w, k, Spans) >= 0
    ensures ParentsTotal(child, parents, w, k, Spans) > 0 <==> HasParentIn(child, parents, w, k)
  {
    if parents != [] {
      var front, last := parents[..|parents| - 1], parents[|parents| - 1];
      assert parents == front + [last];
      ParentsCount(child, front, w, k);
      assert HasParentIn(child, parents, w, k) <==>
             HasParentIn(child, front, w, k) || (In(last.ts, w) && Joins(child, last, k));
    }
  }

  lemma {:induction false} PairsCount(children: seq<Span>, parents: seq<Span>, cw: Window, pw: Window, k: DepKey)
    ensures PairsTotal(children, parents, cw, pw, k, Spans) >= 0
    ensures PairsTotal(children, parents, cw, pw, k, Spans) > 0 <==> HasPairIn(children, parents, cw, pw, k)
  {
    if children != [] {
      var front, last := children[..|children| - 1], children[|children| - 1];
      assert children == front + [last];
      PairsCount(front, parents, cw, pw, k);
      ParentsCount(last, parents, pw, k);
      assert HasPairIn(children, parents, cw, pw, k) <==>
             HasPairIn(front, parents, cw, pw, k) || (In(last.ts, cw) && HasParentIn(last, parents, pw, k));
    }
  }

  lemma DepKeyHasRow(spans: seq<Span>, w: Window, k: DepKey)
    ensures DepTotal(spans, w, k, Spans) >= 0
    ensures k in DepKeysIn(spans, w) <==> DepTotal(spans, w, k, Spans) > 0
  {
    PairsCount(spans, spans, w, w, k);
    if HasPairIn(spans, spans, w, w, k) {
      var c :| c in spans && In(c.ts, w) && HasParentIn(c, spans, w, k);
      var p :| p in spans && In(p.ts, w) && Joins(c, p, k);
      assert DepKeyOf(c, p) in DepKeysIn(spans, w);
    }
    if k in DepKeysIn(spans, w) {
      var c, p :| c in spans && p in spans && In(c.ts, w) && In(p.ts, w) && Linked(c, p) && DepKeyOf(c, p) == k;
      assert HasParentIn(c, spans, w, k);
    }
  }

  lemma DepKeyInWindow(spans: seq<Span>, w: Window, k: DepKey)
    requires Aligned(w.from) && Aligned(w.to) && k in DepKeysIn(spans, w)
    ensures In(k.minute, w)
  {
    var c, p :| c in spans && p in spans && In(c.ts, w) && In(p.ts, w) && Linked(c, p) && DepKeyOf(c, p) == k;
    MinuteInWindow(c.ts, w);
  }

  // ---- What rows say ----------------------------------------------------------------------

  /** A span alone makes a row exactly if it is a server or consumer span, or a root, of the range; the row
      is that of its minute and labels, and says what the span does. */
  lemma RowOfOne(s: Span, w: Window, k: Key)
    ensures RowIn([s], w, k) ==
            if && (s.kind == 2 || s.kind == 5 || s.isRoot) && w.from <= s.ts < w.to
               && k == Key(s.ts - s.ts % 60_000_000_000, s.service, s.operation, s.kind, s.durBucket)
            then Row(1, if s.isError then 1 else 0, s.duration) else Row(0, 0, 0)
  {
    var one := [s];
    assert one[..|one| - 1] == [] && one[|one| - 1] == s;
    assert Truncate(s.ts) == s.ts - s.ts % 60_000_000_000;
    forall col ensures Total(one, w, k, col) == if Counts(s, w, k) then Weight(s, col) else 0 {
      assert Total(one[..|one| - 1], w, k, col) == 0;
    }
  }

  /** Two spans alone are one call exactly if the one names the other as its parent in the same trace, from
      another service, both in their ranges; it counts for the callee's minute, error and duration. */
  lemma CallOfTwo(child: Span, parent: Span, cw: Window, pw: Window, k: DepKey, col: Column)
    ensures PairsTotal([child], [parent], cw, pw, k, col) ==
            if && child.parentId == Some(parent.spanId) && child.traceId == parent.traceId
               && child.service != parent.service && cw.from <= child.ts < cw.to && pw.from <= parent.ts < pw.to
               && k == DepKey(child.ts - child.ts % 60_000_000_000, parent.service, child.service)
            then (match col case Spans => 1 case Errors => if child.isError then 1 else 0 case Nanos => child.duration)
            else 0
  {
    var one, other := [child], [parent];
    assert one[..|one| - 1] == [] && one[|one| - 1] == child;
    assert other[..|other| - 1] == [] && other[|other| - 1] == parent;
    assert PairsTotal(one[..|one| - 1], other, cw, pw, k, col) == 0;
    assert ParentsTotal(child, other[..|other| - 1], pw, k, col) == 0;
  }

  lemma {:induction false} ParentsAppend(child: Span, a: seq<Span>, b: seq<Span>, w: Window, k: DepKey, col: Column)
    ensures ParentsTotal(child, a + b, w, k, col) == ParentsTotal(child, a, w, k, col) + ParentsTotal(child, b, w, k, col)
  {
    if b == [] {
      assert a + b == a;
    } else {
      assert (a + b)[..|a + b| - 1] == a + b[..|b| - 1];
      ParentsAppend(child, a, b[..|b| - 1], w, k, col);
    }
  }

  /** Pairs add up, over children and over parents. */
  lemma {:induction false} PairsAppend(a: seq<Span>, b: seq<Span>, p: seq<Span>, q: seq<Span>, cw: Window, pw: Window,
                                       k: DepKey, col: Column)
    ensures PairsTotal(a + b, p + q, cw, pw, k, col) ==
            PairsTotal(a, p, cw, pw, k, col) + PairsTotal(a, q, cw, pw, k, col)
            + PairsTotal(b, p, cw, pw, k, col) + PairsTotal(b, q, cw, pw, k, col)
  {
    if b != [] {
      assert (a + b)[..|a + b| - 1] == a + b[..|b| - 1];
      PairsAppend(a, b[..|b| - 1], p, q, cw, pw, k, col);
      ParentsAppend(b[|b| - 1], p, q, pw, k, col);
    } else if a != [] {
      assert a + b == a;
      PairsAppend(a[..|a| - 1], [], p, q, cw, pw, k, col);
      assert a[..|a| - 1] + [] == a[..|a| - 1];
      ParentsAppend(a[|a| - 1], p, q, pw, k, col);
    } else {
      assert a + b == [];
    }
  }

  /** A row has no more errors than spans, and its mean lies between the durations of its spans. */
  lemma {:induction false} RowIsSane(spans: seq<Span>, w: Window, k: Key, low: int, high: int)
    requires forall s :: s in spans && Counts(s, w, k) ==> low <= s.duration <= high
    ensures var r := RowIn(spans, w, k);
            0 <= r.errors <= r.count && low * r.count <= r.sum <= high * r.count
  {
    if spans != [] {
      var front, last := spans[..|spans| - 1], spans[|spans| - 1];
      assert spans == front + [last];
      RowIsSane(front, w, k, low, high);
    }
  }
}
