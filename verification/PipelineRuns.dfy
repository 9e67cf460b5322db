/** The span pipeline between receiver and store: internal/pipeline/pipeline.go.

    Receivers offer spans from many goroutines while the writer takes, flushes and at last drains;
    every operation on the queue is a step.  A span is what `normalize` has made of it.
  */
module PipelineRuns {

  datatype Config = Config(queueSize: nat, batchSize: nat)

  /** Writer positions: in its loop, draining after cancellation, returned. */
  datatype Writer = Looping | Draining | Ended

  /** One call of the store, and what became of it. */
  datatype Flush<S> = Flush(spans: seq<S>, ok: bool, shutdown: bool)

  /** The queue, the writer's batch and the counters, and what has happened: `accepted` lists the
      spans that entered the queue, `offered` counts those that were presented, and `metricErrors` the
      failed writes of metric batches, which the program counts with those of spans. */
  datatype World<S> = World(queue: seq<S>, batch: seq<S>, writer: Writer, cancelled: bool,
                            queued: nat, droppedRate: nat, droppedQueue: nat, written: nat,
                            batches: nat, writeErrors: nat,
                            accepted: seq<S>, flushes: seq<Flush<S>>, offered: nat, abandoned: nat,
                            metricErrors: nat)

  /** `Enqueue`, `DropRate` and `DropFull` are one span of a receiver's slice; `Abandon` is a receiver
      that finds its context cancelled with `n` spans of its slice left. */
  datatype Event<S> =
    | Enqueue(span: S)
    | DropRate
    | DropFull
    | Abandon(n: nat)
    | Cancel
    | Take(ok: bool)
    | Tick(ok: bool)
    | BeginDrain
    | DrainOne
    | EndDrain(ok: bool)
    | MetricWriteFails

  function Start<S>(): World<S> {
    World([], [], Looping, false, 0, 0, 0, 0, 0, 0, [], [], 0, 0, 0)
  }

  predicate Enabled<S>(w: World<S>, e: Event<S>, cfg: Config) {
    match e
    case Enqueue(_) => |w.queue| < cfg.queueSize
    case DropRate => true
    case DropFull => |w.queue| >= cfg.queueSize
    case Abandon(n) => n >= 1
    case Cancel => true
    case Take(_) => w.writer.Looping? && w.queue != []
    case Tick(_) => w.writer.Looping?
    case BeginDrain => w.writer.Looping? && w.cancelled
    case DrainOne => w.writer.Draining? && w.queue != []
    case EndDrain(_) => w.writer.Draining? && w.queue == []
    case MetricWriteFails => true
  }

  /** Hands the batch to the store; a failed write loses it. */
  function FlushBatch<S>(w: World<S>, ok: bool): World<S> {
    if w.batch == [] then w
    else
      w.(batch := [], flushes := w.flushes + [Flush(w.batch, ok, w.writer.Draining?)],
         written := if ok then w.written + |w.batch| else w.written,
         batches := if ok then w.batches + 1 else w.batches,
         writeErrors := if ok then w.writeErrors else w.writeErrors + 1)
  }

  function TakeOne<S>(w: World<S>): World<S>
    requires w.queue != []
  {
    w.(queue := w.queue[1..], batch := w.batch + [w.queue[0]])
  }

  function Step<S>(w: World<S>, e: Event<S>, cfg: Config): World<S>
    requires Enabled(w, e, cfg)
  {
    match e
    case Enqueue(s) =>
      w.(queue := w.queue + [s], accepted := w.accepted + [s], queued := w.queued + 1, offered := w.offered + 1)
    case DropRate => w.(droppedRate := w.droppedRate + 1, offered := w.offered + 1)
    case DropFull => w.(droppedQueue := w.droppedQueue + 1, offered := w.offered + 1)
    case Abandon(n) => w.(abandoned := w.abandoned + n, offered := w.offered + n)
    case Cancel => w.(cancelled := true)
    case Take(ok) =>
      var t := TakeOne(w);
      if |t.batch| >= cfg.batchSize then FlushBatch(t, ok) else t
    case Tick(ok) => FlushBatch(w, ok)
    case BeginDrain => w.(writer := Draining)
    case DrainOne => TakeOne(w)
    case EndDrain(ok) => FlushBatch(w, ok).(writer := Ended)
    case MetricWriteFails => w.(writeErrors := w.writeErrors + 1, metricErrors := w.metricErrors + 1)
  }

  ghost predicate IsRun<S>(w: World<S>, events: seq<Event<S>>, v: World<S>, cfg: Config)
    decreases |events|
  {
    if events == [] then w == v
    else Enabled(w, events[0], cfg) && IsRun(Step(w, events[0], cfg), events[1..], v, cfg)
  }

  function Flushed<S>(flushes: seq<Flush<S>>): seq<S> {
    if flushes == [] then [] else Flushed(flushes[..|flushes| - 1]) + flushes[|flushes| - 1].spans
  }

  function SpansOf<S>(flushes: seq<Flush<S>>, ok: bool): nat {
    if flushes == [] then 0
    else
      var last := flushes[|flushes| - 1];
      SpansOf(flushes[..|flushes| - 1], ok) + if last.ok == ok then |last.spans| else 0
  }

  function CallsOf<S>(flushes: seq<Flush<S>>, ok: bool): nat {
    if flushes == [] then 0
    else CallsOf(flushes[..|flushes| - 1], ok) + if flushes[|flushes| - 1].ok == ok then 1 else 0
  }

  ghost predicate FlushOk<S>(f: Flush<S>, cfg: Config) {
    |f.spans| >= 1 && (!f.shutdown ==> |f.spans| <= cfg.batchSize)
  }

  ghost predicate Ordered<S>(w: World<S>) {
    Flushed(w.flushes) + w.batch + w.queue == w.accepted
  }

  ghost predicate Counted<S>(w: World<S>) {
    && w.queued == |w.accepted|
    && w.offered == w.queued + w.droppedRate + w.droppedQueue + w.abandoned
    && w.written == SpansOf(w.flushes, true)
    && w.batches == CallsOf(w.flushes, true) && w.writeErrors == CallsOf(w.flushes, false) + w.metricErrors
  }

  ghost predicate Sized<S>(w: World<S>, cfg: Config) {
    && |w.queue| <= cfg.queueSize
    && (w.writer.Looping? ==> |w.batch| < cfg.batchSize)
    && (w.writer.Ended? ==> w.batch == [])
    && (forall f :: f in w.flushes ==> FlushOk(f, cfg))
  }

  ghost predicate Inv<S>(w: World<S>, cfg: Config) { Ordered(w) && Counted(w) && Sized(w, cfg) }

  lemma FlushKeepsOrder<S>(w: World<S>, ok: bool)
    requires Ordered(w)
    ensures Ordered(FlushBatch(w, ok))
  {
    if w.batch != [] {
      var v := FlushBatch(w, ok);
      assert v.flushes[..|w.flushes|] == w.flushes;
      assert Flushed(v.flushes) + v.batch + v.queue == Flushed(w.flushes) + w.batch + w.queue;
    }
  }

  lemma FlushKeepsCounts<S>(w: World<S>, ok: bool)
    requires Counted(w)
    ensures Counted(FlushBatch(w, ok))
  {
    if w.batch != [] {
      assert FlushBatch(w, ok).flushes[..|w.flushes|] == w.flushes;
    }
  }

  lemma FlushKeepsSizes<S>(w: World<S>, ok: bool, cfg: Config)
    requires forall f :: f in w.flushes ==> FlushOk(f, cfg)
    requires !w.writer.Draining? ==> |w.batch| <= cfg.batchSize
    ensures FlushBatch(w, ok).batch == [] && forall f :: f in FlushBatch(w, ok).flushes ==> FlushOk(f, cfg)
  {
  }

  lemma TakeKeepsOrder<S>(w: World<S>)
    requires Ordered(w) && w.queue != []
    ensures Ordered(TakeOne(w))
  {
    assert w.queue == [w.queue[0]] + w.queue[1..];
    assert Flushed(w.flushes) + (w.batch + [w.queue[0]]) + w.queue[1..] == Flushed(w.flushes) + w.batch + w.queue;
  }

  lemma FlushKeeps<S>(w: World<S>, ok: bool, cfg: Config)
    requires Ordered(w) && Counted(w) && forall f :: f in w.flushes ==> FlushOk(f, cfg)
    requires !w.writer.Draining? ==> |w.batch| <= cfg.batchSize
    ensures var v := FlushBatch(w, ok);
            Ordered(v) && Counted(v) && v.batch == [] && forall f :: f in v.flushes ==> FlushOk(f, cfg)
  {
    FlushKeepsOrder(w, ok);
    FlushKeepsCounts(w, ok);
    FlushKeepsSizes(w, ok, cfg);
  }

  lemma EnqueueKeepsInv<S>(w: World<S>, s: S, cfg: Config)
    requires Inv(w, cfg) && Enabled(w, Enqueue(s), cfg)
    ensures Inv(Step(w, Enqueue(s), cfg), cfg)
  {
    assert Flushed(w.flushes) + w.batch + (w.queue + [s]) == w.accepted + [s];
  }

  lemma TakeKeepsInv<S>(w: World<S>, ok: bool, cfg: Config)
    requires cfg.batchSize >= 1 && Inv(w, cfg) && Enabled(w, Take(ok), cfg)
    ensures Inv(Step(w, Take(ok), cfg), cfg)
  {
    TakeKeepsOrder(w);
    FlushKeeps(TakeOne(w), ok, cfg);
  }

  lemma StepKeepsInv<S>(w: World<S>, e: Event<S>, cfg: Config)
    requires cfg.batchSize >= 1 && Inv(w, cfg) && Enabled(w, e, cfg)
    ensures Inv(Step(w, e, cfg), cfg)
  {
    match e
    case Enqueue(s) => EnqueueKeepsInv(w, s, cfg);
    case Take(ok) => TakeKeepsInv(w, ok, cfg);
    case Tick(ok) => FlushKeeps(w, ok, cfg);
    case DrainOne => TakeKeepsOrder(w);
    case EndDrain(ok) => FlushKeeps(w, ok, cfg);
    case _ =>
  }

  lemma {:induction false} RunKeepsInv<S>(w: World<S>, events: seq<Event<S>>, v: World<S>, cfg: Config)
    requires cfg.batchSize >= 1 && Inv(w, cfg) && IsRun(w, events, v, cfg)
    ensures Inv(v, cfg)
    decreases |events|
  {
    if events != [] {
      StepKeepsInv(w, events[0], cfg);
      RunKeepsInv(Step(w, events[0], cfg), events[1..], v, cfg);
    }
  }

  /** Nothing has happened yet. */
  ghost predicate Fresh<S>(w: World<S>) {
    && w.queue == [] && w.batch == [] && w.accepted == [] && w.flushes == [] && w.writer.Looping?
    && w.queued == w.droppedRate == w.droppedQueue == w.written == w.batches == w.writeErrors == 0
    && w.offered == w.abandoned == w.metricErrors == 0
  }

  lemma FreshInv<S>(w: World<S>, cfg: Config)
    requires cfg.batchSize >= 1 && Fresh(w)
    ensures Inv(w, cfg)
  {
    assert Flushed(w.flushes) == [];
    assert Flushed(w.flushes) + w.batch + w.queue == w.accepted;
  }

  /** In every run: what was flushed, then the batch, then the queue are exactly the accepted spans in
      order; every span offered is accounted for, every flush counted; the queue keeps its bound and
      each batch but the last its size. */
  lemma NothingLostOrReordered<S>(events: seq<Event<S>>, v: World<S>, cfg: Config)
    requires cfg.batchSize >= 1 && IsRun(Start(), events, v, cfg)
    ensures Ordered(v) && Counted(v) && Sized(v, cfg)
  {
    var w: World<S> := Start();
    assert Fresh(w);
    FreshInv(w, cfg);
    RunKeepsInv(Start(), events, v, cfg);
  }

  /** A shutdown loses nothing that was accepted before the writer found the queue empty. */
  lemma ShutdownFlushesAll<S>(events: seq<Event<S>>, w: World<S>, ok: bool, cfg: Config)
    requires cfg.batchSize >= 1 && IsRun(Start(), events, w, cfg) && Enabled(w, EndDrain(ok), cfg)
    ensures Flushed(Step(w, EndDrain(ok), cfg).flushes) == w.accepted
  {
    NothingLostOrReordered(events, w, cfg);
    AllFlushed(w, ok);
  }

  lemma AllFlushed<S>(w: World<S>, ok: bool)
    requires Ordered(w) && w.queue == []
    ensures Flushed(FlushBatch(w, ok).flushes) == w.accepted
  {
    FlushKeepsOrder(w, ok);
  }

  /** A span is turned away exactly when the queue holds as many as it may, and enters it otherwise. */
  lemma RoomDecides<S>(events: seq<Event<S>>, w: World<S>, s: S, cfg: Config)
    requires cfg.batchSize >= 1 && IsRun(Start(), events, w, cfg)
    ensures Enabled(w, DropFull, cfg) <==> |w.queue| == cfg.queueSize
    ensures Enabled(w, Enqueue(s), cfg) <==> |w.queue| != cfg.queueSize
  {
    NothingLostOrReordered(events, w, cfg);
  }

  ghost predicate OnlyOffers<S>(events: seq<Event<S>>) {
    forall e :: e in events ==> e.Enqueue? || e.DropFull?
  }

  /** Of a burst of spans the first ones enter, as many as there is room for, and the others are dropped. */
  lemma {:induction false} BurstFillsQueue<S>(w: World<S>, events: seq<Event<S>>, v: World<S>, cfg: Config)
    requires IsRun(w, events, v, cfg) && OnlyOffers(events) && |w.queue| <= cfg.queueSize
    ensures var room := cfg.queueSize - |w.queue|;
            && |v.queue| == (if |events| <= room then |w.queue| + |events| else cfg.queueSize)
            && v.queued - w.queued == |v.queue| - |w.queue|
            && v.droppedQueue - w.droppedQueue == (if |events| <= room then 0 else |events| - room)
            && forall i :: 0 <= i < |events| ==> (events[i].Enqueue? <==> i < room)
    decreases |events|
  {
    if events != [] {
      assert events[0] in events && forall e :: e in events[1..] ==> e in events;
      BurstFillsQueue(Step(w, events[0], cfg), events[1..], v, cfg);
      assert forall i :: 1 <= i < |events| ==> events[i] == events[1..][i - 1];
    }
  }

  ghost predicate NoTick<S>(events: seq<Event<S>>) {
    forall e :: e in events ==> !e.Tick? && !e.EndDrain?
  }

  ghost predicate AllFull<S>(w: World<S>, cfg: Config) {
    forall f :: f in w.flushes ==> |f.spans| == cfg.batchSize
  }

  lemma StepKeepsFull<S>(w: World<S>, e: Event<S>, cfg: Config)
    requires cfg.batchSize >= 1 && Inv(w, cfg) && Enabled(w, e, cfg) && AllFull(w, cfg) && !e.Tick? && !e.EndDrain?
    ensures AllFull(Step(w, e, cfg), cfg)
  {
  }

  /** But for the timer and the shutdown, batches are flushed when full and never before. */
  lemma {:induction false} FlushesAreFull<S>(w: World<S>, events: seq<Event<S>>, v: World<S>, cfg: Config)
    requires cfg.batchSize >= 1 && Inv(w, cfg) && IsRun(w, events, v, cfg) && NoTick(events) && AllFull(w, cfg)
    ensures AllFull(v, cfg)
    decreases |events|
  {
    if events != [] {
      assert events[0] in events && forall e :: e in events[1..] ==> e in events;
      StepKeepsInv(w, events[0], cfg);
      StepKeepsFull(w, events[0], cfg);
      FlushesAreFull(Step(w, events[0], cfg), events[1..], v, cfg);
    }
  }

  /** After a tick of the timer everything that had been taken from the queue has been handed over. */
  lemma TickHandsOver<S>(events: seq<Event<S>>, w: World<S>, ok: bool, cfg: Config)
    requires cfg.batchSize >= 1 && IsRun(Start(), events, w, cfg) && Enabled(w, Tick(ok), cfg)
    ensures var v := Step(w, Tick(ok), cfg);
            v.queue == w.queue && Flushed(v.flushes) + v.queue == w.accepted
  {
    NothingLostOrReordered(events, w, cfg);
    FlushKeepsOrder(w, ok);
    var v := Step(w, Tick(ok), cfg);
    assert v.batch == [];
    assert Flushed(v.flushes) + v.batch + v.queue == Flushed(v.flushes) + v.queue;
  }

  /** Every span queued is written, or lost with a failed write, or in the batch or the queue still; and every
      write of spans is counted, as a batch or an error. */
  lemma WrittenPlusLost<S>(events: seq<Event<S>>, v: World<S>, cfg: Config)
    requires cfg.batchSize >= 1 && IsRun(Start(), events, v, cfg)
    ensures v.written + SpansOf(v.flushes, false) + |v.batch| + |v.queue| == v.queued
    ensures v.batches + (v.writeErrors - v.metricErrors) == |v.flushes|
  {
    NothingLostOrReordered(events, v, cfg);
    FlushedSize(v.flushes);
    assert |Flushed(v.flushes) + v.batch + v.queue| == |Flushed(v.flushes)| + |v.batch| + |v.queue|;
  }

  lemma {:induction false} FlushedSize<S>(flushes: seq<Flush<S>>)
    ensures |Flushed(flushes)| == SpansOf(flushes, true) + SpansOf(flushes, false)
    ensures |flushes| == CallsOf(flushes, true) + CallsOf(flushes, false)
  {
    if flushes != [] {
      FlushedSize(flushes[..|flushes| - 1]);
    }
  }
}
