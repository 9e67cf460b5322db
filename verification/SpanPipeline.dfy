/** The pipeline object: internal/pipeline/pipeline.go.

    The writer's batch, a local of its loop in the program, is a field here; time and cancellation
    are arguments.  What a method does is tied to the steps of PipelineRuns.
  */
module SpanPipeline {

  import opened PipelineRuns
  import Guard = Cardinality
  import RateLimit

  datatype Span = Span(service: string, operation: string, payload: string)

  /** What is stored of a span, given what the guard has admitted so far. */
  ghost function Normal(span: Span, services: set<Guard.Name>, operations: set<Guard.Name>,
                        maxServices: int, maxOperations: int): Span {
    var service := Guard.StoredService(span.service,
                                       Guard.Name(span.service) in services || !Guard.Full(services, maxServices));
    var key := Guard.Name(Guard.OperationKey(service, span.operation));
    Span(service,
         Guard.StoredOperation(service, span.operation, key in operations || !Guard.Full(operations, maxOperations)),
         span.payload)
  }

  /** What is stored of a span: its service if that is known or there is room for it, and likewise its
      operation, counted for the service stored; the overflow label for what is refused or has no name. */
  lemma StoredAs(span: Span, services: set<Guard.Name>, operations: set<Guard.Name>, maxServices: int, maxOperations: int)
    requires Guard.NUL !in span.service
    ensures var r := Normal(span, services, operations, maxServices, maxOperations);
            && r.service == (if && span.service != ""
                                && (Guard.Name(span.service) in services || maxServices <= 0 || |services| < maxServices)
                             then span.service else "__other__")
            && r.operation == (if && span.operation != ""
                                  && (|| Guard.Name(r.service + ['\0'] + span.operation) in operations
                                      || maxOperations <= 0 || |operations| < maxOperations)
                               then span.operation else "__other__")
            && r.payload == span.payload
  {
    Guard.AdmittedStoredAsIs(span.service, span.operation);
    var r := Normal(span, services, operations, maxServices, maxOperations);
    Guard.AdmittedStoredAsIs(r.service, span.operation);
  }

  /** Whether the limiter lets the span after `n` others pass. */
  ghost predicate Admitted(b: RateLimit.Bucket, limit: int, now: real, n: nat) {
    RateLimit.Admits(RateLimit.AfterAll(b, limit, Times(now, n)), limit, now)
  }

  /** Exactly the spans the limiter refuses are dropped for it. */
  ghost predicate Limited(events: seq<Event<Span>>, b: RateLimit.Bucket, limit: int, now: real) {
    forall n :: 0 <= n < |events| ==> (events[n].DropRate? <==> !Admitted(b, limit, now, n))
  }

  /** What is queued for a span carries its payload. */
  ghost predicate Matches(events: seq<Event<Span>>, spans: seq<Span>) {
    && |events| <= |spans|
    && forall n :: 0 <= n < |events| && events[n].Enqueue? ==> events[n].span.payload == spans[n].payload
  }

  lemma OneMoreSpan(events: seq<Event<Span>>, spans: seq<Span>, e: Event<Span>,
                    b: RateLimit.Bucket, limit: int, now: real)
    requires Matches(events, spans) && Limited(events, b, limit, now) && |events| < |spans|
    requires e.Enqueue? ==> e.span.payload == spans[|events|].payload
    requires e.DropRate? <==> !Admitted(b, limit, now, |events|)
    ensures Matches(events + [e], spans) && Limited(events + [e], b, limit, now)
  {
  }

  /** As many calls of the limiter at one time. */
  ghost function Times(now: real, n: nat): seq<real> { seq(n, _ => now) }

  class Pipeline {
    const cfg: Config
    const limiter: RateLimit.RateLimiter
    const guard: Guard.CardinalityGuard
    var queue: seq<Span>
    var batch: seq<Span>
    var writer: Writer
    var cancelled: bool
    var queued: nat
    var droppedRate: nat
    var droppedQueue: nat
    var written: nat
    var batches: nat
    var writeErrors: nat
    ghost var accepted: seq<Span>
    ghost var flushes: seq<Flush<Span>>
    ghost var offered: nat
    ghost var abandoned: nat
    ghost var metricErrors: nat

    ghost function View(): World<Span>
      reads this
    {
      World(queue, batch, writer, cancelled, queued, droppedRate, droppedQueue, written, batches, writeErrors,
            accepted, flushes, offered, abandoned, metricErrors)
    }

    constructor (cfg: Config, perSecond: int, maxServices: int, maxOperations: int, now: real)
      ensures this.cfg == cfg && View() == Start() && fresh(limiter) && fresh(guard)
    {
      this.cfg := cfg;
      limiter := new RateLimit.RateLimiter(perSecond, now);
      guard := new Guard.CardinalityGuard(maxServices, maxOperations);
      queue, batch, writer, cancelled := [], [], Looping, false;
      queued, droppedRate, droppedQueue, written, batches, writeErrors := 0, 0, 0, 0, 0, 0;
      accepted, flushes, offered, abandoned, metricErrors := [], [], 0, 0, 0;
    }

    /** Collapses names past the ceilings. */
    method Normalize(span: Span) returns (r: Span)
      modifies guard
      ensures r == Normal(span, old(guard.services), old(guard.operations), guard.maxServices, guard.maxOperations)
      ensures Guard.NUL !in span.service ==>
                Guard.Storable(guard.services, guard.operations, (Guard.Name(r.service), Guard.Name(r.operation)))
      ensures old(guard.services) <= guard.services && old(guard.operations) <= guard.operations
    {
      ghost var services, operations := guard.services, guard.operations;
      var service := guard.Service(span.service);
      ghost var ok := Guard.Name(span.service) in services || !Guard.Full(services, guard.maxServices);
      var operation := guard.Operation(service, span.operation);
      ghost var key := Guard.Name(Guard.OperationKey(service, span.operation));
      ghost var opOk := key in operations || !Guard.Full(operations, guard.maxOperations);
      if Guard.NUL !in span.service {
        Guard.NormalizedIsStorable(guard.services, guard.operations, span.service, span.operation, ok, opOk);
      }
      r := span.(service := service, operation := operation);
    }

    /** One span of a slice, with `left` of them still to go.  Where the queue has room and the
        context is cancelled as well, either may win. */
    method Offer(s: Span, now: real, contextDone: bool, ghost left: nat) returns (stop: bool, ghost e: Event<Span>)
      requires left >= 1
      modifies this`queue, this`queued, this`droppedRate, this`droppedQueue, this`accepted, this`offered, this`abandoned
      modifies limiter, guard
      ensures Enabled(old(View()), e, cfg) && View() == Step(old(View()), e, cfg)
      ensures if stop then contextDone && e == Abandon(left) else offered == old(offered) + 1
      ensures e.DropRate? <==> !RateLimit.Admits(old(limiter.View()), limiter.limit, now)
      ensures e.Enqueue? ==>
                e.span == Normal(s, old(guard.services), old(guard.operations), guard.maxServices, guard.maxOperations)
      ensures limiter.View() == RateLimit.After(old(limiter.View()), limiter.limit, now)
    {
      stop := false;
      var ok := limiter.Allow(now);
      if !ok {
        droppedRate, offered, e := droppedRate + 1, offered + 1, DropRate;
        return;
      }
      var span := Normalize(s);
      stop, e := Enter(span, contextDone, left);
    }

    /** The non-blocking send. */
    method Enter(span: Span, contextDone: bool, ghost left: nat) returns (stop: bool, ghost e: Event<Span>)
      requires left >= 1
      modifies this`queue, this`queued, this`droppedQueue, this`accepted, this`offered, this`abandoned
      ensures Enabled(old(View()), e, cfg) && View() == Step(old(View()), e, cfg)
      ensures if stop then contextDone && e == Abandon(left) else offered == old(offered) + 1 && !e.DropRate?
      ensures e.Enqueue? ==> e.span == span
    {
      stop := false;
      var preferDone: bool := *;
      if contextDone && (preferDone || |queue| >= cfg.queueSize) {
        abandoned, offered, e := abandoned + left, offered + left, Abandon(left);
        stop := true;
      } else if |queue| < cfg.queueSize {
        queue, queued := queue + [span], queued + 1;
        accepted, offered, e := accepted + [span], offered + 1, Enqueue(span);
      } else {
        droppedQueue, offered, e := droppedQueue + 1, offered + 1, DropFull;
      }
    }

    /** Accepts one receiver's spans without ever blocking. */
    method Consume(spans: seq<Span>, now: real, contextDone: bool) returns (err: bool, ghost events: seq<Event<Span>>)
      modifies this`queue, this`queued, this`droppedRate, this`droppedQueue, this`accepted, this`offered, this`abandoned
      modifies limiter, guard
      ensures IsRun(old(View()), events, View(), cfg)
      ensures err ==> contextDone
      ensures offered == old(offered) + |spans| && (!err ==> |events| == |spans|)
      ensures Matches(events, spans) && Limited(events, old(limiter.View()), limiter.limit, now)
    {
      events := [];
      ghost var start, bucket := View(), limiter.View();
      for i := 0 to |spans|
        invariant IsRun(start, events, View(), cfg)
        invariant offered == old(offered) + i && |events| == i
        invariant limiter.View() == RateLimit.AfterAll(bucket, limiter.limit, Times(now, i))
        invariant Matches(events, spans) && Limited(events, bucket, limiter.limit, now)
      {
        assert Times(now, i + 1)[..i] == Times(now, i);
        ghost var before := View();
        ghost var e;
        err, e := Offer(spans[i], now, contextDone, |spans| - i);
        OneMore(start, events, before, e, cfg);
        OneMoreSpan(events, spans, e, bucket, limiter.limit, now);
        events := events + [e];
        if err {
          return;
        }
      }
      err := false;
    }

    /** Hands the batch to the store, unless it is empty. */
    method FlushNow(ok: bool)
      modifies this`batch, this`written, this`batches, this`writeErrors, this`flushes
      ensures View() == FlushBatch(old(View()), ok)
    {
      if |batch| == 0 {
        return;
      }
      if ok {
        written := written + |batch|;
        batches := batches + 1;
      } else {
        writeErrors := writeErrors + 1;
      }
      flushes := flushes + [Flush(batch, ok, writer.Draining?)];
      batch := [];
    }

    /** The outcome of a metric batch, as far as it shows in the counter shared with spans. */
    method MetricsWritten(ok: bool)
      modifies this`writeErrors, this`metricErrors
      ensures View() == if ok then old(View()) else Step(old(View()), MetricWriteFails, cfg)
    {
      if !ok {
        writeErrors, metricErrors := writeErrors + 1, metricErrors + 1;
      }
    }

    method TakeSpan(ok: bool)
      requires Enabled(View(), Take(ok), cfg)
      modifies this`queue, this`batch, this`written, this`batches, this`writeErrors, this`flushes
      ensures View() == Step(old(View()), Take(ok), cfg)
    {
      batch := batch + [queue[0]];
      queue := queue[1..];
      if |batch| >= cfg.batchSize {
        FlushNow(ok);
      }
    }

    /** Moves everything queued into the batch, then flushes it: the writer's last act, undisturbed. */
    method Shutdown(ok: bool) returns (ghost events: seq<Event<Span>>)
      requires Enabled(View(), BeginDrain, cfg)
      modifies this`queue, this`batch, this`writer, this`written, this`batches, this`writeErrors, this`flushes
      ensures IsRun(old(View()), events, View(), cfg) && writer.Ended? && queue == []
      ensures batch == [] && accepted == old(accepted)
    {
      ghost var start := View();
      OneMore(start, [], start, BeginDrain, cfg);
      writer := Draining;
      events := Drain(start, [] + [BeginDrain]);
      OneMore(start, events, View(), EndDrain(ok), cfg);
      events := events + [EndDrain(ok)];
      FlushNow(ok);
      writer := Ended;
    }

    /** Takes whatever is queued, until nothing is. */
    method Drain(ghost start: World<Span>, ghost before: seq<Event<Span>>) returns (ghost events: seq<Event<Span>>)
      requires writer.Draining? && IsRun(start, before, View(), cfg)
      modifies this`queue, this`batch
      ensures writer.Draining? && IsRun(start, events, View(), cfg) && queue == []
    {
      events := before;
      while queue != []
        invariant IsRun(start, events, View(), cfg)
        decreases |queue|
      {
        OneMore(start, events, View(), DrainOne, cfg);
        events := events + [DrainOne];
        batch := batch + [queue[0]];
        queue := queue[1..];
      }
    }
  }

  lemma {:induction false} OneMore<S>(w: World<S>, events: seq<Event<S>>, v: World<S>, e: Event<S>, cfg: Config)
    requires IsRun(w, events, v, cfg) && Enabled(v, e, cfg)
    ensures IsRun(w, events + [e], Step(v, e, cfg), cfg)
    decreases |events|
  {
    if events == [] {
      assert [e][1..] == [];
      assert events + [e] == [e];
    } else {
      assert (events + [e])[1..] == events[1..] + [e];
      OneMore(Step(w, events[0], cfg), events[1..], v, e, cfg);
    }
  }
}
