/** How often the reconcile loop injects into one process (internal/inventory/manager.go). */
module RetryBudget {

  import opened Lifecycle
  import opened AttachRuns
  import opened Wrappers

  function Budget(cfg: Config): int { if cfg.maxRetries > 1 then cfg.maxRetries else 1 }

  /** An automatic attach that has been spawned and has not marked its entry yet. */
  predicate Unmarked(c: Call) { c.auto && (c.phase.Called? || c.phase.Holding?) }

  ghost predicate HasUnmarked(w: World, k: Key) {
    exists i :: 0 <= i < |w.calls| && Unmarked(w.calls[i]) && w.calls[i].key == k
  }

  /** A run in which every spawned attach marks its entry before that entry is decided on again. */
  ghost predicate IsPromptRun(w: World, events: seq<Event>, v: World, cfg: Config)
    decreases |events|
  {
    if events == [] then w == v
    else
      var e := events[0];
      Enabled(w, e) && (e.Decide? ==> !HasUnmarked(w, e.key)) && IsPromptRun(Step(w, e, cfg), events[1..], v, cfg)
  }

  ghost predicate KeyInBudget(w: World, k: Key, cfg: Config) {
    && AutosOf(w, k) <= Budget(cfg)
    && (k in w.entries ==>
          && AutosOf(w, k) <= w.entries[k].attempts
          && (w.entries[k].status in {Discovered, Pending, Skipped} ==> AutosOf(w, k) == 0))
  }

  ghost predicate CallInBudget(w: World, i: nat, cfg: Config) {
    i < |w.calls| && Unmarked(w.calls[i]) ==> AutosOf(w, w.calls[i].key) < Budget(cfg)
  }

  ghost predicate UnmarkedApart(w: World, i: nat, j: nat) {
    i < j < |w.calls| && Unmarked(w.calls[i]) && Unmarked(w.calls[j]) ==> w.calls[i].key != w.calls[j].key
  }

  ghost predicate InBudget(w: World, cfg: Config) {
    && (forall k :: KeyInBudget(w, k, cfg))
    && (forall i: nat :: CallInBudget(w, i, cfg))
    && (forall i: nat, j: nat :: UnmarkedApart(w, i, j))
  }

  /** Steps that leave the calls alone, or add one that is not automatic, and count nothing. */
  lemma NoAutoStarts(w: World, v: World, cfg: Config)
    requires InBudget(w, cfg) && w.calls <= v.calls
    requires forall i :: |w.calls| <= i < |v.calls| ==> !v.calls[i].auto
    requires forall k :: AutosOf(v, k) == 0 || AutosOf(v, k) == AutosOf(w, k)
    requires forall k :: k in v.entries && AutosOf(v, k) != 0 ==>
                           && k in w.entries && v.entries[k].attempts == w.entries[k].attempts
                           && (v.entries[k].status in {Discovered, Pending, Skipped} ==>
                                 w.entries[k].status in {Discovered, Pending, Skipped})
    requires forall k :: k in v.entries ==> v.entries[k].attempts >= 0
    ensures InBudget(v, cfg)
  {
    forall k ensures KeyInBudget(v, k, cfg) {
      assert KeyInBudget(w, k, cfg);
    }
    forall i: nat ensures CallInBudget(v, i, cfg) {
      assert CallInBudget(w, i, cfg);
    }
    forall i: nat, j: nat ensures UnmarkedApart(v, i, j) {
      assert UnmarkedApart(w, i, j);
    }
  }

  lemma AttemptsNatural(w: World, cfg: Config)
    requires InBudget(w, cfg)
    ensures forall k :: k in w.entries ==> w.entries[k].attempts >= 0
  {
    forall k | k in w.entries ensures w.entries[k].attempts >= 0 {
      assert KeyInBudget(w, k, cfg);
    }
  }

  lemma DecideKeepsBudget(w: World, k: Key, now: int, cfg: Config)
    requires InBudget(w, cfg) && Enabled(w, Decide(k, now)) && !HasUnmarked(w, k)
    ensures InBudget(Step(w, Decide(k, now), cfg), cfg)
  {
    var v := Step(w, Decide(k, now), cfg);
    forall l ensures KeyInBudget(v, l, cfg) {
      assert KeyInBudget(w, l, cfg);
    }
    forall i: nat ensures CallInBudget(v, i, cfg) {
      assert CallInBudget(w, i, cfg) && KeyInBudget(w, k, cfg);
    }
    forall i: nat, j: nat ensures UnmarkedApart(v, i, j) {
      assert UnmarkedApart(w, i, j);
    }
  }

  /** Steps of a call: it moves on, and if it marks its entry that is counted. */
  lemma CallKeepsBudget(w: World, e: Event, n: nat, cfg: Config)
    requires InBudget(w, cfg) && Enabled(w, e)
    requires e == Acquire(n) || e == MarkAttaching(n) || e == Release(n) || (e.RecordOutcome? && e.i == n)
    ensures InBudget(Step(w, e, cfg), cfg)
  {
    var v, key := Step(w, e, cfg), w.calls[n].key;
    assert KeyInBudget(w, key, cfg) && CallInBudget(w, n, cfg);
    forall k ensures KeyInBudget(v, k, cfg) {
      assert KeyInBudget(w, k, cfg);
    }
    forall i: nat ensures CallInBudget(v, i, cfg) {
      assert CallInBudget(w, i, cfg) && UnmarkedApart(w, i, n) && UnmarkedApart(w, n, i);
    }
    forall i: nat, j: nat ensures UnmarkedApart(v, i, j) {
      assert UnmarkedApart(w, i, j);
    }
  }

  lemma StepKeepsBudget(w: World, e: Event, cfg: Config)
    requires InBudget(w, cfg) && Enabled(w, e) && (e.Decide? ==> !HasUnmarked(w, e.key))
    ensures InBudget(Step(w, e, cfg), cfg)
  {
    AttemptsNatural(w, cfg);
    match e
    case Sight(_, _) => NoAutoStarts(w, Step(w, e, cfg), cfg);
    case Decide(k, now) => DecideKeepsBudget(w, k, now, cfg);
    case ReapMissing(_, _) => NoAutoStarts(w, Step(w, e, cfg), cfg);
    case ManualAttach(_) => NoAutoStarts(w, Step(w, e, cfg), cfg);
    case SetManual(_, _) => NoAutoStarts(w, Step(w, e, cfg), cfg);
    case Acquire(i) => CallKeepsBudget(w, e, i, cfg);
    case MarkAttaching(i) => CallKeepsBudget(w, e, i, cfg);
    case RecordOutcome(i, _, _) => CallKeepsBudget(w, e, i, cfg);
    case Release(i) => CallKeepsBudget(w, e, i, cfg);
  }

  lemma {:induction false} RunKeepsBudget(w: World, events: seq<Event>, v: World, cfg: Config)
    requires InBudget(w, cfg) && IsPromptRun(w, events, v, cfg)
    ensures InBudget(v, cfg)
    decreases |events|
  {
    if events != [] {
      StepKeepsBudget(w, events[0], cfg);
      RunKeepsBudget(Step(w, events[0], cfg), events[1..], v, cfg);
    }
  }

  /** Since its last manual attach no entry is injected automatically more than max(1, MaxRetries)
      times, however sightings, toggles, manual attaches and reaping interleave. */
  lemma AutomaticInjectionsBounded(events: seq<Event>, v: World, k: Key, cfg: Config)
    requires IsPromptRun(EMPTY, events, v, cfg)
    ensures AutosOf(v, k) <= Budget(cfg)
  {
    RunKeepsBudget(EMPTY, events, v, cfg);
    assert KeyInBudget(v, k, cfg);
  }

  /** Given up on: failed with no retry scheduled, or gone. */
  predicate Quiet(e: Entry) { (e.status == Failed || e.status == Exited) && e.nextAttempt.None? }

  predicate Active(c: Call) { c.phase.Called? || c.phase.Holding? || c.phase.Injecting? }

  /** No call is under way that could still inject into `k`. */
  ghost predicate Idle(w: World, k: Key) {
    forall i :: 0 <= i < |w.calls| && w.calls[i].key == k ==> !Active(w.calls[i])
  }

  /** The run never loses sight of `k` for so long that its entry is forgotten. */
  ghost predicate StaysTracked(w: World, events: seq<Event>, k: Key, cfg: Config)
    decreases |events|
  {
    && k in w.entries
    && (events != [] ==> Enabled(w, events[0]) && StaysTracked(Step(w, events[0], cfg), events[1..], k, cfg))
  }

  ghost predicate NoManualAttach(events: seq<Event>, k: Key) {
    forall e :: e in events ==> e != ManualAttach(k)
  }

  lemma StepStaysQuiet(w: World, e: Event, k: Key, cfg: Config)
    requires Enabled(w, e) && e != ManualAttach(k) && k in w.entries && k in Step(w, e, cfg).entries
    requires Quiet(w.entries[k]) && Idle(w, k)
    ensures Quiet(Step(w, e, cfg).entries[k]) && Idle(Step(w, e, cfg), k)
    ensures AutosOf(Step(w, e, cfg), k) == AutosOf(w, k)
  {
  }

  /** A process given up on is never injected into again, however the run goes on, until an operator
      asks for it. */
  lemma {:induction false} QuietStaysQuiet(w: World, events: seq<Event>, v: World, k: Key, cfg: Config)
    requires IsRun(w, events, v, cfg) && StaysTracked(w, events, k, cfg) && NoManualAttach(events, k)
    requires Quiet(w.entries[k]) && Idle(w, k)
    ensures k in v.entries && Quiet(v.entries[k]) && Idle(v, k) && AutosOf(v, k) == AutosOf(w, k)
    decreases |events|
  {
    if events != [] {
      assert events[0] in events && forall e :: e in events[1..] ==> e in events;
      StepStaysQuiet(w, events[0], k, cfg);
      QuietStaysQuiet(Step(w, events[0], cfg), events[1..], v, k, cfg);
    }
  }

  /** A failure leaves its entry given up on exactly when it was the last attempt allowed. */
  lemma FailureIsFinalIff(w: World, i: nat, now: int, cfg: Config)
    requires Enabled(w, RecordOutcome(i, Failure, now)) && w.calls[i].key in w.entries
    ensures Quiet(Step(w, RecordOutcome(i, Failure, now), cfg).entries[w.calls[i].key])
            <==> w.calls[i].phase.attempt >= cfg.maxRetries
  {
  }

  /** After the last attempt allowed has failed no further one starts: not in any continuation in which
      the process stays tracked and no operator asks for it, if no other call for it was waiting. */
  lemma LastFailureIsFinal(before: seq<Event>, w: World, i: nat, now: int, after: seq<Event>, v: World, cfg: Config)
    requires IsRun(EMPTY, before, w, cfg)
    requires Enabled(w, RecordOutcome(i, Failure, now)) && w.calls[i].phase.attempt >= cfg.maxRetries
    requires var k, u := w.calls[i].key, Step(w, RecordOutcome(i, Failure, now), cfg);
             && k in w.entries && (forall j :: 0 <= j < |w.calls| && w.calls[j].key == k ==> !w.calls[j].phase.Called?)
             && IsRun(u, after, v, cfg) && StaysTracked(u, after, k, cfg) && NoManualAttach(after, k)
    ensures var k := w.calls[i].key;
            k in v.entries && Quiet(v.entries[k]) && Idle(v, k) && AutosOf(v, k) == AutosOf(w, k)
  {
    var k, u := w.calls[i].key, Step(w, RecordOutcome(i, Failure, now), cfg);
    RunKeepsLocked(EMPTY, before, w, cfg);
    forall j | 0 <= j < |u.calls| && u.calls[j].key == k ensures !Active(u.calls[j]) {
      assert HoldersApart(w, i, j) && HoldersApart(w, j, i);
    }
    FailureIsFinalIff(w, i, now, cfg);
    QuietStaysQuiet(u, after, v, k, cfg);
  }

  /** One whole failing attach by call `i`, with its key free and its entry tracked. */
  lemma FailingAttach(w: World, i: nat, cfg: Config) returns (events: seq<Event>, v: World)
    requires i < |w.calls| && w.calls[i].phase.Called? && w.calls[i].auto
    requires w.calls[i].key !in w.inflight && w.calls[i].key in w.entries
    ensures IsRun(w, events, v, cfg) && NoDecision(events, w.calls[i].key)
    ensures v.calls == w.calls[i := w.calls[i].(phase := Returned)] && v.inflight == w.inflight
    ensures v.entries.Keys == w.entries.Keys
    ensures AutosOf(v, w.calls[i].key) == AutosOf(w, w.calls[i].key) + 1
  {
    var w1 := Step(w, Acquire(i), cfg);
    var w2 := Step(w1, MarkAttaching(i), cfg);
    var w3 := Step(w2, RecordOutcome(i, Failure, 0), cfg);
    v := Step(w3, Release(i), cfg);
    RunsOn(w3, Release(i), [], v, cfg);
    RunsOn(w2, RecordOutcome(i, Failure, 0), [Release(i)] + [], v, cfg);
    var rest := [RecordOutcome(i, Failure, 0)] + ([Release(i)] + []);
    RunsOn(w1, MarkAttaching(i), rest, v, cfg);
    RunsOn(w, Acquire(i), [MarkAttaching(i)] + rest, v, cfg);
    events := [Acquire(i)] + ([MarkAttaching(i)] + rest);
  }

  lemma {:induction false} RunThenRun(w: World, a: seq<Event>, u: World, b: seq<Event>, v: World, cfg: Config)
    requires IsRun(w, a, u, cfg) && IsRun(u, b, v, cfg)
    ensures IsRun(w, a + b, v, cfg)
    decreases |a|
  {
    if a == [] {
      assert a + b == b;
    } else {
      assert (a + b)[1..] == a[1..] + b;
      RunThenRun(Step(w, a[0], cfg), a[1..], u, b, v, cfg);
    }
  }

  ghost function Spawns(k: Key, n: nat): seq<Call> { seq(n, _ => Call(k, true, Called)) }

  lemma {:induction false} ManyDecisions(w: World, k: Key, n: nat, now: int, cfg: Config)
    returns (events: seq<Event>, v: World)
    requires k in w.entries && ShouldAttach(w.entries[k], now, cfg)
    ensures IsRun(w, events, v, cfg) && v == w.(calls := w.calls + Spawns(k, n))
    decreases n
  {
    if n == 0 {
      assert w.calls + Spawns(k, 0) == w.calls;
      events, v := [], w;
    } else {
      var w1, rest := Step(w, Decide(k, now), cfg), [];
      rest, v := ManyDecisions(w1, k, n - 1, now, cfg);
      assert w1.calls + Spawns(k, n - 1) == w.calls + Spawns(k, n);
      RunsOn(w, Decide(k, now), rest, v, cfg);
      events := [Decide(k, now)] + rest;
    }
  }

  // ---- How far a state can still go -----------------------------------------------------------

  predicate UnmarkedFor(c: Call, k: Key) { Unmarked(c) && c.key == k }

  function Unmarkeds(calls: seq<Call>, k: Key): nat {
    if calls == [] then 0 else (if UnmarkedFor(calls[0], k) then 1 else 0) + Unmarkeds(calls[1..], k)
  }

  /** What the automatic injections of `k` can still come to.  A forgotten entry is counted afresh when it
      is seen again. */
  function Ceiling(w: World, k: Key): nat {
    if k in w.entries then AutosOf(w, k) + Unmarkeds(w.calls, k)
    else if AutosOf(w, k) > Unmarkeds(w.calls, k) then AutosOf(w, k)
    else Unmarkeds(w.calls, k)
  }

  ghost predicate NoDecision(events: seq<Event>, k: Key) {
    forall e :: e in events ==> !(e.Decide? && e.key == k)
  }

  /** Some continuation takes `k` over its budget without the loop deciding on it again. */
  ghost predicate CanExceed(w: World, k: Key, cfg: Config) {
    exists events, v :: IsRun(w, events, v, cfg) && NoDecision(events, k) && AutosOf(v, k) > Budget(cfg)
  }

  lemma {:induction false} UnmarkedsOfUpdate(calls: seq<Call>, i: nat, c: Call, k: Key)
    requires i < |calls|
    ensures Unmarkeds(calls[i := c], k) + (if UnmarkedFor(calls[i], k) then 1 else 0)
            == Unmarkeds(calls, k) + if UnmarkedFor(c, k) then 1 else 0
  {
    if i == 0 {
      assert calls[0 := c][1..] == calls[1..];
    } else {
      assert calls[i := c][1..] == calls[1..][i - 1 := c];
      UnmarkedsOfUpdate(calls[1..], i - 1, c, k);
    }
  }

  lemma {:induction false} UnmarkedsOfMore(calls: seq<Call>, c: Call, k: Key)
    ensures Unmarkeds(calls + [c], k) == Unmarkeds(calls, k) + if UnmarkedFor(c, k) then 1 else 0
  {
    if calls == [] {
      assert calls + [c] == [c];
    } else {
      assert (calls + [c])[1..] == calls[1..] + [c];
      UnmarkedsOfMore(calls[1..], c, k);
    }
  }

  lemma CallKeepsCeiling(w: World, e: Event, i: nat, k: Key, cfg: Config)
    requires Enabled(w, e)
    requires e == Acquire(i) || e == Release(i) || (e.RecordOutcome? && e.i == i)
    ensures Ceiling(Step(w, e, cfg), k) <= Ceiling(w, k)
  {
    UnmarkedsOfUpdate(w.calls, i, Step(w, e, cfg).calls[i], k);
  }

  lemma MarkKeepsCeiling(w: World, i: nat, k: Key, cfg: Config)
    requires Enabled(w, MarkAttaching(i))
    ensures Ceiling(Step(w, MarkAttaching(i), cfg), k) <= Ceiling(w, k)
  {
    UnmarkedsOfUpdate(w.calls, i, Step(w, MarkAttaching(i), cfg).calls[i], k);
  }

  lemma StepKeepsCeiling(w: World, e: Event, k: Key, cfg: Config)
    requires Enabled(w, e) && !(e.Decide? && e.key == k)
    ensures Ceiling(Step(w, e, cfg), k) <= Ceiling(w, k)
  {
    match e
    case Sight(_, _) =>
    case Decide(l, _) => UnmarkedsOfMore(w.calls, Call(l, true, Called), k);
    case ReapMissing(_, _) =>
    case ManualAttach(l) => UnmarkedsOfMore(w.calls, Call(l, false, Called), k);
    case SetManual(_, _) =>
    case Acquire(i) => CallKeepsCeiling(w, e, i, k, cfg);
    case MarkAttaching(i) => MarkKeepsCeiling(w, i, k, cfg);
    case RecordOutcome(i, _, _) => CallKeepsCeiling(w, e, i, k, cfg);
    case Release(i) => CallKeepsCeiling(w, e, i, k, cfg);
  }

  lemma {:induction false} RunKeepsCeiling(w: World, events: seq<Event>, v: World, k: Key, cfg: Config)
    requires IsRun(w, events, v, cfg) && NoDecision(events, k)
    ensures AutosOf(v, k) <= Ceiling(w, k)
    decreases |events|
  {
    if events != [] {
      assert events[0] in events && forall e :: e in events[1..] ==> e in events;
      StepKeepsCeiling(w, events[0], k, cfg);
      RunKeepsCeiling(Step(w, events[0], cfg), events[1..], v, k, cfg);
    }
  }

  /** From call `i` on, each automatic call that waits for its turn gets it and fails. */
  lemma {:induction false} FailInTurn(w: World, k: Key, i: nat, cfg: Config) returns (events: seq<Event>, v: World)
    requires i <= |w.calls| && k !in w.inflight && k in w.entries
    requires forall c :: c in w.calls && UnmarkedFor(c, k) ==> c.phase.Called?
    ensures IsRun(w, events, v, cfg) && NoDecision(events, k)
    ensures AutosOf(v, k) == AutosOf(w, k) + Unmarkeds(w.calls[i..], k)
    decreases |w.calls| - i
  {
    if i == |w.calls| {
      return [], w;
    }
    assert w.calls[i] in w.calls && w.calls[i..][1..] == w.calls[i + 1..];
    if UnmarkedFor(w.calls[i], k) {
      var first, u := FailingAttach(w, i, cfg);
      assert u.calls[i + 1..] == w.calls[i + 1..];
      var rest;
      rest, v := FailInTurn(u, k, i + 1, cfg);
      RunThenRun(w, first, u, rest, v, cfg);
      events := first + rest;
    } else {
      events, v := FailInTurn(w, k, i + 1, cfg);
    }
  }

  /** A run that ends in its second state with nothing lost of what `k` can still come to. */
  ghost predicate Advances(w: World, events: seq<Event>, v: World, k: Key, cfg: Config) {
    IsRun(w, events, v, cfg) && NoDecision(events, k) && k in v.entries && Ceiling(v, k) == Ceiling(w, k)
  }

  /** The call that holds `k` finishes. */
  lemma {:induction false} LetFinish(w: World, i: nat, cfg: Config) returns (events: seq<Event>, v: World)
    requires i < |w.calls| && Holds(w.calls[i]) && w.calls[i].key in w.entries
    ensures Advances(w, events, v, w.calls[i].key, cfg) && w.calls[i].key !in v.inflight
    decreases match w.calls[i].phase case Holding => 2 case Injecting(_) => 1 case _ => 0
  {
    var k := w.calls[i].key;
    var e := match w.calls[i].phase
      case Holding => MarkAttaching(i)
      case Injecting(_) => RecordOutcome(i, Failure, 0)
      case _ => Release(i);
    var u, rest := Step(w, e, cfg), [];
    UnmarkedsOfUpdate(w.calls, i, u.calls[i], k);
    v := u;
    if !e.Release? {
      rest, v := LetFinish(u, i, cfg);
    }
    RunsOn(w, e, rest, v, cfg);
    events := [e] + rest;
  }

  /** The entry is seen again if it was forgotten, and whoever holds its key lets go. */
  lemma MakeReady(w: World, k: Key, cfg: Config) returns (events: seq<Event>, v: World)
    requires Locked(w) && (k in w.entries || AutosOf(w, k) <= Unmarkeds(w.calls, k))
    ensures Advances(w, events, v, k, cfg) && k !in v.inflight
  {
    if k !in w.entries {
      var jvm := Jvm(k, true, true, false, false);
      var u, rest := Step(w, Sight(jvm, 0), cfg), [];
      StepKeepsLocked(w, Sight(jvm, 0), cfg);
      rest, v := Unlock(u, k, cfg);
      RunsOn(w, Sight(jvm, 0), rest, v, cfg);
      events := [Sight(jvm, 0)] + rest;
    } else {
      events, v := Unlock(w, k, cfg);
    }
  }

  lemma Unlock(w: World, k: Key, cfg: Config) returns (events: seq<Event>, v: World)
    requires Locked(w) && k in w.entries
    ensures Advances(w, events, v, k, cfg) && k !in v.inflight
  {
    events, v := [], w;
    assert Held(w, k);
    if i :| 0 <= i < |w.calls| && Holds(w.calls[i]) && w.calls[i].key == k {
      events, v := LetFinish(w, i, cfg);
    }
  }

  /** The ceiling is reached. */
  lemma ReachCeiling(w: World, k: Key, cfg: Config) returns (events: seq<Event>, v: World)
    requires Locked(w)
    ensures IsRun(w, events, v, cfg) && NoDecision(events, k) && AutosOf(v, k) == Ceiling(w, k)
  {
    events, v := [], w;
    if k in w.entries || AutosOf(w, k) <= Unmarkeds(w.calls, k) {
      var u, rest;
      events, u := MakeReady(w, k, cfg);
      RunKeepsLocked(w, events, u, cfg);
      forall c | c in u.calls && UnmarkedFor(c, k) ensures c.phase.Called? {
        var j :| 0 <= j < |u.calls| && u.calls[j] == c;
        assert HolderKnown(u, j);
      }
      rest, v := FailInTurn(u, k, 0, cfg);
      assert u.calls[0..] == u.calls;
      RunThenRun(w, events, u, rest, v, cfg);
      events := events + rest;
    }
  }

  /** The condition is exact in every state a run can reach: the automatic injections of a tracked entry can
      exceed the budget, without another decision on it, if and only if those counted and those spawned and
      still unmarked together do. */
  lemma CanExceedIff(before: seq<Event>, w: World, k: Key, cfg: Config)
    requires IsRun(EMPTY, before, w, cfg)
    ensures CanExceed(w, k, cfg) <==> Ceiling(w, k) > Budget(cfg)
  {
    RunKeepsLocked(EMPTY, before, w, cfg);
    if Ceiling(w, k) > Budget(cfg) {
      var events, v := ReachCeiling(w, k, cfg);
    }
    if CanExceed(w, k, cfg) {
      var events, v :| IsRun(w, events, v, cfg) && NoDecision(events, k) && AutosOf(v, k) > Budget(cfg);
      RunKeepsCeiling(w, events, v, k, cfg);
    }
  }

  lemma {:induction false} SpawnsUnmarked(k: Key, n: nat)
    ensures Unmarkeds(Spawns(k, n), k) == n
    decreases n
  {
    if n > 0 {
      assert Spawns(k, n)[1..] == Spawns(k, n - 1);
      SpawnsUnmarked(k, n - 1);
    }
  }

  /** The condition on runs matters, for every configuration that attaches: deciding often enough before
      the first attach spawned gets to run makes the loop inject more often than the budget allows. */
  lemma SlowStartExceedsBudget(jvm: Jvm, cfg: Config) returns (events: seq<Event>, v: World)
    requires cfg.autoAttach && jvm.accepted && jvm.attachable
    ensures IsRun(EMPTY, events, v, cfg) && AutosOf(v, jvm.key) > Budget(cfg)
  {
    var k, now := jvm.key, if jvm.key.start.None? then 0 else jvm.key.start.value + cfg.minUptime;
    var w1 := Step(EMPTY, Sight(jvm, now), cfg);
    assert ShouldAttach(w1.entries[k], now, cfg);
    var decided, w2 := ManyDecisions(w1, k, Budget(cfg) + 1, now, cfg);
    var injected;
    SpawnsUnmarked(k, Budget(cfg) + 1);
    injected, v := FailInTurn(w2, k, 0, cfg);
    RunThenRun(w1, decided, w2, injected, v, cfg);
    RunsOn(EMPTY, Sight(jvm, now), decided + injected, v, cfg);
    events := [Sight(jvm, now)] + (decided + injected);
  }
}
