/** Reconcile passes, spawned and manual attaches, operator toggles and reaping, interleaved
    (internal/inventory/manager.go).

    Each step is what happens under one hold of the lock, or one operation on `inflight`.  The
    reconcile loop's sightings, decisions and reaping may come in any order here, so the results
    cover every order the loop can produce.
  */
module AttachRuns {

  import opened Lifecycle

  /** An attach call: from its start, through holding the key in `inflight`, to its return. */
  datatype Phase = Called | Holding | Injecting(attempt: int) | Leaving | Returned

  datatype Call = Call(key: Key, auto: bool, phase: Phase)

  /** `autos` counts the automatic injections of each tracked entry since its last manual attach. */
  datatype World = World(entries: map<Key, Entry>, inflight: set<Key>, calls: seq<Call>, autos: map<Key, nat>)

  datatype Event =
    | Sight(jvm: Jvm, now: int)
    | Decide(key: Key, now: int)
    | ReapMissing(seen: set<Key>, now: int)
    | ManualAttach(key: Key)
    | SetManual(key: Key, manual: bool)
    | Acquire(i: nat)
    | MarkAttaching(i: nat)
    | RecordOutcome(i: nat, outcome: Outcome, now: int)
    | Release(i: nat)

  const EMPTY := World(map[], {}, [], map[])

  predicate Enabled(w: World, e: Event) {
    match e
    case Sight(_, _) => true
    case Decide(k, _) => k in w.entries
    case ReapMissing(_, _) => true
    case ManualAttach(k) => k in w.entries
    case SetManual(k, _) => k in w.entries
    case Acquire(i) => i < |w.calls| && w.calls[i].phase.Called?
    case MarkAttaching(i) => i < |w.calls| && w.calls[i].phase.Holding?
    case RecordOutcome(i, _, _) => i < |w.calls| && w.calls[i].phase.Injecting?
    case Release(i) => i < |w.calls| && w.calls[i].phase.Leaving?
  }

  function AutosOf(w: World, k: Key): nat { if k in w.autos then w.autos[k] else 0 }

  function At(w: World, i: nat, phase: Phase): seq<Call>
    requires i < |w.calls|
  {
    w.calls[i := w.calls[i].(phase := phase)]
  }

  function Step(w: World, e: Event, cfg: Config): World
    requires Enabled(w, e)
  {
    match e
    case Sight(jvm, now) =>
      w.(entries := Observe(w.entries, jvm, now, cfg),
         autos := if jvm.key in w.entries then w.autos else w.autos[jvm.key := 0])
    case Decide(k, now) =>
      if ShouldAttach(w.entries[k], now, cfg) then w.(calls := w.calls + [Call(k, true, Called)]) else w
    case ReapMissing(seen, now) => w.(entries := Reap(w.entries, seen, now))
    case ManualAttach(k) =>
      w.(entries := w.entries[k := Override(w.entries[k])], autos := w.autos[k := 0],
         calls := w.calls + [Call(k, false, Called)])
    case SetManual(k, manual) => w.(entries := w.entries[k := Toggle(w.entries[k], manual)])
    case Acquire(i) =>
      var k := w.calls[i].key;
      if k in w.inflight then w.(calls := At(w, i, Returned))
      else w.(inflight := w.inflight + {k}, calls := At(w, i, Holding))
    case MarkAttaching(i) =>
      var k := w.calls[i].key;
      if k !in w.entries then w.(calls := At(w, i, Leaving))
      else
        w.(entries := w.entries[k := Mark(w.entries[k])],
           calls := At(w, i, Injecting(w.entries[k].attempts + 1)),
           autos := if w.calls[i].auto then w.autos[k := AutosOf(w, k) + 1] else w.autos)
    case RecordOutcome(i, outcome, now) =>
      var k := w.calls[i].key;
      if k !in w.entries then w.(calls := At(w, i, Leaving))
      else
        w.(entries := w.entries[k := Record(w.entries[k], w.calls[i].phase.attempt, outcome, now, cfg)],
           calls := At(w, i, Leaving))
    case Release(i) => w.(inflight := w.inflight - {w.calls[i].key}, calls := At(w, i, Returned))
  }

  ghost predicate IsRun(w: World, events: seq<Event>, v: World, cfg: Config)
    decreases |events|
  {
    if events == [] then w == v
    else Enabled(w, events[0]) && IsRun(Step(w, events[0], cfg), events[1..], v, cfg)
  }

  lemma RunsOn(w: World, e: Event, rest: seq<Event>, v: World, cfg: Config)
    requires Enabled(w, e) && IsRun(Step(w, e, cfg), rest, v, cfg)
    ensures IsRun(w, [e] + rest, v, cfg)
  {
    assert ([e] + rest)[1..] == rest;
  }

  lemma {:induction false} OneMore(w: World, events: seq<Event>, v: World, e: Event, cfg: Config)
    requires IsRun(w, events, v, cfg) && Enabled(v, e)
    ensures IsRun(w, events + [e], Step(v, e, cfg), cfg)
    decreases |events|
  {
    if events == [] {
      assert [e][1..] == [] && events + [e] == [e];
    } else {
      assert (events + [e])[1..] == events[1..] + [e];
      OneMore(Step(w, events[0], cfg), events[1..], v, e, cfg);
    }
  }

  // ---- One injection at a time ------------------------------------------------------------

  predicate Holds(c: Call) { c.phase.Holding? || c.phase.Injecting? || c.phase.Leaving? }

  ghost predicate HolderKnown(w: World, i: nat) {
    i < |w.calls| && Holds(w.calls[i]) ==> w.calls[i].key in w.inflight
  }

  ghost predicate HoldersApart(w: World, i: nat, j: nat) {
    i < j < |w.calls| && Holds(w.calls[i]) && Holds(w.calls[j]) ==> w.calls[i].key != w.calls[j].key
  }

  ghost predicate InjectingNow(w: World, k: Key) {
    exists i :: 0 <= i < |w.calls| && w.calls[i].phase.Injecting? && w.calls[i].key == k
  }

  /** A key is in `inflight` only while some call holds it. */
  ghost predicate Held(w: World, k: Key) {
    k in w.inflight ==> exists i :: 0 <= i < |w.calls| && Holds(w.calls[i]) && w.calls[i].key == k
  }

  /** An entry shown as attaching has an injection running whose outcome is still to come. */
  ghost predicate AttachingIsReal(w: World, k: Key) {
    k in w.entries && w.entries[k].status == Attaching ==> InjectingNow(w, k)
  }

  ghost predicate Locked(w: World) {
    && (forall i: nat :: HolderKnown(w, i))
    && (forall i: nat, j: nat :: HoldersApart(w, i, j))
    && (forall k :: Held(w, k))
    && (forall k :: AttachingIsReal(w, k))
  }

  /** Steps that change entries only, or add a call that holds nothing yet. */
  lemma NoLockChange(w: World, v: World)
    requires Locked(w) && v.inflight == w.inflight && w.calls <= v.calls
    requires forall i :: |w.calls| <= i < |v.calls| ==> v.calls[i].phase.Called?
    requires forall k :: k in v.entries && v.entries[k].status == Attaching ==>
                           k in w.entries && w.entries[k].status == Attaching
    ensures Locked(v)
  {
    forall i: nat ensures HolderKnown(v, i) {
      assert HolderKnown(w, i);
    }
    forall i: nat, j: nat ensures HoldersApart(v, i, j) {
      assert HoldersApart(w, i, j);
    }
    forall k ensures Held(v, k) {
      assert Held(w, k);
      if i :| 0 <= i < |w.calls| && Holds(w.calls[i]) && w.calls[i].key == k {
        assert v.calls[i] == w.calls[i];
      }
    }
    forall k ensures AttachingIsReal(v, k) {
      assert AttachingIsReal(w, k);
      if i :| 0 <= i < |w.calls| && w.calls[i].phase.Injecting? && w.calls[i].key == k {
        assert v.calls[i] == w.calls[i];
      }
    }
  }

  /** Steps that move one call on. */
  lemma CallMoves(w: World, v: World, n: nat)
    requires Locked(w) && n < |w.calls| == |v.calls|
    requires v.calls == w.calls[n := v.calls[n]] && v.calls[n].key == w.calls[n].key
    requires var k := w.calls[n].key;
             v.inflight == if Holds(v.calls[n]) then w.inflight + {k}
                           else if Holds(w.calls[n]) then w.inflight - {k} else w.inflight
    requires Holds(v.calls[n]) && !Holds(w.calls[n]) ==> w.calls[n].key !in w.inflight
    requires forall k :: k != w.calls[n].key ==> (k in v.entries <==> k in w.entries)
    requires forall k :: k != w.calls[n].key && k in w.entries ==> v.entries[k] == w.entries[k]
    requires v.calls[n].phase.Injecting? || AttachingIsReal(v, w.calls[n].key)
    ensures Locked(v)
  {
    var key := w.calls[n].key;
    forall i: nat ensures HolderKnown(v, i) {
      assert HolderKnown(w, i) && HoldersApart(w, i, n) && HoldersApart(w, n, i);
    }
    forall i: nat, j: nat ensures HoldersApart(v, i, j) {
      assert HoldersApart(w, i, j) && HolderKnown(w, i) && HolderKnown(w, j);
    }
    forall k ensures Held(v, k) {
      assert Held(w, k);
      if i :| 0 <= i < |w.calls| && Holds(w.calls[i]) && w.calls[i].key == k {
        assert i != n ==> v.calls[i] == w.calls[i];
      }
    }
    forall k ensures AttachingIsReal(v, k) {
      assert AttachingIsReal(w, k);
      if k != key {
        if i :| 0 <= i < |w.calls| && w.calls[i].phase.Injecting? && w.calls[i].key == k {
          assert v.calls[i] == w.calls[i];
        }
      }
    }
  }

  lemma StepKeepsLocked(w: World, e: Event, cfg: Config)
    requires Locked(w) && Enabled(w, e)
    ensures Locked(Step(w, e, cfg))
  {
    var v := Step(w, e, cfg);
    match e
    case Sight(_, _) => NoLockChange(w, v);
    case Decide(_, _) => NoLockChange(w, v);
    case ReapMissing(_, _) => NoLockChange(w, v);
    case ManualAttach(_) => NoLockChange(w, v);
    case SetManual(_, _) => NoLockChange(w, v);
    case Acquire(i) => CallStarts(w, i, cfg);
    case MarkAttaching(i) => CallMarks(w, i, cfg);
    case RecordOutcome(i, outcome, now) => CallRecords(w, i, outcome, now, cfg);
    case Release(i) => CallReleases(w, i, cfg);
  }

  /** A call that is not injecting is never what keeps its key's entry attaching. */
  lemma AnotherInjects(w: World, n: nat, v: World)
    requires Locked(w) && n < |w.calls| == |v.calls| && !w.calls[n].phase.Injecting?
    requires v.calls == w.calls[n := v.calls[n]] && v.entries == w.entries
    ensures AttachingIsReal(v, w.calls[n].key)
  {
    assert AttachingIsReal(w, w.calls[n].key);
    if i :| 0 <= i < |w.calls| && w.calls[i].phase.Injecting? && w.calls[i].key == w.calls[n].key {
      assert v.calls[i] == w.calls[i];
    }
  }

  lemma CallStarts(w: World, i: nat, cfg: Config)
    requires Locked(w) && Enabled(w, Acquire(i))
    ensures Locked(Step(w, Acquire(i), cfg))
  {
    var v := Step(w, Acquire(i), cfg);
    AnotherInjects(w, i, v);
    CallMoves(w, v, i);
  }

  lemma CallMarks(w: World, i: nat, cfg: Config)
    requires Locked(w) && Enabled(w, MarkAttaching(i))
    ensures Locked(Step(w, MarkAttaching(i), cfg))
  {
    var v := Step(w, MarkAttaching(i), cfg);
    assert HolderKnown(w, i);
    if w.calls[i].key !in w.entries {
      AnotherInjects(w, i, v);
    }
    assert v.inflight == w.inflight + {w.calls[i].key};
    CallMoves(w, v, i);
  }

  lemma CallRecords(w: World, i: nat, outcome: Outcome, now: int, cfg: Config)
    requires Locked(w) && Enabled(w, RecordOutcome(i, outcome, now))
    ensures Locked(Step(w, RecordOutcome(i, outcome, now), cfg))
  {
    var v := Step(w, RecordOutcome(i, outcome, now), cfg);
    assert HolderKnown(w, i);
    assert v.inflight == w.inflight + {w.calls[i].key};
    CallMoves(w, v, i);
  }

  lemma CallReleases(w: World, i: nat, cfg: Config)
    requires Locked(w) && Enabled(w, Release(i))
    ensures Locked(Step(w, Release(i), cfg))
  {
    var v := Step(w, Release(i), cfg);
    AnotherInjects(w, i, v);
    CallMoves(w, v, i);
  }

  lemma {:induction false} RunKeepsLocked(w: World, events: seq<Event>, v: World, cfg: Config)
    requires Locked(w) && IsRun(w, events, v, cfg)
    ensures Locked(v)
    decreases |events|
  {
    if events != [] {
      StepKeepsLocked(w, events[0], cfg);
      RunKeepsLocked(Step(w, events[0], cfg), events[1..], v, cfg);
    }
  }

  /** In every interleaving: two injections that run at once are for different processes, and an
      entry shown as attaching has exactly one, whose key is held and whose outcome is to come. */
  lemma OneInjectionPerProcess(events: seq<Event>, v: World, cfg: Config)
    requires IsRun(EMPTY, events, v, cfg)
    ensures forall i, j :: 0 <= i < j < |v.calls| && v.calls[i].phase.Injecting? && v.calls[j].phase.Injecting? ==>
                             v.calls[i].key != v.calls[j].key
    ensures forall k :: k in v.entries && v.entries[k].status == Attaching ==> k in v.inflight && InjectingNow(v, k)
  {
    RunKeepsLocked(EMPTY, events, v, cfg);
    forall i, j | 0 <= i < j < |v.calls| && v.calls[i].phase.Injecting? && v.calls[j].phase.Injecting?
      ensures v.calls[i].key != v.calls[j].key
    {
      assert HoldersApart(v, i, j);
    }
    forall k | k in v.entries && v.entries[k].status == Attaching ensures k in v.inflight && InjectingNow(v, k) {
      assert AttachingIsReal(v, k);
      var i :| 0 <= i < |v.calls| && v.calls[i].phase.Injecting? && v.calls[i].key == k;
      assert HolderKnown(v, i);
    }
  }

  /** Once every call has returned no key is left behind, so a later attach is never refused. */
  lemma NoKeyLeftBehind(events: seq<Event>, v: World, cfg: Config)
    requires IsRun(EMPTY, events, v, cfg)
    requires forall c :: c in v.calls ==> c.phase.Returned? || c.phase.Called?
    ensures v.inflight == {}
  {
    RunKeepsLocked(EMPTY, events, v, cfg);
    forall k ensures k !in v.inflight {
      assert Held(v, k);
    }
  }
}
