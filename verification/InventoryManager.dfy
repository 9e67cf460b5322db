/** The inventory manager's state and the sections that change it: internal/inventory/manager.go.

    Each method is one hold of the lock, or one operation on `inflight`, and does to `entries` and
    `inflight` what the step of that name does in AttachRuns.  Entries are values in the map, where
    the program assigns fields through pointers.
  */
module InventoryManager {

  import opened Lifecycle
  import AttachRuns
  import opened Wrappers

  class Manager {
    const cfg: Config
    var entries: map<Key, Entry>
    var inflight: set<Key>

    ghost function View(calls: seq<AttachRuns.Call>, autos: map<Key, nat>): AttachRuns.World
      reads this
    {
      AttachRuns.World(entries, inflight, calls, autos)
    }

    constructor (cfg: Config)
      ensures this.cfg == cfg && View([], map[]) == AttachRuns.EMPTY
    {
      this.cfg := cfg;
      entries, inflight := map[], {};
    }

    method ObserveJvm(jvm: Jvm, now: int)
      modifies this
      ensures entries == AttachRuns.Step(old(View([], map[])), AttachRuns.Sight(jvm, now), cfg).entries
      ensures inflight == old(inflight)
    {
      var entry;
      if jvm.key !in entries {
        entry := Classify(NewEntry(jvm, now), now, cfg);
      } else {
        entry := entries[jvm.key].(jvm := jvm);
        if entry.status == Pending {
          entry := Classify(entry, now, cfg);
        }
      }
      entry := entry.(lastSeen := now);
      entries := entries[jvm.key := entry];
    }

    /** Marks what vanished and forgets what vanished long ago, one entry at a time in any order. */
    method ReapMissing(seen: set<Key>, now: int)
      modifies this
      ensures entries == Reap(old(entries), seen, now)
      ensures inflight == old(inflight)
    {
      ghost var before := entries;
      var todo := entries.Keys;
      while todo != {}
        invariant inflight == old(inflight) && todo <= before.Keys && entries.Keys <= before.Keys
        invariant forall k :: k in todo ==> k in entries && entries[k] == before[k]
        invariant forall k :: k in before && k !in todo ==>
                                if k !in seen && Forgotten(before[k], now) then k !in entries
                                else k in entries && entries[k] == if k in seen then before[k] else Gone(before[k], now)
      {
        var key :| key in todo;
        todo := todo - {key};
        if key !in seen {
          var entry := entries[key];
          if entry.status != Exited {
            entries := entries[key := entry.(status := Exited, exitedAt := Some(now), nextAttempt := None)];
          } else if entry.exitedAt.Some? && now - entry.exitedAt.value > EXITED_RETENTION {
            entries := entries - {key};
          }
        }
      }
    }

    /** Finds the entry of a running process by its pid. */
    method KeyForPid(pid: int) returns (found: Option<Key>)
      ensures found.Some? ==>
                && found.value in entries && entries[found.value].jvm.key.pid == pid
                && entries[found.value].status != Exited
      ensures found.None? ==> forall k :: k in entries && entries[k].jvm.key.pid == pid ==> entries[k].status == Exited
    {
      var todo := entries.Keys;
      while todo != {}
        invariant todo <= entries.Keys
        invariant forall k :: k in entries && k !in todo ==> entries[k].jvm.key.pid != pid || entries[k].status == Exited
      {
        var key :| key in todo;
        if entries[key].jvm.key.pid == pid && entries[key].status != Exited {
          return Some(key);
        }
        todo := todo - {key};
      }
      return None;
    }

    method OverrideForManual(key: Key)
      requires key in entries
      modifies this
      ensures entries == AttachRuns.Step(old(View([], map[])), AttachRuns.ManualAttach(key), cfg).entries
      ensures inflight == old(inflight)
    {
      entries := entries[key := entries[key].(attempts := 0, manualOnly := false)];
    }

    method SetManualOnly(key: Key, manual: bool)
      requires key in entries
      modifies this
      ensures entries == AttachRuns.Step(old(View([], map[])), AttachRuns.SetManual(key, manual), cfg).entries
      ensures inflight == old(inflight)
    {
      var entry := entries[key].(manualOnly := manual);
      if manual && entry.status == Discovered {
        entry := entry.(status := Skipped, reason := ByOperator);
      }
      if !manual && entry.status == Skipped && entry.reason == ByOperator {
        entry := entry.(status := Discovered, reason := NoReason);
      }
      entries := entries[key := entry];
    }

    /** Claims the key, unless an attach to that process is under way. */
    method Claim(key: Key) returns (busy: bool)
      modifies this
      ensures busy <==> key in old(inflight)
      ensures inflight == old(inflight) + {key} && entries == old(entries)
    {
      busy := key in inflight;
      inflight := inflight + {key};
    }

    /** Shows the entry as attaching; `None` when the process is no longer tracked. */
    method BeginInjection(key: Key) returns (attempt: Option<int>)
      modifies this
      ensures if key in old(entries)
              then attempt == Some(old(entries)[key].attempts + 1) && entries == old(entries)[key := Mark(old(entries)[key])]
              else attempt == None && entries == old(entries)
      ensures inflight == old(inflight)
    {
      if key !in entries {
        return None;
      }
      var entry := entries[key].(status := Attaching, attempts := entries[key].attempts + 1);
      entries := entries[key := entry];
      attempt := Some(entry.attempts);
    }

    method EndInjection(key: Key, attempt: int, outcome: Outcome, now: int)
      modifies this
      ensures entries == if key in old(entries)
                         then old(entries)[key := Record(old(entries)[key], attempt, outcome, now, cfg)]
                         else old(entries)
      ensures inflight == old(inflight)
    {
      if key !in entries {
        return;
      }
      var entry := entries[key];
      match outcome
      case Failure =>
        entry := entry.(status := Failed, reason := InjectError);
        if attempt < cfg.maxRetries {
          entry := entry.(nextAttempt := Some(now + cfg.retryBackoff));
        } else {
          entry := entry.(nextAttempt := None);
        }
        entries := entries[key := entry];
      case Success(endpoint, texts, already) =>
        entry := ApplyResult(entry, endpoint, texts, already, now);
        entries := entries[key := entry];
    }

    method Unclaim(key: Key)
      modifies this
      ensures inflight == old(inflight) - {key} && entries == old(entries)
    {
      inflight := inflight - {key};
    }

    /** One injection attempt with nothing else going on; `outcome` is what the injector makes of it. */
    method Attach(key: Key, outcome: Outcome, now: int) returns (err: bool)
      modifies this
      ensures entries == AfterAttach(old(entries), old(inflight), key, outcome, now, cfg)
      ensures inflight == old(inflight)
      ensures err <==> key in old(inflight) || key !in old(entries) || outcome.Failure?
    {
      var busy := Claim(key);
      if busy {
        return true;
      }
      var attempt := BeginInjection(key);
      if attempt.None? {
        Unclaim(key);
        return true;
      }
      EndInjection(key, attempt.value, outcome, now);
      Unclaim(key);
      err := outcome.Failure?;
    }

    /** A sighting, then the decision on it. */
    method Consider(jvm: Jvm, now: int, ghost calls: seq<AttachRuns.Call>, ghost autos: map<Key, nat>)
      returns (attach: bool, ghost sighted: AttachRuns.World)
      modifies this
      ensures sighted == AttachRuns.Step(old(View(calls, autos)), AttachRuns.Sight(jvm, now), cfg)
      ensures jvm.key in sighted.entries
      ensures AttachRuns.Step(sighted, AttachRuns.Decide(jvm.key, now), cfg)
              == View(if attach then calls + [AttachRuns.Call(jvm.key, true, AttachRuns.Called)] else calls, sighted.autos)
    {
      sighted := AttachRuns.Step(View(calls, autos), AttachRuns.Sight(jvm, now), cfg);
      ObserveJvm(jvm, now);
      attach := ShouldAttach(entries[jvm.key], now, cfg);
    }

    /** One discovery pass: every process found is sighted and decided on, then the missing are reaped.
        The keys returned are those an attach is spawned for. */
    method Reconcile(found: seq<Jvm>, now: int, ghost calls: seq<AttachRuns.Call>, ghost autos: map<Key, nat>)
      returns (keys: seq<Key>, ghost autos': map<Key, nat>)
      modifies this
      ensures AttachRuns.IsRun(old(View(calls, autos)),
                               Considered(found, now) + [AttachRuns.ReapMissing(set j | j in found :: j.key, now)],
                               View(calls + Spawned(keys), autos'), cfg)
    {
      ghost var start := View(calls, autos);
      keys, autos' := [], autos;
      var seen: set<Key> := {};
      assert calls + Spawned(keys) == calls;
      for i := 0 to |found|
        invariant AttachRuns.IsRun(start, Considered(found[..i], now), View(calls + Spawned(keys), autos'), cfg)
        invariant seen == set j | j in found[..i] :: j.key
      {
        var jvm := found[i];
        assert found[..i + 1] == found[..i] + [jvm] && found[..i + 1][..i] == found[..i];
        seen := seen + {jvm.key};
        ghost var before, events := View(calls + Spawned(keys), autos'), Considered(found[..i], now);
        var attach;
        ghost var sighted;
        attach, sighted := Consider(jvm, now, calls + Spawned(keys), autos');
        ConsideredIsRun(start, events, before, jvm, now, cfg);
        autos' := sighted.autos;
        if attach {
          OneMoreSpawned(calls, keys, jvm.key);
          keys := keys + [jvm.key];
        }
      }
      assert found[..|found|] == found;
      AttachRuns.OneMore(start, Considered(found, now), View(calls + Spawned(keys), autos'),
                         AttachRuns.ReapMissing(seen, now), cfg);
      ReapMissing(seen, now);
    }
  }

  ghost function Considered(found: seq<Jvm>, now: int): seq<AttachRuns.Event> {
    if found == [] then []
    else
      var jvm := found[|found| - 1];
      Considered(found[..|found| - 1], now) + [AttachRuns.Sight(jvm, now)] + [AttachRuns.Decide(jvm.key, now)]
  }

  lemma ConsideredIsRun(w: AttachRuns.World, events: seq<AttachRuns.Event>, v: AttachRuns.World,
                        jvm: Jvm, now: int, cfg: Config)
    requires AttachRuns.IsRun(w, events, v, cfg)
    ensures var u := AttachRuns.Step(v, AttachRuns.Sight(jvm, now), cfg);
            && jvm.key in u.entries
            && AttachRuns.IsRun(w, events + [AttachRuns.Sight(jvm, now)] + [AttachRuns.Decide(jvm.key, now)],
                                AttachRuns.Step(u, AttachRuns.Decide(jvm.key, now), cfg), cfg)
  {
    var u := AttachRuns.Step(v, AttachRuns.Sight(jvm, now), cfg);
    AttachRuns.OneMore(w, events, v, AttachRuns.Sight(jvm, now), cfg);
    AttachRuns.OneMore(w, events + [AttachRuns.Sight(jvm, now)], u, AttachRuns.Decide(jvm.key, now), cfg);
  }

  lemma OneMoreSpawned(calls: seq<AttachRuns.Call>, keys: seq<Key>, key: Key)
    ensures calls + Spawned(keys + [key]) == calls + Spawned(keys) + [AttachRuns.Call(key, true, AttachRuns.Called)]
  {
    assert Spawned(keys + [key]) == Spawned(keys) + [AttachRuns.Call(key, true, AttachRuns.Called)];
  }

  /** The entries after an undisturbed attempt. */
  function AfterAttach(entries: map<Key, Entry>, inflight: set<Key>, key: Key, outcome: Outcome, now: int, cfg: Config)
    : map<Key, Entry>
  {
    if key in inflight || key !in entries then entries
    else entries[key := Record(Mark(entries[key]), entries[key].attempts + 1, outcome, now, cfg)]
  }

  /** An undisturbed attempt is a run: the steps its call takes, one after the other. */
  lemma AttachIsRun(w: AttachRuns.World, i: nat, outcome: Outcome, now: int, cfg: Config)
    returns (events: seq<AttachRuns.Event>, v: AttachRuns.World)
    requires i < |w.calls| && w.calls[i].phase.Called?
    ensures AttachRuns.IsRun(w, events, v, cfg) && v.calls == AttachRuns.At(w, i, AttachRuns.Returned)
    ensures v.inflight == w.inflight
    ensures v.entries == AfterAttach(w.entries, w.inflight, w.calls[i].key, outcome, now, cfg)
  {
    var key := w.calls[i].key;
    var w1 := AttachRuns.Step(w, AttachRuns.Acquire(i), cfg);
    if key in w.inflight {
      events, v := [AttachRuns.Acquire(i)] + [], w1;
      AttachRuns.RunsOn(w, AttachRuns.Acquire(i), [], v, cfg);
    } else {
      var w2 := AttachRuns.Step(w1, AttachRuns.MarkAttaching(i), cfg);
      var rest;
      rest, v := AfterMark(w2, i, outcome, now, cfg);
      AttachRuns.RunsOn(w1, AttachRuns.MarkAttaching(i), rest, v, cfg);
      AttachRuns.RunsOn(w, AttachRuns.Acquire(i), [AttachRuns.MarkAttaching(i)] + rest, v, cfg);
      events := [AttachRuns.Acquire(i)] + ([AttachRuns.MarkAttaching(i)] + rest);
    }
  }

  lemma AfterMark(w: AttachRuns.World, i: nat, outcome: Outcome, now: int, cfg: Config)
    returns (events: seq<AttachRuns.Event>, v: AttachRuns.World)
    requires i < |w.calls| && (w.calls[i].phase.Leaving? || w.calls[i].phase.Injecting?)
    requires w.calls[i].phase.Injecting? ==> w.calls[i].key in w.entries
    ensures AttachRuns.IsRun(w, events, v, cfg) && v.calls == AttachRuns.At(w, i, AttachRuns.Returned)
    ensures v.inflight == w.inflight - {w.calls[i].key}
    ensures v.entries == if w.calls[i].phase.Leaving? then w.entries
                         else w.entries[w.calls[i].key := Record(w.entries[w.calls[i].key], w.calls[i].phase.attempt,
                                                                 outcome, now, cfg)]
  {
    var u := if w.calls[i].phase.Leaving? then w else AttachRuns.Step(w, AttachRuns.RecordOutcome(i, outcome, now), cfg);
    v := AttachRuns.Step(u, AttachRuns.Release(i), cfg);
    events := [AttachRuns.Release(i)] + [];
    AttachRuns.RunsOn(u, AttachRuns.Release(i), [], v, cfg);
    if w.calls[i].phase.Injecting? {
      AttachRuns.RunsOn(w, AttachRuns.RecordOutcome(i, outcome, now), events, v, cfg);
      events := [AttachRuns.RecordOutcome(i, outcome, now)] + events;
    }
  }

  /** The calls a reconcile pass has started, none of which has done anything yet. */
  ghost function Spawned(keys: seq<Key>): (calls: seq<AttachRuns.Call>)
    ensures |calls| == |keys|
  {
    seq(|keys|, i requires 0 <= i < |keys| => AttachRuns.Call(keys[i], true, AttachRuns.Called))
  }

  /** Folds a successful injection into the entry, keeping the warnings that say something. */
  method ApplyResult(e: Entry, endpoint: string, texts: seq<string>, already: bool, now: int) returns (r: Entry)
    ensures forall attempt, cfg :: r == Record(e, attempt, Success(endpoint, texts, already), now, cfg)
  {
    r := e.(status := Attached, attachedAt := Some(now), reason := NoReason, nextAttempt := None,
            endpoint := endpoint, warnings := []);
    for i := 0 to |texts|
      invariant r == e.(status := Attached, attachedAt := Some(now), reason := NoReason, nextAttempt := None,
                        endpoint := endpoint, warnings := NonEmpty(texts[..i]))
    {
      assert texts[..i + 1][..i] == texts[..i];
      if texts[i] != "" {
        r := r.(warnings := r.warnings + [FromInjector(texts[i])]);
      }
    }
    assert texts[..|texts|] == texts;
    if already {
      r := r.(warnings := r.warnings + [NothingInjected]);
    }
  }
}
