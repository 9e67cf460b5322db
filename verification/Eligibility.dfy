/** Whom the reconcile loop injects into and whom it leaves alone (internal/inventory/manager.go). */
module Eligibility {

  import opened Lifecycle
  import opened AttachRuns
  import opened RetryBudget
  import opened Wrappers

  // ---- Who is attached to -----------------------------------------------------------------

  /** A JVM seen for the first time, or still settling, is attached to at once exactly when automatic
      attaching is on, the filter accepts it, an agent can be loaded, it has been up for long enough, and
      no operator has kept it back. */
  lemma AttachedAtSightIff(w: World, jvm: Jvm, now: int, cfg: Config)
    requires jvm.key in w.entries ==> w.entries[jvm.key].status == Pending
    ensures var v := Step(Step(w, Sight(jvm, now), cfg), Decide(jvm.key, now), cfg);
            v.calls == if && cfg.autoAttach && jvm.accepted && jvm.attachable
                          && (jvm.key.start.Some? ==> now >= jvm.key.start.value + cfg.minUptime)
                          && (jvm.key in w.entries ==> !w.entries[jvm.key].manualOnly)
                       then w.calls + [Call(jvm.key, true, Called)] else w.calls
  {
  }

  /** How a JVM seen for the first time, or still settling, is shown: skipped if excluded or if no agent can be
      loaded, attached since its start if it was started with the agent, pending while it is too young. */
  lemma ShownAtSight(w: World, jvm: Jvm, now: int, cfg: Config)
    requires jvm.key in w.entries ==> w.entries[jvm.key].status == Pending
    ensures var e := Step(w, Sight(jvm, now), cfg).entries[jvm.key];
            var young := jvm.key.start.Some? && now < jvm.key.start.value + cfg.minUptime;
            && (e.status == Skipped <==> !jvm.accepted || (!jvm.attachable && !jvm.instrumentedByUs))
            && (e.status == Attached <==> jvm.accepted && !jvm.attachable && jvm.instrumentedByUs)
            && (e.status == Attached ==> e.attachedAt == jvm.key.start)
            && (e.status == Pending <==> jvm.accepted && jvm.attachable && young)
            && (e.status == Discovered <==> jvm.accepted && jvm.attachable && !young)
            && (jvm.accepted && jvm.attachable && jvm.alreadyInstrumented ==> OtherAgent in e.warnings)
  {
  }

  /** After a failure with attempts left, the loop tries again exactly when more than the backoff has passed
      since, and nobody has kept the process back. */
  lemma RetriedIff(w: World, i: nat, failed: int, now: int, cfg: Config)
    requires Enabled(w, RecordOutcome(i, Failure, failed)) && w.calls[i].key in w.entries
    requires w.calls[i].phase.attempt < cfg.maxRetries
    ensures var k := w.calls[i].key;
            var u := Step(w, RecordOutcome(i, Failure, failed), cfg);
            Step(u, Decide(k, now), cfg).calls ==
            if && cfg.autoAttach && !w.entries[k].manualOnly && w.entries[k].attempts < cfg.maxRetries
               && now > failed + cfg.retryBackoff
            then u.calls + [Call(k, true, Called)] else u.calls
  {
  }

  // ---- Who is left alone ------------------------------------------------------------------

  ghost predicate NoCalls(w: World, k: Key) {
    forall i :: 0 <= i < |w.calls| ==> w.calls[i].key != k
  }

  /** No attach of `k` has been started in between. */
  ghost predicate NoNewCalls(w: World, v: World, k: Key) {
    |w.calls| <= |v.calls| && forall i :: |w.calls| <= i < |v.calls| ==> v.calls[i].key != k
  }

  /** With automatic attaching off, only operators attach. */
  lemma {:induction false} AutoAttachOff(w: World, events: seq<Event>, v: World, cfg: Config)
    requires !cfg.autoAttach && IsRun(w, events, v, cfg) && forall c :: c in w.calls ==> !c.auto
    ensures forall c :: c in v.calls ==> !c.auto
    decreases |events|
  {
    if events != [] {
      AutoAttachOff(Step(w, events[0], cfg), events[1..], v, cfg);
    }
  }

  /** The sightings of `k` in a run all find it refused: by the filter, if `filtered`, or as one that no
      agent can be loaded into. */
  ghost predicate AlwaysRefused(events: seq<Event>, k: Key, filtered: bool) {
    forall e :: e in events && e.Sight? && e.jvm.key == k ==>
                  if filtered then !e.jvm.accepted else !e.jvm.accepted || !e.jvm.attachable
  }

  predicate Refused(e: Entry, filtered: bool) {
    || e.status == Exited
    || (e.status == Skipped && (e.reason == Filtered || (!filtered && e.reason == NotAttachable)))
    || (!filtered && e.status == Attached)
  }

  ghost predicate LeftAlone(w: World, k: Key, filtered: bool) {
    NoCalls(w, k) && AutosOf(w, k) == 0 && (k in w.entries ==> Refused(w.entries[k], filtered))
  }

  lemma StepLeavesAlone(w: World, e: Event, k: Key, filtered: bool, cfg: Config)
    requires Enabled(w, e) && LeftAlone(w, k, filtered) && e != ManualAttach(k) && AlwaysRefused([e], k, filtered)
    ensures LeftAlone(Step(w, e, cfg), k, filtered)
  {
    assert e in [e];
  }

  lemma {:induction false} RunLeavesAlone(w: World, events: seq<Event>, v: World, k: Key, filtered: bool, cfg: Config)
    requires IsRun(w, events, v, cfg) && LeftAlone(w, k, filtered)
    requires NoManualAttach(events, k) && AlwaysRefused(events, k, filtered)
    ensures LeftAlone(v, k, filtered)
    decreases |events|
  {
    if events != [] {
      assert events[0] in events && forall e :: e in events[1..] ==> e in events;
      StepLeavesAlone(w, events[0], k, filtered, cfg);
      RunLeavesAlone(Step(w, events[0], cfg), events[1..], v, k, filtered, cfg);
    }
  }

  /** A process the filter excludes is never attached to, however the run goes on, unless an operator asks
      for it; while it is tracked it is shown as skipped for that reason, or as gone. */
  lemma ExcludedIsLeftAlone(events: seq<Event>, v: World, k: Key, cfg: Config)
    requires IsRun(EMPTY, events, v, cfg) && NoManualAttach(events, k)
    requires forall e :: e in events && e.Sight? && e.jvm.key == k ==> !e.jvm.accepted
    ensures (forall c :: c in v.calls ==> c.key != k) && AutosOf(v, k) == 0
    ensures k in v.entries ==>
              v.entries[k].status == Exited || (v.entries[k].status == Skipped && v.entries[k].reason == Filtered)
  {
    RunLeavesAlone(EMPTY, events, v, k, true, cfg);
  }

  /** Nor is one that no agent can be loaded into. */
  lemma UnattachableIsLeftAlone(events: seq<Event>, v: World, k: Key, cfg: Config)
    requires IsRun(EMPTY, events, v, cfg) && NoManualAttach(events, k)
    requires forall e :: e in events && e.Sight? && e.jvm.key == k ==> !e.jvm.accepted || !e.jvm.attachable
    ensures (forall c :: c in v.calls ==> c.key != k) && AutosOf(v, k) == 0
    ensures k in v.entries ==> v.entries[k].status in {Exited, Skipped, Attached}
  {
    RunLeavesAlone(EMPTY, events, v, k, false, cfg);
  }

  /** An operator keeps `k` back throughout: no manual attach of it and no release. */
  ghost predicate KeptBack(events: seq<Event>, k: Key) {
    NoManualAttach(events, k) && forall e :: e in events ==> e != SetManual(k, false)
  }

  lemma StepStaysManual(w: World, e: Event, k: Key, cfg: Config)
    requires Enabled(w, e) && e != ManualAttach(k) && e != SetManual(k, false)
    requires k in w.entries && w.entries[k].manualOnly && k in Step(w, e, cfg).entries
    ensures Step(w, e, cfg).entries[k].manualOnly && NoNewCalls(w, Step(w, e, cfg), k)
  {
  }

  lemma CallsKeepKeys(w: World, e: Event, cfg: Config)
    requires Enabled(w, e)
    ensures |w.calls| <= |Step(w, e, cfg).calls|
    ensures forall i :: 0 <= i < |w.calls| ==> Step(w, e, cfg).calls[i].key == w.calls[i].key
  {
  }

  lemma {:induction false} RunKeepsKeys(w: World, events: seq<Event>, v: World, cfg: Config)
    requires IsRun(w, events, v, cfg)
    ensures |w.calls| <= |v.calls| && forall i :: 0 <= i < |w.calls| ==> v.calls[i].key == w.calls[i].key
    decreases |events|
  {
    if events != [] {
      CallsKeepKeys(w, events[0], cfg);
      RunKeepsKeys(Step(w, events[0], cfg), events[1..], v, cfg);
    }
  }

  lemma NoNewCallsJoin(w: World, u: World, v: World, events: seq<Event>, k: Key, cfg: Config)
    requires NoNewCalls(w, u, k) && NoNewCalls(u, v, k) && IsRun(u, events, v, cfg)
    ensures NoNewCalls(w, v, k)
  {
    RunKeepsKeys(u, events, v, cfg);
  }

  /** A process an operator has kept back is not attached to until released or asked for. */
  lemma {:induction false} ManualOnlyIsLeftAlone(w: World, events: seq<Event>, v: World, k: Key, cfg: Config)
    requires IsRun(w, events, v, cfg) && StaysTracked(w, events, k, cfg) && KeptBack(events, k)
    requires w.entries[k].manualOnly
    ensures k in v.entries && v.entries[k].manualOnly && NoNewCalls(w, v, k)
    decreases |events|
  {
    if events != [] {
      var u := Step(w, events[0], cfg);
      assert events[0] in events && forall e :: e in events[1..] ==> e in events;
      StepStaysManual(w, events[0], k, cfg);
      ManualOnlyIsLeftAlone(u, events[1..], v, k, cfg);
      NoNewCallsJoin(w, u, v, events[1..], k, cfg);
    }
  }

  /** Keeping back and releasing again changes nothing exactly if the process was not kept back before,
      and was not listed as discovered for some reason. */
  lemma ReleaseUndoesIff(w: World, k: Key, cfg: Config)
    requires k in w.entries
    ensures var e := w.entries[k];
            Step(Step(w, SetManual(k, true), cfg), SetManual(k, false), cfg) == w <==>
            !e.manualOnly && (e.status == Discovered ==> e.reason == NoReason)
            && !(e.status == Skipped && e.reason == ByOperator)
  {
    var u := Step(Step(w, SetManual(k, true), cfg), SetManual(k, false), cfg);
    assert u == w <==> u.entries[k] == w.entries[k] by {
      assert u.entries[k] == w.entries[k] ==> u.entries == w.entries;
    }
  }

  /** Attached, or gone for the manager. */
  predicate Over(e: Entry) { e.status == Attached || e.status == Exited }

  lemma StepStaysOver(w: World, e: Event, k: Key, cfg: Config)
    requires Enabled(w, e) && e != ManualAttach(k) && k in w.entries && k in Step(w, e, cfg).entries
    requires Over(w.entries[k]) && Idle(w, k)
    ensures Over(Step(w, e, cfg).entries[k]) && Idle(Step(w, e, cfg), k) && NoNewCalls(w, Step(w, e, cfg), k)
    ensures w.entries[k].status == Exited ==> Step(w, e, cfg).entries[k].status == Exited
  {
  }

  lemma {:induction false} OverStaysOver(w: World, events: seq<Event>, v: World, k: Key, cfg: Config)
    requires IsRun(w, events, v, cfg) && StaysTracked(w, events, k, cfg) && NoManualAttach(events, k)
    requires Over(w.entries[k]) && Idle(w, k)
    ensures k in v.entries && Over(v.entries[k]) && NoNewCalls(w, v, k)
    ensures w.entries[k].status == Exited ==> v.entries[k].status == Exited
    decreases |events|
  {
    if events != [] {
      var u := Step(w, events[0], cfg);
      assert events[0] in events && forall e :: e in events[1..] ==> e in events;
      StepStaysOver(w, events[0], k, cfg);
      OverStaysOver(u, events[1..], v, k, cfg);
      NoNewCallsJoin(w, u, v, events[1..], k, cfg);
    }
  }

  /** After a success the process is not attached to again, in any continuation in which it stays tracked
      and no operator asks for it, if no other call for it was waiting. */
  lemma SuccessIsFinal(before: seq<Event>, w: World, i: nat, outcome: Outcome, now: int, after: seq<Event>, v: World,
                       cfg: Config)
    requires IsRun(EMPTY, before, w, cfg) && outcome.Success? && Enabled(w, RecordOutcome(i, outcome, now))
    requires var k, u := w.calls[i].key, Step(w, RecordOutcome(i, outcome, now), cfg);
             && k in w.entries && (forall j :: 0 <= j < |w.calls| && w.calls[j].key == k ==> !w.calls[j].phase.Called?)
             && IsRun(u, after, v, cfg) && StaysTracked(u, after, k, cfg) && NoManualAttach(after, k)
    ensures var k := w.calls[i].key;
            k in v.entries && v.entries[k].status in {Attached, Exited} && NoNewCalls(w, v, k)
  {
    var k, u := w.calls[i].key, Step(w, RecordOutcome(i, outcome, now), cfg);
    RunKeepsLocked(EMPTY, before, w, cfg);
    forall j | 0 <= j < |u.calls| && u.calls[j].key == k ensures !Active(u.calls[j]) {
      assert HoldersApart(w, i, j) && HoldersApart(w, j, i);
    }
    OverStaysOver(u, after, v, k, cfg);
    NoNewCallsJoin(w, u, v, after, k, cfg);
  }

  /** Until the backoff is over: no decision on `k` later than `until`. */
  ghost predicate NotAfter(events: seq<Event>, k: Key, until: int) {
    forall e :: e in events && e.Decide? && e.key == k ==> e.now <= until
  }

  predicate BackingOff(e: Entry, until: int) {
    e.status == Exited || (e.status == Failed && (e.nextAttempt == Some(until) || e.nextAttempt.None?))
  }

  lemma StepBacksOff(w: World, e: Event, k: Key, until: int, cfg: Config)
    requires Enabled(w, e) && e != ManualAttach(k) && NotAfter([e], k, until)
    requires k in w.entries && k in Step(w, e, cfg).entries
    requires BackingOff(w.entries[k], until) && Idle(w, k)
    ensures BackingOff(Step(w, e, cfg).entries[k], until) && Idle(Step(w, e, cfg), k)
    ensures NoNewCalls(w, Step(w, e, cfg), k)
  {
    assert e in [e];
  }

  /** Between a failure and its retry time nothing is attempted. */
  lemma {:induction false} BackoffIsKept(w: World, events: seq<Event>, v: World, k: Key, until: int, cfg: Config)
    requires IsRun(w, events, v, cfg) && StaysTracked(w, events, k, cfg) && NoManualAttach(events, k)
    requires NotAfter(events, k, until) && BackingOff(w.entries[k], until) && Idle(w, k)
    ensures NoNewCalls(w, v, k)
    decreases |events|
  {
    if events != [] {
      var u := Step(w, events[0], cfg);
      assert events[0] in events && forall e :: e in events[1..] ==> e in events;
      StepBacksOff(w, events[0], k, until, cfg);
      BackoffIsKept(u, events[1..], v, k, until, cfg);
      NoNewCallsJoin(w, u, v, events[1..], k, cfg);
    }
  }

  /** A manual attach starts the retry budget over: if that attempt fails it counts as the first, and the loop
      takes over from it after the backoff exactly if automatic attaching is on and more than one attempt is
      allowed, whatever failed or was kept back before. */
  lemma ManualAttachStartsOver(w: World, k: Key, failed: int, now: int, cfg: Config)
    requires k in w.entries && k !in w.inflight
    ensures var i := |w.calls|;
            var asked := Step(w, ManualAttach(k), cfg);
            && Enabled(asked, Acquire(i))
            && var held := Step(asked, Acquire(i), cfg);
               && Enabled(held, MarkAttaching(i))
               && var marked := Step(held, MarkAttaching(i), cfg);
                  && Enabled(marked, RecordOutcome(i, Failure, failed))
                  && var done := Step(marked, RecordOutcome(i, Failure, failed), cfg);
                     && done.entries[k].attempts == 1 && AutosOf(done, k) == 0
                     && (Step(done, Decide(k, now), cfg).calls != done.calls <==>
                         cfg.autoAttach && cfg.maxRetries > 1 && now > failed + cfg.retryBackoff)
  {
  }

  // ---- Processes that come and go ---------------------------------------------------------

  /** A process two scans in a row miss is forgotten by the second exactly when more than ten minutes lie
      between them. */
  lemma ForgottenIff(w: World, k: Key, first: set<Key>, gone: int, second: set<Key>, now: int, cfg: Config)
    requires k in w.entries && w.entries[k].status != Exited && k !in first && k !in second
    ensures var u := Step(w, ReapMissing(first, gone), cfg);
            && k in u.entries && u.entries[k].status == Exited
            && u.entries[k].exitedAt == Some(gone) && u.entries[k].nextAttempt.None?
            && (k in Step(u, ReapMissing(second, now), cfg).entries <==> now <= gone + 10 * 60 * 1_000_000_000)
  {
  }

  /** Reaping touches nothing that was seen. */
  lemma SeenIsKept(w: World, k: Key, seen: set<Key>, now: int, cfg: Config)
    requires k in seen
    ensures var v := Step(w, ReapMissing(seen, now), cfg);
            (k in v.entries <==> k in w.entries) && (k in w.entries ==> v.entries[k] == w.entries[k])
  {
  }

  /** Every scan of the run sees `k`, or is not more than ten minutes after it was gone. */
  ghost predicate SeenInTime(events: seq<Event>, k: Key, gone: int) {
    forall e :: e in events && e.ReapMissing? ==> k in e.seen || e.now <= gone + 10 * 60 * 1_000_000_000
  }

  ghost predicate GoneSince(w: World, k: Key, gone: int) {
    k in w.entries && w.entries[k].status == Exited && w.entries[k].exitedAt == Some(gone) && Idle(w, k)
  }

  lemma StepStaysGone(w: World, e: Event, k: Key, gone: int, cfg: Config)
    requires Enabled(w, e) && e != ManualAttach(k) && GoneSince(w, k, gone)
    ensures k in Step(w, e, cfg).entries <==> SeenInTime([e], k, gone)
    ensures k in Step(w, e, cfg).entries ==> GoneSince(Step(w, e, cfg), k, gone)
  {
    assert forall f :: f in [e] <==> f == e;
    if k in Step(w, e, cfg).entries {
      StepStaysOver(w, e, k, cfg);
    }
  }

  lemma {:induction false} TrackedIffSeenInTime(w: World, events: seq<Event>, v: World, k: Key, gone: int, cfg: Config)
    requires IsRun(w, events, v, cfg) && NoManualAttach(events, k) && GoneSince(w, k, gone)
    ensures StaysTracked(w, events, k, cfg) <==> SeenInTime(events, k, gone)
    decreases |events|
  {
    if events != [] {
      var e, rest := events[0], events[1..];
      assert e in events && forall f :: f in events <==> f == e || f in rest;
      assert SeenInTime(events, k, gone) <==> SeenInTime([e], k, gone) && SeenInTime(rest, k, gone) by {
        assert forall f :: f in [e] <==> f == e;
      }
      StepStaysGone(w, e, k, gone, cfg);
      if k in Step(w, e, cfg).entries {
        TrackedIffSeenInTime(Step(w, e, cfg), rest, v, k, gone, cfg);
      } else {
        assert !StaysTracked(Step(w, e, cfg), rest, k, cfg);
      }
    }
  }

  /** A process that one scan misses is looked at afresh only after it stays away: without a manual attach its
      entry is forgotten at some point of a run if and only if some scan more than ten minutes later misses
      it too, and until then it is shown as exited and not attached to, however often it is seen. */
  lemma MissedOnceStaysExited(w: World, seen: set<Key>, gone: int, events: seq<Event>, v: World, k: Key, cfg: Config)
    requires k in w.entries && w.entries[k].status != Exited && k !in seen && Idle(w, k)
    requires IsRun(Step(w, ReapMissing(seen, gone), cfg), events, v, cfg) && NoManualAttach(events, k)
    ensures StaysTracked(Step(w, ReapMissing(seen, gone), cfg), events, k, cfg) <==> SeenInTime(events, k, gone)
    ensures SeenInTime(events, k, gone) ==>
              k in v.entries && v.entries[k].status == Exited && NoNewCalls(w, v, k)
  {
    var u := Step(w, ReapMissing(seen, gone), cfg);
    TrackedIffSeenInTime(u, events, v, k, gone, cfg);
    if SeenInTime(events, k, gone) {
      OverStaysOver(u, events, v, k, cfg);
    }
  }

  /** A sighting refreshes what is known of its JVM, keeps when it was first seen and how often it was
      attempted, and touches no other entry. */
  lemma SightingRefreshes(w: World, jvm: Jvm, now: int, cfg: Config)
    ensures var v, k := Step(w, Sight(jvm, now), cfg), jvm.key;
            && v.entries.Keys == w.entries.Keys + {k} && v.entries[k].jvm == jvm && v.entries[k].lastSeen == now
            && (forall l :: l in w.entries && l != k ==> v.entries[l] == w.entries[l])
            && (k in w.entries ==> && v.entries[k].firstSeen == w.entries[k].firstSeen
                                   && v.entries[k].attempts == w.entries[k].attempts
                                   && v.entries[k].manualOnly == w.entries[k].manualOnly)
            && (k !in w.entries ==> v.entries[k].firstSeen == now && v.entries[k].attempts == 0 && !v.entries[k].manualOnly)
  {
  }

  // ---- Settling ---------------------------------------------------------------------------

  function Sightings(jvm: Jvm, times: seq<int>): (events: seq<Event>)
    ensures |events| == |times|
  {
    seq(|times|, i requires 0 <= i < |times| => Sight(jvm, times[i]))
  }

  /** While a JVM with another agent settles, every sighting adds the same warning once more. */
  lemma {:induction false} SettlingRepeatsWarning(w: World, jvm: Jvm, times: seq<int>, v: World, cfg: Config)
    requires jvm.accepted && jvm.attachable && jvm.alreadyInstrumented && jvm.key.start.Some? && times != []
    requires forall t :: t in times ==> t < jvm.key.start.value + cfg.minUptime
    requires jvm.key !in w.entries || w.entries[jvm.key].status == Pending
    requires IsRun(w, Sightings(jvm, times), v, cfg)
    ensures jvm.key in v.entries && v.entries[jvm.key].status == Pending
    ensures |v.entries[jvm.key].warnings| ==
            (if jvm.key in w.entries then |w.entries[jvm.key].warnings| else 0) + |times|
    ensures OtherAgent in v.entries[jvm.key].warnings
    decreases |times|
  {
    var u := Step(w, Sight(jvm, times[0]), cfg);
    assert times[0] in times;
    var events := Sightings(jvm, times);
    assert events[0] == Sight(jvm, times[0]) && events[1..] == Sightings(jvm, times[1..]);
    assert OtherAgent in u.entries[jvm.key].warnings;
    if |times| > 1 {
      assert forall t :: t in times[1..] ==> t in times;
      SettlingRepeatsWarning(u, jvm, times[1..], v, cfg);
    } else {
      assert events[1..] == [];
    }
  }

  // ---- What a success records -------------------------------------------------------------

  /** The warnings kept of an injection are the texts that say something. */
  lemma {:induction false} WarningsKept(texts: seq<string>, text: string)
    ensures FromInjector(text) in NonEmpty(texts) <==> text != "" && text in texts
    ensures forall w :: w in NonEmpty(texts) ==> w.FromInjector?
  {
    if texts != [] {
      assert texts == texts[..|texts| - 1] + [texts[|texts| - 1]];
      WarningsKept(texts[..|texts| - 1], text);
    }
  }

  /** They keep their order. */
  lemma {:induction false} WarningsInOrder(texts: seq<string>, more: seq<string>)
    ensures NonEmpty(texts + more) == NonEmpty(texts) + NonEmpty(more)
  {
    if more == [] {
      assert texts + more == texts;
    } else {
      assert (texts + more)[..|texts + more| - 1] == texts + more[..|more| - 1];
      WarningsInOrder(texts, more[..|more| - 1]);
    }
  }

  /** After a success the entry shows the agent's endpoint, when it was attached and no reason or retry; the
      warnings of earlier sightings are gone, and one is added where nothing was injected. */
  lemma SuccessShows(w: World, i: nat, endpoint: string, texts: seq<string>, already: bool, now: int, cfg: Config)
    requires Enabled(w, RecordOutcome(i, Success(endpoint, texts, already), now)) && w.calls[i].key in w.entries
    ensures var k, old_ := w.calls[i].key, w.entries[w.calls[i].key];
            var e := Step(w, RecordOutcome(i, Success(endpoint, texts, already), now), cfg).entries[k];
            && e.status == Attached && e.attachedAt == Some(now) && e.endpoint == endpoint
            && e.reason == NoReason && e.nextAttempt.None? && e.attempts == old_.attempts
            && (NothingInjected in e.warnings <==> already) && OtherAgent !in e.warnings
            && forall t :: FromInjector(t) in e.warnings <==> t != "" && t in texts
  {
    WarningsKept(texts, "");
    forall t ensures FromInjector(t) in NonEmpty(texts) <==> t != "" && t in texts {
      WarningsKept(texts, t);
    }
  }
}
