/** The eBPF supervisor: internal/ebpf/supervisor.go.

    `SetTargets` and the steps of `Run` interleave freely.  Whatever the operating system and the
    OBI process do (a start that fails, an exit) is a step that may come whenever it can.
  */
module Supervision {

  import opened Sorting
  import opened Targets

  /** Where `Run` is, with the targets it has taken and the configuration OBI was started on. */
  datatype Phase =
    | Deciding
    | Waiting
    | Starting(targets: seq<Target>)
    | Running(targets: seq<Target>, config: seq<Rule>)
    | BackingOff
    | Stopped

  /** `targets` and `changed` are the supervisor's; `offered` is the last set anyone passed to it. */
  datatype State = State(targets: seq<Target>, changed: bool, phase: Phase, offered: seq<Target>)

  datatype Event =
    | SetTargets(ts: seq<Target>)
    | Snapshot
    | Started(rules: seq<Rule>)
    | StartFailed
    | ReceiveChanged
    | Exited
    | BackoffOver
    | Cancelled

  const INITIAL := State([], false, Deciding, [])

  /** What the renderer may produce: the rules in the order of names. */
  ghost predicate IsRendering(ts: seq<Target>, rules: seq<Rule>) {
    Sorted(RuleBefore, rules) && multiset(rules) == multiset(RulesOf(ts))
  }

  ghost predicate Enabled(s: State, e: Event) {
    match e
    case SetTargets(_) => true
    case Snapshot => s.phase.Deciding?
    case Started(rules) => s.phase.Starting? && IsRendering(s.phase.targets, rules)
    case StartFailed => s.phase.Starting?
    case ReceiveChanged => s.changed && (s.phase.Waiting? || s.phase.Running?)
    case Exited => s.phase.Running?
    case BackoffOver => s.phase.BackingOff?
    case Cancelled => true
  }

  ghost function Step(s: State, e: Event): State
    requires Enabled(s, e)
  {
    match e
    case SetTargets(ts) =>
      if SameTargets(s.targets, ts) then s.(offered := ts) else s.(targets := ts, changed := true, offered := ts)
    case Snapshot => s.(phase := if s.targets == [] then Waiting else Starting(s.targets))
    case Started(rules) => s.(phase := Running(s.phase.targets, rules))
    case StartFailed => s.(phase := BackingOff)
    case ReceiveChanged => s.(changed := false, phase := Deciding)
    case Exited => s.(phase := BackingOff)
    case BackoffOver => s.(phase := Deciding)
    case Cancelled => s.(phase := Stopped)
  }

  ghost predicate IsRun(s: State, events: seq<Event>, t: State)
    decreases |events|
  {
    if events == [] then s == t
    else Enabled(s, events[0]) && IsRun(Step(s, events[0]), events[1..], t)
  }

  lemma {:induction false} OneMore(s: State, events: seq<Event>, t: State, e: Event)
    requires IsRun(s, events, t) && Enabled(t, e)
    ensures IsRun(s, events + [e], Step(t, e))
    decreases |events|
  {
    if events == [] {
      assert [e][1..] == [] && events + [e] == [e];
    } else {
      assert (events + [e])[1..] == events[1..] + [e];
      OneMore(Step(s, events[0]), events[1..], t, e);
    }
  }

  /** Every set offered lists different targets; their names may repeat. */
  ghost predicate OffersDiffer(events: seq<Event>) {
    forall e :: e in events && e.SetTargets? ==> Different(e.ts)
  }

  /** Without a pending signal, what `Run` acts on is what the supervisor holds, and that has the rules of
      what was last offered. */
  ghost predicate Inv(s: State) {
    && Different(s.targets) && Different(s.offered)
    && multiset(RulesOf(s.targets)) == multiset(RulesOf(s.offered))
    && match s.phase
       case Waiting => s.changed || s.targets == []
       case Starting(ts) => ts != [] && (s.changed || ts == s.targets)
       case Running(ts, rules) => ts != [] && IsRendering(ts, rules) && (s.changed || ts == s.targets)
       case _ => true
  }

  lemma StepKeepsInv(s: State, e: Event)
    requires Inv(s) && Enabled(s, e) && (e.SetTargets? ==> Different(e.ts))
    ensures Inv(Step(s, e))
  {
    if e.SetTargets? && SameTargets(s.targets, e.ts) {
      SameTargetsSameRules(s.targets, e.ts);
    }
  }

  lemma {:induction false} RunKeepsInv(s: State, events: seq<Event>, t: State)
    requires Inv(s) && IsRun(s, events, t) && OffersDiffer(events)
    ensures Inv(t)
    decreases |events|
  {
    if events != [] {
      assert events[0] in events;
      StepKeepsInv(s, events[0]);
      RunKeepsInv(Step(s, events[0]), events[1..], t);
    }
  }

  /** In every interleaving: while OBI runs and no signal is pending, it runs on a rendering of the last
      set offered, the one configuration of that set if its names are different; while the supervisor
      waits without a signal, that set is empty. */
  lemma RunsOnLastOffer(events: seq<Event>, t: State)
    requires IsRun(INITIAL, events, t) && OffersDiffer(events) && !t.changed
    ensures t.phase.Running? ==> t.offered != [] && IsRendering(t.offered, t.phase.config)
    ensures t.phase.Running? && DistinctNames(t.offered) ==> t.phase.config == Config(t.offered)
    ensures t.phase.Waiting? ==> t.offered == []
  {
    RunKeepsInv(INITIAL, events, t);
    if t.phase.Running? && DistinctNames(t.offered) {
      ConfigIsUnique(t.offered, t.phase.config);
    }
    SameElements(RulesOf(t.targets), RulesOf(t.offered));
  }

  /** An offer of different targets is signalled exactly when it is not the held set over again, in
      whatever order. */
  lemma SignalledIffDifferent(s: State, ts: seq<Target>)
    requires Distinct(Keys(ts))
    ensures var t := Step(s, SetTargets(ts));
            if multiset(Keys(ts)) == multiset(Keys(s.targets)) then t == s.(offered := ts)
            else t.changed && t.targets == ts
  {
    ExactWithoutDuplicates(s.targets, ts);
  }

  /** A set offered with a duplicate goes unnoticed by a supervisor that holds any other target in that
      place, and OBI keeps watching a process that left. */
  lemma DuplicateOfferGoesUnnoticed(s: State, ts: seq<Target>, i: nat, j: nat, other: Target)
    requires i < |ts| && j < |ts| && i != j && TargetKey(ts[i]) == TargetKey(ts[j])
    requires s.targets == ts[j := other] && RuleOf(other) != RuleOf(ts[j])
    ensures Ignored(s, ts) && Config(s.targets) != Config(ts)
  {
    SameTargetsMissesDuplicates(ts, i, j, other);
    var mine, theirs := RulesOf(s.targets), RulesOf(ts);
    assert mine == theirs[j := RuleOf(other)];
    assert multiset(mine)[RuleOf(other)] == multiset(theirs)[RuleOf(other)] + 1;
  }

  ghost predicate Ignored(s: State, ts: seq<Target>) {
    Step(s, Event.SetTargets(ts)) == s.(offered := ts)
  }

  /** Every supervisor that ignores an offer holds that very set, in some order, if and only if the offer
      has no duplicates. */
  lemma IgnoredOnlyIfHeldIffDistinct(ts: seq<Target>)
    ensures Distinct(Keys(ts)) <==> forall s :: Ignored(s, ts) ==> multiset(Keys(s.targets)) == multiset(Keys(ts))
  {
    if Distinct(Keys(ts)) {
      forall s | Ignored(s, ts) ensures multiset(Keys(s.targets)) == multiset(Keys(ts)) {
        ExactWithoutDuplicates(s.targets, ts);
      }
    } else {
      var i, j :| 0 <= i < j < |ts| && Keys(ts)[i] == Keys(ts)[j];
      var other := FreshTarget(ts);
      var s := INITIAL.(targets := ts[j := other]);
      SameTargetsMissesDuplicates(ts, i, j, other);
      OtherKeys(ts, j, other);
      assert Ignored(s, ts);
    }
  }

  // ---- The loop ---------------------------------------------------------------------------

  /** What comes next: someone offers a set, `Run` gets to act, OBI exits, or the context is cancelled.
      `ok` says whether a start succeeds. */
  datatype Happening = Offer(ts: seq<Target>) | Act(ok: bool) | Exit | Cancel

  /** What it makes of that.  Where the loop blocks on the channel, acting is receiving; with no signal
      pending it stays blocked. */
  ghost predicate Reacts(s: State, h: Happening, t: State) {
    match h
    case Offer(ts) => t == Step(s, Event.SetTargets(ts))
    case Cancel => t == Step(s, Cancelled)
    case Exit => t == if s.phase.Running? then Step(s, Exited) else s
    case Act(ok) =>
      match s.phase
      case Deciding => t == Step(s, Event.Snapshot)
      case Starting(_) =>
        if !ok then t == Step(s, StartFailed)
        else t.phase.Running? && Enabled(s, Started(t.phase.config)) && t == Step(s, Started(t.phase.config))
      case BackingOff => t == Step(s, BackoffOver)
      case Stopped => t == s
      case _ => t == if s.changed then Step(s, ReceiveChanged) else s
  }

  ghost predicate Follows(s: State, hs: seq<Happening>, t: State) {
    if hs == [] then s == t
    else
      var front, last := hs[..|hs| - 1], hs[|hs| - 1];
      exists m :: Follows(s, front, m) && Reacts(m, last, t)
  }

  ghost predicate HappeningsDiffer(hs: seq<Happening>) {
    forall h :: h in hs && h.Offer? ==> Different(h.ts)
  }

  /** Every reaction is a step, or none. */
  lemma ReactionIsStep(s: State, h: Happening, t: State) returns (e: Event)
    requires Reacts(s, h, t)
    ensures t == s || (Enabled(s, e) && t == Step(s, e))
    ensures e.SetTargets? ==> h == Offer(e.ts)
  {
    match h
    case Offer(ts) => e := Event.SetTargets(ts);
    case Cancel => e := Cancelled;
    case Exit => e := Exited;
    case Act(ok) =>
      match s.phase
      case Deciding => e := Event.Snapshot;
      case Starting(_) => e := if ok then Started(t.phase.config) else StartFailed;
      case BackingOff => e := BackoffOver;
      case _ => e := ReceiveChanged;
  }

  lemma {:induction false} FollowsIsRun(s: State, hs: seq<Happening>, t: State) returns (events: seq<Event>)
    requires Follows(s, hs, t) && HappeningsDiffer(hs)
    ensures IsRun(s, events, t) && OffersDiffer(events)
  {
    events := [];
    if hs != [] {
      var front, last := hs[..|hs| - 1], hs[|hs| - 1];
      assert last in hs;
      var m :| Follows(s, front, m) && Reacts(m, last, t);
      events := FollowsIsRun(s, front, m);
      var e := ReactionIsStep(m, last, t);
      if t != m {
        OneMore(s, events, m, e);
        events := events + [e];
      }
    }
  }

  /** So whatever happens around the loop, OBI runs on the last offer once the signal is taken. */
  lemma LoopRunsOnLastOffer(hs: seq<Happening>, t: State)
    requires Follows(INITIAL, hs, t) && HappeningsDiffer(hs) && !t.changed
    ensures t.phase.Running? ==> t.offered != [] && IsRendering(t.offered, t.phase.config)
    ensures t.phase.Running? && DistinctNames(t.offered) ==> t.phase.config == Config(t.offered)
    ensures t.phase.Waiting? ==> t.offered == []
  {
    var events := FollowsIsRun(INITIAL, hs, t);
    RunsOnLastOffer(events, t);
  }

  // ---- Progress ---------------------------------------------------------------------------

  /** The supervisor stops when it is cancelled, for good, and for no other reason: neither a start that
      fails nor an exit ends it. */
  lemma {:induction false} StoppedIffCancelled(s: State, events: seq<Event>, t: State)
    requires IsRun(s, events, t)
    ensures t.phase.Stopped? <==> s.phase.Stopped? || Cancelled in events
    decreases |events|
  {
    if events != [] {
      StoppedIffCancelled(Step(s, events[0]), events[1..], t);
    }
  }

  lemma OnlyCancelStops(s: State, h: Happening, t: State)
    requires Reacts(s, h, t)
    ensures t.phase.Stopped? <==> s.phase.Stopped? || h == Cancel
  {
  }

  lemma {:induction false} LoopStopsIffCancelled(s: State, hs: seq<Happening>, t: State)
    requires Follows(s, hs, t)
    ensures t.phase.Stopped? <==> s.phase.Stopped? || Cancel in hs
  {
    if hs != [] {
      var front, last := hs[..|hs| - 1], hs[|hs| - 1];
      assert hs == front + [last];
      var m :| Follows(s, front, m) && Reacts(m, last, t);
      LoopStopsIffCancelled(s, front, m);
      OnlyCancelStops(m, last, t);
    }
  }

  function Acts(n: nat): (hs: seq<Happening>)
    ensures |hs| == n
  {
    seq(n, _ => Act(true))
  }

  /** How many undisturbed moves the loop is away from having nothing to do. */
  function Distance(s: State): nat {
    var signal := if s.changed then 3 else 0;
    match s.phase
    case BackingOff => 3 + signal
    case Deciding => 2 + signal
    case Starting(_) => 1 + signal
    case _ => signal
  }

  ghost predicate Settled(s: State) { !s.changed && (s.phase.Waiting? || s.phase.Running?) }

  lemma ActKeepsInv(s: State, t: State)
    requires Inv(s) && Reacts(s, Act(true), t)
    ensures Inv(t)
  {
    var e := ReactionIsStep(s, Act(true), t);
    if t != s {
      StepKeepsInv(s, e);
    }
  }

  lemma ActGetsCloser(s: State, t: State)
    requires !s.phase.Stopped? && Reacts(s, Act(true), t)
    ensures !t.phase.Stopped? && t.offered == s.offered
    ensures if Settled(s) then t == s else Distance(t) < Distance(s)
  {
  }

  lemma {:induction false} ActsSettle(s: State, n: nat, t: State)
    requires Inv(s) && !s.phase.Stopped? && Follows(s, Acts(n), t)
    ensures Inv(t) && !t.phase.Stopped? && t.offered == s.offered
    ensures Settled(t) || Distance(t) + n <= Distance(s)
    decreases n
  {
    if n > 0 {
      assert Acts(n)[..n - 1] == Acts(n - 1) && Acts(n)[n - 1] == Act(true);
      var m :| Follows(s, Acts(n - 1), m) && Reacts(m, Act(true), t);
      ActsSettle(s, n - 1, m);
      ActKeepsInv(m, t);
      ActGetsCloser(m, t);
    }
  }

  lemma SomeReaction(s: State) returns (t: State)
    requires s.phase.Starting? ==> exists rules :: IsRendering(s.phase.targets, rules)
    ensures Reacts(s, Act(true), t)
  {
    match s.phase
    case Deciding => t := Step(s, Event.Snapshot);
    case Starting(ts) =>
      var rules :| IsRendering(ts, rules);
      t := Step(s, Started(rules));
    case BackingOff => t := Step(s, BackoffOver);
    case Stopped => t := s;
    case _ => t := if s.changed then Step(s, ReceiveChanged) else s;
  }

  /** The loop never gets stuck on the way. */
  lemma {:induction false} ActsGoOn(s: State, n: nat) returns (t: State)
    ensures Follows(s, Acts(n), t)
    decreases n
  {
    t := s;
    if n > 0 {
      var m := ActsGoOn(s, n - 1);
      if m.phase.Starting? {
        BeforeIsWeak();
        StableSortSorts(RuleBefore, RulesOf(m.phase.targets));
        assert IsRendering(m.phase.targets, Config(m.phase.targets));
      }
      t := SomeReaction(m);
      assert Acts(n)[..n - 1] == Acts(n - 1) && Acts(n)[n - 1] == Act(true);
    }
  }

  /** Whatever has happened, exits, failed starts and offers at any moment: unless cancelled, after at most
      six further moves that succeed OBI runs on a rendering of the last set offered, or the loop waits if
      that set is empty, and there it stays. */
  lemma SettlesOnLastOffer(hs: seq<Happening>, s: State, n: nat, t: State)
    requires Follows(INITIAL, hs, s) && HappeningsDiffer(hs) && Cancel !in hs
    requires n >= 6 && Follows(s, Acts(n), t)
    ensures !t.changed && t.offered == s.offered
    ensures if s.offered == [] then t.phase.Waiting?
            else t.phase.Running? && IsRendering(s.offered, t.phase.config)
    ensures s.offered != [] && DistinctNames(s.offered) ==> t.phase.config == Config(s.offered)
  {
    LoopStopsIffCancelled(INITIAL, hs, s);
    var events := FollowsIsRun(INITIAL, hs, s);
    RunKeepsInv(INITIAL, events, s);
    ActsSettle(s, n, t);
    SameElements(RulesOf(t.targets), RulesOf(t.offered));
    if t.phase.Running? && DistinctNames(t.offered) {
      ConfigIsUnique(t.offered, t.phase.config);
    }
  }

  /** The part of the supervisor the mutex guards. */
  class Supervisor {
    var targets: seq<Target>
    var changed: bool
    ghost var offered: seq<Target>

    ghost function View(phase: Phase): State
      reads this
    {
      State(targets, changed, phase, offered)
    }

    constructor ()
      ensures View(Deciding) == INITIAL
    {
      targets, changed, offered := [], false, [];
    }

    method SetTargets(ts: seq<Target>)
      modifies this
      ensures forall phase :: View(phase) == Step(old(View(phase)), Event.SetTargets(ts))
    {
      offered := ts;
      var same := CompareTargets(targets, ts);
      if same {
        return;
      }
      targets := ts;
      if !changed {
        changed := true;
      }
    }

    method Snapshot() returns (ts: seq<Target>)
      ensures Step(View(Deciding), Event.Snapshot).phase == if ts == [] then Waiting else Starting(ts)
    {
      ts := targets;
    }

    /** The loop, driven by what happens around it. */
    method Run(happenings: seq<Happening>) returns (phase: Phase)
      modifies this
      ensures Follows(old(View(Deciding)), happenings, View(phase))
    {
      ghost var start := View(Deciding);
      phase := Deciding;
      for i := 0 to |happenings|
        invariant Follows(start, happenings[..i], View(phase))
      {
        ghost var before := View(phase);
        match happenings[i] {
          case Offer(ts) =>
            SetTargets(ts);
          case Exit =>
            phase := if phase.Running? then BackingOff else phase;
          case Cancel =>
            phase := Stopped;
          case Act(ok) =>
            phase := Advance(phase, ok);
        }
        assert Reacts(before, happenings[i], View(phase));
        assert happenings[..i + 1][..i] == happenings[..i];
      }
      assert happenings[..|happenings|] == happenings;
    }

    /** The loop's own next move, if it is not blocked. */
    method Advance(phase: Phase, ok: bool) returns (next: Phase)
      modifies this`changed
      ensures Reacts(old(View(phase)), Act(ok), View(next))
    {
      next := phase;
      match phase
      case Deciding =>
        var ts := Snapshot();
        next := if ts == [] then Waiting else Starting(ts);
      case Starting(ts) =>
        if !ok {
          return BackingOff;
        }
        var rules := Configure(ts);
        next := Running(ts, rules);
      case BackingOff =>
        next := Deciding;
      case Stopped =>
      case _ =>
        if changed {
          changed, next := false, Deciding;
        }
    }

    /** The configuration OBI is started on. */
    method Configure(ts: seq<Target>) returns (rules: seq<Rule>)
      ensures Enabled(View(Starting(ts)), Started(rules))
    {
      rules := RenderConfig(ts);
    }
  }
}
