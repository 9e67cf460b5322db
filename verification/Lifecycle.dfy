/** One tracked JVM and what the manager may do to it: internal/inventory/state.go, manager.go. */
module Lifecycle {

  import opened Wrappers

  /** A pid alone may be reused, so the start time is part of the key. */
  datatype Key = Key(pid: int, start: Option<int>)

  /** `accepted` and `attachable` are the verdicts of the discovery filter and of the JVM itself. */
  datatype Jvm = Jvm(key: Key, accepted: bool, attachable: bool, instrumentedByUs: bool, alreadyInstrumented: bool)

  datatype Status = Discovered | Pending | Attaching | Attached | Failed | Skipped | Exited

  datatype Reason = NoReason | Filtered | NotAttachable | ByStartupFlag | Settling | ByOperator | InjectError

  datatype Warning = OtherAgent | FromInjector(text: string) | NothingInjected

  datatype Entry = Entry(jvm: Jvm, status: Status, reason: Reason, warnings: seq<Warning>,
                         firstSeen: int, lastSeen: int, attempts: int, nextAttempt: Option<int>,
                         attachedAt: Option<int>, exitedAt: Option<int>, endpoint: string, manualOnly: bool)

  /** An injection's result: warnings, some of them possibly empty, and the endpoint told to the JVM. */
  datatype Outcome = Success(endpoint: string, texts: seq<string>, already: bool) | Failure

  datatype Config = Config(autoAttach: bool, maxRetries: int, retryBackoff: int, minUptime: int)

  const EXITED_RETENTION := 600_000_000_000

  function Classify(e: Entry, now: int, cfg: Config): Entry {
    if !e.jvm.accepted then e.(status := Skipped, reason := Filtered)
    else if !e.jvm.attachable then
      if e.jvm.instrumentedByUs then e.(status := Attached, reason := ByStartupFlag, attachedAt := e.jvm.key.start)
      else e.(status := Skipped, reason := NotAttachable)
    else
      var e' := if e.jvm.alreadyInstrumented then e.(warnings := e.warnings + [OtherAgent]) else e;
      if e.jvm.key.start.None? || now - e.jvm.key.start.value >= cfg.minUptime
      then e'.(status := Discovered, reason := NoReason)
      else e'.(status := Pending, reason := Settling)
  }

  function NewEntry(jvm: Jvm, now: int): Entry {
    Entry(jvm, Discovered, NoReason, [], now, now, 0, None, None, None, "", false)
  }

  /** A sighting: a new JVM is classified, and so is one that was too young last time. */
  function Observe(entries: map<Key, Entry>, jvm: Jvm, now: int, cfg: Config): map<Key, Entry> {
    var e :=
      if jvm.key !in entries then Classify(NewEntry(jvm, now), now, cfg)
      else
        var seen := entries[jvm.key].(jvm := jvm);
        if seen.status == Pending then Classify(seen, now, cfg) else seen;
    entries[jvm.key := e.(lastSeen := now)]
  }

  predicate ShouldAttach(e: Entry, now: int, cfg: Config) {
    && cfg.autoAttach && !e.manualOnly
    && match e.status
       case Discovered => true
       case Failed => e.attempts < cfg.maxRetries && e.nextAttempt.Some? && now > e.nextAttempt.value
       case _ => false
  }

  function Override(e: Entry): Entry { e.(attempts := 0, manualOnly := false) }

  function Toggle(e: Entry, manual: bool): Entry {
    var e' := e.(manualOnly := manual);
    if manual && e.status == Discovered then e'.(status := Skipped, reason := ByOperator)
    else if !manual && e.status == Skipped && e.reason == ByOperator then e'.(status := Discovered, reason := NoReason)
    else e'
  }

  function Mark(e: Entry): Entry { e.(status := Attaching, attempts := e.attempts + 1) }

  function NonEmpty(texts: seq<string>): seq<Warning> {
    if texts == [] then []
    else NonEmpty(texts[..|texts| - 1])
         + if texts[|texts| - 1] != "" then [FromInjector(texts[|texts| - 1])] else []
  }

  /** Folds the outcome of attempt number `attempt` into the entry. */
  function Record(e: Entry, attempt: int, outcome: Outcome, now: int, cfg: Config): Entry {
    match outcome
    case Success(endpoint, texts, already) =>
      e.(status := Attached, attachedAt := Some(now), reason := NoReason, nextAttempt := None,
         endpoint := endpoint, warnings := NonEmpty(texts) + if already then [NothingInjected] else [])
    case Failure =>
      e.(status := Failed, reason := InjectError,
         nextAttempt := if attempt < cfg.maxRetries then Some(now + cfg.retryBackoff) else None)
  }

  /** A JVM that was not seen: first marked as gone, later forgotten. */
  predicate Forgotten(e: Entry, now: int) {
    e.status == Exited && e.exitedAt.Some? && now - e.exitedAt.value > EXITED_RETENTION
  }

  function Gone(e: Entry, now: int): Entry {
    if e.status == Exited then e else e.(status := Exited, exitedAt := Some(now), nextAttempt := None)
  }

  function Reap(entries: map<Key, Entry>, seen: set<Key>, now: int): map<Key, Entry> {
    map k | k in entries && (k in seen || !Forgotten(entries[k], now)) ::
      if k in seen then entries[k] else Gone(entries[k], now)
  }
}
