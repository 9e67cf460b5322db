/** The cardinality guard: internal/pipeline/limits.go.

    `admit` looks under the read lock and inserts under the write lock, and other calls may come in
    between; the state machine has the two as separate steps.
  */
module Cardinality {

  import Finite
  import opened Strings

  datatype Name = Name(text: string)

  const OVERFLOW := "__other__"
  const NUL := '\0'

  /** A call of `admit`: before its look, between look and insert, and answered. */
  datatype Phase = Arrived | Looked(known: bool, full: bool) | Answered(admitted: bool)

  datatype Call = Call(key: Name, phase: Phase)

  /** One of the guard's two sets with the calls on it.  A limit of zero or less is no limit. */
  datatype World = World(names: set<Name>, max: int, calls: seq<Call>)

  datatype Event = Arrive(key: Name) | Look(i: nat) | Settle(i: nat)

  predicate Full(names: set<Name>, max: int) { max > 0 && |names| >= max }

  predicate Enabled(w: World, e: Event) {
    match e
    case Arrive(_) => true
    case Look(i) => i < |w.calls| && w.calls[i].phase.Arrived?
    case Settle(i) => i < |w.calls| && w.calls[i].phase.Looked?
  }

  function Step(w: World, e: Event): World
    requires Enabled(w, e)
  {
    match e
    case Arrive(k) => w.(calls := w.calls + [Call(k, Arrived)])
    case Look(i) =>
      w.(calls := w.calls[i := w.calls[i].(phase := Looked(w.calls[i].key in w.names, Full(w.names, w.max)))])
    case Settle(i) =>
      var c := w.calls[i];
      if c.phase.known then w.(calls := w.calls[i := c.(phase := Answered(true))])
      else if c.phase.full then w.(calls := w.calls[i := c.(phase := Answered(false))])
      else if Full(w.names, w.max) && c.key !in w.names then w.(calls := w.calls[i := c.(phase := Answered(false))])
      else w.(names := w.names + {c.key}, calls := w.calls[i := c.(phase := Answered(true))])
  }

  ghost predicate IsRun(w: World, events: seq<Event>, v: World)
    decreases |events|
  {
    if events == [] then w == v
    else Enabled(w, events[0]) && IsRun(Step(w, events[0]), events[1..], v)
  }

  /** What a call knows stays true: a name it found is still there; one it found missing from a full
      set, or was refused, can never get in any more. */
  ghost predicate CallOk(w: World, i: nat) {
    i < |w.calls| ==>
      match w.calls[i].phase
      case Arrived => true
      case Looked(known, full) =>
        && (known ==> w.calls[i].key in w.names)
        && (!known && full ==> w.calls[i].key !in w.names && Full(w.names, w.max))
      case Answered(admitted) =>
        && (admitted ==> w.calls[i].key in w.names)
        && (!admitted ==> w.calls[i].key !in w.names && Full(w.names, w.max))
  }

  ghost predicate Inv(w: World) {
    && (w.max > 0 ==> |w.names| <= w.max)
    && (forall i: nat :: CallOk(w, i))
  }

  lemma StepKeepsInv(w: World, e: Event)
    requires Inv(w) && Enabled(w, e)
    ensures Inv(Step(w, e))
  {
    var v := Step(w, e);
    if e.Settle? {
      assert CallOk(w, e.i);
      if w.calls[e.i].key in w.names {
        assert w.names + {w.calls[e.i].key} == w.names;
      }
    }
    forall i: nat ensures CallOk(v, i) {
      assert CallOk(w, i);
    }
  }

  lemma {:induction false} RunKeepsInv(w: World, events: seq<Event>, v: World)
    requires Inv(w) && IsRun(w, events, v)
    ensures Inv(v) && w.names <= v.names && v.max == w.max
    decreases |events|
  {
    if events != [] {
      StepKeepsInv(w, events[0]);
      RunKeepsInv(Step(w, events[0]), events[1..], v);
    }
  }

  /** In every interleaving the limit holds, and all answers ever given for a name agree. */
  lemma LimitHoldsAndAnswersAgree(max: int, events: seq<Event>, v: World)
    requires IsRun(World({}, max, []), events, v)
    ensures max > 0 ==> |v.names| <= max
    ensures forall i, j :: 0 <= i < |v.calls| && 0 <= j < |v.calls| && v.calls[i].key == v.calls[j].key
                           && v.calls[i].phase.Answered? && v.calls[j].phase.Answered? ==>
                             v.calls[i].phase == v.calls[j].phase
    ensures forall i :: 0 <= i < |v.calls| && v.calls[i].phase == Answered(true) ==> v.calls[i].key in v.names
  {
    RunKeepsInv(World({}, max, []), events, v);
    forall i, j | 0 <= i < |v.calls| && 0 <= j < |v.calls| && v.calls[i].key == v.calls[j].key
                  && v.calls[i].phase.Answered? && v.calls[j].phase.Answered?
      ensures v.calls[i].phase == v.calls[j].phase
    {
      assert CallOk(v, i) && CallOk(v, j);
    }
    forall i | 0 <= i < |v.calls| && v.calls[i].phase == Answered(true) ensures v.calls[i].key in v.names {
      assert CallOk(v, i);
    }
  }

  ghost predicate Asked(w: World, name: Name) { exists c :: c in w.calls && c.key == name }

  lemma {:induction false} OnlyAskedGetIn(w: World, events: seq<Event>, v: World)
    requires IsRun(w, events, v) && forall n :: n in w.names ==> Asked(w, n)
    ensures forall n :: n in v.names ==> Asked(v, n)
    decreases |events|
  {
    if events != [] {
      var e, u := events[0], Step(w, events[0]);
      forall n | n in u.names ensures Asked(u, n) {
        if n in w.names {
          var i :| 0 <= i < |w.calls| && w.calls[i].key == n;
          assert u.calls[i] in u.calls && u.calls[i].key == n;
        } else {
          assert u.calls[e.i] in u.calls && u.calls[e.i].key == n;
        }
      }
      OnlyAskedGetIn(u, events[1..], v);
    }
  }

  /** A name is refused only where there is a limit and as many others as that are in: below the limit, and
      without one, every new name gets in. */
  lemma RefusedOnlyWhenFull(max: int, events: seq<Event>, v: World, i: nat)
    requires IsRun(World({}, max, []), events, v) && i < |v.calls| && v.calls[i].phase == Answered(false)
    ensures max > 0 && |v.names| == max && v.calls[i].key !in v.names
  {
    RunKeepsInv(World({}, max, []), events, v);
    assert CallOk(v, i);
  }

  /** So as long as no more different names turn up than the limit allows, none is ever refused. */
  lemma FewNamesAllAdmitted(max: int, events: seq<Event>, v: World, all: set<Name>)
    requires IsRun(World({}, max, []), events, v) && (max <= 0 || |all| <= max)
    requires forall c :: c in v.calls ==> c.key in all
    ensures forall c :: c in v.calls && c.phase.Answered? ==> c.phase.admitted
  {
    forall c | c in v.calls && c.phase.Answered? ensures c.phase.admitted {
      if !c.phase.admitted {
        var i :| 0 <= i < |v.calls| && v.calls[i] == c;
        RefusedOnlyWhenFull(max, events, v, i);
        OnlyAskedGetIn(World({}, max, []), events, v);
        assert v.names <= all - {c.key};
        Finite.SubsetSize(v.names, all - {c.key});
      }
    }
  }

  // ---- Names as they are stored -----------------------------------------------------------

  /** Undoes the service prefix of an operation's key. */
  function TrimServicePrefix(key: string): string {
    if key == "" then key
    else if key[0] == NUL then key[1..]
    else
      var rest := TrimServicePrefix(key[1..]);
      if NUL in key then rest else key
  }

  lemma {:induction false} TrimFirst(a: string, b: string)
    requires NUL !in a
    ensures TrimServicePrefix(a + [NUL] + b) == b
  {
    var key := a + [NUL] + b;
    assert key[|a|] == NUL;
    if a == "" {
      assert key[1..] == b;
    } else {
      assert a[0] in a;
      assert key[1..] == a[1..] + [NUL] + b;
      TrimFirst(a[1..], b);
    }
  }

  lemma TrimNothing(key: string)
    requires NUL !in key
    ensures TrimServicePrefix(key) == key
  {
    if key != "" {
      assert key[0] in key;
    }
  }

  method CutServicePrefix(key: string) returns (r: string)
    ensures r == TrimServicePrefix(key)
  {
    for i := 0 to |key|
      invariant NUL !in key[..i]
    {
      if key[i] == NUL {
        assert key == key[..i] + [NUL] + key[i + 1..];
        TrimFirst(key[..i], key[i + 1..]);
        return key[i + 1..];
      }
    }
    assert key[..|key|] == key;
    TrimNothing(key);
    return key;
  }

  function Label(key: string, admitted: bool): string {
    if admitted then TrimServicePrefix(key) else OVERFLOW
  }

  function OperationKey(service: string, name: string): string { service + [NUL] + name }

  function StoredService(name: string, admitted: bool): string {
    if name == "" then OVERFLOW else Label(name, admitted)
  }

  function StoredOperation(service: string, name: string, admitted: bool): string {
    if name == "" || Label(OperationKey(service, name), admitted) == OVERFLOW then OVERFLOW else name
  }

  /** An admitted name is stored as itself: a service without NUL, an operation of such a service. */
  lemma AdmittedStoredAsIs(service: string, name: string)
    requires NUL !in service
    ensures service != "" ==> StoredService(service, true) == service
    ensures name != "" ==> StoredOperation(service, name, true) == name
    ensures StoredOperation(service, name, false) == OVERFLOW
  {
    TrimNothing(service);
    TrimFirst(service, name);
  }

  /** An admitted service is stored as itself exactly when its name has no NUL. */
  lemma ServiceStoredAsIsIff(name: string)
    requires name != ""
    ensures StoredService(name, true) == name <==> NUL !in name
  {
    if NUL in name {
      var i := FirstNul(name);
      assert name == name[..i] + [NUL] + name[i + 1..];
      NulServiceIsCut(name[..i], name[i + 1..]);
      assert |name[i + 1..]| < |name|;
    } else {
      TrimNothing(name);
    }
  }

  lemma {:induction false} FirstNul(s: string) returns (i: nat)
    requires NUL in s
    ensures i < |s| && s[i] == NUL && NUL !in s[..i]
  {
    if s[0] == NUL {
      i := 0;
    } else {
      var j := FirstNul(s[1..]);
      i := j + 1;
      assert s[..i] == [s[0]] + s[1..][..j];
    }
  }

  /** A service name with a NUL is stored as its tail. */
  lemma NulServiceIsCut(a: string, b: string)
    requires NUL !in a
    ensures StoredService(a + [NUL] + b, true) == b
  {
    TrimFirst(a, b);
  }

  /** A pair the pipeline may store, given what the two sets have admitted. */
  ghost predicate Storable(services: set<Name>, operations: set<Name>, p: (Name, Name)) {
    && (p.0 in services || p.0 == Name(OVERFLOW))
    && (p.1 == Name(OVERFLOW) || Name(OperationKey(p.0.text, p.1.text)) in operations)
  }

  /** What `normalize` makes of a span is storable. */
  lemma NormalizedIsStorable(services: set<Name>, operations: set<Name>, service: string, name: string,
                             known: bool, opKnown: bool)
    requires NUL !in service
    requires known && service != "" ==> Name(service) in services
    requires var s := StoredService(service, known);
             opKnown && name != "" ==> Name(OperationKey(s, name)) in operations
    ensures var s := StoredService(service, known);
            NUL !in s && Storable(services, operations, (Name(s), Name(StoredOperation(s, name, opKnown))))
  {
    TrimNothing(service);
    var s := StoredService(service, known);
    AdmittedStoredAsIs(s, name);
  }

  lemma {:induction false} InjectionSize<S, T>(a: set<S>, b: set<T>, f: S -> T)
    requires forall x :: x in a ==> f(x) in b
    requires forall x, y :: x in a && y in a && f(x) == f(y) ==> x == y
    ensures |a| <= |b|
  {
    if a != {} {
      var x :| x in a;
      InjectionSize(a - {x}, b - {f(x)}, f);
    }
  }

  /** However many spans are stored, their distinct (service, operation) pairs stay few. */
  lemma StoredPairsBounded(services: set<Name>, operations: set<Name>, pairs: set<(Name, Name)>)
    requires forall p :: p in pairs ==> NUL !in p.0.text && Storable(services, operations, p)
    ensures |pairs| <= |operations| + |services| + 1
  {
    var other := set p | p in pairs && p.1 == Name(OVERFLOW);
    var named := pairs - other;
    assert pairs == other + named && other !! named;
    var key := (p: (Name, Name)) => Name(OperationKey(p.0.text, p.1.text));
    forall p, q | p in named && q in named && key(p) == key(q) ensures p == q {
      SplitFirst(NUL, p.0.text, p.1.text, q.0.text, q.1.text);
    }
    InjectionSize(named, operations, key);
    var first := (p: (Name, Name)) => p.0;
    InjectionSize(other, services + {Name(OVERFLOW)}, first);
    Finite.UnionSize(services, {Name(OVERFLOW)});
  }

  ghost predicate Served(w: World, name: string, admitted: bool) {
    Call(Name(name), Answered(admitted)) in w.calls
  }

  /** What `normalize` stores for a span, given what its two calls were answered. */
  ghost predicate Produces(sv: World, ops: World, service: string, name: string, a: bool, b: bool, p: (Name, Name)) {
    var s := StoredService(service, a);
    && NUL !in service
    && (service != "" ==> Served(sv, service, a))
    && (name != "" ==> Served(ops, OperationKey(s, name), b))
    && p == (Name(s), Name(StoredOperation(s, name, b)))
  }

  ghost predicate Produced(sv: World, ops: World, p: (Name, Name)) {
    exists service, name, a, b :: Produces(sv, ops, service, name, a, b, p)
  }

  lemma ProducedIsStorable(sv: World, ops: World, p: (Name, Name))
    requires Inv(sv) && Inv(ops) && Produced(sv, ops, p)
    ensures NUL !in p.0.text && Storable(sv.names, ops.names, p)
  {
    var service, name, a, b :| Produces(sv, ops, service, name, a, b, p);
    if service != "" {
      ServedIsIn(sv, service, a);
    }
    if name != "" {
      ServedIsIn(ops, OperationKey(StoredService(service, a), name), b);
    }
    NormalizedIsStorable(sv.names, ops.names, service, name, a, b);
  }

  lemma ServedIsIn(w: World, name: string, admitted: bool)
    requires Inv(w) && Served(w, name, admitted)
    ensures admitted ==> Name(name) in w.names
  {
    var i :| 0 <= i < |w.calls| && w.calls[i] == Call(Name(name), Answered(admitted));
    assert CallOk(w, i);
  }

  /** However the calls interleave, the (service, operation) pairs ever stored stay within the limits. */
  lemma StoredPairsOfRuns(maxServices: int, maxOperations: int, first: seq<Event>, sv: World,
                          second: seq<Event>, ops: World, pairs: set<(Name, Name)>)
    requires maxServices > 0 && IsRun(World({}, maxServices, []), first, sv)
    requires maxOperations > 0 && IsRun(World({}, maxOperations, []), second, ops)
    requires forall p :: p in pairs ==> Produced(sv, ops, p)
    ensures |pairs| <= maxOperations + maxServices + 1
  {
    RunKeepsInv(World({}, maxServices, []), first, sv);
    RunKeepsInv(World({}, maxOperations, []), second, ops);
    forall p | p in pairs ensures NUL !in p.0.text && Storable(sv.names, ops.names, p) {
      ProducedIsStorable(sv, ops, p);
    }
    StoredPairsBounded(sv.names, ops.names, pairs);
  }

  // ---- The guard --------------------------------------------------------------------------

  class CardinalityGuard {
    const maxServices: int
    const maxOperations: int
    var services: set<Name>
    var operations: set<Name>

    constructor (maxServices: int, maxOperations: int)
      ensures this.maxServices == maxServices && this.maxOperations == maxOperations
      ensures services == {} && operations == {}
    {
      this.maxServices, this.maxOperations := maxServices, maxOperations;
      services, operations := {}, {};
    }

    /** The name to store for a service, with nothing else going on. */
    method Service(name: string) returns (stored: string)
      modifies this`services
      ensures name == "" ==> stored == OVERFLOW && services == old(services)
      ensures name != "" ==>
                var ok := Name(name) in old(services) || !Full(old(services), maxServices);
                stored == StoredService(name, ok) && services == old(services) + if ok then {Name(name)} else {}
    {
      if name == "" {
        return OVERFLOW;
      }
      services, stored := Admit(services, name, maxServices);
    }

    /** The name to store for an operation; operations are told apart by service. */
    method Operation(service: string, name: string) returns (stored: string)
      modifies this`operations
      ensures name == "" ==> stored == OVERFLOW && operations == old(operations)
      ensures name != "" ==>
                var key := OperationKey(service, name);
                var ok := Name(key) in old(operations) || !Full(old(operations), maxOperations);
                stored == StoredOperation(service, name, ok)
                && operations == old(operations) + if ok then {Name(key)} else {}
    {
      if name == "" {
        return OVERFLOW;
      }
      var admitted;
      operations, admitted := Admit(operations, OperationKey(service, name), maxOperations);
      if admitted == OVERFLOW {
        return OVERFLOW;
      }
      return name;
    }
  }

  /** Both phases of an admission, undisturbed: the run Arrive, Look, Settle. */
  method Admit(names: set<Name>, key: string, max: int) returns (names': set<Name>, stored: string)
    ensures var w := World(names, max, [Call(Name(key), Arrived)]);
            var v := Step(Step(w, Look(0)), Settle(0));
            names' == v.names && stored == Label(key, v.calls[0].phase.admitted)
  {
    names' := names;
    var known, full := Name(key) in names, max > 0 && |names| >= max;
    if known {
      stored := CutServicePrefix(key);
      return;
    }
    if full {
      return names, OVERFLOW;
    }
    if max > 0 && |names'| >= max {
      if Name(key) !in names' {
        return names', OVERFLOW;
      }
    }
    names' := names' + {Name(key)};
    stored := CutServicePrefix(key);
  }
}
