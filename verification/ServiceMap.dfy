/** Tiers of the service map: the relaxation loop of web/src/pages/ServiceMap.tsx.

    The loop ends exactly when no cycle can be reached from the nodes it starts from, and then
    gives every node it reached the length of the longest call path leading to it.
  */
module ServiceMap {

  import Finite

  datatype Name = Name(text: string)
  datatype Dependency = Dependency(caller: Name, callee: Name)

  // ---- The graph -------------------------------------------------------------------------

  ghost predicate IsPath(deps: seq<Dependency>, p: seq<Name>) {
    p != [] && forall i :: 0 <= i < |p| - 1 ==> Dependency(p[i], p[i + 1]) in deps
  }

  ghost predicate StartPath(deps: seq<Dependency>, starts: set<Name>, p: seq<Name>, v: Name) {
    IsPath(deps, p) && p[0] in starts && p[|p| - 1] == v
  }

  /** Some call path of `t` calls leads from a start node to `v`. */
  ghost predicate Leads(deps: seq<Dependency>, starts: set<Name>, v: Name, t: nat) {
    exists p :: StartPath(deps, starts, p, v) && |p| - 1 == t
  }

  ghost predicate Reachable(deps: seq<Dependency>, starts: set<Name>, v: Name) {
    exists t: nat :: Leads(deps, starts, v, t)
  }

  ghost predicate Loop(deps: seq<Dependency>, c: seq<Name>) {
    IsPath(deps, c) && |c| >= 2 && c[0] == c[|c| - 1]
  }

  ghost predicate NoReachableLoop(deps: seq<Dependency>, starts: set<Name>) {
    forall c :: Loop(deps, c) ==> !Reachable(deps, starts, c[0])
  }

  ghost predicate IsLongest(deps: seq<Dependency>, starts: set<Name>, v: Name, t: nat) {
    Leads(deps, starts, v, t) && forall u: nat :: Leads(deps, starts, v, u) ==> u <= t
  }

  lemma LeadsFurther(deps: seq<Dependency>, starts: set<Name>, d: Dependency, t: nat)
    requires d in deps && Leads(deps, starts, d.caller, t)
    ensures Leads(deps, starts, d.callee, t + 1)
  {
    var p :| StartPath(deps, starts, p, d.caller) && |p| - 1 == t;
    assert StartPath(deps, starts, p + [d.callee], d.callee);
  }

  // ---- The loop as a transition system ---------------------------------------------------

  datatype State = State(queue: seq<Name>, tiers: map<Name, nat>)

  /** One dependency seen while `current`, at `tier`, is being relaxed. */
  function RelaxOne(s: State, d: Dependency, current: Name, tier: nat): State {
    if d.caller == current && (d.callee !in s.tiers || s.tiers[d.callee] <= tier)
    then State(s.queue + [d.callee], s.tiers[d.callee := tier + 1])
    else s
  }

  function RelaxFirst(s: State, deps: seq<Dependency>, n: nat, current: Name, tier: nat): State
    requires n <= |deps|
  {
    if n == 0 then s else RelaxOne(RelaxFirst(s, deps, n - 1, current, tier), deps[n - 1], current, tier)
  }

  function TierOf(tiers: map<Name, nat>, x: Name): nat { if x in tiers then tiers[x] else 0 }

  function Turn(s: State, deps: seq<Dependency>): State
    requires s.queue != []
  {
    var current := s.queue[0];
    RelaxFirst(s.(queue := s.queue[1..]), deps, |deps|, current, TierOf(s.tiers, current))
  }

  /** `k` turns of the loop, or fewer if it has ended by then. */
  function Turns(s: State, deps: seq<Dependency>, k: nat): State
    decreases k
  {
    if k == 0 || s.queue == [] then s else Turns(Turn(s, deps), deps, k - 1)
  }

  // ---- What every turn keeps -------------------------------------------------------------

  ghost predicate Queued(starts: set<Name>, s: State) {
    && starts <= s.tiers.Keys
    && (forall x :: x in s.queue ==> x in s.tiers)
  }

  ghost predicate TierRealised(deps: seq<Dependency>, starts: set<Name>, tiers: map<Name, nat>, v: Name) {
    v in tiers ==> Leads(deps, starts, v, tiers[v])
  }

  /** Every tier is the length of some path that leads to its node. */
  ghost predicate Realised(deps: seq<Dependency>, starts: set<Name>, s: State) {
    forall v :: TierRealised(deps, starts, s.tiers, v)
  }

  ghost predicate Rises(d: Dependency, tiers: map<Name, nat>) {
    d.caller in tiers ==> d.callee in tiers && tiers[d.caller] < tiers[d.callee]
  }

  /** A node not waiting in the queue, nor about to be relaxed, is left of what it calls. */
  ghost predicate EdgeSettled(deps: seq<Dependency>, s: State, busy: set<Name>, d: Dependency) {
    d in deps && d.caller !in s.queue && d.caller !in busy ==> Rises(d, s.tiers)
  }

  ghost predicate Settled(deps: seq<Dependency>, s: State, busy: set<Name>) {
    forall d :: EdgeSettled(deps, s, busy, d)
  }

  ghost predicate Inv(deps: seq<Dependency>, starts: set<Name>, s: State) {
    Queued(starts, s) && Realised(deps, starts, s) && Settled(deps, s, {})
  }

  /** Halfway through relaxing `current`: what `Inv` becomes after `n` dependencies. */
  ghost predicate MidTurn(deps: seq<Dependency>, starts: set<Name>, n: nat, s: State, current: Name, tier: nat)
    requires n <= |deps|
  {
    && Queued(starts, s) && Realised(deps, starts, s)
    && current in s.tiers && (s.tiers[current] == tier || current in s.queue)
    && Leads(deps, starts, current, tier)
    && Settled(deps, s, {current})
    && (forall i :: 0 <= i < n && deps[i].caller == current ==>
          deps[i].callee in s.tiers && tier < s.tiers[deps[i].callee])
  }

  lemma RelaxOneKeeps(deps: seq<Dependency>, starts: set<Name>, n: nat, s: State, current: Name, tier: nat)
    requires n < |deps| && MidTurn(deps, starts, n, s, current, tier)
    ensures MidTurn(deps, starts, n + 1, RelaxOne(s, deps[n], current, tier), current, tier)
  {
    var d, s' := deps[n], RelaxOne(s, deps[n], current, tier);
    if s' != s {
      LeadsFurther(deps, starts, d, tier);
      forall v ensures TierRealised(deps, starts, s'.tiers, v) {
        assert TierRealised(deps, starts, s.tiers, v);
      }
      forall e ensures EdgeSettled(deps, s', {current}, e) {
        assert EdgeSettled(deps, s, {current}, e);
      }
    }
  }

  lemma {:induction false} RelaxFirstKeeps(deps: seq<Dependency>, starts: set<Name>, n: nat, s: State,
                                           current: Name, tier: nat)
    requires n <= |deps| && MidTurn(deps, starts, 0, s, current, tier)
    ensures MidTurn(deps, starts, n, RelaxFirst(s, deps, n, current, tier), current, tier)
  {
    if n > 0 {
      RelaxFirstKeeps(deps, starts, n - 1, s, current, tier);
      RelaxOneKeeps(deps, starts, n - 1, RelaxFirst(s, deps, n - 1, current, tier), current, tier);
    }
  }

  lemma TurnBegins(deps: seq<Dependency>, starts: set<Name>, s: State)
    requires Inv(deps, starts, s) && s.queue != []
    ensures MidTurn(deps, starts, 0, s.(queue := s.queue[1..]), s.queue[0], TierOf(s.tiers, s.queue[0]))
  {
    var s1 := s.(queue := s.queue[1..]);
    assert s.queue == [s.queue[0]] + s1.queue;
    assert TierRealised(deps, starts, s.tiers, s.queue[0]);
    forall d ensures EdgeSettled(deps, s1, {s.queue[0]}, d) {
      assert EdgeSettled(deps, s, {}, d);
    }
    forall v ensures TierRealised(deps, starts, s1.tiers, v) {
      assert TierRealised(deps, starts, s.tiers, v);
    }
  }

  lemma TurnKeepsInv(deps: seq<Dependency>, starts: set<Name>, s: State)
    requires Inv(deps, starts, s) && s.queue != []
    ensures Inv(deps, starts, Turn(s, deps))
  {
    var current := s.queue[0];
    TurnBegins(deps, starts, s);
    RelaxFirstKeeps(deps, starts, |deps|, s.(queue := s.queue[1..]), current, TierOf(s.tiers, current));
    var s2 := Turn(s, deps);
    forall d ensures EdgeSettled(deps, s2, {}, d) {
      assert EdgeSettled(deps, s2, {current}, d);
      if d in deps && d.caller == current {
        var i :| 0 <= i < |deps| && deps[i] == d;
      }
    }
  }

  // ---- When the loop has ended -----------------------------------------------------------

  lemma PrefixIsPath(deps: seq<Dependency>, p: seq<Name>, lo: nat, hi: nat)
    requires IsPath(deps, p) && lo < hi <= |p|
    ensures IsPath(deps, p[lo..hi])
  {
    var q := p[lo..hi];
    forall i | 0 <= i < |q| - 1 ensures Dependency(q[i], q[i + 1]) in deps {
      assert Dependency(p[lo + i], p[lo + i + 1]) in deps;
    }
  }

  /** Tiers rise along every path that starts at a tiered node. */
  lemma {:induction false} TiersRise(deps: seq<Dependency>, s: State, p: seq<Name>)
    requires Settled(deps, s, {}) && s.queue == [] && IsPath(deps, p) && p[0] in s.tiers
    ensures p[|p| - 1] in s.tiers && s.tiers[p[|p| - 1]] >= s.tiers[p[0]] + |p| - 1
  {
    if |p| > 1 {
      PrefixIsPath(deps, p, 0, |p| - 1);
      TiersRise(deps, s, p[..|p| - 1]);
      var d := Dependency(p[|p| - 2], p[|p| - 1]);
      assert d in deps && EdgeSettled(deps, s, {}, d);
    }
  }

  lemma EndedBounds(deps: seq<Dependency>, starts: set<Name>, s: State, v: Name, t: nat)
    requires Inv(deps, starts, s) && s.queue == [] && Leads(deps, starts, v, t)
    ensures v in s.tiers && t <= s.tiers[v]
  {
    var p :| StartPath(deps, starts, p, v) && |p| - 1 == t;
    TiersRise(deps, s, p);
  }

  lemma EndedTier(deps: seq<Dependency>, starts: set<Name>, s: State, v: Name)
    requires Inv(deps, starts, s) && s.queue == []
    ensures v in s.tiers <==> Reachable(deps, starts, v)
    ensures v in s.tiers ==> IsLongest(deps, starts, v, s.tiers[v])
  {
    assert TierRealised(deps, starts, s.tiers, v);
    forall t: nat | Leads(deps, starts, v, t) ensures v in s.tiers && t <= s.tiers[v] {
      EndedBounds(deps, starts, s, v, t);
    }
  }

  lemma EndedWithoutLoop(deps: seq<Dependency>, starts: set<Name>, s: State, c: seq<Name>)
    requires Inv(deps, starts, s) && s.queue == [] && Loop(deps, c)
    ensures !Reachable(deps, starts, c[0])
  {
    EndedTier(deps, starts, s, c[0]);
    if c[0] in s.tiers {
      TiersRise(deps, s, c);
    }
  }

  ghost predicate TierExact(deps: seq<Dependency>, starts: set<Name>, tiers: map<Name, nat>, v: Name) {
    && (v in tiers <==> Reachable(deps, starts, v))
    && (v in tiers ==> IsLongest(deps, starts, v, tiers[v]))
  }

  /** What the loop leaves: longest paths to all that can be reached, and arrows that point right. */
  ghost predicate Tiered(deps: seq<Dependency>, starts: set<Name>, tiers: map<Name, nat>) {
    && (forall v :: TierExact(deps, starts, tiers, v))
    && (forall d :: EdgeSettled(deps, State([], tiers), {}, d))
  }

  lemma EndedMeansLongest(deps: seq<Dependency>, starts: set<Name>, s: State)
    requires Inv(deps, starts, s) && s.queue == []
    ensures NoReachableLoop(deps, starts)
    ensures Tiered(deps, starts, s.tiers)
  {
    forall c | Loop(deps, c) ensures !Reachable(deps, starts, c[0]) {
      EndedWithoutLoop(deps, starts, s, c);
    }
    forall v ensures TierExact(deps, starts, s.tiers, v) {
      EndedTier(deps, starts, s, v);
    }
    assert s == State([], s.tiers);
  }

  // ---- Termination -----------------------------------------------------------------------

  /** Everything a path from the start nodes can visit. */
  ghost function Visitable(deps: seq<Dependency>, starts: set<Name>): set<Name> {
    starts + (set d | d in deps :: d.callee)
  }

  /** Without a reachable loop a start path visits no node twice. */
  lemma StartPathIsSimple(deps: seq<Dependency>, starts: set<Name>, p: seq<Name>, v: Name)
    requires NoReachableLoop(deps, starts) && StartPath(deps, starts, p, v)
    ensures forall i, j :: 0 <= i < j < |p| ==> p[i] != p[j]
  {
    forall i, j | 0 <= i < j < |p| ensures p[i] != p[j] {
      if p[i] == p[j] {
        PrefixIsPath(deps, p, 0, i + 1);
        PrefixIsPath(deps, p, i, j + 1);
        assert StartPath(deps, starts, p[..i + 1], p[i]);
        assert Leads(deps, starts, p[i], i);
        assert Loop(deps, p[i..j + 1]);
      }
    }
  }

  lemma {:induction false} SimpleSize(p: seq<Name>)
    requires forall i, j :: 0 <= i < j < |p| ==> p[i] != p[j]
    ensures |set x | x in p| == |p|
  {
    if p != [] {
      var q := p[..|p| - 1];
      SimpleSize(q);
      assert p == q + [p[|p| - 1]];
      assert (set x | x in p) == (set x | x in q) + {p[|p| - 1]};
    }
  }

  lemma TierIsSmall(deps: seq<Dependency>, starts: set<Name>, v: Name, t: nat)
    requires NoReachableLoop(deps, starts) && Leads(deps, starts, v, t)
    ensures v in Visitable(deps, starts) && t < |Visitable(deps, starts)|
  {
    var p :| StartPath(deps, starts, p, v) && |p| - 1 == t;
    StartPathIsSimple(deps, starts, p, v);
    forall i | 0 <= i < |p| ensures p[i] in Visitable(deps, starts) {
      if i > 0 {
        assert Dependency(p[i - 1], p[i]) in deps;
      }
    }
    SimpleSize(p);
    Finite.SubsetSize((set x | x in p), Visitable(deps, starts));
  }

  /** The tiers still above each node: what every push uses up. */
  ghost function Room(all: set<Name>, tiers: map<Name, nat>): set<(Name, int)> {
    set x, t | x in all && t in Finite.Range(|all|) && (x in tiers ==> t > tiers[x]) :: (x, t)
  }

  lemma RaisingUsesRoom(all: set<Name>, tiers: map<Name, nat>, v: Name, t: nat)
    requires v in all && t < |all| && (v in tiers ==> tiers[v] < t)
    ensures Room(all, tiers[v := t]) < Room(all, tiers)
  {
    assert (v, t) in Room(all, tiers) && (v, t) !in Room(all, tiers[v := t]);
  }

  lemma {:induction false} RelaxFirstUsesRoom(deps: seq<Dependency>, starts: set<Name>, n: nat, s: State,
                                              current: Name, tier: nat)
    requires NoReachableLoop(deps, starts) && n <= |deps| && MidTurn(deps, starts, 0, s, current, tier)
    ensures var s', all := RelaxFirst(s, deps, n, current, tier), Visitable(deps, starts);
            s' == s || Room(all, s'.tiers) < Room(all, s.tiers)
  {
    if n > 0 {
      RelaxFirstUsesRoom(deps, starts, n - 1, s, current, tier);
      var s1, d := RelaxFirst(s, deps, n - 1, current, tier), deps[n - 1];
      if RelaxOne(s1, d, current, tier) != s1 {
        LeadsFurther(deps, starts, d, tier);
        TierIsSmall(deps, starts, d.callee, tier + 1);
        RaisingUsesRoom(Visitable(deps, starts), s1.tiers, d.callee, tier + 1);
      }
    }
  }

  lemma TurnProgress(deps: seq<Dependency>, starts: set<Name>, s: State)
    requires NoReachableLoop(deps, starts) && Inv(deps, starts, s) && s.queue != []
    ensures var s', all := Turn(s, deps), Visitable(deps, starts);
            || Room(all, s'.tiers) < Room(all, s.tiers)
            || (s'.tiers == s.tiers && |s'.queue| < |s.queue|)
  {
    TurnBegins(deps, starts, s);
    RelaxFirstUsesRoom(deps, starts, |deps|, s.(queue := s.queue[1..]), s.queue[0], TierOf(s.tiers, s.queue[0]));
  }

  lemma {:induction false} LoopEnds(deps: seq<Dependency>, starts: set<Name>, s: State) returns (k: nat)
    requires NoReachableLoop(deps, starts) && Inv(deps, starts, s)
    ensures Turns(s, deps, k).queue == []
    decreases Room(Visitable(deps, starts), s.tiers), |s.queue|
  {
    if s.queue == [] {
      k := 0;
    } else {
      TurnKeepsInv(deps, starts, s);
      TurnProgress(deps, starts, s);
      var j := LoopEnds(deps, starts, Turn(s, deps));
      k := j + 1;
    }
  }

  lemma {:induction false} TurnsKeepInv(deps: seq<Dependency>, starts: set<Name>, s: State, k: nat)
    requires Inv(deps, starts, s)
    ensures Inv(deps, starts, Turns(s, deps, k))
    decreases k
  {
    if k > 0 && s.queue != [] {
      TurnKeepsInv(deps, starts, s);
      TurnsKeepInv(deps, starts, Turn(s, deps), k - 1);
    }
  }

  // ---- Start nodes -----------------------------------------------------------------------

  function AddName(names: seq<Name>, x: Name): seq<Name> {
    if x in names then names else names + [x]
  }

  /** All names in the order a JavaScript Set lists them. */
  function NamesOf(deps: seq<Dependency>): seq<Name> {
    if deps == [] then []
    else
      var last := deps[|deps| - 1];
      AddName(AddName(NamesOf(deps[..|deps| - 1]), last.caller), last.callee)
  }

  lemma {:induction false} NamesOfHas(deps: seq<Dependency>, d: Dependency)
    requires d in deps
    ensures d.caller in NamesOf(deps) && d.callee in NamesOf(deps)
  {
    var n := |deps| - 1;
    assert deps == deps[..n] + [deps[n]];
    if d != deps[n] {
      NamesOfHas(deps[..n], d);
    }
  }

  function Callees(deps: seq<Dependency>): set<Name> { set d | d in deps :: d.callee }

  function EntriesAmong(names: seq<Name>, callees: set<Name>): (r: seq<Name>)
    ensures forall x :: x in r <==> x in names && x !in callees
  {
    if names == [] then []
    else
      var rest := EntriesAmong(names[..|names| - 1], callees);
      assert names == names[..|names| - 1] + [names[|names| - 1]];
      if names[|names| - 1] in callees then rest else rest + [names[|names| - 1]]
  }

  /** Whatever nobody calls; in a graph without such a node, the first name. */
  function StartsAmong(names: seq<Name>, callees: set<Name>): seq<Name> {
    var entries := EntriesAmong(names, callees);
    if entries == [] && names != [] then [names[0]] else entries
  }

  function Starts(deps: seq<Dependency>): seq<Name> {
    StartsAmong(NamesOf(deps), Callees(deps))
  }

  ghost function StartSet(deps: seq<Dependency>): set<Name> { set x | x in Starts(deps) }

  function Initial(deps: seq<Dependency>): State {
    State(Starts(deps), map x | x in Starts(deps) :: 0)
  }

  lemma InitialInv(deps: seq<Dependency>)
    ensures Inv(deps, StartSet(deps), Initial(deps))
  {
    var s := Initial(deps);
    forall v ensures TierRealised(deps, StartSet(deps), s.tiers, v) {
      assert v in s.tiers ==> StartPath(deps, StartSet(deps), [v], v);
    }
  }

  lemma {:induction false} FirstNameIs(deps: seq<Dependency>)
    requires deps != []
    ensures NamesOf(deps) != [] && NamesOf(deps)[0] == deps[0].caller
  {
    if |deps| > 1 {
      FirstNameIs(deps[..|deps| - 1]);
    } else {
      assert NamesOf(deps[..0]) == [];
    }
  }

  predicate Called(deps: seq<Dependency>, x: Name) { exists d :: d in deps && d.callee == x }

  /** A caller that nobody calls is where the relaxation starts, at tier zero. */
  lemma UncalledStarts(deps: seq<Dependency>, e: Dependency)
    requires e in deps && !Called(deps, e.caller)
    ensures e.caller in Starts(deps) && Initial(deps).tiers[e.caller] == 0
    ensures forall x :: x in Starts(deps) ==> !Called(deps, x)
  {
    NamesOfHas(deps, e);
    assert e.caller !in Callees(deps);
    assert e.caller in EntriesAmong(NamesOf(deps), Callees(deps));
    forall x | x in Starts(deps) ensures !Called(deps, x) {
      assert x !in Callees(deps);
    }
  }

  lemma {:induction false} NoEntries(names: seq<Name>, callees: set<Name>)
    requires forall x :: x in names ==> x in callees
    ensures EntriesAmong(names, callees) == []
  {
    if names != [] {
      assert names == names[..|names| - 1] + [names[|names| - 1]];
      NoEntries(names[..|names| - 1], callees);
    }
  }

  /** Where everybody is called it starts from the first caller alone. */
  lemma CyclicStartsAtFirst(deps: seq<Dependency>)
    requires deps != [] && forall d :: d in deps ==> Called(deps, d.caller)
    ensures Starts(deps) == [deps[0].caller]
  {
    FirstNameIs(deps);
    forall x | x in NamesOf(deps) ensures x in Callees(deps) {
      NameOfSome(deps, x);
    }
    NoEntries(NamesOf(deps), Callees(deps));
  }

  lemma {:induction false} NameOfSome(deps: seq<Dependency>, x: Name)
    requires x in NamesOf(deps)
    ensures exists d :: d in deps && (d.caller == x || d.callee == x)
  {
    var front, last := deps[..|deps| - 1], deps[|deps| - 1];
    assert deps == front + [last];
    if x != last.caller && x != last.callee {
      NameOfSome(front, x);
    } else {
      assert last in deps;
    }
  }

  /** The relaxation ends if and only if no call loop is reachable from its start nodes. */
  lemma EndsIffNoReachableLoop(deps: seq<Dependency>)
    ensures (exists k: nat :: Turns(Initial(deps), deps, k).queue == []) <==> NoReachableLoop(deps, StartSet(deps))
  {
    InitialInv(deps);
    if NoReachableLoop(deps, StartSet(deps)) {
      var k := LoopEnds(deps, StartSet(deps), Initial(deps));
      assert Turns(Initial(deps), deps, k).queue == [];
    }
    if k: nat :| Turns(Initial(deps), deps, k).queue == [] {
      TurnsKeepInv(deps, StartSet(deps), Initial(deps), k);
      EndedMeansLongest(deps, StartSet(deps), Turns(Initial(deps), deps, k));
    }
  }

  // ---- The program -----------------------------------------------------------------------

  method Tiers(deps: seq<Dependency>) returns (tiers: map<Name, nat>)
    requires NoReachableLoop(deps, StartSet(deps))
    ensures Tiered(deps, StartSet(deps), tiers)
  {
    ghost var starts := StartSet(deps);
    var queue;
    queue, tiers := Seeds(deps);
    InitialInv(deps);
    while |queue| > 0
      invariant Inv(deps, starts, State(queue, tiers))
      decreases Room(Visitable(deps, starts), tiers), |queue|
    {
      TurnKeepsInv(deps, starts, State(queue, tiers));
      TurnProgress(deps, starts, State(queue, tiers));
      queue, tiers := TakeTurn(deps, queue, tiers);
    }
    EndedMeansLongest(deps, starts, State(queue, tiers));
  }

  method TakeTurn(deps: seq<Dependency>, queue: seq<Name>, tiers: map<Name, nat>)
    returns (queue': seq<Name>, tiers': map<Name, nat>)
    requires queue != []
    ensures State(queue', tiers') == Turn(State(queue, tiers), deps)
  {
    var current := queue[0];
    queue', tiers' := queue[1..], tiers;
    var tier := if current in tiers then tiers[current] else 0;
    for i := 0 to |deps|
      invariant State(queue', tiers') == RelaxFirst(State(queue[1..], tiers), deps, i, current, tier)
    {
      var dep := deps[i];
      if dep.caller == current {
        if dep.callee !in tiers' || tiers'[dep.callee] <= tier {
          tiers' := tiers'[dep.callee := tier + 1];
          queue' := queue' + [dep.callee];
        }
      }
    }
  }

  method NamesInOrder(deps: seq<Dependency>) returns (names: seq<Name>)
    ensures names == NamesOf(deps)
  {
    names := [];
    for i := 0 to |deps|
      invariant names == NamesOf(deps[..i])
    {
      assert deps[..i + 1][..i] == deps[..i];
      names := AddName(AddName(names, deps[i].caller), deps[i].callee);
    }
    assert deps[..|deps|] == deps;
  }

  method SeedsAmong(names: seq<Name>, callees: set<Name>) returns (queue: seq<Name>, tiers: map<Name, nat>)
    ensures queue == StartsAmong(names, callees)
    ensures tiers == map x | x in queue :: 0
  {
    queue, tiers := [], map[];
    for i := 0 to |names|
      invariant queue == EntriesAmong(names[..i], callees)
      invariant tiers.Keys == set x | x in queue
      invariant forall x :: x in tiers ==> tiers[x] == 0
    {
      assert names[..i + 1][..i] == names[..i];
      if names[i] !in callees {
        tiers := tiers[names[i] := 0];
        queue := queue + [names[i]];
      }
    }
    assert names[..|names|] == names;
    if |queue| == 0 && |names| > 0 {
      tiers := tiers[names[0] := 0];
      queue := queue + [names[0]];
    }
  }

  method Seeds(deps: seq<Dependency>) returns (queue: seq<Name>, tiers: map<Name, nat>)
    ensures State(queue, tiers) == Initial(deps)
  {
    var names := NamesInOrder(deps);
    queue, tiers := SeedsAmong(names, Callees(deps));
  }

  // ---- A whole map without call loops ----------------------------------------------------

  ghost predicate Within(p: seq<Name>, all: set<Name>) { forall x :: x in p ==> x in all }

  /** With no loop anywhere, following callers backwards always ends at an entry point. */
  lemma {:induction false} WalkBack(deps: seq<Dependency>, p: seq<Name>, all: set<Name>)
    requires forall c :: !Loop(deps, c)
    requires IsPath(deps, p) && Within(p, all) && p[0] in NamesOf(deps)
    requires forall d :: d in deps ==> d.caller in all
    ensures Reachable(deps, StartSet(deps), p[|p| - 1])
    decreases |all| - |p|
  {
    if p[0] in Callees(deps) {
      var d :| d in deps && d.callee == p[0];
      var q := [d.caller] + p;
      forall i | 0 <= i < |q| - 1 ensures Dependency(q[i], q[i + 1]) in deps {
        if i == 0 {
          assert d == Dependency(q[0], q[1]);
        } else {
          assert Dependency(p[i - 1], p[i]) in deps;
        }
      }
      AnyPathIsShort(deps, q, all);
      NamesOfHas(deps, d);
      WalkBack(deps, q, all);
    } else {
      assert p[0] in EntriesAmong(NamesOf(deps), Callees(deps));
      assert StartPath(deps, StartSet(deps), p, p[|p| - 1]);
      assert Leads(deps, StartSet(deps), p[|p| - 1], |p| - 1);
    }
  }

  lemma AnyPathIsShort(deps: seq<Dependency>, p: seq<Name>, all: set<Name>)
    requires forall c :: !Loop(deps, c)
    requires IsPath(deps, p) && Within(p, all)
    ensures |p| <= |all|
  {
    forall i, j | 0 <= i < j < |p| ensures p[i] != p[j] {
      PrefixIsPath(deps, p, i, j + 1);
      assert !Loop(deps, p[i..j + 1]);
    }
    SimpleSize(p);
    Finite.SubsetSize((set x | x in p), all);
  }

  /** The layout's promise: in a map without call loops every arrow points strictly rightwards. */
  lemma EveryCallGoesRight(deps: seq<Dependency>, tiers: map<Name, nat>, d: Dependency)
    requires forall c :: !Loop(deps, c)
    requires Tiered(deps, StartSet(deps), tiers) && d in deps
    ensures TierOf(tiers, d.caller) < TierOf(tiers, d.callee)
  {
    NamesOfHas(deps, d);
    WalkBack(deps, [d.caller], set e | e in deps :: e.caller);
    assert TierExact(deps, StartSet(deps), tiers, d.caller);
    assert EdgeSettled(deps, State([], tiers), {}, d);
  }

  /** A call loop behind an entry point keeps the relaxation running for ever. */
  lemma LoopBehindEntryNeverEnds(deps: seq<Dependency>, entry: Name, c: seq<Name>, k: nat)
    requires Loop(deps, c) && Dependency(entry, c[0]) in deps && entry !in Callees(deps)
    ensures Turns(Initial(deps), deps, k).queue != []
  {
    EndsIffNoReachableLoop(deps);
    NamesOfHas(deps, Dependency(entry, c[0]));
    assert entry in EntriesAmong(NamesOf(deps), Callees(deps));
    assert StartPath(deps, StartSet(deps), [entry, c[0]], c[0]);
    assert Leads(deps, StartSet(deps), c[0], 1);
    assert Reachable(deps, StartSet(deps), c[0]);
  }
}
