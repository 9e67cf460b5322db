/** eBPF targets: comparing two sets and rendering one (internal/ebpf/supervisor.go, config.go). */
module Targets {

  import opened Sorting
  import opened Strings
  import Finite

  datatype Target = Target(pid: int, runtime: string, name: string, containerId: string, ports: seq<int>)

  /** Comparable renderings; wrapped so that they are compared whole. */
  datatype Key = Key(text: string)

  /** Go's `%v` of a slice of numbers. */
  function PortsText(ports: seq<int>): string { "[" + Join(' ', Decimals(ports)) + "]" }

  function TargetKey(t: Target): Key {
    Key(t.name + "|" + t.runtime + "|" + Decimal(t.pid) + "|" + PortsText(t.ports))
  }

  ghost predicate SameTarget(a: Target, b: Target) {
    a.name == b.name && a.runtime == b.runtime && a.pid == b.pid && a.ports == b.ports
  }

  lemma {:induction false} BarNotInPorts(ns: seq<string>)
    requires forall i :: 0 <= i < |ns| ==> '|' !in ns[i]
    ensures '|' !in Join(' ', ns)
  {
    if |ns| > 1 {
      BarNotInPorts(ns[1..]);
    }
  }

  lemma PortsTextInjective(a: seq<int>, b: seq<int>)
    requires PortsText(a) == PortsText(b)
    ensures a == b
  {
    var x, y := Join(' ', Decimals(a)), Join(' ', Decimals(b));
    assert PortsText(a)[1..|x| + 1] == x && PortsText(b)[1..|y| + 1] == y;
    DecimalsInjective(' ', a, b);
  }

  /** The key tells any two targets apart whose runtimes contain no bar; names may. */
  lemma KeyIdentifiesTarget(a: Target, b: Target)
    requires '|' !in a.runtime && '|' !in b.runtime
    ensures TargetKey(a) == TargetKey(b) <==> SameTarget(a, b)
  {
    if TargetKey(a) == TargetKey(b) {
      BarNotInPorts(Decimals(a.ports));
      BarNotInPorts(Decimals(b.ports));
      SplitLast('|', a.name + "|" + a.runtime + "|" + Decimal(a.pid), PortsText(a.ports),
                b.name + "|" + b.runtime + "|" + Decimal(b.pid), PortsText(b.ports));
      SplitLast('|', a.name + "|" + a.runtime, Decimal(a.pid), b.name + "|" + b.runtime, Decimal(b.pid));
      SplitLast('|', a.name, a.runtime, b.name, b.runtime);
      DecimalInjective(a.pid, b.pid);
      PortsTextInjective(a.ports, b.ports);
    }
  }

  /** A bar in a runtime makes different targets share a key. */
  lemma KeyAmbiguousWithBar(pid: int, ports: seq<int>)
    ensures TargetKey(Target(pid, "c", "a|b", "", ports)) == TargetKey(Target(pid, "b|c", "a", "", ports))
  {
    assert "a|b" + "|" + "c" == "a" + "|" + "b|c";
  }

  // ---- Comparing sets ---------------------------------------------------------------------

  ghost function Keys(ts: seq<Target>): seq<Key> { Map(TargetKey, ts) }

  /** What the comparison computes: as many, and each of `b` rendered as something of `a`. */
  ghost predicate SameTargets(a: seq<Target>, b: seq<Target>) {
    |a| == |b| && forall k :: k in Keys(b) ==> k in Keys(a)
  }

  ghost predicate Holds(index: set<Key>, keys: seq<Key>) { forall k :: k in index <==> k in keys }

  ghost predicate AllIn(keys: seq<Key>, index: set<Key>) { forall k :: k in keys ==> k in index }

  lemma KeysGrow(ts: seq<Target>, i: nat)
    requires i < |ts|
    ensures Keys(ts)[..i + 1] == Keys(ts)[..i] + [TargetKey(ts[i])]
  {
  }

  method KeyIndex(ts: seq<Target>) returns (index: set<Key>)
    ensures Holds(index, Keys(ts))
  {
    index := {};
    ghost var keys := Keys(ts);
    for i := 0 to |ts|
      invariant Holds(index, keys[..i])
    {
      KeysGrow(ts, i);
      index := index + {TargetKey(ts[i])};
    }
    assert keys[..|ts|] == keys;
  }

  method CompareTargets(a: seq<Target>, b: seq<Target>) returns (same: bool)
    ensures same <==> SameTargets(a, b)
  {
    if |a| != |b| {
      return false;
    }
    var index := KeyIndex(a);
    same := KeysFound(b, index);
    IndexDecides(a, b, index);
  }

  lemma IndexDecides(a: seq<Target>, b: seq<Target>, index: set<Key>)
    requires |a| == |b| && Holds(index, Keys(a))
    ensures AllIn(Keys(b), index) <==> SameTargets(a, b)
  {
  }

  method KeysFound(ts: seq<Target>, index: set<Key>) returns (all: bool)
    ensures all <==> AllIn(Keys(ts), index)
  {
    ghost var keys := Keys(ts);
    for i := 0 to |ts|
      invariant AllIn(keys[..i], index)
    {
      KeysGrow(ts, i);
      if TargetKey(ts[i]) !in index {
        assert keys[i] in keys;
        return false;
      }
    }
    assert keys[..|ts|] == keys;
    return true;
  }

  /** By the pigeonhole principle the one-sided test is exact for an offer without duplicates. */
  lemma ExactWithoutDuplicates(a: seq<Target>, b: seq<Target>)
    requires Distinct(Keys(b))
    ensures SameTargets(a, b) <==> multiset(Keys(a)) == multiset(Keys(b))
  {
    var ka, kb := Keys(a), Keys(b);
    var sa, sb := set k | k in ka, set k | k in kb;
    DistinctSize(ka);
    DistinctSize(kb);
    if SameTargets(a, b) {
      assert sb <= sa;
      Finite.SubsetSize(sb, sa);
      DistinctMultiset(ka, kb);
    }
    if multiset(ka) == multiset(kb) {
      SameElements(ka, kb);
    }
  }

  /** Where an offer repeats a key, the test takes it for a set with any other target in that place. */
  lemma SameTargetsMissesDuplicates(b: seq<Target>, i: nat, j: nat, other: Target)
    requires i < |b| && j < |b| && i != j && TargetKey(b[i]) == TargetKey(b[j])
    ensures SameTargets(b[j := other], b)
  {
    var a := b[j := other];
    forall k | k in Keys(b) ensures k in Keys(a) {
      var m :| 0 <= m < |b| && Keys(b)[m] == k;
      assert Keys(a)[if m == j then i else m] == k;
    }
  }

  ghost function LongestName(ts: seq<Target>): (n: nat)
    ensures forall i :: 0 <= i < |ts| ==> |ts[i].name| <= n
  {
    if ts == [] then 0
    else
      var n, last := LongestName(ts[..|ts| - 1]), |ts[|ts| - 1].name|;
      if last > n then last else n
  }

  /** A target that differs from all of them in what OBI is told. */
  lemma FreshTarget(ts: seq<Target>) returns (t: Target)
    ensures forall i :: 0 <= i < |ts| ==> t.name != ts[i].name && TargetKey(t) != TargetKey(ts[i])
  {
    var longest := LongestKey(Keys(ts));
    t := Target(0, "", seq(LongestName(ts) + longest + 1, _ => 'x'), "", []);
    assert |TargetKey(t).text| > longest;
    forall i | 0 <= i < |ts| ensures TargetKey(t) != TargetKey(ts[i]) {
      assert |Keys(ts)[i].text| <= longest;
    }
  }

  lemma {:induction false} LongestKey(keys: seq<Key>) returns (n: nat)
    ensures forall i :: 0 <= i < |keys| ==> |keys[i].text| <= n
  {
    n := 0;
    if keys != [] {
      n := LongestKey(keys[..|keys| - 1]);
      var last := |keys[|keys| - 1].text|;
      n := if last > n then last else n;
    }
  }

  /** The test is exact for an offer, against every stored set, if and only if the offer has no duplicates. */
  lemma SameTargetsIsExact(b: seq<Target>)
    ensures Distinct(Keys(b)) <==>
            forall a :: SameTargets(a, b) <==> multiset(Keys(a)) == multiset(Keys(b))
  {
    if Distinct(Keys(b)) {
      forall a ensures SameTargets(a, b) <==> multiset(Keys(a)) == multiset(Keys(b)) {
        ExactWithoutDuplicates(a, b);
      }
    } else {
      var i, j :| 0 <= i < j < |b| && Keys(b)[i] == Keys(b)[j];
      var other := FreshTarget(b);
      var a := b[j := other];
      SameTargetsMissesDuplicates(b, i, j, other);
      OtherKeys(b, j, other);
    }
  }

  lemma OtherKeys(b: seq<Target>, j: nat, other: Target)
    requires j < |b| && forall i :: 0 <= i < |b| ==> TargetKey(other) != TargetKey(b[i])
    ensures multiset(Keys(b[j := other])) != multiset(Keys(b))
  {
    var a := b[j := other];
    assert Keys(a)[j] == TargetKey(other);
    assert TargetKey(other) in multiset(Keys(a));
    assert TargetKey(other) !in Keys(b);
  }

  // ---- Rendering --------------------------------------------------------------------------

  datatype Rule = Rule(name: string, openPorts: string)

  function PortSelector(ports: seq<int>): string { Join(',', Decimals(ports)) }

  function RuleOf(t: Target): Rule { Rule(t.name, PortSelector(t.ports)) }

  function RulesOf(ts: seq<Target>): seq<Rule> { Map(RuleOf, ts) }

  predicate RuleBefore(a: Rule, b: Rule) { StringLess(a.name, b.name) }

  predicate TargetBefore(a: Target, b: Target) { StringLess(a.name, b.name) }

  lemma BeforeIsWeak()
    ensures WeakOrder(TargetBefore) && WeakOrder(RuleBefore)
  {
    StringLessIsTotal();
  }

  /** The configuration of a set: one rule a target, in the order of names. */
  ghost function Config(ts: seq<Target>): seq<Rule> { StableSort(RuleBefore, RulesOf(ts)) }

  ghost predicate BarFree(ts: seq<Target>) {
    forall i :: 0 <= i < |ts| ==> '|' !in ts[i].runtime
  }

  /** Targets that differ in their keys, of runtimes whose text has no bar: what a scan offers. */
  ghost predicate Different(ts: seq<Target>) { BarFree(ts) && Distinct(Keys(ts)) }

  ghost predicate DistinctNames(ts: seq<Target>) {
    forall i, j :: 0 <= i < j < |ts| ==> Name(ts[i].name) != Name(ts[j].name)
  }

  datatype Name = Name(text: string)

  lemma DistinctNamesAreDifferent(ts: seq<Target>)
    requires BarFree(ts) && DistinctNames(ts)
    ensures Different(ts)
  {
    forall i, j | 0 <= i < j < |ts| ensures Keys(ts)[i] != Keys(ts)[j] {
      assert Name(ts[i].name) != Name(ts[j].name);
      KeyIdentifiesTarget(ts[i], ts[j]);
    }
  }

  /** Any sorted list of the rules of differently named targets is the configuration. */
  lemma ConfigIsUnique(ts: seq<Target>, rules: seq<Rule>)
    requires DistinctNames(ts) && Sorted(RuleBefore, rules) && multiset(rules) == multiset(RulesOf(ts))
    ensures rules == Config(ts)
  {
    BeforeIsWeak();
    StableSortSorts(RuleBefore, RulesOf(ts));
    SameElements(rules, RulesOf(ts));
    forall x, y | x in rules && y in rules && x != y ensures RuleBefore(x, y) || RuleBefore(y, x) {
      var i :| 0 <= i < |ts| && RulesOf(ts)[i] == x;
      var j :| 0 <= j < |ts| && RulesOf(ts)[j] == y;
      assert Name(ts[i].name) != Name(ts[j].name);
      StringLessTrichotomy(x.name, y.name);
    }
    SortedUnique(RuleBefore, rules, Config(ts));
  }

  /** A set the supervisor takes for unchanged has the same rules, each as often. */
  lemma SameTargetsSameRules(a: seq<Target>, b: seq<Target>)
    requires BarFree(a) && Different(b) && SameTargets(a, b)
    ensures multiset(RulesOf(a)) == multiset(RulesOf(b))
  {
    ExactWithoutDuplicates(a, b);
    forall x, y | x in a && y in b && TargetKey(x) == TargetKey(y) ensures RuleOf(x) == RuleOf(y) {
      KeyIdentifiesTarget(x, y);
    }
    MapPermutation(TargetKey, RuleOf, a, b);
  }

  /** So with different names it renders the same configuration. */
  lemma SameTargetsSameConfig(a: seq<Target>, b: seq<Target>)
    requires BarFree(a) && BarFree(b) && DistinctNames(b) && SameTargets(a, b)
    ensures Config(a) == Config(b)
  {
    DistinctNamesAreDifferent(b);
    SameTargetsSameRules(a, b);
    BeforeIsWeak();
    StableSortSorts(RuleBefore, RulesOf(a));
    ConfigIsUnique(b, Config(a));
  }

  /** Renders a sorted copy.  For names that repeat, only the order of names is certain. */
  method RenderConfig(ts: seq<Target>) returns (rules: seq<Rule>)
    ensures Sorted(RuleBefore, rules) && multiset(rules) == multiset(RulesOf(ts))
    ensures DistinctNames(ts) ==> rules == Config(ts)
  {
    BeforeIsWeak();
    var sorted := SortSlice(TargetBefore, ts);
    rules := [];
    for i := 0 to |sorted|
      invariant rules == RulesOf(sorted[..i])
    {
      assert RulesOf(sorted[..i + 1]) == RulesOf(sorted[..i]) + [RuleOf(sorted[i])];
      rules := rules + [RuleOf(sorted[i])];
    }
    assert sorted[..|sorted|] == sorted;
    assert Map((t: Target) => t, sorted) == sorted && Map((t: Target) => t, ts) == ts;
    MapPermutation((t: Target) => t, RuleOf, sorted, ts);
    assert forall i, j :: 0 <= i < j < |rules| ==> RuleBefore(rules[j], rules[i]) == TargetBefore(sorted[j], sorted[i]);
    if DistinctNames(ts) {
      ConfigIsUnique(ts, rules);
    }
  }

  /** Different configurations mean different names or ports: ports can be read back from a rule. */
  lemma RuleShowsPorts(a: Target, b: Target)
    ensures RuleOf(a) == RuleOf(b) <==> a.name == b.name && a.ports == b.ports
  {
    if RuleOf(a) == RuleOf(b) {
      DecimalsInjective(',', a.ports, b.ports);
    }
  }

  /** A rule names its target and lists its ports in decimal, in their order, with commas in between. */
  lemma RuleListsPorts(t: Target)
    ensures RuleOf(t).name == t.name
    ensures if t.ports == [] then RuleOf(t).openPorts == ""
            else
              var shown := Split(',', RuleOf(t).openPorts);
              |shown| == |t.ports| && forall i :: 0 <= i < |shown| && t.ports[i] >= 0 ==> Reading(shown[i]) == t.ports[i]
  {
    if t.ports != [] {
      forall s | s in Decimals(t.ports) ensures ',' !in s {
        var i :| 0 <= i < |t.ports| && Decimals(t.ports)[i] == s;
      }
      JoinSplit(',', Decimals(t.ports));
      forall i | 0 <= i < |t.ports| && t.ports[i] >= 0 ensures Reading(Decimals(t.ports)[i]) == t.ports[i] {
        DigitsRead(t.ports[i]);
      }
    }
  }

  /** Rules come in ascending order of names. */
  lemma RulesAscend(rules: seq<Rule>, i: nat, j: nat)
    requires Sorted(RuleBefore, rules) && i < j < |rules|
    ensures StringLess(rules[i].name, rules[j].name) || rules[i].name == rules[j].name
  {
    assert !RuleBefore(rules[j], rules[i]);
    StringLessTrichotomy(rules[i].name, rules[j].name);
  }
}
