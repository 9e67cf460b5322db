/** `Diff` itself: internal/jvmdiag/classhistogram.go. */
module HistogramDiffing {

  import opened Sorting
  import opened ClassHistogram
  import opened Wrappers

  /** What is left of the earlier index after the later classes have used up their matches. */
  ghost predicate LeftOver(earlier: seq<ClassCount>, later: seq<ClassCount>, rest: map<Name, ClassCount>) {
    forall n :: if n in rest then n in Index(earlier) && !Names(later, n) && rest[n] == Index(earlier)[n]
                else n in Index(earlier) ==> Names(later, n)
  }

  method IndexOf(classes: seq<ClassCount>) returns (index: map<Name, ClassCount>)
    ensures index == Index(classes)
  {
    index := map[];
    for i := 0 to |classes|
      invariant index == Index(classes[..i])
    {
      assert classes[..i + 1][..i] == classes[..i];
      index := index[classes[i].name := classes[i]];
    }
    assert classes[..|classes|] == classes;
  }

  lemma NothingUsed(earlier: seq<ClassCount>)
    ensures LeftOver(earlier, [], Index(earlier))
  {
    assert forall n :: !Names([], n);
  }

  lemma NamedNow(front: seq<ClassCount>, c: ClassCount, n: Name)
    ensures Names(front + [c], n) <==> Names(front, n) || n == c.name
  {
    assert c in front + [c];
  }

  /** A match taken out is gone from what is left. */
  lemma UsedUp(earlier: seq<ClassCount>, front: seq<ClassCount>, c: ClassCount, before: map<Name, ClassCount>)
    requires LeftOver(earlier, front, before)
    ensures LeftOver(earlier, front + [c], before - {c.name})
  {
    forall n ensures Names(front + [c], n) <==> Names(front, n) || n == c.name {
      NamedNow(front, c, n);
    }
  }

  /** What is left answers for the whole earlier index, minus the names already met. */
  lemma OneMoreMatch(earlier: seq<ClassCount>, front: seq<ClassCount>, c: ClassCount, before: map<Name, ClassCount>)
    requires LeftOver(earlier, front, before)
    ensures Matched(Index(earlier), front + [c]) == Matched(Index(earlier), front) + [Versus(before, c)]
  {
    var all := front + [c];
    assert all[..|all| - 1] == front && all[|all| - 1] == c;
    assert Versus(before, c) == Versus(if Names(front, c.name) then map[] else Index(earlier), c);
  }

  /** The pass over the later classes, taking each match out of the index. */
  method MatchLater(ghost earlier: seq<ClassCount>, index: map<Name, ClassCount>, later: seq<ClassCount>)
    returns (deltas: seq<Delta>, before: map<Name, ClassCount>)
    requires index == Index(earlier)
    ensures deltas == Matched(index, later) && LeftOver(earlier, later, before)
  {
    deltas, before := [], index;
    NothingUsed(earlier);
    for i := 0 to |later|
      invariant deltas == Matched(index, later[..i]) && LeftOver(earlier, later[..i], before)
    {
      var c := later[i];
      assert later[..i + 1] == later[..i] + [c];
      OneMoreMatch(earlier, later[..i], c, before);
      UsedUp(earlier, later[..i], c, before);
      var prev := if c.name in before then before[c.name] else ClassCount(c.name, 0, 0);
      var delta := Delta(c.name, c.instances, c.bytes, c.instances - prev.instances, c.bytes - prev.bytes);
      assert delta == Versus(before, c);
      deltas := deltas + [delta];
      before := before - {c.name};
    }
    assert later[..|later|] == later;
  }

  /** The leftovers, in whatever order the map hands them out. */
  method AppendVanished(ghost earlier: seq<ClassCount>, ghost later: seq<ClassCount>, before: map<Name, ClassCount>)
    returns (deltas: seq<Delta>)
    requires LeftOver(earlier, later, before)
    ensures multiset(deltas) == multiset(Map(Vanished, Missing(earlier, Index(later))))
  {
    deltas := [];
    var todo := before.Keys;
    while todo != {}
      invariant todo <= before.Keys
      invariant Distinct(deltas)
      invariant forall d :: d in deltas <==> d.name in before && d.name !in todo && d == Vanished(before[d.name])
      invariant forall n :: n in before ==> before[n].name == n
    {
      var n :| n in todo;
      todo := todo - {n};
      deltas := deltas + [Vanished(before[n])];
    }
    VanishedListed(earlier, later, before, deltas);
  }

  lemma VanishedListed(earlier: seq<ClassCount>, later: seq<ClassCount>, before: map<Name, ClassCount>, deltas: seq<Delta>)
    requires LeftOver(earlier, later, before) && Distinct(deltas)
    requires forall d :: d in deltas <==> d.name in before && d == Vanished(before[d.name])
    ensures multiset(deltas) == multiset(Map(Vanished, Missing(earlier, Index(later))))
  {
    var missing := Missing(earlier, Index(later));
    var listed := Map(Vanished, missing);
    MissingDistinct(earlier, Index(later));
    assert Distinct(listed);
    forall d ensures d in listed <==> d in deltas {
      NamesOfIndex(later, d.name);
      if d in listed {
        var i :| 0 <= i < |missing| && listed[i] == d;
        MissingHas(earlier, Index(later), missing[i]);
      }
      if d in deltas {
        MissingHas(earlier, Index(later), before[d.name]);
        var i :| 0 <= i < |missing| && missing[i] == before[d.name];
        assert listed[i] == d;
      }
    }
    assert (set d | d in deltas) == (set d | d in listed);
    DistinctMultiset(deltas, listed);
  }

  ghost predicate SortedChanges(a: seq<ClassCount>, b: seq<ClassCount>, ds: seq<Delta>) {
    Sorted(GainOrder, ds) && multiset(ds) == multiset(Changes(a, b))
  }

  /** What `Diff` makes of its changes once sorted: ties aside, all of its result. */
  ghost predicate Reports(ds: seq<Delta>, limit: int, growth: seq<Delta>, shrink: seq<Delta>) {
    && growth == FirstOf(Gains(ds), limit)
    && exists losses :: Sorted(LossOrder, losses) && multiset(losses) == multiset(Losses(ds))
                        && shrink == FirstOf(losses, limit)
  }

  method SortChanges(a: seq<ClassCount>, b: seq<ClassCount>) returns (all: seq<Delta>)
    ensures SortedChanges(a, b, all)
  {
    var index := IndexOf(a);
    var deltas, before := MatchLater(a, index, b);
    var vanished := AppendVanished(a, b, before);
    deltas := deltas + vanished;
    OrdersAreWeak();
    all := SortSlice(GainOrder, deltas);
  }

  method Select(all: seq<Delta>, limit: int) returns (growth: seq<Delta>, shrink: seq<Delta>)
    ensures Reports(all, limit, growth, shrink)
  {
    growth, shrink := Split(all, limit);
    OrdersAreWeak();
    shrink := SortSlice(LossOrder, shrink);
    ghost var losses := shrink;
    if limit > 0 && |shrink| > limit {
      shrink := shrink[..limit];
    }
    assert shrink == FirstOf(losses, limit);
  }

  /** `None` when a histogram is missing.  The ghost result is the sorted list of all changes. */
  method Diff(earlier: Option<Histogram>, later: Option<Histogram>, limit: int)
    returns (diff: Option<HistogramDiff>, ghost sorted: seq<Delta>)
    ensures diff == None <==> earlier.None? || later.None?
    ensures diff.Some? ==>
              && SortedChanges(earlier.value.classes, later.value.classes, sorted)
              && Reports(sorted, limit, diff.value.growth, diff.value.shrink)
              && diff.value.totalBytesDelta == later.value.totalBytes - earlier.value.totalBytes
    ensures diff.Some? && DistinctClasses(earlier.value.classes) && DistinctClasses(later.value.classes) ==>
              && diff.value.growth == GrowthOf(earlier.value.classes, later.value.classes, limit)
              && diff.value.shrink == ShrinkOf(earlier.value.classes, later.value.classes, limit)
  {
    if earlier.None? || later.None? {
      return None, [];
    }
    var a, b := earlier.value.classes, later.value.classes;
    var all := SortChanges(a, b);
    sorted := all;
    var growth, shrink := Select(all, limit);
    if DistinctClasses(a) && DistinctClasses(b) {
      ReportIsCanonical(a, b, all, limit, growth, shrink);
    }
    diff := Some(HistogramDiff(growth, shrink, later.value.totalBytes - earlier.value.totalBytes));
  }

  lemma ReportIsCanonical(a: seq<ClassCount>, b: seq<ClassCount>, all: seq<Delta>, limit: int,
                          growth: seq<Delta>, shrink: seq<Delta>)
    requires DistinctClasses(a) && DistinctClasses(b)
    requires SortedChanges(a, b, all) && Reports(all, limit, growth, shrink)
    ensures growth == GrowthOf(a, b, limit) && shrink == ShrinkOf(a, b, limit)
  {
    var losses :| Sorted(LossOrder, losses) && multiset(losses) == multiset(Losses(all)) && shrink == FirstOf(losses, limit);
    SortedIsCanonical(a, b, all, losses, Losses(all));
  }

  /** Deals the sorted changes out, stopping growth at the limit. */
  method Split(all: seq<Delta>, limit: int) returns (growth: seq<Delta>, shrink: seq<Delta>)
    ensures growth == FirstOf(Gains(all), limit) && shrink == Losses(all)
  {
    growth, shrink := [], [];
    for i := 0 to |all|
      invariant growth == FirstOf(Gains(all[..i]), limit) && shrink == Losses(all[..i])
    {
      assert all[..i + 1][..i] == all[..i];
      var d := all[i];
      if d.bytesDelta > 0 && (limit <= 0 || |growth| < limit) {
        growth := growth + [d];
      } else if d.bytesDelta < 0 {
        shrink := shrink + [d];
      }
    }
    assert all[..|all|] == all;
  }

  /** For lists without repeated classes no freedom of sorting or of map order is left. */
  lemma SortedIsCanonical(a: seq<ClassCount>, b: seq<ClassCount>, all: seq<Delta>, shrink: seq<Delta>, losses: seq<Delta>)
    requires DistinctClasses(a) && DistinctClasses(b)
    requires Sorted(GainOrder, all) && multiset(all) == multiset(Changes(a, b))
    requires losses == Losses(all) && Sorted(LossOrder, shrink) && multiset(shrink) == multiset(losses)
    ensures Gains(all) == StableSort(GainOrder, Gains(Changes(a, b)))
    ensures shrink == StableSort(LossOrder, Losses(Changes(a, b)))
  {
    var ds := Changes(a, b);
    ChangesListed(a, b);
    OrdersAreWeak();
    GainsPermute(all, ds);
    GainsKeepOrder(GainOrder, all);
    GainsDistinct(ds);
    DistinctIsConnected(Gains(ds));
    DistinctIsConnected(Losses(ds));
    StableSortSorts(GainOrder, Gains(ds));
    StableSortSorts(LossOrder, Losses(ds));
    SameElements(StableSort(GainOrder, Gains(ds)), Gains(ds));
    SameElements(StableSort(LossOrder, Losses(ds)), Losses(ds));
    SortedUnique(GainOrder, StableSort(GainOrder, Gains(ds)), Gains(all));
    SortedUnique(LossOrder, StableSort(LossOrder, Losses(ds)), shrink);
  }

  // ---- What a limit keeps -----------------------------------------------------------------

  lemma FirstOfSorted(less: (Delta, Delta) -> bool, ds: seq<Delta>, limit: int, d: Delta)
    requires Sorted(less, ds)
    ensures Sorted(less, FirstOf(ds, limit)) && forall e :: e in FirstOf(ds, limit) ==> e in ds
    ensures d in ds && d !in FirstOf(ds, limit) ==>
              limit > 0 && |FirstOf(ds, limit)| == limit && forall e :: e in FirstOf(ds, limit) ==> !less(d, e)
  {
    if d in ds && d !in FirstOf(ds, limit) {
      var j :| 0 <= j < |ds| && ds[j] == d;
      assert forall i :: 0 <= i < |FirstOf(ds, limit)| ==> FirstOf(ds, limit)[i] == ds[i];
      assert j >= limit > 0;
    }
  }

  /** Growth lists classes that gained, heaviest first and by name among equals.  A class that gained is left
      out only by the limit, when that many are listed that gained as much or more. */
  lemma GrowthKeepsHeaviest(a: seq<ClassCount>, b: seq<ClassCount>, sorted: seq<Delta>, limit: int,
                            growth: seq<Delta>, shrink: seq<Delta>, d: Delta)
    requires SortedChanges(a, b, sorted) && Reports(sorted, limit, growth, shrink)
    ensures forall e :: e in growth ==> e in Changes(a, b) && e.bytesDelta > 0
    ensures forall i, j :: 0 <= i < j < |growth| ==>
                             || growth[i].bytesDelta > growth[j].bytesDelta
                             || (growth[i].bytesDelta == growth[j].bytesDelta
                                 && !StringLess(growth[j].name.text, growth[i].name.text))
    ensures d in Changes(a, b) && d.bytesDelta > 0 && d !in growth ==>
              && limit > 0 && |growth| == limit
              && forall e :: e in growth ==>
                   || e.bytesDelta > d.bytesDelta
                   || (e.bytesDelta == d.bytesDelta && !StringLess(d.name.text, e.name.text))
  {
    var gains := Gains(sorted);
    GainsKeepOrder(GainOrder, sorted);
    FirstOfSorted(GainOrder, gains, limit, d);
    SameElements(sorted, Changes(a, b));
    forall e ensures e in gains <==> e in Changes(a, b) && e.bytesDelta > 0 {
      GainsHas(sorted, e);
    }
    forall i, j | 0 <= i < j < |growth| ensures !GainOrder(growth[j], growth[i]) {
    }
  }

  /** And shrinkage the classes that lost, likewise. */
  lemma ShrinkKeepsHeaviest(a: seq<ClassCount>, b: seq<ClassCount>, sorted: seq<Delta>, limit: int,
                            growth: seq<Delta>, shrink: seq<Delta>, d: Delta)
    requires SortedChanges(a, b, sorted) && Reports(sorted, limit, growth, shrink)
    ensures forall e :: e in shrink ==> e in Changes(a, b) && e.bytesDelta < 0
    ensures forall i, j :: 0 <= i < j < |shrink| ==>
                             || shrink[i].bytesDelta < shrink[j].bytesDelta
                             || (shrink[i].bytesDelta == shrink[j].bytesDelta
                                 && !StringLess(shrink[j].name.text, shrink[i].name.text))
    ensures d in Changes(a, b) && d.bytesDelta < 0 && d !in shrink ==>
              && limit > 0 && |shrink| == limit
              && forall e :: e in shrink ==>
                   || e.bytesDelta < d.bytesDelta
                   || (e.bytesDelta == d.bytesDelta && !StringLess(d.name.text, e.name.text))
  {
    var losses :| Sorted(LossOrder, losses) && multiset(losses) == multiset(Losses(sorted))
                  && shrink == FirstOf(losses, limit);
    FirstOfSorted(LossOrder, losses, limit, d);
    SameElements(losses, Losses(sorted));
    SameElements(sorted, Changes(a, b));
    forall e ensures e in losses <==> e in Changes(a, b) && e.bytesDelta < 0 {
      GainsHas(sorted, e);
    }
    forall i, j | 0 <= i < j < |shrink| ensures !LossOrder(shrink[j], shrink[i]) {
    }
  }
}
