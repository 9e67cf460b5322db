/** Comparing two class histograms of one JVM: internal/jvmdiag/classhistogram.go. */
module ClassHistogram {

  import opened Sorting

  datatype Name = Name(text: string)
  datatype ClassCount = ClassCount(name: Name, instances: int, bytes: int)
  /** `totalBytes` is the JVM's own total. */
  datatype Histogram = Histogram(classes: seq<ClassCount>, totalBytes: int)

  datatype Delta = Delta(name: Name, instances: int, bytes: int, instancesDelta: int, bytesDelta: int)

  datatype HistogramDiff = HistogramDiff(growth: seq<Delta>, shrink: seq<Delta>, totalBytesDelta: int)

  /** Classes by name; the last of a name wins. */
  function Index(classes: seq<ClassCount>): (index: map<Name, ClassCount>)
    ensures forall n :: n in index ==> index[n].name == n
  {
    if classes == [] then map[]
    else Index(classes[..|classes| - 1])[classes[|classes| - 1].name := classes[|classes| - 1]]
  }

  ghost predicate DistinctClasses(classes: seq<ClassCount>) {
    forall i, j :: 0 <= i < j < |classes| ==> classes[i].name != classes[j].name
  }

  lemma {:induction false} IndexOfDistinct(classes: seq<ClassCount>)
    requires DistinctClasses(classes)
    ensures forall c :: c in classes ==> c.name in Index(classes) && Index(classes)[c.name] == c
    ensures forall n :: n in Index(classes) ==> Index(classes)[n] in classes && Index(classes)[n].name == n
  {
    if classes != [] {
      var front, last := classes[..|classes| - 1], classes[|classes| - 1];
      assert classes == front + [last];
      IndexOfDistinct(front);
    }
  }

  /** Where a list repeats a class its last count is the one compared with. */
  lemma {:induction false} LastCountWins(classes: seq<ClassCount>, c: ClassCount, more: seq<ClassCount>)
    requires forall x :: x in more ==> x.name != c.name
    ensures c.name in Index(classes + [c] + more) && Index(classes + [c] + more)[c.name] == c
  {
    var all := classes + [c] + more;
    if more == [] {
      assert all[..|all| - 1] == classes && all[|all| - 1] == c;
    } else {
      var front := more[..|more| - 1];
      assert more == front + [more[|more| - 1]];
      assert all[..|all| - 1] == classes + [c] + front && all[|all| - 1] == more[|more| - 1];
      LastCountWins(classes, c, front);
    }
  }

  /** The change of one class between two indexes; a class absent from one side counts zero there. */
  function Change(before: map<Name, ClassCount>, after: map<Name, ClassCount>, n: Name): Delta {
    var b := if n in before then before[n] else ClassCount(n, 0, 0);
    var a := if n in after then after[n] else ClassCount(n, 0, 0);
    Delta(n, a.instances, a.bytes, a.instances - b.instances, a.bytes - b.bytes)
  }

  ghost predicate DistinctDeltas(ds: seq<Delta>) {
    forall i, j :: 0 <= i < j < |ds| ==> ds[i].name != ds[j].name
  }

  ghost predicate IsChange(before: map<Name, ClassCount>, after: map<Name, ClassCount>, names: set<Name>, d: Delta) {
    d.name in names && d == Change(before, after, d.name)
  }

  /** `ds` lists the change of each of the names, once, in some order. */
  ghost predicate ListsChanges(before: map<Name, ClassCount>, after: map<Name, ClassCount>, names: set<Name>,
                               ds: seq<Delta>)
  {
    && DistinctDeltas(ds)
    && (forall d :: d in ds ==> IsChange(before, after, names, d))
    && (forall n :: n in names ==> Change(before, after, n) in ds)
  }

  // ---- Orders -----------------------------------------------------------------------------

  /** Heaviest gain first, then by name. */
  predicate GainOrder(a: Delta, b: Delta) {
    a.bytesDelta > b.bytesDelta || (a.bytesDelta == b.bytesDelta && StringLess(a.name.text, b.name.text))
  }

  /** Heaviest loss first, then by name. */
  predicate LossOrder(a: Delta, b: Delta) {
    a.bytesDelta < b.bytesDelta || (a.bytesDelta == b.bytesDelta && StringLess(a.name.text, b.name.text))
  }

  lemma OrdersAreWeak()
    ensures WeakOrder(GainOrder) && WeakOrder(LossOrder)
  {
    StringLessIsTotal();
  }

  lemma DistinctIsConnected(ds: seq<Delta>)
    requires DistinctDeltas(ds)
    ensures ConnectedOn(GainOrder, ds) && ConnectedOn(LossOrder, ds)
  {
    forall x, y | x in ds && y in ds && x != y
      ensures GainOrder(x, y) || GainOrder(y, x)
      ensures LossOrder(x, y) || LossOrder(y, x)
    {
      var i :| 0 <= i < |ds| && ds[i] == x;
      var j :| 0 <= j < |ds| && ds[j] == y;
      StringLessTrichotomy(x.name.text, y.name.text);
    }
  }

  // ---- Gains and losses -------------------------------------------------------------------

  function Gains(ds: seq<Delta>): seq<Delta> {
    if ds == [] then []
    else if ds[|ds| - 1].bytesDelta > 0 then Gains(ds[..|ds| - 1]) + [ds[|ds| - 1]] else Gains(ds[..|ds| - 1])
  }

  function Losses(ds: seq<Delta>): seq<Delta> {
    if ds == [] then []
    else if ds[|ds| - 1].bytesDelta < 0 then Losses(ds[..|ds| - 1]) + [ds[|ds| - 1]] else Losses(ds[..|ds| - 1])
  }

  function FirstOf(ds: seq<Delta>, limit: int): seq<Delta> {
    if limit > 0 && |ds| > limit then ds[..limit] else ds
  }

  lemma {:induction false} GainsCount(ds: seq<Delta>, d: Delta)
    ensures multiset(Gains(ds))[d] == if d.bytesDelta > 0 then multiset(ds)[d] else 0
    ensures multiset(Losses(ds))[d] == if d.bytesDelta < 0 then multiset(ds)[d] else 0
  {
    if ds != [] {
      assert ds == ds[..|ds| - 1] + [ds[|ds| - 1]];
      GainsCount(ds[..|ds| - 1], d);
    }
  }

  lemma GainsPermute(x: seq<Delta>, y: seq<Delta>)
    requires multiset(x) == multiset(y)
    ensures multiset(Gains(x)) == multiset(Gains(y)) && multiset(Losses(x)) == multiset(Losses(y))
  {
    forall d
      ensures multiset(Gains(x))[d] == multiset(Gains(y))[d]
      ensures multiset(Losses(x))[d] == multiset(Losses(y))[d]
    {
      GainsCount(x, d);
      GainsCount(y, d);
    }
  }

  lemma GainsHas(ds: seq<Delta>, d: Delta)
    ensures d in Gains(ds) <==> d in ds && d.bytesDelta > 0
    ensures d in Losses(ds) <==> d in ds && d.bytesDelta < 0
  {
    GainsCount(ds, d);
    assert d in Gains(ds) <==> multiset(Gains(ds))[d] > 0;
    assert d in Losses(ds) <==> multiset(Losses(ds))[d] > 0;
    assert d in ds <==> multiset(ds)[d] > 0;
  }

  lemma {:induction false} GainsKeepOrder(less: (Delta, Delta) -> bool, ds: seq<Delta>)
    requires Sorted(less, ds)
    ensures Sorted(less, Gains(ds)) && Sorted(less, Losses(ds))
  {
    if ds != [] {
      var front, last := ds[..|ds| - 1], ds[|ds| - 1];
      GainsKeepOrder(less, front);
      forall d | d in Gains(front) || d in Losses(front) ensures !less(last, d) {
        GainsHas(front, d);
        var i :| 0 <= i < |front| && front[i] == d;
        assert ds[i] == d;
      }
    }
  }

  lemma {:induction false} GainsDistinct(ds: seq<Delta>)
    requires DistinctDeltas(ds)
    ensures DistinctDeltas(Gains(ds)) && DistinctDeltas(Losses(ds))
  {
    if ds != [] {
      var front, last := ds[..|ds| - 1], ds[|ds| - 1];
      GainsDistinct(front);
      forall d | d in Gains(front) || d in Losses(front) ensures d.name != last.name {
        GainsHas(front, d);
        var i :| 0 <= i < |front| && front[i] == d;
        assert ds[i] == d;
      }
    }
  }

  // ---- The comparison as a function -------------------------------------------------------

  predicate Names(classes: seq<ClassCount>, n: Name) { exists c :: c in classes && c.name == n }

  function Versus(before: map<Name, ClassCount>, c: ClassCount): Delta {
    var prev := if c.name in before then before[c.name] else ClassCount(c.name, 0, 0);
    Delta(c.name, c.instances, c.bytes, c.instances - prev.instances, c.bytes - prev.bytes)
  }

  /** The later classes against the earlier ones.  A match is used up: if a class is listed again,
      it is compared with nothing. */
  function Matched(before: map<Name, ClassCount>, later: seq<ClassCount>): (ds: seq<Delta>)
    ensures |ds| == |later|
  {
    if later == [] then []
    else
      var front, last := later[..|later| - 1], later[|later| - 1];
      Matched(before, front) + [Versus(if Names(front, last.name) then map[] else before, last)]
  }

  /** The classes not in an index, the last of each name. */
  function Missing(classes: seq<ClassCount>, index: map<Name, ClassCount>): seq<ClassCount> {
    if classes == [] then []
    else
      var front, last := classes[..|classes| - 1], classes[|classes| - 1];
      if last.name in index then Missing(front, index) else Missing(front, index[last.name := last]) + [last]
  }

  function Vanished(c: ClassCount): Delta { Delta(c.name, 0, 0, -c.instances, -c.bytes) }

  /** Every class of either side, in one canonical order. */
  function Changes(earlier: seq<ClassCount>, later: seq<ClassCount>): seq<Delta> {
    Matched(Index(earlier), later) + Map(Vanished, Missing(earlier, Index(later)))
  }

  ghost function GrowthOf(earlier: seq<ClassCount>, later: seq<ClassCount>, limit: int): seq<Delta> {
    FirstOf(StableSort(GainOrder, Gains(Changes(earlier, later))), limit)
  }

  ghost function ShrinkOf(earlier: seq<ClassCount>, later: seq<ClassCount>, limit: int): seq<Delta> {
    FirstOf(StableSort(LossOrder, Losses(Changes(earlier, later))), limit)
  }

  lemma {:induction false} MissingHas(classes: seq<ClassCount>, index: map<Name, ClassCount>, c: ClassCount)
    ensures c in Missing(classes, index) <==>
            c.name !in index && c.name in Index(classes) && Index(classes)[c.name] == c
  {
    if classes != [] {
      var front, last := classes[..|classes| - 1], classes[|classes| - 1];
      MissingHas(front, index, c);
      MissingHas(front, index[last.name := last], c);
    }
  }

  lemma {:induction false} MissingDistinct(classes: seq<ClassCount>, index: map<Name, ClassCount>)
    ensures DistinctClasses(Missing(classes, index))
  {
    if classes != [] {
      var front, last := classes[..|classes| - 1], classes[|classes| - 1];
      var more := index[last.name := last];
      MissingDistinct(front, index);
      MissingDistinct(front, more);
      forall c | c in Missing(front, more) ensures c.name != last.name {
        MissingHas(front, more, c);
      }
    }
  }

  lemma {:induction false} MatchedOfDistinct(before: map<Name, ClassCount>, later: seq<ClassCount>)
    requires DistinctClasses(later)
    ensures forall i :: 0 <= i < |later| ==> Matched(before, later)[i] == Versus(before, later[i])
  {
    if later != [] {
      var front, last := later[..|later| - 1], later[|later| - 1];
      MatchedOfDistinct(before, front);
      assert !Names(front, last.name);
    }
  }

  ghost function AllNames(before: map<Name, ClassCount>, after: map<Name, ClassCount>): set<Name> {
    before.Keys + after.Keys
  }

  lemma ChangesListed(earlier: seq<ClassCount>, later: seq<ClassCount>)
    requires DistinctClasses(earlier) && DistinctClasses(later)
    ensures ListsChanges(Index(earlier), Index(later), AllNames(Index(earlier), Index(later)), Changes(earlier, later))
  {
    var before, after := Index(earlier), Index(later);
    var ds := Changes(earlier, later);
    forall i | 0 <= i < |ds| ensures IsChange(before, after, AllNames(before, after), ds[i]) {
      ChangeAt(earlier, later, i);
    }
    ChangesDistinct(earlier, later);
    forall n | n in AllNames(before, after) ensures Change(before, after, n) in ds {
      ChangeFound(earlier, later, n);
    }
  }

  /** The classes gone are those of the earlier list that the later one does not have. */
  lemma GoneAre(earlier: seq<ClassCount>, later: seq<ClassCount>, c: ClassCount)
    requires DistinctClasses(earlier)
    ensures c in Missing(earlier, Index(later)) <==> c in earlier && c.name !in Index(later)
  {
    MissingHas(earlier, Index(later), c);
    IndexOfDistinct(earlier);
  }

  lemma ChangeAt(earlier: seq<ClassCount>, later: seq<ClassCount>, i: nat)
    requires DistinctClasses(earlier) && DistinctClasses(later) && i < |Changes(earlier, later)|
    ensures IsChange(Index(earlier), Index(later), AllNames(Index(earlier), Index(later)), Changes(earlier, later)[i])
  {
    IndexOfDistinct(earlier);
    IndexOfDistinct(later);
    if i < |later| {
      MatchedOfDistinct(Index(earlier), later);
      assert later[i] in later;
    } else {
      var c := Missing(earlier, Index(later))[i - |later|];
      assert c in Missing(earlier, Index(later));
      GoneAre(earlier, later, c);
    }
  }

  lemma ChangesDistinct(earlier: seq<ClassCount>, later: seq<ClassCount>)
    requires DistinctClasses(earlier) && DistinctClasses(later)
    ensures DistinctDeltas(Changes(earlier, later))
  {
    var gone, ds := Missing(earlier, Index(later)), Changes(earlier, later);
    MatchedOfDistinct(Index(earlier), later);
    MissingDistinct(earlier, Index(later));
    IndexOfDistinct(later);
    forall i, j | 0 <= i < j < |ds| ensures ds[i].name != ds[j].name {
      if i < |later| <= j {
        assert later[i] in later && gone[j - |later|] in gone;
        GoneAre(earlier, later, gone[j - |later|]);
      }
    }
  }

  lemma ChangeFound(earlier: seq<ClassCount>, later: seq<ClassCount>, n: Name)
    requires DistinctClasses(earlier) && DistinctClasses(later) && n in AllNames(Index(earlier), Index(later))
    ensures Change(Index(earlier), Index(later), n) in Changes(earlier, later)
  {
    if n in Index(later) {
      LaterChangeFound(earlier, later, n);
    } else {
      GoneChangeFound(earlier, later, n);
    }
  }

  lemma LaterChangeFound(earlier: seq<ClassCount>, later: seq<ClassCount>, n: Name)
    requires DistinctClasses(later) && n in Index(later)
    ensures Change(Index(earlier), Index(later), n) in Changes(earlier, later)
  {
    IndexOfDistinct(later);
    var i :| 0 <= i < |later| && later[i] == Index(later)[n];
    MatchedOfDistinct(Index(earlier), later);
    assert Changes(earlier, later)[i] == Change(Index(earlier), Index(later), n);
  }

  lemma InSecondPart(a: seq<Delta>, b: seq<Delta>, i: nat)
    requires i < |b|
    ensures b[i] in a + b
  {
    assert (a + b)[|a| + i] == b[i];
  }

  lemma GoneChangeFound(earlier: seq<ClassCount>, later: seq<ClassCount>, n: Name)
    requires DistinctClasses(earlier) && n in Index(earlier) && n !in Index(later)
    ensures Change(Index(earlier), Index(later), n) in Changes(earlier, later)
  {
    var before, after := Index(earlier), Index(later);
    var gone := Missing(earlier, after);
    IndexOfDistinct(earlier);
    GoneAre(earlier, later, before[n]);
    var i :| 0 <= i < |gone| && gone[i] == before[n];
    assert Vanished(before[n]) == Change(before, after, n);
    assert Map(Vanished, gone)[i] == Vanished(before[n]);
    InSecondPart(Matched(before, later), Map(Vanished, gone), i);
  }

  /** What a change says: what the later side has of the class, and how much that is more than the earlier
      side has, where a class one side lacks counts as nothing there. */
  lemma ChangesSay(earlier: seq<ClassCount>, later: seq<ClassCount>, c: ClassCount, e: ClassCount)
    requires DistinctClasses(earlier) && DistinctClasses(later) && c.name == e.name
    ensures c in later && e in earlier ==>
              Delta(c.name, c.instances, c.bytes, c.instances - e.instances, c.bytes - e.bytes) in Changes(earlier, later)
    ensures c in later && (forall x :: x in earlier ==> x.name != c.name) ==>
              Delta(c.name, c.instances, c.bytes, c.instances, c.bytes) in Changes(earlier, later)
    ensures e in earlier && (forall x :: x in later ==> x.name != e.name) ==>
              Delta(e.name, 0, 0, -e.instances, -e.bytes) in Changes(earlier, later)
  {
    IndexOfDistinct(earlier);
    IndexOfDistinct(later);
    if c in later || e in earlier {
      ChangeFound(earlier, later, c.name);
    }
  }

  // ---- Antisymmetry -----------------------------------------------------------------------

  ghost function Mirror(before: map<Name, ClassCount>, after: map<Name, ClassCount>): Delta -> Delta {
    (d: Delta) => Change(before, after, d.name)
  }

  /** The gains one way are the losses the other way, seen in the mirror. */
  lemma MirroredLosses(before: map<Name, ClassCount>, after: map<Name, ClassCount>, names: set<Name>,
                       x: seq<Delta>, y: seq<Delta>)
    requires ListsChanges(before, after, names, x) && ListsChanges(after, before, names, y)
    ensures multiset(Map(Mirror(before, after), Losses(y))) == multiset(Gains(x))
  {
    var m, gains, losses := Mirror(before, after), Gains(x), Losses(y);
    GainsDistinct(x);
    GainsDistinct(y);
    var mirrored := Map(m, losses);
    assert Distinct(gains);
    assert Distinct(mirrored);
    forall d ensures d in mirrored <==> d in gains {
      GainsHas(x, d);
      GainsHas(y, Change(after, before, d.name));
      if d in gains {
        assert Change(after, before, d.name) in losses;
        var i :| 0 <= i < |losses| && losses[i] == Change(after, before, d.name);
        assert mirrored[i] == d;
      }
      if d in mirrored {
        var i :| 0 <= i < |mirrored| && mirrored[i] == d;
        GainsHas(y, losses[i]);
        assert IsChange(after, before, names, losses[i]);
      }
    }
    assert (set d | d in mirrored) == (set d | d in gains);
    DistinctMultiset(mirrored, gains);
  }

  lemma MirrorKeepsOrder(before: map<Name, ClassCount>, after: map<Name, ClassCount>, names: set<Name>, ds: seq<Delta>)
    requires Sorted(LossOrder, ds) && forall d :: d in ds ==> IsChange(after, before, names, d)
    ensures Sorted(GainOrder, Map(Mirror(before, after), ds))
  {
    var ms := Map(Mirror(before, after), ds);
    forall i, j | 0 <= i < j < |ms| ensures !GainOrder(ms[j], ms[i]) {
      assert ds[i] in ds && ds[j] in ds && !LossOrder(ds[j], ds[i]);
    }
  }

  lemma SortedMirror(earlier: seq<ClassCount>, later: seq<ClassCount>)
    requires DistinctClasses(earlier) && DistinctClasses(later)
    ensures StableSort(GainOrder, Gains(Changes(earlier, later))) ==
            Map(Mirror(Index(earlier), Index(later)), StableSort(LossOrder, Losses(Changes(later, earlier))))
  {
    var before, after := Index(earlier), Index(later);
    var x, y, names := Changes(earlier, later), Changes(later, earlier), AllNames(before, after);
    ChangesListed(earlier, later);
    ChangesListed(later, earlier);
    assert AllNames(after, before) == names;
    var gains, losses := StableSort(GainOrder, Gains(x)), StableSort(LossOrder, Losses(y));
    MirroredLosses(before, after, names, x, y);
    MirrorOfSorted(before, after, y, losses);
    OrdersAreWeak();
    StableSortSorts(GainOrder, Gains(x));
    StableSortSorts(LossOrder, Losses(y));
    SameElements(losses, Losses(y));
    forall d | d in losses ensures IsChange(after, before, names, d) {
      GainsHas(y, d);
    }
    MirrorKeepsOrder(before, after, names, losses);
    SameElements(gains, Gains(x));
    GainsDistinct(x);
    DistinctIsConnected(Gains(x));
    SortedUnique(GainOrder, gains, Map(Mirror(before, after), losses));
  }

  /** Sorting first makes no difference to what is seen in the mirror. */
  lemma MirrorOfSorted(before: map<Name, ClassCount>, after: map<Name, ClassCount>, ds: seq<Delta>, losses: seq<Delta>)
    requires multiset(losses) == multiset(Losses(ds))
    ensures multiset(Map(Mirror(before, after), losses)) == multiset(Map(Mirror(before, after), Losses(ds)))
  {
    var id := (d: Delta) => d;
    assert Map(id, losses) == losses && Map(id, Losses(ds)) == Losses(ds);
    MapPermutation(id, Mirror(before, after), losses, Losses(ds));
  }

  /** The same classes in the same order, every change negated. */
  ghost predicate Mirrored(growth: seq<Delta>, shrink: seq<Delta>) {
    && |growth| == |shrink|
    && forall i :: 0 <= i < |growth| ==>
         && growth[i].name == shrink[i].name
         && growth[i].bytesDelta == -shrink[i].bytesDelta
         && growth[i].instancesDelta == -shrink[i].instancesDelta
  }

  /** At every limit: what grew from one histogram to the other is what shrank the other way round,
      the same classes in the same order, every change negated. */
  lemma GrowthMirrorsShrink(earlier: seq<ClassCount>, later: seq<ClassCount>, limit: int)
    requires DistinctClasses(earlier) && DistinctClasses(later)
    ensures Mirrored(GrowthOf(earlier, later, limit), ShrinkOf(later, earlier, limit))
  {
    var losses := StableSort(LossOrder, Losses(Changes(later, earlier)));
    SortedMirror(earlier, later);
    ChangesListed(later, earlier);
    SameElements(losses, Losses(Changes(later, earlier)));
    var shrink := ShrinkOf(later, earlier, limit);
    forall i | 0 <= i < |shrink| ensures shrink[i] == Change(Index(later), Index(earlier), shrink[i].name) {
      assert losses[i] in losses;
      GainsHas(Changes(later, earlier), losses[i]);
    }
  }

  ghost predicate Symmetric(a: seq<ClassCount>, b: seq<ClassCount>) {
    forall limit ::
      && Mirrored(GrowthOf(a, b, limit), ShrinkOf(b, a, limit))
      && Mirrored(GrowthOf(b, a, limit), ShrinkOf(a, b, limit))
  }

  /** Every class takes some room, as a JVM lists them. */
  ghost predicate Weighty(classes: seq<ClassCount>) {
    forall i :: 0 <= i < |classes| ==> classes[i].bytes > 0
  }

  /** Every class of a list is missing somewhere only if none is listed twice. */
  lemma {:induction false} MissingAll(classes: seq<ClassCount>, index: map<Name, ClassCount>)
    ensures |Missing(classes, index)| <= |classes|
    ensures |Missing(classes, index)| == |classes| ==>
              DistinctClasses(classes) && forall i :: 0 <= i < |classes| ==> classes[i].name !in index
  {
    if classes != [] {
      var front, last := classes[..|classes| - 1], classes[|classes| - 1];
      MissingAll(front, index);
      var more := index[last.name := last];
      MissingAll(front, more);
      assert last.name in more;
      if last.name !in index && |Missing(front, more)| == |front| {
        forall i | 0 <= i < |front| ensures classes[i].name != last.name && classes[i].name !in index {
          assert front[i] == classes[i] && front[i].name !in more;
        }
        assert forall i, j :: 0 <= i < j < |front| ==> front[i].name != front[j].name;
      }
    }
  }

  lemma {:induction false} MissingWeighty(classes: seq<ClassCount>, index: map<Name, ClassCount>)
    requires Weighty(classes)
    ensures Weighty(Missing(classes, index))
  {
    if classes != [] {
      var front, last := classes[..|classes| - 1], classes[|classes| - 1];
      assert last.bytes > 0;
      MissingWeighty(front, index);
      MissingWeighty(front, index[last.name := last]);
    }
  }

  lemma {:induction false} AllGain(ds: seq<Delta>)
    requires forall i :: 0 <= i < |ds| ==> ds[i].bytesDelta > 0
    ensures Gains(ds) == ds
  {
    if ds != [] {
      AllGain(ds[..|ds| - 1]);
    }
  }

  lemma {:induction false} AllLose(ds: seq<Delta>)
    requires forall i :: 0 <= i < |ds| ==> ds[i].bytesDelta < 0
    ensures Losses(ds) == ds
  {
    if ds != [] {
      AllLose(ds[..|ds| - 1]);
    }
  }

  lemma {:induction false} NewClassesGain(classes: seq<ClassCount>)
    requires Weighty(classes)
    ensures forall i :: 0 <= i < |classes| ==> Matched(map[], classes)[i].bytesDelta > 0
  {
    if classes != [] {
      NewClassesGain(classes[..|classes| - 1]);
    }
  }

  /** Against the empty dump every listing grows, but a class shrinks once only. */
  lemma AgainstNothing(a: seq<ClassCount>)
    requires Weighty(a)
    ensures |GrowthOf([], a, 0)| == |a| && |ShrinkOf(a, [], 0)| == |Missing(a, map[])|
  {
    var up, down := Changes([], a), Changes(a, []);
    assert up == Matched(map[], a) && down == Map(Vanished, Missing(a, map[]));
    NewClassesGain(a);
    AllGain(up);
    MissingWeighty(a, map[]);
    AllLose(down);
    SameElements(StableSort(GainOrder, Gains(up)), Gains(up));
    SameElements(StableSort(LossOrder, Losses(down)), Losses(down));
  }

  /** Comparing with nothing and back again shows a repeated class, and only that. */
  lemma RepeatShowsAgainstNothing(a: seq<ClassCount>)
    requires Weighty(a)
    ensures DistinctClasses(a) <==> |GrowthOf([], a, 0)| == |ShrinkOf(a, [], 0)|
  {
    AgainstNothing(a);
    MissingAll(a, map[]);
    if DistinctClasses(a) {
      GrowthMirrorsShrink([], a, 0);
    }
  }

  /** The comparison is symmetric against every list without repetitions, at every limit, if and only if
      the list itself repeats no class. */
  lemma SymmetricIffDistinct(a: seq<ClassCount>)
    requires Weighty(a)
    ensures DistinctClasses(a) <==> forall b :: DistinctClasses(b) ==> Symmetric(a, b)
  {
    if DistinctClasses(a) {
      forall b | DistinctClasses(b) ensures Symmetric(a, b) {
        forall limit
          ensures Mirrored(GrowthOf(a, b, limit), ShrinkOf(b, a, limit))
          ensures Mirrored(GrowthOf(b, a, limit), ShrinkOf(a, b, limit))
        {
          GrowthMirrorsShrink(a, b, limit);
          GrowthMirrorsShrink(b, a, limit);
        }
      }
    } else {
      RepeatShowsAgainstNothing(a);
      assert !Mirrored(GrowthOf([], a, 0), ShrinkOf(a, [], 0));
      assert DistinctClasses([]) && !Symmetric(a, []);
    }
  }

  /** Listing a class twice, as two class loaders make a JVM do: 5 bytes against 10 and 20. */
  lemma DuplicateBreaksMirror(n: Name)
    ensures var one, two := [ClassCount(n, 1, 5)], [ClassCount(n, 1, 10), ClassCount(n, 1, 20)];
            |GrowthOf(one, two, 0)| == 2 && |ShrinkOf(two, one, 0)| == 1 && !Symmetric(two, one)
  {
    OneAgainstTwo(ClassCount(n, 1, 5), ClassCount(n, 1, 10), ClassCount(n, 1, 20));
    TwoAgainstOne(ClassCount(n, 1, 5), ClassCount(n, 1, 10), ClassCount(n, 1, 20));
    var one, two := [ClassCount(n, 1, 5)], [ClassCount(n, 1, 10), ClassCount(n, 1, 20)];
    assert !Mirrored(GrowthOf(one, two, 0), ShrinkOf(two, one, 0));
  }

  lemma OneAgainstTwo(c: ClassCount, d: ClassCount, e: ClassCount)
    requires c.name == d.name == e.name && 0 < c.bytes < d.bytes && 0 < e.bytes
    ensures |GrowthOf([c], [d, e], 0)| == 2
  {
    var ds := [Versus(Index([c]), d), Versus(map[], e)];
    IndexOfOne(c);
    MatchedOfTwo(Index([c]), d, e);
    IndexOfTwo(d, e);
    NoneMissing([c], Index([d, e]));
    assert Changes([c], [d, e]) == ds;
    AllGain(ds);
    SameElements(StableSort(GainOrder, ds), ds);
  }

  lemma TwoAgainstOne(c: ClassCount, d: ClassCount, e: ClassCount)
    requires c.name == d.name == e.name && c.bytes < e.bytes
    ensures |ShrinkOf([d, e], [c], 0)| == 1
  {
    var ds := [Versus(Index([d, e]), c)];
    IndexOfOne(c);
    IndexOfTwo(d, e);
    MatchedOfOne(Index([d, e]), c);
    NoneMissing([d, e], Index([c]));
    assert Changes([d, e], [c]) == ds;
    AllLose(ds);
    SameElements(StableSort(LossOrder, ds), ds);
  }

  lemma MatchedOfOne(before: map<Name, ClassCount>, c: ClassCount)
    ensures Matched(before, [c]) == [Versus(before, c)]
  {
    assert [c][..0] == [] && !Names([], c.name);
  }

  lemma MatchedOfTwo(before: map<Name, ClassCount>, d: ClassCount, e: ClassCount)
    requires d.name == e.name
    ensures Matched(before, [d, e]) == [Versus(before, d), Versus(map[], e)]
  {
    MatchedOfOne(before, d);
    assert [d, e][..1] == [d] && d in [d];
  }

  lemma IndexOfTwo(d: ClassCount, e: ClassCount)
    requires d.name == e.name
    ensures Index([d, e]) == map[e.name := e]
  {
    IndexOfOne(d);
    assert [d, e][..1] == [d];
  }

  lemma IndexOfOne(c: ClassCount)
    ensures Index([c]) == map[c.name := c]
  {
    assert [c][..0] == [];
  }

  lemma {:induction false} NoneMissing(classes: seq<ClassCount>, index: map<Name, ClassCount>)
    requires forall c :: c in classes ==> c.name in index
    ensures Missing(classes, index) == []
  {
    if classes != [] {
      NoneMissing(classes[..|classes| - 1], index);
    }
  }

  // ---- Conservation -----------------------------------------------------------------------

  function SumBytes(classes: seq<ClassCount>): int {
    if classes == [] then 0 else SumBytes(classes[..|classes| - 1]) + classes[|classes| - 1].bytes
  }

  function SumDeltas(ds: seq<Delta>): int {
    if ds == [] then 0 else SumDeltas(ds[..|ds| - 1]) + ds[|ds| - 1].bytesDelta
  }

  lemma {:induction false} SumAppend(a: seq<Delta>, b: seq<Delta>)
    ensures SumDeltas(a + b) == SumDeltas(a) + SumDeltas(b)
  {
    if b == [] {
      assert a + b == a;
    } else {
      assert (a + b)[..|a + b| - 1] == a + b[..|b| - 1];
      SumAppend(a, b[..|b| - 1]);
    }
  }

  lemma SumWithout(ds: seq<Delta>, i: nat)
    requires i < |ds|
    ensures SumDeltas(ds) == SumDeltas(ds[..i] + ds[i + 1..]) + ds[i].bytesDelta
  {
    SumAppend(ds[..i], ds[i + 1..]);
    SumAppend(ds[..i + 1], ds[i + 1..]);
    assert ds == ds[..i + 1] + ds[i + 1..];
    assert ds[..i + 1][..i] == ds[..i];
  }

  lemma {:induction false} SumOfPermutation(a: seq<Delta>, b: seq<Delta>)
    requires multiset(a) == multiset(b)
    ensures SumDeltas(a) == SumDeltas(b)
  {
    SameElements(a, b);
    if a != [] {
      assert a[0] in b;
      var i :| 0 <= i < |b| && b[i] == a[0];
      RemoveBoth(a, b, 0, i);
      SumWithout(a, 0);
      SumWithout(b, i);
      SumOfPermutation(a[..0] + a[1..], b[..i] + b[i + 1..]);
    }
  }

  lemma {:induction false} SumOfParts(ds: seq<Delta>)
    ensures SumDeltas(Gains(ds)) + SumDeltas(Losses(ds)) == SumDeltas(ds)
  {
    if ds != [] {
      SumOfParts(ds[..|ds| - 1]);
    }
  }

  lemma {:induction false} NamesOfIndex(classes: seq<ClassCount>, n: Name)
    ensures Names(classes, n) <==> n in Index(classes)
  {
    if classes != [] {
      assert classes == classes[..|classes| - 1] + [classes[|classes| - 1]];
      NamesOfIndex(classes[..|classes| - 1], n);
    }
  }

  lemma {:induction false} OneMoreMatched(before: map<Name, ClassCount>, e: ClassCount, later: seq<ClassCount>)
    requires e.name !in before
    ensures SumDeltas(Matched(before[e.name := e], later)) ==
            SumDeltas(Matched(before, later)) - if Names(later, e.name) then e.bytes else 0
  {
    if later != [] {
      var front, last := later[..|later| - 1], later[|later| - 1];
      assert later == front + [last];
      OneMoreMatched(before, e, front);
      assert Names(later, e.name) <==> Names(front, e.name) || last.name == e.name;
    }
  }

  lemma {:induction false} MissingIrrelevant(classes: seq<ClassCount>, index: map<Name, ClassCount>, c: ClassCount)
    requires !Names(classes, c.name)
    ensures Missing(classes, index[c.name := c]) == Missing(classes, index)
  {
    if classes != [] {
      var front, last := classes[..|classes| - 1], classes[|classes| - 1];
      assert classes == front + [last] && last in classes;
      assert !Names(front, c.name);
      MissingIrrelevant(front, index, c);
      MissingIrrelevant(front, index[last.name := last], c);
      assert index[c.name := c][last.name := last] == index[last.name := last][c.name := c];
    }
  }

  lemma {:induction false} SumOfUnmatched(later: seq<ClassCount>)
    ensures SumDeltas(Matched(map[], later)) == SumBytes(later)
  {
    if later != [] {
      SumOfUnmatched(later[..|later| - 1]);
    }
  }

  lemma {:induction false} SumOfChanges(earlier: seq<ClassCount>, later: seq<ClassCount>)
    requires DistinctClasses(earlier)
    ensures SumDeltas(Matched(Index(earlier), later)) - SumBytes(Missing(earlier, Index(later))) ==
            SumBytes(later) - SumBytes(earlier)
  {
    if earlier == [] {
      SumOfUnmatched(later);
    } else {
      var front, last := earlier[..|earlier| - 1], earlier[|earlier| - 1];
      SumOfChanges(front, later);
      assert !Names(front, last.name);
      NamesOfIndex(front, last.name);
      NamesOfIndex(later, last.name);
      OneMoreMatched(Index(front), last, later);
      MissingIrrelevant(front, Index(later), last);
    }
  }

  lemma {:induction false} SumOfVanished(classes: seq<ClassCount>)
    ensures SumDeltas(Map(Vanished, classes)) == -SumBytes(classes)
  {
    if classes != [] {
      var front := classes[..|classes| - 1];
      SumOfVanished(front);
      assert Map(Vanished, classes)[..|front|] == Map(Vanished, front);
    }
  }

  /** Unlimited, growth and shrinkage add up to exactly what the listed classes weigh more. */
  lemma BytesAreConserved(earlier: seq<ClassCount>, later: seq<ClassCount>)
    requires DistinctClasses(earlier)
    ensures SumDeltas(GrowthOf(earlier, later, 0)) + SumDeltas(ShrinkOf(earlier, later, 0)) ==
            SumBytes(later) - SumBytes(earlier)
  {
    var ds := Changes(earlier, later);
    SumOfPermutation(GrowthOf(earlier, later, 0), Gains(ds));
    SumOfPermutation(ShrinkOf(earlier, later, 0), Losses(ds));
    SumOfParts(ds);
    SumAppend(Matched(Index(earlier), later), Map(Vanished, Missing(earlier, Index(later))));
    SumOfVanished(Missing(earlier, Index(later)));
    SumOfChanges(earlier, later);
  }
}
