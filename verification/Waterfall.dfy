/** The trace waterfall's tree: `buildTree` of web/src/components/Waterfall.tsx.

    Spans are kept in maps by id where the program links Node objects; an id without a usable
    parent (none given, not in the trace, or the span itself) is a root.
  */
module Waterfall {

  import opened Sorting
  import opened SpanForest
  import opened Timestamps
  import opened Wrappers

  datatype Span = Span(id: Id, parent: Option<Id>, start: Stamp)

  // ---- What the Map holds -----------------------------------------------------------------

  /** Setting a key that is there already changes its value and keeps its place. */
  function KeysInOrder(spans: seq<Span>): seq<Id> {
    if spans == [] then []
    else
      var front, last := KeysInOrder(spans[..|spans| - 1]), spans[|spans| - 1];
      if last.id in front then front else front + [last.id]
  }

  function ById(spans: seq<Span>): (m: map<Id, Span>)
    ensures forall v :: v in m ==> m[v].id == v
  {
    if spans == [] then map[] else ById(spans[..|spans| - 1])[spans[|spans| - 1].id := spans[|spans| - 1]]
  }

  lemma {:induction false} KeysOfById(spans: seq<Span>)
    ensures Distinct(KeysInOrder(spans))
    ensures forall v :: v in KeysInOrder(spans) <==> v in ById(spans)
  {
    if spans != [] {
      KeysOfById(spans[..|spans| - 1]);
    }
  }

  /** Every distinct span id of the trace is a key, and nothing else is. */
  lemma {:induction false} KeysAreTheSpanIds(spans: seq<Span>, v: Id)
    ensures v in ById(spans) <==> exists s :: s in spans && s.id == v
  {
    if spans != [] {
      var front, last := spans[..|spans| - 1], spans[|spans| - 1];
      assert spans == front + [last];
      KeysAreTheSpanIds(front, v);
    }
  }

  /** Where spans share an id the last of them is kept. */
  lemma {:induction false} LastSpanIsKept(spans: seq<Span>, more: seq<Span>, s: Span)
    requires forall t :: t in more ==> t.id != s.id
    ensures var byId := ById(spans + [s] + more); s.id in byId && byId[s.id] == s
  {
    var all := spans + [s] + more;
    if more == [] {
      assert all[..|all| - 1] == spans && all[|all| - 1] == s;
    } else {
      var front, last := more[..|more| - 1], more[|more| - 1];
      assert more == front + [last];
      LastSpanIsKept(spans, front, s);
      assert all[..|all| - 1] == spans + [s] + front && all[|all| - 1] == last;
    }
  }

  /** It takes the place of the first: later spans never move an id. */
  lemma {:induction false} FirstPlaceIsKept(spans: seq<Span>, more: seq<Span>)
    ensures KeysInOrder(spans) <= KeysInOrder(spans + more)
  {
    if more == [] {
      assert spans + more == spans;
    } else {
      FirstPlaceIsKept(spans, more[..|more| - 1]);
      assert (spans + more)[..|spans + more| - 1] == spans + more[..|more| - 1];
    }
  }

  function HasParent(byId: map<Id, Span>, v: Id): bool
    requires v in byId
  {
    byId[v].parent.Some? && byId[v].parent.value in byId && byId[v].parent.value != v
  }

  function Up(byId: map<Id, Span>): map<Id, Id> {
    map v | v in byId && HasParent(byId, v) :: byId[v].parent.value
  }

  // ---- The forest -------------------------------------------------------------------------

  function KidsAmong(ids: seq<Id>, up: map<Id, Id>, v: Id): seq<Id> {
    if ids == [] then []
    else
      var last := ids[|ids| - 1];
      KidsAmong(ids[..|ids| - 1], up, v) + if last in up && up[last] == v then [last] else []
  }

  function RootsAmong(ids: seq<Id>, up: map<Id, Id>): seq<Id> {
    if ids == [] then []
    else
      var last := ids[|ids| - 1];
      RootsAmong(ids[..|ids| - 1], up) + if last in up then [] else [last]
  }

  lemma {:induction false} AmongHas(ids: seq<Id>, up: map<Id, Id>, v: Id, u: Id)
    ensures u in KidsAmong(ids, up, v) <==> u in ids && u in up && up[u] == v
    ensures u in RootsAmong(ids, up) <==> u in ids && u !in up
  {
    if ids != [] {
      assert ids == ids[..|ids| - 1] + [ids[|ids| - 1]];
      AmongHas(ids[..|ids| - 1], up, v, u);
    }
  }

  /** Both go through the ids in order. */
  lemma {:induction false} AmongInOrder(a: seq<Id>, b: seq<Id>, up: map<Id, Id>, v: Id)
    ensures KidsAmong(a + b, up, v) == KidsAmong(a, up, v) + KidsAmong(b, up, v)
    ensures RootsAmong(a + b, up) == RootsAmong(a, up) + RootsAmong(b, up)
  {
    if b == [] {
      assert a + b == a;
    } else {
      assert (a + b)[..|a + b| - 1] == a + b[..|b| - 1];
      AmongInOrder(a, b[..|b| - 1], up, v);
    }
  }

  lemma {:induction false} AmongDistinct(ids: seq<Id>, up: map<Id, Id>, v: Id)
    requires Distinct(ids)
    ensures Distinct(KidsAmong(ids, up, v)) && Distinct(RootsAmong(ids, up))
  {
    if ids != [] {
      var front, last := ids[..|ids| - 1], ids[|ids| - 1];
      AmongDistinct(front, up, v);
      assert last !in front;
      AmongHas(front, up, v, last);
    }
  }

  function StartOf(byId: map<Id, Span>, v: Id): Stamp {
    if v in byId then byId[v].start else Time(1, 1, 1, 0, 0, 0, 0)
  }

  /** The comparison the program sorts by: that of the timestamps' text. */
  function Earlier(byId: map<Id, Span>): (Id, Id) -> bool {
    (a, b) => TextBefore(StartOf(byId, a), StartOf(byId, b))
  }

  lemma EarlierIsWeak(byId: map<Id, Span>)
    ensures WeakOrder(Earlier(byId))
  {
    TextBeforeIsWeak();
  }

  /** The order the spans started in. */
  function Sooner(byId: map<Id, Span>): (Id, Id) -> bool {
    (a, b) => Before(StartOf(byId, a), StartOf(byId, b))
  }

  /** The tree before `sortByStart`: children in the order of the Map. */
  ghost function Unsorted(spans: seq<Span>): Forest {
    var byId, ids := ById(spans), KeysInOrder(spans);
    Forest(byId.Keys, Up(byId), map v | v in byId :: KidsAmong(ids, Up(byId), v), RootsAmong(ids, Up(byId)))
  }

  /** The tree with siblings in the order of their timestamps' text, ties as in the Map. */
  ghost function TreeOf(spans: seq<Span>): Forest {
    var f, less := Unsorted(spans), Earlier(ById(spans));
    f.(kids := map v | v in f.kids :: StableSort(less, f.kids[v]), roots := StableSort(less, f.roots))
  }

  lemma UnsortedWellFormed(spans: seq<Span>)
    ensures WellFormed(Unsorted(spans))
  {
    var f := Unsorted(spans);
    forall v
      ensures LinkOk(f, v) && KidsOk(f, v)
      ensures v in f.roots ==> v in f.ids && v !in f.up
    {
      UnsortedLinkOk(spans, v);
    }
    KeysOfById(spans);
    if v :| v in KeysInOrder(spans) {
      AmongDistinct(KeysInOrder(spans), f.up, v);
    }
  }

  lemma UnsortedLinkOk(spans: seq<Span>, v: Id)
    ensures LinkOk(Unsorted(spans), v) && KidsOk(Unsorted(spans), v)
    ensures v in Unsorted(spans).roots ==> v in Unsorted(spans).ids && v !in Unsorted(spans).up
  {
    var f, ids := Unsorted(spans), KeysInOrder(spans);
    KeysOfById(spans);
    AmongDistinct(ids, f.up, v);
    forall u ensures u in KidsAmong(ids, f.up, v) ==> u in f.up && f.up[u] == v {
      AmongHas(ids, f.up, v, u);
    }
    if v in f.up {
      AmongHas(ids, f.up, f.up[v], v);
    }
    AmongHas(ids, f.up, v, v);
  }

  lemma SortKeepsElements(less: (Id, Id) -> bool, s: seq<Id>)
    requires Distinct(s)
    ensures Distinct(StableSort(less, s))
    ensures forall v :: v in StableSort(less, s) <==> v in s
  {
    SameElements(StableSort(less, s), s);
    CountOfDistinct(s);
    CountOfDistinct(StableSort(less, s));
  }

  lemma {:induction false} CountOfDistinct(s: seq<Id>)
    ensures Distinct(s) <==> forall v :: multiset(s)[v] <= 1
  {
    if s != [] {
      var front, last := s[..|s| - 1], s[|s| - 1];
      assert s == front + [last];
      CountOfDistinct(front);
      assert last in front <==> multiset(front)[last] > 0;
      if Distinct(s) {
        assert last !in front;
      } else if forall v :: multiset(s)[v] <= 1 {
        assert multiset(s)[last] <= 1;
        forall v ensures multiset(front)[v] <= 1 {
          assert multiset(s)[v] <= 1;
        }
      }
    }
  }

  lemma TreeWellFormed(spans: seq<Span>)
    ensures WellFormed(TreeOf(spans))
  {
    var g, f, less := Unsorted(spans), TreeOf(spans), Earlier(ById(spans));
    UnsortedWellFormed(spans);
    SortKeepsElements(less, g.roots);
    forall v ensures LinkOk(f, v) {
      assert LinkOk(g, v);
      if v in f.up {
        assert LinkOk(g, f.up[v]) && KidsOk(g, f.up[v]);
        SortKeepsElements(less, g.kids[f.up[v]]);
      }
    }
    forall v ensures KidsOk(f, v) {
      assert KidsOk(g, v);
      if v in f.ids {
        SortKeepsElements(less, g.kids[v]);
      }
    }
  }

  /** No two of the spans started within one second at times the program's comparison confuses. */
  ghost predicate NoClash(byId: map<Id, Span>, nodes: seq<Id>) {
    forall u, v :: u in nodes && v in nodes ==> !Clash(StartOf(byId, u), StartOf(byId, v))
  }

  lemma PairInTimeIff(byId: map<Id, Span>, u: Id, v: Id)
    ensures !Clash(StartOf(byId, u), StartOf(byId, v)) ==> (Earlier(byId)(u, v) <==> Sooner(byId)(u, v))
    ensures Clash(StartOf(byId, u), StartOf(byId, v)) ==>
              && (Earlier(byId)(u, v) <==> Sooner(byId)(v, u)) && (Earlier(byId)(v, u) <==> Sooner(byId)(u, v))
              && (Sooner(byId)(u, v) || Sooner(byId)(v, u))
  {
    TextOrderIffNoClash(StartOf(byId, u), StartOf(byId, v));
    TextOrderIffNoClash(StartOf(byId, v), StartOf(byId, u));
  }

  lemma NoClashInTime(byId: map<Id, Span>, nodes: seq<Id>)
    requires Sorted(Earlier(byId), nodes) && NoClash(byId, nodes)
    ensures Sorted(Sooner(byId), nodes)
  {
    forall i, j | 0 <= i < j < |nodes| ensures !Sooner(byId)(nodes[j], nodes[i]) {
      assert nodes[i] in nodes && nodes[j] in nodes && !Earlier(byId)(nodes[j], nodes[i]);
      PairInTimeIff(byId, nodes[j], nodes[i]);
    }
  }

  lemma InTimeNoClash(byId: map<Id, Span>, nodes: seq<Id>, i: nat, j: nat)
    requires Sorted(Earlier(byId), nodes) && Sorted(Sooner(byId), nodes) && i < |nodes| && j < |nodes|
    ensures !Clash(StartOf(byId, nodes[i]), StartOf(byId, nodes[j]))
  {
    PairInTimeIff(byId, nodes[i], nodes[j]);
    if i < j {
      assert !Earlier(byId)(nodes[j], nodes[i]) && !Sooner(byId)(nodes[j], nodes[i]);
    } else if j < i {
      assert !Earlier(byId)(nodes[i], nodes[j]) && !Sooner(byId)(nodes[i], nodes[j]);
    }
  }

  /** A list sorted by text is in the order of the times if and only if no two of its times clash. */
  lemma TextSortedInTimeIff(byId: map<Id, Span>, nodes: seq<Id>)
    requires Sorted(Earlier(byId), nodes)
    ensures Sorted(Sooner(byId), nodes) <==> NoClash(byId, nodes)
  {
    if NoClash(byId, nodes) {
      NoClashInTime(byId, nodes);
    }
    if Sorted(Sooner(byId), nodes) {
      forall u, v | u in nodes && v in nodes ensures !Clash(StartOf(byId, u), StartOf(byId, v)) {
        var i :| 0 <= i < |nodes| && nodes[i] == u;
        var j :| 0 <= j < |nodes| && nodes[j] == v;
        InTimeNoClash(byId, nodes, i, j);
      }
    }
  }

  /** The roots, and the children of a span, are shown in the order they started if and only if no two of
      them clash. */
  lemma SiblingsInStartOrderIff(spans: seq<Span>, v: Id)
    requires v in ById(spans)
    ensures var byId, kids, roots := ById(spans), TreeOf(spans).kids[v], TreeOf(spans).roots;
            && (Sorted(Sooner(byId), kids) <==> NoClash(byId, kids))
            && (Sorted(Sooner(byId), roots) <==> NoClash(byId, roots))
  {
    var byId := ById(spans);
    EarlierIsWeak(byId);
    StableSortSorts(Earlier(byId), Unsorted(spans).kids[v]);
    StableSortSorts(Earlier(byId), Unsorted(spans).roots);
    TextSortedInTimeIff(byId, TreeOf(spans).kids[v]);
    TextSortedInTimeIff(byId, TreeOf(spans).roots);
  }

  /** `u` started on the full second and `v` later within it. */
  ghost predicate OnFullSecondOf(byId: map<Id, Span>, u: Id, v: Id) {
    var s, t := StartOf(byId, u), StartOf(byId, v);
    SameSecond(s, t) && s.nanos == 0 && t.nanos > 0
  }

  lemma FullSecondLast(byId: map<Id, Span>, nodes: seq<Id>, i: nat, j: nat)
    requires Sorted(Earlier(byId), nodes) && i < |nodes| && j < |nodes| && OnFullSecondOf(byId, nodes[i], nodes[j])
    ensures j < i && Sooner(byId)(nodes[i], nodes[j])
  {
    FullSecondSortsLast(StartOf(byId, nodes[i]), StartOf(byId, nodes[j]));
    assert Earlier(byId)(nodes[j], nodes[i]);
  }

  /** A span that started on the full second is shown after its siblings of that second, though it started
      before all of them. */
  lemma FullSecondShownLast(spans: seq<Span>, v: Id, i: nat, j: nat)
    requires v in ById(spans) && i < |TreeOf(spans).kids[v]| && j < |TreeOf(spans).kids[v]|
    requires OnFullSecondOf(ById(spans), TreeOf(spans).kids[v][i], TreeOf(spans).kids[v][j])
    ensures j < i && Sooner(ById(spans))(TreeOf(spans).kids[v][i], TreeOf(spans).kids[v][j])
  {
    var byId := ById(spans);
    EarlierIsWeak(byId);
    StableSortSorts(Earlier(byId), Unsorted(spans).kids[v]);
    FullSecondLast(byId, TreeOf(spans).kids[v], i, j);
  }

  /** Siblings, and roots, whose timestamps have the same text are shown in the order the Map has them. */
  lemma TiesAsInMap(spans: seq<Span>, v: Id, x: Id)
    requires v in ById(spans)
    ensures var less, ids, up := Earlier(ById(spans)), KeysInOrder(spans), Up(ById(spans));
            && Ties(less, TreeOf(spans).kids[v], x) == Ties(less, KidsAmong(ids, up, v), x)
            && Ties(less, TreeOf(spans).roots, x) == Ties(less, RootsAmong(ids, up), x)
  {
    EarlierIsWeak(ById(spans));
    StableSortKeepsTies(Earlier(ById(spans)), Unsorted(spans).kids[v], x);
    StableSortKeepsTies(Earlier(ById(spans)), Unsorted(spans).roots, x);
  }

  // ---- The program ------------------------------------------------------------------------

  method Index(spans: seq<Span>) returns (byId: map<Id, Span>, keys: seq<Id>)
    ensures byId == ById(spans) && keys == KeysInOrder(spans)
  {
    byId, keys := map[], [];
    for i := 0 to |spans|
      invariant byId == ById(spans[..i]) && keys == KeysInOrder(spans[..i])
    {
      assert spans[..i + 1][..i] == spans[..i];
      byId := byId[spans[i].id := spans[i]];
      keys := if spans[i].id in keys then keys else keys + [spans[i].id];
    }
    assert spans[..|spans|] == spans;
  }

  /** Hangs every node under its parent, or among the roots. */
  method Link(byId: map<Id, Span>, keys: seq<Id>) returns (children: map<Id, seq<Id>>, roots: seq<Id>)
    requires forall v :: v in keys ==> v in byId
    ensures roots == RootsAmong(keys, Up(byId))
    ensures children == map v | v in byId :: KidsAmong(keys, Up(byId), v)
  {
    children, roots := map v | v in byId :: [], [];
    for i := 0 to |keys|
      invariant roots == RootsAmong(keys[..i], Up(byId))
      invariant children.Keys == byId.Keys
      invariant forall v :: v in byId ==> children[v] == KidsAmong(keys[..i], Up(byId), v)
    {
      assert keys[..i + 1][..i] == keys[..i];
      var v := keys[i];
      if HasParent(byId, v) {
        var p := byId[v].parent.value;
        children := children[p := children[p] + [v]];
      } else {
        roots := roots + [v];
      }
    }
    assert keys[..|keys|] == keys;
  }

  lemma {:induction false} SortedIsFixed<T(!new)>(less: (T, T) -> bool, s: seq<T>)
    requires Sorted(less, s)
    ensures StableSort(less, s) == s
  {
    if s != [] {
      var front, last := s[..|s| - 1], s[|s| - 1];
      SortedIsFixed(less, front);
      assert s == front + [last];
      if front != [] {
        assert !less(s[|s| - 1], s[|s| - 2]);
      }
      assert Insert(less, front, last) == front + [last];
    }
  }

  lemma SortTwice(less: (Id, Id) -> bool, s: seq<Id>)
    requires WeakOrder(less)
    ensures StableSort(less, StableSort(less, s)) == StableSort(less, s)
  {
    StableSortSorts(less, s);
    SortedIsFixed(less, StableSort(less, s));
  }

  ghost predicate ListedAs(f: Forest, children: map<Id, seq<Id>>, v: Id) {
    v in f.kids && v in children && children[v] == f.kids[v]
  }

  /** `f` is the tree `g` with the children of `v` sorted. */
  ghost predicate SortsKids(g: Forest, f: Forest, less: (Id, Id) -> bool, v: Id) {
    v in g.kids ==> v in f.kids && f.kids[v] == StableSort(less, g.kids[v])
  }

  /** The list of `v` is as linked, or already sorted. */
  ghost predicate LinkedOrSorted(g: Forest, f: Forest, children: map<Id, seq<Id>>, v: Id) {
    v in g.ids ==> ListedAs(g, children, v) || ListedAs(f, children, v)
  }

  ghost predicate SortedUnder(g: Forest, f: Forest, children: map<Id, seq<Id>>, n: Id) {
    forall u, k: nat :: Under(g, u, n, k) ==> ListedAs(f, children, u)
  }

  /** Lists are sorted, or left alone; a sorted one stays so. */
  ghost predicate OnlySorts(g: Forest, f: Forest, before: map<Id, seq<Id>>, after: map<Id, seq<Id>>) {
    && (forall v :: LinkedOrSorted(g, f, after, v))
    && (forall v :: ListedAs(f, before, v) ==> ListedAs(f, after, v))
  }

  /** Sorts a list of siblings and everything below them.  `linked` is the list as it was linked. */
  method SortByText(ghost g: Forest, ghost f: Forest, less: (Id, Id) -> bool, nodes: seq<Id>, ghost linked: seq<Id>,
                     ghost depth: nat, children: map<Id, seq<Id>>)
    returns (nodes': seq<Id>, children': map<Id, seq<Id>>)
    requires WeakOrder(less) && WellFormed(g) && AllAt(g, linked, depth) && (forall v :: SortsKids(g, f, less, v))
    requires nodes == linked || nodes == StableSort(less, linked)
    requires forall v :: LinkedOrSorted(g, f, children, v)
    ensures nodes' == StableSort(less, linked)
    ensures OnlySorts(g, f, children, children')
    ensures forall n :: n in linked ==> SortedUnder(g, f, children', n)
    decreases |g.ids| - depth, 1, 0
  {
    nodes' := StableSort(less, nodes);
    SortTwice(less, linked);
    SameElements(nodes', linked);
    children' := SortEachBelow(g, f, less, nodes', depth, children);
  }

  method SortEachBelow(ghost g: Forest, ghost f: Forest, less: (Id, Id) -> bool, nodes: seq<Id>, ghost depth: nat,
                       children: map<Id, seq<Id>>)
    returns (children': map<Id, seq<Id>>)
    requires WeakOrder(less) && WellFormed(g) && AllAt(g, nodes, depth) && (forall v :: SortsKids(g, f, less, v))
    requires forall v :: LinkedOrSorted(g, f, children, v)
    ensures OnlySorts(g, f, children, children')
    ensures forall n :: n in nodes ==> SortedUnder(g, f, children', n)
    decreases |g.ids| - depth, 0, 1
  {
    children' := children;
    for i := 0 to |nodes|
      invariant OnlySorts(g, f, children, children')
      invariant forall n :: n in nodes[..i] ==> SortedUnder(g, f, children', n)
    {
      assert nodes[..i + 1] == nodes[..i] + [nodes[i]];
      children' := SortBelow(g, f, less, nodes[i], depth, children');
    }
    assert nodes[..|nodes|] == nodes;
  }

  method SortBelow(ghost g: Forest, ghost f: Forest, less: (Id, Id) -> bool, n: Id, ghost depth: nat,
                   children: map<Id, seq<Id>>)
    returns (children': map<Id, seq<Id>>)
    requires WeakOrder(less) && WellFormed(g) && Rooted(g, n, depth) && (forall v :: SortsKids(g, f, less, v))
    requires forall v :: LinkedOrSorted(g, f, children, v)
    ensures OnlySorts(g, f, children, children')
    ensures SortedUnder(g, f, children', n)
    decreases |g.ids| - depth, 0, 0
  {
    KidsOneDeeper(g, n, depth);
    assert LinkOk(g, n) && LinkedOrSorted(g, f, children, n) && SortsKids(g, f, less, n);
    var kids, rest := SortByText(g, f, less, children[n], g.kids[n], depth + 1, children);
    children' := rest[n := kids];
    OneMoreSorted(g, f, children, rest, n);
    SortedThroughKids(g, f, rest, n);
  }

  /** Setting the list of `n` to the sorted one leaves all others as they are. */
  lemma OneMoreSorted(g: Forest, f: Forest, before: map<Id, seq<Id>>, rest: map<Id, seq<Id>>, n: Id)
    requires OnlySorts(g, f, before, rest) && n in f.kids
    ensures OnlySorts(g, f, before, rest[n := f.kids[n]])
  {
    var after := rest[n := f.kids[n]];
    forall v ensures LinkedOrSorted(g, f, after, v) {
      assert LinkedOrSorted(g, f, rest, v);
    }
    forall v | ListedAs(f, before, v) ensures ListedAs(f, after, v) {
      assert ListedAs(f, rest, v);
    }
  }

  lemma SortedThroughKids(g: Forest, f: Forest, rest: map<Id, seq<Id>>, n: Id)
    requires WellFormed(g) && n in g.ids && LinkOk(g, n) && n in g.kids && n in f.kids
    requires forall m :: m in g.kids[n] ==> SortedUnder(g, f, rest, m)
    ensures SortedUnder(g, f, rest[n := f.kids[n]], n)
  {
    var after := rest[n := f.kids[n]];
    forall u, k: nat | Under(g, u, n, k) ensures ListedAs(f, after, u) {
      if k > 0 {
        var m := UnderKid(g, u, n, k);
        assert SortedUnder(g, f, rest, m);
      }
    }
  }

  /** Lists `nodes` and all below them, parents first. */
  method Walk(ghost f: Forest, children: map<Id, seq<Id>>, nodes: seq<Id>, depth: nat, flat: seq<Row>)
    returns (flat': seq<Row>)
    requires WellFormed(f) && AllAt(f, nodes, depth)
    requires forall v, d: nat :: Rooted(f, v, d) ==> ListedAs(f, children, v)
    ensures flat' == flat + Preorder(f, nodes, depth)
    decreases |f.ids| - depth, |nodes|
  {
    flat' := flat;
    if nodes != [] {
      var node := nodes[0];
      KidsOneDeeper(f, node, depth);
      assert ListedAs(f, children, node);
      flat' := flat' + [Row(node, depth)];
      flat' := Walk(f, children, children[node], depth + 1, flat');
      assert flat' == flat + Block(f, node, depth);
      flat' := Walk(f, children, nodes[1..], depth, flat');
    }
  }

  method BuildTree(spans: seq<Span>) returns (flat: seq<Row>)
    ensures WellFormed(TreeOf(spans)) && flat == Flat(TreeOf(spans))
  {
    var byId, keys := Index(spans);
    KeysOfById(spans);
    var children, roots := Link(byId, keys);
    roots, children := SortFromRoots(spans, byId, roots, children);
    TreeWellFormed(spans);
    flat := Walk(TreeOf(spans), children, roots, 0, []);
  }

  /** The tree is the unsorted one with every list of siblings sorted. */
  lemma TreeIsSorted(spans: seq<Span>)
    ensures var g, f, byId := Unsorted(spans), TreeOf(spans), ById(spans);
            && WellFormed(g) && AllAt(g, g.roots, 0) && g.up == f.up && g.ids == f.ids
            && f.roots == StableSort(Earlier(byId), g.roots)
            && (forall v :: SortsKids(g, f, Earlier(byId), v))
            && (forall v :: LinkedOrSorted(g, f, g.kids, v))
  {
    UnsortedWellFormed(spans);
    RootsAtZero(Unsorted(spans));
    AllLinked(Unsorted(spans), TreeOf(spans));
  }

  lemma RootsAtZero(g: Forest)
    requires WellFormed(g)
    ensures AllAt(g, g.roots, 0)
  {
    forall v | v in g.roots ensures Rooted(g, v, 0) {
      assert LinkOk(g, v);
    }
  }

  lemma AllLinked(g: Forest, f: Forest)
    requires WellFormed(g)
    ensures forall v :: LinkedOrSorted(g, f, g.kids, v)
  {
    forall v ensures LinkedOrSorted(g, f, g.kids, v) {
      assert LinkOk(g, v) && KidsOk(g, v);
    }
  }

  method SortFromRoots(ghost spans: seq<Span>, byId: map<Id, Span>, roots: seq<Id>, children: map<Id, seq<Id>>)
    returns (roots': seq<Id>, children': map<Id, seq<Id>>)
    requires byId == ById(spans)
    requires children == Unsorted(spans).kids && roots == Unsorted(spans).roots
    ensures roots' == TreeOf(spans).roots
    ensures forall v, d: nat :: Rooted(TreeOf(spans), v, d) ==> ListedAs(TreeOf(spans), children', v)
  {
    ghost var g, f := Unsorted(spans), TreeOf(spans);
    TreeIsSorted(spans);
    EarlierIsWeak(byId);
    roots', children' := SortByText(g, f, Earlier(byId), roots, roots, 0, children);
    forall v, d: nat | Rooted(f, v, d) ensures ListedAs(f, children', v) {
      SortedBelowRoots(g, f, children', v, d);
    }
  }

  lemma SortedBelowRoots(g: Forest, f: Forest, children: map<Id, seq<Id>>, v: Id, d: nat)
    requires WellFormed(g) && g.up == f.up && g.ids == f.ids && Rooted(f, v, d)
    requires forall n :: n in g.roots ==> SortedUnder(g, f, children, n)
    ensures ListedAs(f, children, v)
  {
    SameLinks(g, f, v, d);
    RootedUnderRoot(g, v, d);
    var n :| n in g.roots && Under(g, v, n, d);
    assert SortedUnder(g, f, children, n);
  }

  lemma {:induction false} SameLinks(g: Forest, f: Forest, v: Id, d: nat)
    requires g.up == f.up && g.ids == f.ids
    ensures Rooted(g, v, d) <==> Rooted(f, v, d)
    decreases d
  {
    if v in f.up && d > 0 {
      SameLinks(g, f, f.up[v], d - 1);
    }
  }

  // ---- What the waterfall shows -----------------------------------------------------------

  lemma TreeLinks(spans: seq<Span>, v: Id)
    requires v in ById(spans)
    ensures var f, byId, p := TreeOf(spans), ById(spans), ById(spans)[v].parent;
            && v in f.ids
            && (v in f.up <==> p.Some? && p.value in byId && p.value != v)
            && (v in f.up ==> f.up[v] == p.value)
  {
  }

  /** One step up the parent chain is one row less deep. */
  lemma DepthFollowsLink(f: Forest, v: Id, d: nat)
    requires WellFormed(f) && v in f.ids
    ensures Row(v, d) in Flat(f) <==> if v in f.up then d > 0 && Row(f.up[v], d - 1) in Flat(f) else d == 0
  {
    FlatHasExactlyTheRooted(f, Row(v, d));
    if v in f.up && d > 0 {
      FlatHasExactlyTheRooted(f, Row(f.up[v], d - 1));
    }
  }

  /** A span that names no parent, one the trace lacks, or itself, is shown at depth 0; any other one deeper
      than its parent. */
  lemma DepthFollowsParent(spans: seq<Span>, v: Id, d: nat)
    requires v in ById(spans)
    ensures WellFormed(TreeOf(spans))
    ensures var f, byId, p := TreeOf(spans), ById(spans), ById(spans)[v].parent;
            Row(v, d) in Flat(f) <==> if p.Some? && p.value in byId && p.value != v
                                      then d > 0 && Row(p.value, d - 1) in Flat(f)
                                      else d == 0
  {
    TreeWellFormed(spans);
    TreeLinks(spans, v);
    DepthFollowsLink(TreeOf(spans), v, d);
  }

  /** Two spans naming each other as parents are both lost, whatever else the trace holds. */
  lemma MutualParentsAreLost(spans: seq<Span>, a: Id, b: Id)
    requires a != b && a in ById(spans) && b in ById(spans)
    requires ById(spans)[a].parent == Some(b) && ById(spans)[b].parent == Some(a)
    ensures WellFormed(TreeOf(spans)) && !Listed(TreeOf(spans), a) && !Listed(TreeOf(spans), b)
  {
    var f := TreeOf(spans);
    TreeWellFormed(spans);
    assert f.up[a] == b && f.up[b] == a;
    assert Under(f, a, a, 0) && Under(f, b, a, 1) && Under(f, a, a, 2);
    assert Under(f, b, b, 0) && Under(f, a, b, 1) && Under(f, b, b, 2);
    if Listed(f, a) {
      ListedNotBelowItself(f, a);
    }
    if Listed(f, b) {
      ListedNotBelowItself(f, b);
    }
  }
}
