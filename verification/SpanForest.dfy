/** Forests given by parent pointers that may dangle or form cycles, and their preorder. */
module SpanForest {

  import Finite
  import opened Sorting

  datatype Id = Id(text: string)
  datatype Row = Row(id: Id, depth: nat)

  /** `up` has the usable parent links only; `kids` and `roots` list the same links downwards. */
  datatype Forest = Forest(ids: set<Id>, up: map<Id, Id>, kids: map<Id, seq<Id>>, roots: seq<Id>)

  /** `v` is listed under its parent, or among the roots. */
  ghost predicate LinkOk(f: Forest, v: Id) {
    && (v in f.up ==> v in f.ids && f.up[v] in f.ids && f.up[v] in f.kids && v in f.kids[f.up[v]])
    && (v in f.ids && v !in f.up ==> v in f.roots)
  }

  /** Nothing else is listed under `v`, nor anything twice. */
  ghost predicate KidsOk(f: Forest, v: Id) {
    v in f.ids ==>
      v in f.kids && Distinct(f.kids[v]) && forall u :: u in f.kids[v] ==> u in f.up && f.up[u] == v
  }

  ghost predicate RootsOk(f: Forest) {
    Distinct(f.roots) && forall v :: v in f.roots ==> v in f.ids && v !in f.up
  }

  ghost predicate WellFormed(f: Forest) {
    RootsOk(f) && (forall v :: LinkOk(f, v)) && (forall v :: KidsOk(f, v))
  }

  /** `v`'s parent chain ends at a root after exactly `d` steps. */
  ghost predicate Rooted(f: Forest, v: Id, d: nat)
    decreases d
  {
    if v in f.up then d > 0 && Rooted(f, f.up[v], d - 1) else d == 0 && v in f.ids
  }

  /** Going up `k` parents from `u` leads to `v`. */
  ghost predicate Under(f: Forest, u: Id, v: Id, k: nat)
    decreases k
  {
    if k == 0 then u == v else u in f.up && Under(f, f.up[u], v, k - 1)
  }

  lemma {:induction false} DepthUnique(f: Forest, v: Id, d: nat, e: nat)
    requires Rooted(f, v, d) && Rooted(f, v, e)
    ensures d == e
    decreases d
  {
    if v in f.up {
      DepthUnique(f, f.up[v], d - 1, e - 1);
    }
  }

  ghost function Ancestors(f: Forest, v: Id, d: nat): set<Id>
    requires Rooted(f, v, d)
    decreases d
  {
    if d == 0 then {v} else {v} + Ancestors(f, f.up[v], d - 1)
  }

  lemma {:induction false} AncestorsSize(f: Forest, v: Id, d: nat)
    requires WellFormed(f) && Rooted(f, v, d)
    ensures |Ancestors(f, v, d)| == d + 1 && Ancestors(f, v, d) <= f.ids
    decreases d
  {
    assert LinkOk(f, v);
    if d > 0 {
      AncestorsSize(f, f.up[v], d - 1);
      if v in Ancestors(f, f.up[v], d - 1) {
        var e := AncestorDepth(f, f.up[v], d - 1, v);
        DepthUnique(f, v, d, e);
      }
    }
  }

  lemma {:induction false} AncestorDepth(f: Forest, v: Id, d: nat, u: Id) returns (e: nat)
    requires Rooted(f, v, d) && u in Ancestors(f, v, d)
    ensures e <= d && Rooted(f, u, e)
    decreases d
  {
    if u == v {
      e := d;
    } else {
      e := AncestorDepth(f, f.up[v], d - 1, u);
    }
  }

  lemma DepthIsSmall(f: Forest, v: Id, d: nat)
    requires WellFormed(f) && Rooted(f, v, d)
    ensures d < |f.ids|
  {
    AncestorsSize(f, v, d);
    Finite.SubsetSize(Ancestors(f, v, d), f.ids);
  }

  // ---- Preorder ---------------------------------------------------------------------------

  ghost predicate AllAt(f: Forest, nodes: seq<Id>, depth: nat) {
    forall v :: v in nodes ==> Rooted(f, v, depth)
  }

  lemma KidsOneDeeper(f: Forest, v: Id, depth: nat)
    requires WellFormed(f) && Rooted(f, v, depth)
    ensures v in f.kids && AllAt(f, f.kids[v], depth + 1) && depth < |f.ids|
  {
    DepthIsSmall(f, v, depth);
    assert LinkOk(f, v) && KidsOk(f, v);
  }

  /** The rows of `v` and everything below it. */
  ghost function Block(f: Forest, v: Id, depth: nat): seq<Row>
    requires WellFormed(f) && Rooted(f, v, depth)
    decreases |f.ids| - depth, 1, 0
  {
    KidsOneDeeper(f, v, depth);
    [Row(v, depth)] + Preorder(f, f.kids[v], depth + 1)
  }

  ghost function Preorder(f: Forest, nodes: seq<Id>, depth: nat): seq<Row>
    requires WellFormed(f) && AllAt(f, nodes, depth)
    decreases |f.ids| - depth, 2, |nodes|
  {
    if nodes == [] then []
    else
      Block(f, nodes[0], depth) + Preorder(f, nodes[1..], depth)
  }

  // ---- What the preorder lists ------------------------------------------------------------

  lemma {:induction false} UnderRooted(f: Forest, u: Id, v: Id, k: nat, depth: nat)
    requires Under(f, u, v, k) && Rooted(f, v, depth)
    ensures Rooted(f, u, depth + k)
    decreases k
  {
    if k > 0 {
      UnderRooted(f, f.up[u], v, k - 1, depth);
    }
  }

  lemma {:induction false} UnderUnique(f: Forest, u: Id, v: Id, w: Id, k: nat)
    requires Under(f, u, v, k) && Under(f, u, w, k)
    ensures v == w
    decreases k
  {
    if k > 0 {
      UnderUnique(f, f.up[u], v, w, k - 1);
    }
  }

  /** Whatever lies below `v` lies below, or is, one of its children; `n` is that child. */
  lemma {:induction false} UnderKid(f: Forest, u: Id, v: Id, k: nat) returns (n: Id)
    requires WellFormed(f) && k > 0 && Under(f, u, v, k)
    ensures v in f.kids && n in f.kids[v] && Under(f, u, n, k - 1)
    decreases k
  {
    if k == 1 {
      n := u;
      assert LinkOk(f, u) && Under(f, f.up[u], v, 0);
    } else {
      n := UnderKid(f, f.up[u], v, k - 1);
    }
  }

  lemma {:induction false} KidUnder(f: Forest, u: Id, n: Id, v: Id, k: nat)
    requires n in f.up && f.up[n] == v && Under(f, u, n, k)
    ensures Under(f, u, v, k + 1)
    decreases k
  {
    if k > 0 {
      KidUnder(f, f.up[u], n, v, k - 1);
    } else {
      assert Under(f, v, v, 0);
    }
  }

  ghost predicate UnderOne(f: Forest, u: Id, nodes: seq<Id>, k: int) {
    k >= 0 && exists n :: n in nodes && Under(f, u, n, k)
  }

  /** A block holds exactly what lies below its head, each at its distance. */
  lemma {:induction false} BlockRows(f: Forest, v: Id, depth: nat, r: Row)
    requires WellFormed(f) && Rooted(f, v, depth)
    ensures r in Block(f, v, depth) <==> UnderOne(f, r.id, [v], r.depth - depth)
    decreases |f.ids| - depth, 1, 0
  {
    KidsOneDeeper(f, v, depth);
    PreorderRows(f, f.kids[v], depth + 1, r);
    var k := r.depth - depth;
    if k > 0 && Under(f, r.id, v, k) {
      var n := UnderKid(f, r.id, v, k);
    }
    if k > 0 && UnderOne(f, r.id, f.kids[v], k - 1) {
      var n :| n in f.kids[v] && Under(f, r.id, n, k - 1);
      assert LinkOk(f, v) && KidsOk(f, v);
      KidUnder(f, r.id, n, v, k - 1);
    }
    assert v in [v];
  }

  lemma {:induction false} PreorderRows(f: Forest, nodes: seq<Id>, depth: nat, r: Row)
    requires WellFormed(f) && AllAt(f, nodes, depth)
    ensures r in Preorder(f, nodes, depth) <==> UnderOne(f, r.id, nodes, r.depth - depth)
    decreases |f.ids| - depth, 2, |nodes|
  {
    if nodes != [] {
      BlockRows(f, nodes[0], depth, r);
      PreorderRows(f, nodes[1..], depth, r);
      assert nodes == [nodes[0]] + nodes[1..];
    }
  }

  lemma {:induction false} RootedUnderRoot(f: Forest, u: Id, d: nat)
    requires WellFormed(f) && Rooted(f, u, d)
    ensures UnderOne(f, u, f.roots, d)
    decreases d
  {
    if d > 0 {
      assert LinkOk(f, u);
      RootedUnderRoot(f, f.up[u], d - 1);
      var n :| n in f.roots && Under(f, f.up[u], n, d - 1);
      assert Under(f, u, n, d);
    } else {
      assert LinkOk(f, u) && Under(f, u, u, 0);
    }
  }

  ghost function Flat(f: Forest): seq<Row>
    requires WellFormed(f)
  {
    Preorder(f, f.roots, 0)
  }

  /** The list has a span exactly when the span's parent chain reaches a root, at the depth of that chain. */
  lemma FlatHasExactlyTheRooted(f: Forest, r: Row)
    requires WellFormed(f)
    ensures r in Flat(f) <==> Rooted(f, r.id, r.depth)
  {
    PreorderRows(f, f.roots, 0, r);
    if Rooted(f, r.id, r.depth) {
      RootedUnderRoot(f, r.id, r.depth);
    }
    if UnderOne(f, r.id, f.roots, r.depth) {
      var n :| n in f.roots && Under(f, r.id, n, r.depth);
      UnderRooted(f, r.id, n, r.depth, 0);
    }
  }

  /** Every row starts the block of its own subtree: parents come first, subtrees are contiguous. */
  ghost predicate BlockAt(f: Forest, rows: seq<Row>, i: nat)
    requires WellFormed(f) && i < |rows|
  {
    && Rooted(f, rows[i].id, rows[i].depth)
    && var b := Block(f, rows[i].id, rows[i].depth);
       i + |b| <= |rows| && rows[i..i + |b|] == b
  }

  lemma {:induction false} BlocksInBlock(f: Forest, v: Id, depth: nat, i: nat)
    requires WellFormed(f) && Rooted(f, v, depth) && i < |Block(f, v, depth)|
    ensures BlockAt(f, Block(f, v, depth), i)
    decreases |f.ids| - depth, 1, 0
  {
    var b := Block(f, v, depth);
    if i == 0 {
      assert b[0..|b|] == b;
    } else {
      KidsOneDeeper(f, v, depth);
      var rest := Preorder(f, f.kids[v], depth + 1);
      BlocksInPreorder(f, f.kids[v], depth + 1, i - 1);
      Shift([Row(v, depth)], rest, i - 1, |Block(f, b[i].id, b[i].depth)|);
    }
  }

  lemma Shift(a: seq<Row>, b: seq<Row>, i: nat, n: nat)
    requires i + n <= |b|
    ensures (a + b)[|a| + i..|a| + i + n] == b[i..i + n]
  {
  }

  lemma Keep(a: seq<Row>, b: seq<Row>, i: nat, n: nat)
    requires i + n <= |a|
    ensures (a + b)[i..i + n] == a[i..i + n]
  {
  }

  lemma {:induction false} BlocksInPreorder(f: Forest, nodes: seq<Id>, depth: nat, i: nat)
    requires WellFormed(f) && AllAt(f, nodes, depth) && i < |Preorder(f, nodes, depth)|
    ensures BlockAt(f, Preorder(f, nodes, depth), i)
    decreases |f.ids| - depth, 2, |nodes|
  {
    var b, rest := Block(f, nodes[0], depth), Preorder(f, nodes[1..], depth);
    var rows := b + rest;
    assert rows == Preorder(f, nodes, depth);
    if i < |b| {
      BlocksInBlock(f, nodes[0], depth, i);
      Keep(b, rest, i, |Block(f, b[i].id, b[i].depth)|);
    } else {
      BlocksInPreorder(f, nodes[1..], depth, i - |b|);
      Shift(b, rest, i - |b|, |Block(f, rows[i].id, rows[i].depth)|);
    }
  }

  /** Subtrees are contiguous in the whole list. */
  lemma SubtreesAreContiguous(f: Forest, i: nat)
    requires WellFormed(f) && i < |Flat(f)|
    ensures BlockAt(f, Flat(f), i)
  {
    BlocksInPreorder(f, f.roots, 0, i);
  }

  // ---- Siblings in the order of their list ------------------------------------------------

  lemma {:induction false} NodeHasRow(f: Forest, nodes: seq<Id>, depth: nat, i: nat) returns (a: nat)
    requires WellFormed(f) && AllAt(f, nodes, depth) && i < |nodes|
    ensures a < |Preorder(f, nodes, depth)| && Preorder(f, nodes, depth)[a] == Row(nodes[i], depth)
    decreases |nodes|
  {
    a := 0;
    if i > 0 {
      var b := NodeHasRow(f, nodes[1..], depth, i - 1);
      a := |Block(f, nodes[0], depth)| + b;
    }
  }

  lemma {:induction false} NodesInOrder(f: Forest, nodes: seq<Id>, depth: nat, i: nat, j: nat) returns (a: nat, b: nat)
    requires WellFormed(f) && AllAt(f, nodes, depth) && i < j < |nodes|
    ensures var rows := Preorder(f, nodes, depth);
            a < b < |rows| && rows[a] == Row(nodes[i], depth) && rows[b] == Row(nodes[j], depth)
    decreases |nodes|
  {
    var n := |Block(f, nodes[0], depth)|;
    if i == 0 {
      var c := NodeHasRow(f, nodes[1..], depth, j - 1);
      a, b := 0, n + c;
    } else {
      var c, d := NodesInOrder(f, nodes[1..], depth, i - 1, j - 1);
      a, b := n + c, n + d;
    }
  }

  /** The children of a listed span are all listed after it, in the order of their list. */
  lemma SiblingsInOrder(f: Forest, at: nat, i: nat, j: nat) returns (a: nat, b: nat)
    requires WellFormed(f) && at < |Flat(f)| && Flat(f)[at].id in f.kids && i < j < |f.kids[Flat(f)[at].id]|
    ensures var rows, kids, depth := Flat(f), f.kids[Flat(f)[at].id], Flat(f)[at].depth;
            at < a < b < |rows| && rows[a] == Row(kids[i], depth + 1) && rows[b] == Row(kids[j], depth + 1)
  {
    var v, depth := Flat(f)[at].id, Flat(f)[at].depth;
    SubtreesAreContiguous(f, at);
    KidsOneDeeper(f, v, depth);
    var c, d := NodesInOrder(f, f.kids[v], depth + 1, i, j);
    var block := Block(f, v, depth);
    assert block[c + 1] == Row(f.kids[v][i], depth + 1) && block[d + 1] == Row(f.kids[v][j], depth + 1);
    assert Flat(f)[at..at + |block|][c + 1] == Flat(f)[at + (c + 1)];
    assert Flat(f)[at..at + |block|][d + 1] == Flat(f)[at + (d + 1)];
    a, b := at + 1 + c, at + 1 + d;
  }

  /** So are the roots. */
  lemma RootsInOrder(f: Forest, i: nat, j: nat) returns (a: nat, b: nat)
    requires WellFormed(f) && i < j < |f.roots|
    ensures a < b < |Flat(f)| && Flat(f)[a] == Row(f.roots[i], 0) && Flat(f)[b] == Row(f.roots[j], 0)
  {
    a, b := NodesInOrder(f, f.roots, 0, i, j);
  }

  // ---- Each span once ---------------------------------------------------------------------

  ghost predicate DistinctRows(rows: seq<Row>) {
    forall i, j :: 0 <= i < j < |rows| ==> rows[i].id != rows[j].id
  }

  lemma JoinDistinct(a: seq<Row>, b: seq<Row>)
    requires DistinctRows(a) && DistinctRows(b)
    requires forall r, q :: r in a && q in b ==> r.id != q.id
    ensures DistinctRows(a + b)
  {
    var rows := a + b;
    forall i, j | 0 <= i < j < |rows| ensures rows[i].id != rows[j].id {
      if i < |a| <= j {
        assert a[i] in a && b[j - |a|] in b;
      }
    }
  }

  lemma {:induction false} BlockDistinct(f: Forest, v: Id, depth: nat)
    requires WellFormed(f) && Rooted(f, v, depth)
    ensures DistinctRows(Block(f, v, depth))
    decreases |f.ids| - depth, 1, 0
  {
    KidsOneDeeper(f, v, depth);
    assert LinkOk(f, v) && KidsOk(f, v);
    PreorderDistinct(f, f.kids[v], depth + 1);
    forall r, q | r in [Row(v, depth)] && q in Preorder(f, f.kids[v], depth + 1) ensures r.id != q.id {
      PreorderRows(f, f.kids[v], depth + 1, q);
      var n :| n in f.kids[v] && Under(f, q.id, n, q.depth - depth - 1);
      UnderRooted(f, q.id, n, q.depth - depth - 1, depth + 1);
      if q.id == v {
        DepthUnique(f, v, depth, q.depth);
      }
    }
    JoinDistinct([Row(v, depth)], Preorder(f, f.kids[v], depth + 1));
  }

  lemma {:induction false} PreorderDistinct(f: Forest, nodes: seq<Id>, depth: nat)
    requires WellFormed(f) && AllAt(f, nodes, depth) && Distinct(nodes)
    ensures DistinctRows(Preorder(f, nodes, depth))
    decreases |f.ids| - depth, 2, |nodes|
  {
    if nodes != [] {
      BlockDistinct(f, nodes[0], depth);
      PreorderDistinct(f, nodes[1..], depth);
      forall r, q | r in Block(f, nodes[0], depth) && q in Preorder(f, nodes[1..], depth) ensures r.id != q.id {
        DisjointBlocks(f, nodes, depth, r, q);
      }
      JoinDistinct(Block(f, nodes[0], depth), Preorder(f, nodes[1..], depth));
    }
  }

  lemma DisjointBlocks(f: Forest, nodes: seq<Id>, depth: nat, r: Row, q: Row)
    requires WellFormed(f) && AllAt(f, nodes, depth) && Distinct(nodes) && nodes != []
    requires r in Block(f, nodes[0], depth) && q in Preorder(f, nodes[1..], depth)
    ensures r.id != q.id
  {
    BlockRows(f, nodes[0], depth, r);
    PreorderRows(f, nodes[1..], depth, q);
    var n :| n in nodes[1..] && Under(f, q.id, n, q.depth - depth);
    if r.id == q.id {
      UnderRooted(f, r.id, nodes[0], r.depth - depth, depth);
      UnderRooted(f, q.id, n, q.depth - depth, depth);
      DepthUnique(f, r.id, r.depth, q.depth);
      UnderUnique(f, r.id, nodes[0], n, r.depth - depth);
    }
  }

  /** No span is listed twice. */
  lemma FlatListsOnce(f: Forest)
    requires WellFormed(f)
    ensures DistinctRows(Flat(f))
  {
    PreorderDistinct(f, f.roots, 0);
  }

  // ---- When no span is lost ---------------------------------------------------------------

  /** `u` is a proper descendant of `v`. */
  ghost predicate Below(f: Forest, u: Id, v: Id) {
    exists k: nat :: k > 0 && Under(f, u, v, k)
  }

  ghost predicate Acyclic(f: Forest) {
    forall v :: v in f.ids ==> !Below(f, v, v)
  }

  ghost predicate Listed(f: Forest, v: Id)
    requires WellFormed(f)
  {
    exists d: nat :: Row(v, d) in Flat(f)
  }

  /** Climbing from `v`, `seen` being the proper descendants met on the way. */
  lemma {:induction false} ClimbToRoot(f: Forest, v: Id, seen: set<Id>) returns (d: nat)
    requires WellFormed(f) && Acyclic(f) && v in f.ids && seen <= f.ids && v !in seen
    requires forall u :: u in seen ==> Below(f, u, v)
    ensures Rooted(f, v, d)
    decreases f.ids - seen
  {
    if v in f.up {
      var p, more := f.up[v], seen + {v};
      assert LinkOk(f, v);
      forall u | u in more ensures Below(f, u, p) {
        if u == v {
          assert Under(f, p, p, 0) && Under(f, v, p, 1);
        } else {
          var k: nat :| k > 0 && Under(f, u, v, k);
          KidUnder(f, u, v, p, k);
        }
      }
      var e := ClimbToRoot(f, p, more);
      d := e + 1;
    } else {
      d := 0;
    }
  }

  /** No span is lost if and only if no span is its own ancestor. */
  lemma NothingLostIffAcyclic(f: Forest)
    requires WellFormed(f)
    ensures (forall v :: v in f.ids ==> Listed(f, v)) <==> Acyclic(f)
  {
    if Acyclic(f) {
      forall v | v in f.ids ensures Listed(f, v) {
        var d := ClimbToRoot(f, v, {});
        FlatHasExactlyTheRooted(f, Row(v, d));
      }
    }
    forall v | v in f.ids && Listed(f, v) ensures !Below(f, v, v) {
      ListedNotBelowItself(f, v);
    }
  }

  lemma ListedNotBelowItself(f: Forest, v: Id)
    requires WellFormed(f) && Listed(f, v)
    ensures !Below(f, v, v)
  {
    var d: nat :| Row(v, d) in Flat(f);
    FlatHasExactlyTheRooted(f, Row(v, d));
    if k: nat :| k > 0 && Under(f, v, v, k) {
      UnderRooted(f, v, v, k, d);
      DepthUnique(f, v, d, d + k);
    }
  }
}
