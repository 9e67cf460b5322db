/** Graphs with at most one out-edge per node, and their cycles.

    `w[v]` is the node `v` waits for, or -1.  A cycle is listed in edge order.
  */
module WaitForGraph {

  import opened Sorting

  ghost predicate IsGraph(w: seq<int>) {
    forall v :: 0 <= v < |w| ==> -1 <= w[v] < |w|
  }

  ghost function Nodes(c: seq<int>): set<int> { set v | v in c }

  /** Each element waits for its successor, and the last one for the first. */
  ghost predicate IsCycle(w: seq<int>, c: seq<int>) {
    && c != []
    && Distinct(c)
    && (forall i :: 0 <= i < |c| ==> 0 <= c[i] < |w|)
    && (forall i :: 0 <= i < |c| - 1 ==> w[c[i]] == c[i + 1])
    && w[c[|c| - 1]] == c[0]
  }

  /** A walk: consecutive nodes joined by edges, no node twice. */
  ghost predicate IsWalk(w: seq<int>, p: seq<int>) {
    && Distinct(p)
    && (forall i :: 0 <= i < |p| ==> 0 <= p[i] < |w|)
    && (forall i :: 0 <= i < |p| - 1 ==> w[p[i]] == p[i + 1])
  }

  ghost predicate Closed(w: seq<int>, s: set<int>) {
    forall v :: v in s && 0 <= v < |w| && w[v] != -1 ==> w[v] in s
  }

  lemma CycleIsClosed(w: seq<int>, c: seq<int>)
    requires IsCycle(w, c)
    ensures Closed(w, Nodes(c))
    ensures forall v :: v in Nodes(c) ==> 0 <= v < |w| && w[v] in Nodes(c)
  {
    forall v | v in Nodes(c) ensures 0 <= v < |w| && w[v] in Nodes(c) {
      var i :| 0 <= i < |c| && c[i] == v;
      if i < |c| - 1 {
        assert w[v] == c[i + 1];
      }
    }
  }

  /** A cycle that meets a closed set lies inside it. */
  lemma CycleInClosed(w: seq<int>, c: seq<int>, s: set<int>, v: int)
    requires IsCycle(w, c) && Closed(w, s) && v in c && v in s
    ensures Nodes(c) <= s
  {
    var i :| 0 <= i < |c| && c[i] == v;
    CycleIsClosed(w, c);
    var j := i;
    while j < |c| - 1
      invariant i <= j < |c|
      invariant c[j] in s
    {
      j := j + 1;
    }
    assert c[|c| - 1] in c;
    assert c[0] in s && c[0] in c;
    var k := 0;
    while k < |c| - 1
      invariant 0 <= k < |c|
      invariant forall m :: 0 <= m <= k ==> c[m] in s
    {
      assert c[k] in c && c[k + 1] in c;
      k := k + 1;
    }
  }

  lemma CyclesMeetOnlyIfEqual(w: seq<int>, c: seq<int>, d: seq<int>, v: int)
    requires IsCycle(w, c) && IsCycle(w, d) && v in c && v in d
    ensures Nodes(c) == Nodes(d)
  {
    CycleIsClosed(w, c);
    CycleIsClosed(w, d);
    CycleInClosed(w, c, Nodes(d), v);
    CycleInClosed(w, d, Nodes(c), v);
  }

  /** A cycle that meets a walk runs along it to its end and beyond. */
  lemma CycleFollowsWalk(w: seq<int>, c: seq<int>, p: seq<int>, v: int)
    requires IsCycle(w, c) && IsWalk(w, p) && v in c && v in p
    ensures p[|p| - 1] in c && w[p[|p| - 1]] in c
  {
    CycleIsClosed(w, c);
    var i :| 0 <= i < |p| && p[i] == v;
    var j := i;
    while j < |p| - 1
      invariant i <= j < |p|
      invariant p[j] in c
    {
      assert p[j] in Nodes(c);
      j := j + 1;
    }
    assert p[|p| - 1] in Nodes(c);
  }

  /** A walk's tail that returns to its own first node is a cycle. */
  lemma WalkTailIsCycle(w: seq<int>, p: seq<int>, at: int)
    requires IsWalk(w, p) && 0 <= at < |p| && w[p[|p| - 1]] == p[at]
    ensures IsCycle(w, p[at..])
  {
  }
}
