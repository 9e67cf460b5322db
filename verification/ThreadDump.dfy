/** Deadlock detection in thread dumps: internal/jvmdiag/threaddump.go. */
module ThreadDump {

  import opened Finite
  import opened Sorting
  import opened WaitForGraph

  datatype Thread = Thread(name: string, waitingOn: string, holds: seq<string>)
  datatype Source = Jvm | Inferred
  datatype Deadlock = Deadlock(threads: seq<string>, source: Source, detail: string)

  /** The last of the first `n` threads that holds `addr`, or -1. */
  function LastHolder(threads: seq<Thread>, n: nat, addr: string): (r: int)
    requires n <= |threads|
    ensures -1 <= r < n
  {
    if n == 0 then -1
    else if addr in threads[n - 1].holds then n - 1
    else LastHolder(threads, n - 1, addr)
  }

  /** The wait-for graph a dump describes.  A thread waiting for its own lock waits for nobody. */
  function WaitEdge(threads: seq<Thread>, i: nat): (r: int)
    requires i < |threads|
    ensures -1 <= r < |threads| && r != i
  {
    var o := LastHolder(threads, |threads|, threads[i].waitingOn);
    if threads[i].waitingOn == "" || o == i then -1 else o
  }

  ghost function WaitGraph(threads: seq<Thread>): (w: seq<int>)
    ensures IsGraph(w) && |w| == |threads|
  {
    seq(|threads|, i requires 0 <= i < |threads| => WaitEdge(threads, i))
  }

  /** In terms of the dump: `i` waits for a lock that `j`, and nobody listed after `j`, holds. */
  ghost predicate WaitsForLockOf(threads: seq<Thread>, i: int, j: int) {
    && 0 <= i < |threads| && 0 <= j < |threads| && i != j
    && threads[i].waitingOn != "" && threads[i].waitingOn in threads[j].holds
    && forall k :: j < k < |threads| ==> threads[i].waitingOn !in threads[k].holds
  }

  lemma {:induction false} LastHolderIs(threads: seq<Thread>, n: nat, addr: string, j: nat)
    requires j < n <= |threads|
    ensures LastHolder(threads, n, addr) == j <==>
            addr in threads[j].holds && forall k :: j < k < n ==> addr !in threads[k].holds
  {
    if addr !in threads[n - 1].holds && j < n - 1 {
      LastHolderIs(threads, n - 1, addr, j);
    }
  }

  /** The edges of the graph are just that. */
  lemma WaitGraphIs(threads: seq<Thread>, i: nat, j: nat)
    requires i < |threads| && j < |threads|
    ensures WaitGraph(threads)[i] == j <==> WaitsForLockOf(threads, i, j)
  {
    LastHolderIs(threads, |threads|, threads[i].waitingOn, j);
  }

  /** A deadlock: different threads, each waiting for a lock of the next, and the last for one of the first. */
  ghost predicate IsDeadlock(threads: seq<Thread>, c: seq<int>) {
    && c != [] && Distinct(c) && (forall i :: 0 <= i < |c| ==> 0 <= c[i] < |threads|)
    && (forall i :: 0 <= i < |c| - 1 ==> WaitsForLockOf(threads, c[i], c[i + 1]))
    && WaitsForLockOf(threads, c[|c| - 1], c[0])
  }

  lemma CycleIsDeadlock(threads: seq<Thread>, c: seq<int>)
    ensures IsCycle(WaitGraph(threads), c) <==> IsDeadlock(threads, c)
  {
    if c != [] && forall i :: 0 <= i < |c| ==> 0 <= c[i] < |threads| {
      forall i | 0 <= i < |c| - 1 ensures WaitGraph(threads)[c[i]] == c[i + 1] <==> WaitsForLockOf(threads, c[i], c[i + 1]) {
        WaitGraphIs(threads, c[i], c[i + 1]);
      }
      WaitGraphIs(threads, c[|c| - 1], c[0]);
    }
  }

  ghost predicate IsOwnerMap(threads: seq<Thread>, n: nat, m: map<string, int>)
    requires n <= |threads|
  {
    forall addr :: if addr in m then m[addr] == LastHolder(threads, n, addr) && m[addr] >= 0
                   else LastHolder(threads, n, addr) == -1
  }

  method OwnersOf(threads: seq<Thread>) returns (ownerOf: map<string, int>)
    ensures IsOwnerMap(threads, |threads|, ownerOf)
  {
    ownerOf := map[];
    for i := 0 to |threads|
      invariant IsOwnerMap(threads, i, ownerOf)
    {
      ghost var before := ownerOf;
      var held := threads[i].holds;
      for j := 0 to |held|
        invariant forall addr :: addr in ownerOf <==> addr in before || addr in held[..j]
        invariant forall addr :: addr in ownerOf ==>
                                   ownerOf[addr] == if addr in held[..j] then i else before[addr]
      {
        ownerOf := ownerOf[held[j] := i];
        assert held[..j + 1] == held[..j] + [held[j]];
      }
      assert held[..|held|] == held;
    }
  }

  function NamesOf(threads: seq<Thread>, c: seq<int>): (r: seq<string>)
    requires forall i :: 0 <= i < |c| ==> 0 <= c[i] < |threads|
    ensures |r| == |c|
    ensures forall i :: 0 <= i < |c| ==> r[i] == threads[c[i]].name
  {
    seq(|c|, i requires 0 <= i < |c| => threads[c[i]].name)
  }

  /** Every cycle that touches `d` has been listed. */
  ghost predicate ListsCyclesIn(w: seq<int>, cycles: seq<seq<int>>, d: set<int>) {
    forall c, v :: IsCycle(w, c) && v in c && v in d ==>
      exists i :: 0 <= i < |cycles| && Nodes(cycles[i]) == Nodes(c)
  }

  /** Every listed cycle is real and lies inside `d`, and no two of them share a node. */
  ghost predicate ListsOnlyCycles(w: seq<int>, cycles: seq<seq<int>>, d: set<int>) {
    && (forall i :: 0 <= i < |cycles| ==> IsCycle(w, cycles[i]) && Nodes(cycles[i]) <= d)
    && (forall i, j :: 0 <= i < j < |cycles| ==> Nodes(cycles[i]) !! Nodes(cycles[j]))
  }

  /** One walk: `p` starts outside the finished set `d` and stops at `node`. */
  ghost predicate Walked(w: seq<int>, d: set<int>, p: seq<int>, node: int) {
    && p != [] && IsWalk(w, p)
    && (forall v :: v in p ==> v !in d)
    && node == w[p[|p| - 1]]
    && (node == -1 || node in d || node in p)
  }

  lemma WalkClosesSet(w: seq<int>, d: set<int>, p: seq<int>, node: int)
    requires IsGraph(w) && Closed(w, d) && Walked(w, d, p, node)
    ensures Closed(w, d + Nodes(p))
  {
    forall v | v in d + Nodes(p) && 0 <= v < |w| && w[v] != -1 ensures w[v] in d + Nodes(p) {
      if v !in d {
        var i :| 0 <= i < |p| && p[i] == v;
        if i < |p| - 1 {
          assert w[v] == p[i + 1];
        }
      }
    }
  }

  /** A walk that stops at the end of the graph or in the finished set reveals no cycle. */
  lemma NoCycleOnWalk(w: seq<int>, d: set<int>, p: seq<int>, node: int, c: seq<int>, v: int)
    requires IsGraph(w) && Closed(w, d) && Walked(w, d, p, node) && (node == -1 || node in d)
    requires IsCycle(w, c) && v in p
    ensures v !in c
  {
    if v in c {
      CycleFollowsWalk(w, c, p, v);
      if node in d {
        CycleInClosed(w, c, d, node);
      }
    }
  }

  /** What has been reported after the threads in `d` were walked. */
  ghost predicate Reported(threads: seq<Thread>, d: set<int>, out: seq<Deadlock>, cycles: seq<seq<int>>) {
    && ListsOnlyCycles(WaitGraph(threads), cycles, d)
    && ListsCyclesIn(WaitGraph(threads), cycles, d)
    && |out| == |cycles|
    && (forall i :: 0 <= i < |out| ==> Names(threads, out[i], cycles[i]))
  }

  ghost predicate Names(threads: seq<Thread>, deadlock: Deadlock, c: seq<int>) {
    && (forall k :: 0 <= k < |c| ==> 0 <= c[k] < |threads|)
    && deadlock == Deadlock(NamesOf(threads, c), Inferred, "")
  }

  /** The edge set, filled in place and only read from then on. */
  method WaitsFor(threads: seq<Thread>) returns (w: seq<int>)
    ensures w == WaitGraph(threads)
  {
    var n := |threads|;
    var ownerOf := OwnersOf(threads);
    var waitsFor := new int[n](_ => -1);
    for i := 0 to n
      invariant forall k :: 0 <= k < i ==> waitsFor[k] == WaitEdge(threads, k)
      invariant forall k :: i <= k < n ==> waitsFor[k] == -1
    {
      if threads[i].waitingOn != "" && threads[i].waitingOn in ownerOf && ownerOf[threads[i].waitingOn] != i {
        waitsFor[i] := ownerOf[threads[i].waitingOn];
      }
    }
    w := waitsFor[..];
  }

  /** The threads in `d` have been walked, whole chains of them, and all that is in them reported. */
  ghost predicate Scanned(threads: seq<Thread>, mark: seq<Mark>, d: set<int>, out: seq<Deadlock>, cycles: seq<seq<int>>) {
    && MarksDone(mark, d)
    && (forall v :: v in d ==> 0 <= v < |threads|)
    && Closed(WaitGraph(threads), d) && Reported(threads, d, out, cycles)
  }

  ghost predicate ReportsAllCycles(threads: seq<Thread>, out: seq<Deadlock>) {
    exists cycles :: Reported(threads, Range(|threads|), out, cycles)
  }

  /** Cycle search over one dump.  The ghost results are the cycles as thread positions, and how
      many times the inner loop ran. */
  method InferDeadlocks(threads: seq<Thread>)
    returns (out: seq<Deadlock>, ghost cycles: seq<seq<int>>, ghost walked: nat)
    ensures Reported(threads, Range(|threads|), out, cycles) && ReportsAllCycles(threads, out)
    ensures walked == |threads|
  {
    var n := |threads|;
    var waitsFor := WaitsFor(threads);
    var mark := new Mark[n](_ => Unvisited);
    out, cycles, walked := [], [], 0;
    ghost var d: set<int> := {};
    for start := 0 to n
      invariant Scanned(threads, mark[..], d, out, cycles)
      invariant forall v :: 0 <= v < start ==> v in d
      invariant walked == |d|
    {
      if mark[start] == Unvisited {
        ghost var p;
        out, cycles, p := Visit(threads, waitsFor, mark, start, d, out, cycles);
        walked := walked + |p|;
        d := d + Nodes(p);
      }
    }
    AllScanned(n, d);
  }

  lemma AllScanned(n: nat, d: set<int>)
    requires (forall v :: v in d ==> 0 <= v < n) && forall v :: 0 <= v < n ==> v in d
    ensures d == Range(n) && |d| == n
  {
    assert forall v :: v in d <==> v in Range(n);
  }

  /** What `InferDeadlocks` promises: the deadlocks of the dump, all of them and each once. */
  lemma ReportedIsExact(threads: seq<Thread>, out: seq<Deadlock>, cycles: seq<seq<int>>)
    requires Reported(threads, Range(|threads|), out, cycles)
    ensures forall i :: 0 <= i < |cycles| ==> IsDeadlock(threads, cycles[i]) && Names(threads, out[i], cycles[i])
    ensures forall c :: IsDeadlock(threads, c) ==> exists i :: 0 <= i < |cycles| && Nodes(cycles[i]) == Nodes(c)
    ensures forall i, j :: 0 <= i < j < |cycles| ==> Nodes(cycles[i]) !! Nodes(cycles[j])
  {
    forall i | 0 <= i < |cycles| ensures IsDeadlock(threads, cycles[i]) {
      CycleIsDeadlock(threads, cycles[i]);
    }
    forall c | IsDeadlock(threads, c) ensures exists i :: 0 <= i < |cycles| && Nodes(cycles[i]) == Nodes(c) {
      CycleIsDeadlock(threads, c);
      assert c[0] in c && c[0] in Range(|threads|);
    }
  }

  /** Walks the chain from one unvisited thread, as far as it is new. */
  method Visit(threads: seq<Thread>, waitsFor: seq<int>, mark: array<Mark>, start: int, ghost d: set<int>,
               out: seq<Deadlock>, ghost cycles: seq<seq<int>>)
    returns (out': seq<Deadlock>, ghost cycles': seq<seq<int>>, ghost p: seq<int>)
    requires 0 <= start < mark.Length == |threads| && waitsFor == WaitGraph(threads)
    requires Scanned(threads, mark[..], d, out, cycles) && mark[start] == Unvisited
    modifies mark
    ensures Scanned(threads, mark[..], d + Nodes(p), out', cycles')
    ensures start in p && |d + Nodes(p)| == |d| + |p|
  {
    var path, node := WalkFrom(waitsFor, mark, start, d);
    WalkClosesSet(WaitGraph(threads), d, path, node);
    if node != -1 && mark[node] == OnStack {
      var at := IndexOf(path, node);
      AddCycle(threads, d, path, node, at, out, cycles);
      out' := out + [Deadlock(NamesOf(threads, path[at..]), Inferred, "")];
      cycles' := cycles + [path[at..]];
    } else {
      AddNothing(threads, d, path, node, out, cycles);
      out', cycles' := out, cycles;
    }
    FinishPath(mark, path, d);
    WalkedCount(d, path);
    p := path;
  }

  method IndexOf(path: seq<int>, node: int) returns (at: nat)
    requires node in path
    ensures at < |path| && path[at] == node
  {
    at := 0;
    while at < |path| && path[at] != node
      invariant at <= |path| && node !in path[..at]
    {
      at := at + 1;
    }
    assert path[..|path|] == path;
  }

  datatype Mark = Unvisited | OnStack | Done

  ghost predicate MarksDone(mark: seq<Mark>, d: set<int>) {
    forall v :: 0 <= v < |mark| ==> mark[v] == if v in d then Done else Unvisited
  }

  ghost predicate MarksPath(mark: seq<Mark>, d: set<int>, p: seq<int>) {
    forall v :: 0 <= v < |mark| ==> mark[v] == if v in p then OnStack else if v in d then Done else Unvisited
  }

  lemma {:induction false} WalkedCount(d: set<int>, p: seq<int>)
    requires Distinct(p) && forall v :: v in p ==> v !in d
    ensures |d + Nodes(p)| == |d| + |p|
  {
    if p == [] {
      assert d + Nodes(p) == d;
    } else {
      var q, last := p[..|p| - 1], p[|p| - 1];
      assert p == q + [last];
      assert last !in q;
      WalkedCount(d, q);
      assert d + Nodes(p) == (d + Nodes(q)) + {last};
    }
  }

  method WalkFrom(waitsFor: seq<int>, mark: array<Mark>, start: int, ghost d: set<int>)
    returns (path: seq<int>, node: int)
    requires 0 <= start < mark.Length == |waitsFor| && mark[start] == Unvisited
    requires IsGraph(waitsFor)
    requires MarksDone(mark[..], d)
    modifies mark
    ensures Walked(waitsFor, d, path, node) && path[0] == start
    ensures MarksPath(mark[..], d, path)
  {
    path, node := [], start;
    while node != -1 && mark[node] == Unvisited
      invariant -1 <= node < |waitsFor|
      invariant IsWalk(waitsFor, path) && (forall v :: v in path ==> v !in d)
      invariant if path == [] then node == start else path[0] == start && node == waitsFor[path[|path| - 1]]
      invariant MarksPath(mark[..], d, path)
      decreases |waitsFor| - |path|
    {
      assert node !in path;
      mark[node] := OnStack;
      path := path + [node];
      DistinctFits(path, |waitsFor|);
      node := waitsFor[node];
    }
  }

  lemma DistinctFits(p: seq<int>, n: nat)
    requires Distinct(p) && forall i :: 0 <= i < |p| ==> 0 <= p[i] < n
    ensures |p| <= n
  {
    WalkedCount({}, p);
    assert {} + Nodes(p) == Nodes(p);
    SubsetSize(Nodes(p), Range(n));
  }

  method FinishPath(mark: array<Mark>, path: seq<int>, ghost d: set<int>)
    requires forall i :: 0 <= i < |path| ==> 0 <= path[i] < mark.Length
    requires MarksPath(mark[..], d, path)
    modifies mark
    ensures MarksDone(mark[..], d + Nodes(path))
  {
    for k := 0 to |path|
      invariant forall v :: 0 <= v < mark.Length ==>
                              mark[v] == if v in path[..k] then Done else if v in path then OnStack
                                         else if v in d then Done else Unvisited
    {
      mark[path[k]] := Done;
      assert path[..k + 1] == path[..k] + [path[k]];
    }
    assert path[..|path|] == path;
  }

  /** The walk came back to `path[at]`: its tail is the one new cycle. */
  lemma AddCycle(threads: seq<Thread>, d: set<int>, path: seq<int>, node: int, at: int,
                 out: seq<Deadlock>, cycles: seq<seq<int>>)
    requires Closed(WaitGraph(threads), d) && Walked(WaitGraph(threads), d, path, node)
    requires 0 <= at < |path| && path[at] == node
    requires Reported(threads, d, out, cycles)
    ensures forall k :: 0 <= k < |path[at..]| ==> 0 <= path[at..][k] < |threads|
    ensures Reported(threads, d + Nodes(path), out + [Deadlock(NamesOf(threads, path[at..]), Inferred, "")],
                     cycles + [path[at..]])
  {
    var w, tail := WaitGraph(threads), path[at..];
    WalkTailIsCycle(w, path, at);
    OneMoreCycle(w, cycles, d, tail, d + Nodes(path));
    TailListed(w, d, path, node, at, cycles);
    assert Names(threads, Deadlock(NamesOf(threads, tail), Inferred, ""), tail);
  }

  lemma OneMoreCycle(w: seq<int>, cycles: seq<seq<int>>, d: set<int>, c: seq<int>, e: set<int>)
    requires ListsOnlyCycles(w, cycles, d) && IsCycle(w, c) && d <= e
    requires forall v :: v in c ==> v in e && v !in d
    ensures ListsOnlyCycles(w, cycles + [c], e)
  {
    forall i | 0 <= i < |cycles| ensures Nodes(cycles[i]) !! Nodes(c) {
      assert Nodes(cycles[i]) <= d;
    }
  }

  lemma TailListed(w: seq<int>, d: set<int>, path: seq<int>, node: int, at: int, cycles: seq<seq<int>>)
    requires Walked(w, d, path, node) && 0 <= at < |path| && path[at] == node && ListsCyclesIn(w, cycles, d)
    ensures ListsCyclesIn(w, cycles + [path[at..]], d + Nodes(path))
  {
    var all := cycles + [path[at..]];
    forall c, v | IsCycle(w, c) && v in c && v in d + Nodes(path)
      ensures exists i :: 0 <= i < |all| && Nodes(all[i]) == Nodes(c)
    {
      if v in d {
        var i :| 0 <= i < |cycles| && Nodes(cycles[i]) == Nodes(c);
        assert all[i] == cycles[i];
      } else {
        OnlyTailIsNew(w, d, path, node, at, c, v);
        assert all[|cycles|] == path[at..];
      }
    }
  }

  /** A cycle through the new path is its tail. */
  lemma OnlyTailIsNew(w: seq<int>, d: set<int>, path: seq<int>, node: int, at: int, c: seq<int>, v: int)
    requires Walked(w, d, path, node) && 0 <= at < |path| && path[at] == node
    requires IsCycle(w, c) && v in c && v in path
    ensures Nodes(path[at..]) == Nodes(c)
  {
    WalkTailIsCycle(w, path, at);
    CycleFollowsWalk(w, c, path, v);
    assert path[at] in path[at..];
    CyclesMeetOnlyIfEqual(w, c, path[at..], node);
  }

  lemma AddNothing(threads: seq<Thread>, d: set<int>, path: seq<int>, node: int,
                   out: seq<Deadlock>, cycles: seq<seq<int>>)
    requires Closed(WaitGraph(threads), d) && Walked(WaitGraph(threads), d, path, node)
    requires (node == -1 || node in d) && Reported(threads, d, out, cycles)
    ensures Reported(threads, d + Nodes(path), out, cycles)
  {
    var w := WaitGraph(threads);
    forall c, v | IsCycle(w, c) && v in c && v in d + Nodes(path)
      ensures exists i :: 0 <= i < |cycles| && Nodes(cycles[i]) == Nodes(c)
    {
      if v in path {
        NoCycleOnWalk(w, d, path, node, c, v);
      }
    }
  }
}
