/** Joining the JVM's own deadlock reports with the inferred ones: internal/jvmdiag/threaddump.go. */
module DeadlockMerge {

  import opened Firsts
  import opened Sorting
  import opened Strings
  import opened ThreadDump
  import WaitForGraph
  import Finite

  const NUL := '\0'

  /** Identifies a cycle by its members, wherever the walk happened to start. */
  function ParticipantKey(names: seq<string>): string {
    Join(NUL, StableSort(StringLess, names))
  }

  ghost predicate NulFree(names: seq<string>) {
    Free(NUL, names)
  }

  /** Two reports get the same key exactly when they name the same threads. */
  lemma KeyNamesTheThreads(a: seq<string>, b: seq<string>)
    requires a != [] && b != [] && NulFree(a) && NulFree(b)
    ensures ParticipantKey(a) == ParticipantKey(b) <==> multiset(a) == multiset(b)
  {
    var sa, sb := StableSort(StringLess, a), StableSort(StringLess, b);
    StringLessIsTotal();
    StableSortSorts(StringLess, a);
    StableSortSorts(StringLess, b);
    SameElements(a, sa);
    SameElements(b, sb);
    if multiset(a) == multiset(b) {
      SortedUnique(StringLess, sa, sb);
    }
    if ParticipantKey(a) == ParticipantKey(b) {
      JoinInjective(NUL, sa, sb);
    }
  }

  /** Without the NUL condition the key is ambiguous: two names can be confused with one. */
  lemma KeyAmbiguousWithNul(s: string, t: string)
    requires StringLess(s, t)
    ensures ParticipantKey([s + [NUL] + t]) == ParticipantKey([s, t])
  {
    SortOne(s + [NUL] + t);
    SortTwo(s, t);
    JoinPair(s, t);
    assert Join(NUL, [s + [NUL] + t]) == s + [NUL] + t;
  }

  lemma JoinPair(s: string, t: string)
    ensures Join(NUL, [s, t]) == s + [NUL] + t
  {
    assert [s, t][1..] == [t];
  }

  lemma SortOne(s: string)
    ensures StableSort(StringLess, [s]) == [s]
  {
    var r := StableSort(StringLess, [s]);
    SameElements(r, [s]);
    assert r[0] in [s];
  }

  lemma SortTwo(s: string, t: string)
    requires StringLess(s, t)
    ensures StableSort(StringLess, [s, t]) == [s, t]
  {
    StringLessIsTotal();
    StableSortSorts(StringLess, [s, t]);
    assert Sorted(StringLess, [s, t]) by { StringLessTrichotomy(s, t); }
    SortedUnique(StringLess, StableSort(StringLess, [s, t]), [s, t]);
  }

  datatype ThreadKey = ThreadKey(text: string)

  const BLANK := ThreadKey("")

  function KeyOf(d: Deadlock): ThreadKey { ThreadKey(ParticipantKey(d.threads)) }

  ghost function Keys(all: seq<Deadlock>): (keys: seq<ThreadKey>)
    ensures |keys| == |all|
  {
    seq(|all|, i requires 0 <= i < |all| => KeyOf(all[i]))
  }

  ghost predicate At(all: seq<Deadlock>, out: seq<Deadlock>, pos: seq<nat>) {
    |out| == |pos| && forall i :: 0 <= i < |pos| ==> pos[i] < |all| && out[i] == all[pos[i]]
  }

  ghost predicate KeepsFirsts(all: seq<Deadlock>, out: seq<Deadlock>) {
    exists pos :: At(all, out, pos) && FirstsOf(Keys(all), BLANK, |all|, pos)
  }

  lemma AtMore(all: seq<Deadlock>, out: seq<Deadlock>, pos: seq<nat>, n: nat)
    requires At(all, out, pos) && n < |all|
    ensures At(all, out + [all[n]], pos + [n])
  {
  }

  /** Keeps the first report of every cycle; `pos` says where each came from. */
  method MergeDeadlocks(reported: seq<Deadlock>, inferred: seq<Deadlock>)
    returns (out: seq<Deadlock>, ghost pos: seq<nat>)
    ensures KeepsFirsts(reported + inferred, out)
    ensures At(reported + inferred, out, pos)
    ensures FirstsOf(Keys(reported + inferred), BLANK, |reported| + |inferred|, pos)
  {
    var all := reported + inferred;
    ghost var keys := Keys(all);
    var seen: set<ThreadKey> := {};
    out, pos := [], [];
    for n := 0 to |all|
      invariant At(all, out, pos) && FirstsOf(keys, BLANK, n, pos)
      invariant forall key :: key in seen <==> Covered(keys, pos, key)
    {
      var key := KeyOf(all[n]);
      Next(keys, BLANK, n, pos);
      if key != BLANK && key !in seen {
        AtMore(all, out, pos, n);
        out, pos := out + [all[n]], pos + [n];
        seen := seen + {key};
      }
    }
  }

  ghost predicate Clean(d: Deadlock) { NulFree(d.threads) }

  /** Reports without a key, which the program drops: those that name nobody, or one nameless thread. */
  predicate Keyless(names: seq<string>) { names == [] || names == [""] }

  /** Of all reports naming one set of threads exactly one is kept, the earliest. */
  lemma OneReportPerThreadSet(reported: seq<Deadlock>, inferred: seq<Deadlock>, out: seq<Deadlock>, pos: seq<nat>, k: nat)
    returns (i: nat)
    requires At(reported + inferred, out, pos)
    requires FirstsOf(Keys(reported + inferred), BLANK, |reported| + |inferred|, pos)
    requires forall d :: d in reported + inferred ==> Clean(d)
    requires k < |reported| + |inferred| && !Keyless((reported + inferred)[k].threads)
    ensures i < |out| && pos[i] <= k
    ensures forall j :: 0 <= j < |out| ==>
                          (multiset(out[j].threads) == multiset((reported + inferred)[k].threads) <==> j == i)
  {
    var all := reported + inferred;
    var keys := Keys(all);
    assert all[k] in all;
    KeyEmptyIff(all[k].threads);
    i := Earliest(keys, BLANK, pos, k);
    forall j | 0 <= j < |out|
      ensures multiset(out[j].threads) == multiset(all[k].threads) <==> j == i
    {
      assert all[pos[j]] in all;
      KeyEmptyIff(out[j].threads);
      KeyNamesTheThreads(out[j].threads, all[k].threads);
      if keys[pos[j]] == keys[k] {
        Once(keys, BLANK, pos, i, j);
      }
    }
  }

  /** The dump's final list: every cycle of the wait-for graph is in it under its thread names,
      and where the JVM reported that same set of threads its wording is the one kept. */
  lemma EveryCycleIsReported(threads: seq<Thread>, reported: seq<Deadlock>, inferred: seq<Deadlock>,
                             cycles: seq<seq<int>>, out: seq<Deadlock>, pos: seq<nat>, c: seq<int>)
    returns (i: nat)
    requires Reported(threads, Finite.Range(|threads|), inferred, cycles)
    requires At(reported + inferred, out, pos)
    requires FirstsOf(Keys(reported + inferred), BLANK, |reported| + |inferred|, pos)
    requires forall t :: t in threads ==> NUL !in t.name
    requires forall d :: d in reported ==> Clean(d)
    requires IsDeadlock(threads, c)
    ensures i < |out| && multiset(out[i].threads) == multiset(NamesOf(threads, c))
    ensures (exists d :: d in reported && multiset(d.threads) == multiset(NamesOf(threads, c))) ==> out[i] in reported
  {
    InferredClean(threads, inferred, cycles);
    var k := FindCycle(threads, inferred, cycles, c);
    NoneAlone(threads, c);
    KeylessByElements(inferred[k].threads, NamesOf(threads, c));
    i := InferredIsKept(reported, inferred, out, pos, k);
  }

  lemma InferredIsKept(reported: seq<Deadlock>, inferred: seq<Deadlock>, out: seq<Deadlock>, pos: seq<nat>, k: nat)
    returns (i: nat)
    requires At(reported + inferred, out, pos)
    requires FirstsOf(Keys(reported + inferred), BLANK, |reported| + |inferred|, pos)
    requires forall d :: d in reported + inferred ==> Clean(d)
    requires k < |inferred| && !Keyless(inferred[k].threads)
    ensures i < |out| && multiset(out[i].threads) == multiset(inferred[k].threads)
    ensures (exists d :: d in reported && multiset(d.threads) == multiset(inferred[k].threads)) ==> out[i] in reported
  {
    i := OneReportPerThreadSet(reported, inferred, out, pos, |reported| + k);
    assert (reported + inferred)[|reported| + k] == inferred[k];
    if d :| d in reported && multiset(d.threads) == multiset(inferred[k].threads) {
      var r :| 0 <= r < |reported| && reported[r] == d;
      KeylessByElements(d.threads, inferred[k].threads);
      var j := ReportedIsKept(reported, inferred, out, pos, r);
      assert j == i;
    }
  }

  /** What the JVM reported comes first, so its wording is the one kept. */
  lemma ReportedIsKept(reported: seq<Deadlock>, inferred: seq<Deadlock>, out: seq<Deadlock>, pos: seq<nat>, r: nat)
    returns (j: nat)
    requires At(reported + inferred, out, pos)
    requires FirstsOf(Keys(reported + inferred), BLANK, |reported| + |inferred|, pos)
    requires forall d :: d in reported + inferred ==> Clean(d)
    requires r < |reported| && !Keyless(reported[r].threads)
    ensures j < |out| && multiset(out[j].threads) == multiset(reported[r].threads) && out[j] in reported
  {
    j := OneReportPerThreadSet(reported, inferred, out, pos, r);
    assert (reported + inferred)[r] == reported[r];
    assert out[j] == reported[pos[j]];
  }

  lemma KeylessByElements(a: seq<string>, b: seq<string>)
    requires multiset(a) == multiset(b)
    ensures Keyless(a) <==> Keyless(b)
  {
    assert |a| == |multiset(a)| == |b|;
    if |a| == 1 {
      assert a == [a[0]] && b == [b[0]];
      assert b[0] in multiset(a);
    }
  }

  /** Nobody waits for itself, so a cycle has two threads at least. */
  lemma NoneAlone(threads: seq<Thread>, c: seq<int>)
    requires IsDeadlock(threads, c)
    ensures |c| >= 2
  {
  }

  lemma FindCycle(threads: seq<Thread>, inferred: seq<Deadlock>, cycles: seq<seq<int>>, c: seq<int>) returns (k: nat)
    requires Reported(threads, Finite.Range(|threads|), inferred, cycles)
    requires IsDeadlock(threads, c)
    ensures k < |inferred| && multiset(inferred[k].threads) == multiset(NamesOf(threads, c))
  {
    ReportedIsExact(threads, inferred, cycles);
    k :| 0 <= k < |cycles| && WaitForGraph.Nodes(cycles[k]) == WaitForGraph.Nodes(c);
    SameNames(threads, cycles[k], c);
  }

  lemma InferredClean(threads: seq<Thread>, inferred: seq<Deadlock>, cycles: seq<seq<int>>)
    requires Reported(threads, Finite.Range(|threads|), inferred, cycles)
    requires forall t :: t in threads ==> NUL !in t.name
    ensures forall d :: d in inferred ==> Clean(d)
  {
    forall d | d in inferred ensures Clean(d) {
      var k :| 0 <= k < |inferred| && inferred[k] == d;
      NamesClean(threads, cycles[k]);
      assert Names(threads, inferred[k], cycles[k]);
    }
  }

  lemma NamesClean(threads: seq<Thread>, c: seq<int>)
    requires c != [] && forall i :: 0 <= i < |c| ==> 0 <= c[i] < |threads|
    requires forall t :: t in threads ==> NUL !in t.name
    ensures Clean(Deadlock(NamesOf(threads, c), Inferred, ""))
  {
    var names := NamesOf(threads, c);
    forall s | s in names ensures NUL !in s {
      var i :| 0 <= i < |names| && names[i] == s;
      assert threads[c[i]] in threads;
    }
  }

  lemma KeyEmptyIff(names: seq<string>)
    ensures ParticipantKey(names) == "" <==> Keyless(names)
  {
    var sorted := StableSort(StringLess, names);
    SameElements(names, sorted);
    if |names| == 1 {
      SortOne(names[0]);
      assert names == [names[0]];
    } else if |names| > 1 {
      assert Join(NUL, sorted)[|sorted[0]|] == NUL;
    }
  }

  /** Two listings of one cycle name the same threads, each as often. */
  lemma SameNames(threads: seq<Thread>, c: seq<int>, d: seq<int>)
    requires IsDeadlock(threads, c) && IsDeadlock(threads, d)
    requires WaitForGraph.Nodes(c) == WaitForGraph.Nodes(d)
    ensures multiset(NamesOf(threads, c)) == multiset(NamesOf(threads, d))
  {
    DistinctMultiset(c, d);
    var name := (v: int) => if 0 <= v < |threads| then threads[v].name else "";
    assert Map((v: int) => v, c) == c && Map((v: int) => v, d) == d;
    MapPermutation((v: int) => v, name, c, d);
    assert NamesOf(threads, c) == Map(name, c) && NamesOf(threads, d) == Map(name, d);
  }
}
