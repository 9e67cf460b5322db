/** Orders and sorting, shared by every component that sorts before it renders.

    The programs modelled here call library sorts whose algorithm, and whose treatment of
    elements that compare equal, is unspecified.  `SortSlice` therefore promises no more than
    such a call does; `SortedUnique` says when that already fixes the result.
  */
module Sorting {

  ghost predicate StrictOrder<T(!new)>(less: (T, T) -> bool) {
    && (forall x :: !less(x, x))
    && (forall x, y, z :: less(x, y) && less(y, z) ==> less(x, z))
  }

  /** Incomparability is transitive: what a comparison by a key always provides. */
  ghost predicate WeakOrder<T(!new)>(less: (T, T) -> bool) {
    && StrictOrder(less)
    && (forall x, y, z :: less(x, z) ==> less(x, y) || less(y, z))
  }

  ghost predicate Sorted<T>(less: (T, T) -> bool, s: seq<T>) {
    forall i, j :: 0 <= i < j < |s| ==> !less(s[j], s[i])
  }

  /** Any two different elements of `s` are ordered one way or the other. */
  ghost predicate ConnectedOn<T>(less: (T, T) -> bool, s: seq<T>) {
    forall x, y :: x in s && y in s && x != y ==> less(x, y) || less(y, x)
  }

  lemma SameElements<T>(a: seq<T>, b: seq<T>)
    requires multiset(a) == multiset(b)
    ensures |a| == |b|
    ensures forall x :: x in a <==> x in b
  {
    assert |multiset(a)| == |multiset(b)|;
    forall x ensures x in a <==> x in b {
      assert x in a <==> x in multiset(a);
      assert x in b <==> x in multiset(b);
    }
  }

  lemma SortedHead<T(!new)>(less: (T, T) -> bool, a: seq<T>, b: seq<T>)
    requires StrictOrder(less) && Sorted(less, a) && Sorted(less, b) && ConnectedOn(less, a)
    requires a != [] && multiset(a) == multiset(b)
    ensures b != [] && a[0] == b[0]
  {
    SameElements(a, b);
    assert a[0] in b && b[0] in a;
    var i :| 0 <= i < |b| && b[i] == a[0];
    var j :| 0 <= j < |a| && a[j] == b[0];
    assert i == 0 || !less(b[i], b[0]);
    assert j == 0 || !less(a[j], a[0]);
  }

  lemma TailMultiset<T>(a: seq<T>)
    requires a != []
    ensures multiset(a[1..]) == multiset(a) - multiset{a[0]}
  {
    assert a == [a[0]] + a[1..];
  }

  lemma WithoutIndex<T>(a: seq<T>, i: nat)
    requires i < |a|
    ensures multiset(a[..i] + a[i + 1..]) + multiset{a[i]} == multiset(a)
  {
    assert a == a[..i] + [a[i]] + a[i + 1..];
  }

  lemma RemoveBoth<T>(a: seq<T>, b: seq<T>, i: nat, j: nat)
    requires i < |a| && j < |b| && a[i] == b[j] && multiset(a) == multiset(b)
    ensures multiset(a[..i] + a[i + 1..]) == multiset(b[..j] + b[j + 1..])
  {
    WithoutIndex(a, i);
    WithoutIndex(b, j);
    var x, y := multiset(a[..i] + a[i + 1..]), multiset(b[..j] + b[j + 1..]);
    forall v ensures x[v] == y[v] {
      assert (x + multiset{a[i]})[v] == (y + multiset{b[j]})[v];
    }
  }

  function Map<S, T>(f: S -> T, s: seq<S>): (r: seq<T>)
    ensures |r| == |s| && forall i :: 0 <= i < |s| ==> r[i] == f(s[i])
  {
    seq(|s|, i requires 0 <= i < |s| => f(s[i]))
  }

  /** Where `f` decides `g`, lists that agree on `f` up to order agree on `g` up to order. */
  lemma {:induction false} MapPermutation<S, T, U>(f: S -> T, g: S -> U, a: seq<S>, b: seq<S>)
    requires forall x, y :: x in a && y in b && f(x) == f(y) ==> g(x) == g(y)
    requires multiset(Map(f, a)) == multiset(Map(f, b))
    ensures multiset(Map(g, a)) == multiset(Map(g, b))
  {
    SameElements(Map(f, a), Map(f, b));
    if a == [] {
      assert Map(g, a) == Map(g, b);
    } else {
      var first := Map(f, a)[0];
      assert first in multiset(Map(f, a));
      assert first in multiset(Map(f, b));
      var i :| 0 <= i < |b| && Map(f, b)[i] == f(a[0]);
      var rest := b[..i] + b[i + 1..];
      MapWithout(f, a, b, i);
      MapPermutation(f, g, a[1..], rest);
      MapWith(g, a, b, i);
    }
  }

  lemma MapWithout<S, T>(f: S -> T, a: seq<S>, b: seq<S>, i: nat)
    requires a != [] && i < |b| && f(a[0]) == f(b[i]) && multiset(Map(f, a)) == multiset(Map(f, b))
    ensures multiset(Map(f, a[1..])) == multiset(Map(f, b[..i] + b[i + 1..]))
  {
    TailMultiset(Map(f, a));
    WithoutIndex(Map(f, b), i);
    assert Map(f, a)[1..] == Map(f, a[1..]);
    assert Map(f, b)[..i] + Map(f, b)[i + 1..] == Map(f, b[..i] + b[i + 1..]);
  }

  lemma MapWith<S, T>(f: S -> T, a: seq<S>, b: seq<S>, i: nat)
    requires a != [] && i < |b| && f(a[0]) == f(b[i])
    requires multiset(Map(f, a[1..])) == multiset(Map(f, b[..i] + b[i + 1..]))
    ensures multiset(Map(f, a)) == multiset(Map(f, b))
  {
    WithoutIndex(Map(f, b), i);
    assert Map(f, a) == [f(a[0])] + Map(f, a[1..]);
    assert Map(f, b)[..i] + Map(f, b)[i + 1..] == Map(f, b[..i] + b[i + 1..]);
  }

  lemma {:induction false} SortedUnique<T(!new)>(less: (T, T) -> bool, a: seq<T>, b: seq<T>)
    requires StrictOrder(less) && Sorted(less, a) && Sorted(less, b)
    requires multiset(a) == multiset(b) && ConnectedOn(less, a)
    ensures a == b
  {
    SameElements(a, b);
    if a != [] {
      SortedHead(less, a, b);
      TailMultiset(a);
      TailMultiset(b);
      SortedUnique(less, a[1..], b[1..]);
      assert a == [a[0]] + a[1..] && b == [b[0]] + b[1..];
    }
  }

  ghost predicate Distinct<T>(s: seq<T>) { forall i, j :: 0 <= i < j < |s| ==> s[i] != s[j] }

  lemma {:induction false} DistinctSize<T>(s: seq<T>)
    ensures |set x | x in s| <= |s|
    ensures |set x | x in s| == |s| <==> Distinct(s)
  {
    if s == [] {
      assert (set x | x in s) == {};
    } else {
      var front, last := s[..|s| - 1], s[|s| - 1];
      assert s == front + [last];
      DistinctSize(front);
      assert (set x | x in s) == (set x | x in front) + {last};
      if last in front {
        assert (set x | x in s) == (set x | x in front);
        var i :| 0 <= i < |front| && front[i] == last;
        assert s[i] == s[|s| - 1];
      }
    }
  }

  lemma DistinctMultiset<T>(a: seq<T>, b: seq<T>)
    requires Distinct(a) && Distinct(b) && (set x | x in a) == (set x | x in b)
    ensures multiset(a) == multiset(b)
  {
    forall x ensures multiset(a)[x] == multiset(b)[x] {
      DistinctCount(a, x);
      DistinctCount(b, x);
      var sa, sb := set y | y in a, set y | y in b;
      assert x in a <==> x in sa;
      assert x in b <==> x in sb;
    }
  }

  lemma {:induction false} DistinctCount<T>(s: seq<T>, x: T)
    requires Distinct(s)
    ensures multiset(s)[x] == if x in s then 1 else 0
  {
    if s != [] {
      var front, last := s[..|s| - 1], s[|s| - 1];
      assert s == front + [last];
      DistinctCount(front, x);
      assert last !in front;
    }
  }

  /** A sort whose order among equal elements is left open. */
  method SortSlice<T(!new)>(less: (T, T) -> bool, s: seq<T>) returns (r: seq<T>)
    requires WeakOrder(less)
    ensures multiset(r) == multiset(s) && Sorted(less, r)
  {
    r := StableSort(less, s);
    StableSortSorts(less, s);
  }

  /** Insertion sort; equal elements keep their order. */
  function StableSort<T>(less: (T, T) -> bool, s: seq<T>): (r: seq<T>)
    ensures multiset(r) == multiset(s)
  {
    if s == [] then []
    else
      assert s == s[..|s| - 1] + [s[|s| - 1]];
      Insert(less, StableSort(less, s[..|s| - 1]), s[|s| - 1])
  }

  function Insert<T>(less: (T, T) -> bool, s: seq<T>, x: T): (r: seq<T>)
    ensures multiset(r) == multiset(s) + multiset{x}
  {
    if s == [] || !less(x, s[|s| - 1]) then s + [x]
    else
      assert s == s[..|s| - 1] + [s[|s| - 1]];
      Insert(less, s[..|s| - 1], x) + [s[|s| - 1]]
  }

  lemma {:induction false} InsertKeepsSorted<T(!new)>(less: (T, T) -> bool, s: seq<T>, x: T)
    requires WeakOrder(less) && Sorted(less, s)
    ensures Sorted(less, Insert(less, s, x))
  {
    if s != [] && less(x, s[|s| - 1]) {
      var t, last := s[..|s| - 1], s[|s| - 1];
      InsertKeepsSorted(less, t, x);
      var r := Insert(less, t, x);
      forall i | 0 <= i < |r| ensures !less(last, r[i]) {
        assert r[i] in multiset(r);
        assert r[i] in multiset(t) || r[i] == x;
        if r[i] != x {
          assert r[i] in t;
        }
      }
    } else if s != [] {
      forall i | 0 <= i < |s| ensures !less(x, s[i]) {
        assert i == |s| - 1 || !less(s[|s| - 1], s[i]);
      }
    }
  }

  lemma {:induction false} StableSortSorts<T(!new)>(less: (T, T) -> bool, s: seq<T>)
    requires WeakOrder(less)
    ensures Sorted(less, StableSort(less, s))
  {
    if s != [] {
      StableSortSorts(less, s[..|s| - 1]);
      InsertKeepsSorted(less, StableSort(less, s[..|s| - 1]), s[|s| - 1]);
    }
  }

  /** The elements that compare equal to `x`, in their order. */
  function Ties<T>(less: (T, T) -> bool, s: seq<T>, x: T): seq<T> {
    if s == [] then []
    else
      var last := s[|s| - 1];
      Ties(less, s[..|s| - 1], x) + if !less(last, x) && !less(x, last) then [last] else []
  }

  lemma {:induction false} InsertKeepsTies<T(!new)>(less: (T, T) -> bool, s: seq<T>, y: T, x: T)
    requires WeakOrder(less)
    ensures Ties(less, Insert(less, s, y), x) == Ties(less, s + [y], x)
  {
    assert (s + [y])[..|s|] == s;
    if s != [] && less(y, s[|s| - 1]) {
      var front, last := s[..|s| - 1], s[|s| - 1];
      var r := Insert(less, front, y);
      InsertKeepsTies(less, front, y, x);
      assert (r + [last])[..|r|] == r && (front + [y])[..|front|] == front;
    }
  }

  /** Equal elements keep their order. */
  lemma {:induction false} StableSortKeepsTies<T(!new)>(less: (T, T) -> bool, s: seq<T>, x: T)
    requires WeakOrder(less)
    ensures Ties(less, StableSort(less, s), x) == Ties(less, s, x)
  {
    if s != [] {
      var front, last := s[..|s| - 1], s[|s| - 1];
      var r := StableSort(less, front);
      StableSortKeepsTies(less, front, x);
      InsertKeepsTies(less, r, last, x);
      assert (r + [last])[..|r|] == r;
    }
  }

  /** Byte-wise string comparison, which on UTF-8 text is comparison by code point. */
  predicate StringLess(a: string, b: string) {
    if b == "" then false
    else if a == "" then true
    else a[0] < b[0] || (a[0] == b[0] && StringLess(a[1..], b[1..]))
  }

  lemma {:induction false} StringLessTrichotomy(a: string, b: string)
    ensures a == b <==> !StringLess(a, b) && !StringLess(b, a)
    ensures !(StringLess(a, b) && StringLess(b, a))
  {
    if a != "" && b != "" {
      StringLessTrichotomy(a[1..], b[1..]);
      assert a == [a[0]] + a[1..] && b == [b[0]] + b[1..];
    }
  }

  lemma {:induction false} StringLessTransitive(a: string, b: string, c: string)
    requires StringLess(a, b) && StringLess(b, c)
    ensures StringLess(a, c)
  {
    if a != "" && a[0] == b[0] && b[0] == c[0] {
      StringLessTransitive(a[1..], b[1..], c[1..]);
    }
  }

  lemma StringLessIsTotal()
    ensures WeakOrder(StringLess)
    ensures forall a: string, b: string :: a != b ==> StringLess(a, b) || StringLess(b, a)
  {
    forall a: string, b: string
      ensures a == b <==> !StringLess(a, b) && !StringLess(b, a)
      ensures !(StringLess(a, b) && StringLess(b, a))
    {
      StringLessTrichotomy(a, b);
    }
    forall a: string, b: string, c: string | StringLess(a, b) && StringLess(b, c)
      ensures StringLess(a, c)
    {
      StringLessTransitive(a, b, c);
    }
  }

  /** It is the order of a dictionary: the first character that differs decides, or the end of the shorter. */
  lemma {:induction false} StringLessIff(a: string, b: string)
    ensures StringLess(a, b) <==>
            exists i :: && 0 <= i <= |a| && i < |b| && a[..i] == b[..i] && (i < |a| ==> a[i] < b[i])
  {
    if a != "" && b != "" && a[0] == b[0] {
      StringLessIff(a[1..], b[1..]);
      if i :| 0 <= i <= |a[1..]| && i < |b[1..]| && a[1..][..i] == b[1..][..i] && (i < |a[1..]| ==> a[1..][i] < b[1..][i]) {
        assert a[..i + 1] == [a[0]] + a[1..][..i] && b[..i + 1] == [b[0]] + b[1..][..i];
      }
      if i :| 0 <= i <= |a| && i < |b| && a[..i] == b[..i] && (i < |a| ==> a[i] < b[i]) {
        assert i > 0;
        var j := i - 1;
        assert a[1..][..j] == a[..i][1..] && b[1..][..j] == b[..i][1..];
      }
    } else if b != "" {
      assert a[..0] == b[..0];
      assert a != "" ==> forall i :: 0 < i <= |a| && i < |b| ==> a[..i][0] == a[0] && b[..i][0] == b[0];
    }
  }
}
