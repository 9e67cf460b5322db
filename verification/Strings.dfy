/** Rendering text so that it can be told apart again. */
module Strings {

  function Join(sep: char, parts: seq<string>): string {
    if parts == [] then ""
    else if |parts| == 1 then parts[0]
    else parts[0] + [sep] + Join(sep, parts[1..])
  }

  ghost predicate Free(sep: char, parts: seq<string>) {
    forall s :: s in parts ==> sep !in s
  }

  /** Text that does not contain the separator ends where the separator is. */
  lemma SplitFirst(sep: char, a: string, x: string, b: string, y: string)
    requires sep !in a && sep !in b && a + [sep] + x == b + [sep] + y
    ensures a == b && x == y
  {
    var t, u := a + [sep] + x, b + [sep] + y;
    assert t[|a|] == sep && u[|b|] == sep;
    assert forall i :: 0 <= i < |a| ==> t[i] == a[i] && a[i] in a;
    assert forall i :: 0 <= i < |b| ==> u[i] == b[i] && b[i] in b;
    assert |a| == |b|;
    assert a == t[..|a|] && b == u[..|b|];
    assert x == t[|a| + 1..] && y == u[|b| + 1..];
  }

  lemma LastSeparator(sep: char, a: string, x: string)
    requires sep !in x
    ensures var t := a + [sep] + x;
            t[|a|] == sep && forall i :: |a| < i < |t| ==> t[i] != sep
  {
    var t := a + [sep] + x;
    forall i | |a| < i < |t| ensures t[i] != sep {
      assert t[i] == x[i - |a| - 1];
    }
  }

  lemma SplitLast(sep: char, a: string, x: string, b: string, y: string)
    requires sep !in x && sep !in y && a + [sep] + x == b + [sep] + y
    ensures a == b && x == y
  {
    LastSeparator(sep, a, x);
    LastSeparator(sep, b, y);
    var t := a + [sep] + x;
    assert |a| == |b|;
    assert a == t[..|a|] && b == t[..|a|];
    assert x == t[|a| + 1..] && y == t[|a| + 1..];
  }

  lemma {:induction false} JoinInjective(sep: char, a: seq<string>, b: seq<string>)
    requires a != [] && b != [] && Free(sep, a) && Free(sep, b)
    requires Join(sep, a) == Join(sep, b)
    ensures a == b
  {
    assert a[0] in a && b[0] in b;
    JoinHasSep(sep, a);
    JoinHasSep(sep, b);
    if |a| > 1 {
      SplitFirst(sep, a[0], Join(sep, a[1..]), b[0], Join(sep, b[1..]));
      JoinInjective(sep, a[1..], b[1..]);
      assert a == [a[0]] + a[1..] && b == [b[0]] + b[1..];
    }
  }

  lemma JoinHasSep(sep: char, a: seq<string>)
    requires a != [] && Free(sep, a)
    ensures sep in Join(sep, a) <==> |a| > 1
  {
    assert a[0] in a;
    if |a| > 1 {
      assert Join(sep, a)[|a[0]|] == sep;
    }
  }

  // ---- Splitting --------------------------------------------------------------------------

  function Split(sep: char, s: string): (r: seq<string>)
    ensures r != []
  {
    if s == "" then [""]
    else
      var rest := Split(sep, s[1..]);
      if s[0] == sep then [""] + rest else [[s[0]] + rest[0]] + rest[1..]
  }

  /** Splitting loses nothing, and no piece holds the separator. */
  lemma {:induction false} SplitJoin(sep: char, s: string)
    ensures Join(sep, Split(sep, s)) == s && Free(sep, Split(sep, s))
  {
    if s != "" {
      var rest := Split(sep, s[1..]);
      SplitJoin(sep, s[1..]);
      if s[0] == sep {
        assert ([""] + rest)[1..] == rest;
      } else {
        JoinHead(sep, s[0], rest);
        FreeHead(sep, s[0], rest);
      }
    }
  }

  lemma JoinHead(sep: char, c: char, parts: seq<string>)
    requires parts != []
    ensures Join(sep, [[c] + parts[0]] + parts[1..]) == [c] + Join(sep, parts)
  {
    var r := [[c] + parts[0]] + parts[1..];
    assert r[1..] == parts[1..];
    if |parts| > 1 {
      var tail := [sep] + Join(sep, parts[1..]);
      assert Join(sep, parts) == parts[0] + tail;
      assert Join(sep, r) == [c] + parts[0] + tail;
    }
  }

  lemma FreeHead(sep: char, c: char, parts: seq<string>)
    requires parts != [] && Free(sep, parts) && c != sep
    ensures Free(sep, [[c] + parts[0]] + parts[1..])
  {
    var r := [[c] + parts[0]] + parts[1..];
    assert parts[0] in parts;
    forall s | s in r ensures sep !in s {
      if s != r[0] {
        assert s in parts[1..] && s in parts;
      }
    }
  }

  /** Joined pieces come apart again. */
  lemma JoinSplit(sep: char, parts: seq<string>)
    requires parts != [] && Free(sep, parts)
    ensures Split(sep, Join(sep, parts)) == parts
  {
    SplitJoin(sep, Join(sep, parts));
    JoinInjective(sep, Split(sep, Join(sep, parts)), parts);
  }

  // ---- Decimal numbers --------------------------------------------------------------------

  function Digit(d: int): char
    requires 0 <= d < 10
  {
    ('0' as int + d) as char
  }

  predicate IsDigit(c: char) { '0' <= c <= '9' }

  function Digits(n: nat): (r: string)
    ensures r != "" && forall c :: c in r ==> IsDigit(c)
    ensures n >= 10 ==> |r| >= 2
  {
    if n < 10 then [Digit(n)] else Digits(n / 10) + [Digit(n % 10)]
  }

  function Decimal(n: int): (r: string)
    ensures r != "" && forall c :: c in r ==> IsDigit(c) || c == '-'
    ensures r[0] == '-' <==> n < 0
  {
    assert n >= 0 ==> Digits(n)[0] in Digits(n);
    if n < 0 then "-" + Digits(-n) else Digits(n)
  }

  /** The number a text of digits stands for. */
  function Reading(s: string): int {
    if s == "" then 0 else 10 * Reading(s[..|s| - 1]) + (s[|s| - 1] as int - '0' as int)
  }

  /** Decimal text is the number's. */
  lemma {:induction false} DigitsRead(n: nat)
    ensures Reading(Digits(n)) == n && (n > 0 ==> Digits(n)[0] != '0')
  {
    if n >= 10 {
      var front := Digits(n / 10);
      DigitsRead(n / 10);
      assert (front + [Digit(n % 10)])[..|front|] == front;
    } else {
      assert Reading("") == 0;
    }
  }

  lemma {:induction false} DigitsInjective(m: nat, n: nat)
    requires Digits(m) == Digits(n)
    ensures m == n
  {
    if m >= 10 && n >= 10 {
      var a, b := Digits(m / 10) + [Digit(m % 10)], Digits(n / 10) + [Digit(n % 10)];
      assert a[..|a| - 1] == Digits(m / 10) && b[..|b| - 1] == Digits(n / 10);
      assert a[|a| - 1] == Digit(m % 10) && b[|b| - 1] == Digit(n % 10);
      DigitsInjective(m / 10, n / 10);
    }
  }

  lemma DecimalInjective(m: int, n: int)
    requires Decimal(m) == Decimal(n)
    ensures m == n
  {
    if m < 0 && n < 0 {
      assert ("-" + Digits(-m))[1..] == Digits(-m) && ("-" + Digits(-n))[1..] == Digits(-n);
      DigitsInjective(-m, -n);
    } else if m >= 0 && n >= 0 {
      DigitsInjective(m, n);
    }
  }

  function Decimals(ns: seq<int>): (r: seq<string>)
    ensures |r| == |ns| && forall i :: 0 <= i < |ns| ==> r[i] == Decimal(ns[i])
  {
    seq(|ns|, i requires 0 <= i < |ns| => Decimal(ns[i]))
  }

  /** A list of numbers can be read back from its text. */
  lemma DecimalsInjective(sep: char, a: seq<int>, b: seq<int>)
    requires !IsDigit(sep) && sep != '-' && Join(sep, Decimals(a)) == Join(sep, Decimals(b))
    ensures a == b
  {
    JoinEmpty(sep, Decimals(a));
    JoinEmpty(sep, Decimals(b));
    if a != [] && b != [] {
      forall s | s in Decimals(a) || s in Decimals(b) ensures sep !in s {
        if s in Decimals(a) {
          var i :| 0 <= i < |a| && Decimals(a)[i] == s;
        } else {
          var i :| 0 <= i < |b| && Decimals(b)[i] == s;
        }
      }
      JoinInjective(sep, Decimals(a), Decimals(b));
      assert |a| == |b|;
      forall i | 0 <= i < |a| ensures a[i] == b[i] {
        assert Decimals(a)[i] == Decimals(b)[i];
        DecimalInjective(a[i], b[i]);
      }
    }
  }

  lemma JoinEmpty(sep: char, parts: seq<string>)
    requires forall i :: 0 <= i < |parts| ==> parts[i] != ""
    ensures Join(sep, parts) == "" <==> parts == []
  {
    if |parts| > 0 {
      assert parts[0] != "";
    }
  }
}
