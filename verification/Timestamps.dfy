/** Timestamps as text, and the order that text sorts in.

    Spans reach the browser as JSON, which writes a time in UTC by RFC 3339 with the fraction's trailing
    zeros, and an empty fraction's point, left out.  The waterfall sorts by that text
    (web/src/components/Waterfall.tsx, internal/model/span.go).
  */
module Timestamps {

  import opened Sorting
  import opened Strings

  datatype Time = Time(year: nat, month: nat, day: nat, hour: nat, minute: nat, second: nat, nanos: nat)

  predicate Fits(t: Time) {
    && t.year < 10_000 && t.month < 100 && t.day < 100 && t.hour < 100 && t.minute < 100 && t.second < 100
    && t.nanos < 1_000_000_000
  }

  /** Times of the years that four digits can write. */
  type Stamp = t: Time | Fits(t) witness Time(1, 1, 1, 0, 0, 0, 0)

  predicate SameSecond(s: Stamp, t: Stamp) {
    && s.year == t.year && s.month == t.month && s.day == t.day
    && s.hour == t.hour && s.minute == t.minute && s.second == t.second
  }

  predicate SecondBefore(s: Stamp, t: Stamp) {
    || s.year < t.year
    || (s.year == t.year && (s.month < t.month
    || (s.month == t.month && (s.day < t.day
    || (s.day == t.day && (s.hour < t.hour
    || (s.hour == t.hour && (s.minute < t.minute
    || (s.minute == t.minute && s.second < t.second)))))))))
  }

  /** The order of the times themselves. */
  predicate Before(s: Stamp, t: Stamp) {
    SecondBefore(s, t) || (SameSecond(s, t) && s.nanos < t.nanos)
  }

  // ---- Text -------------------------------------------------------------------------------

  function Power(w: nat): nat { if w == 0 then 1 else 10 * Power(w - 1) }

  /** The last `w` decimal digits. */
  function Fixed(n: nat, w: nat): (r: string)
    ensures |r| == w && forall i :: 0 <= i < w ==> IsDigit(r[i])
  {
    if w == 0 then "" else Fixed(n / 10, w - 1) + [Digit(n % 10)]
  }

  function TrimZeros(s: string): string {
    if s != "" && s[|s| - 1] == '0' then TrimZeros(s[..|s| - 1]) else s
  }

  function Fraction(t: Stamp): string { TrimZeros(Fixed(t.nanos, 9)) }

  function Ending(fraction: string): string { if fraction == "" then "Z" else "." + fraction + "Z" }

  function FractionText(t: Stamp): string { Ending(Fraction(t)) }

  function Part(n: nat, w: nat, sep: string, rest: string): string { Fixed(n, w) + (sep + rest) }

  function Text(t: Stamp): string {
    Part(t.year, 4, "-", Part(t.month, 2, "-", Part(t.day, 2, "T",
      Part(t.hour, 2, ":", Part(t.minute, 2, ":", Part(t.second, 2, "", FractionText(t)))))))
  }

  predicate TextBefore(s: Stamp, t: Stamp) { StringLess(Text(s), Text(t)) }

  lemma TextBeforeIsWeak()
    ensures WeakOrder(TextBefore)
  {
    StringLessIsTotal();
  }

  // ---- Comparing text ---------------------------------------------------------------------

  lemma {:induction false} SamePrefix(p: string, x: string, y: string)
    ensures StringLess(p + x, p + y) <==> StringLess(x, y)
  {
    if p == "" {
      assert p + x == x && p + y == y;
    } else {
      assert (p + x)[1..] == p[1..] + x && (p + y)[1..] == p[1..] + y;
      SamePrefix(p[1..], x, y);
    }
  }

  /** Texts of one length decide, unless they are equal. */
  lemma {:induction false} SameLength(a: string, b: string, x: string, y: string)
    requires |a| == |b|
    ensures StringLess(a + x, b + y) <==> StringLess(a, b) || (a == b && StringLess(x, y))
  {
    if a == "" {
      assert a + x == x && b + y == y;
    } else {
      assert (a + x)[1..] == a[1..] + x && (b + y)[1..] == b[1..] + y;
      SameLength(a[1..], b[1..], x, y);
      assert a == [a[0]] + a[1..] && b == [b[0]] + b[1..];
    }
  }

  /** Texts that part ways somewhere are decided there, whatever follows. */
  lemma {:induction false} PartWays(a: string, b: string, x: string, y: string)
    requires !(a <= b) && !(b <= a)
    ensures StringLess(a + x, b + y) <==> StringLess(a, b)
  {
    if a[0] == b[0] {
      assert a == [a[0]] + a[1..] && b == [b[0]] + b[1..];
      assert (a + x)[1..] == a[1..] + x && (b + y)[1..] == b[1..] + y;
      PartWays(a[1..], b[1..], x, y);
    }
  }

  lemma {:induction false} FixedOrder(m: nat, n: nat, w: nat)
    requires m < Power(w) && n < Power(w)
    ensures StringLess(Fixed(m, w), Fixed(n, w)) <==> m < n
    ensures Fixed(m, w) == Fixed(n, w) <==> m == n
  {
    if w > 0 {
      var a, b := Fixed(m / 10, w - 1), Fixed(n / 10, w - 1);
      var c, d := [Digit(m % 10)], [Digit(n % 10)];
      FixedOrder(m / 10, n / 10, w - 1);
      SameLength(a, b, c, d);
      assert a + c == b + d ==> a == (a + c)[..w - 1] == b && c[0] == (a + c)[w - 1] == d[0];
      assert StringLess(c, d) <==> m % 10 < n % 10;
    }
  }

  lemma PartOrder(m: nat, n: nat, w: nat, sep: string, x: string, y: string)
    requires m < Power(w) && n < Power(w)
    ensures StringLess(Part(m, w, sep, x), Part(n, w, sep, y)) <==> m < n || (m == n && StringLess(x, y))
  {
    FixedOrder(m, n, w);
    SameLength(Fixed(m, w), Fixed(n, w), sep + x, sep + y);
    SamePrefix(sep, x, y);
  }

  lemma TextOrder(s: Stamp, t: Stamp)
    ensures TextBefore(s, t) <==>
            SecondBefore(s, t) || (SameSecond(s, t) && StringLess(FractionText(s), FractionText(t)))
  {
    assert Power(2) == 100 && Power(4) == 10_000;
    var s5, t5 := Part(s.second, 2, "", FractionText(s)), Part(t.second, 2, "", FractionText(t));
    var s4, t4 := Part(s.minute, 2, ":", s5), Part(t.minute, 2, ":", t5);
    var s3, t3 := Part(s.hour, 2, ":", s4), Part(t.hour, 2, ":", t4);
    var s2, t2 := Part(s.day, 2, "T", s3), Part(t.day, 2, "T", t3);
    var s1, t1 := Part(s.month, 2, "-", s2), Part(t.month, 2, "-", t2);
    PartOrder(s.second, t.second, 2, "", FractionText(s), FractionText(t));
    PartOrder(s.minute, t.minute, 2, ":", s5, t5);
    PartOrder(s.hour, t.hour, 2, ":", s4, t4);
    PartOrder(s.day, t.day, 2, "T", s3, t3);
    PartOrder(s.month, t.month, 2, "-", s2, t2);
    PartOrder(s.year, t.year, 4, "-", s1, t1);
  }

  // ---- Fractions --------------------------------------------------------------------------

  function Zeros(n: nat): (r: string)
    ensures |r| == n
  {
    seq(n, _ => '0')
  }

  /** `f` is what is left of the digits `a` without their trailing zeros. */
  ghost predicate IsTrimmed(a: string, f: string) {
    && |f| <= |a| && a == f + Zeros(|a| - |f|)
    && (f != "" ==> f[|f| - 1] != '0')
    && forall i :: 0 <= i < |f| ==> IsDigit(f[i])
  }

  lemma {:induction false} TrimmedZeros(a: string)
    requires forall i :: 0 <= i < |a| ==> IsDigit(a[i])
    ensures IsTrimmed(a, TrimZeros(a))
  {
    if a != "" && a[|a| - 1] == '0' {
      var b := a[..|a| - 1];
      TrimmedZeros(b);
      assert a == b + "0" && Zeros(|a| - |TrimZeros(b)|) == Zeros(|b| - |TrimZeros(b)|) + "0";
    } else {
      assert a + Zeros(0) == a;
    }
  }

  /** Digits that end in another one than zero are more than as many zeros. */
  lemma {:induction false} MoreThanZeros(h: string, n: nat)
    requires h != "" && h[|h| - 1] != '0' && forall i :: 0 <= i < |h| ==> IsDigit(h[i])
    ensures StringLess(Zeros(|h| + n), h + Zeros(n))
  {
    var z, t := Zeros(|h| + n), h + Zeros(n);
    assert z[0] == '0' && t[0] == h[0];
    if h[0] == '0' {
      assert z[1..] == Zeros(|h| - 1 + n) && t[1..] == h[1..] + Zeros(n);
      MoreThanZeros(h[1..], n);
    }
  }

  lemma ContinuedZeros(f: string, h: string, n: nat)
    requires h != "" && h[|h| - 1] != '0' && forall i :: 0 <= i < |h| ==> IsDigit(h[i])
    ensures StringLess(f + Zeros(|h| + n), (f + h) + Zeros(n))
  {
    MoreThanZeros(h, n);
    SamePrefix(f, Zeros(|h| + n), h + Zeros(n));
    assert (f + h) + Zeros(n) == f + (h + Zeros(n));
  }

  /** Where one fraction continues the other, it is the greater one and the smaller text. */
  lemma ContinuedFraction(a: string, b: string, f: string, g: string)
    requires |a| == |b| && IsTrimmed(a, f) && IsTrimmed(b, g) && f < g
    ensures StringLess(a, b) && StringLess(Ending(g), Ending(f))
  {
    var h := Rest(f, g);
    ContinuedDigits(a, b, f, h);
    ContinuedText(f, h);
  }

  lemma Rest(f: string, g: string) returns (h: string)
    requires f < g
    ensures h != "" && g == f + h && h[0] == g[|f|] && h[|h| - 1] == g[|g| - 1]
    ensures forall i :: 0 <= i < |h| ==> h[i] == g[|f| + i]
  {
    h := g[|f|..];
  }

  lemma ContinuedDigits(a: string, b: string, f: string, h: string)
    requires |a| == |b| && h != "" && IsTrimmed(a, f) && IsTrimmed(b, f + h)
    ensures StringLess(a, b)
  {
    EndOf(f, h);
    var n := |b| - |f + h|;
    assert |a| - |f| == |h| + n;
    var x, y := f + Zeros(|h| + n), (f + h) + Zeros(n);
    assert a == x && b == y;
    ContinuedZeros(f, h, n);
  }

  lemma EndOf(f: string, h: string)
    requires h != "" && (f + h)[|f + h| - 1] != '0' && forall i :: 0 <= i < |f + h| ==> IsDigit((f + h)[i])
    ensures h[|h| - 1] != '0' && forall i :: 0 <= i < |h| ==> IsDigit(h[i])
  {
    forall i | 0 <= i < |h| ensures IsDigit(h[i]) {
      assert (f + h)[|f| + i] == h[i];
    }
  }

  lemma ContinuedText(f: string, h: string)
    requires h != "" && IsDigit(h[0])
    ensures StringLess(Ending(f + h), Ending(f))
  {
    if f != "" {
      var p := "." + f;
      assert Ending(f + h) == p + (h + "Z") && (h + "Z")[0] == h[0];
      SamePrefix(p, h + "Z", "Z");
    } else {
      assert f + h == h && Ending(h)[0] == '.';
    }
  }

  /** Fractions that part ways compare as text as their digits do. */
  lemma PartedFractions(a: string, b: string, f: string, g: string)
    requires |a| == |b| && IsTrimmed(a, f) && IsTrimmed(b, g) && !(f <= g) && !(g <= f)
    ensures StringLess(Ending(f), Ending(g)) <==> StringLess(a, b)
  {
    PartWays(f, g, Zeros(|a| - |f|), Zeros(|b| - |g|));
    PartedText(f, g);
  }

  lemma PartedText(f: string, g: string)
    requires !(f <= g) && !(g <= f)
    ensures StringLess(Ending(f), Ending(g)) <==> StringLess(f, g)
  {
    PartWays(f, g, "Z", "Z");
    assert "." + f + "Z" == "." + (f + "Z") && "." + g + "Z" == "." + (g + "Z");
    SamePrefix(".", f + "Z", g + "Z");
  }

  /** Two times of one second, the written fraction of one continuing that of the other. */
  predicate Clash(s: Stamp, t: Stamp) {
    SameSecond(s, t) && s.nanos != t.nanos && (Fraction(s) <= Fraction(t) || Fraction(t) <= Fraction(s))
  }

  /** The text of two fractions compares as they do exactly if they are equal or neither continues the other. */
  lemma EndingOrder(m: nat, n: nat, w: nat)
    requires m < Power(w) && n < Power(w)
    ensures var f, g := TrimZeros(Fixed(m, w)), TrimZeros(Fixed(n, w));
            if m == n then Ending(f) == Ending(g)
            else if f <= g || g <= f then StringLess(Ending(f), Ending(g)) <==> n < m
            else StringLess(Ending(f), Ending(g)) <==> m < n
  {
    var a, b := Fixed(m, w), Fixed(n, w);
    var f, g := TrimZeros(a), TrimZeros(b);
    FixedOrder(m, n, w);
    FixedOrder(n, m, w);
    TrimmedZeros(a);
    TrimmedZeros(b);
    if f < g {
      ContinuedFraction(a, b, f, g);
      StringLessTrichotomy(Ending(f), Ending(g));
    } else if g < f {
      ContinuedFraction(b, a, g, f);
    } else if f != g {
      PartedFractions(a, b, f, g);
    }
  }

  /** Two times compare as text as they do as times if and only if they do not clash; if they do, the
      later one comes first. */
  lemma TextOrderIffNoClash(s: Stamp, t: Stamp)
    ensures (TextBefore(s, t) <==> Before(s, t)) && (TextBefore(t, s) <==> Before(t, s)) <==> !Clash(s, t)
    ensures Clash(s, t) ==> (TextBefore(s, t) <==> Before(t, s)) && (Before(s, t) || Before(t, s))
  {
    TextOrder(s, t);
    TextOrder(t, s);
    assert Power(9) == 1_000_000_000;
    EndingOrder(s.nanos, t.nanos, 9);
    EndingOrder(t.nanos, s.nanos, 9);
    StringLessTrichotomy(FractionText(s), FractionText(t));
  }

  lemma {:induction false} ZeroIsEmpty(w: nat)
    ensures TrimZeros(Fixed(0, w)) == ""
  {
    if w > 0 {
      ZeroIsEmpty(w - 1);
      assert Fixed(0, w)[..w - 1] == Fixed(0, w - 1);
    }
  }

  /** A time on the full second sorts after every other time of that second, though it is the earliest. */
  lemma FullSecondSortsLast(s: Stamp, t: Stamp)
    requires SameSecond(s, t) && s.nanos == 0 && t.nanos > 0
    ensures Before(s, t) && TextBefore(t, s)
  {
    ZeroIsEmpty(9);
    TextOrderIffNoClash(t, s);
  }

  lemma {:induction false} FixedReads(n: nat, w: nat)
    requires n < Power(w)
    ensures Reading(Fixed(n, w)) == n
  {
    if w > 0 {
      FixedReads(n / 10, w - 1);
      var front := Fixed(n / 10, w - 1);
      assert (front + [Digit(n % 10)])[..|front|] == front;
    }
  }

  lemma {:induction false} TrimmedReads(s: string)
    ensures |TrimZeros(s)| <= |s| && Reading(s) == Reading(TrimZeros(s)) * Power(|s| - |TrimZeros(s)|)
  {
    if s != "" && s[|s| - 1] == '0' {
      TrimmedReads(s[..|s| - 1]);
    }
  }

  /** The fraction is written with nine digits at most, the last of them not zero, and stands for the
      nanoseconds; a full second has none. */
  lemma FractionReads(t: Stamp)
    ensures var f := Fraction(t);
            && |f| <= 9 && (f == "" <==> t.nanos == 0) && (f != "" ==> f[|f| - 1] != '0')
            && Reading(f) * Power(9 - |f|) == t.nanos
  {
    assert Power(9) == 1_000_000_000;
    FixedReads(t.nanos, 9);
    TrimmedReads(Fixed(t.nanos, 9));
    TrimmedZeros(Fixed(t.nanos, 9));
    assert Reading("") == 0;
    if t.nanos == 0 {
      ZeroIsEmpty(9);
    }
  }

  /** A field of the text, what separates it from the rest, and that rest. */
  ghost predicate Field(text: string, n: nat, w: nat, sep: string, rest: string) {
    |text| >= w && Reading(text[..w]) == n && text[w..] == sep + rest
  }

  lemma PartIsField(n: nat, w: nat, sep: string, rest: string)
    requires n < Power(w)
    ensures Field(Part(n, w, sep, rest), n, w, sep, rest)
  {
    FixedReads(n, w);
    assert Part(n, w, sep, rest)[..w] == Fixed(n, w);
  }

  /** The text is year, month and day in four and two digits, then hour, minute and second, then the
      fraction after a point, if there is one, and a Z. */
  lemma TextReads(t: Stamp) returns (rest: seq<string>)
    ensures |rest| == 6 && Field(Text(t), t.year, 4, "-", rest[0])
    ensures Field(rest[0], t.month, 2, "-", rest[1]) && Field(rest[1], t.day, 2, "T", rest[2])
    ensures Field(rest[2], t.hour, 2, ":", rest[3]) && Field(rest[3], t.minute, 2, ":", rest[4])
    ensures Field(rest[4], t.second, 2, "", rest[5])
    ensures rest[5] == if t.nanos == 0 then "Z" else "." + Fraction(t) + "Z"
  {
    assert Power(2) == 100 && Power(4) == 10_000;
    var r5 := FractionText(t);
    var r4 := Part(t.second, 2, "", r5);
    var r3 := Part(t.minute, 2, ":", r4);
    var r2 := Part(t.hour, 2, ":", r3);
    var r1 := Part(t.day, 2, "T", r2);
    var r0 := Part(t.month, 2, "-", r1);
    PartIsField(t.year, 4, "-", r0);
    PartIsField(t.month, 2, "-", r1);
    PartIsField(t.day, 2, "T", r2);
    PartIsField(t.hour, 2, ":", r3);
    PartIsField(t.minute, 2, ":", r4);
    PartIsField(t.second, 2, "", r5);
    FractionReads(t);
    rest := [r0, r1, r2, r3, r4, r5];
  }
}
