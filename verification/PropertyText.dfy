/** Properties text, escaped and read back: internal/injector/injector.go (`escapeProperty`,
    `renderProperties`) and internal/attach/properties.go.

    Text is a sequence of characters.  The reader walks bytes, but all it looks for are ASCII
    characters, which no other character's encoding contains.
  */
module PropertyText {

  import opened Wrappers

  /** Unicode white space, as the line reader trims it. */
  predicate IsSpace(c: char) {
    || '\U{9}' <= c <= '\U{D}' || c == ' ' || c == '\U{85}' || c == '\U{A0}' || c == '\U{1680}'
    || '\U{2000}' <= c <= '\U{200A}' || c == '\U{2028}' || c == '\U{2029}' || c == '\U{202F}'
    || c == '\U{205F}' || c == '\U{3000}'
  }

  /** The 25 characters Unicode lists as white space, by code point. */
  lemma SpacesAre(c: char)
    ensures IsSpace(c) <==> c as int in {9, 10, 11, 12, 13, 32, 133, 160, 5760, 8192, 8193, 8194, 8195, 8196, 8197, 8198,
                                         8199, 8200, 8201, 8202, 8232, 8233, 8239, 8287, 12288}
  {
  }

  /** White space that escaping leaves as it is. */
  predicate RawSpace(c: char) { IsSpace(c) && c != '\n' && c != '\r' && c != '\t' }

  // ---- Escaping ---------------------------------------------------------------------------

  predicate Special(c: char) { c == '\\' || c == '=' || c == ':' || c == '#' || c == '!' }

  function EscapeChar(c: char): string {
    if Special(c) then ['\\', c]
    else if c == '\n' then ['\\', 'n']
    else if c == '\r' then ['\\', 'r']
    else if c == '\t' then ['\\', 't']
    else [c]
  }

  function Escape(s: string): string {
    if s == "" then "" else Escape(s[..|s| - 1]) + EscapeChar(s[|s| - 1])
  }

  function Resolve(c: char): char {
    if c == 'n' then '\n'
    else if c == 'r' then '\r'
    else if c == 't' then '\t'
    else if c == 'f' then '\U{C}'
    else c
  }

  /** A backslash takes the next character with it; one at the very end stands for itself. */
  function Unescape(s: string): string {
    if s == "" then ""
    else if s[0] != '\\' || |s| == 1 then [s[0]] + Unescape(s[1..])
    else [Resolve(s[1])] + Unescape(s[2..])
  }

  lemma UnescapeOne(c: char, rest: string)
    ensures Unescape(EscapeChar(c) + rest) == [c] + Unescape(rest)
  {
    var s := EscapeChar(c) + rest;
    if |EscapeChar(c)| == 2 {
      assert s[2..] == rest;
    } else {
      assert s[1..] == rest;
    }
  }

  lemma Regroup(a: string, b: string, c: string)
    ensures (a + b) + c == a + (b + c)
  {
  }

  lemma {:induction false} UnescapeAfterEscape(s: string, rest: string)
    ensures Unescape(Escape(s) + rest) == s + Unescape(rest)
  {
    if s == "" {
      assert Escape(s) + rest == rest && s + Unescape(rest) == Unescape(rest);
    } else {
      var front, last := s[..|s| - 1], s[|s| - 1];
      var e := EscapeChar(last);
      Regroup(Escape(front), e, rest);
      UnescapeAfterEscape(front, e + rest);
      UnescapeOne(last, rest);
      Regroup(front, [last], Unescape(rest));
      assert s == front + [last];
    }
  }

  /** Unescaping undoes escaping, for every text. */
  lemma UnescapeInvertsEscape(s: string)
    ensures Unescape(Escape(s)) == s
  {
    UnescapeAfterEscape(s, "");
    assert Escape(s) + "" == Escape(s) && s + "" == s;
  }

  /** Escaped text has no line break, carriage return or tab, and an equals sign only if the text had one. */
  lemma {:induction false} EscapedIsOneLine(s: string)
    ensures '\n' !in Escape(s) && '\r' !in Escape(s) && '\t' !in Escape(s)
    ensures '=' in Escape(s) <==> '=' in s
  {
    if s != "" {
      assert s == s[..|s| - 1] + [s[|s| - 1]];
      EscapedIsOneLine(s[..|s| - 1]);
    }
  }

  lemma {:induction false} EscapeGrows(s: string)
    ensures |Escape(s)| >= |s|
  {
    if s != "" {
      EscapeGrows(s[..|s| - 1]);
    }
  }

  predicate Plain(c: char) { EscapeChar(c) == [c] }

  lemma {:induction false} PlainIsUnchanged(s: string)
    requires forall i :: 0 <= i < |s| ==> Plain(s[i])
    ensures Escape(s) == s
  {
    if s != "" {
      var front, last := s[..|s| - 1], s[|s| - 1];
      PlainIsUnchanged(front);
      assert Plain(last) && s == front + [last];
    }
  }

  lemma {:induction false} UnchangedIsPlain(s: string)
    requires |Escape(s)| == |s|
    ensures forall i :: 0 <= i < |s| ==> Plain(s[i])
  {
    if s != "" {
      var front, last := s[..|s| - 1], s[|s| - 1];
      EscapeGrows(front);
      assert |EscapeChar(last)| == 1;
      UnchangedIsPlain(front);
      forall i | 0 <= i < |s| ensures Plain(s[i]) {
        if i < |s| - 1 {
          assert front[i] == s[i];
        }
      }
    }
  }

  // ---- Trimming ---------------------------------------------------------------------------

  function TrimLeft(s: string): string {
    if s != "" && IsSpace(s[0]) then TrimLeft(s[1..]) else s
  }

  function TrimRight(s: string): string {
    if s != "" && IsSpace(s[|s| - 1]) then TrimRight(s[..|s| - 1]) else s
  }

  function Trim(s: string): string { TrimRight(TrimLeft(s)) }

  /** Neither end is white space. */
  predicate Tight(s: string) { s == "" || (!IsSpace(s[0]) && !IsSpace(s[|s| - 1])) }

  lemma {:induction false} TrimLeftStarts(s: string)
    ensures TrimLeft(s) != "" ==> !IsSpace(TrimLeft(s)[0])
    ensures |TrimLeft(s)| <= |s| && TrimLeft(s) == s[|s| - |TrimLeft(s)|..]
  {
    if s != "" && IsSpace(s[0]) {
      TrimLeftStarts(s[1..]);
    }
  }

  lemma {:induction false} TrimRightEnds(s: string)
    ensures TrimRight(s) != "" ==> !IsSpace(TrimRight(s)[|TrimRight(s)| - 1])
    ensures |TrimRight(s)| <= |s| && TrimRight(s) == s[..|TrimRight(s)|]
  {
    if s != "" && IsSpace(s[|s| - 1]) {
      TrimRightEnds(s[..|s| - 1]);
    }
  }

  lemma TrimIsTight(s: string)
    ensures Tight(Trim(s)) && (Tight(s) ==> Trim(s) == s)
    ensures forall c :: c in Trim(s) ==> c in s
  {
    TrimmedEnds(s);
    if Tight(s) {
      TightStays(s);
    }
    TrimKeeps(s);
  }

  lemma TrimmedEnds(s: string)
    ensures Tight(Trim(s))
  {
    var a := TrimLeft(s);
    var t := TrimRight(a);
    TrimLeftStarts(s);
    TrimRightEnds(a);
    if t != "" {
      assert t[0] == a[0] && a != "";
    }
  }

  lemma TightStays(s: string)
    requires Tight(s)
    ensures Trim(s) == s
  {
  }

  lemma TrimKeeps(s: string)
    ensures forall c :: c in Trim(s) ==> c in s
  {
    var a := TrimLeft(s);
    var t := TrimRight(a);
    TrimLeftStarts(s);
    TrimRightEnds(a);
    PartOf(a, s, |s| - |a|);
    PartOf(t, a, 0);
  }

  lemma PartOf(part: string, whole: string, from: nat)
    requires from + |part| <= |whole| && part == whole[from..from + |part|]
    ensures forall c :: c in part ==> c in whole
  {
    forall c | c in part ensures c in whole {
      var i :| 0 <= i < |part| && part[i] == c;
      assert whole[from + i] == c;
    }
  }

  lemma {:induction false} TrimLeftBefore(a: string, b: string)
    requires b != "" && !IsSpace(b[0])
    ensures TrimLeft(a + b) == TrimLeft(a) + b
  {
    if a != "" && IsSpace(a[0]) {
      assert (a + b)[1..] == a[1..] + b;
      TrimLeftBefore(a[1..], b);
    } else if a == "" {
      assert a + b == b;
    }
  }

  lemma {:induction false} TrimRightAfter(a: string, b: string)
    requires a != "" && !IsSpace(a[|a| - 1])
    ensures TrimRight(a + b) == a + TrimRight(b)
  {
    if b != "" && IsSpace(b[|b| - 1]) {
      assert (a + b)[..|a + b| - 1] == a + b[..|b| - 1];
      TrimRightAfter(a, b[..|b| - 1]);
    } else if b == "" {
      assert a + b == a;
    }
  }

  /** Around an equals sign each side is trimmed on its own outer end. */
  lemma TrimAround(a: string, b: string)
    ensures Trim(a + "=" + b) == TrimLeft(a) + "=" + TrimRight(b)
  {
    var right, left := "=" + b, TrimLeft(a) + "=";
    Regroup(a, "=", b);
    TrimLeftBefore(a, right);
    Regroup(TrimLeft(a), "=", b);
    TrimRightAfter(left, b);
  }

  // ---- One line ---------------------------------------------------------------------------

  /** What stands before and after the first equals sign. */
  function Cut(line: string): Option<(string, string)> {
    if line == "" then None
    else if line[0] == '=' then Some(("", line[1..]))
    else
      match Cut(line[1..])
      case None => None
      case Some(p) => Some(([line[0]] + p.0, p.1))
  }

  lemma {:induction false} CutAt(a: string, b: string)
    requires '=' !in a
    ensures Cut(a + "=" + b) == Some((a, b))
  {
    var line := a + "=" + b;
    if a == "" {
      assert line[1..] == b;
    } else {
      var head, tail := a[0], a[1..];
      assert head in a && '=' !in tail && a == [head] + tail;
      assert line[0] == head && line[1..] == tail + "=" + b;
      CutAt(tail, b);
    }
  }

  lemma {:induction false} CutIff(line: string)
    ensures Cut(line).Some? <==> '=' in line
    ensures Cut(line).Some? ==> line == Cut(line).value.0 + "=" + Cut(line).value.1 && '=' !in Cut(line).value.0
  {
    if line != "" && line[0] != '=' {
      CutIff(line[1..]);
      assert line == [line[0]] + line[1..];
    }
  }

  function ParseLine(raw: string): Option<(string, string)> {
    var line := Trim(raw);
    if line == "" || line[0] == '#' || line[0] == '!' then None
    else
      match Cut(line)
      case None => None
      case Some(p) => Some((Trim(p.0), Unescape(p.1)))
  }

  function RenderLine(k: string, v: string): string { Escape(k) + "=" + Escape(v) }

  /** A key the reader gives back: nothing in it is escaped, and neither end is white space. */
  predicate KeyOk(k: string) {
    Tight(k) && forall i :: 0 <= i < |k| ==> Plain(k[i])
  }

  /** A value the reader gives back: it does not end in white space that escaping leaves alone. */
  predicate ValueOk(v: string) { v == "" || !RawSpace(v[|v| - 1]) }

  function StripRaw(v: string): string {
    if v != "" && RawSpace(v[|v| - 1]) then StripRaw(v[..|v| - 1]) else v
  }

  lemma {:induction false} TrimmedValue(v: string)
    ensures TrimRight(Escape(v)) == Escape(StripRaw(v))
    ensures StripRaw(v) == v <==> ValueOk(v)
    ensures |StripRaw(v)| <= |v|
  {
    if v != "" {
      var front, last := v[..|v| - 1], v[|v| - 1];
      var e := EscapeChar(last);
      assert Escape(v) == Escape(front) + e;
      if RawSpace(last) {
        TrimmedValue(front);
        assert e == [last] && Escape(v)[..|Escape(v)| - 1] == Escape(front);
      } else {
        assert !IsSpace(e[|e| - 1]) && Escape(v)[|Escape(v)| - 1] == e[|e| - 1];
      }
    }
  }

  lemma {:induction false} EscapedEnds(k: string)
    requires k != "" && Tight(k)
    ensures Tight(Escape(k)) && Escape(k) != ""
  {
    var front, last := k[..|k| - 1], k[|k| - 1];
    var e := EscapeChar(last);
    assert !IsSpace(e[|e| - 1]);
    if front == "" {
      assert Escape(front) + e == e;
    } else {
      EscapedStart(front);
      assert Escape(k)[0] == Escape(front)[0];
    }
  }

  lemma {:induction false} EscapedStart(k: string)
    requires k != "" && !IsSpace(k[0])
    ensures Escape(k) != "" && !IsSpace(Escape(k)[0])
  {
    if |k| > 1 {
      EscapedStart(k[..|k| - 1]);
    } else {
      assert Escape(k[..0]) + EscapeChar(k[0]) == EscapeChar(k[0]);
    }
  }

  lemma KeySurvives(k: string)
    ensures Trim(Escape(k)) == k <==> KeyOk(k)
  {
    TrimIsTight(Escape(k));
    if KeyOk(k) {
      PlainIsUnchanged(k);
    } else if Trim(Escape(k)) == k && k != "" {
      EscapedEnds(k);
      assert Escape(k) == k;
      UnchangedIsPlain(k);
    }
  }

  /** A rendered line reads back as its key and value exactly when both are of the kind that can. */
  lemma LineRoundTrip(k: string, v: string)
    ensures ParseLine(RenderLine(k, v)) == Some((k, v)) <==> KeyOk(k) && ValueOk(v)
  {
    EscapedIsOneLine(k);
    TrimAround(Escape(k), Escape(v));
    var line := Trim(RenderLine(k, v));
    assert line == TrimLeft(Escape(k)) + "=" + TrimRight(Escape(v));
    if '=' in k {
      CutIff(line);
      if Cut(line).Some? {
        TrimIsTight(Cut(line).value.0);
      }
      var i :| 0 <= i < |k| && k[i] == '=';
      assert !Plain(k[i]);
    } else {
      TrimLeftStarts(Escape(k));
      CutAt(TrimLeft(Escape(k)), TrimRight(Escape(v)));
      KeyNotComment(k);
      TrimmedValue(v);
      UnescapeInvertsEscape(StripRaw(v));
      TrimLeftTwice(Escape(k));
      KeySurvives(k);
    }
  }

  lemma TrimLeftTwice(s: string)
    ensures Trim(TrimLeft(s)) == Trim(s)
  {
    TrimLeftStarts(s);
  }

  /** No rendered line is taken for a comment. */
  lemma KeyNotComment(k: string)
    ensures TrimLeft(Escape(k)) != "" ==> TrimLeft(Escape(k))[0] != '#' && TrimLeft(Escape(k))[0] != '!'
  {
    NoRawSpecial(k);
    TrimLeftFirst(Escape(k));
  }

  /** What sets a key apart from its value, or a comment from an entry. */
  predicate Separates(c: char) { c == '=' || c == ':' || c == '#' || c == '!' }

  /** Where an escaped text has a separator or a comment sign, a backslash stands before it. */
  lemma {:induction false} NoRawSpecial(k: string)
    ensures forall i :: 0 <= i < |Escape(k)| && Separates(Escape(k)[i]) ==> i > 0 && Escape(k)[i - 1] == '\\'
  {
    if k != "" {
      NoRawSpecial(k[..|k| - 1]);
    }
  }

  /** Whatever stands before the first character kept is white space. */
  lemma {:induction false} TrimLeftFirst(s: string)
    ensures TrimLeft(s) != "" ==>
              var i := |s| - |TrimLeft(s)|;
              0 <= i < |s| && TrimLeft(s)[0] == s[i] && (i > 0 ==> IsSpace(s[i - 1]))
  {
    if s != "" && IsSpace(s[0]) {
      TrimLeftFirst(s[1..]);
    }
  }

  /** A key needs no escaping exactly if none of these nine characters is in it. */
  lemma KeyOkIff(k: string)
    ensures KeyOk(k) <==> Tight(k) && forall c :: c in k ==> c !in "\\=:#!\n\r\t"
  {
    var escaped := "\\=:#!\n\r\t";
    forall c: char ensures Plain(c) <==> c !in escaped {
      assert |EscapeChar(c)| == 1 <==> c !in escaped;
    }
  }

  /** The reader's escapes: four letters stand for control characters, all else for itself. */
  lemma UnescapesTo(c: char, rest: string)
    ensures Unescape(['\\', c] + rest) ==
            [match c case 'n' => '\n' case 'r' => '\r' case 't' => '\t' case 'f' => '\U{C}' case _ => c] + Unescape(rest)
    ensures Unescape("\\") == "\\"
  {
    var s := ['\\', c] + rest;
    assert s[0] == '\\' && s[1] == c && s[2..] == rest;
    var one := "\\";
    assert one[0] == '\\' && one[1..] == "";
    assert Unescape("") == "";
  }

  /** A line says nothing exactly if it is blank, a comment, or without an equals sign; otherwise its key is
      what stands before the first of them. */
  lemma SkippedIff(raw: string)
    ensures var line := Trim(raw);
            ParseLine(raw).None? <==> line == "" || line[0] in "#!" || '=' !in line
  {
    CutIff(Trim(raw));
  }

  /** What a line says: the key before the first equals sign, trimmed, and the value after it, unescaped. */
  lemma LineSays(raw: string, key: string, value: string)
    requires '=' !in key && Trim(raw) == key + "=" + value && (key == "" || key[0] !in "#!")
    ensures ParseLine(raw) == Some((Trim(key), Unescape(value)))
  {
    CutAt(key, value);
  }
}
