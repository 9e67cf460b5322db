/** A whole properties file, written and read back: internal/injector/injector.go
    (`renderProperties`, `escapeProperty`) and internal/attach/properties.go (`parseProperties`,
    `unescapeProperty`).
  */
module PropertyFile {

  import opened PropertyText
  import opened Sorting
  import opened Strings
  import opened Wrappers

  // ---- Writing ----------------------------------------------------------------------------

  function Header(pid: nat, when: string): string {
    "# Generated by apm2go for pid " + Decimal(pid) + " at " + when
  }

  function RenderLines(props: map<string, string>, keys: seq<string>): (r: seq<string>)
    requires forall i :: 0 <= i < |keys| ==> keys[i] in props
    ensures |r| == |keys| && forall i :: 0 <= i < |keys| ==> r[i] == RenderLine(keys[i], props[keys[i]])
  {
    seq(|keys|, i requires 0 <= i < |keys| => RenderLine(keys[i], props[keys[i]]))
  }

  /** Every line with a line break after it. */
  function Terminated(lines: seq<string>): string {
    if lines == [] then "" else Terminated(lines[..|lines| - 1]) + lines[|lines| - 1] + "\n"
  }

  function Rendered(pid: nat, when: string, props: map<string, string>, keys: seq<string>): string
    requires forall i :: 0 <= i < |keys| ==> keys[i] in props
  {
    Terminated([Header(pid, when)] + RenderLines(props, keys))
  }

  /** `keys` lists the keys of `props`, each once. */
  ghost predicate Listing(props: map<string, string>, keys: seq<string>) {
    && (forall i :: 0 <= i < |keys| ==> keys[i] in props)
    && (forall k :: k in props ==> k in keys)
    && Distinct(keys)
  }

  method EscapeProperty(s: string) returns (b: string)
    ensures b == Escape(s)
  {
    b := "";
    for i := 0 to |s|
      invariant b == Escape(s[..i])
    {
      assert s[..i + 1][..i] == s[..i];
      match s[i]
      case '\\' | '=' | ':' | '#' | '!' => b := b + ['\\', s[i]];
      case '\n' => b := b + "\\n";
      case '\r' => b := b + "\\r";
      case '\t' => b := b + "\\t";
      case _ => b := b + [s[i]];
    }
    assert s[..|s|] == s;
  }

  method RenderProperties(pid: nat, when: string, props: map<string, string>) returns (text: string)
    ensures exists keys :: Listing(props, keys) && Sorted(StringLess, keys)
                           && text == Rendered(pid, when, props, keys)
  {
    var keys := KeysOf(props);
    StringLessIsTotal();
    var sorted := SortSlice(StringLess, keys);
    ListingUpToOrder(props, keys, sorted);
    text := Header(pid, when) + "\n";
    ghost var lines := RenderLines(props, sorted);
    HeaderFirst(Header(pid, when), lines);
    for i := 0 to |sorted|
      invariant text == Terminated([Header(pid, when)] + lines[..i])
    {
      var k := EscapeProperty(sorted[i]);
      var v := EscapeProperty(props[sorted[i]]);
      var line := k + "=" + v;
      assert line == lines[i];
      OneMoreLine(Header(pid, when), lines, i);
      text := text + line + "\n";
    }
    assert lines[..|sorted|] == lines;
  }

  lemma HeaderFirst(header: string, lines: seq<string>)
    ensures Terminated([header] + lines[..0]) == header + "\n"
  {
    assert [header] + lines[..0] == [header];
    assert Terminated([]) + header + "\n" == header + "\n";
  }

  lemma OneMoreLine(header: string, lines: seq<string>, i: nat)
    requires i < |lines|
    ensures Terminated([header] + lines[..i + 1]) == Terminated([header] + lines[..i]) + lines[i] + "\n"
  {
    var all := [header] + lines[..i + 1];
    assert all[..|all| - 1] == [header] + lines[..i] && all[|all| - 1] == lines[i];
  }

  /** The keys, in no particular order. */
  method KeysOf(props: map<string, string>) returns (keys: seq<string>)
    ensures Listing(props, keys)
  {
    keys := [];
    var left := props.Keys;
    while left != {}
      invariant left <= props.Keys
      invariant forall k :: k in keys <==> k in props && k !in left
      invariant Distinct(keys)
      decreases left
    {
      var k :| k in left;
      left := left - {k};
      keys := keys + [k];
    }
    assert forall i :: 0 <= i < |keys| ==> keys[i] in keys;
  }

  lemma ListingUpToOrder(props: map<string, string>, a: seq<string>, b: seq<string>)
    requires Listing(props, a) && multiset(a) == multiset(b)
    ensures Listing(props, b)
  {
    SameElements(a, b);
    forall i | 0 <= i < |b| ensures b[i] in props {
      assert b[i] in b && b[i] in a;
    }
    assert (set x | x in a) == (set x | x in b);
    DistinctSize(a);
    DistinctSize(b);
  }

  /** The text does not depend on the order in which the map was walked. */
  lemma RenderIsCanonical(pid: nat, when: string, props: map<string, string>, a: seq<string>, b: seq<string>)
    requires Listing(props, a) && Sorted(StringLess, a)
    requires Listing(props, b) && Sorted(StringLess, b)
    ensures Rendered(pid, when, props, a) == Rendered(pid, when, props, b)
  {
    StringLessIsTotal();
    assert (set x | x in a) == (set x | x in b);
    DistinctMultiset(a, b);
    SortedUnique(StringLess, a, b);
  }

  // ---- Reading ----------------------------------------------------------------------------

  function Entered(out: map<string, string>, line: string): map<string, string> {
    match ParseLine(line)
    case None => out
    case Some(p) => out[p.0 := p.1]
  }

  function ParsedLines(lines: seq<string>): map<string, string> {
    if lines == [] then map[] else Entered(ParsedLines(lines[..|lines| - 1]), lines[|lines| - 1])
  }

  function Parsed(body: string): map<string, string> { ParsedLines(Split('\n', body)) }

  method UnescapeProperty(s: string) returns (b: string)
    ensures b == Unescape(s)
  {
    if '\\' !in s {
      NothingToUnescape(s);
      return s;
    }
    b := "";
    var i := 0;
    assert s[0..] == s;
    while i < |s|
      invariant 0 <= i <= |s|
      invariant Unescape(s) == b + Unescape(s[i..])
    {
      UnescapeAt(s, i);
      var c := s[i];
      if s[i] == '\\' && i + 1 < |s| {
        i := i + 1;
        match s[i]
        case 'n' => c := '\n';
        case 'r' => c := '\r';
        case 't' => c := '\t';
        case 'f' => c := '\U{C}';
        case _ => c := s[i];
      }
      OneMoreCharacter(b, c, Unescape(s[i + 1..]));
      b := b + [c];
      i := i + 1;
    }
    assert b + Unescape(s[i..]) == b;
  }

  lemma UnescapeAt(s: string, i: nat)
    requires i < |s|
    ensures Unescape(s[i..])
            == if s[i] != '\\' || i + 1 >= |s| then [s[i]] + Unescape(s[i + 1..])
               else [Resolve(s[i + 1])] + Unescape(s[i + 2..])
  {
    var t := s[i..];
    assert t[1..] == s[i + 1..];
    if i + 1 < |s| {
      assert t[2..] == s[i + 2..];
    }
  }

  lemma OneMoreCharacter(b: string, c: char, rest: string)
    ensures b + ([c] + rest) == (b + [c]) + rest
  {
  }

  lemma {:induction false} NothingToUnescape(s: string)
    requires '\\' !in s
    ensures Unescape(s) == s
  {
    if s != "" {
      NothingToUnescape(s[1..]);
    }
  }

  method ParseProperties(body: string) returns (out: map<string, string>)
    ensures out == Parsed(body)
  {
    out := map[];
    var lines := Split('\n', body);
    for i := 0 to |lines|
      invariant out == ParsedLines(lines[..i])
    {
      assert lines[..i + 1][..i] == lines[..i];
      var line := Trim(lines[i]);
      if line == "" || line[0] == '#' || line[0] == '!' {
        continue;
      }
      match Cut(line)
      case None =>
      case Some((key, value)) =>
        var plain := UnescapeProperty(value);
        out := out[Trim(key) := plain];
    }
    assert lines[..|lines|] == lines;
  }

  // ---- There and back ---------------------------------------------------------------------

  /** Every entry is of the kind a line gives back. */
  ghost predicate EntriesOk(props: map<string, string>) {
    forall k :: k in props ==> KeyOk(k) && ValueOk(props[k])
  }

  lemma {:induction false} TerminatedIsJoined(lines: seq<string>)
    ensures Terminated(lines) == Join('\n', lines + [""])
  {
    if lines != [] {
      var front, last := lines[..|lines| - 1], lines[|lines| - 1];
      TerminatedIsJoined(front);
      assert lines + [""] == front + [last, ""];
      JoinSnoc(front, last);
    }
  }

  lemma {:induction false} JoinSnoc(front: seq<string>, last: string)
    ensures Join('\n', front + [last, ""]) == Join('\n', front + [""]) + last + "\n"
  {
    if front == [] {
      assert front + [""] == [""] && front + [last, ""] == [last, ""];
      assert [last, ""][1..] == [""];
    } else {
      var a, b := front + [""], front + [last, ""];
      assert a[1..] == front[1..] + [""] && b[1..] == front[1..] + [last, ""];
      JoinSnoc(front[1..], last);
      assert Join('\n', b) == front[0] + ['\n'] + Join('\n', b[1..]);
    }
  }

  lemma HeaderIsSkipped(pid: nat, when: string)
    requires '\n' !in when
    ensures ParseLine(Header(pid, when)) == None && '\n' !in Header(pid, when)
  {
    var rest := " Generated by apm2go for pid " + Decimal(pid) + " at " + when;
    HeaderSplits(pid, when);
    CommentIsSkipped(rest);
    assert '\n' !in Decimal(pid);
    assert '\n' !in " Generated by apm2go for pid " && '\n' !in " at ";
  }

  lemma HeaderSplits(pid: nat, when: string)
    ensures Header(pid, when) == ['#'] + (" Generated by apm2go for pid " + Decimal(pid) + " at " + when)
  {
    assert "# Generated by apm2go for pid " == ['#'] + " Generated by apm2go for pid ";
  }

  lemma CommentIsSkipped(rest: string)
    ensures ParseLine(['#'] + rest) == None
  {
    TrimRightAfter(['#'], rest);
  }

  /** The reader sees the written lines between the comment and an empty last one. */
  lemma LinesComeBack(pid: nat, when: string, props: map<string, string>, keys: seq<string>)
    requires Listing(props, keys) && '\n' !in when
    ensures Split('\n', Rendered(pid, when, props, keys)) == [Header(pid, when)] + RenderLines(props, keys) + [""]
  {
    var lines := [Header(pid, when)] + RenderLines(props, keys);
    HeaderIsSkipped(pid, when);
    TerminatedIsJoined(lines);
    forall l | l in lines + [""] ensures '\n' !in l {
      var i :| 0 <= i < |lines| + 1 && (lines + [""])[i] == l;
      if 0 < i <= |keys| {
        EscapedIsOneLine(keys[i - 1]);
        EscapedIsOneLine(props[keys[i - 1]]);
      }
    }
    JoinSplit('\n', lines + [""]);
  }

  lemma ReadBack(pid: nat, when: string, props: map<string, string>, keys: seq<string>)
    requires Listing(props, keys) && '\n' !in when
    ensures Parsed(Rendered(pid, when, props, keys)) == ParsedLines(RenderLines(props, keys))
  {
    LinesComeBack(pid, when, props, keys);
    HeaderIsSkipped(pid, when);
    var lines := RenderLines(props, keys);
    var all := [Header(pid, when)] + lines + [""];
    assert all[..|all| - 1] == [Header(pid, when)] + lines;
    assert ParseLine("") == None;
    SkipFirst(Header(pid, when), lines);
  }

  lemma {:induction false} SkipFirst(skipped: string, lines: seq<string>)
    requires ParseLine(skipped) == None
    ensures ParsedLines([skipped] + lines) == ParsedLines(lines)
  {
    var all := [skipped] + lines;
    if lines == [] {
      assert all[..0] == [];
    } else {
      assert all[..|all| - 1] == [skipped] + lines[..|lines| - 1];
      SkipFirst(skipped, lines[..|lines| - 1]);
    }
  }

  lemma {:induction false} GoodEntriesComeBack(props: map<string, string>, keys: seq<string>)
    requires forall i :: 0 <= i < |keys| ==> keys[i] in props
    requires EntriesOk(props)
    ensures ParsedLines(RenderLines(props, keys)) == map k | k in props && k in keys :: props[k]
  {
    var lines := RenderLines(props, keys);
    if keys != [] {
      var front, last := keys[..|keys| - 1], keys[|keys| - 1];
      assert keys == front + [last];
      assert lines[..|lines| - 1] == RenderLines(props, front);
      GoodEntriesComeBack(props, front);
      LineRoundTrip(last, props[last]);
    }
  }

  /** Whatever was read was on some line. */
  lemma {:induction false} ReadFromALine(lines: seq<string>, k: string) returns (i: nat)
    requires k in ParsedLines(lines)
    ensures i < |lines| && ParseLine(lines[i]) == Some((k, ParsedLines(lines)[k]))
  {
    var last := |lines| - 1;
    var p := ParseLine(lines[last]);
    if p.Some? && p.value.0 == k {
      i := last;
    } else {
      i := ReadFromALine(lines[..last], k);
    }
  }

  /** A key that is read is trimmed and has no equals sign; one written without it was only escaped. */
  lemma ReadKey(k: string, v: string)
    requires ParseLine(RenderLine(k, v)).Some?
    ensures var r := ParseLine(RenderLine(k, v)).value.0;
            Tight(r) && '=' !in r && ('=' !in k ==> r == Trim(Escape(k)))
  {
    var line := Trim(RenderLine(k, v));
    CutIff(line);
    TrimIsTight(Cut(line).value.0);
    if '=' !in k {
      EscapedIsOneLine(k);
      TrimAround(Escape(k), Escape(v));
      TrimLeftStarts(Escape(k));
      CutAt(TrimLeft(Escape(k)), TrimRight(Escape(v)));
      TrimLeftTwice(Escape(k));
    }
  }

  /** The line a key came from, when the file reads back as it was written. */
  lemma WrittenAs(props: map<string, string>, keys: seq<string>, k: string) returns (from: string)
    requires Listing(props, keys) && ParsedLines(RenderLines(props, keys)) == props && k in props
    ensures from in props && ParseLine(RenderLine(from, props[from])) == Some((k, props[k]))
    ensures Tight(k) && '=' !in k && ('=' !in from ==> k == Trim(Escape(from)))
  {
    var i := ReadFromALine(RenderLines(props, keys), k);
    from := keys[i];
    ReadKey(from, props[from]);
  }

  /** A key that had to be escaped would have come from a shorter one, and so on forever. */
  lemma {:induction false} KeysMustBeOk(props: map<string, string>, keys: seq<string>, k: string)
    requires Listing(props, keys) && ParsedLines(RenderLines(props, keys)) == props && k in props
    ensures KeyOk(k)
    decreases |k|
  {
    var from := WrittenAs(props, keys, k);
    var before := WrittenAs(props, keys, from);
    if from != "" {
      EscapedEnds(from);
      TrimIsTight(Escape(from));
    }
    EscapeGrows(from);
    if |from| < |k| {
      KeysMustBeOk(props, keys, from);
      PlainIsUnchanged(from);
    } else {
      UnchangedIsPlain(from);
      PlainIsUnchanged(from);
    }
  }

  /** The file reads back as it was written exactly when every single entry is of that kind. */
  lemma FileRoundTrip(pid: nat, when: string, props: map<string, string>, keys: seq<string>)
    requires Listing(props, keys) && '\n' !in when
    ensures Parsed(Rendered(pid, when, props, keys)) == props <==> EntriesOk(props)
  {
    ReadBack(pid, when, props, keys);
    if EntriesOk(props) {
      GoodEntriesComeBack(props, keys);
    }
    if ParsedLines(RenderLines(props, keys)) == props {
      forall k | k in props ensures KeyOk(k) && ValueOk(props[k]) {
        var from := WrittenAs(props, keys, k);
        KeysMustBeOk(props, keys, k);
        KeysMustBeOk(props, keys, from);
        KeySurvives(from);
        LineRoundTrip(k, props[k]);
      }
    }
  }

  /** Of lines that give one key twice the later one counts, and no line touches other keys. */
  lemma LaterLineWins(lines: seq<string>, raw: string, key: string, value: string, other: string)
    requires ParseLine(raw) == Some((key, value)) && other != key
    ensures var all := ParsedLines(lines + [raw]);
            && key in all && all[key] == value
            && (other in all <==> other in ParsedLines(lines)) && (other in all ==> all[other] == ParsedLines(lines)[other])
  {
    assert (lines + [raw])[..|lines|] == lines;
  }
}
