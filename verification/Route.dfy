/** Request paths turned into templates: internal/receiver/route.go.

    Text is a sequence of characters.  The program measures identifier segments in bytes, which
    differs only for characters that no identifier segment may hold.
  */
module Route {

  import opened Strings
  import opened Wrappers

  const MAX_SEGMENTS := 8
  const MIN_DIGIT_RUN := 4

  // ---- The path of an address -------------------------------------------------------------

  predicate StartsOrigin(s: string) { |s| >= 3 && s[0] == ':' && s[1] == '/' && s[2] == '/' }

  /** What follows the first "://". */
  function AfterOrigin(s: string): Option<string> {
    if s == "" then None else if StartsOrigin(s) then Some(s[3..]) else AfterOrigin(s[1..])
  }

  function FromSlash(s: string): string {
    if s == "" then "/" else if s[0] == '/' then s else FromSlash(s[1..])
  }

  function StripOrigin(raw: string): string {
    match AfterOrigin(raw)
    case None => raw
    case Some(rest) => FromSlash(rest)
  }

  predicate EndsPath(c: char) { c == '?' || c == '#' }

  function CutQuery(s: string): string {
    if s == "" || EndsPath(s[0]) then "" else [s[0]] + CutQuery(s[1..])
  }

  function TrimStart(s: string): string {
    if s != "" && s[0] == '/' then TrimStart(s[1..]) else s
  }

  function TrimEnd(s: string): string {
    if s != "" && s[|s| - 1] == '/' then TrimEnd(s[..|s| - 1]) else s
  }

  function TrimSlashes(s: string): string { TrimEnd(TrimStart(s)) }

  // ---- Identifier segments ----------------------------------------------------------------

  predicate IsHexDigit(c: char) { '0' <= c <= '9' || 'a' <= c <= 'f' || 'A' <= c <= 'F' }

  predicate IsAllDigits(s: string) { forall i :: 0 <= i < |s| ==> IsDigit(s[i]) }

  predicate IsUuid(s: string) {
    |s| == 36 && forall i :: 0 <= i < |s| ==> if i in {8, 13, 18, 23} then s[i] == '-' else IsHexDigit(s[i])
  }

  predicate IsLongHex(s: string) { |s| >= 16 && forall i :: 0 <= i < |s| ==> IsHexDigit(s[i]) }

  predicate DigitsAt(s: string, from: int, to: int)
    requires 0 <= from <= to <= |s|
  {
    forall i :: from <= i < to ==> IsDigit(s[i])
  }

  predicate RunAt(s: string, i: nat) { i + MIN_DIGIT_RUN <= |s| && DigitsAt(s, i, i + MIN_DIGIT_RUN) }

  predicate HasLongDigitRun(s: string) { exists i :: 0 <= i < |s| && RunAt(s, i) }

  predicate IsIdentifier(s: string) {
    s != "" && (IsAllDigits(s) || IsUuid(s) || IsLongHex(s) || HasLongDigitRun(s))
  }

  /** Counting consecutive digits finds a long run exactly when there is one. */
  method FindLongDigitRun(s: string) returns (found: bool)
    ensures found == HasLongDigitRun(s)
  {
    var run := 0;
    for i := 0 to |s|
      invariant 0 <= run <= i && run < MIN_DIGIT_RUN
      invariant DigitsAt(s, i - run, i) && (run < i ==> !IsDigit(s[i - run - 1]))
      invariant forall k :: 0 <= k <= i - MIN_DIGIT_RUN ==> !RunAt(s, k)
    {
      if IsDigit(s[i]) {
        run := run + 1;
        if run >= MIN_DIGIT_RUN {
          assert RunAt(s, i + 1 - run);
          return true;
        }
      } else {
        run := 0;
      }
      if i + 1 >= MIN_DIGIT_RUN {
        assert i - run >= 0 && !IsDigit(s[i - run]);
        assert !RunAt(s, i + 1 - MIN_DIGIT_RUN);
      }
    }
    return false;
  }

  // ---- Templates --------------------------------------------------------------------------

  function Capped(segments: seq<string>): seq<string> {
    if |segments| > MAX_SEGMENTS then segments[..MAX_SEGMENTS] + ["*"] else segments
  }

  function Mask(segment: string): string { if IsIdentifier(segment) then "{id}" else segment }

  function Masked(segments: seq<string>): (r: seq<string>)
    ensures |r| == |segments| && forall i :: 0 <= i < |r| ==> r[i] == Mask(segments[i])
  {
    seq(|segments|, i requires 0 <= i < |segments| => Mask(segments[i]))
  }

  function Template(path: string): string {
    if path == "" || path == "/" then "/"
    else "/" + Join('/', Masked(Capped(Split('/', TrimSlashes(path)))))
  }

  function Normalized(raw: string): string {
    if raw == "" then "" else Template(CutQuery(StripOrigin(raw)))
  }

  method NormalizeRoute(raw: string) returns (route: string)
    ensures route == Normalized(raw)
  {
    if raw == "" {
      return "";
    }
    var path := CutQuery(StripOrigin(raw));
    if path == "" || path == "/" {
      return "/";
    }
    var segments := Split('/', TrimSlashes(path));
    if |segments| > MAX_SEGMENTS {
      segments := segments[..MAX_SEGMENTS] + ["*"];
    }
    ghost var capped := segments;
    for i := 0 to |segments|
      invariant |segments| == |capped|
      invariant forall k :: 0 <= k < i ==> segments[k] == Mask(capped[k])
      invariant forall k :: i <= k < |capped| ==> segments[k] == capped[k]
    {
      var identifier := IsIdentifierSegment(segments[i]);
      if identifier {
        segments := segments[i := "{id}"];
      }
    }
    assert segments == Masked(capped);
    return "/" + Join('/', segments);
  }

  method IsIdentifierSegment(s: string) returns (identifier: bool)
    ensures identifier == IsIdentifier(s)
  {
    if s == "" {
      return false;
    }
    if IsAllDigits(s) || IsUuid(s) || IsLongHex(s) {
      return true;
    }
    identifier := FindLongDigitRun(s);
  }

  // ---- What a template looks like ---------------------------------------------------------

  /** A list of segments that is left as it is. */
  ghost predicate Settled(segments: seq<string>) {
    && segments != [] && Free('/', segments) && |segments| <= MAX_SEGMENTS + 1
    && (|segments| == MAX_SEGMENTS + 1 ==> segments[MAX_SEGMENTS] == "*")
    && (forall i :: 0 <= i < |segments| ==> !IsIdentifier(segments[i]))
    && (|segments| == 1 || (segments[0] != "" && segments[|segments| - 1] != ""))
  }

  lemma PlaceholdersAreNames()
    ensures !IsIdentifier("*") && !IsIdentifier("{id}")
    ensures '/' !in "*" && '/' !in "{id}"
  {
    var star, id := "*", "{id}";
    assert star[0] == '*' && id[0] == '{' && id[1] == 'i';
    assert !IsDigit(star[0]) && !IsDigit(id[0]);
    assert !RunAt(id, 0);
  }

  lemma TrimSlashesEnds(s: string)
    ensures var t := TrimSlashes(s); t == "" || (t[0] != '/' && t[|t| - 1] != '/')
  {
    TrimStartEnds(s);
    TrimEndEnds(TrimStart(s));
  }

  lemma {:induction false} TrimStartEnds(s: string)
    ensures var t := TrimStart(s); t == "" || t[0] != '/'
  {
    if s != "" && s[0] == '/' {
      TrimStartEnds(s[1..]);
    }
  }

  lemma {:induction false} TrimEndEnds(s: string)
    ensures var t := TrimEnd(s); |t| <= |s| && t == s[..|t|] && (t == "" || t[|t| - 1] != '/')
  {
    if s != "" && s[|s| - 1] == '/' {
      TrimEndEnds(s[..|s| - 1]);
    }
  }

  /** Joined segments begin and end where the first and the last of them do. */
  lemma {:induction false} JoinEnds(segments: seq<string>)
    requires segments != []
    ensures var t := Join('/', segments);
            var first, last := segments[0], segments[|segments| - 1];
            && (first != "" ==> t != "" && t[0] == first[0])
            && (last != "" ==> t != "" && t[|t| - 1] == last[|last| - 1])
            && (|segments| > 1 && first == "" ==> t != "" && t[0] == '/')
            && (|segments| > 1 && last == "" ==> t != "" && t[|t| - 1] == '/')
  {
    if |segments| > 1 {
      JoinEnds(segments[1..]);
    }
  }

  /** Trimmed text splits into segments whose ends are not empty. */
  lemma SplitTrimmed(s: string)
    ensures var t := Split('/', TrimSlashes(s));
            Free('/', t) && (|t| == 1 || (t[0] != "" && t[|t| - 1] != ""))
  {
    var t := TrimSlashes(s);
    TrimSlashesEnds(s);
    SplitJoin('/', t);
    JoinEnds(Split('/', t));
  }

  lemma CappedSettles(segments: seq<string>)
    requires segments != [] && Free('/', segments)
    requires |segments| == 1 || (segments[0] != "" && segments[|segments| - 1] != "")
    ensures Settled(Masked(Capped(segments)))
  {
    PlaceholdersAreNames();
    var r := Masked(Capped(segments));
    forall t | t in r ensures '/' !in t {
      var i :| 0 <= i < |r| && r[i] == t;
      if i < |segments| {
        assert segments[i] in segments;
      }
    }
  }

  lemma SettledStays(segments: seq<string>)
    requires Settled(segments)
    ensures Masked(Capped(segments)) == segments
  {
    if |segments| == MAX_SEGMENTS + 1 {
      assert segments == segments[..MAX_SEGMENTS] + ["*"];
    }
  }

  lemma JoinIsTrimmed(segments: seq<string>)
    requires segments != [] && Free('/', segments)
    requires |segments| == 1 || (segments[0] != "" && segments[|segments| - 1] != "")
    ensures TrimSlashes("/" + Join('/', segments)) == Join('/', segments)
  {
    var t := Join('/', segments);
    var first, last := segments[0], segments[|segments| - 1];
    assert first in segments && last in segments;
    JoinEnds(segments);
    assert t != "" ==> t[0] != '/' && t[|t| - 1] != '/';
    assert ("/" + t)[1..] == t && TrimStart("/" + t) == TrimStart(t) == t;
  }

  lemma {:induction false} JoinedChars(segments: seq<string>)
    requires forall i :: 0 <= i < |segments| ==> NoQuery(segments[i])
    ensures NoQuery(Join('/', segments))
  {
    if |segments| > 1 {
      JoinedChars(segments[1..]);
    }
  }

  ghost predicate NoQuery(s: string) { forall i :: 0 <= i < |s| ==> !EndsPath(s[i]) }

  lemma {:induction false} CutQueryCuts(s: string)
    ensures NoQuery(CutQuery(s)) && (NoQuery(s) ==> CutQuery(s) == s)
  {
    if s != "" && !EndsPath(s[0]) {
      CutQueryCuts(s[1..]);
    }
  }

  lemma {:induction false} SplitChars(s: string)
    requires NoQuery(s)
    ensures forall i :: 0 <= i < |Split('/', s)| ==> NoQuery(Split('/', s)[i])
  {
    if s != "" {
      SplitChars(s[1..]);
    }
  }

  lemma TrimmedChars(s: string)
    requires NoQuery(s)
    ensures NoQuery(TrimSlashes(s))
  {
    TrimStartChars(s);
    TrimEndEnds(TrimStart(s));
  }

  lemma {:induction false} TrimStartChars(s: string)
    requires NoQuery(s)
    ensures NoQuery(TrimStart(s))
  {
    if s != "" && s[0] == '/' {
      TrimStartChars(s[1..]);
    }
  }

  /** A template is a slash and a few settled segments, with no query left. */
  lemma TemplateShape(path: string) returns (segments: seq<string>)
    requires NoQuery(path)
    ensures Settled(segments) && Template(path) == "/" + Join('/', segments) && NoQuery(Template(path))
  {
    if path == "" || path == "/" {
      segments := [""];
    } else {
      var pieces := Split('/', TrimSlashes(path));
      SplitTrimmed(path);
      CappedSettles(pieces);
      TrimmedChars(path);
      SplitChars(TrimSlashes(path));
      segments := Masked(Capped(pieces));
      forall i | 0 <= i < |segments| ensures NoQuery(segments[i]) {
        assert i < |pieces| ==> NoQuery(pieces[i]);
      }
      JoinedChars(segments);
    }
  }

  lemma RouteShape(raw: string) returns (segments: seq<string>)
    requires raw != ""
    ensures Settled(segments) && Normalized(raw) == "/" + Join('/', segments) && NoQuery(Normalized(raw))
    ensures Split('/', Normalized(raw)[1..]) == segments
  {
    CutQueryCuts(StripOrigin(raw));
    segments := TemplateShape(CutQuery(StripOrigin(raw)));
    assert Normalized(raw)[1..] == Join('/', segments);
    JoinSplit('/', segments);
  }

  /** A route starts with a slash, has at most nine segments, the ninth only a star, and none that
      looks like an identifier. */
  lemma RouteIsTemplate(raw: string)
    ensures Normalized(raw) == "" <==> raw == ""
    ensures raw != "" ==>
              && Normalized(raw)[0] == '/'
              && var segments := Split('/', Normalized(raw)[1..]);
                 && |segments| <= MAX_SEGMENTS + 1
                 && (|segments| == MAX_SEGMENTS + 1 ==> segments[MAX_SEGMENTS] == "*")
                 && forall i :: 0 <= i < |segments| ==> !IsIdentifier(segments[i])
  {
    if raw != "" {
      var segments := RouteShape(raw);
    }
  }

  // ---- Normalising twice ------------------------------------------------------------------

  function Slashes(s: string): nat {
    if s == "" then 0 else (if s[0] == '/' then 1 else 0) + Slashes(s[1..])
  }

  lemma {:induction false} SlashesAppend(a: string, b: string)
    ensures Slashes(a + b) == Slashes(a) + Slashes(b)
  {
    if a == "" {
      assert a + b == b;
    } else {
      assert (a + b)[1..] == a[1..] + b;
      SlashesAppend(a[1..], b);
    }
  }

  lemma {:induction false} SplitCounts(s: string)
    ensures |Split('/', s)| == Slashes(s) + 1
  {
    if s != "" {
      SplitCounts(s[1..]);
    }
  }

  lemma {:induction false} OriginCounts(s: string)
    requires AfterOrigin(s).Some?
    ensures Slashes(AfterOrigin(s).value) + 2 <= Slashes(s)
  {
    if StartsOrigin(s) {
      var t, u := s[1..], s[2..];
      assert t[0] == '/' && t[1..] == u && u[0] == '/' && u[1..] == s[3..];
      assert Slashes(u) == 1 + Slashes(s[3..]) && Slashes(t) == 1 + Slashes(u);
    } else {
      OriginCounts(s[1..]);
    }
  }

  lemma {:induction false} FromSlashCounts(s: string)
    ensures Slashes(FromSlash(s)) <= Slashes(s) || FromSlash(s) == "/"
    ensures FromSlash(s) != "" && FromSlash(s)[0] == '/'
  {
    if s != "" && s[0] != '/' {
      FromSlashCounts(s[1..]);
    }
  }

  lemma {:induction false} CutQueryCounts(s: string)
    ensures Slashes(CutQuery(s)) <= Slashes(s)
    ensures s != "" && s[0] == '/' ==> CutQuery(s) != "" && CutQuery(s)[0] == '/'
  {
    if s != "" && !EndsPath(s[0]) {
      CutQueryCounts(s[1..]);
    }
  }

  lemma {:induction false} TrimStartCounts(s: string)
    ensures Slashes(TrimStart(s)) <= Slashes(s)
  {
    if s != "" && s[0] == '/' {
      TrimStartCounts(s[1..]);
    }
  }

  /** Trimming a path takes its first slash away. */
  lemma TrimSlashesCounts(s: string)
    requires s != "" && s[0] == '/'
    ensures Slashes(TrimSlashes(s)) + 1 <= Slashes(s)
  {
    var t := TrimStart(s);
    TrimStartCounts(s[1..]);
    TrimEndEnds(t);
    var kept := |TrimEnd(t)|;
    assert t == t[..kept] + t[kept..];
    SlashesAppend(t[..kept], t[kept..]);
  }

  lemma SettledCounts(segments: seq<string>)
    requires Settled(segments)
    ensures Slashes("/" + Join('/', segments)) == |segments|
  {
    JoinSplit('/', segments);
    SplitCounts(Join('/', segments));
    assert ("/" + Join('/', segments))[1..] == Join('/', segments);
  }

  /** A template has no more slashes than its path. */
  lemma TemplateCounts(path: string)
    requires NoQuery(path) && path != "" && path[0] == '/'
    ensures Slashes(Template(path)) <= Slashes(path)
  {
    if path != "/" {
      var pieces := Split('/', TrimSlashes(path));
      SplitTrimmed(path);
      CappedSettles(pieces);
      SettledCounts(Masked(Capped(pieces)));
      SplitCounts(TrimSlashes(path));
      TrimSlashesCounts(path);
    }
  }

  /** With another origin inside, a second pass drops everything up to it. */
  lemma OriginShortens(raw: string)
    requires AfterOrigin(raw).Some?
    ensures Slashes(Normalized(raw)) < Slashes(raw)
  {
    var rest := AfterOrigin(raw).value;
    OriginCounts(raw);
    FromSlashCounts(rest);
    var path := CutQuery(FromSlash(rest));
    CutQueryCounts(FromSlash(rest));
    CutQueryCuts(FromSlash(rest));
    TemplateCounts(path);
  }

  lemma SettledRouteStays(segments: seq<string>)
    requires Settled(segments) && NoQuery("/" + Join('/', segments))
    requires AfterOrigin("/" + Join('/', segments)).None?
    ensures Normalized("/" + Join('/', segments)) == "/" + Join('/', segments)
  {
    var route := "/" + Join('/', segments);
    CutQueryCuts(route);
    JoinIsTrimmed(segments);
    JoinSplit('/', segments);
    SettledStays(segments);
  }

  /** Normalising a route again changes nothing exactly when the route holds no "://". */
  lemma NormalizingTwice(raw: string)
    ensures Normalized(Normalized(raw)) == Normalized(raw) <==> AfterOrigin(Normalized(raw)).None?
  {
    if raw != "" {
      var segments := RouteShape(raw);
      if AfterOrigin(Normalized(raw)).None? {
        SettledRouteStays(segments);
      } else {
        OriginShortens(Normalized(raw));
      }
    }
  }

  ghost predicate PlainName(s: string) { s != "" && !IsIdentifier(s) && '/' !in s && NoQuery(s) }

  /** One segment that is no identifier is its own route. */
  lemma NameStays(name: string)
    requires PlainName(name)
    ensures Template("/" + name) == "/" + name
  {
    var path := "/" + name;
    assert Join('/', [name]) == name;
    JoinIsTrimmed([name]);
    JoinSplit('/', [name]);
    SettledStays([name]);
  }

  /** All that stands before the path is dropped, a slash in front of the origin too. */
  lemma PathAfterOrigin(path: string)
    requires path != "" && path[0] == '/' && NoQuery(path)
    ensures Normalized("://" + path) == Template(path) == Normalized("/://" + path)
  {
    var address := "://" + path;
    assert address[3..] == path && StartsOrigin(address);
    var slashed := "/://" + path;
    assert slashed[1..] == address && !StartsOrigin(slashed);
    CutQueryCuts(path);
  }

  /** An address inside an address: the second pass takes the inner one for the whole. */
  lemma SecondPassCanDiffer(name: string)
    requires PlainName(name)
    ensures var inner := "/" + name;
            var route := "/://" + inner;
            Normalized("://" + route) == route && Normalized(route) == inner && route != inner
  {
    var inner := "/" + name;
    PathAfterOrigin("/://" + inner);
    PathAfterOrigin(inner);
    NameStays(name);
    NestedTemplate(name);
  }

  lemma NestedTemplate(name: string)
    requires PlainName(name)
    ensures Template("/://" + ("/" + name)) == "/://" + ("/" + name)
  {
    var segments := [":", "", "", name];
    assert !IsIdentifier(":") by {
      assert ":"[0] == ':';
    }
    JoinFour(":", "", "", name);
    assert "/" + (":" + ['/'] + ("" + ['/'] + ("" + ['/'] + name))) == "/://" + ("/" + name);
    JoinIsTrimmed(segments);
    JoinSplit('/', segments);
    SettledStays(segments);
  }

  lemma JoinFour(a: string, b: string, c: string, d: string)
    ensures Join('/', [a, b, c, d]) == a + ['/'] + (b + ['/'] + (c + ['/'] + d))
  {
    assert [c, d][1..] == [d] && [b, c, d][1..] == [c, d] && [a, b, c, d][1..] == [b, c, d];
    assert Join('/', [c, d]) == c + ['/'] + d;
  }

  // ---- Queries ----------------------------------------------------------------------------

  lemma {:induction false} OriginOf(p: string, mark: char, q: string)
    requires EndsPath(mark)
    ensures AfterOrigin(p + [mark] + q)
            == match AfterOrigin(p) case Some(rest) => Some(rest + [mark] + q) case None => AfterOrigin(q)
  {
    var t := p + [mark] + q;
    if p == "" {
      assert t[1..] == q;
    } else {
      assert t[1..] == p[1..] + [mark] + q;
      if StartsOrigin(p) {
        assert t[3..] == p[3..] + [mark] + q;
      } else {
        assert !StartsOrigin(t);
        OriginOf(p[1..], mark, q);
      }
    }
  }

  lemma {:induction false} SlashOf(p: string, mark: char, q: string)
    requires EndsPath(mark)
    ensures FromSlash(p + [mark] + q) == if '/' in p then FromSlash(p) + [mark] + q else FromSlash(q)
  {
    var t := p + [mark] + q;
    if p == "" {
      assert t[1..] == q;
    } else if p[0] != '/' {
      assert t[1..] == p[1..] + [mark] + q;
      SlashOf(p[1..], mark, q);
    }
  }

  lemma {:induction false} CutAtQuery(p: string, mark: char, q: string)
    requires EndsPath(mark)
    ensures CutQuery(p + [mark] + q) == CutQuery(p)
  {
    if p != "" {
      assert (p + [mark] + q)[1..] == p[1..] + [mark] + q;
      CutAtQuery(p[1..], mark, q);
    }
  }

  /** A query, or a fragment, is dropped when no origin is in sight, or the origin and the path after it come first.
      Otherwise the query alone decides: its own address is normalised, whatever stands before it. */
  lemma QueryDecides(p: string, mark: char, q: string)
    requires p != "" && (mark == '?' || mark == '#')
    ensures AfterOrigin(p).None? && AfterOrigin(q).None? ==> Normalized(p + [mark] + q) == Normalized(p)
    ensures AfterOrigin(p).None? && AfterOrigin(q).Some? ==> Normalized(p + [mark] + q) == Normalized(q)
    ensures AfterOrigin(p).Some? ==>
              Normalized(p + [mark] + q)
              == if '/' in AfterOrigin(p).value then Normalized(p) else Template(CutQuery(FromSlash(q)))
  {
    OriginOf(p, mark, q);
    CutAtQuery(p, mark, q);
    if AfterOrigin(p).Some? {
      var rest := AfterOrigin(p).value;
      SlashOf(rest, mark, q);
      CutAtQuery(FromSlash(rest), mark, q);
    }
  }

  lemma {:induction false} NoSlashNoOrigin(s: string)
    requires '/' !in s
    ensures AfterOrigin(s).None?
  {
    if s != "" {
      NoSlashNoOrigin(s[1..]);
    }
  }

  lemma {:induction false} SlashAfterHost(host: string, path: string)
    requires '/' !in host && path != "" && path[0] == '/'
    ensures FromSlash(host + path) == path
  {
    if host == "" {
      assert host + path == path;
    } else {
      assert (host + path)[1..] == host[1..] + path;
      SlashAfterHost(host[1..], path);
    }
  }

  function Link(host: string, name: string): string { "://" + (host + ("/" + name)) }

  lemma LinkIsItsPath(host: string, name: string)
    requires '/' !in host && PlainName(name)
    ensures AfterOrigin(Link(host, name)).Some? && Normalized(Link(host, name)) == "/" + name
  {
    var link, path := Link(host, name), "/" + name;
    assert link[3..] == host + path && StartsOrigin(link);
    SlashAfterHost(host, path);
    CutQueryCuts(path);
    NameStays(name);
  }

  /** A link carried in a query takes the place of the path. */
  lemma LinkInQueryReplacesPath(name: string, host: string, inner: string)
    requires PlainName(name) && PlainName(inner) && '/' !in host
    ensures Normalized("/" + name) == "/" + name
    ensures Normalized("/" + name + ['?'] + Link(host, inner)) == "/" + inner
  {
    var path := "/" + name;
    NoSlashNoOrigin(name);
    assert path[1..] == name && !StartsOrigin(path);
    CutQueryCuts(path);
    NameStays(name);
    LinkIsItsPath(host, inner);
    QueryDecides(path, '?', Link(host, inner));
  }

  // ---- Grouping ---------------------------------------------------------------------------

  predicate Placeholder(s: string) { s == "{id}" || IsIdentifier(s) }

  /** The same kept segments, up to which identifier stands in a place. */
  ghost predicate Alike(a: seq<string>, b: seq<string>) {
    && (|a| == |b| || (|a| > MAX_SEGMENTS && |b| > MAX_SEGMENTS))
    && forall i :: 0 <= i < |a| && i < |b| && i < MAX_SEGMENTS ==>
                     a[i] == b[i] || (Placeholder(a[i]) && Placeholder(b[i]))
  }

  /** An address made of these segments and nothing else. */
  ghost predicate PlainPath(segments: seq<string>) {
    && segments != [] && Free('/', segments) && segments[0] != "" && segments[|segments| - 1] != ""
    && NoQuery("/" + Join('/', segments)) && AfterOrigin("/" + Join('/', segments)).None?
  }

  lemma PlainRoute(segments: seq<string>)
    requires PlainPath(segments)
    ensures Normalized("/" + Join('/', segments)) == "/" + Join('/', Masked(Capped(segments)))
  {
    var path := "/" + Join('/', segments);
    CutQueryCuts(path);
    JoinEnds(segments);
    assert |path| > 1;
    JoinIsTrimmed(segments);
    JoinSplit('/', segments);
  }

  /** Two plain paths get one route exactly when they differ in identifiers, or past the cap, only. */
  lemma OneRouteIffAlike(a: seq<string>, b: seq<string>)
    requires PlainPath(a) && PlainPath(b)
    ensures Normalized("/" + Join('/', a)) == Normalized("/" + Join('/', b)) <==> Alike(a, b)
  {
    PlainRoute(a);
    PlainRoute(b);
    OneTemplate(Masked(Capped(a)), Masked(Capped(b))) by {
      CappedSettles(a);
      CappedSettles(b);
    }
    SameMaskIffAlike(a, b);
  }

  lemma OneTemplate(x: seq<string>, y: seq<string>)
    requires Settled(x) && Settled(y)
    ensures "/" + Join('/', x) == "/" + Join('/', y) <==> x == y
  {
    if "/" + Join('/', x) == "/" + Join('/', y) {
      assert ("/" + Join('/', x))[1..] == Join('/', x) && ("/" + Join('/', y))[1..] == Join('/', y);
      JoinInjective('/', x, y);
    }
  }

  lemma SameMaskIffAlike(a: seq<string>, b: seq<string>)
    ensures Masked(Capped(a)) == Masked(Capped(b)) <==> Alike(a, b)
  {
    PlaceholdersAreNames();
    var x, y := Masked(Capped(a)), Masked(Capped(b));
    if x == y {
      forall i | 0 <= i < |a| && i < |b| && i < MAX_SEGMENTS
        ensures a[i] == b[i] || (Placeholder(a[i]) && Placeholder(b[i]))
      {
        assert x[i] == Mask(a[i]) && y[i] == Mask(b[i]);
      }
    }
  }

  // ---- What counts as an identifier -------------------------------------------------------

  ghost predicate OnlyDigits(s: string) { forall c :: c in s ==> c in "0123456789" }

  ghost predicate OnlyHex(s: string) { forall c :: c in s ==> c in "0123456789abcdefABCDEF" }

  lemma DigitsAreDigits(c: char)
    ensures IsDigit(c) <==> c in "0123456789"
    ensures IsHexDigit(c) <==> c in "0123456789abcdefABCDEF"
  {
    var digits, hex := "0123456789", "0123456789abcdefABCDEF";
    if IsDigit(c) {
      assert digits[c as int - '0' as int] == c && hex[c as int - '0' as int] == c;
    } else if 'a' <= c <= 'f' {
      assert hex[10 + c as int - 'a' as int] == c;
    } else if 'A' <= c <= 'F' {
      assert hex[16 + c as int - 'A' as int] == c;
    }
  }

  lemma DigitsIff(s: string)
    ensures OnlyDigits(s) <==> IsAllDigits(s)
    ensures OnlyHex(s) <==> forall i :: 0 <= i < |s| ==> IsHexDigit(s[i])
  {
    forall c ensures IsDigit(c) <==> c in "0123456789"
             ensures IsHexDigit(c) <==> c in "0123456789abcdefABCDEF" {
      DigitsAreDigits(c);
    }
  }

  /** Four digits in a row. */
  ghost predicate HoldsFourDigits(s: string) {
    exists a, d, b :: s == a + d + b && |d| == 4 && OnlyDigits(d)
  }

  lemma RunIff(s: string)
    ensures HasLongDigitRun(s) <==> HoldsFourDigits(s)
  {
    if HasLongDigitRun(s) {
      var i :| 0 <= i < |s| && RunAt(s, i);
      var d := s[i..i + 4];
      DigitsIff(d);
      assert s == s[..i] + d + s[i + 4..];
    }
    if HoldsFourDigits(s) {
      var a, d, b :| s == a + d + b && |d| == 4 && OnlyDigits(d);
      DigitsIff(d);
      assert forall k :: 0 <= k < 4 ==> s[|a| + k] == d[k];
      assert RunAt(s, |a|);
    }
  }

  /** Five groups of 8, 4, 4, 4 and 12 hex digits, with hyphens in between. */
  ghost predicate Grouped(s: string) {
    |s| == 36 && s[8] == '-' && s[13] == '-' && s[18] == '-' && s[23] == '-'
    && OnlyHex(s[..8]) && OnlyHex(s[9..13]) && OnlyHex(s[14..18]) && OnlyHex(s[19..23]) && OnlyHex(s[24..])
  }

  lemma GroupIff(s: string, from: nat, to: nat)
    requires from <= to <= |s|
    ensures OnlyHex(s[from..to]) <==> forall i :: from <= i < to ==> IsHexDigit(s[i])
  {
    DigitsIff(s[from..to]);
    assert forall i :: from <= i < to ==> s[i] == s[from..to][i - from];
    assert forall i :: 0 <= i < to - from ==> s[from..to][i] == s[from + i];
  }

  lemma UuidIff(s: string)
    ensures IsUuid(s) <==> Grouped(s)
  {
    if |s| == 36 {
      GroupIff(s, 0, 8);
      GroupIff(s, 9, 13);
      GroupIff(s, 14, 18);
      GroupIff(s, 19, 23);
      GroupIff(s, 24, 36);
      assert s[..8] == s[0..8] && s[24..] == s[24..36];
    }
  }

  /** A segment of a plain path is replaced exactly if it is up to three digits or holds four in a row, is
      sixteen or more hex digits, or has the form of a UUID. */
  lemma ReplacedIff(s: string)
    ensures IsIdentifier(s) <==>
            || (1 <= |s| <= 3 && OnlyDigits(s)) || HoldsFourDigits(s) || (|s| >= 16 && OnlyHex(s)) || Grouped(s)
  {
    DigitsIff(s);
    RunIff(s);
    UuidIff(s);
    if IsAllDigits(s) && |s| > 3 {
      assert RunAt(s, 0);
    }
  }

  /** The first eight segments make the route, each of them or the placeholder; a star stands for more. */
  lemma RouteOfPlainPath(segments: seq<string>, i: nat)
    requires PlainPath(segments) && i < |segments|
    ensures var kept := if |segments| > 8 then segments[..8] + ["*"] else segments;
            var shown := Masked(kept);
            && Normalized("/" + Join('/', segments)) == "/" + Join('/', shown)
            && (i < 8 ==> shown[i] == if IsIdentifier(segments[i]) then "{id}" else segments[i])
            && (|segments| > 8 ==> |shown| == 9 && shown[8] == "*")
  {
    PlainRoute(segments);
    PlaceholdersAreNames();
  }
}
