/**
 * URLs as the proxy uses them: a scheme, an optional host and port, a path kept in its
 * written (percent-encoded) form and an optional list of decoded query items. `Parse`
 * models `URL(string:)` and `AbsoluteString` models `absoluteString`; the two are
 * inverse on well-formed URLs. Since the query is held decoded, `AbsoluteString` writes
 * it back in one canonical escaping, not as it was written.
 */
module Urls {
  import opened Wrappers
  import opened Text
  import PercentCoding

  datatype QueryItem = QueryItem(name: string, value: Option<string>)

  datatype Url = Url(
    scheme: Option<string>,
    host: Option<string>,
    port: Option<nat>,
    path: string,
    query: Option<seq<QueryItem>>)

  // ----- character classes (RFC 3986, section 3) -----

  predicate IsAlpha(c: char) { 'a' <= c <= 'z' || 'A' <= c <= 'Z' }
  predicate IsDigit(c: char) { '0' <= c <= '9' }
  predicate IsSchemeChar(c: char) { IsAlpha(c) || IsDigit(c) || c == '+' || c == '-' || c == '.' }
  predicate IsNotSchemeChar(c: char) { !IsSchemeChar(c) }
  predicate IsHostChar(c: char) { IsAlpha(c) || IsDigit(c) || c == '-' || c == '.' || c == '_' || c == '~' }
  /** Characters a path may hold: unreserved, sub-delimiters, `:`, `@`, `/` and `%` of an escape. */
  predicate IsPathChar(c: char)
  {
    || IsAlpha(c) || IsDigit(c)
    || c == '-' || c == '.' || c == '_' || c == '~'
    || c == '!' || c == '$' || c == '&' || c == '\'' || c == '(' || c == ')' || c == '*' || c == '+' || c == ',' || c == ';' || c == '='
    || c == ':' || c == '@' || c == '/' || c == '%'
  }
  predicate IsQueryChar(c: char) { IsPathChar(c) || c == '?' }

  predicate IsSlash(c: char) { c == '/' }
  predicate IsQuestion(c: char) { c == '?' }
  predicate IsColon(c: char) { c == ':' }
  predicate IsAmp(c: char) { c == '&' }
  predicate IsEquals(c: char) { c == '=' }
  predicate EndsAuthority(c: char) { c == '/' || c == '?' }

  predicate ValidScheme(s: string) { |s| > 0 && IsAlpha(s[0]) && AllOf(s, IsSchemeChar) }
  predicate ValidHost(h: string) { |h| > 0 && AllOf(h, IsHostChar) }

  /** Every `%` is followed by two hexadecimal digits. */
  predicate EscapesComplete(p: string)
  {
    forall i :: 0 <= i < |p| && p[i] == '%' ==>
      i + 2 < |p| && PercentCoding.IsHexDigit(p[i + 1]) && PercentCoding.IsHexDigit(p[i + 2])
  }

  predicate ValidPath(p: string) { AllOf(p, IsPathChar) && EscapesComplete(p) }

  /**
   * The URLs the model serialises and parses back unchanged: an absolute URL with a
   * valid scheme, a valid host if any, a path that starts with `/` after a host and
   * cannot be mistaken for an authority without one, and a query that is not the
   * single empty item (which would print as an empty query).
   */
  predicate WellFormed(u: Url)
  {
    && u.scheme.Some? && ValidScheme(u.scheme.value)
    && (u.host.Some? ==> ValidHost(u.host.value) && (u.path == [] || u.path[0] == '/'))
    && (u.port.Some? ==> u.host.Some?)
    && (u.host.None? ==> !StartsWith(u.path, "//"))
    && ValidPath(u.path)
    && (u.query.Some? ==> u.query.value != [QueryItem([], None)])
  }

  // ----- decimal numbers (the port) -----

  function DigitChar(d: nat): (c: char)
    requires d < 10
    ensures IsDigit(c)
  {
    ('0' as int + d) as char
  }

  function DigitValue(c: char): nat
    requires IsDigit(c)
  {
    c as int - '0' as int
  }

  function NatToString(n: nat): (s: string)
    ensures |s| > 0 && AllOf(s, IsDigit)
  {
    if n < 10 then [DigitChar(n)]
    else
      var s := NatToString(n / 10) + [DigitChar(n % 10)];
      AllOfAppend(NatToString(n / 10), [DigitChar(n % 10)], IsDigit);
      s
  }

  function DigitsValue(s: string): nat
    requires AllOf(s, IsDigit)
  {
    if s == [] then 0 else DigitsValue(s[..|s| - 1]) * 10 + DigitValue(s[|s| - 1])
  }

  function ParseNat(s: string): Option<nat>
  {
    if |s| > 0 && AllOf(s, IsDigit) then Some(DigitsValue(s)) else None
  }

  /** Round trip: the decimal form of a port reads back as that port. */
  lemma {:induction false} ParseNatToString(n: nat)
    ensures ParseNat(NatToString(n)) == Some(n)
  {
    var s := NatToString(n);
    if n < 10 {
      assert s[..|s| - 1] == [];
      assert DigitValue(s[0]) == n;
      assert DigitsValue(s) == DigitsValue([]) * 10 + DigitValue(s[0]);
    } else {
      ParseNatToString(n / 10);
      assert s[..|s| - 1] == NatToString(n / 10);
      assert DigitValue(s[|s| - 1]) == n % 10;
    }
  }

  // ----- serialisation -----

  function ItemString(it: QueryItem): string
  {
    PercentCoding.Encode(it.name) +
    (if it.value.Some? then "=" + PercentCoding.Encode(it.value.value) else "")
  }

  function ItemStrings(items: seq<QueryItem>): (r: seq<string>)
    ensures |r| == |items|
  {
    if items == [] then [] else [ItemString(items[0])] + ItemStrings(items[1..])
  }

  function QueryString(items: seq<QueryItem>): string
  {
    Join(ItemStrings(items), '&')
  }

  function SchemePart(u: Url): string
  {
    if u.scheme.Some? then u.scheme.value + ":" else ""
  }

  function PortPart(u: Url): string
  {
    if u.port.Some? then ":" + NatToString(u.port.value) else ""
  }

  function AuthorityPart(u: Url): string
  {
    if u.host.Some? then "//" + u.host.value + PortPart(u) else ""
  }

  function QueryPart(u: Url): string
  {
    if u.query.Some? then "?" + QueryString(u.query.value) else ""
  }

  /** The text of a URL (`absoluteString`). */
  function AbsoluteString(u: Url): string
  {
    SchemePart(u) + (AuthorityPart(u) + (u.path + QueryPart(u)))
  }

  // ----- parsing -----

  /** Reads a scheme followed by `:` from the front of `s`, if there is one. */
  function ParseScheme(s: string): (Option<string>, string)
  {
    var (run, rest) := Break(s, IsNotSchemeChar);
    if |run| > 0 && IsAlpha(run[0]) && rest != [] && rest[0] == ':' then (Some(run), rest[1..])
    else (None, s)
  }

  /** Reads `//host[:port]` from the front of `s`, if it starts with `//`. */
  function ParseAuthority(s: string): Option<(Option<string>, Option<nat>, string)>
  {
    if !StartsWith(s, "//") then Some((None, None, s))
    else
      var (auth, rest) := Break(s[2..], EndsAuthority);
      var (h, p) := Break(auth, IsColon);
      if !ValidHost(h) then None
      else if p == [] then Some((Some(h), None, rest))
      else match ParseNat(p[1..])
        case None => None
        case Some(n) => Some((Some(h), Some(n), rest))
  }

  function ParseItem(piece: string): Option<QueryItem>
  {
    var (n, rest) := Break(piece, IsEquals);
    match PercentCoding.Decode(n)
    case None => None
    case Some(name) =>
      if rest == [] then Some(QueryItem(name, None))
      else match PercentCoding.Decode(rest[1..])
        case None => None
        case Some(v) => Some(QueryItem(name, Some(v)))
  }

  function ParseItems(pieces: seq<string>): (r: Option<seq<QueryItem>>)
    ensures r.Some? ==> |r.value| == |pieces|
  {
    if pieces == [] then Some([])
    else match (ParseItem(pieces[0]), ParseItems(pieces[1..]))
      case (Some(it), Some(rest)) => Some([it] + rest)
      case _ => None
  }

  /** The items of a query (`URLComponents.queryItems`): `&`-separated, `=` before the value. */
  function ParseQuery(q: string): Option<seq<QueryItem>>
  {
    if !AllOf(q, IsQueryChar) then None
    else if q == [] then Some([])
    else ParseItems(Split(q, IsAmp))
  }

  /** The URL a string denotes, or None when it does not parse (`URL(string:)`). */
  function Parse(s: string): Option<Url>
  {
    var (scheme, s1) := ParseScheme(s);
    match ParseAuthority(s1)
    case None => None
    case Some((host, port, s2)) =>
      var (path, q) := Break(s2, IsQuestion);
      if !ValidPath(path) then None
      else if q == [] then Some(Url(scheme, host, port, path, None))
      else match ParseQuery(q[1..])
        case None => None
        case Some(items) => Some(Url(scheme, host, port, path, Some(items)))
  }

  // ----- the round trip -----

  lemma EncodedCharsAreQueryChars(s: string)
    ensures AllOf(PercentCoding.Encode(s), IsQueryChar)
    ensures NoneOf(PercentCoding.Encode(s), IsAmp) && NoneOf(PercentCoding.Encode(s), IsEquals)
  {
    PercentCoding.EncodeChars(s);
  }

  lemma ParseItemString(it: QueryItem)
    ensures ParseItem(ItemString(it)) == Some(it)
  {
    var n := PercentCoding.Encode(it.name);
    EncodedCharsAreQueryChars(it.name);
    PercentCoding.DecodeEncode(it.name);
    if it.value.Some? {
      var v := PercentCoding.Encode(it.value.value);
      assert ItemString(it) == n + ("=" + v);
      BreakAt(n, "=" + v, IsEquals);
      assert ("=" + v)[1..] == v;
      PercentCoding.DecodeEncode(it.value.value);
    } else {
      assert ItemString(it) == n + [];
      BreakAt(n, [], IsEquals);
    }
  }

  lemma {:induction false} ParseItemStrings(items: seq<QueryItem>)
    ensures ParseItems(ItemStrings(items)) == Some(items)
  {
    if items != [] {
      ParseItemString(items[0]);
      ParseItemStrings(items[1..]);
      var strs := ItemStrings(items);
      assert strs[0] == ItemString(items[0]) && strs[1..] == ItemStrings(items[1..]);
      assert [items[0]] + items[1..] == items;
    }
  }

  lemma ItemStringClean(it: QueryItem)
    ensures AllOf(ItemString(it), IsQueryChar) && NoneOf(ItemString(it), IsAmp)
  {
    EncodedCharsAreQueryChars(it.name);
    if it.value.Some? {
      EncodedCharsAreQueryChars(it.value.value);
      AllOfAppend("=", PercentCoding.Encode(it.value.value), IsQueryChar);
      NoneOfAppend("=", PercentCoding.Encode(it.value.value), IsAmp);
      AllOfAppend(PercentCoding.Encode(it.name), "=" + PercentCoding.Encode(it.value.value), IsQueryChar);
      NoneOfAppend(PercentCoding.Encode(it.name), "=" + PercentCoding.Encode(it.value.value), IsAmp);
    } else {
      assert ItemString(it) == PercentCoding.Encode(it.name);
    }
  }

  lemma {:induction false} ItemStringsClean(items: seq<QueryItem>)
    ensures forall k :: 0 <= k < |items| ==> NoneOf(ItemStrings(items)[k], IsAmp)
    ensures forall k :: 0 <= k < |items| ==> AllOf(ItemStrings(items)[k], IsQueryChar)
  {
    if items != [] {
      ItemStringClean(items[0]);
      ItemStringsClean(items[1..]);
      var strs := ItemStrings(items);
      assert forall k :: 1 <= k < |items| ==> strs[k] == ItemStrings(items[1..])[k - 1];
    }
  }

  lemma {:induction false} JoinAllOf(parts: seq<string>, sep: char, p: char -> bool)
    requires p(sep) && forall k :: 0 <= k < |parts| ==> AllOf(parts[k], p)
    ensures AllOf(Join(parts, sep), p)
  {
    if |parts| > 1 {
      JoinAllOf(parts[1..], sep, p);
      AllOfAppend(parts[0], [sep], p);
      AllOfAppend(parts[0] + [sep], Join(parts[1..], sep), p);
    }
  }

  /** Round trip of the query: its items print and parse back unchanged. */
  lemma ParseQueryString(items: seq<QueryItem>)
    requires items != [QueryItem([], None)]
    ensures ParseQuery(QueryString(items)) == Some(items)
  {
    var strs := ItemStrings(items);
    ItemStringsClean(items);
    JoinAllOf(strs, '&', IsQueryChar);
    if items != [] {
      if |items| == 1 {
        assert QueryString(items) == ItemString(items[0]);
      } else {
        assert QueryString(items) == strs[0] + ['&'] + Join(strs[1..], '&');
      }
      SplitJoin(strs, '&', IsAmp);
      ParseItemStrings(items);
    }
  }

  function Remainder(u: Url): string
  {
    AuthorityPart(u) + (u.path + QueryPart(u))
  }

  lemma ParseSchemeOf(u: Url)
    requires WellFormed(u)
    ensures ParseScheme(AbsoluteString(u)) == (u.scheme, Remainder(u))
  {
    var sc := u.scheme.value;
    assert AbsoluteString(u) == sc + ([':'] + Remainder(u));
    BreakAt(sc, [':'] + Remainder(u), IsNotSchemeChar);
    assert ([':'] + Remainder(u))[1..] == Remainder(u);
  }

  lemma ParseHostOf(u: Url)
    requires WellFormed(u) && u.host.Some?
    ensures ParseAuthority(Remainder(u)) == Some((u.host, u.port, u.path + QueryPart(u)))
  {
    var tail := u.path + QueryPart(u);
    var h := u.host.value;
    var pp := PortPart(u);
    assert Remainder(u) == "//" + ((h + pp) + tail);
    assert Remainder(u)[2..] == (h + pp) + tail;
    assert tail != [] ==> EndsAuthority(tail[0]);
    if u.port.Some? {
      var digits := NatToString(u.port.value);
      assert pp == [':'] + digits;
      NoneOfAppend(h, pp, EndsAuthority);
      BreakAt(h + pp, tail, EndsAuthority);
      BreakAt(h, pp, IsColon);
      assert pp[1..] == digits;
      ParseNatToString(u.port.value);
    } else {
      assert h + pp == h;
      BreakAt(h, tail, EndsAuthority);
      BreakAt(h, [], IsColon);
      assert h + [] == h;
    }
  }

  lemma ParseNoHostOf(u: Url)
    requires WellFormed(u) && u.host.None?
    ensures ParseAuthority(Remainder(u)) == Some((u.host, u.port, u.path + QueryPart(u)))
  {
    var tail := u.path + QueryPart(u);
    assert Remainder(u) == tail;
    assert u.port.None?;
    assert !StartsWith(tail, "//") by {
      assert !StartsWith(u.path, "//");
      if |u.path| >= 2 {
        assert tail[..2] == u.path[..2];
      } else if QueryPart(u) != [] {
        assert tail[|u.path|] == '?';
      }
    }
  }

  lemma ParseAuthorityOf(u: Url)
    requires WellFormed(u)
    ensures ParseAuthority(Remainder(u)) == Some((u.host, u.port, u.path + QueryPart(u)))
  {
    if u.host.Some? { ParseHostOf(u); } else { ParseNoHostOf(u); }
  }

  lemma ParsePathQueryOf(u: Url)
    requires WellFormed(u)
    ensures Break(u.path + QueryPart(u), IsQuestion) == (u.path, QueryPart(u))
  {
    assert NoneOf(u.path, IsQuestion);
    BreakAt(u.path, QueryPart(u), IsQuestion);
  }

  /** Round trip: a well-formed URL's text parses back to the same URL. */
  lemma ParseAbsoluteString(u: Url)
    requires WellFormed(u)
    ensures Parse(AbsoluteString(u)) == Some(u)
  {
    ParseSchemeOf(u);
    ParseAuthorityOf(u);
    ParsePathQueryOf(u);
    if u.query.Some? {
      ParseQueryString(u.query.value);
      assert QueryPart(u)[1..] == QueryString(u.query.value);
    }
  }

  // ----- what the parser accepts -----

  lemma SchemeRunValid(run: string)
    requires |run| > 0 && IsAlpha(run[0]) && NoneOf(run, IsNotSchemeChar)
    ensures ValidScheme(run)
  {
  }

  /** A nonempty query never parses to the single item with an empty name and no value. */
  lemma ParseQueryNotEmptyItem(q: string)
    requires q != [] && ParseQuery(q).Some?
    ensures ParseQuery(q).value != [QueryItem([], None)]
  {
    var (piece, rest) := Break(q, IsAmp);
    if rest == [] {
      assert piece == q && Split(q, IsAmp) == [q];
      var (n, value) := Break(q, IsEquals);
      var it := ParseItem(q).value;
      assert ParseQuery(q).value == [it];
      if value == [] {
        assert n == q;
        PercentCoding.DecodeNonEmpty(n);
      }
    } else {
      assert |Split(q, IsAmp)| >= 2;
    }
  }

  /** Every URL `Parse` yields with a scheme is well formed. */
  lemma ParseWellFormed(s: string)
    requires Parse(s).Some? && Parse(s).value.scheme.Some?
    ensures WellFormed(Parse(s).value)
  {
    var u := Parse(s).value;
    var (run, rest0) := Break(s, IsNotSchemeChar);
    var (scheme, s1) := ParseScheme(s);
    SchemeRunValid(run);
    var (host, port, s2) := ParseAuthority(s1).value;
    var (path, q) := Break(s2, IsQuestion);
    assert u.path == path;
    if host.Some? {
      var (auth, rest) := Break(s1[2..], EndsAuthority);
      assert s2 == rest;
      if path != [] {
        assert path[0] == s2[0];
      }
    } else {
      assert s2 == s1;
    }
    if q != [] && q[1..] != [] {
      ParseQueryNotEmptyItem(q[1..]);
    }
  }

  /** The text of a well-formed URL uses only the characters a query may hold. */
  lemma AbsoluteStringChars(u: Url)
    requires WellFormed(u)
    ensures AllOf(AbsoluteString(u), IsQueryChar)
  {
    var sc := u.scheme.value;
    assert AllOf(SchemePart(u), IsQueryChar) by {
      AllOfAppend(sc, ":", IsQueryChar);
    }
    assert AllOf(AuthorityPart(u), IsQueryChar) by {
      if u.host.Some? {
        var h := u.host.value;
        assert AllOf(PortPart(u), IsQueryChar) by {
          if u.port.Some? {
            AllOfAppend(":", NatToString(u.port.value), IsQueryChar);
          }
        }
        AllOfAppend("//", h, IsQueryChar);
        AllOfAppend("//" + h, PortPart(u), IsQueryChar);
      }
    }
    assert AllOf(QueryPart(u), IsQueryChar) by {
      if u.query.Some? {
        ItemStringsClean(u.query.value);
        JoinAllOf(ItemStrings(u.query.value), '&', IsQueryChar);
        AllOfAppend("?", QueryString(u.query.value), IsQueryChar);
      }
    }
    AllOfAppend(u.path, QueryPart(u), IsQueryChar);
    AllOfAppend(AuthorityPart(u), u.path + QueryPart(u), IsQueryChar);
    AllOfAppend(SchemePart(u), AuthorityPart(u) + (u.path + QueryPart(u)), IsQueryChar);
  }

  lemma ParseSchemePrefix(sc: string, rest: string)
    requires ValidScheme(sc)
    ensures ParseScheme(sc + ":" + rest) == (Some(sc), rest)
  {
    assert sc + ":" + rest == sc + ([':'] + rest);
    BreakAt(sc, [':'] + rest, IsNotSchemeChar);
    assert ([':'] + rest)[1..] == rest;
  }

  /**
   * A URL written as `scheme://host` followed by an absolute path parses, when it parses,
   * with that scheme and host and no port.
   */
  lemma ParseSchemeHostPath(sc: string, host: string, path: string)
    requires ValidScheme(sc) && ValidHost(host) && StartsWith(path, "/")
    ensures Parse(sc + "://" + host + path).Some? ==>
      var u := Parse(sc + "://" + host + path).value;
      u.scheme == Some(sc) && u.host == Some(host) && u.port.None? && StartsWith(u.path, "/")
  {
    var s1 := "//" + host + path;
    assert sc + "://" + host + path == sc + ":" + s1;
    ParseSchemePrefix(sc, s1);
    assert s1[2..] == host + path;
    assert AllOf(host, IsHostChar);
    BreakAt(host, path, EndsAuthority);
    assert host + [] == host;
    BreakAt(host, [], IsColon);
    var (p, q) := Break(path, IsQuestion);
    assert p != [] && p[0] == '/' by {
      assert !IsQuestion(path[0]);
      assert path[0] == (p + q)[0];
    }
  }

  /** A parsed URL takes its scheme, host and port from the front of the text. */
  lemma ParseParts(s: string)
    requires Parse(s).Some?
    ensures ParseAuthority(ParseScheme(s).1).Some?
    ensures Parse(s).value.scheme == ParseScheme(s).0
    ensures Parse(s).value.host == ParseAuthority(ParseScheme(s).1).value.0
    ensures Parse(s).value.port == ParseAuthority(ParseScheme(s).1).value.1
  {
  }

  /** A URL written with `http://` or `https://` parses, when it parses, with a scheme and a host. */
  lemma ParseWebUrl(line: string)
    requires StartsWith(line, "http://") || StartsWith(line, "https://")
    ensures Parse(line).Some? ==> Parse(line).value.scheme.Some? && Parse(line).value.host.Some?
  {
    var sc := if StartsWith(line, "http://") then "http" else "https";
    var n := |sc|;
    var rest := line[n + 1..];
    assert line[..n + 3] == sc + "://";
    assert line[..n] == sc && line[n] == ':' && line[n + 1] == '/' && line[n + 2] == '/' by {
      assert line[..n] == line[..n + 3][..n];
      assert line[n] == line[..n + 3][n];
      assert line[n + 1] == line[..n + 3][n + 1];
      assert line[n + 2] == line[..n + 3][n + 2];
    }
    assert line == sc + ":" + rest by {
      assert line == line[..n] + [line[n]] + line[n + 1..];
    }
    assert ParseScheme(line) == (Some(sc), rest) by { ParseSchemePrefix(sc, rest); }
    assert StartsWith(rest, "//") by {
      assert rest[0] == line[n + 1] && rest[1] == line[n + 2];
      assert rest[..2] == [rest[0], rest[1]];
    }
    if Parse(line).Some? {
      ParseParts(line);
    }
  }
}
