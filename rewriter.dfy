/**
 * The playlist rewrite: every reference in a playlist, whether it is a media line or the
 * `URI` attribute of a tag line, is resolved against the playlist's origin and replaced by
 * the proxy URL for it; a line whose reference cannot be resolved is kept as it is.
 */
module PlaylistRewriter {
  import opened Wrappers
  import opened Text
  import opened Urls
  import Paths
  import ProxyCodec
  import UriAttribute
  import HlsService
  import PercentCoding
  import Utf8

  // ----- resolving references (`absoluteURL(from:forOriginURL:)`) -----

  predicate IsWebUrl(line: string) { StartsWith(line, "http://") || StartsWith(line, "https://") }

  /** The path a reference that is not a web URL stands for on the origin's server. */
  function ReferencePath(line: string, origin: Url): (p: string)
    ensures StartsWith(line, "/") ==> p == line
    ensures !StartsWith(line, "/") ==> p == Paths.Directory(origin.path) + line
  {
    if StartsWith(line, "/") then line else Paths.Directory(origin.path) + line
  }

  /**
   * A web URL is parsed as it is written. Any other reference needs an origin with a scheme
   * and a host; it is written out as `scheme://host` followed by the reference if it starts
   * with `/`, or by the origin's directory and the reference otherwise, and parsed and
   * standardised. The origin's port is not carried over.
   */
  function Resolve(line: string, origin: Url): (r: Option<Url>)
    ensures !IsWebUrl(line) && (origin.scheme.None? || origin.host.None?) ==> r.None?
    ensures IsWebUrl(line) ==> r == Parse(line)
  {
    if IsWebUrl(line) then Parse(line)
    else if origin.scheme.None? || origin.host.None? then None
    else
      match Parse(OnOrigin(line, origin))
      case None => None
      case Some(u) => Some(Paths.Standardized(u))
  }

  /** The text `scheme://host/path` a reference that is not a web URL is written out as. */
  function OnOrigin(line: string, origin: Url): string
    requires origin.scheme.Some? && origin.host.Some?
  {
    origin.scheme.value + "://" + origin.host.value + ReferencePath(line, origin)
  }

  /** The proxy text for a reference, when it resolves and can be pointed at the proxy. */
  function ProxyText(ref: string, origin: Url): Option<string>
  {
    match Resolve(ref, origin)
    case None => None
    case Some(u) =>
      match ProxyCodec.ReverseProxyURL(u)
      case None => None
      case Some(p) => Some(AbsoluteString(p))
  }

  // ----- rewriting lines -----

  /**
   * `lineByReplacingURI`: when the tag line has a `URI="…"` attribute whose value resolves,
   * every attribute of that form on the line is replaced by the proxy URL of the first.
   */
  function ReplaceUri(line: string, origin: Url): (r: string)
    ensures UriAttribute.FindMatch(line).None? ==> r == line
  {
    match UriAttribute.FindMatch(line)
    case None => line
    case Some((_, value)) =>
      match ProxyText(value, origin)
      case None => line
      case Some(text) => UriAttribute.ReplaceAll(line, UriAttribute.Opening + text + "\"")
  }

  /**
   * `processPlaylistLine`: empty lines are kept, tag lines (starting with `#`) have their
   * `URI` attribute rewritten, and any other line is a reference replaced by its proxy URL.
   */
  function ProcessLine(line: string, origin: Url): (r: string)
    ensures line == [] ==> r == []
  {
    if line == [] then line
    else if StartsWith(line, "#") then ReplaceUri(line, origin)
    else match ProxyText(line, origin)
      case None => line
      case Some(text) => text
  }

  /** The line separators of `components(separatedBy: .newlines)`: U+000A to U+000D, U+0085, U+2028, U+2029. */
  predicate IsNewline(c: char)
  {
    '\U{000A}' <= c <= '\U{000D}' || c == '\U{0085}' || c == '\U{2028}' || c == '\U{2029}'
  }

  /**
   * `reverseProxyPlaylist(with:forOriginURL:)`: the playlist decoded as UTF-8, cut into lines,
   * each line processed, joined with `\n` and encoded again; a playlist that is not UTF-8 is
   * a bad server response.
   */
  function ReverseProxyPlaylist(data: seq<Utf8.byte>, origin: Url): (r: Result<seq<Utf8.byte>, HlsService.UrlError>)
    ensures r.Err? <==> Utf8.Decode(data).None?
    ensures r.Err? ==> r.error == HlsService.BadServerResponse
  {
    match Utf8.Decode(data)
    case None => Err(HlsService.BadServerResponse)
    case Some(text) => Ok(Utf8.Encode(Join(MapLines(Split(text, IsNewline), origin), '\n')))
  }

  function MapLines(lines: seq<string>, origin: Url): (r: seq<string>)
    ensures |r| == |lines|
    ensures forall k :: 0 <= k < |lines| ==> r[k] == ProcessLine(lines[k], origin)
  {
    seq(|lines|, k requires 0 <= k < |lines| => ProcessLine(lines[k], origin))
  }

  // ----- what resolution yields -----

  lemma ParseSchemeAuthority(sc: string, rest: string)
    requires ValidScheme(sc)
    ensures Parse(sc + "://" + rest).Some? ==>
      Parse(sc + "://" + rest).value.scheme == Some(sc) && Parse(sc + "://" + rest).value.host.Some?
  {
    assert sc + "://" + rest == sc + ":" + ("//" + rest);
    ParseSchemePrefix(sc, "//" + rest);
  }

  /**
   * Whatever a reference resolves to is a well-formed URL with a host, so it always has a
   * proxy URL.
   */
  lemma ResolveWellFormed(line: string, origin: Url)
    requires origin.scheme.Some? ==> ValidScheme(origin.scheme.value)
    requires Resolve(line, origin).Some?
    ensures WellFormed(Resolve(line, origin).value)
    ensures Resolve(line, origin).value.host.Some?
    ensures ProxyCodec.ReverseProxyURL(Resolve(line, origin).value).Some?
  {
    if IsWebUrl(line) {
      ParseWebUrl(line);
      ParseWellFormed(line);
    } else {
      var rest := origin.host.value + ReferencePath(line, origin);
      var s := OnOrigin(line, origin);
      assert s == origin.scheme.value + "://" + rest;
      ParseSchemeAuthority(origin.scheme.value, rest);
      ParseWellFormed(s);
      var u := Parse(s).value;
      assert Resolve(line, origin) == Some(Paths.Standardized(u));
      if u.path != [] {
        Paths.StandardizedWellFormed(u);
      }
    }
  }

  /** Under a well-formed origin with a host, a reference that is not a web URL has an absolute path. */
  lemma ReferencePathRooted(line: string, origin: Url)
    requires WellFormed(origin) && origin.host.Some?
    ensures StartsWith(ReferencePath(line, origin), "/")
  {
    if !StartsWith(line, "/") {
      var dir := Paths.Directory(origin.path);
      if origin.path != [] {
        assert dir == origin.path[..|dir|];
      }
      assert ReferencePath(line, origin)[0] == dir[0];
    }
  }

  /**
   * A reference that is not a web URL resolves on the origin's scheme and host, never with a
   * port, and to a path without dot segments.
   */
  lemma ResolveOnOrigin(line: string, origin: Url)
    requires WellFormed(origin) && !IsWebUrl(line) && Resolve(line, origin).Some?
    ensures Resolve(line, origin).value.scheme == origin.scheme
    ensures Resolve(line, origin).value.host == origin.host
    ensures Resolve(line, origin).value.port.None?
    ensures Paths.NoDotSegments(Resolve(line, origin).value.path)
  {
    var path := ReferencePath(line, origin);
    ReferencePathRooted(line, origin);
    var sc, h := origin.scheme.value, origin.host.value;
    ParseSchemeHostPath(sc, h, path);
    var s := OnOrigin(line, origin);
    ParseWellFormed(s);
    var u := Parse(s).value;
    assert Resolve(line, origin) == Some(Paths.Standardized(u));
    Paths.StandardizedWellFormed(u);
  }

  /** `scheme://host` followed by a valid absolute path parses to exactly that URL, without port or query. */
  lemma ParseOnHost(sc: string, host: string, path: string)
    requires ValidScheme(sc) && ValidHost(host) && StartsWith(path, "/") && ValidPath(path)
    ensures Parse(sc + "://" + host + path) == Some(Url(Some(sc), Some(host), None, path, None))
  {
    var u := Url(Some(sc), Some(host), None, path, None);
    assert AbsoluteString(u) == sc + "://" + host + path;
    ParseAbsoluteString(u);
  }

  /**
   * A reference that is not a web URL, whose written-out path is valid, resolves to the
   * origin's scheme and host with that path, dot segments removed, and no port or query.
   */
  lemma ResolveReference(line: string, origin: Url)
    requires WellFormed(origin) && origin.host.Some? && !IsWebUrl(line)
    requires ValidPath(ReferencePath(line, origin))
    ensures Resolve(line, origin) ==
      Some(Url(origin.scheme, origin.host, None, Paths.RemoveDotSegments(ReferencePath(line, origin)), None))
  {
    ReferencePathRooted(line, origin);
    ParseOnHost(origin.scheme.value, origin.host.value, ReferencePath(line, origin));
  }

  /**
   * A relative reference under an origin whose path is `dir` followed by a last component
   * (and perhaps trailing slashes) resolves to `dir` followed by the reference, dot
   * segments removed: only the origin's last component is replaced.
   */
  lemma ResolveRelative(line: string, origin: Url, dir: string, name: string, trail: string)
    requires WellFormed(origin) && origin.host.Some?
    requires !IsWebUrl(line) && !StartsWith(line, "/")
    requires origin.path == dir + name + trail && StartsWith(dir, "/") && dir[|dir| - 1] == '/'
    requires name != [] && NoneOf(name, IsSlash) && AllOf(trail, IsSlash)
    requires ValidPath(dir + line)
    ensures Resolve(line, origin) ==
      Some(Url(origin.scheme, origin.host, None, Paths.RemoveDotSegments(dir + line), None))
  {
    Paths.DirectoryOf(dir, name, trail);
    assert ReferencePath(line, origin) == dir + line;
    ResolveReference(line, origin);
  }

  // ----- one line -----

  /** Kept lines: empty lines, and lines whose reference does not resolve (the rewrite fails open). */
  lemma ProcessLineFailOpen(line: string, origin: Url)
    ensures !StartsWith(line, "#") && ProxyText(line, origin).None? ==> ProcessLine(line, origin) == line
    ensures StartsWith(line, "#") && UriAttribute.FindMatch(line).None? ==> ProcessLine(line, origin) == line
    ensures StartsWith(line, "#") && UriAttribute.FindMatch(line).Some? &&
            ProxyText(UriAttribute.FindMatch(line).value.1, origin).None? ==>
            ProcessLine(line, origin) == line
  {
  }

  /** A media line that resolves to `u` becomes the text of the proxy URL for `u`. */
  lemma MediaLineText(line: string, origin: Url, u: Url)
    requires origin.scheme.Some? ==> ValidScheme(origin.scheme.value)
    requires line != [] && !StartsWith(line, "#") && Resolve(line, origin) == Some(u)
    ensures ProxyCodec.ReverseProxyURL(u).Some? &&
            ProcessLine(line, origin) == AbsoluteString(ProxyCodec.ReverseProxyURL(u).value)
  {
    ResolveWellFormed(line, origin);
    var p := ProxyCodec.ReverseProxyURL(u).value;
    assert ProxyText(line, origin) == Some(AbsoluteString(p));
  }

  /**
   * A media line that resolves to `u` becomes the proxy URL for `u`, and a request for that
   * line names `u` as its origin.
   */
  lemma MediaLineRoundTrip(line: string, origin: Url, u: Url)
    requires origin.scheme.Some? ==> ValidScheme(origin.scheme.value)
    requires line != [] && !StartsWith(line, "#") && Resolve(line, origin) == Some(u)
    requires ProxyCodec.IsVideoFormat(Paths.PathExtension(u.path))
    requires ProxyCodec.FormItems(ProxyCodec.ItemsOf(u))
    requires NoneOf(AbsoluteString(u), PercentCoding.IsPercent) && NoneOf(AbsoluteString(u), PercentCoding.IsPlus)
    ensures Parse(ProcessLine(line, origin)) == ProxyCodec.ReverseProxyURL(u)
    ensures ProxyCodec.ReverseProxyURL(u).Some? &&
            ProxyCodec.OriginURL(ProxyCodec.RequestFor(ProxyCodec.ReverseProxyURL(u).value)) == Some(u)
  {
    MediaLineText(line, origin, u);
    ResolveWellFormed(line, origin);
    ProxyCodec.ProxyLinkRoundTrip(u);
  }

  /** A line starting with `#` is processed as a tag line. */
  lemma ProcessTagLine(line: string, origin: Url)
    requires StartsWith(line, "#")
    ensures ProcessLine(line, origin) == ReplaceUri(line, origin)
  {
  }

  /**
   * A tag line whose first `URI="v"` attribute resolves, with no other after it: the
   * attribute value becomes the proxy URL and the rest of the line is unchanged.
   */
  lemma TagLineRewrite(pre: string, v: string, post: string, origin: Url)
    requires UriAttribute.FindMatch(pre + UriAttribute.Opening + v + "\"" + post) == Some((|pre|, v))
    requires UriAttribute.FindMatch(post).None? && ProxyText(v, origin).Some?
    ensures ReplaceUri(pre + UriAttribute.Opening + v + "\"" + post, origin) ==
      pre + (UriAttribute.Opening + ProxyText(v, origin).value + "\"") + post
  {
    var line := pre + UriAttribute.Opening + v + "\"" + post;
    ReplaceUriCases(line, origin);
    UriAttribute.SingleAttributeRewrite(pre, v, post, UriAttribute.Opening + ProxyText(v, origin).value + "\"");
  }

  lemma QueryCharsClean(s: string)
    requires AllOf(s, IsQueryChar)
    ensures NoneOf(s, IsNewline) && NoneOf(s, UriAttribute.IsQuote)
  {
  }

  lemma ProxyTextNoNewline(ref: string, origin: Url)
    requires origin.scheme.Some? ==> ValidScheme(origin.scheme.value)
    requires ProxyText(ref, origin).Some?
    ensures NoneOf(ProxyText(ref, origin).value, IsNewline)
    ensures NoneOf(ProxyText(ref, origin).value, UriAttribute.IsQuote)
  {
    var u := Resolve(ref, origin).value;
    ResolveWellFormed(ref, origin);
    var p := ProxyCodec.ReverseProxyURL(u).value;
    ProxyCodec.ReverseProxyURLWellFormed(u);
    var t := AbsoluteString(p);
    assert ProxyText(ref, origin) == Some(t);
    AbsoluteStringChars(p);
    QueryCharsClean(t);
  }

  /** The replacement a resolvable tag value is substituted with holds no line separator. */
  lemma ReplacementNoNewline(value: string, origin: Url)
    requires origin.scheme.Some? ==> ValidScheme(origin.scheme.value)
    requires ProxyText(value, origin).Some?
    ensures NoneOf(UriAttribute.Opening + ProxyText(value, origin).value + "\"", IsNewline)
  {
    ProxyTextNoNewline(value, origin);
    AttributeNoNewline(ProxyText(value, origin).value);
  }

  lemma AttributeNoNewline(text: string)
    requires NoneOf(text, IsNewline)
    ensures NoneOf(UriAttribute.Opening + text + "\"", IsNewline)
  {
    NoneOfAppend(UriAttribute.Opening, text, IsNewline);
    NoneOfAppend(UriAttribute.Opening + text, "\"", IsNewline);
  }

  /** A tag line is either kept or has every match replaced by the proxy attribute of the first. */
  lemma ReplaceUriCases(line: string, origin: Url)
    ensures var m := UriAttribute.FindMatch(line);
      if m.Some? && ProxyText(m.value.1, origin).Some? then
        ReplaceUri(line, origin) ==
          UriAttribute.ReplaceAll(line, UriAttribute.Opening + ProxyText(m.value.1, origin).value + "\"")
      else ReplaceUri(line, origin) == line
  {
  }

  lemma TagLineNoNewline(line: string, origin: Url)
    requires origin.scheme.Some? ==> ValidScheme(origin.scheme.value)
    requires NoneOf(line, IsNewline)
    ensures NoneOf(ReplaceUri(line, origin), IsNewline)
  {
    ReplaceUriCases(line, origin);
    var m := UriAttribute.FindMatch(line);
    if m.Some? && ProxyText(m.value.1, origin).Some? {
      ReplacementNoNewline(m.value.1, origin);
      UriAttribute.ReplaceAllNoneOf(line, UriAttribute.Opening + ProxyText(m.value.1, origin).value + "\"", IsNewline);
    }
  }

  /** Processing a line never introduces a line separator. */
  lemma ProcessLineNoNewline(line: string, origin: Url)
    requires origin.scheme.Some? ==> ValidScheme(origin.scheme.value)
    requires NoneOf(line, IsNewline)
    ensures NoneOf(ProcessLine(line, origin), IsNewline)
  {
    if line != [] {
      if StartsWith(line, "#") {
        TagLineNoNewline(line, origin);
      } else if ProxyText(line, origin).Some? {
        ProxyTextNoNewline(line, origin);
      }
    }
  }

  // ----- the whole playlist -----

  /** Every one of the lines is left as it is by the rewrite. */
  predicate LinesKept(lines: seq<string>, origin: Url)
  {
    forall k :: 0 <= k < |lines| ==> ProcessLine(lines[k], origin) == lines[k]
  }

  lemma MapLinesFixed(lines: seq<string>, origin: Url)
    requires LinesKept(lines, origin)
    ensures MapLines(lines, origin) == lines
  {
    var r := MapLines(lines, origin);
    assert forall k :: 0 <= k < |lines| ==> r[k] == lines[k];
  }

  /**
   * The rewritten playlist is UTF-8 text with as many lines as the original, line `k` being
   * line `k` of the original, processed.
   */
  lemma ReverseProxyPlaylistLines(data: seq<Utf8.byte>, origin: Url)
    requires origin.scheme.Some? ==> ValidScheme(origin.scheme.value)
    requires Utf8.Decode(data).Some?
    ensures ReverseProxyPlaylist(data, origin).Ok?
    ensures var out := Utf8.Decode(ReverseProxyPlaylist(data, origin).value);
      out.Some? && Split(out.value, IsNewline) == MapLines(Split(Utf8.Decode(data).value, IsNewline), origin)
  {
    var lines := Split(Utf8.Decode(data).value, IsNewline);
    var processed := MapLines(lines, origin);
    var joined := Join(processed, '\n');
    SplitPiecesClean(Utf8.Decode(data).value, IsNewline);
    forall k | 0 <= k < |processed| ensures NoneOf(processed[k], IsNewline) {
      ProcessLineNoNewline(lines[k], origin);
    }
    SplitJoin(processed, '\n', IsNewline);
    Utf8.DecodeEncode(joined);
  }

  /** A playlist none of whose lines changes comes back with every line separator written as `\n`. */
  lemma ReverseProxyPlaylistKeeps(data: seq<Utf8.byte>, origin: Url)
    requires Utf8.Decode(data).Some?
    requires LinesKept(Split(Utf8.Decode(data).value, IsNewline), origin)
    ensures ReverseProxyPlaylist(data, origin) ==
      Ok(Utf8.Encode(Normalize(Utf8.Decode(data).value, IsNewline, '\n')))
  {
    var text := Utf8.Decode(data).value;
    MapLinesFixed(Split(text, IsNewline), origin);
    JoinSplit(text, IsNewline, '\n');
  }

  /** Such a playlist whose only line separator is `\n` comes back byte for byte. */
  lemma ReverseProxyPlaylistIdentity(data: seq<Utf8.byte>, origin: Url)
    requires Utf8.Decode(data).Some?
    requires LinesKept(Split(Utf8.Decode(data).value, IsNewline), origin)
    requires var text := Utf8.Decode(data).value;
      forall i :: 0 <= i < |text| && IsNewline(text[i]) ==> text[i] == '\n'
    ensures ReverseProxyPlaylist(data, origin) == Ok(data)
  {
    var text := Utf8.Decode(data).value;
    ReverseProxyPlaylistKeeps(data, origin);
    NormalizeFixed(text, IsNewline, '\n');
    Utf8.EncodeDecode(data);
  }
}
