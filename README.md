# HLS reverse proxy, modelled in Dafny

This project models the core of an HLS (HTTP Live Streaming) reverse proxy. The proxy is
a local web server on `http://127.0.0.1:1234`. It serves an AVPlayer, forwards every
request to the real origin server, and rewrites each playlist so that the segment,
sub-playlist and key references inside it point back at the proxy.

The model has these parts:

- **URL codec** (`codec.dfy`, module `ProxyCodec`). `ReverseProxyURL` points an origin
  URL at the proxy. It carries the origin's full text in the `__hls_origin_url` query
  item. `OriginURL` recovers the origin from an incoming request. It reads the query
  parameters as the web server's form parser fills them, and it accepts only the six
  media formats `m3u8, ts, mp4, m4s, m4a, m4v`.
- **Playlist rewriter** (`rewriter.dfy`, module `PlaylistRewriter`; `scanner.dfy`, module
  `UriAttribute`). The playlist is decoded as UTF-8 and cut at line separators. Each line
  is processed on its own:
  - empty lines are kept;
  - a tag line (`#…`) has its `URI="…"` attribute rewritten;
  - any other line is a reference that is replaced by its proxy URL.

  The lines are then joined with `\n`. A reference that cannot be resolved leaves its
  line unchanged.
- **Request router** (`server.dfy`, module `ProxyServer`). A request with no acceptable
  origin gets 400. An `m3u8` origin is fetched and rewritten. Any other origin is passed
  through unchanged. A failed fetch or rewrite gets 500.
- **Lifecycle** (`server.dfy`, class `ProxyServer.HlsVideoProxy`). `start` and `stop`
  are guarded by the running flag, and `deinit` calls `stop`.
- **Response validation** (`service.dfy`, module `HlsService`). An origin response is
  checked for its HTTP status, then for a MIME type, then for a URL.

The proxy relies on several Foundation behaviours. Each is modelled by its own
definition:

- UTF-8 per RFC 3629 (`utf8.dfy`);
- percent-encoding per section 2.1 of RFC 3986 (`percent.dfy`);
- a URL grammar with a parser and a serialiser that are inverse on well-formed URLs
  (`urls.dfy`);
- path extension, directory and dot-segment removal per section 5.2.4 of RFC 3986
  (`paths.dfy`);
- line splitting and joining (`text.dfy`).

Source cells below are paths relative to the repository root.

## Model

| member | source | states |
|---|---|---|
| ProxyCodec.FromRawValue | HLSAVPlayerURLSession/HLSAVPlayerURLSession/HLSProxyServer.swift:20-27 | `VideoProxyFormats(rawValue:)`: a format is found only for its own exact, case-sensitive spelling |
| ProxyCodec.FromRawValueRawValue | HLSAVPlayerURLSession/HLSAVPlayerURLSession/HLSProxyServer.swift:20-27 | every one of the six formats is recognised by its raw value |
| ProxyCodec.RawValuesDistinct | HLSAVPlayerURLSession/HLSAVPlayerURLSession/HLSProxyServer.swift:20-27 | the six raw values are pairwise distinct |
| ProxyCodec.QueryMap | HLSAVPlayerURLSession/HLSAVPlayerURLSession/HLSProxyServer.swift:86 | the parameters a list of query items stands for: every parameter comes from an item with that name and value, and items without a value give none |
| ProxyCodec.QueryMapLast | HLSAVPlayerURLSession/HLSAVPlayerURLSession/HLSProxyServer.swift:60 | a query item appended last decides the parameter of its name |
| ProxyCodec.FormText | HLSAVPlayerURLSession/HLSAVPlayerURLSession/HLSProxyServer.swift:60 | a key or value of `request.query`: `+` read as a space, then percent-decoded |
| ProxyCodec.AddField | HLSAVPlayerURLSession/HLSAVPlayerURLSession/HLSProxyServer.swift:60 | a field whose key and value both decode sets that parameter to that value; otherwise the parameters are unchanged |
| ProxyCodec.FormFields | HLSAVPlayerURLSession/HLSAVPlayerURLSession/HLSProxyServer.swift:60 | the web server's query parser: a key runs to the next `=`, across any `&`, a value to the next `&`, and the scan stops at an empty key or a key with no `=`; stated by the lemmas below |
| ProxyCodec.ParseForm | HLSAVPlayerURLSession/HLSAVPlayerURLSession/HLSProxyServer.swift:60 | `request.query`: the parser run over a whole query text from no parameters; stated by `ParseFormQueryString` |
| ProxyCodec.RequestFor | HLSAVPlayerURLSession/HLSAVPlayerURLSession/HLSProxyServer.swift:94-96 | the request the server builds for a URL keeps its path, and has a query exactly when the URL has one; that query is the form parser's reading of the URL's query text |
| ProxyCodec.FormFieldStep | HLSAVPlayerURLSession/HLSAVPlayerURLSession/HLSProxyServer.swift:60 | a field `key=value`, alone or followed by `&` and more text, is read as exactly one parameter, and reading goes on after the `&` |
| ProxyCodec.FormFieldsValueless | HLSAVPlayerURLSession/HLSAVPlayerURLSession/HLSProxyServer.swift:60 | a key with no `=` runs on across `&` to the next `=`: an item without a value hides the name of the item after it |
| ProxyCodec.FormFieldsStop | HLSAVPlayerURLSession/HLSAVPlayerURLSession/HLSProxyServer.swift:60 | text that starts with `=` (an empty key) or holds no `=` adds no parameter and ends the scan: an item with an empty name hides every item after it |
| ProxyCodec.ItemField | HLSAVPlayerURLSession/HLSAVPlayerURLSession/HLSProxyServer.swift:60 | an item with a name and a value and no `+`, printed by `URLComponents`, is read back as exactly that parameter |
| ProxyCodec.FormFieldsAppend | HLSAVPlayerURLSession/HLSAVPlayerURLSession/HLSProxyServer.swift:60 | after items that all have a name and a value, an appended item is read on top of what those items gave |
| ProxyCodec.ParseFormQueryString | HLSAVPlayerURLSession/HLSAVPlayerURLSession/HLSProxyServer.swift:60 | the parser reads printed items that all have a name and a value and no `+` back as exactly the parameters `QueryMap` says they stand for |
| ProxyCodec.OriginURL | HLSAVPlayerURLSession/HLSAVPlayerURLSession/HLSProxyServer.swift:59-72 | an accepted origin always has one of the six allowed extensions and came from a present `__hls_origin_url` parameter |
| ProxyCodec.OriginURLFailures | HLSAVPlayerURLSession/HLSAVPlayerURLSession/HLSProxyServer.swift:60-64 | decoding gives nothing when the query is missing, the key is missing, percent-decoding fails, or the text does not parse |
| ProxyCodec.OriginURLAccepts | HLSAVPlayerURLSession/HLSAVPlayerURLSession/HLSProxyServer.swift:66-71 | once the text parses, decoding succeeds exactly when the extension is allowed, and then gives the parsed URL |
| ProxyCodec.ReverseProxyURL | HLSAVPlayerURLSession/HLSAVPlayerURLSession/HLSProxyServer.swift:76-89 | the proxy URL has scheme `http`, host `127.0.0.1`, port 1234 and the origin's path, plus one more query item than the origin; it exists exactly when the origin's path is empty or absolute |
| ProxyCodec.ItemsOf | HLSAVPlayerURLSession/HLSAVPlayerURLSession/HLSProxyServer.swift:86 | `queryItems ?? []`: the query items of a URL, none without a query; stated by `ReverseProxyURLQuery` |
| ProxyCodec.ReverseProxyURLQuery | HLSAVPlayerURLSession/HLSAVPlayerURLSession/HLSProxyServer.swift:85-86 | the origin's own query items come first and unchanged, then exactly one `__hls_origin_url` item whose value is the origin's `absoluteString` |
| ProxyCodec.ReverseProxyURLWellFormed | HLSAVPlayerURLSession/HLSAVPlayerURLSession/HLSProxyServer.swift:88 | `components.url` of a well-formed origin is well formed |
| ProxyCodec.ProxyRequestFields | HLSAVPlayerURLSession/HLSAVPlayerURLSession/HLSProxyServer.swift:60 | the request for a proxy URL holds the origin's `absoluteString` under `__hls_origin_url`, on top of whatever the origin's own items give, when those items all have a name and a value and the text has no `+` |
| ProxyCodec.OriginURLReverseProxyURL | HLSAVPlayerURLSession/HLSAVPlayerURLSession/HLSProxyServer.swift:59-89 | round trip: the request for the proxy URL of an allowed origin decodes to that origin, even when the origin's own query already has an `__hls_origin_url` item, provided the origin's text holds no `%` or `+` and each of its query items has a name and a value |
| ProxyCodec.ProxyLinkRoundTrip | HLSAVPlayerURLSession/HLSAVPlayerURLSession/HLSProxyServer.swift:59-89 | round trip through text: the proxy URL's string parses back to the proxy URL, and the request for it decodes to the origin, under the same conditions |
| Paths.PathExtension | HLSAVPlayerURLSession/HLSAVPlayerURLSession/HLSProxyServer.swift:67 | `pathExtension` holds no `.` or `/`, and a non-empty one is preceded by `.` and at least one character at the end of the last path component |
| Paths.PathExtensionOf | HLSAVPlayerURLSession/HLSAVPlayerURLSession/HLSProxyServer.swift:67 | a path ending in `name.ext`, with or without trailing slashes, has extension `ext` |
| Paths.LastPathComponent | HLSAVPlayerURLSession/HLSAVPlayerURLSession/HLSProxyServer.swift:67 | `lastPathComponent`: holds no `/`; with `LastPathComponentOf`, trailing slashes are ignored |
| Paths.LastPathComponentOf | HLSAVPlayerURLSession/HLSAVPlayerURLSession/HLSProxyServer.swift:67 | the last component of `dir/` followed by a slash-free name is that name, with or without trailing slashes |
| Paths.Directory | HLSAVPlayerURLSession/HLSAVPlayerURLSession/HLSProxyServer.swift:199 | `deletingLastPathComponent`: after trailing slashes are dropped, the result is the prefix ending in the last `/`, with no `/` after it; a path without another `/` gives the root |
| Paths.DirectoryOf | HLSAVPlayerURLSession/HLSAVPlayerURLSession/HLSProxyServer.swift:199 | the directory of `dir` + a slash-free name, with or without trailing slashes, is `dir`: only the last component is removed |
| Paths.RemoveDotSegmentsClean | HLSAVPlayerURLSession/HLSAVPlayerURLSession/HLSProxyServer.swift:202 | `.standardized` leaves an absolute path with no `.` or `..` segment, and keeps a valid path valid |
| Paths.RemoveDotSegmentsIdentity | HLSAVPlayerURLSession/HLSAVPlayerURLSession/HLSProxyServer.swift:202 | a path without dot segments is not changed by `.standardized` |
| Paths.RemoveDotSegmentsIdempotent | HLSAVPlayerURLSession/HLSAVPlayerURLSession/HLSProxyServer.swift:202 | standardising twice is the same as standardising once |
| Paths.StandardizedWellFormed | HLSAVPlayerURLSession/HLSAVPlayerURLSession/HLSProxyServer.swift:202 | a standardised well-formed URL with a host stays well formed |
| Paths.RemoveDotSegments | HLSAVPlayerURLSession/HLSAVPlayerURLSession/HLSProxyServer.swift:202 | `.standardized` on an absolute path: `.` segments dropped, `..` drops the segment before it, never above the root; stated by `RemoveDotSegmentsUp`, `RemoveDotSegmentsUpLast`, `RemoveDotSegmentsRootUp`, `RemoveDotSegmentsHere` and `RemoveDotSegmentsHereLast` |
| Paths.RemoveDotSegmentsOfSegments | HLSAVPlayerURLSession/HLSAVPlayerURLSession/HLSProxyServer.swift:202 | on an absolute path, dot-segment removal works on the segments after the leading `/` |
| Paths.RemoveDotSegmentsUp | HLSAVPlayerURLSession/HLSAVPlayerURLSession/HLSProxyServer.swift:202 | a `..` after a segment removes both: `/a/b/../c` standardises as `/a/c` does |
| Paths.RemoveDotSegmentsUpLast | HLSAVPlayerURLSession/HLSAVPlayerURLSession/HLSProxyServer.swift:202 | a final `..` removes the segment before it and leaves a trailing slash: `/a/b/..` gives `/a/` |
| Paths.RemoveDotSegmentsRootUp | HLSAVPlayerURLSession/HLSAVPlayerURLSession/HLSProxyServer.swift:202 | a `..` right after the root is dropped: nothing goes above the root, and `/..` gives `/` |
| Paths.RemoveDotSegmentsHereLast | HLSAVPlayerURLSession/HLSAVPlayerURLSession/HLSProxyServer.swift:202 | a final `.` is dropped and leaves a trailing slash: `/a/.` gives `/a/` |
| Paths.RemoveDotSegmentsHere | HLSAVPlayerURLSession/HLSAVPlayerURLSession/HLSProxyServer.swift:202 | a `.` segment is dropped: `/a/./c` standardises as `/a/c` does |
| Paths.Standardized | HLSAVPlayerURLSession/HLSAVPlayerURLSession/HLSProxyServer.swift:202 | `.standardized` on a URL: dot segments removed from its path; stated by `StandardizedWellFormed` and the lemmas above |
| Urls.ParseAbsoluteString | HLSAVPlayerURLSession/HLSAVPlayerURLSession/HLSProxyServer.swift:62 | `URL(string:)` of a well-formed URL's `absoluteString` is that URL again |
| Urls.ParseQueryString | HLSAVPlayerURLSession/HLSAVPlayerURLSession/HLSProxyServer.swift:86 | `queryItems` are printed and parsed back unchanged |
| Urls.ParseWellFormed | HLSAVPlayerURLSession/HLSAVPlayerURLSession/HLSProxyServer.swift:62 | every URL with a scheme that `URL(string:)` yields is well formed |
| Urls.ParseWebUrl | HLSAVPlayerURLSession/HLSAVPlayerURLSession/HLSProxyServer.swift:186-187 | text starting `http://` or `https://` parses, when it parses, with a scheme and a host |
| Urls.ParseSchemeHostPath | HLSAVPlayerURLSession/HLSAVPlayerURLSession/HLSProxyServer.swift:202 | `scheme://host` + absolute path parses, when it parses, with that scheme and host and no port |
| Urls.ParseNatToString | HLSAVPlayerURLSession/HLSAVPlayerURLSession/HLSProxyServer.swift:83 | the decimal form of the port parses back to the same port |
| Urls.Parse | HLSAVPlayerURLSession/HLSAVPlayerURLSession/HLSProxyServer.swift:62 | `URL(string:)`: scheme, authority, path and query items, or nothing; inverted by `AbsoluteString` (`ParseAbsoluteString`) |
| Urls.AbsoluteString | HLSAVPlayerURLSession/HLSAVPlayerURLSession/HLSProxyServer.swift:85 | `absoluteString`: scheme, authority, path and the query items in one canonical escaping (not the escaping as written); parsed back by `Parse` (`ParseAbsoluteString`) |
| PercentCoding.DecodeEncode | HLSAVPlayerURLSession/HLSAVPlayerURLSession/HLSProxyServer.swift:85-86 | percent-decoding a percent-encoded query name or value gives it back |
| PercentCoding.DecodePlain | HLSAVPlayerURLSession/HLSAVPlayerURLSession/HLSProxyServer.swift:61 | `removingPercentEncoding` leaves text without `%` unchanged |
| PercentCoding.EncodeChars | HLSAVPlayerURLSession/HLSAVPlayerURLSession/HLSProxyServer.swift:85-86 | an encoded query name or value holds only safe characters and `%` |
| PercentCoding.DecodeNonEmpty | HLSAVPlayerURLSession/HLSAVPlayerURLSession/HLSProxyServer.swift:61 | non-empty escaped text never decodes to the empty string |
| PercentCoding.Encode | HLSAVPlayerURLSession/HLSAVPlayerURLSession/HLSProxyServer.swift:86 | the escaping `URLComponents` gives query-item names and values: safe characters kept, `+` among them, every other character written as `%XX` per UTF-8 byte; inverted by `Decode` (`DecodeEncode`) |
| PercentCoding.Decode | HLSAVPlayerURLSession/HLSAVPlayerURLSession/HLSProxyServer.swift:61 | `removingPercentEncoding`: nothing on a malformed escape or on bytes that are not UTF-8 |
| Utf8.DecodeEncode | HLSAVPlayerURLSession/HLSAVPlayerURLSession/HLSProxyServer.swift:143-148 | decoding the UTF-8 encoding of any text gives the text back |
| Utf8.EncodeDecode | HLSAVPlayerURLSession/HLSAVPlayerURLSession/HLSProxyServer.swift:143-148 | bytes that decode as UTF-8 are exactly the encoding of the decoded text |
| Utf8.EncodeChar | HLSAVPlayerURLSession/HLSAVPlayerURLSession/HLSProxyServer.swift:148 | a character is encoded in one to four bytes, in one byte exactly when it is ASCII, and otherwise with a lead byte followed by continuation bytes |
| Utf8.Encode | HLSAVPlayerURLSession/HLSAVPlayerURLSession/HLSProxyServer.swift:148 | `data(using: .utf8)`: the characters encoded one after another; inverted by `Decode` (`DecodeEncode`, `EncodeDecode`) |
| Utf8.Decode | HLSAVPlayerURLSession/HLSAVPlayerURLSession/HLSProxyServer.swift:143 | `String(data:encoding: .utf8)`: nothing on bytes that are not UTF-8 |
| Text.Break | HLSAVPlayerURLSession/HLSAVPlayerURLSession/HLSProxyServer.swift:145 | the two parts put back together give the string; the first part holds no stop character, and the second starts with one |
| Text.Split | HLSAVPlayerURLSession/HLSAVPlayerURLSession/HLSProxyServer.swift:145 | `components(separatedBy:)`: the pieces between separators, at least one; stated by `SplitCount`, `SplitPiecesClean` and `JoinSplit` |
| Text.Join | HLSAVPlayerURLSession/HLSAVPlayerURLSession/HLSProxyServer.swift:147 | `joined(separator:)`: the parts with the separator between neighbours; stated by `JoinSplit` and `SplitJoin` |
| Text.SplitCount | HLSAVPlayerURLSession/HLSAVPlayerURLSession/HLSProxyServer.swift:145 | `components(separatedBy:)` gives one piece more than there are separators |
| Text.SplitPiecesClean | HLSAVPlayerURLSession/HLSAVPlayerURLSession/HLSProxyServer.swift:145 | no piece of a split holds a separator |
| Text.JoinSplit | HLSAVPlayerURLSession/HLSAVPlayerURLSession/HLSProxyServer.swift:145-147 | joining the pieces with `\n` gives the text with every separator written as `\n` |
| Text.SplitJoin | HLSAVPlayerURLSession/HLSAVPlayerURLSession/HLSProxyServer.swift:145-147 | splitting a join of separator-free lines gives the lines back |
| UriAttribute.MatchValue | HLSAVPlayerURLSession/HLSAVPlayerURLSession/HLSProxyServer.swift:170 | a match of `URI="([^"]*)"` at the front of a text: `URI="`, then a captured value without quotes, then a closing quote |
| UriAttribute.FindMatch | HLSAVPlayerURLSession/HLSAVPlayerURLSession/HLSProxyServer.swift:174-177 | `firstMatch` is the leftmost match, no earlier position matches, and no match is found only when no position matches |
| UriAttribute.ScanLossless | HLSAVPlayerURLSession/HLSAVPlayerURLSession/HLSProxyServer.swift:181 | cutting a line at its matches loses nothing: the pieces put back together give the line |
| UriAttribute.ScanFirstMatch | HLSAVPlayerURLSession/HLSAVPlayerURLSession/HLSProxyServer.swift:175-177 | the first match cut out of a line is the one `firstMatch` reports, after the text in front of it |
| UriAttribute.ReplaceAllNoMatch | HLSAVPlayerURLSession/HLSAVPlayerURLSession/HLSProxyServer.swift:181 | `stringByReplacingMatches` leaves a line without a match unchanged |
| UriAttribute.ReplaceAll | HLSAVPlayerURLSession/HLSAVPlayerURLSession/HLSProxyServer.swift:181 | `stringByReplacingMatches` with a literal template: every match, left to right and without overlap, replaced |
| UriAttribute.NoMatchBefore | HLSAVPlayerURLSession/HLSAVPlayerURLSession/HLSProxyServer.swift:174-177 | the first match of a line is its `URI="v"` attribute when nothing in front holds `URI="`, whatever quoted attributes come before, such as `GROUP-ID="aac"` |
| UriAttribute.SingleAttributeRewrite | HLSAVPlayerURLSession/HLSAVPlayerURLSession/HLSProxyServer.swift:181 | a line whose first match is `URI="v"`, with no match after it, becomes the text before it, the replacement, and the text after it, unchanged |
| UriAttribute.ReplaceAllNoneOf | HLSAVPlayerURLSession/HLSAVPlayerURLSession/HLSProxyServer.swift:181 | replacing the matches adds no character class the line and the replacement both lack |
| PlaylistRewriter.ReferencePath | HLSAVPlayerURLSession/HLSAVPlayerURLSession/HLSProxyServer.swift:195-200 | a `/` reference is the path itself; any other reference follows the origin's directory (`Paths.Directory`, `Paths.DirectoryOf`) |
| PlaylistRewriter.IsWebUrl | HLSAVPlayerURLSession/HLSAVPlayerURLSession/HLSProxyServer.swift:186-187 | a reference starting with `http://` or `https://` is parsed as written; stated by `Resolve` |
| PlaylistRewriter.OnOrigin | HLSAVPlayerURLSession/HLSAVPlayerURLSession/HLSProxyServer.swift:202 | the text `scheme://host` + the reference's path that is parsed and standardised; stated by `ResolveReference` |
| PlaylistRewriter.Resolve | HLSAVPlayerURLSession/HLSAVPlayerURLSession/HLSProxyServer.swift:185-203 | an `http://` or `https://` reference is parsed as written; any other reference needs an origin with a scheme and a host |
| PlaylistRewriter.ResolveWellFormed | HLSAVPlayerURLSession/HLSAVPlayerURLSession/HLSProxyServer.swift:185-203 | whatever a reference resolves to is a well-formed URL with a host, so it always has a proxy URL |
| PlaylistRewriter.ReferencePathRooted | HLSAVPlayerURLSession/HLSAVPlayerURLSession/HLSProxyServer.swift:195-200 | under a well-formed origin with a host, the path written out for a reference is absolute |
| PlaylistRewriter.ResolveOnOrigin | HLSAVPlayerURLSession/HLSAVPlayerURLSession/HLSProxyServer.swift:190-202 | a reference that is not a web URL resolves on the origin's scheme and host, never with the origin's port, and to a path without dot segments |
| PlaylistRewriter.ParseOnHost | HLSAVPlayerURLSession/HLSAVPlayerURLSession/HLSProxyServer.swift:202 | `scheme + "://" + host + path` with a valid absolute path parses to exactly that URL |
| PlaylistRewriter.ResolveReference | HLSAVPlayerURLSession/HLSAVPlayerURLSession/HLSProxyServer.swift:190-202 | a reference with a valid written-out path resolves to the origin's scheme and host, that path with dot segments removed, and no port or query |
| PlaylistRewriter.ResolveRelative | HLSAVPlayerURLSession/HLSAVPlayerURLSession/HLSProxyServer.swift:190-202 | a relative reference under an origin whose path is `dir` + a last component (with or without trailing slashes) resolves to `dir` + the reference, dot segments removed, on the origin's scheme and host |
| PlaylistRewriter.ProxyText | HLSAVPlayerURLSession/HLSAVPlayerURLSession/HLSProxyServer.swift:162-164 | the proxy text for a reference: the `absoluteString` of the proxy URL of what it resolves to, or nothing |
| PlaylistRewriter.ReplaceUri | HLSAVPlayerURLSession/HLSAVPlayerURLSession/HLSProxyServer.swift:169-183 | a tag line without a `URI="…"` match is returned unchanged |
| PlaylistRewriter.ProcessLine | HLSAVPlayerURLSession/HLSAVPlayerURLSession/HLSProxyServer.swift:155-167 | an empty line is returned unchanged |
| PlaylistRewriter.ProcessTagLine | HLSAVPlayerURLSession/HLSAVPlayerURLSession/HLSProxyServer.swift:158-160 | a line starting with `#` is handed to `lineByReplacingURI` |
| PlaylistRewriter.ProcessLineFailOpen | HLSAVPlayerURLSession/HLSAVPlayerURLSession/HLSProxyServer.swift:155-183 | a line is kept as it is when it is a reference that does not resolve, a tag without a match, or a tag whose first match does not resolve |
| PlaylistRewriter.MediaLineText | HLSAVPlayerURLSession/HLSAVPlayerURLSession/HLSProxyServer.swift:162-165 | a reference line that resolves to `u` becomes the `absoluteString` of the proxy URL for `u` |
| PlaylistRewriter.MediaLineRoundTrip | HLSAVPlayerURLSession/HLSAVPlayerURLSession/HLSProxyServer.swift:162-165 | a rewritten reference line parses to the proxy URL, and a request for it decodes to the resolved origin, when that origin's text holds no `%` or `+` and its query items have names and values |
| PlaylistRewriter.TagLineRewrite | HLSAVPlayerURLSession/HLSAVPlayerURLSession/HLSProxyServer.swift:169-183 | `lineByReplacingURI`: a line whose first `URI="v"` attribute resolves, with no other after it, gets that value replaced by its proxy URL, and everything else on the line stays unchanged |
| PlaylistRewriter.ProcessLineNoNewline | HLSAVPlayerURLSession/HLSAVPlayerURLSession/HLSProxyServer.swift:155-183 | processing a line never introduces a line separator |
| PlaylistRewriter.MapLines | HLSAVPlayerURLSession/HLSAVPlayerURLSession/HLSProxyServer.swift:146 | each line is mapped on its own: same count, line `k` of the result is line `k`, processed |
| PlaylistRewriter.ReverseProxyPlaylist | HLSAVPlayerURLSession/HLSAVPlayerURLSession/HLSProxyServer.swift:142-153 | the rewrite fails, with `badServerResponse`, exactly when the data is not UTF-8 |
| PlaylistRewriter.ReverseProxyPlaylistLines | HLSAVPlayerURLSession/HLSAVPlayerURLSession/HLSProxyServer.swift:142-153 | the output is UTF-8 text whose lines are the input's lines, each processed: same count, same order |
| PlaylistRewriter.ReverseProxyPlaylistKeeps | HLSAVPlayerURLSession/HLSAVPlayerURLSession/HLSProxyServer.swift:142-153 | a playlist none of whose lines changes comes back with every line separator written as `\n` |
| PlaylistRewriter.ReverseProxyPlaylistIdentity | HLSAVPlayerURLSession/HLSAVPlayerURLSession/HLSProxyServer.swift:142-153 | such a playlist that separates lines only with `\n` comes back byte for byte |
| ProxyServer.ServerResponse | HLSAVPlayerURLSession/HLSAVPlayerURLSession/HLSProxyServer.swift:121-129 | pass-through: the fetched data and MIME type unchanged, or 500 on any fetch error |
| ProxyServer.IsPlaylist | HLSAVPlayerURLSession/HLSAVPlayerURLSession/HLSProxyServer.swift:105 | an origin is answered as a playlist exactly when its path extension is `m3u8` |
| ProxyServer.PlaylistResponse | HLSAVPlayerURLSession/HLSAVPlayerURLSession/HLSProxyServer.swift:131-140 | data is returned exactly when the fetch succeeds and the playlist is UTF-8; it is then the rewrite against the requested URL, with the fetched MIME type; otherwise 500 |
| ProxyServer.HandleGet | HLSAVPlayerURLSession/HLSAVPlayerURLSession/HLSProxyServer.swift:101-115 | the answer is 400 exactly when the request names no acceptable origin |
| ProxyServer.Answer | HLSAVPlayerURLSession/HLSAVPlayerURLSession/HLSProxyServer.swift:101-115 | 400 exactly without an origin; every error status is 400 or 500 |
| ProxyServer.HandleGetBadRequest | HLSAVPlayerURLSession/HLSAVPlayerURLSession/HLSProxyServer.swift:101-103 | a request that does not decode gets 400, whatever the service would have done, so nothing is fetched |
| ProxyServer.HandleGetMedia | HLSAVPlayerURLSession/HLSAVPlayerURLSession/HLSProxyServer.swift:110-115 | a non-`m3u8` origin is passed through with the fetched data and MIME type, or gets 500 when the fetch fails |
| ProxyServer.HandleGetPlaylist | HLSAVPlayerURLSession/HLSAVPlayerURLSession/HLSProxyServer.swift:105-109 | an `m3u8` origin is rewritten against the requested URL, not the URL the response reports; non-UTF-8 data gets 500 |
| ProxyServer.HandleGetStatus | HLSAVPlayerURLSession/HLSAVPlayerURLSession/HLSProxyServer.swift:101-140 | the answer is 500 exactly when an accepted origin's fetch fails or its playlist is not UTF-8 |
| ProxyServer.AnswerFails | HLSAVPlayerURLSession/HLSAVPlayerURLSession/HLSProxyServer.swift:105-140 | the same, for an already decoded origin |
| ProxyServer.HandleGetProxyLink | HLSAVPlayerURLSession/HLSAVPlayerURLSession/HLSProxyServer.swift:101-115 | a proxy URL written by the rewrite is served by fetching exactly its origin |
| ProxyServer.Fetched | HLSAVPlayerURLSession/HLSAVPlayerURLSession/HLSProxyServer.swift:105-115 | a fetch is subscribed to exactly when the request decoded |
| ProxyServer.HlsVideoProxy.constructor | HLSAVPlayerURLSession/HLSAVPlayerURLSession/HLSProxyServer.swift:37-43 | a new proxy is not running, has done nothing to its server, and holds no subscriptions |
| ProxyServer.HlsVideoProxy.Start | HLSAVPlayerURLSession/HLSAVPlayerURLSession/HLSProxyServer.swift:49-52 | does nothing when running; otherwise starts the server on port 1234 and runs when the bind succeeds |
| ProxyServer.HlsVideoProxy.Stop | HLSAVPlayerURLSession/HLSAVPlayerURLSession/HLSProxyServer.swift:54-57 | does nothing when not running; otherwise stops the server; afterwards the proxy is not running |
| ProxyServer.HlsVideoProxy.Deinit | HLSAVPlayerURLSession/HLSAVPlayerURLSession/HLSProxyServer.swift:45-47 | destruction stops the server if it runs |
| ProxyServer.HlsVideoProxy.HandleRequest | HLSAVPlayerURLSession/HLSAVPlayerURLSession/HLSProxyServer.swift:96-116 | answers as `HandleGet` does, keeps one more subscription when the request decoded, and leaves the running state alone |
| ProxyServer.HlsVideoProxy.Serve | HLSAVPlayerURLSession/HLSAVPlayerURLSession/HLSProxyServer.swift:105-115 | answers a decoded origin and stores its subscription in the cancellables |
| HlsService.MapResponseCode | HLSAVPlayerURLSession/HLSAVPlayerURLSession/HLSService.swift:30-41 | a non-HTTP response, or an HTTP status in 200..<300, passes data and response unchanged; any other status fails with `badServerResponse` |
| HlsService.MapHlsResponseItem | HLSAVPlayerURLSession/HLSAVPlayerURLSession/HLSService.swift:43-53 | succeeds exactly with a MIME type and a URL, carrying exactly the data, URL and MIME type; a missing MIME type gives `fileDoesNotExist` before a missing URL gives `badURL` |
| HlsService.DataTaskPublisher | HLSAVPlayerURLSession/HLSAVPlayerURLSession/HLSService.swift:23-28 | a session failure passes through; a delivered item carries the delivered data |
| HlsService.DataTaskPublisherOk | HLSAVPlayerURLSession/HLSAVPlayerURLSession/HLSService.swift:23-53 | the service yields an item exactly for an acceptable status with a MIME type and a URL, and that item is the response's data, URL and MIME type |
| HlsService.DataTaskPublisherErrorOrder | HLSAVPlayerURLSession/HLSAVPlayerURLSession/HLSService.swift:23-53 | the status is checked first, so a non-2xx response fails with `badServerResponse` even with a MIME type and a URL; then the MIME type, then the URL |

## Left out

- Networking is a parameter of the model. `URLSession` fetching is the `Service` function
  handed to the router. `dataTaskPublisher` receives what the session delivered as its
  argument.
- The GCDWebServer library is not modelled:
  - socket binding is a boolean parameter of `Start`;
  - response objects are the `Response` datatype;
  - handler registration is not modelled.
- The handler is registered for GET requests on the path pattern `^/.*\.*$`, which admits
  every path that starts with `/`. That matching is not modelled: every request given to
  `HandleRequest` is taken to have reached the handler.
- GCDWebServer's `GCDWebServerParseURLEncodedForm` is not part of this model's sources.
  `ProxyCodec.FormFields` follows its scanning rules as the library documents and
  implements them; its debug assertion on a field that fails to unescape is not modelled.
- Combine publishers, `.sink` and the `cancellables` set are not modelled as such. Each
  request is one sequential result chain, and a stored subscription is the fetched URL
  appended to `subscriptions`.
- The weak-`self` guard of the handler, which answers 400 once the proxy is gone, is not
  modelled: the model's proxy object always exists.
- The `server` parameter of the initialiser is ignored by the source and is not modelled.
- Concurrency is not modelled. The order of concurrent requests is not captured, and each
  request is an independent sequential pipeline.
- Foundation's URL handling is replaced by the model's own definitions:
  - URL parsing covers scheme, host, port, path and query only, with no user
    information, fragment or IPv6 host;
  - the characters that query items escape are the model's own safe set; it escapes
    `&`, `=` and `%` and keeps `+`, as `URLComponents` does;
  - `.path` drops a trailing slash of the path it writes out; the model keeps the
    trailing slash of a reference such as `seg/`, so it resolves to `dir/seg/`;
  - `appendingPathComponent` and `.path` are modelled as appending the reference text
    verbatim to the directory, with no extra escaping or unescaping.
- Regular-expression corner cases are not modelled:
  - template metacharacters (`$`, `\`) in the replacement are treated literally;
  - the difference between `line.count` and the UTF-16 length of the searched range is
    ignored, so the whole line is searched;
  - the unreachable `return ""` for a pattern that fails to compile is left out.
- Swift `String` comparisons are modelled character by character, with no
  grapheme-cluster or canonical-equivalence rules.
- ProxyCodec.OriginURLReverseProxyURL: the round trip is stated only for origins whose
  text holds no `%` and no `+` and whose query items all have a name and a value. The
  last condition is sufficient but wider than needed. In the code the round trip can fail
  for these shapes of origin:
  - a `%` escape in the origin's text: the origin parameter is percent-decoded twice on the
    way in, once by the web server's query parsing and once more by
    `removingPercentEncoding`, so the escape is decoded once too often;
  - a `+` in the origin's text: the web server reads `+` as a space, and `URLComponents`
    does not escape it;
  - an item without a value in last place (`?a=1&t`): the parser reads the name of the
    `__hls_origin_url` item into that item's key (`ProxyCodec.FormFieldsValueless`);
  - an item with an empty name and a value (`?=x`): the scan ends there, before the
    `__hls_origin_url` item (`ProxyCodec.FormFieldsStop`).

  A valueless item followed by an item with a value (`?t&a=1`) only merges its name into
  the next key, which the round trip survives; the lemma does not cover that case.
- ProxyCodec.ProxyLinkRoundTrip: stated under the same conditions, for the same reasons.
- PlaylistRewriter.MediaLineRoundTrip: stated under the same conditions, for the same
  reasons. Its `%` condition is on the canonical text of the resolved origin, not on the
  line as written (see `Urls.AbsoluteString` below). For a line such as
  `https://c/s.ts?t=a%2Fb`, the model's round trip holds, but the code fetches
  `https://c/s.ts?t=a/b`.
- ProxyServer.HandleGetProxyLink: stated under the same conditions and with the same
  limit on `%` as `PlaylistRewriter.MediaLineRoundTrip`, for the same reasons.
- Urls.AbsoluteString: a URL's query is held as decoded items, so `AbsoluteString` writes it
  back in one canonical escaping, not as it was written. `https://c/s.ts?t=a%2Fb` and
  `https://c/s.ts?t=a/b` parse to the same URL, whose text is `https://c/s.ts?t=a/b`.
  `absoluteString` keeps the text as written. In the code, an escape that the canonical
  form drops is escaped once more in the proxy link (`%252F`) and decoded twice on the way
  in. The model does not capture that second decoding.
- Concrete resolutions (such as `segment1.ts` or `/assets/key.bin` under
  `https://example.com/videos/stream/playlist.m3u8`) are not proved as instances. `PlaylistRewriter.ResolveReference`,
  `PlaylistRewriter.ResolveRelative` and `PlaylistRewriter.ResolveOnOrigin` state the
  general rule that these examples instantiate.
