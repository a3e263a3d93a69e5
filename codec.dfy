/**
 * How the proxy carries an origin URL inside a local URL: `ReverseProxyURL` points a URL
 * at the local server and appends the origin as the `__hls_origin_url` query item, and
 * `OriginURL` recovers it from an incoming request, accepting only the media formats the
 * proxy serves.
 */
module ProxyCodec {
  import opened Wrappers
  import opened Text
  import opened Urls
  import Paths
  import PercentCoding

  /** The media formats the proxy accepts, by path extension. */
  datatype VideoProxyFormat = M3u8 | Ts | Mp4 | M4s | M4a | M4v

  function RawValue(f: VideoProxyFormat): string
  {
    match f
    case M3u8 => "m3u8"
    case Ts => "ts"
    case Mp4 => "mp4"
    case M4s => "m4s"
    case M4a => "m4a"
    case M4v => "m4v"
  }

  /** `VideoProxyFormats(rawValue:)`: the format spelled exactly `s`, if any. */
  function FromRawValue(s: string): (r: Option<VideoProxyFormat>)
    ensures r.Some? ==> RawValue(r.value) == s
  {
    if s == "m3u8" then Some(M3u8)
    else if s == "ts" then Some(Ts)
    else if s == "mp4" then Some(Mp4)
    else if s == "m4s" then Some(M4s)
    else if s == "m4a" then Some(M4a)
    else if s == "m4v" then Some(M4v)
    else None
  }

  /** Every format is recognised by its own spelling. */
  lemma FromRawValueRawValue(f: VideoProxyFormat)
    ensures FromRawValue(RawValue(f)) == Some(f)
  {
  }

  /** The six formats have six different spellings. */
  lemma RawValuesDistinct(f: VideoProxyFormat, g: VideoProxyFormat)
    ensures RawValue(f) == RawValue(g) <==> f == g
  {
  }

  predicate IsVideoFormat(ext: string) { FromRawValue(ext).Some? }

  const OriginUrlKey: string := "__hls_origin_url"

  lemma OriginKeyPlain()
    ensures NoneOf(OriginUrlKey, PercentCoding.IsPlus)
  {
    forall i | 0 <= i < |OriginUrlKey| ensures !PercentCoding.IsPlus(OriginUrlKey[i]) {
      assert OriginUrlKey[i] in "_hlsoriginu";
    }
  }
  const ProxyHost: string := "127.0.0.1"
  const ProxyPort: nat := 1234

  // ----- the request as the web server hands it over -----

  /** An incoming request: its path and its decoded query parameters, if it had a query. */
  datatype Request = Request(path: string, query: Option<map<string, string>>)

  /** The parameters query items stand for: the items with a value, the last one winning. */
  function QueryMap(items: seq<QueryItem>): (m: map<string, string>)
    ensures forall k :: k in m ==> exists i :: 0 <= i < |items| && items[i] == QueryItem(k, Some(m[k]))
  {
    if items == [] then map[]
    else
      var init := items[..|items| - 1];
      var last := items[|items| - 1];
      var m := QueryMap(init);
      assert forall i :: 0 <= i < |init| ==> items[i] == init[i];
      if last.value.Some? then m[last.name := last.value.value] else m
  }

  /** The last item with a value decides the parameter of its name. */
  lemma QueryMapLast(items: seq<QueryItem>, name: string, value: string)
    ensures QueryMap(items + [QueryItem(name, Some(value))]) == QueryMap(items)[name := value]
  {
    assert (items + [QueryItem(name, Some(value))])[..|items|] == items;
  }

  /** Text of a form field as the web server reads it: `+` stands for a space, then escapes are decoded. */
  function FormText(s: string): Option<string>
  {
    PercentCoding.Decode(Normalize(s, PercentCoding.IsPlus, ' '))
  }

  /** One field read into the parameters; a field whose key or value does not decode is skipped. */
  function AddField(fields: map<string, string>, key: string, value: string): (r: map<string, string>)
    ensures FormText(key).Some? && FormText(value).Some? ==> r == fields[FormText(key).value := FormText(value).value]
    ensures FormText(key).None? || FormText(value).None? ==> r == fields
  {
    match (FormText(key), FormText(value))
    case (Some(k), Some(v)) => fields[k := v]
    case _ => fields
  }

  /**
   * The web server's form parser (`GCDWebServerParseURLEncodedForm`), which fills
   * `request.query` from the query text: a key runs up to the next `=`, across any `&`,
   * and its value up to the next `&`; the scan ends at an empty key and at a key with no
   * `=` after it.
   */
  function FormFields(s: string, fields: map<string, string>): (r: map<string, string>)
    ensures fields.Keys <= r.Keys
    decreases |s|
  {
    var (key, rest) := Break(s, IsEquals);
    if key == [] || rest == [] then fields
    else
      var (value, tail) := Break(rest[1..], IsAmp);
      var next := AddField(fields, key, value);
      if tail == [] then next else FormFields(tail[1..], next)
  }

  /** The parameters of a whole query text (`request.query`). */
  function ParseForm(q: string): map<string, string>
  {
    FormFields(q, map[])
  }

  /** The request the server builds for a URL it is sent: its path and the fields of its query text. */
  function RequestFor(u: Url): (req: Request)
    ensures req.path == u.path
    ensures req.query.Some? <==> u.query.Some?
  {
    Request(u.path, if u.query.Some? then Some(ParseForm(QueryString(u.query.value))) else None)
  }

  /** A field `key=value`, alone or followed by `&` and more text, is read as one parameter. */
  lemma FormFieldStep(key: string, value: string, rest: string, fields: map<string, string>)
    requires key != [] && NoneOf(key, IsEquals) && NoneOf(value, IsAmp)
    ensures FormFields(key + "=" + value, fields) == AddField(fields, key, value)
    ensures FormFields(key + "=" + value + "&" + rest, fields) == FormFields(rest, AddField(fields, key, value))
  {
    var s1 := key + "=" + value;
    assert s1 == key + ("=" + value);
    BreakAt(key, "=" + value, IsEquals);
    assert ("=" + value)[1..] == value + [];
    BreakAt(value, [], IsAmp);
    var s2 := key + "=" + value + "&" + rest;
    assert s2 == key + ("=" + value + "&" + rest);
    BreakAt(key, "=" + value + "&" + rest, IsEquals);
    assert ("=" + value + "&" + rest)[1..] == value + ("&" + rest);
    BreakAt(value, "&" + rest, IsAmp);
    assert ("&" + rest)[1..] == rest;
  }

  /**
   * A key without `=` swallows what follows it up to the next `=`: an item with no value
   * hides the name of the item after it (`a&b=1` is the single field `a&b`).
   */
  lemma FormFieldsValueless(bare: string, key: string, value: string, fields: map<string, string>)
    requires bare != [] && NoneOf(bare, IsEquals) && NoneOf(key, IsEquals) && NoneOf(value, IsAmp)
    ensures FormFields(bare + "&" + key + "=" + value, fields) == AddField(fields, bare + "&" + key, value)
  {
    var k := bare + "&" + key;
    assert NoneOf(k, IsEquals) by {
      NoneOfAppend(bare, "&", IsEquals);
      NoneOfAppend(bare + "&", key, IsEquals);
    }
    assert bare + "&" + key + "=" + value == k + "=" + value;
    FormFieldStep(k, value, [], fields);
  }

  /**
   * The scan stops, reading nothing more, at an empty key (the text starts with `=`) and at
   * a key with no `=` after it: an item with an empty name hides every item after it.
   */
  lemma FormFieldsStop(s: string, fields: map<string, string>)
    requires StartsWith(s, "=") || NoneOf(s, IsEquals)
    ensures FormFields(s, fields) == fields
  {
    if NoneOf(s, IsEquals) {
      BreakAt(s, [], IsEquals);
      assert s + [] == s;
    } else {
      assert s[0] == '=';
      assert Break(s, IsEquals) == ([], s);
    }
  }

  /** Every item has a name and a value: the items the form parser reads back one by one. */
  predicate FormItems(items: seq<QueryItem>)
  {
    forall i :: 0 <= i < |items| ==> items[i].name != [] && items[i].value.Some?
  }

  /** The printed item `name=value` of an item with a name and a value is one field. */
  lemma ItemFieldParts(it: QueryItem)
    requires it.name != [] && it.value.Some?
    ensures var key := PercentCoding.Encode(it.name);
      key != [] && NoneOf(key, IsEquals) && NoneOf(PercentCoding.Encode(it.value.value), IsAmp) &&
      ItemString(it) == key + "=" + PercentCoding.Encode(it.value.value)
  {
    PercentCoding.EncodeNonEmpty(it.name);
    EncodedCharsAreQueryChars(it.name);
    EncodedCharsAreQueryChars(it.value.value);
  }

  /** An item with a name and a value and no `+` is read back as that parameter. */
  lemma ItemField(it: QueryItem, fields: map<string, string>)
    requires it.name != [] && it.value.Some?
    requires NoneOf(it.name, PercentCoding.IsPlus) && NoneOf(it.value.value, PercentCoding.IsPlus)
    ensures FormFields(ItemString(it), fields) == fields[it.name := it.value.value]
  {
    var key, value := PercentCoding.Encode(it.name), PercentCoding.Encode(it.value.value);
    ItemFieldParts(it);
    FormFieldStep(key, value, [], fields);
    assert FormText(key) == Some(it.name) by {
      PercentCoding.EncodeNoPlus(it.name);
      NormalizeClean(key, PercentCoding.IsPlus, ' ');
      PercentCoding.DecodeEncode(it.name);
    }
    assert FormText(value) == Some(it.value.value) by {
      PercentCoding.EncodeNoPlus(it.value.value);
      NormalizeClean(value, PercentCoding.IsPlus, ' ');
      PercentCoding.DecodeEncode(it.value.value);
    }
  }

  lemma QueryStringCons(it: QueryItem, items: seq<QueryItem>)
    ensures items == [] ==> QueryString([it] + items) == ItemString(it)
    ensures items != [] ==> QueryString([it] + items) == ItemString(it) + "&" + QueryString(items)
  {
    var all := [it] + items;
    assert all[0] == it && all[1..] == items;
    assert ItemStrings(all) == [ItemString(it)] + ItemStrings(items);
    assert ([ItemString(it)] + ItemStrings(items))[1..] == ItemStrings(items);
  }

  /** The first item of a query, with a name and a value, is read before the rest. */
  lemma FormFieldsCons(a: QueryItem, r: seq<QueryItem>, fields: map<string, string>)
    requires a.name != [] && a.value.Some?
    ensures FormFields(QueryString([a] + r), fields) ==
      FormFields(QueryString(r), AddField(fields, PercentCoding.Encode(a.name), PercentCoding.Encode(a.value.value)))
  {
    var key, value := PercentCoding.Encode(a.name), PercentCoding.Encode(a.value.value);
    ItemFieldParts(a);
    QueryStringCons(a, r);
    FormFieldStep(key, value, QueryString(r), fields);
    if r == [] {
      assert QueryString(r) == [];
    }
  }

  /**
   * Reading a query whose items all have a name and a value: the fields of the last item
   * are read after those of the items before it.
   */
  lemma {:induction false} FormFieldsAppend(items: seq<QueryItem>, it: QueryItem, fields: map<string, string>)
    requires FormItems(items)
    ensures FormFields(QueryString(items + [it]), fields) == FormFields(ItemString(it), FormFields(QueryString(items), fields))
    decreases |items|
  {
    if items == [] {
      assert items + [it] == [it] + [];
      QueryStringCons(it, []);
    } else {
      var a, r := items[0], items[1..];
      assert FormItems(r) by {
        forall i | 0 <= i < |r| ensures r[i].name != [] && r[i].value.Some? { assert r[i] == items[i + 1]; }
      }
      assert a.name != [] && a.value.Some?;
      var next := AddField(fields, PercentCoding.Encode(a.name), PercentCoding.Encode(a.value.value));
      assert FormFields(QueryString(items + [it]), fields) == FormFields(QueryString(r + [it]), next) by {
        assert items + [it] == [a] + (r + [it]);
        FormFieldsCons(a, r + [it], fields);
      }
      assert FormFields(QueryString(items), fields) == FormFields(QueryString(r), next) by {
        assert items == [a] + r;
        FormFieldsCons(a, r, fields);
      }
      FormFieldsAppend(r, it, next);
    }
  }

  /**
   * The form parser reads the printed items back as the parameters they stand for, when
   * every item has a name and a value and no `+`.
   */
  lemma {:induction false} ParseFormQueryString(items: seq<QueryItem>)
    requires FormItems(items)
    requires forall i :: 0 <= i < |items| ==>
      NoneOf(items[i].name, PercentCoding.IsPlus) && NoneOf(items[i].value.value, PercentCoding.IsPlus)
    ensures ParseForm(QueryString(items)) == QueryMap(items)
    decreases |items|
  {
    if items != [] {
      var init, last := items[..|items| - 1], items[|items| - 1];
      assert items == init + [last];
      assert FormItems(init) by {
        forall i | 0 <= i < |init| ensures init[i].name != [] && init[i].value.Some? { assert init[i] == items[i]; }
      }
      ParseFormQueryString(init);
      FormFieldsAppend(init, last, map[]);
      ItemField(last, ParseForm(QueryString(init)));
      QueryMapLast(init, last.name, last.value.value);
    }
  }

  // ----- decoding the origin -----

  /**
   * `originURL(from:)`: the origin named by the request, or None when the parameter is
   * missing, does not percent-decode, does not parse as a URL, or names a file whose
   * extension is not one of the formats.
   */
  function OriginURL(req: Request): (r: Option<Url>)
    ensures r.Some? ==> IsVideoFormat(Paths.PathExtension(r.value.path))
    ensures r.Some? ==> req.query.Some? && OriginUrlKey in req.query.value
  {
    if req.query.None? || OriginUrlKey !in req.query.value then None
    else match PercentCoding.Decode(req.query.value[OriginUrlKey])
      case None => None
      case Some(text) =>
        match Parse(text)
        case None => None
        case Some(url) => if IsVideoFormat(Paths.PathExtension(url.path)) then Some(url) else None
  }

  /** The failure cases of `OriginURL`, each on its own. */
  lemma OriginURLFailures(req: Request)
    ensures req.query.None? ==> OriginURL(req).None?
    ensures req.query.Some? && OriginUrlKey !in req.query.value ==> OriginURL(req).None?
    ensures (req.query.Some? && OriginUrlKey in req.query.value &&
             PercentCoding.Decode(req.query.value[OriginUrlKey]).None?) ==> OriginURL(req).None?
    ensures (req.query.Some? && OriginUrlKey in req.query.value &&
             PercentCoding.Decode(req.query.value[OriginUrlKey]).Some? &&
             Parse(PercentCoding.Decode(req.query.value[OriginUrlKey]).value).None?) ==>
            OriginURL(req).None?
  {
  }

  /** A parameter that parses as a URL with an allowed extension is accepted, and is the result. */
  lemma OriginURLAccepts(req: Request, text: string, url: Url)
    requires req.query.Some? && OriginUrlKey in req.query.value
    requires PercentCoding.Decode(req.query.value[OriginUrlKey]) == Some(text)
    requires Parse(text) == Some(url)
    ensures OriginURL(req).Some? <==> IsVideoFormat(Paths.PathExtension(url.path))
    ensures OriginURL(req).Some? ==> OriginURL(req).value == url
  {
    assert OriginURL(req) == if IsVideoFormat(Paths.PathExtension(url.path)) then Some(url) else None;
  }

  // ----- encoding the origin -----

  /** The query items of a URL, none when it has no query (`queryItems ?? []`). */
  function ItemsOf(u: Url): seq<QueryItem>
  {
    if u.query.Some? then u.query.value else []
  }

  /**
   * `reverseProxyURL(from:)`: the same path and query on `http://127.0.0.1:1234`, with the
   * origin's text appended as the last query item. There is none when the origin's path
   * neither is empty nor starts with `/`, since a URL with a host cannot have such a path.
   */
  function ReverseProxyURL(u: Url): (r: Option<Url>)
    ensures r.Some? <==> (u.path == [] || u.path[0] == '/')
    ensures r.Some? ==> r.value.scheme == Some("http") && r.value.host == Some(ProxyHost)
    ensures r.Some? ==> r.value.port == Some(ProxyPort) && r.value.path == u.path
    ensures r.Some? ==> r.value.query.Some? && |r.value.query.value| == |ItemsOf(u)| + 1
  {
    if u.path != [] && u.path[0] != '/' then None
    else Some(Url(Some("http"), Some(ProxyHost), Some(ProxyPort), u.path,
                  Some(ItemsOf(u) + [QueryItem(OriginUrlKey, Some(AbsoluteString(u)))])))
  }

  /** The proxy URL keeps the origin's own query items in front of the origin item. */
  lemma ReverseProxyURLQuery(u: Url)
    requires ReverseProxyURL(u).Some?
    ensures ReverseProxyURL(u).value.query.value[..|ItemsOf(u)|] == ItemsOf(u)
    ensures ReverseProxyURL(u).value.query.value[|ItemsOf(u)|] ==
      QueryItem(OriginUrlKey, Some(AbsoluteString(u)))
  {
  }

  /** A proxy URL made from a well-formed origin is well formed. */
  lemma ReverseProxyURLWellFormed(u: Url)
    requires WellFormed(u) && ReverseProxyURL(u).Some?
    ensures WellFormed(ReverseProxyURL(u).value)
  {
    var r := ReverseProxyURL(u).value;
    assert r.query.value[|r.query.value| - 1].name == OriginUrlKey;
  }

  /**
   * Round trip on values: the request for a proxy URL names its origin again, whatever
   * origin parameter the origin's own query already had, provided the origin's text has
   * no `%` (the parameter is decoded twice on the way in) and no `+` (the form parser
   * reads it as a space), and every query item of the origin has a name and a value.
   */
  lemma OriginURLReverseProxyURL(u: Url)
    requires WellFormed(u) && ReverseProxyURL(u).Some?
    requires IsVideoFormat(Paths.PathExtension(u.path))
    requires FormItems(ItemsOf(u))
    requires NoneOf(AbsoluteString(u), PercentCoding.IsPercent) && NoneOf(AbsoluteString(u), PercentCoding.IsPlus)
    ensures OriginURL(RequestFor(ReverseProxyURL(u).value)) == Some(u)
  {
    var text := AbsoluteString(u);
    ProxyRequestFields(u);
    var req := RequestFor(ReverseProxyURL(u).value);
    assert req.query.value[OriginUrlKey] == text;
    PercentCoding.DecodePlain(text);
    ParseAbsoluteString(u);
    OriginURLAccepts(req, text, u);
  }

  /** The request for a proxy URL holds the origin's text under the origin key. */
  lemma ProxyRequestFields(u: Url)
    requires ReverseProxyURL(u).Some? && FormItems(ItemsOf(u))
    requires NoneOf(AbsoluteString(u), PercentCoding.IsPlus)
    ensures RequestFor(ReverseProxyURL(u).value).query ==
      Some(ParseForm(QueryString(ItemsOf(u)))[OriginUrlKey := AbsoluteString(u)])
  {
    var items := ItemsOf(u);
    var item := QueryItem(OriginUrlKey, Some(AbsoluteString(u)));
    var before := ParseForm(QueryString(items));
    assert ReverseProxyURL(u).value.query == Some(items + [item]);
    assert ParseForm(QueryString(items + [item])) == FormFields(ItemString(item), before) by {
      FormFieldsAppend(items, item, map[]);
    }
    assert FormFields(ItemString(item), before) == before[OriginUrlKey := AbsoluteString(u)] by {
      OriginKeyPlain();
      ItemField(item, before);
    }
  }

  /**
   * Round trip on text: the proxy URL's text parses back to the proxy URL, and the request
   * for it names the origin.
   */
  lemma ProxyLinkRoundTrip(u: Url)
    requires WellFormed(u) && ReverseProxyURL(u).Some?
    requires IsVideoFormat(Paths.PathExtension(u.path))
    requires FormItems(ItemsOf(u))
    requires NoneOf(AbsoluteString(u), PercentCoding.IsPercent) && NoneOf(AbsoluteString(u), PercentCoding.IsPlus)
    ensures Parse(AbsoluteString(ReverseProxyURL(u).value)) == ReverseProxyURL(u)
    ensures OriginURL(RequestFor(Parse(AbsoluteString(ReverseProxyURL(u).value)).value)) == Some(u)
  {
    ReverseProxyURLWellFormed(u);
    ParseAbsoluteString(ReverseProxyURL(u).value);
    OriginURLReverseProxyURL(u);
  }
}
