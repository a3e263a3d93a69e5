/**
 * The local web server: the GET handler that decodes the origin of a request, fetches it
 * through the service and answers with the rewritten playlist, the media bytes, or an error
 * status; and the proxy object that starts and stops the server.
 */
module ProxyServer {
  import opened Wrappers
  import opened Urls
  import Text
  import Paths
  import Utf8
  import PercentCoding
  import ProxyCodec
  import HlsService
  import PlaylistRewriter

  /** What the handler answers: data with a content type, or an error status. */
  datatype Response =
    | DataResponse(data: seq<Utf8.byte>, contentType: string)
    | ErrorResponse(statusCode: int)

  /** The injected `HLSService`: what fetching a URL yields. */
  type Service = Url -> Result<HlsService.ResponseItem, HlsService.UrlError>

  predicate IsPlaylist(u: Url)
  {
    Paths.PathExtension(u.path) == ProxyCodec.RawValue(ProxyCodec.M3u8)
  }

  /** `serverResponse(for:)`: the fetched bytes with their MIME type, or status 500 on any error. */
  function ServerResponse(fetched: Result<HlsService.ResponseItem, HlsService.UrlError>): (r: Response)
    ensures fetched.Ok? ==> r == DataResponse(fetched.value.data, fetched.value.mimeType)
    ensures fetched.Err? ==> r == ErrorResponse(500)
  {
    match fetched
    case Ok(item) => DataResponse(item.data, item.mimeType)
    case Err(_) => ErrorResponse(500)
  }

  /**
   * `playlistResponse(for:)`: the fetched playlist rewritten against the requested URL, with
   * the fetched MIME type; status 500 when the fetch fails or the playlist is not UTF-8.
   */
  function PlaylistResponse(fetched: Result<HlsService.ResponseItem, HlsService.UrlError>, url: Url): (r: Response)
    ensures r.DataResponse? <==> fetched.Ok? && Utf8.Decode(fetched.value.data).Some?
    ensures r.DataResponse? ==>
      r.contentType == fetched.value.mimeType &&
      Ok(r.data) == PlaylistRewriter.ReverseProxyPlaylist(fetched.value.data, url)
    ensures r.ErrorResponse? ==> r.statusCode == 500
  {
    match fetched
    case Err(_) => ErrorResponse(500)
    case Ok(item) =>
      match PlaylistRewriter.ReverseProxyPlaylist(item.data, url)
      case Err(_) => ErrorResponse(500)
      case Ok(data) => DataResponse(data, item.mimeType)
  }

  /**
   * The GET handler: status 400 when the request names no acceptable origin; otherwise the
   * origin is fetched, and answered as a playlist when its extension is `m3u8` and as media
   * otherwise.
   */
  function HandleGet(req: ProxyCodec.Request, service: Service): (r: Response)
    ensures r == ErrorResponse(400) <==> ProxyCodec.OriginURL(req).None?
  {
    Answer(ProxyCodec.OriginURL(req), service)
  }

  /** The answer for a decoded origin, or for none. */
  function Answer(origin: Option<Url>, service: Service): (r: Response)
    ensures r == ErrorResponse(400) <==> origin.None?
    ensures r.ErrorResponse? ==> r.statusCode in {400, 500}
  {
    match origin
    case None => ErrorResponse(400)
    case Some(u) =>
      if IsPlaylist(u) then PlaylistResponse(service(u), u) else ServerResponse(service(u))
  }

  /** A request without an acceptable origin is answered 400 whatever the service would do. */
  lemma HandleGetBadRequest(req: ProxyCodec.Request, s1: Service, s2: Service)
    requires ProxyCodec.OriginURL(req).None?
    ensures HandleGet(req, s1) == HandleGet(req, s2) == ErrorResponse(400)
  {
  }

  /** A media origin is passed through: the fetched bytes and MIME type, unchanged. */
  lemma HandleGetMedia(req: ProxyCodec.Request, service: Service, u: Url)
    requires ProxyCodec.OriginURL(req) == Some(u) && !IsPlaylist(u)
    ensures service(u).Ok? ==> HandleGet(req, service) == DataResponse(service(u).value.data, service(u).value.mimeType)
    ensures service(u).Err? ==> HandleGet(req, service) == ErrorResponse(500)
  {
  }

  /**
   * A playlist origin is rewritten against the requested URL `u`, not against the URL the
   * response reports: two fetches that differ only in that URL give the same answer.
   */
  lemma HandleGetPlaylist(req: ProxyCodec.Request, s1: Service, s2: Service, u: Url)
    requires ProxyCodec.OriginURL(req) == Some(u) && IsPlaylist(u)
    requires s1(u).Ok? && s2(u).Ok?
    requires s1(u).value.data == s2(u).value.data && s1(u).value.mimeType == s2(u).value.mimeType
    ensures HandleGet(req, s1) == HandleGet(req, s2)
    ensures Utf8.Decode(s1(u).value.data).Some? ==>
      HandleGet(req, s1) ==
        DataResponse(PlaylistRewriter.ReverseProxyPlaylist(s1(u).value.data, u).value, s1(u).value.mimeType)
    ensures Utf8.Decode(s1(u).value.data).None? ==> HandleGet(req, s1) == ErrorResponse(500)
  {
  }

  /** Every answer is data, 400 or 500, and it is 500 exactly when an accepted origin fails. */
  lemma HandleGetStatus(req: ProxyCodec.Request, service: Service)
    ensures HandleGet(req, service).ErrorResponse? ==> HandleGet(req, service).statusCode in {400, 500}
    ensures HandleGet(req, service) == ErrorResponse(500) <==>
      ProxyCodec.OriginURL(req).Some? && Fails(ProxyCodec.OriginURL(req).value, service)
  {
    AnswerFails(ProxyCodec.OriginURL(req), service);
  }

  /** An accepted origin whose fetch fails, or whose playlist is not UTF-8. */
  predicate Fails(u: Url, service: Service)
  {
    service(u).Err? || (IsPlaylist(u) && Utf8.Decode(service(u).value.data).None?)
  }

  lemma AnswerFails(origin: Option<Url>, service: Service)
    ensures Answer(origin, service) == ErrorResponse(500) <==> origin.Some? && Fails(origin.value, service)
  {
  }

  /**
   * A proxy URL the rewrite wrote is served from its origin: the request for it fetches
   * exactly the origin and answers as the origin's kind asks.
   */
  lemma HandleGetProxyLink(u: Url, service: Service)
    requires WellFormed(u) && ProxyCodec.ReverseProxyURL(u).Some?
    requires ProxyCodec.IsVideoFormat(Paths.PathExtension(u.path))
    requires ProxyCodec.FormItems(ProxyCodec.ItemsOf(u))
    requires Text.NoneOf(AbsoluteString(u), PercentCoding.IsPercent) && Text.NoneOf(AbsoluteString(u), PercentCoding.IsPlus)
    ensures var req := ProxyCodec.RequestFor(ProxyCodec.ReverseProxyURL(u).value);
      HandleGet(req, service) ==
        if IsPlaylist(u) then PlaylistResponse(service(u), u) else ServerResponse(service(u))
  {
    ProxyCodec.OriginURLReverseProxyURL(u);
  }

  // ----- the proxy object -----

  /** What the proxy did to its web server, in order. */
  datatype ServerEvent = Started(port: nat) | Stopped

  /**
   * `HLSVideoProxy`: whether its web server runs, what it did to the server, and the URLs
   * of the fetches it keeps subscriptions for.
   */
  class HlsVideoProxy {
    var running: bool
    var events: seq<ServerEvent>
    var subscriptions: seq<Url>
    const service: Service

    /** A new proxy: its server not running, nothing done to it, no subscriptions. */
    constructor(service: Service)
      ensures !running && events == [] && subscriptions == [] && this.service == service
    {
      running := false;
      events := [];
      subscriptions := [];
      this.service := service;
    }

    /**
     * `start()`: nothing when the server already runs; otherwise the server is started on
     * port 1234 and runs when it could bind.
     */
    method Start(bindSucceeds: bool)
      modifies this
      ensures old(running) ==> running && events == old(events)
      ensures !old(running) ==> running == bindSucceeds && events == old(events) + [Started(ProxyCodec.ProxyPort)]
      ensures subscriptions == old(subscriptions)
    {
      if running {
        return;
      }
      events := events + [Started(ProxyCodec.ProxyPort)];
      running := bindSucceeds;
    }

    /** `stop()`: nothing when the server does not run; otherwise it is stopped. */
    method Stop()
      modifies this
      ensures !running
      ensures old(running) ==> events == old(events) + [Stopped]
      ensures !old(running) ==> events == old(events)
      ensures subscriptions == old(subscriptions)
    {
      if !running {
        return;
      }
      events := events + [Stopped];
      running := false;
    }

    /** `deinit`: the proxy stops its server when it goes away. */
    method Deinit()
      modifies this
      ensures !running
      ensures old(running) ==> events == old(events) + [Stopped]
      ensures !old(running) ==> events == old(events)
      ensures subscriptions == old(subscriptions)
    {
      Stop();
    }

    /**
     * A GET request arriving at the handler: the answer of `HandleGet`, and one more kept
     * subscription when the request named an origin to fetch.
     */
    method HandleRequest(req: ProxyCodec.Request) returns (resp: Response)
      modifies this
      ensures resp == HandleGet(req, service)
      ensures subscriptions == old(subscriptions) + Fetched(ProxyCodec.OriginURL(req))
      ensures running == old(running) && events == old(events)
    {
      resp := Serve(ProxyCodec.OriginURL(req));
    }

    /** The handler once the origin is decoded: it answers, and subscribes to a fetch of the origin. */
    method Serve(origin: Option<Url>) returns (resp: Response)
      modifies this
      ensures resp == Answer(origin, service)
      ensures subscriptions == old(subscriptions) + Fetched(origin)
      ensures running == old(running) && events == old(events)
    {
      resp := Answer(origin, service);
      if origin.Some? {
        subscriptions := subscriptions + [origin.value];
      }
    }
  }

  /** The URL fetched for a decoded origin: the origin itself, or nothing. */
  function Fetched(origin: Option<Url>): (r: seq<Url>)
    ensures origin.None? <==> r == []
  {
    if origin.Some? then [origin.value] else []
  }
}
