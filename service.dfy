/**
 * The fetching service: a URL loading outcome (`data` and `URLResponse`) is checked for its
 * status code, then for a MIME type and a URL, and becomes a response item or a URL error.
 */
module HlsService {
  import opened Wrappers
  import opened Urls
  import Utf8

  /** A fetched resource: its bytes, the URL it came from and its MIME type (`HLSResponseItem`). */
  datatype ResponseItem = ResponseItem(data: seq<Utf8.byte>, url: Url, mimeType: string)

  /**
   * A `URLResponse`: the status code when it is an HTTP response, its MIME type and its
   * URL, each of which may be missing.
   */
  datatype UrlResponse = UrlResponse(statusCode: Option<int>, mimeType: Option<string>, url: Option<Url>)

  /** The URL errors of the proxy; `Transport` stands for any failure of the session itself. */
  datatype UrlError = BadServerResponse | FileDoesNotExist | BadUrl | Transport

  predicate IsSuccess(code: int) { 200 <= code < 300 }

  /**
   * `mapResponseCode`: a response that is not HTTP passes, an HTTP response passes when its
   * status is in 200..<300, and any other status is a bad server response.
   */
  function MapResponseCode(data: seq<Utf8.byte>, response: UrlResponse):
    (r: Result<(seq<Utf8.byte>, UrlResponse), UrlError>)
    ensures r.Ok? <==> response.statusCode.None? || IsSuccess(response.statusCode.value)
    ensures r.Ok? ==> r.value == (data, response)
    ensures r.Err? ==> r.error == BadServerResponse
  {
    if response.statusCode.None? then Ok((data, response))
    else if IsSuccess(response.statusCode.value) then Ok((data, response))
    else Err(BadServerResponse)
  }

  /**
   * `mapHLSResponseItem`: the item of a response with a MIME type and a URL; without a MIME
   * type the file does not exist, and with one but without a URL the URL is bad.
   */
  function MapHlsResponseItem(data: seq<Utf8.byte>, response: UrlResponse): (r: Result<ResponseItem, UrlError>)
    ensures r.Ok? <==> response.mimeType.Some? && response.url.Some?
    ensures r.Ok? ==> r.value.data == data && Some(r.value.mimeType) == response.mimeType &&
                      Some(r.value.url) == response.url
    ensures response.mimeType.None? ==> r == Err(FileDoesNotExist)
    ensures response.mimeType.Some? && response.url.None? ==> r == Err(BadUrl)
  {
    if response.mimeType.None? then Err(FileDoesNotExist)
    else if response.url.None? then Err(BadUrl)
    else Ok(ResponseItem(data, response.url.value, response.mimeType.value))
  }

  /**
   * `dataTaskPublisher(url:)` given what the session delivered for the URL: a session
   * failure passes through, and a delivered response goes through both checks in order.
   */
  function DataTaskPublisher(delivered: Result<(seq<Utf8.byte>, UrlResponse), UrlError>):
    (r: Result<ResponseItem, UrlError>)
    ensures delivered.Err? ==> r == Err(delivered.error)
    ensures r.Ok? ==> delivered.Ok? && r.value.data == delivered.value.0
  {
    match delivered
    case Err(e) => Err(e)
    case Ok((data, response)) =>
      match MapResponseCode(data, response)
      case Err(e) => Err(e)
      case Ok((d, resp)) => MapHlsResponseItem(d, resp)
  }

  /**
   * The service yields an item exactly when the session delivered a response with an
   * acceptable status, a MIME type and a URL, and the item carries the delivered bytes.
   */
  lemma DataTaskPublisherOk(data: seq<Utf8.byte>, response: UrlResponse)
    ensures DataTaskPublisher(Ok((data, response))).Ok? <==>
      (response.statusCode.None? || IsSuccess(response.statusCode.value)) &&
      response.mimeType.Some? && response.url.Some?
    ensures DataTaskPublisher(Ok((data, response))).Ok? ==>
      DataTaskPublisher(Ok((data, response))).value ==
        ResponseItem(data, response.url.value, response.mimeType.value)
  {
  }

  /**
   * The status is checked first: an HTTP error status is reported as a bad server response
   * whatever else is missing, and a missing MIME type is reported before a missing URL.
   */
  lemma DataTaskPublisherErrorOrder(data: seq<Utf8.byte>, response: UrlResponse)
    ensures response.statusCode.Some? && !IsSuccess(response.statusCode.value) ==>
      DataTaskPublisher(Ok((data, response))) == Err(BadServerResponse)
    ensures (response.statusCode.None? || IsSuccess(response.statusCode.value)) &&
            response.mimeType.None? ==>
      DataTaskPublisher(Ok((data, response))) == Err(FileDoesNotExist)
    ensures (response.statusCode.None? || IsSuccess(response.statusCode.value)) &&
            response.mimeType.Some? && response.url.None? ==>
      DataTaskPublisher(Ok((data, response))) == Err(BadUrl)
  {
  }
}
