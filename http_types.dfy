/** The value types of the HTTP layer: methods, headers, requests, status codes, responses. */
module HttpTypes {

  /** The methods a request line may name (enum `http_method`). */
  datatype Method = Get | Head | Post | Put | Delete | Connect | Options | Trace | Patch

  /** The token by which a request line names each method. */
  function MethodName(m: Method): string {
    match m
    case Get => "GET"
    case Head => "HEAD"
    case Post => "POST"
    case Put => "PUT"
    case Delete => "DELETE"
    case Connect => "CONNECT"
    case Options => "OPTIONS"
    case Trace => "TRACE"
    case Patch => "PATCH"
  }

  /** A header field, in a request or a response. */
  datatype Header = Header(name: string, value: string)

  /** A parsed request: method, request target, headers in arrival order, body. */
  datatype Request = Request(requestMethod: Method, uri: string, headers: seq<Header>, body: string)

  /** The sixteen status codes a response can carry (enum `status_code`). */
  datatype StatusCode =
    | Ok200 | Created201 | Accepted202 | NoContent204
    | MultipleChoices300 | MovedPermanently301 | MovedTemporarily302 | NotModified304
    | BadRequest400 | Unauthorized401 | Forbidden403 | NotFound404
    | InternalServerError500 | NotImplemented501 | BadGateway502 | ServiceUnavailable503

  /** The numeric code each enumerator stands for. */
  function Code(sc: StatusCode): (n: nat)
    ensures 200 <= n < 600
  {
    match sc
    case Ok200 => 200
    case Created201 => 201
    case Accepted202 => 202
    case NoContent204 => 204
    case MultipleChoices300 => 300
    case MovedPermanently301 => 301
    case MovedTemporarily302 => 302
    case NotModified304 => 304
    case BadRequest400 => 400
    case Unauthorized401 => 401
    case Forbidden403 => 403
    case NotFound404 => 404
    case InternalServerError500 => 500
    case NotImplemented501 => 501
    case BadGateway502 => 502
    case ServiceUnavailable503 => 503
  }

  /** A response to send: status code, headers in order, body (possibly empty). */
  datatype Response = Response(status: StatusCode, headers: seq<Header>, body: string)
}
