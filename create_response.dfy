/** The four ways of building a response: status only, status with a typed body, status
    with given headers, and status with given headers and a typed body. */
module ResponseFactory {
  import opened Text
  import opened HttpTypes
  import opened ResponseBuffers

  /** The name of the only header the constructors add. */
  const ContentTypeName: string := "Content-type"

  function ContentType(contentType: string): Header {
    Header(ContentTypeName, contentType)
  }

  /** `create_response(sc)`. */
  function CreateResponse(sc: StatusCode): (r: Response)
    ensures r.status == sc && r.headers == [] && r.body == []
  {
    Response(sc, [], [])
  }

  /** `create_response(sc, content_type, body)`. */
  function CreateResponseWithBody(sc: StatusCode, contentType: string, body: string): (r: Response)
    ensures r.status == sc && r.headers == [ContentType(contentType)] && r.body == body
  {
    Response(sc, [ContentType(contentType)], body)
  }

  /** `create_response(sc, hs)`. */
  function CreateResponseWithHeaders(sc: StatusCode, hs: seq<Header>): (r: Response)
    ensures r.status == sc && r.headers == hs && r.body == []
  {
    Response(sc, hs, [])
  }

  /** `create_response(sc, hs, content_type, body)`: the content type goes after the given
      headers. */
  function CreateResponseWithHeadersAndBody(sc: StatusCode, hs: seq<Header>, contentType: string,
                                            body: string): (r: Response)
    ensures r.status == sc && r.headers == hs + [ContentType(contentType)] && r.body == body
  {
    Response(sc, hs + [ContentType(contentType)], body)
  }

  // ---------------------------------------------------------------------------------------
  // Properties

  /** The overloads agree: with no extra headers, the header-taking ones build what the
      others do. */
  lemma {:induction false} OverloadsAgree(sc: StatusCode, contentType: string, body: string)
    ensures CreateResponseWithHeaders(sc, []) == CreateResponse(sc)
    ensures CreateResponseWithHeadersAndBody(sc, [], contentType, body)
            == CreateResponseWithBody(sc, contentType, body)
  {}

  /** No constructor adds a header other than `Content-type`, and none drops or reorders a
      given one. */
  lemma {:induction false} OnlyContentTypeAdded(sc: StatusCode, hs: seq<Header>, contentType: string, body: string)
    ensures var r := CreateResponseWithHeadersAndBody(sc, hs, contentType, body);
            r.headers[..|hs|] == hs
            && forall k :: |hs| <= k < |r.headers| ==> r.headers[k].name == ContentTypeName
  {
    var r := CreateResponseWithHeadersAndBody(sc, hs, contentType, body);
    assert r.headers[..|hs|] == hs;
  }

  /** A status-only response goes out as its status line and the empty line. */
  lemma {:induction false} BareResponseOnTheWire(sc: StatusCode)
    ensures Serialized(CreateResponse(sc)) == [StatusLine(sc), CRLF]
    ensures Concat(Serialized(CreateResponse(sc))) == StatusLine(sc) + CRLF
  {
    WireBytes(CreateResponse(sc));
  }

  /** A response with a typed body goes out as status line, the `Content-type` field, the
      empty line and the body. */
  lemma {:induction false} TypedResponseOnTheWire(sc: StatusCode, contentType: string, body: string)
    ensures Concat(Serialized(CreateResponseWithBody(sc, contentType, body)))
            == StatusLine(sc) + ContentTypeName + ": " + contentType + CRLF + CRLF + body
  {
    var hs := [ContentType(contentType)];
    WireBytes(CreateResponseWithBody(sc, contentType, body));
    assert hs[1..] == [];
    assert HeaderText(hs) == FieldLine(hs[0]);
  }
}
