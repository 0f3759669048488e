/** Turning a response into the ordered list of buffers that make up its HTTP/1.1 message:
    the status line (section 3.1.2 of RFC 7230), four buffers per header field, the empty
    line, and the body when there is one. */
module ResponseBuffers {
  import opened Text
  import opened Decimal
  import opened HttpTypes

  /** The buffer between a header's name and its value. */
  const HeaderSeparator: string := ": "

  /** `status_code_to_string`: the complete status line for each code. Code 302 carries its
      HTTP/1.0 reason phrase. */
  function StatusLine(sc: StatusCode): string
  {
    match sc
    case Ok200 => "HTTP/1.1 200 OK\r\n"
    case Created201 => "HTTP/1.1 201 Created\r\n"
    case Accepted202 => "HTTP/1.1 202 Accepted\r\n"
    case NoContent204 => "HTTP/1.1 204 No Content\r\n"
    case MultipleChoices300 => "HTTP/1.1 300 Multiple Choices\r\n"
    case MovedPermanently301 => "HTTP/1.1 301 Moved Permanently\r\n"
    case MovedTemporarily302 => "HTTP/1.1 302 Moved Temporarily\r\n"
    case NotModified304 => "HTTP/1.1 304 Not Modified\r\n"
    case BadRequest400 => "HTTP/1.1 400 Bad Request\r\n"
    case Unauthorized401 => "HTTP/1.1 401 Unauthorized\r\n"
    case Forbidden403 => "HTTP/1.1 403 Forbidden\r\n"
    case NotFound404 => "HTTP/1.1 404 Not Found\r\n"
    case InternalServerError500 => "HTTP/1.1 500 Internal Server Error\r\n"
    case NotImplemented501 => "HTTP/1.1 501 Not Implemented\r\n"
    case BadGateway502 => "HTTP/1.1 502 Bad Gateway\r\n"
    case ServiceUnavailable503 => "HTTP/1.1 503 Service Unavailable\r\n"
  }

  /** The reason phrase of each code, as a reference for the shape of `StatusLine`. */
  function ReasonPhrase(sc: StatusCode): (r: string)
    ensures r != [] && CRLF[0] !in r
  {
    match sc
    case Ok200 => "OK"
    case Created201 => "Created"
    case Accepted202 => "Accepted"
    case NoContent204 => "No Content"
    case MultipleChoices300 => "Multiple Choices"
    case MovedPermanently301 => "Moved Permanently"
    case MovedTemporarily302 => "Moved Temporarily"
    case NotModified304 => "Not Modified"
    case BadRequest400 => "Bad Request"
    case Unauthorized401 => "Unauthorized"
    case Forbidden403 => "Forbidden"
    case NotFound404 => "Not Found"
    case InternalServerError500 => "Internal Server Error"
    case NotImplemented501 => "Not Implemented"
    case BadGateway502 => "Bad Gateway"
    case ServiceUnavailable503 => "Service Unavailable"
  }

  /** The four buffers of one header field. */
  function FieldBuffers(h: Header): seq<string> {
    [h.name, HeaderSeparator, h.value, CRLF]
  }

  /** The buffers of a list of header fields, in order. */
  function HeaderBuffers(hs: seq<Header>): seq<string> {
    if hs == [] then [] else HeaderBuffers(hs[..|hs| - 1]) + FieldBuffers(hs[|hs| - 1])
  }

  /** The buffers `to_buffers` appends for a response. */
  function Serialized(resp: Response): seq<string> {
    [StatusLine(resp.status)] + HeaderBuffers(resp.headers) + [CRLF]
    + (if resp.body == [] then [] else [resp.body])
  }

  /** One header field as it appears on the wire. */
  function FieldLine(h: Header): string {
    h.name + HeaderSeparator + h.value + CRLF
  }

  /** The header section as it appears on the wire, field after field. */
  function HeaderText(hs: seq<Header>): string {
    if hs == [] then [] else FieldLine(hs[0]) + HeaderText(hs[1..])
  }

  /** `to_buffers`: appends the buffers of the response to those already present. */
  method ToBuffers(resp: Response, buffers: seq<string>) returns (out: seq<string>)
    ensures out == buffers + Serialized(resp)
  {
    var start := buffers + [StatusLine(resp.status)];
    out := start;
    for i := 0 to |resp.headers|
      invariant out == start + HeaderBuffers(resp.headers[..i])
    {
      var h := resp.headers[i];
      HeaderBuffersSnoc(resp.headers, i);
      out := out + [h.name, HeaderSeparator, h.value, CRLF];
    }
    assert resp.headers[..|resp.headers|] == resp.headers;
    out := out + [CRLF];
    if resp.body != [] {
      out := out + [resp.body];
    }
    SerializedAfter(buffers, resp);
  }

  lemma {:induction false} SerializedAfter(buffers: seq<string>, resp: Response)
    ensures buffers + Serialized(resp)
            == buffers + [StatusLine(resp.status)] + HeaderBuffers(resp.headers) + [CRLF]
               + (if resp.body == [] then [] else [resp.body])
  {}

  lemma {:induction false} HeaderBuffersSnoc(hs: seq<Header>, i: nat)
    requires i < |hs|
    ensures HeaderBuffers(hs[..i + 1]) == HeaderBuffers(hs[..i]) + FieldBuffers(hs[i])
  {
    assert hs[..i + 1][..i] == hs[..i];
  }

  // ---------------------------------------------------------------------------------------
  // Properties

  lemma {:induction false} ShowThreeDigits(n: nat)
    requires 100 <= n < 1000
    ensures Show(n) == [DigitChar(n / 100), DigitChar(n / 10 % 10), DigitChar(n % 10)]
  {
    assert n / 10 / 10 == n / 100;
    assert Show(n / 10) == Show(n / 100) + [DigitChar(n / 10 % 10)];
    assert Show(n / 100) == [DigitChar(n / 100)];
  }

  /** The status line of `sc` reads `HTTP/1.1 <code> <reason>` followed by CRLF. */
  predicate WellFormedStatusLine(sc: StatusCode) {
    StatusLine(sc) == "HTTP/1.1 " + CodeText(sc) + " " + ReasonPhrase(sc) + CRLF
  }

  /** The three digits of each code. */
  function CodeText(sc: StatusCode): string {
    match sc
    case Ok200 => "200"
    case Created201 => "201"
    case Accepted202 => "202"
    case NoContent204 => "204"
    case MultipleChoices300 => "300"
    case MovedPermanently301 => "301"
    case MovedTemporarily302 => "302"
    case NotModified304 => "304"
    case BadRequest400 => "400"
    case Unauthorized401 => "401"
    case Forbidden403 => "403"
    case NotFound404 => "404"
    case InternalServerError500 => "500"
    case NotImplemented501 => "501"
    case BadGateway502 => "502"
    case ServiceUnavailable503 => "503"
  }

  /** The digits are the decimal rendering of the numeric code. */
  lemma {:induction false} CodeTextIsShow(sc: StatusCode)
    ensures CodeText(sc) == Show(Code(sc))
  {
    ShowThreeDigits(Code(sc));
  }

  /** Every status line reads `HTTP/1.1 <code> <reason>` followed by CRLF, with the code in
      decimal. */
  lemma {:induction false} StatusLineForm(sc: StatusCode)
    ensures StatusLine(sc) == "HTTP/1.1 " + Show(Code(sc)) + " " + ReasonPhrase(sc) + CRLF
  {
    CodeTextIsShow(sc);
    match sc
    case Ok200 => StatusLine200();
    case Created201 => StatusLine201();
    case Accepted202 => StatusLine202();
    case NoContent204 => StatusLine204();
    case MultipleChoices300 => StatusLine300();
    case MovedPermanently301 => StatusLine301();
    case MovedTemporarily302 => StatusLine302();
    case NotModified304 => StatusLine304();
    case BadRequest400 => StatusLine400();
    case Unauthorized401 => StatusLine401();
    case Forbidden403 => StatusLine403();
    case NotFound404 => StatusLine404();
    case InternalServerError500 => StatusLine500();
    case NotImplemented501 => StatusLine501();
    case BadGateway502 => StatusLine502();
    case ServiceUnavailable503 => StatusLine503();
  }

  // One lemma per code keeps each string comparison, character by character, in a proof of
  // its own.
  lemma {:induction false} StatusLine200()
    ensures WellFormedStatusLine(Ok200)
  {
    var line := StatusLine(Ok200);
    var parts := "HTTP/1.1 " + CodeText(Ok200) + " " + ReasonPhrase(Ok200) + CRLF;
    assert |line| == |parts|;
    forall i | 0 <= i < |line| ensures line[i] == parts[i] {}
  }

  lemma {:induction false} StatusLine201()
    ensures WellFormedStatusLine(Created201)
  {
    var line := StatusLine(Created201);
    var parts := "HTTP/1.1 " + CodeText(Created201) + " " + ReasonPhrase(Created201) + CRLF;
    assert |line| == |parts|;
    forall i | 0 <= i < |line| ensures line[i] == parts[i] {}
  }

  lemma {:induction false} StatusLine202()
    ensures WellFormedStatusLine(Accepted202)
  {
    var line := StatusLine(Accepted202);
    var parts := "HTTP/1.1 " + CodeText(Accepted202) + " " + ReasonPhrase(Accepted202) + CRLF;
    assert |line| == |parts|;
    forall i | 0 <= i < |line| ensures line[i] == parts[i] {}
  }

  lemma {:induction false} StatusLine204()
    ensures WellFormedStatusLine(NoContent204)
  {
    var line := StatusLine(NoContent204);
    var parts := "HTTP/1.1 " + CodeText(NoContent204) + " " + ReasonPhrase(NoContent204) + CRLF;
    assert |line| == |parts|;
    forall i | 0 <= i < |line| ensures line[i] == parts[i] {}
  }

  lemma {:induction false} StatusLine300()
    ensures WellFormedStatusLine(MultipleChoices300)
  {
    var line := StatusLine(MultipleChoices300);
    var parts := "HTTP/1.1 " + CodeText(MultipleChoices300) + " " + ReasonPhrase(MultipleChoices300) + CRLF;
    assert |line| == |parts|;
    forall i | 0 <= i < |line| ensures line[i] == parts[i] {}
  }

  lemma {:induction false} StatusLine301()
    ensures WellFormedStatusLine(MovedPermanently301)
  {
    var line := StatusLine(MovedPermanently301);
    var parts := "HTTP/1.1 " + CodeText(MovedPermanently301) + " " + ReasonPhrase(MovedPermanently301) + CRLF;
    assert |line| == |parts|;
    forall i | 0 <= i < |line| ensures line[i] == parts[i] {}
  }

  lemma {:induction false} StatusLine302()
    ensures WellFormedStatusLine(MovedTemporarily302)
  {
    var line := StatusLine(MovedTemporarily302);
    var parts := "HTTP/1.1 " + CodeText(MovedTemporarily302) + " " + ReasonPhrase(MovedTemporarily302) + CRLF;
    assert |line| == |parts|;
    forall i | 0 <= i < |line| ensures line[i] == parts[i] {}
  }

  lemma {:induction false} StatusLine304()
    ensures WellFormedStatusLine(NotModified304)
  {
    var line := StatusLine(NotModified304);
    var parts := "HTTP/1.1 " + CodeText(NotModified304) + " " + ReasonPhrase(NotModified304) + CRLF;
    assert |line| == |parts|;
    forall i | 0 <= i < |line| ensures line[i] == parts[i] {}
  }

  lemma {:induction false} StatusLine400()
    ensures WellFormedStatusLine(BadRequest400)
  {
    var line := StatusLine(BadRequest400);
    var parts := "HTTP/1.1 " + CodeText(BadRequest400) + " " + ReasonPhrase(BadRequest400) + CRLF;
    assert |line| == |parts|;
    forall i | 0 <= i < |line| ensures line[i] == parts[i] {}
  }

  lemma {:induction false} StatusLine401()
    ensures WellFormedStatusLine(Unauthorized401)
  {
    var line := StatusLine(Unauthorized401);
    var parts := "HTTP/1.1 " + CodeText(Unauthorized401) + " " + ReasonPhrase(Unauthorized401) + CRLF;
    assert |line| == |parts|;
    forall i | 0 <= i < |line| ensures line[i] == parts[i] {}
  }

  lemma {:induction false} StatusLine403()
    ensures WellFormedStatusLine(Forbidden403)
  {
    var line := StatusLine(Forbidden403);
    var parts := "HTTP/1.1 " + CodeText(Forbidden403) + " " + ReasonPhrase(Forbidden403) + CRLF;
    assert |line| == |parts|;
    forall i | 0 <= i < |line| ensures line[i] == parts[i] {}
  }

  lemma {:induction false} StatusLine404()
    ensures WellFormedStatusLine(NotFound404)
  {
    var line := StatusLine(NotFound404);
    var parts := "HTTP/1.1 " + CodeText(NotFound404) + " " + ReasonPhrase(NotFound404) + CRLF;
    assert |line| == |parts|;
    forall i | 0 <= i < |line| ensures line[i] == parts[i] {}
  }

  lemma {:induction false} StatusLine500()
    ensures WellFormedStatusLine(InternalServerError500)
  {
    var line := StatusLine(InternalServerError500);
    var parts := "HTTP/1.1 " + CodeText(InternalServerError500) + " " + ReasonPhrase(InternalServerError500) + CRLF;
    assert |line| == |parts|;
    forall i | 0 <= i < |line| ensures line[i] == parts[i] {}
  }

  lemma {:induction false} StatusLine501()
    ensures WellFormedStatusLine(NotImplemented501)
  {
    var line := StatusLine(NotImplemented501);
    var parts := "HTTP/1.1 " + CodeText(NotImplemented501) + " " + ReasonPhrase(NotImplemented501) + CRLF;
    assert |line| == |parts|;
    forall i | 0 <= i < |line| ensures line[i] == parts[i] {}
  }

  lemma {:induction false} StatusLine502()
    ensures WellFormedStatusLine(BadGateway502)
  {
    var line := StatusLine(BadGateway502);
    var parts := "HTTP/1.1 " + CodeText(BadGateway502) + " " + ReasonPhrase(BadGateway502) + CRLF;
    assert |line| == |parts|;
    forall i | 0 <= i < |line| ensures line[i] == parts[i] {}
  }

  lemma {:induction false} StatusLine503()
    ensures WellFormedStatusLine(ServiceUnavailable503)
  {
    var line := StatusLine(ServiceUnavailable503);
    var parts := "HTTP/1.1 " + CodeText(ServiceUnavailable503) + " " + ReasonPhrase(ServiceUnavailable503) + CRLF;
    assert |line| == |parts|;
    forall i | 0 <= i < |line| ensures line[i] == parts[i] {}
  }

  /** The code appears in the status line at positions 9 to 11. */
  lemma {:induction false} StatusLineCode(sc: StatusCode)
    ensures |StatusLine(sc)| > 12 && StatusLine(sc)[9..12] == Show(Code(sc))
  {
    StatusLineForm(sc);
    ShowThreeDigits(Code(sc));
    SliceMiddle("HTTP/1.1 ", Show(Code(sc)), " " + ReasonPhrase(sc) + CRLF);
  }

  lemma {:induction false} SliceMiddle(a: string, b: string, c: string)
    ensures a + b + c == a + (b + c)
    ensures (a + (b + c))[|a|..|a| + |b|] == b
  {}

  lemma {:induction false} CodeInjective(a: StatusCode, b: StatusCode)
    requires Code(a) == Code(b)
    ensures a == b
  {}

  /** Different codes have different status lines. */
  lemma {:induction false} StatusLinesDistinct(a: StatusCode, b: StatusCode)
    requires StatusLine(a) == StatusLine(b)
    ensures a == b
  {
    StatusLineCode(a);
    StatusLineCode(b);
    ShowInjective(Code(a), Code(b));
    CodeInjective(a, b);
  }

  lemma {:induction false} HeaderBuffersLength(hs: seq<Header>)
    ensures |HeaderBuffers(hs)| == 4 * |hs|
  {
    if hs != [] {
      HeaderBuffersLength(hs[..|hs| - 1]);
    }
  }

  /** Header `k` occupies buffers `4k` to `4k + 3`. */
  lemma {:induction false} HeaderBuffersAt(hs: seq<Header>, k: nat)
    requires k < |hs|
    ensures |HeaderBuffers(hs)| == 4 * |hs|
    ensures HeaderBuffers(hs)[4 * k..4 * k + 4] == FieldBuffers(hs[k])
  {
    HeaderBuffersLength(hs);
    var init := hs[..|hs| - 1];
    HeaderBuffersLength(init);
    if k < |hs| - 1 {
      HeaderBuffersAt(init, k);
      assert HeaderBuffers(hs)[4 * k..4 * k + 4] == HeaderBuffers(init)[4 * k..4 * k + 4];
    } else {
      assert HeaderBuffers(hs)[4 * k..4 * k + 4] == FieldBuffers(hs[|hs| - 1]);
    }
  }

  /** The layout of the appended buffers: the status line first, four buffers per header,
      one CRLF, then the body only when it is non-empty; `2 + 4 * |headers|` buffers, one
      more with a body. */
  lemma {:induction false} SerializedLayout(resp: Response)
    ensures var out := Serialized(resp);
            var n := |resp.headers|;
            |out| == 2 + 4 * n + (if resp.body == [] then 0 else 1)
            && out[0] == StatusLine(resp.status)
            && (forall k :: 0 <= k < n ==> out[1 + 4 * k..5 + 4 * k] == FieldBuffers(resp.headers[k]))
            && out[1 + 4 * n] == CRLF
            && (resp.body != [] ==> out[2 + 4 * n] == resp.body)
  {
    var out := Serialized(resp);
    var hb := HeaderBuffers(resp.headers);
    HeaderBuffersLength(resp.headers);
    forall k | 0 <= k < |resp.headers|
      ensures out[1 + 4 * k..5 + 4 * k] == FieldBuffers(resp.headers[k])
    {
      HeaderBuffersAt(resp.headers, k);
      assert out[1 + 4 * k..5 + 4 * k] == hb[4 * k..4 * k + 4];
    }
  }

  lemma {:induction false} HeaderTextSnoc(hs: seq<Header>, h: Header)
    ensures HeaderText(hs + [h]) == HeaderText(hs) + FieldLine(h)
  {
    if hs == [] {
      assert [h][1..] == [];
    } else {
      assert (hs + [h])[1..] == hs[1..] + [h];
      HeaderTextSnoc(hs[1..], h);
    }
  }

  lemma {:induction false} FieldBytes(h: Header)
    ensures Concat(FieldBuffers(h)) == FieldLine(h)
  {
    var b := FieldBuffers(h);
    assert Concat(b[3..]) == CRLF by {
      assert b[3..][1..] == [];
    }
    assert Concat(b[2..]) == h.value + CRLF by {
      assert b[2..][1..] == b[3..];
    }
    assert Concat(b[1..]) == HeaderSeparator + h.value + CRLF by {
      assert b[1..][1..] == b[2..];
    }
  }

  lemma {:induction false} HeaderBytes(hs: seq<Header>)
    ensures Concat(HeaderBuffers(hs)) == HeaderText(hs)
  {
    if hs != [] {
      var init := hs[..|hs| - 1];
      var h := hs[|hs| - 1];
      HeaderBytes(init);
      ConcatAppend(HeaderBuffers(init), FieldBuffers(h));
      FieldBytes(h);
      assert init + [h] == hs;
      HeaderTextSnoc(init, h);
    }
  }

  /** The appended buffers, concatenated, are the whole message: status line, header fields,
      empty line, body. */
  lemma {:induction false} WireBytes(resp: Response)
    ensures Concat(Serialized(resp))
            == StatusLine(resp.status) + HeaderText(resp.headers) + CRLF + resp.body
  {
    var hb := HeaderBuffers(resp.headers);
    var tail := if resp.body == [] then [] else [resp.body];
    HeaderBytes(resp.headers);
    ConcatAppend([StatusLine(resp.status)] + hb + [CRLF], tail);
    ConcatAppend([StatusLine(resp.status)] + hb, [CRLF]);
    ConcatAppend([StatusLine(resp.status)], hb);
    assert Concat([StatusLine(resp.status)]) == StatusLine(resp.status);
    assert Concat([CRLF]) == CRLF;
    assert Concat(tail) == resp.body;
  }
}
