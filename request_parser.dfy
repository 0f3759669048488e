/** The incremental HTTP/1.1 request parser. A parser object is fed the packets of one
    connection in order; it buffers partial lines, parses the request line (method and
    request target) and the header fields, and uses `content-length` to collect the body.
    The pure functions below say what one call does to the parser's fields; the class
    `RequestParser` is the object itself, with methods proved to follow them. */
module RequestParsing {
  import opened Wrappers
  import opened Text
  import opened Decimal
  import opened HttpTypes

  /** The four states of the parser (enum `parse_state`), in the order they are visited. */
  datatype Phase = FirstLine | HeaderLines | Body | Done

  /** The position of a phase in the enum ordering: the source compares states with `<`. */
  function Rank(ph: Phase): nat {
    match ph
    case FirstLine => 0
    case HeaderLines => 1
    case Body => 2
    case Done => 3
  }

  /** Why `parse_next_packet` gave up; each is an exception in the source. */
  datatype ParseError =
    | BadRequest                    // `bad_request`: unknown method, empty header name or value
    | UriOutOfRange                 // `std::out_of_range` from `substr`: a request line without a space
    | ColonMissing                  // a header line without ':' (the source then strips past the end)
    | ContentLength(cause: StoullError)  // `std::stoull` rejected the content-length value
    | LengthTooLarge                // `std::length_error` from `reserve`: above `MaxStringSize`

  /** The result of feeding one packet. */
  datatype Outcome = NeedMore | Complete(request: Request) | Failed(error: ParseError)

  /** The fields of a `request_parser` object. */
  datatype ParserState = ParserState(
    phase: Phase,
    curLine: string,
    requestMethod: Method,
    uri: string,
    headers: seq<Header>,
    bodyRemaining: nat,
    body: string)

  /** A freshly constructed parser. */
  const Initial: ParserState := ParserState(FirstLine, [], Get, [], [], 0, [])

  /** What ends the request target on the request line. */
  const HttpMarker: string := " HTTP/"

  /** `std::string::max_size()` in libstdc++ on a 64-bit target: half the largest allocation
      (`PTRDIFF_MAX`), less one. `reserve` throws `std::length_error` above it. */
  const MaxStringSize: nat := 0x3FFF_FFFF_FFFF_FFFF

  /** The lower-cased header name that announces the body length. */
  const ContentLengthName: string := "content-length"

  /** `parse_method`: the method a token names, if it names one of the nine. */
  function ParseMethod(token: string): (r: Option<Method>)
    ensures forall m :: r == Some(m) <==> MethodName(m) == token
  {
    if token == "GET" then Some(Get)
    else if token == "HEAD" then Some(Head)
    else if token == "POST" then Some(Post)
    else if token == "PUT" then Some(Put)
    else if token == "DELETE" then Some(Delete)
    else if token == "CONNECT" then Some(Connect)
    else if token == "OPTIONS" then Some(Options)
    else if token == "TRACE" then Some(Trace)
    else if token == "PATCH" then Some(Patch)
    else None
  }

  /** The first-line branch of `add_current_line`: the method token runs up to the first
      space, the request target from there up to the first " HTTP/" (or the end of the line). */
  function ParseRequestLine(line: string): (r: Result<(Method, string), ParseError>)
    ensures r.Ok? ==>
              var (m, uri) := r.value;
              var k := |MethodName(m)|;
              k + 1 + |uri| <= |line| && line[..k] == MethodName(m) && line[k] == ' '
              && line[k + 1..k + 1 + |uri|] == uri
    ensures r.Err? ==> r.error == BadRequest || r.error == UriOutOfRange
  {
    var pos := IndexOrEnd(line, ' ');
    match ParseMethod(line[..pos])
    case None => Err(BadRequest)
    case Some(m) =>
      if pos == |line| then Err(UriOutOfRange)
      else
        var end := match FindFrom(line, HttpMarker, pos + 1)
          case None => |line|
          case Some(e) => e;
        Ok((m, line[pos + 1..end]))
  }

  /** The header branch of `add_current_line`: the name is what precedes the first ':',
      lower-cased; the value is what follows, without its leading spaces and cut at its last
      space. */
  function ParseHeaderLine(line: string): (r: Result<Header, ParseError>)
    ensures r == Err(ColonMissing) <==> ':' !in line
    ensures r.Err? ==> r.error == ColonMissing || r.error == BadRequest
    ensures r.Ok? ==>
              var k := IndexOrEnd(line, ':');
              0 < k < |line| && line[k] == ':' && ':' !in line[..k]
              && r.value.name == ToLower(line[..k])
              && r.value.value == HeaderValue(line[k + 1..]) && r.value.value != []
  {
    var pos := IndexOrEnd(line, ':');
    if pos == |line| then Err(ColonMissing)
    else
      var name := line[..pos];
      var value := HeaderValue(line[pos + 1..]);
      if name == [] || value == [] then Err(BadRequest)
      else Ok(Header(ToLower(name), value))
  }

  /** What follows the ':' of a header line, without its leading spaces and cut at its last
      space. */
  function HeaderValue(rest: string): (v: string)
    ensures v == [] || v[0] != ' '
    ensures var a := LeadingRun(rest, ' ');
            a + |v| <= |rest| && v == rest[a..a + |v|]
            && (a + |v| == |rest| || (rest[a + |v|] == ' ' && ' ' !in rest[a + |v| + 1..]))
            && (a + |v| == |rest| ==> ' ' !in v)
  {
    var v := rest[LeadingRun(rest, ' ')..];
    match FindLastChar(v, ' ')
    case None => v
    case Some(k) => v[..k]
  }

  /** `add_current_line`: interprets the buffered line `p.curLine`. On failure the fields are
      left as they were. */
  function AddLine(p: ParserState): (r: Result<ParserState, ParseError>)
    ensures r.Ok? ==> r.value.requestMethod == p.requestMethod && r.value.curLine == p.curLine
    ensures r.Ok? ==> r.value.body == p.body
    ensures r.Ok? && p.phase == FirstLine ==> r.value.phase == HeaderLines
    ensures r.Ok? && p.phase != FirstLine ==>
              r.value.phase == (if p.curLine == [] then Body else p.phase)
    ensures r.Ok? && p.phase != FirstLine && p.curLine != [] ==>
              ParseHeaderLine(p.curLine).Ok?
              && r.value.headers == p.headers + [ParseHeaderLine(p.curLine).value]
    ensures r.Ok? && (p.phase == FirstLine || p.curLine == []) ==> r.value.headers == p.headers
    ensures r.Ok? && p.phase == FirstLine ==>
              ParseRequestLine(p.curLine).Ok? && r.value.uri == ParseRequestLine(p.curLine).value.1
    ensures r.Ok? && p.phase != FirstLine ==> r.value.uri == p.uri
    ensures r.Ok? && LengthLine(p) ==>
              Stoull(ParseHeaderLine(p.curLine).value.value) == Ok(r.value.bodyRemaining)
              && r.value.bodyRemaining <= MaxStringSize
    ensures r.Ok? && !LengthLine(p) ==> r.value.bodyRemaining == p.bodyRemaining
  {
    var line := p.curLine;
    if p.phase == FirstLine then
      match ParseRequestLine(line)
      case Err(e) => Err(e)
      case Ok((_, uri)) => Ok(p.(uri := uri, phase := HeaderLines))
    else if line == [] then
      Ok(p.(phase := Body))
    else
      match ParseHeaderLine(line)
      case Err(e) => Err(e)
      case Ok(h) =>
        if h.name == ContentLengthName then
          match Stoull(h.value)
          case Err(e) => Err(ContentLength(e))
          case Ok(n) =>
            if n > MaxStringSize then Err(LengthTooLarge)
            else Ok(p.(bodyRemaining := n, headers := p.headers + [h]))
        else
          Ok(p.(headers := p.headers + [h]))
  }

  /** The buffered line is a well-formed `content-length` header line. */
  predicate LengthLine(p: ParserState) {
    && p.phase != FirstLine && p.curLine != []
    && ParseHeaderLine(p.curLine).Ok? && ParseHeaderLine(p.curLine).value.name == ContentLengthName
  }

  /** Where the line-by-line loop of `parse_next_packet` stops: with the data it did not
      consume, or with the error a line raised. */
  datatype LinesResult =
    | Lines(state: ParserState, rest: string)
    | LinesFailed(state: ParserState, error: ParseError)

  /** The `while` loop of `parse_next_packet`: before the body, complete lines are cut at CRLF
      and interpreted one by one; a trailing fragment without CRLF is buffered. */
  function ConsumeLines(p: ParserState, data: string): (r: LinesResult)
    ensures r.state.requestMethod == p.requestMethod
    ensures Rank(p.phase) <= Rank(r.state.phase)
    ensures Rank(p.phase) <= 2 ==> Rank(r.state.phase) <= 2
    ensures r.Lines? ==> Rank(r.state.phase) >= 2 || r.rest == []
    ensures r.LinesFailed? ==> Rank(r.state.phase) < 2
    decreases |data|
  {
    if Rank(p.phase) >= 2 || data == [] then Lines(p, data)
    else match FindFrom(data, CRLF, 0)
      case None => Lines(p.(curLine := p.curLine + data), [])
      case Some(eol) =>
        var q := p.(curLine := p.curLine + data[..eol]);
        match AddLine(q)
        case Err(e) => LinesFailed(q, e)
        case Ok(q') => ConsumeLines(q'.(curLine := []), data[eol + 2..])
  }

  /** The body part of `parse_next_packet`: at most `bodyRemaining` bytes are taken, the rest
      of the packet is dropped, and the request is handed out when nothing remains. */
  function FeedBody(p: ParserState, data: string): (r: (ParserState, Outcome))
    ensures r.0.requestMethod == p.requestMethod
    ensures Rank(p.phase) <= Rank(r.0.phase)
    ensures r.1.Complete? <==> p.phase == Body && r.0.phase == Done
    ensures r.1.Complete? ==> r.1.request.requestMethod == p.requestMethod
    ensures !r.1.Failed?
    ensures r.0.headers == p.headers && r.0.uri == p.uri
  {
    if p.phase != Body then (p, NeedMore)
    else
      var take := if p.bodyRemaining >= |data| then |data| else p.bodyRemaining;
      var q := p.(body := p.body + data[..take], bodyRemaining := p.bodyRemaining - take);
      if q.bodyRemaining == 0 then
        (q.(phase := Done), Complete(Request(q.requestMethod, q.uri, q.headers, q.body)))
      else (q, NeedMore)
  }

  /** `parse_next_packet`: the parser's fields after one packet, and what the call returns. */
  function NextPacket(p: ParserState, data: string): (r: (ParserState, Outcome))
    ensures p.phase == Done ==> r == (p, NeedMore)
    ensures Rank(p.phase) <= Rank(r.0.phase)
    ensures r.0.requestMethod == p.requestMethod
    ensures r.1.Complete? <==> p.phase != Done && r.0.phase == Done
    ensures r.1.Complete? ==> r.1.request.requestMethod == p.requestMethod
    ensures r.1.Failed? ==> Rank(r.0.phase) < 2
  {
    if p.phase == Done then (p, NeedMore)
    else match ConsumeLines(p, data)
      case LinesFailed(q, e) => (q, Failed(e))
      case Lines(q, rest) => FeedBody(q, rest)
  }

  // ---------------------------------------------------------------------------------------
  // The request line

  /** A method name contains no space. */
  lemma {:induction false} MethodNameHasNoSpace(m: Method)
    ensures ' ' !in MethodName(m)
  {
  }

  /** Every request line the parser accepts is `METHOD SP target` followed either by nothing
      or by " HTTP/...", and the target holds no " HTTP/". */
  lemma {:induction false} RequestLineShape(line: string)
    requires ParseRequestLine(line).Ok?
    ensures var (m, uri) := ParseRequestLine(line).value;
            var n := |MethodName(m)| + 1 + |uri|;
            && n <= |line|
            && line[..n] == MethodName(m) + " " + uri
            && Free(uri, HttpMarker)
            && (n == |line| || OccursAt(line, HttpMarker, n))
  {
    var m, pos, end := RequestLineParts(line);
    SpaceBetween(line, pos, end, MethodName(m));
    FreeSlice(line, HttpMarker, pos + 1, end);
  }

  /** The text before `end` is what precedes the space at `pos`, the space, and what
      follows it. */
  lemma {:induction false} SpaceBetween(line: string, pos: nat, end: nat, head: string)
    requires pos < end <= |line| && line[pos] == ' ' && head == line[..pos]
    ensures line[..end] == head + " " + line[pos + 1..end]
  {
    assert line[..end] == line[..pos] + line[pos..end];
    assert line[pos..end] == [line[pos]] + line[pos + 1..end];
  }

  /** Where the accepted request line is cut: the method token ends at the space `pos`, the
      target at `end`. */
  lemma {:induction false} RequestLineParts(line: string) returns (m: Method, pos: nat, end: nat)
    requires ParseRequestLine(line).Ok?
    ensures pos < |line| && pos + 1 <= end <= |line| && line[pos] == ' '
    ensures MethodName(m) == line[..pos]
    ensures ParseRequestLine(line).value == (m, line[pos + 1..end])
    ensures end == |line| || OccursAt(line, HttpMarker, end)
    ensures forall i :: pos + 1 <= i < end ==> !OccursAt(line, HttpMarker, i)
  {
    pos := IndexOrEnd(line, ' ');
    m := ParseMethod(line[..pos]).value;
    var f := FindFrom(line, HttpMarker, pos + 1);
    end := if f.None? then |line| else f.value;
  }

  /** Conversely, every such line is accepted, and the target is recovered exactly. */
  lemma {:induction false} RequestLineParses(m: Method, uri: string, tail: string)
    requires Free(uri, HttpMarker)
    requires tail == [] || (|tail| >= |HttpMarker| && tail[..|HttpMarker|] == HttpMarker)
    ensures ParseRequestLine(MethodName(m) + " " + uri + tail) == Ok((m, uri))
  {
    MethodNameHasNoSpace(m);
    TargetBetween(MethodName(m), uri, tail);
  }

  /** In `token SP uri tail`, with no space in the token, the first space ends the token and
      the first " HTTP/" after it is the start of the tail, if the tail is not empty. */
  lemma {:induction false} TargetBetween(token: string, uri: string, tail: string)
    requires ' ' !in token
    requires Free(uri, HttpMarker)
    requires tail == [] || (|tail| >= |HttpMarker| && tail[..|HttpMarker|] == HttpMarker)
    ensures var line := token + " " + uri + tail;
            var k := |token|;
            && IndexOrEnd(line, ' ') == k && line[..k] == token
            && FindFrom(line, HttpMarker, k + 1) == (if tail == [] then None else Some(k + 1 + |uri|))
            && line[k + 1..k + 1 + |uri|] == uri
  {
    var line := token + " " + uri + tail;
    var k := |token|;
    var b := k + 1 + |uri|;
    assert line[..k] == token;
    assert line[k] == ' ';
    IndexOrEndAt(line, ' ', k);
    assert line[k + 1..b] == uri;
    assert line[b..] == tail;
    NoMarkerInTarget(line, k + 1, uri, tail);
    if tail == [] {
      FindFromNone(line, HttpMarker, k + 1);
    } else {
      assert line[b..b + |HttpMarker|] == tail[..|HttpMarker|];
      FindFromAt(line, HttpMarker, k + 1, b);
    }
  }

  /** No " HTTP/" starts inside a marker-free target that is followed by nothing or by a
      space: the marker's only space is its first character. */
  lemma {:induction false} NoMarkerInTarget(line: string, start: nat, uri: string, tail: string)
    requires start + |uri| + |tail| == |line|
    requires line[start..start + |uri|] == uri && line[start + |uri|..] == tail
    requires Free(uri, HttpMarker)
    requires tail == [] || tail[0] == ' '
    ensures forall i :: start <= i < start + |uri| ==> !OccursAt(line, HttpMarker, i)
  {
    var b := start + |uri|;
    forall i | start <= i < b
      ensures !OccursAt(line, HttpMarker, i)
    {
      var e := i + |HttpMarker|;
      if e <= b {
        SliceOfSlice(line, start, b, i - start, e - start);
        assert !OccursAt(uri, HttpMarker, i - start);
      } else if e <= |line| {
        // the marker would reach into the tail, whose first character is a space
        assert line[b] == tail[0] == ' ';
        assert line[i..e][b - i] == ' ';
        assert HttpMarker[b - i] != ' ';
      }
    }
  }

  /** A first line whose method token is none of the nine names is a bad request. */
  lemma {:induction false} RequestLineRejectsUnknownMethod(token: string, rest: string)
    requires ' ' !in token
    requires rest == [] || rest[0] == ' '
    requires forall m :: MethodName(m) != token
    ensures ParseRequestLine(token + rest) == Err(BadRequest)
  {
    var line := token + rest;
    assert line[..|token|] == token;
    assert IndexOrEnd(line, ' ') == |token|;
  }

  /** A first line that is a bare method name, with no space at all, makes `substr` throw. */
  lemma {:induction false} RequestLineWithoutTarget(m: Method)
    ensures ParseRequestLine(MethodName(m)) == Err(UriOutOfRange)
  {
    MethodNameHasNoSpace(m);
    var line := MethodName(m);
    assert line[..|line|] == line;
  }

  // ---------------------------------------------------------------------------------------
  // Header lines

  predicate AllSpaces(s: string) {
    forall k :: 0 <= k < |s| ==> s[k] == ' '
  }

  /** A header line `name ":" spaces value tail` is accepted, where the value does not start
      with a space and `tail` is empty or starts at the last space: the name is lower-cased and
      the value is cut at that space. */
  lemma {:induction false} HeaderLineParses(raw: string, spaces: string, value: string, tail: string)
    requires raw != [] && ':' !in raw
    requires AllSpaces(spaces)
    requires value != [] && value[0] != ' '
    requires (tail == [] && ' ' !in value) || (tail != [] && tail[0] == ' ' && ' ' !in tail[1..])
    ensures ParseHeaderLine(raw + ":" + spaces + value + tail) == Ok(Header(ToLower(raw), value))
  {
    var rest := spaces + value + tail;
    var line := raw + ":" + rest;
    assert raw + ":" + spaces + value + tail == line;
    assert IndexOrEnd(line, ':') == |raw| by {
      assert line[..|raw|] == raw;
      IndexOrEndAt(line, ':', |raw|);
    }
    assert line[..|raw|] == raw && line[|raw| + 1..] == rest;
    assert HeaderValue(rest) == value by {
      HeaderValueParses(spaces, value, tail);
    }
  }

  /** The value extracted from `spaces value tail` is `value`. */
  lemma {:induction false} HeaderValueParses(spaces: string, value: string, tail: string)
    requires AllSpaces(spaces)
    requires value != [] && value[0] != ' '
    requires (tail == [] && ' ' !in value) || (tail != [] && tail[0] == ' ' && ' ' !in tail[1..])
    ensures HeaderValue(spaces + value + tail) == value
  {
    var v := value + tail;
    assert spaces + value + tail == spaces + v;
    LeadingRunAt(spaces, v, ' ');
    assert (spaces + v)[|spaces|..] == v;
    if tail == [] {
      assert v == value;
    } else {
      assert v[|value| + 1..] == tail[1..];
      FindLastCharAt(v, ' ', |value|);
      assert v[..|value|] == value;
    }
  }

  /** A header line without ':' is not accepted. */
  lemma {:induction false} HeaderLineWithoutColon(line: string)
    requires ':' !in line
    ensures ParseHeaderLine(line) == Err(ColonMissing)
  {
  }

  /** A header line with an empty name is a bad request. */
  lemma {:induction false} HeaderLineWithoutName(rest: string)
    ensures ParseHeaderLine(":" + rest) == Err(BadRequest)
  {
    var line := ":" + rest;
    assert line[0] == ':';
  }

  /** A header line whose value is empty or only spaces is a bad request. */
  lemma {:induction false} HeaderLineWithoutValue(raw: string, spaces: string)
    requires ':' !in raw
    requires AllSpaces(spaces)
    ensures ParseHeaderLine(raw + ":" + spaces) == Err(BadRequest)
  {
    var line := raw + ":" + spaces;
    assert line[..|raw|] == raw;
    assert line[|raw|] == ':';
    assert line[|raw| + 1..] == spaces;
    assert spaces + [] == spaces;
    LeadingRunAt(spaces, [], ' ');
  }

  // ---------------------------------------------------------------------------------------
  // One packet at a time

  /** A packet without CRLF that arrives before the body only extends the buffered line. */
  lemma {:induction false} PartialLineIsBuffered(p: ParserState, data: string)
    requires Rank(p.phase) < 2
    requires data != [] && Free(data, CRLF)
    ensures NextPacket(p, data) == (p.(curLine := p.curLine + data), NeedMore)
  {
  }

  /** A request line whose method token is unknown makes the call fail with `BadRequest`;
      the line stays buffered. */
  lemma {:induction false} UnknownMethodIsBadRequest(p: ParserState, line: string, rest: string,
                                  token: string, after: string)
    requires p.phase == FirstLine
    requires Free(line, CRLF)
    requires p.curLine + line == token + after
    requires ' ' !in token && (after == [] || after[0] == ' ')
    requires forall m :: MethodName(m) != token
    ensures NextPacket(p, line + CRLF + rest) == (p.(curLine := p.curLine + line), Failed(BadRequest))
  {
    var data := line + CRLF + rest;
    FirstCrlfAfter(line, rest);
    assert data[..|line|] == line;
    RequestLineRejectsUnknownMethod(token, after);
  }

  /** The body length announced by the headers: the value of the last `content-length`
      header (names are already lower-cased), or 0 when there is none. */
  function DeclaredLength(hs: seq<Header>): nat {
    if hs == [] then 0
    else
      var h := hs[|hs| - 1];
      if h.name == ContentLengthName && Stoull(h.value).Ok? then Stoull(h.value).value
      else DeclaredLength(hs[..|hs| - 1])
  }

  /** What holds of the parser's fields between calls: the method is the initial `Get`
      (the parsed one is never stored), before the body nothing of it has been collected and
      `bodyRemaining` is the announced length, and from the body on the collected bytes and
      the remaining count add up to that length. */
  predicate Valid(p: ParserState) {
    && p.requestMethod == Get
    && (Rank(p.phase) < 2 ==> p.body == [] && p.bodyRemaining == DeclaredLength(p.headers))
    && (Rank(p.phase) >= 2 ==>
          p.curLine == [] && |p.body| + p.bodyRemaining == DeclaredLength(p.headers))
    && (p.phase == Done ==> p.bodyRemaining == 0)
  }

  lemma {:induction false} InitialIsValid()
    ensures Valid(Initial)
  {
  }

  lemma {:induction false} AddLinePreservesValid(p: ParserState)
    requires Valid(p) && Rank(p.phase) < 2
    requires AddLine(p).Ok?
    ensures Valid(AddLine(p).value.(curLine := []))
  {
    if p.phase != FirstLine && p.curLine != [] {
      var h := ParseHeaderLine(p.curLine).value;
      var hs := p.headers + [h];
      assert hs[..|hs| - 1] == p.headers;
    }
  }

  lemma {:induction false} ConsumeLinesPreservesValid(p: ParserState, data: string)
    requires Valid(p)
    ensures Valid(ConsumeLines(p, data).state)
    decreases |data|
  {
    if Rank(p.phase) < 2 && data != [] {
      match FindFrom(data, CRLF, 0)
      case None =>
        PartialLineStep(p, data);
      case Some(eol) =>
        assert OccursAt(data, CRLF, eol);
        var q := p.(curLine := p.curLine + data[..eol]);
        match AddLine(q)
        case Err(e) =>
          LineFails(p, data, eol, e);
        case Ok(q') =>
          AddLinePreservesValid(q);
          LineAccepted(p, data, eol, q');
          ConsumeLinesPreservesValid(q'.(curLine := []), data[eol + 2..]);
    }
  }

  /** `hs` starts with `prefix`. */
  predicate Extends(hs: seq<Header>, prefix: seq<Header>) {
    |prefix| <= |hs| && hs[..|prefix|] == prefix
  }

  lemma {:induction false} ExtendsTrans(a: seq<Header>, b: seq<Header>, c: seq<Header>)
    requires Extends(b, a) && Extends(c, b)
    ensures Extends(c, a)
  {
    assert c[..|a|] == c[..|b|][..|a|];
  }

  /** An accepted line adds at most one header, at the end. */
  lemma {:induction false} AddLineKeepsHeaders(p: ParserState)
    requires AddLine(p).Ok?
    ensures Extends(AddLine(p).value.headers, p.headers)
  {
    assert p.headers[..|p.headers|] == p.headers;
    if p.phase != FirstLine && p.curLine != [] {
      assert (p.headers + [ParseHeaderLine(p.curLine).value])[..|p.headers|] == p.headers;
    }
  }

  /** The line loop only appends headers: those already collected stay, in their order. */
  lemma {:induction false} ConsumeLinesKeepsHeaders(p: ParserState, data: string)
    ensures Extends(ConsumeLines(p, data).state.headers, p.headers)
    decreases |data|
  {
    if Rank(p.phase) < 2 && data != [] {
      match FindFrom(data, CRLF, 0)
      case None =>
        PartialLineStep(p, data);
        assert p.headers[..|p.headers|] == p.headers;
      case Some(eol) =>
        assert OccursAt(data, CRLF, eol);
        var q := p.(curLine := p.curLine + data[..eol]);
        match AddLine(q)
        case Err(e) =>
          LineFails(p, data, eol, e);
          assert p.headers[..|p.headers|] == p.headers;
        case Ok(q') =>
          LineAccepted(p, data, eol, q');
          AddLineKeepsHeaders(q);
          ConsumeLinesKeepsHeaders(q'.(curLine := []), data[eol + 2..]);
          ExtendsTrans(p.headers, q'.headers, ConsumeLines(p, data).state.headers);
    } else {
      assert p.headers[..|p.headers|] == p.headers;
    }
  }

  /** A call only appends headers, each complete header line in the order it arrived. */
  lemma {:induction false} NextPacketKeepsHeaders(p: ParserState, data: string)
    ensures Extends(NextPacket(p, data).0.headers, p.headers)
  {
    if p.phase != Done {
      ConsumeLinesKeepsHeaders(p, data);
    } else {
      assert p.headers[..|p.headers|] == p.headers;
    }
  }

  /** After the first line the target is never touched again. */
  lemma {:induction false} ConsumeLinesKeepsUri(p: ParserState, data: string)
    requires p.phase != FirstLine
    ensures ConsumeLines(p, data).state.uri == p.uri
    ensures ConsumeLines(p, data).state.phase != FirstLine
    decreases |data|
  {
    if Rank(p.phase) < 2 && data != [] {
      match FindFrom(data, CRLF, 0)
      case None =>
        PartialLineStep(p, data);
      case Some(eol) =>
        assert OccursAt(data, CRLF, eol);
        var q := p.(curLine := p.curLine + data[..eol]);
        match AddLine(q)
        case Err(e) =>
          LineFails(p, data, eol, e);
        case Ok(q') =>
          LineAccepted(p, data, eol, q');
          ConsumeLinesKeepsUri(q'.(curLine := []), data[eol + 2..]);
    }
  }

  /** A call after the first line keeps the target, and a request it returns carries it. */
  lemma {:induction false} NextPacketKeepsUri(p: ParserState, data: string)
    requires p.phase != FirstLine
    ensures NextPacket(p, data).0.uri == p.uri
    ensures NextPacket(p, data).1.Complete? ==> NextPacket(p, data).1.request.uri == p.uri
  {
    if p.phase != Done {
      ConsumeLinesKeepsUri(p, data);
    }
  }

  /** A packet that completes the first line stores that line's target, and a request the
      same packet completes carries it. */
  lemma {:induction false} FirstLineSetsUri(p: ParserState, line: string, rest: string)
    requires p.phase == FirstLine && Free(line, CRLF)
    requires ParseRequestLine(p.curLine + line).Ok?
    ensures var r := NextPacket(p, line + CRLF + rest);
            var target := ParseRequestLine(p.curLine + line).value.1;
            r.0.phase != FirstLine && r.0.uri == target
            && (r.1.Complete? ==> r.1.request.uri == target)
  {
    var data := line + CRLF + rest;
    FirstCrlfAfter(line, rest);
    assert data[..|line|] == line;
    assert data[|line| + 2..] == rest;
    var q := p.(curLine := p.curLine + line);
    var q' := AddLine(q).value;
    LineAccepted(p, data, |line|, q');
    ConsumeLinesKeepsUri(q'.(curLine := []), rest);
  }

  /** From a consistent state, a call keeps the state consistent, and any request it returns
      has method `Get` and exactly the announced number of body bytes. */
  lemma {:induction false} NextPacketPreservesValid(p: ParserState, data: string)
    requires Valid(p)
    ensures Valid(NextPacket(p, data).0)
    ensures NextPacket(p, data).1.Complete? ==> WellFormed(NextPacket(p, data).1.request)
  {
    if p.phase != Done {
      ConsumeLinesPreservesValid(p, data);
    }
  }

  /** After the empty line, with no body announced, the request is complete at once; what
      follows the empty line in the packet is dropped. */
  lemma {:induction false} EmptyLineCompletes(p: ParserState, rest: string)
    requires Valid(p) && p.phase == HeaderLines && p.curLine == []
    requires DeclaredLength(p.headers) == 0
    ensures NextPacket(p, CRLF + rest)
            == (p.(phase := Done), Complete(Request(Get, p.uri, p.headers, [])))
  {
    var data := CRLF + rest;
    FirstCrlfAfter([], rest);
    assert [] + CRLF + rest == data;
    assert data[..0] == [];
    var q := p.(curLine := p.curLine + data[..0]);
    assert q == p;
    var b := p.(phase := Body);
    assert AddLine(q) == Ok(b);
    assert data[2..] == rest;
    assert ConsumeLines(p, data) == ConsumeLines(b.(curLine := []), rest);
    assert b.(curLine := []) == b;
    assert ConsumeLines(b, rest) == Lines(b, rest);
    assert b.bodyRemaining == 0;
    assert rest[..0] == [];
    var c := b.(body := b.body + rest[..0], bodyRemaining := 0);
    assert c == b;
    assert FeedBody(b, rest) == (b.(phase := Done), Complete(Request(Get, p.uri, p.headers, [])));
  }

  /** In the body, a packet supplies at most the remaining bytes; the request is complete once
      none remain, and the bytes beyond are dropped. */
  lemma {:induction false} BodyIsCollected(p: ParserState, data: string)
    requires Valid(p) && p.phase == Body
    ensures NextPacket(p, data) ==
      if |data| >= p.bodyRemaining then
        var body := p.body + data[..p.bodyRemaining];
        (p.(phase := Done, body := body, bodyRemaining := 0),
         Complete(Request(Get, p.uri, p.headers, body)))
      else
        (p.(body := p.body + data, bodyRemaining := p.bodyRemaining - |data|), NeedMore)
  {
    assert data[..|data|] == data;
  }

  /** The empty line is always accepted, whatever body length was announced: the rest of
      the packet goes straight to the body step. */
  lemma {:induction false} EmptyLineStartsBody(p: ParserState, rest: string)
    requires p.phase == HeaderLines && p.curLine == []
    ensures NextPacket(p, CRLF + rest) == FeedBody(p.(phase := Body), rest)
  {
    var data := CRLF + rest;
    FirstCrlfAfter([], rest);
    assert [] + CRLF + rest == data;
    assert data[..0] == [];
    var q := p.(curLine := p.curLine + data[..0]);
    assert q == p;
    var b := p.(phase := Body);
    assert AddLine(q) == Ok(b);
    assert data[2..] == rest;
    assert ConsumeLines(p, data) == ConsumeLines(b.(curLine := []), rest);
    assert b.(curLine := []) == b;
    assert ConsumeLines(b, rest) == Lines(b, rest);
  }

  /** After the headers, the empty line and whatever follows it in the packet: with the
      announced number of body bytes present the request is complete and carries exactly
      those bytes; with fewer, they are collected and the parser waits for more. */
  lemma {:induction false} HeadersEndThenBody(p: ParserState, rest: string)
    requires Valid(p) && p.phase == HeaderLines && p.curLine == []
    ensures var n := DeclaredLength(p.headers);
            NextPacket(p, CRLF + rest) ==
              if |rest| >= n then
                (p.(phase := Done, body := rest[..n], bodyRemaining := 0),
                 Complete(Request(Get, p.uri, p.headers, rest[..n])))
              else
                (p.(phase := Body, body := rest, bodyRemaining := n - |rest|), NeedMore)
  {
    EmptyLineStartsBody(p, rest);
    var b := p.(phase := Body);
    assert Valid(b);
    BodyIsCollected(b, rest);
    assert NextPacket(b, rest) == FeedBody(b, rest);
    var n := DeclaredLength(p.headers);
    assert p.body == [] && p.bodyRemaining == n;
    if |rest| >= n {
      assert p.body + rest[..n] == rest[..n];
    } else {
      assert p.body + rest == rest;
    }
  }

  /** When `add_current_line` succeeds: a request line exactly when it parses; the empty line
      always; a `content-length` line exactly when its value converts and fits a string; any
      other header line exactly when it parses. */
  lemma {:induction false} AddLineAccepts(p: ParserState)
    ensures p.phase == FirstLine ==> (AddLine(p).Ok? <==> ParseRequestLine(p.curLine).Ok?)
    ensures p.phase != FirstLine && p.curLine == [] ==> AddLine(p) == Ok(p.(phase := Body))
    ensures LengthLine(p) ==>
              var n := Stoull(ParseHeaderLine(p.curLine).value.value);
              (AddLine(p).Ok? <==> n.Ok? && n.value <= MaxStringSize)
    ensures p.phase != FirstLine && p.curLine != [] && !LengthLine(p) ==>
              (AddLine(p).Ok? <==> ParseHeaderLine(p.curLine).Ok?)
  {
    if p.phase == FirstLine {
      AddLineOnRequestLine(p);
    } else if p.curLine != [] {
      AddLineOnHeaderLine(p);
    }
  }

  // ---------------------------------------------------------------------------------------
  // A sequence of packets

  /** Feeding the packets of one connection in order: the final state and each call's outcome. */
  function Run(p: ParserState, packets: seq<string>): (r: (ParserState, seq<Outcome>))
    ensures |r.1| == |packets|
    decreases |packets|
  {
    if packets == [] then (p, [])
    else
      var step := NextPacket(p, packets[0]);
      var later := Run(step.0, packets[1..]);
      (later.0, [step.1] + later.1)
  }

  /** A consistent parser stays consistent over any sequence of packets. */
  lemma {:induction false} RunStaysValid(p: ParserState, packets: seq<string>)
    requires Valid(p)
    ensures Valid(Run(p, packets).0)
    decreases |packets|
  {
    if packets != [] {
      NextPacketPreservesValid(p, packets[0]);
      RunStaysValid(NextPacket(p, packets[0]).0, packets[1..]);
    }
  }

  /** Every request a consistent parser returns, at whichever packet, has method `Get` and
      exactly as many body bytes as its headers announce. */
  lemma {:induction false} RunRequests(p: ParserState, packets: seq<string>, i: nat)
    requires Valid(p)
    requires i < |packets| && Run(p, packets).1[i].Complete?
    ensures WellFormed(Run(p, packets).1[i].request)
    decreases |packets|
  {
    var q := NextPacket(p, packets[0]).0;
    NextPacketPreservesValid(p, packets[0]);
    if i > 0 {
      RunCons(p, packets);
      assert Run(p, packets).1[i] == Run(q, packets[1..]).1[i - 1];
      RunRequests(q, packets[1..], i - 1);
    }
  }

  /** What every returned request satisfies. */
  predicate WellFormed(req: Request) {
    req.requestMethod == Get && |req.body| == DeclaredLength(req.headers)
  }

  /** Once done, a parser returns nothing more and stays as it is. */
  lemma {:induction false} RunWhenDone(p: ParserState, packets: seq<string>)
    requires p.phase == Done
    ensures Run(p, packets).0 == p
    ensures forall i :: 0 <= i < |packets| ==> Run(p, packets).1[i] == NeedMore
    decreases |packets|
  {
    if packets != [] {
      RunWhenDone(p, packets[1..]);
    }
  }

  /** A parser hands out at most one request over its lifetime. */
  lemma {:induction false} RunYieldsAtMostOne(p: ParserState, packets: seq<string>)
    ensures AtMostOneComplete(Run(p, packets).1)
    decreases |packets|
  {
    if packets != [] {
      var step := NextPacket(p, packets[0]);
      RunCons(p, packets);
      RunYieldsAtMostOne(step.0, packets[1..]);
      if step.1.Complete? {
        RunWhenDone(step.0, packets[1..]);
      }
      AtMostOneCons(step.1, Run(step.0, packets[1..]).1);
    }
  }

  /** No two outcomes in `os` hand out a request. */
  predicate AtMostOneComplete(os: seq<Outcome>) {
    forall i, j :: 0 <= i < j < |os| && os[i].Complete? ==> !os[j].Complete?
  }

  /** A request followed only by `NeedMore`, or no request followed by at most one. */
  lemma {:induction false} AtMostOneCons(o: Outcome, later: seq<Outcome>)
    requires AtMostOneComplete(later)
    requires o.Complete? ==> forall k :: 0 <= k < |later| ==> later[k] == NeedMore
    ensures AtMostOneComplete([o] + later)
  {
    var os := [o] + later;
    forall i, j | 0 <= i < j < |os| && os[i].Complete?
      ensures !os[j].Complete?
    {
      assert os[j] == later[j - 1];
      if i > 0 {
        assert os[i] == later[i - 1];
      }
    }
  }

  /** `Run` on a non-empty sequence: the first packet's outcome, then the run from its state. */
  lemma {:induction false} RunCons(p: ParserState, packets: seq<string>)
    requires packets != []
    ensures var step := NextPacket(p, packets[0]);
            Run(p, packets).1 == [step.1] + Run(step.0, packets[1..]).1
  {
  }

  /** Over a run the headers collected at the start are never removed or reordered. */
  lemma {:induction false} RunKeepsHeaders(p: ParserState, packets: seq<string>)
    ensures Extends(Run(p, packets).0.headers, p.headers)
    decreases |packets|
  {
    if packets == [] {
      assert p.headers[..|p.headers|] == p.headers;
    } else {
      var q := NextPacket(p, packets[0]).0;
      NextPacketKeepsHeaders(p, packets[0]);
      RunKeepsHeaders(q, packets[1..]);
      ExtendsTrans(p.headers, q.headers, Run(p, packets).0.headers);
    }
  }

  /** The phase never moves backwards over a run. */
  lemma {:induction false} RunIsMonotone(p: ParserState, packets: seq<string>)
    ensures Rank(p.phase) <= Rank(Run(p, packets).0.phase)
    decreases |packets|
  {
    if packets != [] {
      RunIsMonotone(NextPacket(p, packets[0]).0, packets[1..]);
    }
  }

  /** The `content-length` test on the lower-cased name accepts exactly the names that spell
      `content-length` in any mix of ASCII case. */
  lemma {:induction false} ContentLengthNameAnyCase(raw: string)
    ensures ToLower(raw) == ContentLengthName <==> EqualIgnoringCase(raw, ContentLengthName)
  {
    assert ToLower(ContentLengthName) == ContentLengthName;
    ToLowerCaseInsensitive(raw, ContentLengthName);
  }

  /** A `content-length` header line, whatever the case of its name, sets the body length to
      its value, unless `reserve` would refuse that length. */
  lemma {:induction false} ContentLengthHeader(p: ParserState, raw: string, n: nat)
    requires p.phase == HeaderLines
    requires ':' !in raw && ToLower(raw) == ContentLengthName && n <= MaxU64
    requires p.curLine == raw + ": " + Show(n)
    ensures n <= MaxStringSize ==>
              AddLine(p) == Ok(p.(bodyRemaining := n,
                                  headers := p.headers + [Header(ContentLengthName, Show(n))]))
    ensures n > MaxStringSize ==> AddLine(p) == Err(LengthTooLarge)
  {
    var digits := Show(n);
    assert ' ' !in digits by {
      forall k | 0 <= k < |digits|
        ensures digits[k] != ' '
      {
        assert IsDigit(digits[k]);
      }
    }
    assert raw != [] by { assert |ToLower(raw)| == |raw|; }
    assert ParseHeaderLine(p.curLine) == Ok(Header(ContentLengthName, digits)) by {
      assert p.curLine == raw + ":" + " " + digits + [];
      HeaderLineParses(raw, " ", digits, []);
    }
    StoullOfShow(n);
    AddLineOnHeaderLine(p);
  }

  // ---------------------------------------------------------------------------------------
  // Single steps of the line loop, as the parser object takes them

  lemma {:induction false} PartialLineStep(p: ParserState, data: string)
    requires p.phase != Done && Rank(p.phase) < 2 && data != [] && FindFrom(data, CRLF, 0).None?
    ensures ConsumeLines(p, data) == Lines(p.(curLine := p.curLine + data), [])
  {
  }

  /** A complete line that `add_current_line` rejects stops the loop with its error. */
  lemma {:induction false} LineFails(p: ParserState, data: string, eol: nat, e: ParseError)
    requires Rank(p.phase) < 2 && data != [] && FindFrom(data, CRLF, 0) == Some(eol)
    requires AddLine(p.(curLine := p.curLine + data[..eol])) == Err(e)
    ensures ConsumeLines(p, data) == LinesFailed(p.(curLine := p.curLine + data[..eol]), e)
  {
  }

  /** A complete line that `add_current_line` accepts: the loop goes on after its CRLF. */
  lemma {:induction false} LineAccepted(p: ParserState, data: string, eol: nat, q: ParserState)
    requires Rank(p.phase) < 2 && data != [] && FindFrom(data, CRLF, 0) == Some(eol)
    requires AddLine(p.(curLine := p.curLine + data[..eol])) == Ok(q)
    requires eol + 2 <= |data|
    ensures ConsumeLines(p, data) == ConsumeLines(q.(curLine := []), data[eol + 2..])
  {
  }

  /** `AddLine` on the request line, case by case. */
  lemma {:induction false} AddLineOnRequestLine(p: ParserState)
    requires p.phase == FirstLine
    ensures ParseRequestLine(p.curLine).Err? ==> AddLine(p) == Err(ParseRequestLine(p.curLine).error)
    ensures ParseRequestLine(p.curLine).Ok? ==>
              AddLine(p) == Ok(p.(uri := ParseRequestLine(p.curLine).value.1, phase := HeaderLines))
  {
  }

  /** `AddLine` on a header line, case by case. */
  lemma {:induction false} AddLineOnHeaderLine(p: ParserState)
    requires p.phase != FirstLine && p.curLine != []
    ensures var h := ParseHeaderLine(p.curLine);
            && (h.Err? ==> AddLine(p) == Err(h.error))
            && (h.Ok? && h.value.name != ContentLengthName ==>
                  AddLine(p) == Ok(p.(headers := p.headers + [h.value])))
            && (h.Ok? && h.value.name == ContentLengthName && Stoull(h.value.value).Err? ==>
                  AddLine(p) == Err(ContentLength(Stoull(h.value.value).error)))
            && (h.Ok? && h.value.name == ContentLengthName && Stoull(h.value.value).Ok? ==>
                  AddLine(p) == if Stoull(h.value.value).value > MaxStringSize then Err(LengthTooLarge)
                                else Ok(p.(bodyRemaining := Stoull(h.value.value).value,
                                           headers := p.headers + [h.value])))
  {
  }

  // ---------------------------------------------------------------------------------------
  // The parser object

  /** A `request_parser`: the fields change from call to call as packets arrive. */
  class RequestParser {
    var phase: Phase
    var curLine: string
    var requestMethod: Method
    var uri: string
    var headers: seq<Header>
    var bodyRemaining: nat
    var body: string

    /** The fields, as a value. */
    function State(): ParserState
      reads this
    {
      ParserState(phase, curLine, requestMethod, uri, headers, bodyRemaining, body)
    }

    constructor ()
      ensures State() == Initial
    {
      phase := FirstLine;
      curLine := [];
      requestMethod := Get;
      uri := [];
      headers := [];
      bodyRemaining := 0;
      body := [];
    }

    /** `parse_next_packet`: consumes one packet; returns the request once it is complete. */
    method ParseNextPacket(data: string) returns (out: Outcome)
      modifies this
      ensures (State(), out) == NextPacket(old(State()), data)
    {
      if phase == Done {
        return NeedMore;
      }
      var rest, err := ReadLines(data);
      if err.Some? {
        return Failed(err.value);
      }
      out := CollectBody(rest);
    }

    /** The `while` loop of `parse_next_packet`: complete lines are handed on one at a time
        until the body is reached or the packet is used up; a partial line is kept, and
        nothing of the packet is then left for the body. */
    method ReadLines(data: string) returns (rest: string, err: Option<ParseError>)
      modifies this
      ensures err.Some? ==> ConsumeLines(old(State()), data) == LinesFailed(State(), err.value)
      ensures err.None? ==> ConsumeLines(old(State()), data) == Lines(State(), rest)
    {
      ghost var start := State();
      rest := data;
      while Rank(phase) < Rank(Body) && rest != []
        invariant ConsumeLines(start, data) == ConsumeLines(State(), rest)
        decreases |rest|
      {
        var eol := FindFrom(rest, CRLF, 0);
        if eol.None? {
          // a partial line: keep it for the next packet
          PartialLineStep(State(), rest);
          curLine := curLine + rest;
          return [], None;
        }
        rest, err := TakeLine(rest, eol.value);
        if err.Some? {
          return;
        }
      }
      err := None;
    }

    /** One complete line of the loop in `parse_next_packet`: the line is handed to
        `add_current_line`, and on success the buffer is cleared for the next one. */
    method TakeLine(rest: string, eol: nat) returns (rest': string, err: Option<ParseError>)
      requires Rank(phase) < 2 && rest != [] && FindFrom(rest, CRLF, 0) == Some(eol)
      modifies this
      ensures err.Some? ==> ConsumeLines(old(State()), rest) == LinesFailed(State(), err.value)
      ensures err.None? ==> ConsumeLines(old(State()), rest) == ConsumeLines(State(), rest')
      ensures |rest'| < |rest|
    {
      ghost var before := State();
      assert OccursAt(rest, CRLF, eol);
      curLine := curLine + rest[..eol];
      rest' := rest[eol + 2..];
      err := AddCurrentLine();
      if err.Some? {
        LineFails(before, rest, eol, err.value);
        return;
      }
      LineAccepted(before, rest, eol, State());
      curLine := [];
    }

    /** The second half of `parse_next_packet`: checks whether the packet brings body data and
        whether the body is then complete. */
    method CollectBody(rest: string) returns (out: Outcome)
      modifies this
      ensures (State(), out) == FeedBody(old(State()), rest)
    {
      if phase == Body {
        if bodyRemaining >= |rest| {
          body := body + rest;
          bodyRemaining := bodyRemaining - |rest|;
          assert rest[..|rest|] == rest;
        } else {
          body := body + rest[..bodyRemaining];
          bodyRemaining := 0;
        }
        if bodyRemaining == 0 {
          phase := Done;
          return Complete(Request(requestMethod, uri, headers, body));
        }
      }
      return NeedMore;
    }

    /** `add_current_line`: interprets the buffered line; on failure nothing changes. */
    method AddCurrentLine() returns (err: Option<ParseError>)
      modifies this
      ensures match AddLine(old(State()))
              case Ok(q) => err == None && State() == q
              case Err(e) => err == Some(e) && State() == old(State())
    {
      if phase == FirstLine {
        err := AddRequestLine();
      } else if curLine == [] {
        phase := Body;
        err := None;
      } else {
        err := AddHeaderLine();
      }
    }

    /** The request-line branch of `add_current_line`. */
    method AddRequestLine() returns (err: Option<ParseError>)
      requires phase == FirstLine
      modifies this
      ensures match AddLine(old(State()))
              case Ok(q) => err == None && State() == q
              case Err(e) => err == Some(e) && State() == old(State())
    {
      AddLineOnRequestLine(State());
      var parsed := ParseRequestLine(curLine);
      if parsed.Err? {
        return Some(parsed.error);
      }
      // the parsed method is bound to a local and dropped; only the target is kept
      uri := parsed.value.1;
      phase := HeaderLines;
      return None;
    }

    /** The header-line branch of `add_current_line`. */
    method AddHeaderLine() returns (err: Option<ParseError>)
      requires phase != FirstLine && curLine != []
      modifies this
      ensures match AddLine(old(State()))
              case Ok(q) => err == None && State() == q
              case Err(e) => err == Some(e) && State() == old(State())
    {
      AddLineOnHeaderLine(State());
      var h := ParseHeaderLine(curLine);
      if h.Err? {
        return Some(h.error);
      }
      if h.value.name == ContentLengthName {
        var n := Stoull(h.value.value);
        if n.Err? {
          return Some(ContentLength(n.error));
        }
        if n.value > MaxStringSize {
          return Some(LengthTooLarge);
        }
        bodyRemaining := n.value;
      }
      headers := headers + [h.value];
      return None;
    }
  }
}
