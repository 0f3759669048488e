# HTTP layer of the structured-concurrency image server

The server accepts HTTP/1.1 connections and answers image-transform requests. This project
models the part of it that handles plain text and data, away from sockets and image code:

- the incremental request parser (`request_parser`). It is fed a connection's packets one
  at a time. It buffers partial lines, parses the request line and the header fields,
  reads `content-length`, and collects that many body bytes.
- the splitting of a request target into its path and query parameters (`parse_uri`,
  `parse_one_param`).
- the construction of responses (`create_response`, four overloads).
- the serialisation of a response into an ordered list of buffers (`to_buffers`,
  `status_code_to_string`).
- the loop that writes those buffers to the socket and sums the bytes accepted
  (`write_http_response`).
- the integer query parameters of the transform handlers (`sv_to_int`, `get_param_int`).

Modules, one per source file, plus shared helper modules (`Wrappers`, `Text`, `Decimal`)
and one module for the types of several headers (`HttpTypes`):

| module | file | source |
|---|---|---|
| `Wrappers` | wrappers.dfy | the `Option` and `Result` types |
| `Text` | text.dfy | the `std::string_view` searches the code relies on |
| `Decimal` | decimal.dfy | decimal digit strings and `std::stoull` |
| `HttpTypes` | http_types.dfy | methods, headers, requests, status codes, responses |
| `RequestParsing` | request_parser.dfy | `request_parser` |
| `UriParsing` | parsed_uri.dfy | `parse_uri`, `parse_one_param` |
| `ResponseBuffers` | to_buffers.dfy | `to_buffers`, `status_code_to_string` |
| `ResponseFactory` | create_response.dfy | the four `create_response` overloads |
| `TransformParams` | transform_params.dfy | `sv_to_int`, `get_param_int` |
| `ResponseWriter` | write_response.dfy | `write_http_response` |

The form of the model follows the form of the code:

- **`RequestParser`** is a class whose fields are the parser's fields. Its methods
  `ParseNextPacket`, `AddCurrentLine` and `CollectBody` update those fields the way the
  C++ methods do, with the same `while` loop over the packet. Each is proved equal to a
  function of the old fields: `NextPacket`, `AddLine` and `FeedBody`. The loop sits in
  `ReadLines`, one complete line of it in `TakeLine`, and the two branches of
  `add_current_line` that parse a line in `AddRequestLine` and `AddHeaderLine`; each of
  these is proved equal to the matching part of the functions. The properties of a
  connection's whole life are lemmas about `Run`, which folds `NextPacket` over a sequence
  of packets.
- **Loops become methods.** The `parse_uri` loop, the `to_buffers` loop, the
  `sv_to_int` accumulation, the `get_param_int` search and the nested write loops
  (`WriteBuffers` around `WriteBuffer`) are methods with loop invariants. Each is proved against a specification function.
- **Pure code becomes functions and lemmas:** `parse_one_param`, `status_code_to_string`
  and the `create_response` overloads.

Exceptions in the source become error values:

- `bad_request`, the `std::out_of_range` thrown by `substr`, the two exceptions of
  `std::stoull` and the `std::length_error` thrown by `reserve` are the constructors of
  `ParseError`.
- A parse that throws is the outcome `Failed(e)`.
- The state left behind after a throw is the state at the point of the throw.

## Model

| member | source | states |
|---|---|---|
| HttpTypes.Code | src/http_server/http_response.hpp:11-28 | each of the sixteen status codes is a number from 200 to 599 |
| RequestParsing.ParseMethod | src/http_server/request_parser.cpp:10-30 | a token is recognised as method `m` exactly when it is `m`'s upper-case name; every other token is rejected |
| RequestParsing.AddLine | src/http_server/request_parser.cpp:77-125 | a request line moves the parser to header lines and sets the target to the one it parses; an empty line moves it to the body; a header line is appended, parsed, to the headers already there; the target is set only by the request line; the remaining body count is set, to the `stoull` value, exactly by a `content-length` line, and is at most the largest string size; the method, the buffered line and the body are untouched; on failure nothing changes |
| RequestParsing.AddLineAccepts | src/http_server/request_parser.cpp:77-125 | when a line is accepted: a request line exactly when it parses; the empty line after the first line always, moving to the body and changing nothing else; a `content-length` line exactly when its value converts and fits a string; any other header line exactly when it parses |
| RequestParsing.EmptyLineStartsBody | src/http_server/request_parser.cpp:47-58 | the empty line that ends the headers is accepted whatever body length was announced, and the rest of the packet goes straight to the body step |
| RequestParsing.HeadersEndThenBody | src/http_server/request_parser.cpp:47-72 | after the headers, a packet holding the empty line and at least the announced number of bytes completes the request with exactly those bytes as body; with fewer it collects them and waits |
| RequestParsing.ContentLengthNameAnyCase | src/http_server/request_parser.cpp:111-115 | the `content-length` test on the lower-cased name accepts a header name exactly when it spells `content-length` in any mix of ASCII case |
| RequestParsing.ContentLengthHeader | src/http_server/request_parser.cpp:111-121 | a `content-length: n` line, with the name in any case, stores the lower-case header and sets the remaining body count to `n`; an `n` above the largest string size fails as `reserve` does |
| RequestParsing.ParseRequestLine | src/http_server/request_parser.cpp:79-89 | an accepted line starts with the method's name, a space and then the target; a rejected one is a bad request or an out-of-range `substr` |
| RequestParsing.ParseHeaderLine | src/http_server/request_parser.cpp:99-112 | fails with `ColonMissing` exactly when the line has no ':'; any other failure is a bad request; an accepted line's name is the lower-cased text before its first ':', and its value is the non-empty trimmed text after it |
| RequestParsing.HeaderValue | src/http_server/request_parser.cpp:103-106 | the value does not start with a space; it is the text right after the leading spaces, and it ends at the last space there is, or, when there is none, at the end of the text |
| RequestParsing.ConsumeLines | src/http_server/request_parser.cpp:39-55 | the line loop never moves the state backwards and never past the body; it stops with all data consumed or at the body; an error leaves the state before the body |
| RequestParsing.FeedBody | src/http_server/request_parser.cpp:58-73 | body handling hands out a request exactly when it moves the state from body to done; it never fails and leaves the headers and target alone |
| RequestParsing.NextPacket | src/http_server/request_parser.cpp:33-75 | once done, a call returns nothing and changes nothing; the state only moves forward; a request is returned exactly when the state reaches done; a failure happens only before the body |
| RequestParsing.RequestLineShape | src/http_server/request_parser.cpp:81-89 | every accepted request line is a method name, a space, the target, then nothing or a `" HTTP/"`; the target holds no `" HTTP/"` |
| RequestParsing.RequestLineParts | src/http_server/request_parser.cpp:81-89 | an accepted request line is cut at its first space and at the first `" HTTP/"` after it, or at the end of the line |
| RequestParsing.RequestLineParses | src/http_server/request_parser.cpp:81-89 | conversely, every `METHOD SP target` line, with or without the `" HTTP/"` tail, is accepted, and the target comes back unchanged |
| RequestParsing.TargetBetween | src/http_server/request_parser.cpp:81-88 | in such a line, the first space ends the method token and the first `" HTTP/"` after it ends the target |
| RequestParsing.RequestLineRejectsUnknownMethod | src/http_server/request_parser.cpp:81-84 | a first line whose leading token is none of the nine method names is a bad request |
| RequestParsing.RequestLineWithoutTarget | src/http_server/request_parser.cpp:87-89 | a first line that is a bare method name, with no space, makes `substr` throw out of range (any other line without a space is a bad request, as `RequestLineRejectsUnknownMethod` states) |
| RequestParsing.HeaderLineParses | src/http_server/request_parser.cpp:99-112 | a header line `name: value` is accepted; the name is lower-cased, the leading spaces of the value are skipped and the value is cut at its last space |
| RequestParsing.HeaderValueParses | src/http_server/request_parser.cpp:103-106 | the value is what follows the leading spaces, up to its last space |
| RequestParsing.HeaderLineWithoutColon | src/http_server/request_parser.cpp:99-101 | a header line without ':' is rejected |
| RequestParsing.HeaderLineWithoutName | src/http_server/request_parser.cpp:107-108 | a header line with an empty name is a bad request |
| RequestParsing.HeaderLineWithoutValue | src/http_server/request_parser.cpp:103-108 | a header line whose value is empty or all spaces is a bad request |
| RequestParsing.PartialLineIsBuffered | src/http_server/request_parser.cpp:40-44 | before the body, a packet without CRLF is appended to the pending line, and nothing else changes or is returned |
| RequestParsing.UnknownMethodIsBadRequest | src/http_server/request_parser.cpp:51-52 | a complete first line with an unknown method makes the call fail with a bad request |
| RequestParsing.InitialIsValid | src/http_server/request_parser.hpp:27-33 | a new parser satisfies the parser invariant |
| RequestParsing.AddLinePreservesValid | src/http_server/request_parser.cpp:115-121 | an accepted line keeps the invariant: before the body, the remaining count is the length announced by the last valid `content-length` header |
| RequestParsing.ConsumeLinesPreservesValid | src/http_server/request_parser.cpp:39-55 | the line loop keeps the parser invariant |
| RequestParsing.NextPacketPreservesValid | src/http_server/request_parser.cpp:33-75 | a call keeps the invariant; a returned request has method `Get` and exactly the announced number of body bytes |
| RequestParsing.AddLineKeepsHeaders | src/http_server/request_parser.cpp:121 | an accepted line keeps the headers collected so far as a prefix |
| RequestParsing.ConsumeLinesKeepsHeaders | src/http_server/request_parser.cpp:39-55 | the line loop only appends headers, in arrival order |
| RequestParsing.NextPacketKeepsHeaders | src/http_server/request_parser.cpp:33-75 | a call only appends headers, in arrival order |
| RequestParsing.ConsumeLinesKeepsUri | src/http_server/request_parser.cpp:39-55 | after the first line, the line loop keeps the target and never goes back to the first line |
| RequestParsing.NextPacketKeepsUri | src/http_server/request_parser.cpp:33-75 | after the first line, a call keeps the target, and a request it returns carries that target |
| RequestParsing.FirstLineSetsUri | src/http_server/request_parser.cpp:39-55 | a packet completing an accepted first line leaves the first-line state with the target that line parses to, and a request completed by the same packet carries it |
| RequestParsing.EmptyLineCompletes | src/http_server/request_parser.cpp:94-96 | with no body announced, the empty line completes the request at once, with an empty body; the rest of the packet is dropped |
| RequestParsing.BodyIsCollected | src/http_server/request_parser.cpp:58-72 | in the body, a packet supplies at most the remaining bytes and the excess is dropped; the request is returned exactly when nothing remains |
| RequestParsing.Run | src/http_server/request_parser.cpp:33-75 | a sequence of packets gives one outcome per packet |
| RequestParsing.RunStaysValid | src/http_server/request_parser.cpp:33-75 | the invariant holds over any sequence of packets |
| RequestParsing.RunRequests | src/http_server/request_parser.cpp:68-71 | every request a parser returns has method `Get` and a body of exactly the announced length |
| RequestParsing.RunWhenDone | src/http_server/request_parser.cpp:35-36 | once done, a parser stays as it is and returns nothing from every later packet |
| RequestParsing.AtMostOneCons | src/http_server/request_parser.cpp:68-71 | a request followed only by empty outcomes, or no request followed by outcomes holding at most one, holds at most one |
| RequestParsing.RunYieldsAtMostOne | src/http_server/request_parser.cpp:68-71 | a parser returns at most one request over its lifetime |
| RequestParsing.RunIsMonotone | src/http_server/request_parser.cpp:92-96 | the state never moves backwards over a run |
| RequestParsing.RunKeepsHeaders | src/http_server/request_parser.cpp:121 | over a run, collected headers are never removed or reordered |
| RequestParsing.RequestParser.constructor | src/http_server/request_parser.hpp:27-33 | a new parser is in the first-line state with empty fields and method `Get` |
| RequestParsing.RequestParser.ParseNextPacket | src/http_server/request_parser.cpp:33-75 | the method's new fields and result are those of `NextPacket` on the old fields |
| RequestParsing.RequestParser.CollectBody | src/http_server/request_parser.cpp:58-73 | the body step's new fields and result are those of `FeedBody` |
| RequestParsing.RequestParser.AddCurrentLine | src/http_server/request_parser.cpp:77-125 | the method's new fields are those of `AddLine`; on failure it reports the error and changes nothing |
| RequestParsing.RequestParser.AddRequestLine | src/http_server/request_parser.cpp:79-92 | on the first line, the new fields are those of `AddLine`; on failure it reports the error and changes nothing |
| RequestParsing.RequestParser.AddHeaderLine | src/http_server/request_parser.cpp:97-121 | on a non-empty later line, the new fields are those of `AddLine`; on failure it reports the error and changes nothing |
| RequestParsing.RequestParser.ReadLines | src/http_server/request_parser.cpp:39-55 | the loop's new fields, and the data it leaves for the body, are those of `ConsumeLines`, and so is its error |
| RequestParsing.RequestParser.TakeLine | src/http_server/request_parser.cpp:46-53 | one complete line takes the loop where `ConsumeLines` goes: to its failure with the error, or on to the data after the CRLF |
| UriParsing.ParseOneParam | src/parsed_uri.cpp:6-12 | a piece splits at its first '=': name, '=' and value give the piece back, and the name holds no '='; without '=' the piece is the name and the value is empty |
| UriParsing.UriParts | src/parsed_uri.cpp:15-36 | without '?' the path is the whole target and there are no parameters; with '?' path, '?' and query give the target back, and the path holds no '?' |
| UriParsing.ParseUri | src/parsed_uri.cpp:15-36 | the method returns what `UriParts` describes |
| UriParsing.CollectParams | src/parsed_uri.cpp:24-34 | the loop returns the parameters of the query after the '?', and terminates |
| UriParsing.CollectFromParams | src/parsed_uri.cpp:26-33 | the loop, from any separator, appends the parameters of the rest of the query |
| UriParsing.JoinSplit | src/parsed_uri.cpp:27-29 | the pieces between '&' separators, joined back with '&', give the query |
| UriParsing.SplitPiecesFree | src/parsed_uri.cpp:27-29 | no piece contains a separator |
| UriParsing.SplitCount | src/parsed_uri.cpp:26-33 | there is one piece more than there are separators |
| UriParsing.ParamsBound | src/parsed_uri.cpp:30-32 | every parameter returned has a non-empty name; there are at most one more than the '&' count |
| UriParsing.ParamsOfBound | src/parsed_uri.cpp:30-32 | at most one parameter per piece, each with a non-empty name |
| UriParsing.ParamsOfAppend | src/parsed_uri.cpp:26-34 | parameters keep the order of their pieces |
| UriParsing.SplitAppend | src/parsed_uri.cpp:27-29 | splitting `a & b` splits `a`, then `b` |
| UriParsing.QueryConcat | src/parsed_uri.cpp:26-34 | the parameters of `a&b` are those of `a` followed by those of `b` |
| UriParsing.ParamsFromPieces | src/parsed_uri.cpp:28-32 | every parameter is the parse of one piece of the query, taken as it stands |
| Text.LowerCharCaseInsensitive | src/http_server/request_parser.cpp:112 | two characters lower-case to the same character exactly when they are the same, or the same letter in the other ASCII case |
| Text.ToLowerCaseInsensitive | src/http_server/request_parser.cpp:111-112 | two strings lower-case to the same string exactly when they have the same length and differ at most in the ASCII case of their letters |
| Text.ToLowerIdempotent | src/http_server/request_parser.cpp:111-112 | a lower-cased string holds no upper-case ASCII letter, and lower-casing it again changes nothing |
| Decimal.ValueOfShow | src/http_server/request_parser.cpp:116 | reading back the decimal rendering of a number gives the number |
| Decimal.Stoull | src/http_server/request_parser.cpp:116 | `std::stoull` fails with invalid argument exactly when no digits follow the white space and sign; any result fits in 64 bits |
| Decimal.StoullOfDigits | src/http_server/request_parser.cpp:116 | a plain digit string converts to its value, or is out of range above 2^64 - 1 |
| Decimal.StoullOfShow | src/http_server/request_parser.cpp:116 | every 64-bit length written in decimal converts back to itself |
| ResponseBuffers.ReasonPhrase | src/http_server/to_buffers.cpp:12-47 | each reason phrase is non-empty and contains no carriage return |
| ResponseBuffers.CodeTextIsShow | src/http_server/to_buffers.cpp:12-47 | the three digits in each status line are the decimal rendering of its code |
| ResponseBuffers.StatusLineForm | src/http_server/to_buffers.cpp:12-47 | every status line reads `HTTP/1.1 <code> <reason>` then CRLF |
| ResponseBuffers.StatusLineCode | src/http_server/to_buffers.cpp:12-47 | the code's digits are at positions 9 to 11 of its status line |
| ResponseBuffers.StatusLinesDistinct | src/http_server/to_buffers.cpp:12-47 | different codes have different status lines |
| ResponseBuffers.ToBuffers | src/http_server/to_buffers.cpp:51-64 | buffers already present stay unchanged, and the response's buffers are appended after them |
| ResponseBuffers.HeaderBuffersSnoc | src/http_server/to_buffers.cpp:55-60 | each header adds its four buffers after those of the headers before it |
| ResponseBuffers.HeaderBuffersLength | src/http_server/to_buffers.cpp:55-60 | the headers give four buffers each |
| ResponseBuffers.HeaderBuffersAt | src/http_server/to_buffers.cpp:55-60 | header `k` occupies buffers `4k` to `4k + 3`: name, `": "`, value, CRLF |
| ResponseBuffers.SerializedLayout | src/http_server/to_buffers.cpp:54-63 | status line first, four buffers per header in order, one CRLF, then the body only when non-empty: `2 + 4·n` buffers, one more with a body |
| ResponseBuffers.FieldBytes | src/http_server/to_buffers.cpp:56-59 | one header's buffers spell `name: value` CRLF |
| ResponseBuffers.HeaderBytes | src/http_server/to_buffers.cpp:55-60 | the header buffers spell the header fields in order |
| ResponseBuffers.WireBytes | src/http_server/to_buffers.cpp:54-63 | concatenated, the buffers are status line, header fields, CRLF, body |
| ResponseFactory.CreateResponse | src/http_server/create_response.cpp:7 | the given status, no headers, an empty body |
| ResponseFactory.CreateResponseWithBody | src/http_server/create_response.cpp:9-13 | the given status, just the header `Content-type: <type>`, the given body |
| ResponseFactory.CreateResponseWithHeaders | src/http_server/create_response.cpp:15-17 | the given status and headers, an empty body |
| ResponseFactory.CreateResponseWithHeadersAndBody | src/http_server/create_response.cpp:19-23 | the given status, the given headers followed by `Content-type: <type>`, the given body |
| ResponseFactory.OverloadsAgree | src/http_server/create_response.cpp:7-23 | with no extra headers, the header-taking overloads build what the others build |
| ResponseFactory.OnlyContentTypeAdded | src/http_server/create_response.cpp:19-23 | the given headers are kept in order, and every added header is `Content-type` |
| ResponseFactory.BareResponseOnTheWire | src/http_server/create_response.cpp:7 | a status-only response is sent as its status line and an empty line |
| ResponseFactory.TypedResponseOnTheWire | src/http_server/create_response.cpp:9-13 | a typed response is sent as status line, `Content-type` field, empty line, body |
| TransformParams.CharCode | src/handle_transform_requests.cpp:21 | a `char` is read as a signed byte; ASCII keeps its code |
| TransformParams.ShiftIn | src/handle_transform_requests.cpp:21 | one step is `10·res + (c - '0')`; it gives no value exactly when the product or the sum leaves the `int` range |
| TransformParams.SvToIntOf | src/handle_transform_requests.cpp:18-23 | any value the fold gives is in the `int` range |
| TransformParams.SvToInt | src/handle_transform_requests.cpp:18-23 | the loop gives what the fold describes, and no value where the fold overflows |
| TransformParams.NoneSticks | src/handle_transform_requests.cpp:20-21 | once a prefix overflows, so does the whole string |
| TransformParams.SvToIntSteps | src/handle_transform_requests.cpp:19-21 | the empty string gives 0; each further character, digit or not, shifts in one decimal place |
| TransformParams.SvToIntOfDigits | src/handle_transform_requests.cpp:18-23 | a digit string gives its decimal value when that fits in an `int`, and overflows otherwise |
| TransformParams.FirstMatch | src/handle_transform_requests.cpp:26-28 | the search finds a parameter with the name, and none before it has the name |
| TransformParams.ParamInt | src/handle_transform_requests.cpp:25-30 | a value found is in the `int` range; no value comes back only when some parameter of that name has a value whose conversion overflows |
| TransformParams.GetParamInt | src/handle_transform_requests.cpp:25-30 | the loop returns the first match's value through `sv_to_int`, or the default |
| TransformParams.DefaultWithoutMatch | src/handle_transform_requests.cpp:29 | with no parameter of that name, the default comes back |
| TransformParams.FirstMatchDecides | src/handle_transform_requests.cpp:26-28 | parameters after the first match do not change which one is found |
| TransformParams.LaterDuplicatesIgnored | src/handle_transform_requests.cpp:26-28 | later duplicates of a name do not change its value |
| ResponseWriter.Accepted | src/write_http_response.hpp:19 | a write accepts between one byte and the whole remaining buffer |
| ResponseWriter.WriteHttpResponse | src/write_http_response.hpp:11-27 | the writes are those that drain the `to_buffers` buffers in order; the total returned is the sum of the write counts and the message length; the bytes sent are the whole message |
| ResponseWriter.WriteBuffers | src/write_http_response.hpp:17-25 | the outer loop issues the writes that drain the buffers in order and returns the sum of their counts |
| ResponseWriter.WriteBuffer | src/write_http_response.hpp:18-24 | the inner loop appends the writes that drain one buffer and keeps the running total equal to the sum of the counts |
| ResponseWriter.DrainBytes | src/write_http_response.hpp:18-24 | draining a buffer sends exactly its bytes, and the counts add up to its length |
| ResponseWriter.DrainAllBytes | src/write_http_response.hpp:17-25 | draining the buffers sends their concatenation, and the counts add up to its length |
| ResponseWriter.DrainProper | src/write_http_response.hpp:18-22 | an empty buffer gets no write; every write is offered a non-empty buffer and accepts between one byte and all of it |
| ResponseWriter.DrainAllProper | src/write_http_response.hpp:17-25 | every write for a list of buffers is proper, and earlier writes are kept |
| ResponseWriter.DrainChain | src/write_http_response.hpp:19-22 | a buffer's first write is offered all of it; each later write is offered what the one before left |
| ResponseWriter.ResponseFullySent | src/write_http_response.hpp:16-26 | whatever the socket accepts per write, the response's wire text is sent in order and the total equals its length |

## Left out

- Sockets, the `co_await` on `async_write`, and write errors are not modelled. The
  sequence of write sizes `caps` stands for the socket, and lets each write accept
  anything from one byte to the whole remaining buffer.
- The profiling macros are not modelled, because they have no effect on the values.
- `reserve` in src/http_server/to_buffers.cpp:52 is not modelled. It asks for room for
  `3 + 4·n` views, where `n` is the number of headers already held, so its only possible
  failure is a `std::bad_alloc`, which depends on memory.
- `body_.reserve` in src/http_server/request_parser.cpp:117 throws `std::length_error` for a
  length above `max_size()`. The model rejects such a length with `LengthTooLarge`, and takes
  `MaxStringSize` from the 64-bit libstdc++ string; other libraries have other bounds. A
  `std::bad_alloc` from the allocation is not modelled, because it depends on memory.
- RequestParsing.AddLine: when `reserve` throws, the source has already set `body_remaining_`,
  while the model leaves every field as it was. Nothing can observe the difference, because
  the parser is a local of `read_http_request` (src/read_http_request.hpp:12) and the
  exception ends its life.
- The moves of `uri_`, `headers_` and `body_` into the returned request are not modelled.
  The fields of a completed parser are left as they stood. This makes no difference afterwards,
  because a done parser never reads them again.
- `string_view` aliasing is not modelled: a view is modelled as a copy of the characters it
  shows. So the model does not capture that a parameter's name and value point into the
  request target's storage.
- ToBuffers: the in-place `push_back` onto the caller's vector is modelled as returning the
  old contents with the new buffers appended.
- RequestParsing.ParseHeaderLine: a header line without ':' makes the source call
  `remove_prefix` past the end, which is undefined behaviour. The model rejects that line
  with `ColonMissing`.
- Text.LowerChar: `std::tolower` in src/http_server/request_parser.cpp:112 is given a plain
  `char`. For a byte at or above 0x80 that value is negative, which is undefined behaviour.
  The model leaves every character outside `A`-`Z` unchanged.
- RequestParsing.NextPacket: the source propagates a failure as an exception. The model
  returns `Failed(e)` and keeps the state at the throw, including the line that caused it.
- RequestParsing.AddLine: the parsed method is bound to a local `method_` that shadows the
  member, so the member keeps its initial value `get`. The model does the same: every
  request carries method `Get`, as `Valid` and `WellFormed` state.
- SvToInt: the C++ `int` overflow in `res * 10 + (c - '0')` is undefined behaviour. The
  model returns `None` there instead of a wrapped value, and `GetParamInt` passes that on.
- TransformParams.CharCode: `char` is taken to be signed 8-bit, as on x86 and x86-64 Linux,
  and a character above 255 is reduced to its low byte. Where plain `char` is unsigned, as on
  ARM and AArch64 Linux, a byte at or above 0x80 enters `c - '0'` as 128 to 255 rather than
  as a negative value, so for such bytes the model differs from those targets.
- Decimal.Stoull: the conversion follows the "C" locale. Leading white space is skipped,
  one sign is allowed, and a minus sign wraps modulo 2^64 as `strtoull` does.
  `size_t` is taken to be 64 bits wide.
- `read_http_request` (the single read feeding the parser) is not modelled, because it is I/O glue.
- The image handlers that call `get_param_int` are not modelled, because they are OpenCV library calls.
