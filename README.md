# A verified model of a small C++ HTTP/1.1 server core

The server reads one request at a time from a byte buffer, routes it by
method and path pattern through a chain of middleware layers, and
serializes a response. This project models that core in Dafny and proves
what the code promises:

- **Request parsing** (`http_request.dfy`, module `HttpRequests`) models
  `HttpRequest::parse`:
  - it reads the request line, the header lines up to the empty line, and a
    `Content-Length` body;
  - it percent-decodes the path and the query string;
  - it keeps track of keep-alive.

  The `Request` datatype is the value of the C++ object. The class
  `HttpRequest` holds its fields and mutates them as the C++ member
  functions do, with each method proved against a specification function.
- **Response serialization** (`http_response.dfy`, module `HttpResponses`)
  models `set_body`, `set_status` and `to_string`:
  - a status line;
  - `Connection`/`Keep-Alive` injected into the header map;
  - the headers in ascending key order (`std::map`), an empty line, then the
    body.
- **Routing** (`router.dfy`, module `Routers`) models:
  - compiling `:name` patterns into a regular expression and a list of
    parameter names;
  - escaping regex metacharacters;
  - first-match dispatch with path-parameter binding;
  - the 404 fallback.
- **Built-in middlewares** (`middlewares.dfy`, module `Middlewares`):
  - `request_id`, with its shared counter;
  - `cors`, with its preflight answer;
  - `rate_limit`: the client key from `X-Forwarded-For`, a sliding window
    per client and the 429 answer;
  - `require_content_type`, with the 415 answer.

  The state that outlives one request (the id counter and every limiter's
  buckets) is the class `SharedState`.
- **The middleware chain** (`middleware_chain.dfy`, module
  `MiddlewareChains`): `use`, `execute` and `dispatch` of
  `MiddlewareChain`.
  - The chain's semantics is the function `Run`, whose layers are of the
    kinds above. A `Custom` kind, made of a request rewrite, an early answer
    and a response rewrite, stands for user-written layers.
  - The class method `Dispatch` is proved equal to `Run`.
  - Lemmas about `Run` give:
    - the onion shape of the call trace;
    - when the handler is reached;
    - what each built-in layer does to the exchange;
    - that request ids increase;
    - that a limiter's buckets never exceed its cap.
- `text.dfy` (module `Text`) holds the C++ library behaviour the core relies
  on:
  - `std::string::find`;
  - `std::tolower`;
  - `std::to_string`;
  - `std::stoul`, with its 64-bit range;
  - `std::isspace`;
  - the key order of `std::map`.

Strings are `seq<char>` and bytes are characters below 256. Sizes are
unbounded naturals, except where a 64-bit limit changes behaviour. Those
places are `std::stoul`'s range and the one wrap-around listed under
"Findings".

## Model

| member | source | states |
|---|---|---|
| HttpRequests.Request.GetQueryParam | framework/include/http_request.hpp:119-123 | the stored query value when the name is present, the default otherwise |
| HttpRequests.Request.GetPathParam | framework/include/http_request.hpp:129-133 | the bound path value when the name is present, the default otherwise |
| HttpRequests.KeepAliveDefault | framework/include/http_request.hpp:108-117 | without a `Connection` header, keep-alive holds exactly for `HTTP/1.1` and never for `HTTP/1.0` |
| HttpRequests.KeepAliveToken | framework/include/http_request.hpp:109-115 | with a `Connection` header, keep-alive holds exactly when its value contains `keep-alive` in some letter case, whatever the version |
| HttpRequests.KeepAliveIgnoresCase | framework/include/http_request.hpp:111-114 | two `Connection` values that differ only in ASCII letter case give the same answer |
| HttpRequests.KeepAliveExplicitClose | framework/include/http_request.hpp:109-115 | a `Connection` value too short to hold the token, such as `close`, turns keep-alive off even on HTTP/1.1 |
| HttpRequests.EscapeByte | framework/include/http_request.hpp:184-186 | two hex digits after `%` give the byte 16·high + low; every result is below 256 |
| HttpRequests.UrlDecoded | framework/include/http_request.hpp:178-196 | decoding never lengthens the text |
| HttpRequests.UrlDecodedPlain | framework/include/http_request.hpp:188-192 | text without `%` or `+` decodes to itself |
| HttpRequests.UrlDecodedOfPercentEncoded | framework/include/http_request.hpp:178-196 | decoding inverts percent-encoding of every byte string |
| HttpRequests.HttpRequest.UrlDecode | framework/include/http_request.hpp:178-196 | the loop's result is `UrlDecoded` of its input |
| HttpRequests.SplitAmpOfJoin | framework/include/http_request.hpp:157-174 | splitting `&`-joined fields that hold no `&` gives the fields back |
| HttpRequests.QueryPairRoundTrip | framework/include/http_request.hpp:163-172 | a percent-encoded pair `k=v` stores `v` under `k`, replacing an earlier value |
| HttpRequests.SinglePairQuery | framework/include/http_request.hpp:157-174 | a query string without `&` is read as one pair |
| HttpRequests.EncodedQueryRoundTrip | framework/include/http_request.hpp:154-176 | a query string of one encoded pair maps exactly that key to that value on top of the earlier parameters |
| HttpRequests.EncodedQueryStringRoundTrip | framework/include/http_request.hpp:154-176 | a query string of percent-encoded `k=v` pairs joined by `&` stores exactly those keys and values, left to right, so a later duplicate key wins |
| HttpRequests.TargetSplitsAtQuestionMark | framework/include/http_request.hpp:140-152 | the path is the decoded text before the first `?`; the query after it is added to the parameters; without `?` the parameters are unchanged |
| HttpRequests.AddHeaderLineOf | framework/include/http_request.hpp:67-77 | a `name:value` line with a non-empty value stores the value, without leading white space, under the name |
| HttpRequests.AddHeaderLineSkips | framework/include/http_request.hpp:67-68 | a line with no `:` before its last byte changes nothing |
| HttpRequests.AddHeaderLineLaterWins | framework/include/http_request.hpp:76 | a repeated header name keeps the later value |
| HttpRequests.AddHeaderLinesWellFormed | framework/include/http_request.hpp:55-80 | stored header names never contain `:` and values never start with white space |
| HttpRequests.ScanLines | framework/include/http_request.hpp:55-80 | the header loop ends inside the buffer; when no empty line closed it, it ends exactly at the end of the buffer |
| HttpRequests.ScanLinesClosedAtEmptyLine | framework/include/http_request.hpp:62-64 | a header block closed by an empty line ends right after a CRLF |
| HttpRequests.ContentLength | framework/include/http_request.hpp:82-92 | no `Content-Length` means 0; otherwise the value is what `std::stoul` gives, and a failure is an error |
| HttpRequests.BodyEnd | framework/include/http_request.hpp:94-97 | the body fits exactly when offset + length is at most the buffer size, and then it ends there |
| HttpRequests.BodyEndAsWrittenWraps | framework/include/http_request.hpp:95 | with the 64-bit sum of the code, a length of 2^64−1 wraps and is accepted where the exact check refuses it |
| HttpRequests.ReadRequestLine | framework/include/http_request.hpp:34-51 | the request line changes neither the headers, the body nor the path parameters |
| HttpRequests.RequestLineShape | framework/include/http_request.hpp:34-51 | the line is accepted exactly when it has two spaces; the method, the target and the version then rejoin to the line, and the method and the target hold no space |
| HttpRequests.RequestLineParts | framework/include/http_request.hpp:40-51 | the method, the raw target and the version are the pieces between the first two spaces; the path is the decoded target |
| HttpRequests.RequestLineLeadingSpace | framework/include/http_request.hpp:40 | a line starting with a space gives an empty method |
| HttpRequests.RequestLineAccepted | framework/include/http_request.hpp:34-51 | a line with two spaces that does not start with one is accepted with a non-empty method |
| HttpRequests.ReadBody | framework/include/http_request.hpp:82-105 | success exactly when the method is not empty, the length parses and the body fits; the offset is then past the body, which is the next length bytes when the length is positive; a length that does not parse or does not fit leaves the request as it was (an empty method with a fitting body still stores the body and fails, as the code does) |
| HttpRequests.ReadBodyTouchesOnlyBody | framework/include/http_request.hpp:94-104 | reading the body changes no field of the request but the body |
| HttpRequests.ReadBodyFits | framework/include/http_request.hpp:94-104 | when the length parses and fits, a zero length keeps the body and a positive one stores the next length bytes, whether or not the method is empty; success then depends on the method alone |
| HttpRequests.ReadHeadersAndBody | framework/include/http_request.hpp:53-105 | success needs a finished header block and a non-empty method; a header line cut off without CRLF fails |
| HttpRequests.ParseRequest | framework/include/http_request.hpp:25-106 | the reported offset never exceeds the buffer |
| HttpRequests.ParseWithoutLineEnd | framework/include/http_request.hpp:29-32 | a buffer without CRLF fails and leaves the request untouched |
| HttpRequests.ParseRejectsBadRequestLine | framework/include/http_request.hpp:35-45 | a request line with fewer than two spaces, or one starting with a space, never parses |
| HttpRequests.ParseCutHeaderFails | framework/include/http_request.hpp:56-59 | a header line without its CRLF fails the parse |
| HttpRequests.ParseSuccessSplits | framework/include/http_request.hpp:25-106 | a successful parse is an accepted request line followed by a successful header-and-body read |
| HttpRequests.HeadersAndBodySuccess | framework/include/http_request.hpp:53-105 | a success stored exactly the header lines before the empty line (or before the end of the buffer), consumed exactly `Content-Length` more bytes, and, when that length is positive, those bytes are the body |
| HttpRequests.ParseKeepsHeadersWellFormed | framework/include/http_request.hpp:67-77 | parsing keeps header names free of `:` and values free of leading white space |
| HttpRequests.ParseIgnoresFollowingBytes | framework/include/http_request.hpp:25-106 | bytes after a complete request (one whose header block was closed by an empty line) do not change the parse |
| HttpRequests.SingleHeaderLineAccepted | framework/include/http_request.hpp:55-80 | a buffer ending right after one header line's CRLF is accepted without the empty line |
| HttpRequests.HttpRequest.constructor | framework/include/http_request.hpp:16-23 | every field starts empty |
| HttpRequests.HttpRequest.Parse | framework/include/http_request.hpp:25-106 | the new state and the result are those of `ParseRequest` on the old state |
| HttpRequests.HttpRequest.ParseRequestLine | framework/include/http_request.hpp:34-51 | the fields written and the accept flag are those of `ReadRequestLine` |
| HttpRequests.HttpRequest.ParseHeaders | framework/include/http_request.hpp:55-80 | the loop stores the header lines of `ScanLines` and stops where it says |
| HttpRequests.HttpRequest.ParseHeaderLine | framework/include/http_request.hpp:56-79 | one turn of the header loop: a cut line, the empty line, or one stored line |
| HttpRequests.HttpRequest.StoreHeaderLine | framework/include/http_request.hpp:67-77 | the header map becomes `AddHeaderLine` of the old one |
| HttpRequests.HttpRequest.TrimValue | framework/include/http_request.hpp:71-74 | leading white space is removed |
| HttpRequests.HttpRequest.ParseBody | framework/include/http_request.hpp:82-105 | the new state and the result are those of `ReadBody` |
| HttpRequests.HttpRequest.ParsePathAndQuery | framework/include/http_request.hpp:140-152 | the path and the query parameters become those of `WithTarget` |
| HttpRequests.HttpRequest.ParseQueryString | framework/include/http_request.hpp:154-176 | the query parameters become `ParseQuery` of the old ones |
| HttpRequests.HttpRequest.AddNextPair | framework/include/http_request.hpp:157-174 | one turn of the query loop adds the pair up to the next `&` and moves past it |
| HttpRequests.HttpRequest.AddPair | framework/include/http_request.hpp:163-172 | one pair is added as `AddQueryPair` says |
| HttpResponses.ReasonPhrase | framework/include/http_response.hpp:32-54 | the five known codes get their phrases, and "Unknown Status" is given exactly to every other code |
| HttpResponses.WithStatus | framework/include/http_response.hpp:32-54 | the code and its phrase are set and nothing else changes |
| HttpResponses.WithBody | framework/include/http_response.hpp:21-26 | the body, the content type and a `Content-Length` that `std::stoul` reads back as the body length are set; other headers and fields are kept |
| HttpResponses.PlainResponse | framework/include/router.hpp:120-125 | a fresh response with a status and a plain-text body has exactly the two headers `Content-Type` and `Content-Length` |
| HttpResponses.KeepAliveHintText | framework/include/http_response.hpp:8-9 | the `Keep-Alive` value is `timeout=5, max=100` |
| HttpResponses.InjectConnection | framework/include/http_response.hpp:61-66 | `Connection` is `keep-alive` or `close`; `Keep-Alive` is added only for keep-alive; every other header is kept |
| HttpResponses.SerializeFraming | framework/include/http_response.hpp:56-77 | the text starts with the status line and ends with CRLFCRLF followed by exactly the body; the header lines between them are those of `Serialize`'s definition |
| HttpResponses.PreparedIdempotent | framework/include/http_response.hpp:61-66 | injecting the connection headers twice is the same as once, so serializing again gives the same text |
| HttpResponses.PreparedKeepsLength | framework/include/http_response.hpp:61-66 | the injection keeps `Content-Length` equal to the body length |
| HttpResponses.EmitHeaders | framework/include/http_response.hpp:68-70 | the loop writes one `key: value` line per header in ascending key order |
| HttpResponses.HttpResponse.constructor | framework/include/http_response.hpp:13-19 | status 200 "OK", empty body, no headers, keep-alive on |
| HttpResponses.HttpResponse.SetBody | framework/include/http_response.hpp:21-26 | the new state is `WithBody` of the old |
| HttpResponses.HttpResponse.SetStatus | framework/include/http_response.hpp:32-54 | the new state is `WithStatus` of the old |
| HttpResponses.HttpResponse.ToString | framework/include/http_response.hpp:56-77 | the connection headers are left in the object and the text is `Serialize` of the old state |
| Text.Stoul | framework/include/http_request.hpp:86 | a value exists exactly when the text after leading white space starts with digits whose value fits in 64 bits |
| Text.StoulOfNatToString | framework/include/http_response.hpp:25 | `std::stoul` reads back what `std::to_string` wrote, for every 64-bit value |
| Text.ContainsInfix | include/middlewares/middlewares.hpp:171 | `find` succeeds on any text that holds the searched string somewhere |
| Text.ContainsSplits | framework/include/http_request.hpp:114 | a successful `find` names an occurrence: the text is a prefix, the searched string and a suffix |
| Text.ToLower | framework/include/http_request.hpp:112-113 | each byte is lowered on its own and the length is kept |
| Text.SortedKeysAscending | framework/include/http_response.hpp:68 | the header keys are visited strictly ascending, each exactly once |
| Text.TrimLeadingSpace | framework/include/http_request.hpp:71-74 | the result is the input without its leading white space |
| Routers.NameEnd | framework/include/router.hpp:46-50 | a parameter name is the longest run of letters, digits and `_` |
| Routers.CompileFromShape | framework/include/router.hpp:32-59 | the compiled pieces alternate properly and there is one name per `:` |
| Routers.CompileNamesCountColons | framework/include/router.hpp:25-63 | the pattern compiles to well-formed pieces with one parameter name per `:` |
| Routers.CompileRoundTrip | framework/include/router.hpp:25-63 | rendering the compiled pieces with their names gives the pattern back |
| Routers.UnescapeEscapeRegex | framework/include/router.hpp:65-77 | removing the backslashes the escape added restores the text |
| Routers.EscapeRegexLength | framework/include/router.hpp:65-77 | the escape adds exactly one byte per metacharacter |
| Routers.RegexEscape | framework/include/router.hpp:65-77 | the loop's result is `EscapeRegex` of its input |
| Routers.CompilePattern | framework/include/router.hpp:25-63 | the loop builds the pieces and names of `Compile` and the regex `^…$` of those pieces |
| Routers.ScanName | framework/include/router.hpp:46-50 | the scan stops where `NameEnd` says |
| Routers.SegmentLength | framework/include/router.hpp:56 | a capture `([^/]+)` can reach up to the next `/` |
| Routers.MatchSound | framework/include/router.hpp:109 | a match found spells the path with non-empty `/`-free captures |
| Routers.MatchComplete | framework/include/router.hpp:109 | every way to spell the path is found by the matcher |
| Routers.MatchExact | framework/include/router.hpp:109 | the matcher succeeds exactly when the pattern can spell the whole path |
| Routers.BindFirstKeys | framework/include/router.hpp:110-114 | the bound keys are exactly the names bound |
| Routers.BindFirstLastWins | framework/include/router.hpp:113 | a repeated name keeps the capture of its last occurrence |
| Routers.MatchedRouteBindsAll | framework/include/router.hpp:110-114 | after a match, every parameter name of the pattern is bound |
| Routers.NotFoundResponse | framework/include/router.hpp:120-125 | the fallback is 404 "Not Found", body `Page not found`, length 14, the client's keep-alive choice |
| Routers.RouteFromSkip | framework/include/router.hpp:104-106 | a route that does not match is passed over |
| Routers.RouteFirstMatch | framework/include/router.hpp:103-117 | the first matching route handles the request with its captures bound |
| Routers.RouteNoMatch | framework/include/router.hpp:118-125 | with no matching route the answer is the 404 and the request is unchanged |
| Routers.RouteAppendKeeps | framework/include/router.hpp:82-100 | a route added later never overrides an earlier matching one |
| Routers.FirstMatching | framework/include/router.hpp:103-117 | when some route matches there is a first one |
| Routers.Router.constructor | framework/include/router.hpp:129 | no routes |
| Routers.Router.Add | framework/include/router.hpp:19-22 | one route appended with its compiled pattern |
| Routers.Router.Get | framework/include/router.hpp:82-84 | a `GET` route appended |
| Routers.Router.Post | framework/include/router.hpp:86-88 | a `POST` route appended |
| Routers.Router.Put | framework/include/router.hpp:90-92 | a `PUT` route appended |
| Routers.Router.Del | framework/include/router.hpp:94-96 | a `DELETE` route appended |
| Routers.Router.Patch | framework/include/router.hpp:98-100 | a `PATCH` route appended |
| Routers.Router.Handle | framework/include/router.hpp:102-126 | the new request and the answer are those of `RouteRequest` on the routes |
| Routers.Dispatch | framework/include/router.hpp:110-116 | path parameters replaced by the binding, then the handler's answer |
| Routers.BindPathParams | framework/include/router.hpp:110-114 | only the path parameters change, to the binding |
| Routers.RespondNotFound | framework/include/router.hpp:120-125 | the answer is the 404 of `NotFound` |
| Middlewares.StampOnlyAddsId | include/middlewares/middlewares.hpp:47-49 | `X-Request-Id` reads back as the id; every other header and field is kept |
| Middlewares.StampsDistinct | include/middlewares/middlewares.hpp:44-48 | different ids give different header values |
| Middlewares.PreflightResponse | include/middlewares/middlewares.hpp:71-81 | 204 "No Content", empty body, exactly the four `Access-Control-*` headers, the client's keep-alive choice |
| Middlewares.DefaultMaxAgeText | include/middlewares/middlewares.hpp:68 | the default max age is written `86400` |
| Middlewares.TrimTrailingSpaces | include/middlewares/middlewares.hpp:120-121 | trailing spaces, and only those, are removed |
| Middlewares.CommaOrEnd | include/middlewares/middlewares.hpp:119 | the first comma, or the end |
| Middlewares.ClientKeyShape | include/middlewares/middlewares.hpp:115-122 | the key is a prefix of the header before its first comma, with trailing spaces removed |
| Middlewares.ClientKeyOfList | include/middlewares/middlewares.hpp:115-122 | the first address of a comma-separated list is the key |
| Middlewares.ClientKeyOf | include/middlewares/middlewares.hpp:115-122 | the loop computes `ClientKey` |
| Middlewares.EvictedExactly | include/middlewares/middlewares.hpp:129-133 | eviction removes every expired timestamp and keeps every other one, counted with multiplicity |
| Middlewares.EvictedShrinks | include/middlewares/middlewares.hpp:129-133 | eviction never grows a bucket |
| Middlewares.EvictBucket | include/middlewares/middlewares.hpp:129-133 | the loop computes `Evicted` |
| Middlewares.AdmitWithinCap | include/middlewares/middlewares.hpp:135-145 | no bucket ever holds more than the limit |
| Middlewares.AdmitTouchesOnlyClient | include/middlewares/middlewares.hpp:127-145 | only the client's bucket changes |
| Middlewares.AdmitRecords | include/middlewares/middlewares.hpp:129-145 | admitted exactly when fewer than the limit remain in the window, and then `now` is appended; a refusal records nothing |
| Middlewares.SecondRequestRefused | include/middlewares/middlewares.hpp:127-145 | with a limit of one, a second request inside the window is refused |
| Middlewares.TooManyRequestsResponse | include/middlewares/middlewares.hpp:136-142 | 429 "Too Many Requests", the fixed body, exactly `Retry-After`, `Content-Type` and `Content-Length: 37`, the client's keep-alive choice |
| Middlewares.ContentTypeGuard | include/middlewares/middlewares.hpp:163-181 | the 415 is sent exactly for POST, PUT and PATCH whose content type is missing or holds the required type nowhere; other methods pass, and a content type containing the required one passes |
| Middlewares.UnsupportedMediaTypeResponse | include/middlewares/middlewares.hpp:172-177 | 415 "Unsupported Media Type", a body naming the expected type with a matching length, the client's keep-alive choice |
| Middlewares.SharedState.constructor | include/middlewares/middlewares.hpp:44 | the counter starts at 1 with no buckets |
| Middlewares.SharedState.TakeId | include/middlewares/middlewares.hpp:44-45 | the id is the old counter, which advances by one |
| Middlewares.SharedState.Admit | include/middlewares/middlewares.hpp:124-146 | the buckets become those of `AfterAdmit`, and a refusal is the 429 exactly when the request is not admitted |
| MiddlewareChains.RunOnion | framework/include/middleware.hpp:28-40 | every run enters layers 0..d−1 in order and leaves them in reverse; the handler runs in the middle exactly when all layers passed |
| MiddlewareChains.OutermostFirstAndLast | framework/include/middleware.hpp:35-39 | the first layer is entered first and left last |
| MiddlewareChains.HandlerRunsOnlyThroughAll | framework/include/middleware.hpp:31-39 | the handler runs only when every layer was entered and left; otherwise one layer answered and no later layer was entered |
| MiddlewareChains.HandlerSeesPrepared | framework/include/middleware.hpp:29-36 | the handler sees the request as every layer before it rewrote it |
| MiddlewareChains.EmptyChainIsHandler | framework/include/middleware.hpp:31-33 | an empty chain is the handler alone |
| MiddlewareChains.PreflightStopsChain | include/middlewares/middlewares.hpp:71-81 | an `OPTIONS` request gets the preflight answer and goes no deeper |
| MiddlewareChains.CorsDecoratesNext | include/middlewares/middlewares.hpp:83-85 | any other request goes on, and the answer gets `Access-Control-Allow-Origin` |
| MiddlewareChains.RateLimitRefuses | include/middlewares/middlewares.hpp:135-143 | a request over the limit gets the 429 and goes no deeper |
| MiddlewareChains.ContentTypeRefuses | include/middlewares/middlewares.hpp:168-178 | a body method without the required content type gets the 415 and goes no deeper |
| MiddlewareChains.RunCounterGrows | include/middlewares/middlewares.hpp:44-45 | the id counter never goes back, and a `request_id` layer advances it |
| MiddlewareChains.RequestIdsIncrease | include/middlewares/middlewares.hpp:42-50 | two consecutive executions behind `request_id` carry different ids, the second larger than the first |
| MiddlewareChains.RunKeepsCap | include/middlewares/middlewares.hpp:135-145 | a whole execution keeps every limiter within its limit |
| MiddlewareChains.MiddlewareChain.constructor | framework/include/middleware.hpp:26 | no layers |
| MiddlewareChains.MiddlewareChain.Use | framework/include/middleware.hpp:14-17 | the layer is appended and the same chain is returned |
| MiddlewareChains.MiddlewareChain.Execute | framework/include/middleware.hpp:19-23 | request, answer and shared state are those of `Run` from layer 0 |
| MiddlewareChains.MiddlewareChain.Dispatch | framework/include/middleware.hpp:28-40 | request, answer and shared state are those of `Run` from the given layer |
| MiddlewareChains.MiddlewareChain.StampRequestId | include/middlewares/middlewares.hpp:42-50 | the `request_id` layer agrees with `Run` |
| MiddlewareChains.MiddlewareChain.ApplyCors | include/middlewares/middlewares.hpp:69-86 | the `cors` layer agrees with `Run` |
| MiddlewareChains.MiddlewareChain.LimitRate | include/middlewares/middlewares.hpp:110-149 | the `rate_limit` layer agrees with `Run` |
| MiddlewareChains.MiddlewareChain.GuardContentType | include/middlewares/middlewares.hpp:162-182 | the `require_content_type` layer agrees with `Run` |
| MiddlewareChains.MiddlewareChain.ApplyCustom | framework/include/middleware.hpp:39 | a user layer agrees with `Run` |

## Left out

- Sockets, the accept loop and `main` (`socket.hpp`, `socket.cpp`, `main.cpp`) are not part of this model. Bytes arrive as a whole buffer.
- The `logger` layer writes to standard output and reads the clock. Here it is the layer kind `Logger`, which passes everything through unchanged.
- Concurrency is left out. The atomic counter and the mutex around the buckets are modelled as one shared state that a single request updates at a time.
- `set_json` is left out, because it needs a JSON serializer.
- The example routes and controller (`routes.hpp`, `routes.cpp`, `main_controller.hpp`) are left out. So are the older out-of-line copies of the parser and the router (`src/http_request.cpp`, `framework/router.cpp`), which the headers replace.
- `std::regex` is not modelled. `Routers.MatchPieces` is a backtracking matcher over the compiled pieces. `Routers.MatchExact` proves that it accepts exactly the paths the pattern `^…$` with `([^/]+)` captures describes. For an ambiguous pattern, which captures `std::regex_match` picks is not modelled: the matcher takes the longest capture first.
- Text.Stoul: models digits after leading white space. An optional sign is not modelled: `std::stoul` accepts a leading `-` and negates modulo 2^64.
- HttpRequests.EscapeByte: follows `std::hex` extraction for the two bytes after `%`. When both bytes are white space, the stream reaches its end while skipping them and extracts nothing, so the C++ reads an uninitialised `int`, which is undefined behaviour; the model gives byte 0 there. Every other input without a hex digit stores 0 in the C++ as in the model.
- Time: `steady_clock::now()` is a natural number of nanoseconds, passed in once per execution. Every `rate_limit` layer of one execution sees the same instant.
- Handlers are functions of the request, so a handler cannot reach shared state. A `Custom` layer is limited to rewriting the request, answering early, or rewriting the answer of the layers below. A user layer that calls `next` twice, or keeps state of its own, is not modelled.
- Each `rate_limit` layer is identified by a slot number that names its buckets in the shared state. Two layers given the same slot share buckets, just as two uses of one `rate_limit(...)` value share one `state` pointer in C++.
- MiddlewareChains.RunCounterGrows: the `request_id` counter is an unbounded natural, so the 64-bit wrap after 2^64 requests is not modelled.

## Findings

| source | as written | input that shows it | evidently intended | confidence | as-written member | corrected member |
|---|---|---|---|---|---|---|
| framework/include/http_request.hpp:95 | `pos + content_length > raw.size()` is computed in `size_t` and wraps | a request whose header block ends at offset `pos` ≥ 1, with `Content-Length: 18446744073709551615`; the sum wraps to `pos - 1`, the check passes, and `raw.substr(pos, content_length)` takes the rest of the buffer while `bytes_consumed` becomes `pos - 1`; `Content-Length: -1` reaches the same value through `std::stoul`'s negation, but the model's `Stoul` leaves the sign out and refuses it | refuse a body longer than the bytes left (`content_length > raw.size() - pos`) | not executed | HttpRequests.BodyEndAsWrittenWraps | HttpRequests.BodyEnd |

The model follows the code in these places, where its behaviour may be unexpected:

- A `+` in the path decodes to a space, because `url_decode` is applied to the path too.
- A buffer that ends right after a header line's CRLF parses without the empty line.
- A `Content-Length` of 0 leaves an earlier body in place.
- The reason table has no 204, 415 or 429. `set_status` writes "Unknown Status" for them, and the middlewares then overwrite it.
- A request line with an empty method still reports its offset but fails.
