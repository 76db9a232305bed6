/** The response object of the server and its wire form: the status-to-reason
    table, `set_body` (which keeps `Content-Length` equal to the body length),
    `set_status`, and `to_string` (connection headers, then every header in
    map order, a blank line and the body). */
module HttpResponses {
  import opened Text

  const KeepAliveTimeout: int := 5
  const KeepAliveMax: int := 100

  /** The value of an `HttpResponse`'s fields. */
  datatype Response = Response(
    statusCode: int,
    statusMessage: string,
    body: string,
    headers: map<string, string>,
    keepAlive: bool)

  /** A default-constructed `HttpResponse`. */
  const Fresh: Response := Response(200, "OK", "", map[], true)

  /** The reason phrase `set_status` stores for a code. */
  function ReasonPhrase(code: int): (m: string)
    ensures code == 200 ==> m == "OK"
    ensures code == 201 ==> m == "Created"
    ensures code == 400 ==> m == "Bad Request"
    ensures code == 404 ==> m == "Not Found"
    ensures code == 500 ==> m == "Internal Server Error"
    ensures m == "Unknown Status" <==> code !in {200, 201, 400, 404, 500}
  {
    match code
    case 200 => "OK"
    case 201 => "Created"
    case 400 => "Bad Request"
    case 404 => "Not Found"
    case 500 => "Internal Server Error"
    case _ => "Unknown Status"
  }

  /** The body-framing invariant: a `Content-Length` header, when present,
      is the decimal byte length of the body. */
  predicate LengthConsistent(r: Response) {
    "Content-Length" in r.headers ==> r.headers["Content-Length"] == NatToString(|r.body|)
  }

  /** The response after `set_status(code)`. */
  function WithStatus(r: Response, code: int): (r': Response)
    ensures r'.statusCode == code && r'.statusMessage == ReasonPhrase(code)
    ensures r'.body == r.body && r'.headers == r.headers && r'.keepAlive == r.keepAlive
  {
    r.(statusCode := code, statusMessage := ReasonPhrase(code))
  }

  /** The response after `set_body(content, contentType)`: whatever it held
      before, it is length-consistent afterwards, and the framing header reads
      back (through `std::stoul`) as the body length. */
  function WithBody(r: Response, content: string, contentType: string): (r': Response)
    ensures r'.body == content && LengthConsistent(r')
    ensures "Content-Length" in r'.headers && "Content-Type" in r'.headers
    ensures r'.headers["Content-Type"] == contentType
    ensures |content| <= ULongMax ==> Stoul(r'.headers["Content-Length"]) == Some(|content|)
    ensures forall k :: k in r.headers ==> k in r'.headers
    ensures forall k :: k in r'.headers && k != "Content-Type" && k != "Content-Length" ==>
              k in r.headers && r'.headers[k] == r.headers[k]
    ensures r'.statusCode == r.statusCode && r'.statusMessage == r.statusMessage
    ensures r'.keepAlive == r.keepAlive
  {
    StoulOfNatToString(|content|);
    r.(body := content,
       headers := r.headers["Content-Type" := contentType]["Content-Length" := NatToString(|content|)])
  }

  /** A response whose status is `code` with the given reason phrase and
      whose body is `content` as `text/plain`, as the built-in error
      responses are made: `set_status`, then an explicit message, then
      `set_body`. */
  function PlainResponse(code: int, message: string, content: string, keepAlive: bool): (r: Response)
    ensures r.statusCode == code && r.statusMessage == message
    ensures r.body == content && r.keepAlive == keepAlive && LengthConsistent(r)
    ensures r.headers == map["Content-Type" := "text/plain", "Content-Length" := NatToString(|content|)]
  {
    WithBody(WithStatus(Fresh, code).(statusMessage := message), content, "text/plain").(keepAlive := keepAlive)
  }

  /** The `Keep-Alive` value `to_string` advertises. */
  function KeepAliveHint(): string {
    "timeout=" + IntToString(KeepAliveTimeout) + ", max=" + IntToString(KeepAliveMax)
  }

  lemma KeepAliveHintText()
    ensures KeepAliveHint() == "timeout=5, max=100"
  {
  }

  /** The header map after `to_string` has written the connection headers. */
  function InjectConnection(h: map<string, string>, keepAlive: bool): (h': map<string, string>)
    ensures "Connection" in h'
    ensures h'["Connection"] == if keepAlive then "keep-alive" else "close"
    ensures keepAlive ==> "Keep-Alive" in h' && h'["Keep-Alive"] == KeepAliveHint()
    ensures !keepAlive ==> ("Keep-Alive" in h' <==> "Keep-Alive" in h)
    ensures forall k :: k in h ==> k in h'
    ensures forall k :: k in h' && k != "Connection" && (keepAlive ==> k != "Keep-Alive") ==>
              k in h && h'[k] == h[k]
  {
    if keepAlive then h["Connection" := "keep-alive"]["Keep-Alive" := KeepAliveHint()]
    else h["Connection" := "close"]
  }

  /** The response state after `to_string`. */
  function Prepared(r: Response): Response {
    r.(headers := InjectConnection(r.headers, r.keepAlive))
  }

  function StatusLine(code: int, message: string): string {
    "HTTP/1.1 " + IntToString(code) + " " + message + "\r\n"
  }

  function HeaderLine(key: string, value: string): string {
    key + ": " + value + "\r\n"
  }

  /** The header lines for `keys`, in the order given. */
  function HeaderLines(h: map<string, string>, keys: seq<string>): string
    requires forall k :: k in keys ==> k in h
    decreases |keys|
  {
    if keys == [] then ""
    else HeaderLines(h, keys[..|keys| - 1]) + HeaderLine(keys[|keys| - 1], h[keys[|keys| - 1]])
  }

  lemma HeaderLinesSnoc(h: map<string, string>, keys: seq<string>, key: string)
    requires forall k :: k in keys ==> k in h
    requires key in h
    ensures HeaderLines(h, keys + [key]) == HeaderLines(h, keys) + HeaderLine(key, h[key])
  {
    assert (keys + [key])[..|keys|] == keys;
  }

  /** The bytes written for a response state: status line, every header once
      in ascending key order, a blank line, the body verbatim. */
  ghost function Wire(r: Response): string {
    StatusLine(r.statusCode, r.statusMessage)
      + HeaderLines(r.headers, SortedKeys(r.headers.Keys)) + "\r\n" + r.body
  }

  /** What `to_string` returns for a response. */
  ghost function Serialize(r: Response): string {
    Wire(Prepared(r))
  }

  lemma HeaderLinesEndWithCrlf(h: map<string, string>, keys: seq<string>)
    requires forall k :: k in keys ==> k in h
    requires keys != []
    ensures var s := HeaderLines(h, keys); |s| >= 2 && s[|s| - 2..] == "\r\n"
  {
    var last := keys[|keys| - 1];
    var line := HeaderLine(last, h[last]);
    assert line[|line| - 2..] == "\r\n";
    var s := HeaderLines(h, keys);
    assert s == HeaderLines(h, keys[..|keys| - 1]) + line;
    assert s[|s| - 2..] == line[|line| - 2..];
  }

  lemma FramingOfParts(status: string, lines: string, body: string)
    requires |lines| >= 2 && lines[|lines| - 2..] == "\r\n"
    ensures Framed(status + lines + "\r\n" + body, status, body)
  {
    var s := status + lines + "\r\n" + body;
    assert s[..|status|] == status;
    assert s[|s| - |body| - 4 .. |s| - |body|] == lines[|lines| - 2..] + "\r\n";
  }

  /** `s` begins with `status` and ends with `body`, and the header block
      before the body is closed by an empty line. */
  predicate Framed(s: string, status: string, body: string) {
    && status <= s
    && |s| >= |body| + 4
    && s[|s| - |body|..] == body
    && s[|s| - |body| - 4 .. |s| - |body|] == "\r\n\r\n"
  }

  /** The wire form begins with the status line and ends with the body,
      and the header block before the body is closed by an empty line. */
  lemma SerializeFraming(r: Response)
    ensures Framed(Serialize(r), StatusLine(r.statusCode, r.statusMessage), r.body)
  {
    PreparedHasConnection(r);
    WireFraming(Prepared(r));
  }

  lemma PreparedHasConnection(r: Response)
    ensures "Connection" in Prepared(r).headers
    ensures Prepared(r) == r.(headers := Prepared(r).headers)
  {
  }

  /** The framing of `Wire` for a state with at least one header. */
  lemma WireFraming(p: Response)
    requires "Connection" in p.headers
    ensures Framed(Wire(p), StatusLine(p.statusCode, p.statusMessage), p.body)
  {
    var keys := SortedKeys(p.headers.Keys);
    assert "Connection" in keys;
    HeaderLinesEndWithCrlf(p.headers, keys);
    FramingOfParts(StatusLine(p.statusCode, p.statusMessage), HeaderLines(p.headers, keys), p.body);
  }

  /** `to_string` a second time, with nothing changed in between, writes the
      same headers and returns the same string. */
  lemma PreparedIdempotent(r: Response)
    ensures Prepared(Prepared(r)) == Prepared(r)
    ensures Serialize(Prepared(r)) == Serialize(r)
  {
    var h := r.headers;
    if r.keepAlive {
      assert InjectConnection(InjectConnection(h, true), true) == InjectConnection(h, true);
    } else {
      assert InjectConnection(InjectConnection(h, false), false) == InjectConnection(h, false);
    }
  }

  /** `to_string` leaves the body-framing invariant intact. */
  lemma PreparedKeepsLength(r: Response)
    requires LengthConsistent(r)
    ensures LengthConsistent(Prepared(r))
  {
  }

  /** The loop state of the header iteration: `emitted` holds the keys
      written so far, in key order, `remaining` the rest, and `lines` the
      text written for `emitted`. */
  ghost predicate EmittedSoFar(h: map<string, string>, emitted: seq<string>, remaining: set<string>, lines: string) {
    && remaining <= h.Keys
    && (forall k :: k in emitted ==> k in h)
    && SortedKeys(h.Keys) == emitted + SortedKeys(remaining)
    && lines == HeaderLines(h, emitted)
  }

  /** One step of the iteration over a `std::map`: the least remaining key
      is the next in key order. */
  lemma EmitStep(h: map<string, string>, emitted: seq<string>, remaining: set<string>, lines: string, key: string)
    requires EmittedSoFar(h, emitted, remaining, lines) && IsLeast(key, remaining)
    ensures key in h
    ensures EmittedSoFar(h, emitted + [key], remaining - {key}, lines + HeaderLine(key, h[key]))
  {
    SortedKeysUnfold(remaining, key);
    ShiftFirst(emitted, key, SortedKeys(remaining - {key}));
    forall k | k in emitted + [key] ensures k in h {
      if k != key {
        assert k in emitted;
      }
    }
    HeaderLinesSnoc(h, emitted, key);
  }

  lemma ShiftFirst<T>(a: seq<T>, x: T, b: seq<T>)
    ensures a + ([x] + b) == (a + [x]) + b
  {
  }

  /** One turn of the loop over the map: the least remaining key's line. */
  method EmitNext(h: map<string, string>, ghost emitted: seq<string>, remaining: set<string>, lines: string)
    returns (ghost emitted': seq<string>, remaining': set<string>, lines': string)
    requires remaining != {} && EmittedSoFar(h, emitted, remaining, lines)
    ensures EmittedSoFar(h, emitted', remaining', lines') && |remaining'| < |remaining|
  {
    LeastExists(remaining);
    var key :| IsLeast(key, remaining);
    EmitStep(h, emitted, remaining, lines, key);
    lines' := lines + HeaderLine(key, h[key]);
    emitted' := emitted + [key];
    remaining' := remaining - {key};
  }

  /** The header lines of `h`, visiting its keys least first as the
      iteration of a `std::map` does. */
  method EmitHeaders(h: map<string, string>) returns (lines: string)
    ensures lines == HeaderLines(h, SortedKeys(h.Keys))
  {
    lines := "";
    var remaining := h.Keys;
    ghost var emitted: seq<string> := [];
    assert SortedKeys(h.Keys) == emitted + SortedKeys(remaining);
    while remaining != {}
      invariant EmittedSoFar(h, emitted, remaining, lines)
      decreases |remaining|
    {
      emitted, remaining, lines := EmitNext(h, emitted, remaining, lines);
    }
    assert |SortedKeys(remaining)| == 0;
    assert emitted + SortedKeys(remaining) == emitted;
  }

  /** The response object. */
  class HttpResponse {
    var statusCode: int
    var statusMessage: string
    var body: string
    var headers: map<string, string>
    var keepAlive: bool

    function Value(): Response
      reads this
    {
      Response(statusCode, statusMessage, body, headers, keepAlive)
    }

    constructor ()
      ensures statusCode == 200 && statusMessage == "OK" && body == ""
      ensures headers == map[] && keepAlive
      ensures Value() == Fresh
    {
      statusCode := 200;
      statusMessage := "OK";
      body := "";
      headers := map[];
      keepAlive := true;
    }

    method SetBody(content: string, contentType: string := "text/plain")
      modifies this
      ensures Value() == WithBody(old(Value()), content, contentType)
    {
      body := content;
      headers := headers["Content-Type" := contentType];
      headers := headers["Content-Length" := NatToString(|body|)];
    }

    method SetStatus(code: int)
      modifies this
      ensures Value() == WithStatus(old(Value()), code)
    {
      statusCode := code;
      if code == 200 {
        statusMessage := "OK";
      } else if code == 201 {
        statusMessage := "Created";
      } else if code == 400 {
        statusMessage := "Bad Request";
      } else if code == 404 {
        statusMessage := "Not Found";
      } else if code == 500 {
        statusMessage := "Internal Server Error";
      } else {
        statusMessage := "Unknown Status";
      }
    }

    /** Writes the connection headers into `headers`, then formats the
        response, visiting `headers` in key order. */
    method ToString() returns (s: string)
      modifies this
      ensures Value() == Prepared(old(Value()))
      ensures s == Serialize(old(Value()))
    {
      if keepAlive {
        headers := headers["Connection" := "keep-alive"];
        headers := headers["Keep-Alive" := KeepAliveHint()];
      } else {
        headers := headers["Connection" := "close"];
      }
      var lines := EmitHeaders(headers);
      s := StatusLine(statusCode, statusMessage) + lines;
      s := s + "\r\n" + body;
    }
  }
}
