/** The built-in middlewares: a request-id stamp, CORS, a per-client
    sliding-window rate limiter and a content-type guard, with the state the
    first and the third keep between requests. */
module Middlewares {
  import opened Text
  import opened HttpRequests
  import opened HttpResponses

  // ---------------------------------------------------------------------
  // request_id
  // ---------------------------------------------------------------------

  const RequestIdHeader: string := "X-Request-Id"

  /** The response from `next()` with the id stamped on it. */
  function Stamp(res: Response, id: nat): Response {
    res.(headers := res.headers[RequestIdHeader := NatToString(id)])
  }

  /** The stamp adds `X-Request-Id` and nothing else, and its value reads
      back as the id. */
  lemma StampOnlyAddsId(res: Response, id: nat)
    ensures var r := Stamp(res, id);
      && RequestIdHeader in r.headers
      && (id <= ULongMax ==> Stoul(r.headers[RequestIdHeader]) == Some(id))
      && (forall k :: k != RequestIdHeader ==> (k in r.headers <==> k in res.headers))
      && (forall k :: k != RequestIdHeader && k in res.headers ==> r.headers[k] == res.headers[k])
      && r.statusCode == res.statusCode && r.statusMessage == res.statusMessage
      && r.body == res.body && r.keepAlive == res.keepAlive
  {
    StoulOfNatToString(id);
  }

  /** Different ids give different `X-Request-Id` values. */
  lemma StampsDistinct(a: Response, b: Response, i: nat, j: nat)
    requires i != j
    ensures Stamp(a, i).headers[RequestIdHeader] != Stamp(b, j).headers[RequestIdHeader]
  {
    if NatToString(i) == NatToString(j) {
      NatToStringInjective(i, j);
    }
  }

  // ---------------------------------------------------------------------
  // cors
  // ---------------------------------------------------------------------

  /** The arguments `cors` captures. */
  datatype CorsConfig = CorsConfig(
    allowedOrigins: string,
    allowedMethods: string,
    allowedHeaders: string,
    maxAgeSeconds: int)

  /** `cors()` with its default arguments. */
  const DefaultCors: CorsConfig :=
    CorsConfig("*", "GET, POST, PUT, DELETE, PATCH, OPTIONS", "Content-Type, Authorization, X-Request-Id", 86400)

  predicate IsPreflight(r: Request) {
    r.httpMethod == "OPTIONS"
  }

  /** The answer to a preflight `OPTIONS`: `set_status(204)`, the message,
      the four `Access-Control-*` headers and the client's keep-alive
      preference. */
  function Preflight(c: CorsConfig, r: Request): Response {
    var res := WithStatus(Fresh, 204).(statusMessage := "No Content");
    res.(headers := res.headers
                      ["Access-Control-Allow-Origin" := c.allowedOrigins]
                      ["Access-Control-Allow-Methods" := c.allowedMethods]
                      ["Access-Control-Allow-Headers" := c.allowedHeaders]
                      ["Access-Control-Max-Age" := IntToString(c.maxAgeSeconds)],
         keepAlive := r.WantsKeepAlive())
  }

  /** The preflight answer is 204 "No Content" with an empty body, exactly
      the four configured `Access-Control-*` headers (so no
      `Content-Length`), and the client's keep-alive preference. */
  lemma PreflightResponse(c: CorsConfig, r: Request)
    ensures var res := Preflight(c, r);
      && res.statusCode == 204 && res.statusMessage == "No Content" && res.body == ""
      && res.headers == map[
           "Access-Control-Allow-Origin" := c.allowedOrigins,
           "Access-Control-Allow-Methods" := c.allowedMethods,
           "Access-Control-Allow-Headers" := c.allowedHeaders,
           "Access-Control-Max-Age" := IntToString(c.maxAgeSeconds)]
      && "Content-Length" !in res.headers
      && res.keepAlive == r.WantsKeepAlive()
  {
  }

  /** The default configuration advertises a day: `Max-Age` 86400. */
  lemma DefaultMaxAgeText()
    ensures IntToString(DefaultCors.maxAgeSeconds) == "86400"
  {
    assert NatToString(8) == "8";
    assert NatToString(86) == "86";
    assert NatToString(864) == "864";
    assert NatToString(8640) == "8640";
    assert NatToString(86400) == "86400";
  }

  /** The response from `next()` with the allowed origin added. */
  function AllowOrigin(c: CorsConfig, res: Response): Response {
    res.(headers := res.headers["Access-Control-Allow-Origin" := c.allowedOrigins])
  }

  // ---------------------------------------------------------------------
  // rate_limit: client key
  // ---------------------------------------------------------------------

  const ForwardedFor: string := "X-Forwarded-For"

  /** `s` without its trailing spaces. */
  function TrimTrailingSpaces(s: string): (t: string)
    ensures t <= s
    ensures t == [] || t[|t| - 1] != ' '
    ensures forall i :: |t| <= i < |s| ==> s[i] == ' '
    decreases |s|
  {
    if s != [] && s[|s| - 1] == ' ' then TrimTrailingSpaces(s[..|s| - 1]) else s
  }

  /** `v.find(',')`, or the length of `v` when there is none (`substr`
      clamps `npos`). */
  function CommaOrEnd(v: string): (k: nat)
    ensures k <= |v|
    ensures forall i :: 0 <= i < k ==> v[i] != ','
    ensures k < |v| ==> v[k] == ','
  {
    match FindChar(v, ',', 0)
    case Some(k) => k
    case None => |v|
  }

  /** The client key: "local" without a non-empty `X-Forwarded-For`;
      otherwise its first comma-separated entry without trailing spaces
      (leading spaces are kept). */
  function ClientKey(r: Request): string {
    if ForwardedFor in r.headers && r.headers[ForwardedFor] != [] then
      var v := r.headers[ForwardedFor];
      TrimTrailingSpaces(v[..CommaOrEnd(v)])
    else "local"
  }

  /** What the key is, stated without the trimming function: a prefix of
      the header before any comma, followed in the header only by spaces up
      to the first comma or the end, and not ending in a space. */
  lemma ClientKeyShape(r: Request)
    requires ForwardedFor in r.headers && r.headers[ForwardedFor] != []
    ensures var v := r.headers[ForwardedFor]; var key := ClientKey(r);
      && key <= v
      && (forall i :: 0 <= i < |key| ==> key[i] != ',')
      && (key == [] || key[|key| - 1] != ' ')
      && (forall i :: |key| <= i < CommaOrEnd(v) ==> v[i] == ' ')
  {
    var v := r.headers[ForwardedFor];
    var key := ClientKey(r);
    assert key <= v[..CommaOrEnd(v)];
  }

  /** The first address of a forwarded list is the key. */
  lemma ClientKeyOfList(r: Request, first: string, rest: string)
    requires ForwardedFor in r.headers && r.headers[ForwardedFor] == first + "," + rest
    requires forall i :: 0 <= i < |first| ==> first[i] != ','
    requires first == [] || first[|first| - 1] != ' '
    ensures ClientKey(r) == first
  {
    var v := r.headers[ForwardedFor];
    FindCharAt(v, ',', 0, |first|);
    assert v[..|first|] == first;
  }

  /** The `client_key` computation of `rate_limit`. */
  method ClientKeyOf(r: Request) returns (clientKey: string)
    ensures clientKey == ClientKey(r)
  {
    clientKey := "local";
    if ForwardedFor in r.headers && r.headers[ForwardedFor] != [] {
      var v := r.headers[ForwardedFor];
      clientKey := v[..CommaOrEnd(v)];
      while clientKey != [] && clientKey[|clientKey| - 1] == ' '
        invariant TrimTrailingSpaces(clientKey) == TrimTrailingSpaces(v[..CommaOrEnd(v)])
        decreases |clientKey|
      {
        clientKey := clientKey[..|clientKey| - 1];
      }
    }
  }

  // ---------------------------------------------------------------------
  // rate_limit: eviction and admission
  // ---------------------------------------------------------------------

  /** `steady_clock` ticks are nanoseconds; a time point is a tick count. */
  const NanosPerSecond: nat := 1_000_000_000

  /** `now - tp > window`: a timestamp older than the window. One exactly
      `window` old is still inside it. */
  predicate Expired(tp: nat, now: nat, windowSecs: int) {
    now - tp > windowSecs * NanosPerSecond
  }

  /** The bucket after the `erase`/`remove_if`: the timestamps inside the
      window, in their order. */
  function Evicted(ts: seq<nat>, now: nat, windowSecs: int): seq<nat>
    decreases |ts|
  {
    if ts == [] then []
    else
      Evicted(ts[..|ts| - 1], now, windowSecs)
        + (if Expired(ts[|ts| - 1], now, windowSecs) then [] else [ts[|ts| - 1]])
  }

  /** Eviction removes exactly the expired timestamps: every occurrence of
      one inside the window stays, every occurrence of an expired one goes. */
  lemma {:induction false} EvictedExactly(ts: seq<nat>, now: nat, windowSecs: int)
    ensures forall t :: multiset(Evicted(ts, now, windowSecs))[t]
                        == if Expired(t, now, windowSecs) then 0 else multiset(ts)[t]
    decreases |ts|
  {
    if ts != [] {
      var init := ts[..|ts| - 1];
      var last := ts[|ts| - 1];
      EvictedExactly(init, now, windowSecs);
      assert ts == init + [last];
      EvictedSnoc(init, last, now, windowSecs);
    }
  }

  /** Eviction never adds timestamps. */
  lemma {:induction false} EvictedShrinks(ts: seq<nat>, now: nat, windowSecs: int)
    ensures |Evicted(ts, now, windowSecs)| <= |ts|
    decreases |ts|
  {
    if ts != [] {
      EvictedShrinks(ts[..|ts| - 1], now, windowSecs);
    }
  }

  lemma EvictedSnoc(init: seq<nat>, last: nat, now: nat, windowSecs: int)
    ensures multiset(init + [last]) == multiset(init) + multiset{last}
    ensures Evicted(init + [last], now, windowSecs)
         == Evicted(init, now, windowSecs) + (if Expired(last, now, windowSecs) then [] else [last])
  {
    assert (init + [last])[..|init|] == init;
  }

  /** The eviction loop (`std::remove_if` then `erase`). */
  method EvictBucket(ts: seq<nat>, now: nat, windowSecs: int) returns (kept: seq<nat>)
    ensures kept == Evicted(ts, now, windowSecs)
  {
    kept := [];
    var i := 0;
    while i < |ts|
      invariant i <= |ts|
      invariant kept == Evicted(ts[..i], now, windowSecs)
      decreases |ts| - i
    {
      assert ts[..i + 1][..i] == ts[..i];
      if !(now - ts[i] > windowSecs * NanosPerSecond) {
        kept := kept + [ts[i]];
      }
      i := i + 1;
    }
    assert ts[..i] == ts;
  }

  /** The buckets of one `rate_limit` instance, by client key. */
  type Buckets = map<string, seq<nat>>

  function BucketOf(b: Buckets, key: string): seq<nat> {
    if key in b then b[key] else []
  }

  /** The outcome of one admission: the buckets afterwards, and whether the
      request goes on to `next`. */
  datatype Admission = Admission(buckets: Buckets, admitted: bool)

  /** `buckets[client_key]` (created empty if new), evicted; full buckets
      reject without recording, otherwise `now` is appended. */
  function Admit(b: Buckets, key: string, now: nat, maxRequests: int, windowSecs: int): Admission {
    var kept := Evicted(BucketOf(b, key), now, windowSecs);
    if |kept| >= maxRequests then Admission(b[key := kept], false)
    else Admission(b[key := kept + [now]], true)
  }

  /** The most timestamps a bucket may hold. */
  function Cap(maxRequests: int): nat {
    if maxRequests > 0 then maxRequests else 0
  }

  predicate WithinCap(b: Buckets, maxRequests: int) {
    forall k :: k in b ==> |b[k]| <= Cap(maxRequests)
  }

  /** Admission keeps every bucket within `max(max_requests, 0)`
      timestamps. */
  lemma AdmitWithinCap(b: Buckets, key: string, now: nat, maxRequests: int, windowSecs: int)
    requires WithinCap(b, maxRequests)
    ensures WithinCap(Admit(b, key, now, maxRequests, windowSecs).buckets, maxRequests)
  {
    EvictedShrinks(BucketOf(b, key), now, windowSecs);
  }

  /** Admission touches only the client's bucket: every other key keeps its
      bucket, and the client's bucket exists afterwards. */
  lemma AdmitTouchesOnlyClient(b: Buckets, key: string, now: nat, maxRequests: int, windowSecs: int)
    ensures var b' := Admit(b, key, now, maxRequests, windowSecs).buckets;
      && key in b'
      && (forall k :: k != key ==> (k in b' <==> k in b))
      && (forall k :: k != key && k in b ==> b'[k] == b[k])
  {
  }

  /** A rejected request records nothing; an admitted one records exactly
      `now`, after the timestamps inside the window. */
  lemma AdmitRecords(b: Buckets, key: string, now: nat, maxRequests: int, windowSecs: int)
    ensures var a := Admit(b, key, now, maxRequests, windowSecs);
      var kept := Evicted(BucketOf(b, key), now, windowSecs);
      && (a.admitted <==> |kept| < maxRequests)
      && a.buckets[key] == if a.admitted then kept + [now] else kept
  {
  }

  /** With at most one request per window allowed, a second request inside
      the window from the same client is refused. */
  lemma SecondRequestRefused(b: Buckets, key: string, t1: nat, t2: nat, windowSecs: int)
    requires t1 <= t2 && t2 - t1 <= windowSecs * NanosPerSecond
    requires Admit(b, key, t1, 1, windowSecs).admitted
    ensures !Admit(Admit(b, key, t1, 1, windowSecs).buckets, key, t2, 1, windowSecs).admitted
  {
    var b1 := Admit(b, key, t1, 1, windowSecs).buckets;
    var kept := Evicted(BucketOf(b, key), t1, windowSecs);
    assert BucketOf(b1, key) == kept + [t1];
    EvictedExactly(kept + [t1], t2, windowSecs);
    assert multiset(Evicted(kept + [t1], t2, windowSecs))[t1] >= 1;
  }

  /** The 429 answer: `set_status(429)`, the message, `Retry-After`, the
      body and the client's keep-alive preference. */
  function TooManyRequests(windowSecs: int, r: Request): Response {
    var res := WithStatus(Fresh, 429).(statusMessage := "Too Many Requests");
    var res' := res.(headers := res.headers["Retry-After" := IntToString(windowSecs)]);
    WithBody(res', "Rate limit exceeded. Try again later.", "text/plain").(keepAlive := r.WantsKeepAlive())
  }

  /** The 429 is status 429 "Too Many Requests", `Retry-After` in seconds,
      the fixed text as a length-framed plain-text body, and the client's
      keep-alive preference. */
  lemma TooManyRequestsResponse(windowSecs: int, r: Request)
    ensures var res := TooManyRequests(windowSecs, r);
      && res.statusCode == 429 && res.statusMessage == "Too Many Requests"
      && res.body == "Rate limit exceeded. Try again later."
      && res.headers == map[
           "Retry-After" := IntToString(windowSecs),
           "Content-Type" := "text/plain",
           "Content-Length" := "37"]
      && res.keepAlive == r.WantsKeepAlive()
  {
    assert |"Rate limit exceeded. Try again later."| == 37;
    assert NatToString(37) == "37";
  }

  // ---------------------------------------------------------------------
  // require_content_type
  // ---------------------------------------------------------------------

  const BodyMethods: seq<string> := ["POST", "PUT", "PATCH"]

  predicate IsBodyMethod(m: string) {
    m in BodyMethods
  }

  function UnsupportedMediaType(requiredType: string, r: Request): Response {
    PlainResponse(415, "Unsupported Media Type", "Expected Content-Type: " + requiredType, r.WantsKeepAlive())
  }

  /** The guard's decision: the 415 for a body-carrying method whose
      `Content-Type` is missing or does not contain the required type,
      otherwise nothing (the request goes on to `next`). */
  function ContentTypeRejection(requiredType: string, r: Request): Option<Response> {
    if IsBodyMethod(r.httpMethod)
       && ("Content-Type" !in r.headers || !Contains(r.headers["Content-Type"], requiredType))
    then Some(UnsupportedMediaType(requiredType, r))
    else None
  }

  /** Only POST, PUT and PATCH are checked; a declared type that contains
      the required one (such as `application/json; charset=utf-8`) passes,
      and one that is missing or holds it nowhere gets the 415. */
  lemma ContentTypeGuard(requiredType: string, r: Request, pre: string, post: string)
    ensures !IsBodyMethod(r.httpMethod) ==> ContentTypeRejection(requiredType, r).None?
    ensures "Content-Type" in r.headers && r.headers["Content-Type"] == pre + requiredType + post
            ==> ContentTypeRejection(requiredType, r).None?
    ensures IsBodyMethod(r.httpMethod) && "Content-Type" !in r.headers
            ==> ContentTypeRejection(requiredType, r) == Some(UnsupportedMediaType(requiredType, r))
    ensures ContentTypeRejection(requiredType, r).Some?
        <==> IsBodyMethod(r.httpMethod)
             && ("Content-Type" !in r.headers
                 || forall p1, p2 :: r.headers["Content-Type"] != p1 + requiredType + p2)
  {
    ContainsInfix(pre, requiredType, post);
    if "Content-Type" in r.headers {
      var v := r.headers["Content-Type"];
      if Contains(v, requiredType) {
        var p1, p2 := ContainsSplits(v, requiredType);
      } else {
        forall p1, p2
          ensures v != p1 + requiredType + p2
        {
          ContainsInfix(p1, requiredType, p2);
        }
      }
    }
  }

  /** The 415: status 415 "Unsupported Media Type", a plain-text body
      naming the expected type, and the client's keep-alive preference. */
  lemma UnsupportedMediaTypeResponse(requiredType: string, r: Request)
    ensures var res := UnsupportedMediaType(requiredType, r);
      && res.statusCode == 415 && res.statusMessage == "Unsupported Media Type"
      && res.body == "Expected Content-Type: " + requiredType && LengthConsistent(res)
      && res.keepAlive == r.WantsKeepAlive()
  {
  }

  // ---------------------------------------------------------------------
  // The state kept between requests
  // ---------------------------------------------------------------------

  /** The value of the shared state: the request-id counter and, for each
      `rate_limit` instance, its buckets. */
  datatype Shared = Shared(counter: nat, limits: map<nat, Buckets>)

  /** The buckets of instance `slot`: a new instance starts with none. */
  function LimitOf(limits: map<nat, Buckets>, slot: nat): Buckets {
    if slot in limits then limits[slot] else map[]
  }

  /** The state after `rate_limit` instance `slot` has seen a request. */
  function AfterAdmit(s: Shared, slot: nat, r: Request, now: nat, maxRequests: int, windowSecs: int): Shared {
    s.(limits := s.limits[slot := Admit(LimitOf(s.limits, slot), ClientKey(r), now, maxRequests, windowSecs).buckets])
  }

  predicate Admitted(s: Shared, slot: nat, r: Request, now: nat, maxRequests: int, windowSecs: int) {
    Admit(LimitOf(s.limits, slot), ClientKey(r), now, maxRequests, windowSecs).admitted
  }

  /** The request-id counter and the buckets of every `rate_limit`
      instance: the static `std::atomic` counter of `request_id` and the
      mutex-guarded map each `rate_limit` call allocates. */
  class SharedState {
    var counter: nat
    var limits: map<nat, Buckets>

    function Value(): Shared
      reads this
    {
      Shared(counter, limits)
    }

    constructor()
      ensures Value() == Shared(1, map[])
    {
      counter := 1;
      limits := map[];
    }

    /** `counter.fetch_add(1)`: the current value, then one more. */
    method TakeId() returns (id: nat)
      modifies this
      ensures id == old(counter) && counter == id + 1 && limits == old(limits)
    {
      id := counter;
      counter := counter + 1;
    }

    /** The locked part of `rate_limit` for instance `slot`: the 429 when
        the client's bucket is full, nothing otherwise. */
    method Admit(slot: nat, maxRequests: int, windowSecs: int, r: Request, now: nat)
      returns (rejection: Option<Response>)
      modifies this
      ensures Value() == AfterAdmit(old(Value()), slot, r, now, maxRequests, windowSecs)
      ensures rejection == if Admitted(old(Value()), slot, r, now, maxRequests, windowSecs) then None
                           else Some(TooManyRequests(windowSecs, r))
    {
      var clientKey := ClientKeyOf(r);
      var buckets := LimitOf(limits, slot);
      var bucket := EvictBucket(BucketOf(buckets, clientKey), now, windowSecs);
      if |bucket| >= maxRequests {
        limits := limits[slot := buckets[clientKey := bucket]];
        rejection := Some(TooManyRequests(windowSecs, r));
        return;
      }
      bucket := bucket + [now];
      limits := limits[slot := buckets[clientKey := bucket]];
      rejection := None;
    }
  }
}
