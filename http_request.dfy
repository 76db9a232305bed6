/** The request object and its incremental parser: the request line, the
    header fields, a `Content-Length` body, the decoded path and the query
    parameters, and the keep-alive preference of the client. */
module HttpRequests {
  import opened Text

  /** The value of an `HttpRequest`'s fields. */
  datatype Request = Request(
    httpMethod: string,
    path: string,
    version: string,
    body: string,
    headers: map<string, string>,
    queryParams: map<string, string>,
    pathParams: map<string, string>,
    rawPath: string)
  {
    /** `wants_keep_alive`: an explicit `Connection` header decides, by a
        case-insensitive search for `keep-alive`; without one only
        `HTTP/1.1` asks for a persistent connection. */
    predicate WantsKeepAlive() {
      if "Connection" in headers then Contains(ToLower(headers["Connection"]), "keep-alive")
      else version == "HTTP/1.1"
    }

    predicate HasQueryParam(name: string) {
      name in queryParams
    }

    function GetQueryParam(name: string, default: string): (v: string)
      ensures HasQueryParam(name) ==> v == queryParams[name]
      ensures !HasQueryParam(name) ==> v == default
    {
      if name in queryParams then queryParams[name] else default
    }

    predicate HasPathParam(name: string) {
      name in pathParams
    }

    function GetPathParam(name: string, default: string): (v: string)
      ensures HasPathParam(name) ==> v == pathParams[name]
      ensures !HasPathParam(name) ==> v == default
    {
      if name in pathParams then pathParams[name] else default
    }
  }

  /** A default-constructed `HttpRequest`. */
  const Empty: Request := Request("", "", "", "", map[], map[], map[], "")

  /** `ParseResult`: one flag for "complete", the length of the request. */
  datatype ParseResult = ParseResult(success: bool, bytesConsumed: nat)

  const Failed: ParseResult := ParseResult(false, 0)

  /** The request state after `parse`, with the result it returns. */
  datatype Parsed = Parsed(request: Request, result: ParseResult)

  // ---------------------------------------------------------------------
  // Keep-alive
  // ---------------------------------------------------------------------

  /** Without a `Connection` header, HTTP/1.1 persists and HTTP/1.0 does not. */
  lemma KeepAliveDefault(r: Request)
    requires "Connection" !in r.headers
    ensures r.WantsKeepAlive() <==> r.version == "HTTP/1.1"
    ensures r.(version := "HTTP/1.0").WantsKeepAlive() == false
  {
  }

  /** The `Connection` value is compared without regard to letter case, and
      it overrides the version default in both directions. */
  lemma KeepAliveIgnoresCase(r: Request, v1: string, v2: string)
    requires SameIgnoringCase(v1, v2)
    ensures r.(headers := r.headers["Connection" := v1]).WantsKeepAlive()
        == r.(headers := r.headers["Connection" := v2]).WantsKeepAlive()
  {
    SameIgnoringCaseLowersEqual(v1, v2);
  }

  /** The token `keep-alive`, in any letter case, starts at byte `k` of `v`. */
  predicate KeepAliveTokenAt(v: string, k: nat) {
    k + 10 <= |v| && SameIgnoringCase(v[k..k + 10], "keep-alive")
  }

  /** An explicit `Connection` header decides by itself: keep-alive holds
      exactly when the value holds the token `keep-alive` somewhere, in any
      letter case, whatever the version. */
  lemma KeepAliveToken(r: Request, v: string)
    ensures r.(headers := r.headers["Connection" := v]).WantsKeepAlive()
        <==> exists k :: KeepAliveTokenAt(v, k)
  {
    if k: nat :| KeepAliveTokenAt(v, k) {
      TokenLowersToKeepAlive(v, k);
    }
    if Contains(ToLower(v), "keep-alive") {
      var k := KeepAliveFound(v);
    }
  }

  /** A token in any case is found once the value is lowered ... */
  lemma TokenLowersToKeepAlive(v: string, k: nat)
    requires KeepAliveTokenAt(v, k)
    ensures Contains(ToLower(v), "keep-alive")
  {
    var low := ToLower(v);
    SameIgnoringCaseLowersEqual(v[k..k + 10], "keep-alive");
    assert low[k..k + 10] == ToLower(v[k..k + 10]) == "keep-alive";
    assert low == low[..k] + "keep-alive" + low[k + 10..];
    ContainsInfix(low[..k], "keep-alive", low[k + 10..]);
  }

  /** ... and a match in the lowered value is such a token. */
  lemma KeepAliveFound(v: string) returns (k: nat)
    requires Contains(ToLower(v), "keep-alive")
    ensures KeepAliveTokenAt(v, k)
  {
    var low := ToLower(v);
    var pre, post := ContainsSplits(low, "keep-alive");
    k := |pre|;
    assert low[k..k + 10] == "keep-alive";
  }

  /** A `Connection` value too short to hold the token, such as `close`,
      turns keep-alive off even for HTTP/1.1. */
  lemma KeepAliveExplicitClose(r: Request)
    requires r.version == "HTTP/1.1" && "Connection" in r.headers && |r.headers["Connection"]| < 10
    ensures !r.WantsKeepAlive()
  {
    var low := ToLower(r.headers["Connection"]);
    if Contains(low, "keep-alive") {
      var pre, post := ContainsSplits(low, "keep-alive");
    }
  }

  // ---------------------------------------------------------------------
  // Percent-decoding
  // ---------------------------------------------------------------------

  predicate IsHexDigit(c: char) {
    IsDigit(c) || ('a' <= c <= 'f') || ('A' <= c <= 'F')
  }

  function HexValue(c: char): (v: nat)
    requires IsHexDigit(c)
    ensures v < 16
  {
    if IsDigit(c) then c as int - '0' as int
    else if 'a' <= c <= 'f' then c as int - 'a' as int + 10
    else c as int - 'A' as int + 10
  }

  function HexDigitChar(v: nat): (c: char)
    requires v < 16
    ensures IsHexDigit(c) && HexValue(c) == v
  {
    if v < 10 then ('0' as int + v) as char else ('A' as int + v - 10) as char
  }

  /** The byte `std::istringstream(s) >> std::hex >> v` followed by
      `static_cast<char>(v)` yields for the two bytes `s == [a, b]` after a
      `%`: leading white space is skipped, an optional sign is read, then the
      longest run of hex digits; no digit at all leaves `v == 0`. */
  function EscapeByte(a: char, b: char): (c: char)
    ensures IsHexDigit(a) && IsHexDigit(b) ==> c as int == 16 * HexValue(a) + HexValue(b)
    ensures c as int < 256
  {
    if IsHexDigit(a) then
      if IsHexDigit(b) then (16 * HexValue(a) + HexValue(b)) as char else HexValue(a) as char
    else if (IsSpace(a) || a == '+') && IsHexDigit(b) then HexValue(b) as char
    else if a == '-' && IsHexDigit(b) then ((256 - HexValue(b)) % 256) as char
    else 0 as char
  }

  /** `url_decode`: a `%` followed by at least two bytes becomes one byte,
      a `+` becomes a space, every other byte (a `%` near the end included)
      is copied. Never longer than its input. */
  function UrlDecoded(s: string): (r: string)
    ensures |r| <= |s|
    decreases |s|
  {
    if s == [] then []
    else if s[0] == '%' && 2 < |s| then [EscapeByte(s[1], s[2])] + UrlDecoded(s[3..])
    else if s[0] == '+' then [' '] + UrlDecoded(s[1..])
    else [s[0]] + UrlDecoded(s[1..])
  }

  /** The decoding of the rest at offset `i`, one step at a time: an
      escape ... */
  lemma UrlDecodedEscapeAt(s: string, i: nat)
    requires i + 2 < |s| && s[i] == '%'
    ensures UrlDecoded(s[i..]) == [EscapeByte(s[i + 1], s[i + 2])] + UrlDecoded(s[i + 3..])
  {
    assert s[i..][3..] == s[i + 3..];
  }

  /** ... or one byte copied, `+` as a space. */
  lemma UrlDecodedByteAt(s: string, i: nat)
    requires i < |s| && !(s[i] == '%' && i + 2 < |s|)
    ensures UrlDecoded(s[i..]) == [if s[i] == '+' then ' ' else s[i]] + UrlDecoded(s[i + 1..])
  {
    assert s[i..][1..] == s[i + 1..];
  }

  /** One step of the decoding loop keeps `result + rest` the whole decoding. */
  lemma UrlDecodedStep(whole: string, result: string, c: char, rest: string, rest': string)
    requires result + rest == whole && rest == [c] + rest'
    ensures (result + [c]) + rest' == whole
  {
  }

  /** Text without `%` or `+` decodes to itself. */
  lemma {:induction false} UrlDecodedPlain(s: string)
    requires forall i :: 0 <= i < |s| ==> s[i] != '%' && s[i] != '+'
    ensures UrlDecoded(s) == s
    decreases |s|
  {
    if s != [] {
      UrlDecodedPlain(s[1..]);
    }
  }

  /** Percent-encoding of every byte: the inverse partner of `url_decode`. */
  function PercentEncoded(s: string): (r: string)
    requires forall i :: 0 <= i < |s| ==> s[i] as int < 256
    ensures |r| == 3 * |s|
    decreases |s|
  {
    if s == [] then []
    else ['%', HexDigitChar(s[0] as int / 16), HexDigitChar(s[0] as int % 16)] + PercentEncoded(s[1..])
  }

  lemma {:induction false} UrlDecodedOfPercentEncoded(s: string)
    requires forall i :: 0 <= i < |s| ==> s[i] as int < 256
    ensures UrlDecoded(PercentEncoded(s)) == s
    decreases |s|
  {
    if s != [] {
      var e := PercentEncoded(s);
      assert e[3..] == PercentEncoded(s[1..]);
      UrlDecodedOfPercentEncoded(s[1..]);
      assert [s[0]] + s[1..] == s;
    }
  }

  // ---------------------------------------------------------------------
  // Query strings
  // ---------------------------------------------------------------------

  /** One `&`-separated pair: split at the first `=`, both sides decoded; a
      non-empty pair without `=` maps to the empty string; an empty pair is
      skipped. A later duplicate key overwrites. */
  function AddQueryPair(qp: map<string, string>, pair: string): (qp': map<string, string>)
    ensures pair == [] ==> qp' == qp
  {
    match FindChar(pair, '=', 0)
    case Some(eq) => qp[UrlDecoded(pair[..eq]) := UrlDecoded(pair[eq + 1..])]
    case None => if pair != [] then qp[UrlDecoded(pair) := ""] else qp
  }

  /** The fields of `s` between `&` separators. */
  function SplitAmp(s: string): (fields: seq<string>)
    ensures |fields| >= 1
    decreases |s|
  {
    match FindChar(s, '&', 0)
    case None => [s]
    case Some(a) => [s[..a]] + SplitAmp(s[a + 1..])
  }

  function AddQueryPairs(qp: map<string, string>, pairs: seq<string>): (qp': map<string, string>)
    decreases |pairs|
  {
    if pairs == [] then qp else AddQueryPairs(AddQueryPair(qp, pairs[0]), pairs[1..])
  }

  /** `parse_query_string`: the pairs between `&` separators are added to
      `qp` from left to right. */
  function ParseQuery(qs: string, qp: map<string, string>): (qp': map<string, string>)
  {
    AddQueryPairs(qp, SplitAmp(qs))
  }

  /** The fields joined back with `&`: the inverse partner of `SplitAmp`. */
  function JoinAmp(fields: seq<string>): (s: string)
    requires |fields| >= 1
    decreases |fields|
  {
    if |fields| == 1 then fields[0] else fields[0] + "&" + JoinAmp(fields[1..])
  }

  predicate NoAmp(s: string) {
    forall i :: 0 <= i < |s| ==> s[i] != '&'
  }

  lemma FindCharAfterField(f: string, c: char, rest: string)
    requires forall i :: 0 <= i < |f| ==> f[i] != c
    ensures FindChar(f + [c] + rest, c, 0) == Some(|f|)
    ensures (f + [c] + rest)[..|f|] == f && (f + [c] + rest)[|f| + 1..] == rest
  {
    var s := f + [c] + rest;
    assert s[|f|] == c;
    assert forall i :: 0 <= i < |f| ==> s[i] == f[i];
  }

  /** Splitting `&`-joined fields that hold no `&` gives the fields back. */
  lemma {:induction false} SplitAmpOfJoin(fields: seq<string>)
    requires |fields| >= 1
    requires forall k :: 0 <= k < |fields| ==> NoAmp(fields[k])
    ensures SplitAmp(JoinAmp(fields)) == fields
    decreases |fields|
  {
    if |fields| == 1 {
      assert FindChar(fields[0], '&', 0).None?;
    } else {
      var rest := JoinAmp(fields[1..]);
      assert JoinAmp(fields) == fields[0] + "&" + rest;
      FindCharAfterField(fields[0], '&', rest);
      SplitAmpOfJoin(fields[1..]);
      assert [fields[0]] + fields[1..] == fields;
    }
  }

  /** Percent-encoded text holds only `%` and hex digits: no `=` and no `&`. */
  lemma {:induction false} PercentEncodedSafe(s: string)
    requires forall i :: 0 <= i < |s| ==> s[i] as int < 256
    ensures forall i :: 0 <= i < |PercentEncoded(s)| ==> PercentEncoded(s)[i] != '=' && PercentEncoded(s)[i] != '&'
    decreases |s|
  {
    if s != [] {
      PercentEncodedSafe(s[1..]);
      var e := PercentEncoded(s);
      assert e[3..] == PercentEncoded(s[1..]);
      assert forall i :: 3 <= i < |e| ==> e[i] == e[3..][i - 3];
    }
  }

  /** One percent-encoded pair `k=v` stores `v` under `k`, replacing any
      earlier value: the inverse partner of `AddQueryPair`. */
  lemma QueryPairRoundTrip(qp: map<string, string>, k: string, v: string)
    requires forall i :: 0 <= i < |k| ==> k[i] as int < 256
    requires forall i :: 0 <= i < |v| ==> v[i] as int < 256
    ensures AddQueryPair(qp, PercentEncoded(k) + "=" + PercentEncoded(v)) == qp[k := v]
  {
    var ek, ev := PercentEncoded(k), PercentEncoded(v);
    var pair := ek + "=" + ev;
    PercentEncodedSafe(k);
    FindCharAfterField(ek, '=', ev);
    assert FindChar(pair, '=', 0) == Some(|ek|) && pair[..|ek|] == ek && pair[|ek| + 1..] == ev;
    UrlDecodedOfPercentEncoded(k);
    UrlDecodedOfPercentEncoded(v);
  }

  /** A query string without `&` is a single pair. */
  lemma SinglePairQuery(qp: map<string, string>, pair: string)
    requires NoAmp(pair)
    ensures ParseQuery(pair, qp) == AddQueryPair(qp, pair)
  {
    SplitAmpOfJoin([pair]);
    assert AddQueryPairs(qp, [pair]) == AddQueryPairs(AddQueryPair(qp, pair), []);
  }

  /** A query string made of one percent-encoded pair `k=v` stores `v` under
      `k`, replacing any earlier value. */
  lemma EncodedQueryRoundTrip(qp: map<string, string>, k: string, v: string)
    requires forall i :: 0 <= i < |k| ==> k[i] as int < 256
    requires forall i :: 0 <= i < |v| ==> v[i] as int < 256
    ensures ParseQuery(PercentEncoded(k) + "=" + PercentEncoded(v), qp) == qp[k := v]
  {
    PercentEncodedSafe(k);
    PercentEncodedSafe(v);
    NoAmpAroundEquals(PercentEncoded(k), PercentEncoded(v));
    SinglePairQuery(qp, PercentEncoded(k) + "=" + PercentEncoded(v));
    QueryPairRoundTrip(qp, k, v);
  }

  predicate IsByteString(s: string) {
    forall i :: 0 <= i < |s| ==> s[i] as int < 256
  }

  predicate ByteStringPairs(kvs: seq<(string, string)>) {
    forall j :: 0 <= j < |kvs| ==> IsByteString(kvs[j].0) && IsByteString(kvs[j].1)
  }

  /** The pairs `k=v` of `kvs`, each side percent-encoded. */
  function EncodedPairs(kvs: seq<(string, string)>): (pairs: seq<string>)
    requires ByteStringPairs(kvs)
    ensures |pairs| == |kvs|
    ensures forall j :: 0 <= j < |kvs| ==> pairs[j] == PercentEncoded(kvs[j].0) + "=" + PercentEncoded(kvs[j].1)
  {
    seq(|kvs|, j requires 0 <= j < |kvs| => PercentEncoded(kvs[j].0) + "=" + PercentEncoded(kvs[j].1))
  }

  /** The parameters after storing each `v` under its `k`, from left to right. */
  function Stored(qp: map<string, string>, kvs: seq<(string, string)>): map<string, string>
    decreases |kvs|
  {
    if kvs == [] then qp else Stored(qp[kvs[0].0 := kvs[0].1], kvs[1..])
  }

  /** Adding the encoded pairs one by one stores the original keys and values. */
  lemma {:induction false} AddEncodedPairs(qp: map<string, string>, kvs: seq<(string, string)>)
    requires ByteStringPairs(kvs)
    ensures AddQueryPairs(qp, EncodedPairs(kvs)) == Stored(qp, kvs)
    decreases |kvs|
  {
    if kvs != [] {
      var pairs := EncodedPairs(kvs);
      QueryPairRoundTrip(qp, kvs[0].0, kvs[0].1);
      assert pairs[1..] == EncodedPairs(kvs[1..]);
      AddEncodedPairs(qp[kvs[0].0 := kvs[0].1], kvs[1..]);
    }
  }

  /** A whole query string of percent-encoded pairs joined by `&` parses to
      the keys and values it was built from, a later key overwriting an
      earlier one. */
  lemma EncodedQueryStringRoundTrip(qp: map<string, string>, kvs: seq<(string, string)>)
    requires |kvs| >= 1
    requires ByteStringPairs(kvs)
    ensures ParseQuery(JoinAmp(EncodedPairs(kvs)), qp) == Stored(qp, kvs)
  {
    var pairs := EncodedPairs(kvs);
    forall j | 0 <= j < |pairs|
      ensures NoAmp(pairs[j])
    {
      PercentEncodedSafe(kvs[j].0);
      PercentEncodedSafe(kvs[j].1);
      NoAmpAroundEquals(PercentEncoded(kvs[j].0), PercentEncoded(kvs[j].1));
    }
    SplitAmpOfJoin(pairs);
    AddEncodedPairs(qp, kvs);
  }

  lemma NoAmpAroundEquals(a: string, b: string)
    requires NoAmp(a) && NoAmp(b)
    ensures NoAmp(a + "=" + b)
  {
    var pair := a + "=" + b;
    assert forall i :: |a| < i < |pair| ==> pair[i] == b[i - |a| - 1];
  }

  /** The first `c` at or after `pos` is the first `c` of the suffix at `pos` ... */
  lemma FindCharInSuffix(s: string, c: char, pos: nat, k: nat)
    requires pos <= |s| && FindChar(s, c, pos) == Some(k)
    ensures FindChar(s[pos..], c, 0) == Some(k - pos)
  {
    forall j | 0 <= j < k - pos
      ensures s[pos..][j] != c
    {
      assert s[pos..][j] == s[pos + j];
    }
    FindCharAt(s[pos..], c, 0, k - pos);
  }

  /** ... and without one the suffix holds none. */
  lemma NoCharInSuffix(s: string, c: char, pos: nat)
    requires pos <= |s| && FindChar(s, c, pos).None?
    ensures FindChar(s[pos..], c, 0).None?
  {
    forall j | 0 <= j < |s| - pos
      ensures s[pos..][j] != c
    {
      assert s[pos..][j] == s[pos + j];
    }
  }

  lemma AddQueryPairsCons(qp: map<string, string>, pair: string, tail: seq<string>)
    ensures AddQueryPairs(qp, [pair] + tail) == AddQueryPairs(AddQueryPair(qp, pair), tail)
  {
    assert ([pair] + tail)[1..] == tail;
  }

  /** The split of the rest at offset `pos`: the field up to the next `&`,
      then the split of what follows it ... */
  lemma SplitAmpAt(qs: string, pos: nat, amp: nat)
    requires pos < |qs| && FindChar(qs, '&', pos) == Some(amp)
    ensures SplitAmp(qs[pos..]) == [qs[pos..amp]] + SplitAmp(qs[amp + 1..])
  {
    FindCharInSuffix(qs, '&', pos, amp);
    SplitAmpUnfold(qs[pos..], amp - pos);
    SliceOfSuffix(qs, pos, amp);
  }

  lemma SplitAmpUnfold(s: string, a: nat)
    requires FindChar(s, '&', 0) == Some(a)
    ensures SplitAmp(s) == [s[..a]] + SplitAmp(s[a + 1..])
  {
  }

  lemma SliceOfSuffix(s: string, pos: nat, k: nat)
    requires pos <= k < |s|
    ensures s[pos..][..k - pos] == s[pos..k] && s[pos..][k - pos + 1..] == s[k + 1..]
  {
  }

  /** ... or, without a further `&`, the rest as the last field. */
  lemma SplitAmpLast(qs: string, pos: nat)
    requires pos < |qs| && FindChar(qs, '&', pos).None?
    ensures SplitAmp(qs[pos..]) == [qs[pos..|qs|]]
  {
    NoCharInSuffix(qs, '&', pos);
    assert qs[pos..] == qs[pos..|qs|];
  }

  /** What the query loop still adds from offset `pos` on; nothing once
      `pos` is past the end. */
  ghost function QueryRest(qs: string, pos: nat, qp: map<string, string>): map<string, string> {
    if pos <= |qs| then AddQueryPairs(qp, SplitAmp(qs[pos..])) else qp
  }

  lemma QueryRestStart(qs: string, qp: map<string, string>)
    ensures QueryRest(qs, 0, qp) == ParseQuery(qs, qp)
  {
    assert qs[0..] == qs;
  }

  /** One pass of the query loop keeps what is still to be added: the field
      up to the next `&` is added, and reading goes on after the `&` ... */
  lemma QueryStep(qs: string, pos: nat, next: nat, qp: map<string, string>)
    requires pos < |qs| && 0 < next && FindChar(qs, '&', pos) == Some(next - 1)
    ensures QueryRest(qs, pos, qp) == QueryRest(qs, next, AddQueryPair(qp, qs[pos..next - 1]))
  {
    SplitAmpAt(qs, pos, next - 1);
    AddQueryPairsCons(qp, qs[pos..next - 1], SplitAmp(qs[next..]));
  }

  /** ... or, without a further `&`, the rest is the last field. */
  lemma QueryLastStep(qs: string, pos: nat, qp: map<string, string>)
    requires pos < |qs| && FindChar(qs, '&', pos).None?
    ensures AddQueryPairs(qp, SplitAmp(qs[pos..])) == AddQueryPair(qp, qs[pos..|qs|])
  {
    SplitAmpLast(qs, pos);
    AddQueryPairsCons(qp, qs[pos..|qs|], []);
  }

  lemma QueryRestAt(qs: string, pos: nat, qp: map<string, string>)
    requires pos <= |qs|
    ensures QueryRest(qs, pos, qp) == AddQueryPairs(qp, SplitAmp(qs[pos..]))
  {
  }

  lemma QueryRestPast(qs: string, pos: nat, qp: map<string, string>)
    requires pos > |qs|
    ensures QueryRest(qs, pos, qp) == qp
  {
  }

  lemma QueryPass(qs: string, pos: nat, next: nat, qp: map<string, string>)
    requires pos < |qs| && pos < next <= |qs| + 1
    requires FindChar(qs, '&', pos) == Some(next - 1) || (FindChar(qs, '&', pos).None? && next == |qs| + 1)
    ensures QueryRest(qs, pos, qp) == QueryRest(qs, next, AddQueryPair(qp, qs[pos..next - 1]))
  {
    if FindChar(qs, '&', pos).Some? {
      QueryStep(qs, pos, next, qp);
    } else {
      QueryLastPass(qs, pos, qp);
    }
  }

  lemma QueryLastPass(qs: string, pos: nat, qp: map<string, string>)
    requires pos < |qs| && FindChar(qs, '&', pos).None?
    ensures QueryRest(qs, pos, qp) == QueryRest(qs, |qs| + 1, AddQueryPair(qp, qs[pos..|qs|]))
  {
    QueryLastStep(qs, pos, qp);
    QueryRestAt(qs, pos, qp);
    QueryRestPast(qs, |qs| + 1, AddQueryPair(qp, qs[pos..|qs|]));
  }

  lemma QueryRestDone(qs: string, pos: nat, qp: map<string, string>)
    requires pos >= |qs|
    ensures QueryRest(qs, pos, qp) == qp
  {
    if pos == |qs| {
      QueryAtEnd(qs, qp);
    }
  }

  /** A trailing `&` adds nothing. */
  lemma QueryAtEnd(qs: string, qp: map<string, string>)
    ensures AddQueryPairs(qp, SplitAmp(qs[|qs|..])) == qp
  {
    assert qs[|qs|..] == [];
    assert SplitAmp([]) == [[]];
    assert AddQueryPairs(qp, [[]]) == AddQueryPairs(AddQueryPair(qp, []), []);
  }

  /** `parse_path_and_query`: the part before the first `?` decoded into
      `path` (`+` included); the rest, when there is a `?`, read as a query
      string into `queryParams`, which keeps its earlier entries. */
  function WithTarget(r: Request, fullPath: string): (r': Request)
    ensures r' == r.(path := r'.path, queryParams := r'.queryParams)
  {
    match FindChar(fullPath, '?', 0)
    case None => r.(path := UrlDecoded(fullPath))
    case Some(q) =>
      r.(path := UrlDecoded(fullPath[..q]),
         queryParams := ParseQuery(fullPath[q + 1..], r.queryParams))
  }

  /** A target `p?q` whose path part holds no `?` gets the decoded `p` as
      its path and the pairs of `q` added to its query parameters; a target
      without `?` leaves the query parameters as they were. */
  lemma TargetSplitsAtQuestionMark(r: Request, p: string, q: string)
    requires forall i :: 0 <= i < |p| ==> p[i] != '?'
    ensures WithTarget(r, p + "?" + q).path == UrlDecoded(p)
    ensures WithTarget(r, p + "?" + q).queryParams == ParseQuery(q, r.queryParams)
    ensures WithTarget(r, p).path == UrlDecoded(p) && WithTarget(r, p).queryParams == r.queryParams
  {
    FindCharAfterField(p, '?', q);
    assert FindChar(p, '?', 0).None?;
  }

  // ---------------------------------------------------------------------
  // Header fields
  // ---------------------------------------------------------------------

  /** One header line: split at its first `:`; skipped when there is no `:`
      or the `:` is the last byte; otherwise the value, with leading white
      space removed, is stored under the name, replacing an earlier one. */
  function AddHeaderLine(h: map<string, string>, line: string): (h': map<string, string>)
  {
    match FindChar(line, ':', 0)
    case Some(colon) =>
      if colon + 1 < |line| then h[line[..colon] := TrimLeadingSpace(line[colon + 1..])] else h
    case None => h
  }

  /** Header names never contain `:` and values never start with white space. */
  predicate WellFormedHeaders(h: map<string, string>) {
    forall k :: k in h ==> (forall i :: 0 <= i < |k| ==> k[i] != ':') && (h[k] == [] || !IsSpace(h[k][0]))
  }

  lemma AddHeaderLineWellFormed(h: map<string, string>, line: string)
    requires WellFormedHeaders(h)
    ensures WellFormedHeaders(AddHeaderLine(h, line))
  {
  }

  /** A line `name:value` with a non-empty value stores the trimmed value. */
  lemma AddHeaderLineOf(h: map<string, string>, name: string, value: string)
    requires forall i :: 0 <= i < |name| ==> name[i] != ':'
    requires value != []
    ensures AddHeaderLine(h, name + ":" + value) == h[name := TrimLeadingSpace(value)]
  {
    var line := name + ":" + value;
    assert FindChar(line, ':', 0) == Some(|name|) by {
      assert line[|name|] == ':';
      assert forall j :: 0 <= j < |name| ==> line[j] == name[j];
      FindCharAt(line, ':', 0, |name|);
    }
    assert line[..|name|] == name && line[|name| + 1..] == value;
  }

  /** A line without `:`, or whose only `:` is its last byte, changes nothing. */
  lemma AddHeaderLineSkips(h: map<string, string>, line: string)
    requires forall i :: 0 <= i < |line| - 1 ==> line[i] != ':'
    ensures AddHeaderLine(h, line) == h
  {
  }

  /** A later line for the same name wins. */
  lemma AddHeaderLineLaterWins(h: map<string, string>, name: string, v1: string, v2: string)
    requires forall i :: 0 <= i < |name| ==> name[i] != ':'
    requires v1 != [] && v2 != []
    ensures AddHeaderLine(AddHeaderLine(h, name + ":" + v1), name + ":" + v2)
         == h[name := TrimLeadingSpace(v2)]
  {
    AddHeaderLineOf(h, name, v1);
    AddHeaderLineOf(h[name := TrimLeadingSpace(v1)], name, v2);
    Overwrite(h, name, TrimLeadingSpace(v1), TrimLeadingSpace(v2));
  }

  lemma Overwrite<K, V>(m: map<K, V>, k: K, v1: V, v2: V)
    ensures m[k := v1][k := v2] == m[k := v2]
  {
  }

  /** The header lines stored one after the other, as the loop of `parse`
      stores them. */
  function AddHeaderLines(h: map<string, string>, lines: seq<string>): (h': map<string, string>)
    decreases |lines|
  {
    if lines == [] then h else AddHeaderLines(AddHeaderLine(h, lines[0]), lines[1..])
  }

  lemma AddHeaderLinesCons(h: map<string, string>, line: string, lines: seq<string>)
    ensures AddHeaderLines(h, [line] + lines) == AddHeaderLines(AddHeaderLine(h, line), lines)
  {
    assert ([line] + lines)[1..] == lines;
  }

  lemma {:induction false} AddHeaderLinesWellFormed(h: map<string, string>, lines: seq<string>)
    requires WellFormedHeaders(h)
    ensures WellFormedHeaders(AddHeaderLines(h, lines))
    decreases |lines|
  {
    if lines != [] {
      AddHeaderLineWellFormed(h, lines[0]);
      AddHeaderLinesWellFormed(AddHeaderLine(h, lines[0]), lines[1..]);
    }
  }

  /** How the header loop of `parse` stops: cut off in a line without CRLF,
      or done at offset `pos`, either past the empty line or at the end of
      the buffer. */
  datatype BlockEnd = Cut | Done(pos: nat, blankLine: bool)

  /** The header lines the loop reads, in order, and how it stops. */
  datatype HeaderBlock = HeaderBlock(lines: seq<string>, end: BlockEnd)

  /** The header loop of `parse`, from offset `pos`. */
  function ScanLines(raw: string, pos: nat): (b: HeaderBlock)
    requires pos <= |raw|
    ensures b.end.Done? ==> pos <= b.end.pos <= |raw|
    ensures b.end.Done? && !b.end.blankLine ==> b.end.pos == |raw|
    decreases |raw| - pos
  {
    if pos >= |raw| then HeaderBlock([], Done(pos, false))
    else
      match FindCrlf(raw, pos)
      case None => HeaderBlock([], Cut)
      case Some(e) =>
        if e == pos then HeaderBlock([], Done(e + 2, true))
        else
          var rest := ScanLines(raw, e + 2);
          HeaderBlock([raw[pos..e]] + rest.lines, rest.end)
  }

  /** The buffer ended between lines. */
  lemma ScanLinesEnd(raw: string, pos: nat)
    requires pos == |raw|
    ensures ScanLines(raw, pos) == HeaderBlock([], Done(pos, false))
  {
  }

  /** A line without its CRLF. */
  lemma ScanLinesCut(raw: string, pos: nat)
    requires pos < |raw| && FindCrlf(raw, pos).None?
    ensures ScanLines(raw, pos) == HeaderBlock([], Cut)
  {
  }

  /** The empty line that closes the header block. */
  lemma ScanLinesBlank(raw: string, pos: nat)
    requires pos < |raw| && FindCrlf(raw, pos) == Some(pos)
    ensures ScanLines(raw, pos) == HeaderBlock([], Done(pos + 2, true))
  {
  }

  /** One header line read. */
  lemma ScanLinesStep(raw: string, pos: nat, e: nat)
    requires pos < |raw| && FindCrlf(raw, pos) == Some(e) && e != pos
    ensures e + 2 <= |raw|
    ensures ScanLines(raw, pos) == HeaderBlock([raw[pos..e]] + ScanLines(raw, e + 2).lines, ScanLines(raw, e + 2).end)
  {
  }

  /** What one pass of the header loop at `pos` means for the scan: `stop`
      with `closed` at the empty line, `stop` without it where the line has
      no CRLF, otherwise one line stored in `h'` and the loop goes on at
      `next`. */
  lemma ScanLinesPass(raw: string, pos: nat, h: map<string, string>, stop: bool, closed: bool, next: nat,
                      h': map<string, string>)
    requires pos < |raw|
    requires stop && !closed ==> FindCrlf(raw, pos).None? && h' == h
    requires stop && closed ==> FindCrlf(raw, pos) == Some(pos) && next == pos + 2 && h' == h
    requires !stop ==> pos + 2 < next && FindCrlf(raw, pos) == Some(next - 2)
    requires !stop ==> h' == AddHeaderLine(h, raw[pos..next - 2])
    ensures stop ==> ScanLines(raw, pos) == HeaderBlock([], if closed then Done(next, true) else Cut)
    ensures !stop ==> pos < next <= |raw| && ScanLines(raw, pos).end == ScanLines(raw, next).end
    ensures !stop ==> AddHeaderLines(h, ScanLines(raw, pos).lines) == AddHeaderLines(h', ScanLines(raw, next).lines)
  {
    if stop && closed {
      ScanLinesBlank(raw, pos);
    } else if stop {
      ScanLinesCut(raw, pos);
    } else {
      ScanLinesStep(raw, pos, next - 2);
      AddHeaderLinesCons(h, raw[pos..next - 2], ScanLines(raw, next).lines);
    }
  }

  /** A header block closed by an empty line ends with that line's CRLF. */
  lemma {:induction false} ScanLinesClosedAtEmptyLine(raw: string, pos: nat)
    requires pos <= |raw| && ScanLines(raw, pos).end.Done? && ScanLines(raw, pos).end.blankLine
    ensures 2 <= ScanLines(raw, pos).end.pos && CrlfAt(raw, ScanLines(raw, pos).end.pos - 2)
    decreases |raw| - pos
  {
    ScanLinesClosedHasLine(raw, pos);
    var e := FindCrlf(raw, pos).value;
    if e == pos {
      ScanLinesBlank(raw, pos);
    } else {
      ScanLinesStep(raw, pos, e);
      ScanLinesClosedAtEmptyLine(raw, e + 2);
    }
  }

  /** A scan that ends at an empty line starts with a CRLF-ended line. */
  lemma ScanLinesClosedHasLine(raw: string, pos: nat)
    requires pos <= |raw| && ScanLines(raw, pos).end.Done? && ScanLines(raw, pos).end.blankLine
    ensures pos < |raw| && FindCrlf(raw, pos).Some?
  {
  }

  // ---------------------------------------------------------------------
  // Content-Length and the body
  // ---------------------------------------------------------------------

  /** The declared body length: 0 without the header, `None` when
      `std::stoul` throws. */
  function ContentLength(h: map<string, string>): (cl: Option<nat>)
    ensures "Content-Length" !in h ==> cl == Some(0)
    ensures "Content-Length" in h ==> cl == Stoul(h["Content-Length"])
  {
    if "Content-Length" in h then Stoul(h["Content-Length"]) else Some(0)
  }

  /** The end of a body of `cl` bytes starting at `pos`, when it is buffered. */
  function BodyEnd(size: nat, pos: nat, cl: nat): (e: Option<nat>)
    ensures e.Some? <==> pos + cl <= size
    ensures e.Some? ==> e.value == pos + cl
  {
    if pos + cl > size then None else Some(pos + cl)
  }

  const SizeModulus: nat := 0x1_0000_0000_0000_0000

  /** The body step as the source writes it, with `pos + content_length`
      computed in 64-bit `size_t`: the end offset wraps. */
  function BodyEndAsWritten(size: nat, pos: nat, cl: nat): Option<nat>
    requires pos < SizeModulus && cl < SizeModulus
  {
    if (pos + cl) % SizeModulus > size then None else Some((pos + cl) % SizeModulus)
  }

  /** With `Content-Length: 18446744073709551615` the source's check passes:
      the body becomes the rest of the buffer (`substr` clamps the length),
      and the request "ends" one byte before the header block does. */
  lemma BodyEndAsWrittenWraps(size: nat, pos: nat)
    requires 1 <= pos <= size < SizeModulus
    ensures BodyEndAsWritten(size, pos, ULongMax) == Some(pos - 1)
    ensures BodyEnd(size, pos, ULongMax) == None
  {
  }

  // ---------------------------------------------------------------------
  // The whole parse
  // ---------------------------------------------------------------------

  /** Fewer than two spaces in the line. */
  predicate FewerThanTwoSpaces(line: string) {
    forall i, j :: 0 <= i < j < |line| ==> !(line[i] == ' ' && line[j] == ' ')
  }

  predicate NoSpace(s: string) {
    forall i :: 0 <= i < |s| ==> s[i] != ' '
  }

  /** A partial state of `parse`, and whether it may go on. */
  datatype Stage = Stage(request: Request, ok: bool)

  /** The request line: `method` is the text before the first space (stored
      even when there is no second space), `raw_path` the text between the
      first two spaces, which also sets `path` and `queryParams`, and
      `version` everything after the second space. */
  function ReadRequestLine(line: string, before: Request): (s: Stage)
    ensures s.request.headers == before.headers && s.request.body == before.body
    ensures s.request.pathParams == before.pathParams
  {
    match FindChar(line, ' ', 0)
    case None => Stage(before, false)
    case Some(sp1) =>
      var r1 := before.(httpMethod := line[..sp1]);
      match FindChar(line, ' ', sp1 + 1)
      case None => Stage(r1, false)
      case Some(sp2) =>
        var target := line[sp1 + 1..sp2];
        Stage(WithTarget(r1.(rawPath := target), target).(version := line[sp2 + 1..]), true)
  }

  /** The request line is read completely exactly when it holds two spaces;
      then it is the method, the raw target and the version joined by single
      spaces, and neither the method nor the target holds a space. */
  lemma RequestLineShape(line: string, before: Request)
    ensures var s := ReadRequestLine(line, before);
      && (s.ok <==> !FewerThanTwoSpaces(line))
      && (s.ok ==> s.request.httpMethod + " " + s.request.rawPath + " " + s.request.version == line)
      && (s.ok ==> NoSpace(s.request.httpMethod) && NoSpace(s.request.rawPath))
  {
    match FindChar(line, ' ', 0)
    case None =>
    case Some(sp1) =>
      match FindChar(line, ' ', sp1 + 1)
      case None =>
        NoSecondSpace(line, sp1);
      case Some(sp2) =>
        RequestLineSplit(line, before, sp1, sp2);
  }

  /** The line split at its first two spaces. */
  lemma RequestLineSplit(line: string, before: Request, sp1: nat, sp2: nat)
    requires FindChar(line, ' ', 0) == Some(sp1) && FindChar(line, ' ', sp1 + 1) == Some(sp2)
    ensures var s := ReadRequestLine(line, before);
      && s.ok && !FewerThanTwoSpaces(line)
      && s.request.httpMethod + " " + s.request.rawPath + " " + s.request.version == line
      && NoSpace(s.request.httpMethod) && NoSpace(s.request.rawPath)
  {
    JoinAtSpaces(line, sp1, sp2);
  }

  /** A line whose only space is at `sp1` holds fewer than two spaces. */
  lemma NoSecondSpace(line: string, sp1: nat)
    requires FindChar(line, ' ', 0) == Some(sp1) && FindChar(line, ' ', sp1 + 1).None?
    ensures FewerThanTwoSpaces(line)
  {
    forall i, j | 0 <= i < j < |line| ensures !(line[i] == ' ' && line[j] == ' ') {
    }
  }

  lemma JoinAtSpaces(line: string, sp1: nat, sp2: nat)
    requires sp1 < sp2 < |line| && line[sp1] == ' ' && line[sp2] == ' '
    ensures line[..sp1] + " " + line[sp1 + 1..sp2] + " " + line[sp2 + 1..] == line
  {
  }

  /** The request line's three parts, for a line holding two spaces. */
  lemma RequestLineParts(line: string, before: Request, sp1: nat, sp2: nat)
    requires sp1 < sp2 < |line| && line[sp1] == ' ' && line[sp2] == ' '
    requires NoSpace(line[..sp1]) && NoSpace(line[sp1 + 1..sp2])
    ensures var r := ReadRequestLine(line, before).request;
      && r.httpMethod == line[..sp1]
      && r.rawPath == line[sp1 + 1..sp2]
      && r.version == line[sp2 + 1..]
      && r.path == WithTarget(before, line[sp1 + 1..sp2]).path
  {
    assert FindChar(line, ' ', 0) == Some(sp1);
    assert FindChar(line, ' ', sp1 + 1) == Some(sp2);
  }

  /** The body: `Content-Length` is read with `std::stoul`; a positive
      length must be buffered in full and becomes the body. Success further
      needs a non-empty method; the result's offset is reported even when
      the method is empty. */
  function ReadBody(raw: string, pos: nat, r: Request): (p: Parsed)
    requires pos <= |raw|
    ensures p.result.bytesConsumed <= |raw|
    ensures p.result.success <==>
      r.httpMethod != "" && ContentLength(r.headers).Some? && pos + ContentLength(r.headers).value <= |raw|
    ensures p.result.success ==> p.result.bytesConsumed == pos + ContentLength(r.headers).value
    ensures p.result.success && ContentLength(r.headers).value > 0 ==>
      p.request.body == raw[pos..pos + ContentLength(r.headers).value]
    ensures ContentLength(r.headers).None? ==> p == Parsed(r, Failed)
    ensures ContentLength(r.headers).Some? && pos + ContentLength(r.headers).value > |raw| ==> p == Parsed(r, Failed)
  {
    match ContentLength(r.headers)
    case None => Parsed(r, Failed)
    case Some(cl) =>
      if cl == 0 then Parsed(r, ParseResult(r.httpMethod != "", pos))
      else
        match BodyEnd(|raw|, pos, cl)
        case None => Parsed(r, Failed)
        case Some(end) =>
          var r' := r.(body := raw[pos..end]);
          Parsed(r', ParseResult(r'.httpMethod != "", end))
  }

  /** Reading the body changes no field of the request but the body. */
  lemma ReadBodyTouchesOnlyBody(raw: string, pos: nat, r: Request)
    requires pos <= |raw|
    ensures ReadBody(raw, pos, r).request == r.(body := ReadBody(raw, pos, r).request.body)
  {
  }

  /** Everything after the request line's CRLF at offset `pos`: the header
      lines are stored, then the body is read where the header loop left. */
  function ReadHeadersAndBody(raw: string, pos: nat, r: Request): (p: Parsed)
    requires pos <= |raw|
    ensures p.result.bytesConsumed <= |raw|
    ensures p.result.success ==> ScanLines(raw, pos).end.Done? && pos <= p.result.bytesConsumed
    ensures p.result.success ==> r.httpMethod != ""
    ensures ScanLines(raw, pos).end.Cut? ==> p.result == Failed
  {
    var block := ScanLines(raw, pos);
    var r' := r.(headers := AddHeaderLines(r.headers, block.lines));
    match block.end
    case Cut => Parsed(r', Failed)
    case Done(end, _) => ReadBody(raw, end, r')
  }

  /** `parse(raw)` applied to a request whose fields hold `before`. Fields
      written before a failure keep their new values; `headers` and
      `queryParams` accumulate over `before`'s; `body` is only written when
      a positive `Content-Length` is read. */
  function ParseRequest(raw: string, before: Request): (p: Parsed)
    ensures p.result.bytesConsumed <= |raw|
  {
    match FindCrlf(raw, 0)
    case None => Parsed(before, Failed)
    case Some(lineEnd) =>
      var s := ReadRequestLine(raw[..lineEnd], before);
      if !s.ok then Parsed(s.request, Failed) else ReadHeadersAndBody(raw, lineEnd + 2, s.request)
  }

  lemma ParseRequestUnfold(raw: string, before: Request, lineEnd: nat)
    requires FindCrlf(raw, 0) == Some(lineEnd)
    ensures var s := ReadRequestLine(raw[..lineEnd], before);
      ParseRequest(raw, before)
        == if s.ok then ReadHeadersAndBody(raw, lineEnd + 2, s.request) else Parsed(s.request, Failed)
  {
  }

  lemma HeadersAndBodyCut(raw: string, pos: nat, r: Request)
    requires pos <= |raw| && ScanLines(raw, pos).end.Cut?
    ensures ReadHeadersAndBody(raw, pos, r)
         == Parsed(r.(headers := AddHeaderLines(r.headers, ScanLines(raw, pos).lines)), Failed)
  {
  }

  lemma HeadersAndBodyDone(raw: string, pos: nat, r: Request)
    requires pos <= |raw| && ScanLines(raw, pos).end.Done?
    ensures ReadHeadersAndBody(raw, pos, r)
         == ReadBody(raw, ScanLines(raw, pos).end.pos, r.(headers := AddHeaderLines(r.headers, ScanLines(raw, pos).lines)))
  {
  }

  /** Without a CRLF there is nothing to parse: no field changes, and the
      result is `{false, 0}`. */
  lemma ParseWithoutLineEnd(raw: string, before: Request)
    requires forall i :: !CrlfAt(raw, i)
    ensures ParseRequest(raw, before) == Parsed(before, Failed)
  {
    assert FindCrlf(raw, 0).None?;
  }

  /** A request line with fewer than two spaces fails with `{false, 0}`;
      one that starts with a space has an empty method and fails too. */
  lemma ParseRejectsBadRequestLine(raw: string, before: Request)
    requires FindCrlf(raw, 0).Some?
    requires var line := raw[..FindCrlf(raw, 0).value];
      (line != [] && line[0] == ' ') || FewerThanTwoSpaces(line)
    ensures !ParseRequest(raw, before).result.success
    ensures FewerThanTwoSpaces(raw[..FindCrlf(raw, 0).value]) ==> ParseRequest(raw, before).result == Failed
  {
    var line := raw[..FindCrlf(raw, 0).value];
    RequestLineShape(line, before);
    if line != [] && line[0] == ' ' {
      RequestLineLeadingSpace(line, before);
    }
  }

  /** A request line that starts with a space gives an empty method. */
  lemma RequestLineLeadingSpace(line: string, before: Request)
    requires line != [] && line[0] == ' '
    ensures ReadRequestLine(line, before).request.httpMethod == ""
  {
    assert FindChar(line, ' ', 0) == Some(0);
  }

  /** A header line cut off before its CRLF fails with `{false, 0}`. */
  lemma ParseCutHeaderFails(raw: string, before: Request)
    requires FindCrlf(raw, 0).Some?
    requires ScanLines(raw, FindCrlf(raw, 0).value + 2).end.Cut?
    ensures ParseRequest(raw, before).result == Failed
  {
    var lineEnd := FindCrlf(raw, 0).value;
    ParseRequestUnfold(raw, before, lineEnd);
    CutHeadersFail(raw, lineEnd + 2, ReadRequestLine(raw[..lineEnd], before).request);
  }

  lemma CutHeadersFail(raw: string, pos: nat, r: Request)
    requires pos <= |raw| && ScanLines(raw, pos).end.Cut?
    ensures ReadHeadersAndBody(raw, pos, r).result == Failed
  {
  }

  /** A successful parse read the request line completely and then the
      header lines and the body after it. */
  lemma ParseSuccessSplits(raw: string, before: Request)
    requires ParseRequest(raw, before).result.success
    ensures FindCrlf(raw, 0).Some?
    ensures var lineEnd := FindCrlf(raw, 0).value;
      var s := ReadRequestLine(raw[..lineEnd], before);
      s.ok && ParseRequest(raw, before) == ReadHeadersAndBody(raw, lineEnd + 2, s.request)
  {
  }

  /** What a successful parse consumed after the request line: the header
      lines up to the empty line (or to the end of the buffer, when it ends
      right after a header line's CRLF), then exactly `Content-Length` more
      bytes, which are the body. The method is not empty. */
  lemma HeadersAndBodySuccess(raw: string, pos: nat, r: Request, block: HeaderBlock, h: map<string, string>)
    requires pos <= |raw| && ReadHeadersAndBody(raw, pos, r).result.success
    requires block == ScanLines(raw, pos) && h == AddHeaderLines(r.headers, block.lines)
    ensures block.end.Done? && (block.end.blankLine || block.end.pos == |raw|)
    ensures r.httpMethod != "" && ContentLength(h).Some? && block.end.pos + ContentLength(h).value <= |raw|
    ensures ReadHeadersAndBody(raw, pos, r).request.headers == h
    ensures ReadHeadersAndBody(raw, pos, r).result.bytesConsumed == block.end.pos + ContentLength(h).value
    ensures ContentLength(h).value > 0 ==>
      ReadHeadersAndBody(raw, pos, r).request.body == raw[block.end.pos..block.end.pos + ContentLength(h).value]
  {
    HeadersAndBodyDone(raw, pos, r);
    ReadBodyFits(raw, block.end.pos, r.(headers := h), ContentLength(h).value);
  }

  /** Parsing keeps header names free of `:` and values free of leading
      white space. */
  lemma ParseKeepsHeadersWellFormed(raw: string, before: Request)
    requires WellFormedHeaders(before.headers)
    ensures WellFormedHeaders(ParseRequest(raw, before).request.headers)
  {
    match FindCrlf(raw, 0)
    case None =>
    case Some(lineEnd) =>
      var s := ReadRequestLine(raw[..lineEnd], before);
      ParseRequestUnfold(raw, before, lineEnd);
      if s.ok {
        HeadersAfterBlock(raw, lineEnd + 2, s.request);
        AddHeaderLinesWellFormed(s.request.headers, ScanLines(raw, lineEnd + 2).lines);
      }
  }

  /** A body that fits: none for length 0, otherwise the next `cl` bytes. */
  lemma ReadBodyFits(raw: string, pos: nat, r: Request, cl: nat)
    requires ContentLength(r.headers) == Some(cl) && pos + cl <= |raw|
    ensures ReadBody(raw, pos, r)
         == if cl == 0 then Parsed(r, ParseResult(r.httpMethod != "", pos))
            else Parsed(r.(body := raw[pos..pos + cl]), ParseResult(r.httpMethod != "", pos + cl))
  {
  }

  /** Whatever the body does, the headers after the header block are the
      lines of the block added to the earlier ones. */
  lemma HeadersAfterBlock(raw: string, pos: nat, r: Request)
    requires pos <= |raw|
    ensures ReadHeadersAndBody(raw, pos, r).request.headers == AddHeaderLines(r.headers, ScanLines(raw, pos).lines)
  {
    if ScanLines(raw, pos).end.Cut? {
      HeadersAndBodyCut(raw, pos, r);
    } else {
      HeadersAndBodyDone(raw, pos, r);
    }
  }

  // ---------------------------------------------------------------------
  // Pipelining: what follows a complete request does not change it
  // ---------------------------------------------------------------------

  lemma {:induction false} FindCrlfAppend(a: string, b: string, from: nat)
    requires FindCrlf(a, from).Some?
    ensures FindCrlf(a + b, from) == FindCrlf(a, from)
    decreases |a| - from
  {
    if !(a[from] == '\r' && a[from + 1] == '\n') {
      FindCrlfAppend(a, b, from + 1);
    }
  }

  /** A header block closed by an empty line reads the same with more bytes
      after it. */
  lemma {:induction false} ScanLinesAppend(a: string, b: string, pos: nat)
    requires pos <= |a|
    requires ScanLines(a, pos).end.Done? && ScanLines(a, pos).end.blankLine
    ensures ScanLines(a + b, pos) == ScanLines(a, pos)
    decreases |a| - pos
  {
    ScanLinesClosedHasLine(a, pos);
    var e := FindCrlf(a, pos).value;
    if e == pos {
      ScanLinesAppendBlank(a, b, pos);
    } else {
      ScanLinesAppendLine(a, b, pos, e);
      ScanLinesAppend(a, b, e + 2);
    }
  }

  lemma ScanLinesAppendBlank(a: string, b: string, pos: nat)
    requires pos < |a| && FindCrlf(a, pos) == Some(pos)
    ensures ScanLines(a + b, pos) == ScanLines(a, pos)
  {
    FindCrlfAppend(a, b, pos);
    ScanLinesBlank(a, pos);
    ScanLinesBlank(a + b, pos);
  }

  lemma ScanLinesAppendLine(a: string, b: string, pos: nat, e: nat)
    requires pos < |a| && FindCrlf(a, pos) == Some(e) && e != pos
    ensures e + 2 <= |a|
    ensures ScanLines(a, pos) == HeaderBlock([a[pos..e]] + ScanLines(a, e + 2).lines, ScanLines(a, e + 2).end)
    ensures ScanLines(a + b, pos) == HeaderBlock([a[pos..e]] + ScanLines(a + b, e + 2).lines, ScanLines(a + b, e + 2).end)
  {
    FindCrlfAppend(a, b, pos);
    ScanLinesStep(a, pos, e);
    assert (a + b)[pos..e] == a[pos..e];
    ScanLinesStep(a + b, pos, e);
  }

  /** The header block of `raw` ends at an empty line. */
  predicate HeaderBlockClosed(raw: string) {
    match FindCrlf(raw, 0)
    case None => false
    case Some(lineEnd) =>
      var end := ScanLines(raw, lineEnd + 2).end;
      end.Done? && end.blankLine
  }

  lemma ReadBodyAppend(a: string, b: string, pos: nat, r: Request)
    requires pos <= |a| && ReadBody(a, pos, r).result.success
    ensures ReadBody(a + b, pos, r) == ReadBody(a, pos, r)
  {
    var cl := ContentLength(r.headers).value;
    ReadBodyFits(a, pos, r, cl);
    ReadBodyFits(a + b, pos, r, cl);
    assert (a + b)[pos..pos + cl] == a[pos..pos + cl];
  }

  /** After a header block closed by an empty line, the rest of a complete
      request reads the same with more bytes after it. */
  lemma HeadersAndBodyAppend(a: string, b: string, pos: nat, r: Request)
    requires pos <= |a| && ReadHeadersAndBody(a, pos, r).result.success
    requires ScanLines(a, pos).end.Done? && ScanLines(a, pos).end.blankLine
    ensures ReadHeadersAndBody(a + b, pos, r) == ReadHeadersAndBody(a, pos, r)
  {
    ScanLinesAppend(a, b, pos);
    HeadersAndBodyDone(a, pos, r);
    HeadersAndBodyDone(a + b, pos, r);
    ReadBodyAppend(a, b, ScanLines(a, pos).end.pos, r.(headers := AddHeaderLines(r.headers, ScanLines(a, pos).lines)));
  }

  lemma RequestLineAppend(a: string, b: string, lineEnd: nat)
    requires FindCrlf(a, 0) == Some(lineEnd)
    ensures FindCrlf(a + b, 0) == Some(lineEnd) && (a + b)[..lineEnd] == a[..lineEnd]
  {
    FindCrlfAppend(a, b, 0);
  }

  /** When a request is complete and its header block is closed by an empty
      line, bytes that follow it in the buffer (a pipelined request) do not
      change what is parsed or how much is consumed. */
  lemma ParseIgnoresFollowingBytes(a: string, b: string, before: Request)
    requires ParseRequest(a, before).result.success && HeaderBlockClosed(a)
    ensures ParseRequest(a + b, before) == ParseRequest(a, before)
  {
    var lineEnd := FindCrlf(a, 0).value;
    RequestLineAppend(a, b, lineEnd);
    ParseRequestUnfold(a, before, lineEnd);
    ParseRequestUnfold(a + b, before, lineEnd);
    HeadersAndBodyAppend(a, b, lineEnd + 2, ReadRequestLine(a[..lineEnd], before).request);
  }

  predicate NoCr(s: string) {
    forall i :: 0 <= i < |s| ==> s[i] != '\r'
  }

  /** The first CRLF after a run without `\r` is the one that ends it. */
  lemma FindCrlfAt(s: string, from: nat, e: nat)
    requires from <= e && CrlfAt(s, e)
    requires forall j :: from <= j < e ==> s[j] != '\r'
    ensures FindCrlf(s, from) == Some(e)
  {
  }

  /** A request line with two spaces that does not start with a space yields
      a non-empty method. */
  lemma RequestLineAccepted(line: string, before: Request)
    requires !FewerThanTwoSpaces(line) && line[0] != ' '
    ensures ReadRequestLine(line, before).ok && ReadRequestLine(line, before).request.httpMethod != ""
  {
    RequestLineShape(line, before);
  }

  /** A request line without `\r`, ended by CRLF and accepted, hands the rest
      of the buffer to the header loop. */
  lemma ParseAfterRequestLine(raw: string, line: string, before: Request)
    requires |line| <= |raw| && raw[..|line|] == line && CrlfAt(raw, |line|) && NoCr(line)
    requires ReadRequestLine(line, before).ok
    ensures ParseRequest(raw, before) == ReadHeadersAndBody(raw, |line| + 2, ReadRequestLine(line, before).request)
  {
    assert FindCrlf(raw, 0) == Some(|line|) by {
      forall j | 0 <= j < |line|
        ensures raw[j] != '\r'
      {
        assert raw[j] == line[j];
      }
      FindCrlfAt(raw, 0, |line|);
    }
    ParseRequestUnfold(raw, before, |line|);
  }

  /** A header block that is never closed by an empty line is accepted: one
      CRLF-ended header line that runs to the end of the buffer completes the
      request, with no body, consuming the whole buffer. */
  lemma SingleHeaderLineAccepted(raw: string, pos: nat, r: Request, field: string)
    requires pos <= |raw| && raw[pos..] == field + "\r\n"
    requires NoCr(field) && field != []
    requires "Content-Length" !in AddHeaderLine(r.headers, field)
    requires r.httpMethod != ""
    ensures ReadHeadersAndBody(raw, pos, r).result == ParseResult(true, |raw|)
  {
    var e := pos + |field|;
    assert FindCrlf(raw, pos) == Some(e) by {
      forall j | pos <= j < e
        ensures raw[j] != '\r'
      {
        assert raw[j] == raw[pos..][j - pos] == field[j - pos];
      }
      assert raw[e] == raw[pos..][|field|] && raw[e + 1] == raw[pos..][|field| + 1];
      FindCrlfAt(raw, pos, e);
    }
    var h := AddHeaderLine(r.headers, field);
    assert ScanLines(raw, pos) == HeaderBlock([field], Done(|raw|, false)) by {
      assert raw[pos..e] == field;
      ScanLinesStep(raw, pos, e);
      ScanLinesEnd(raw, e + 2);
    }
    assert AddHeaderLines(r.headers, [field]) == h by {
      AddHeaderLinesCons(r.headers, field, []);
    }
    assert ReadHeadersAndBody(raw, pos, r) == ReadBody(raw, |raw|, r.(headers := h)) by {
      HeadersAndBodyDone(raw, pos, r);
    }
    assert ContentLength(h) == Some(0);
  }

  // ---------------------------------------------------------------------
  // The request object
  // ---------------------------------------------------------------------

  /** `HttpRequest`: one request's fields, filled in place by `Parse`. */
  class HttpRequest {
    var httpMethod: string
    var path: string
    var version: string
    var body: string
    var headers: map<string, string>
    var queryParams: map<string, string>
    var pathParams: map<string, string>
    var rawPath: string

    function Value(): Request
      reads this
    {
      Request(httpMethod, path, version, body, headers, queryParams, pathParams, rawPath)
    }

    constructor()
      ensures Value() == Empty
    {
      httpMethod, path, version, body := "", "", "", "";
      headers, queryParams, pathParams := map[], map[], map[];
      rawPath := "";
    }

    /** Overwrite every field: what a handler that takes `HttpRequest&` may do. */
    method Assign(r: Request)
      modifies this
      ensures Value() == r
    {
      httpMethod, path, version, body := r.httpMethod, r.path, r.version, r.body;
      headers, queryParams, pathParams, rawPath := r.headers, r.queryParams, r.pathParams, r.rawPath;
    }

    /** `parse`: see `ParseRequest` and the lemmas about it. The three
        phases of the source's single function are the three methods below. */
    method Parse(raw: string) returns (result: ParseResult)
      modifies this
      ensures Parsed(Value(), result) == ParseRequest(raw, old(Value()))
    {
      result := Failed;
      var pos := 0;
      var lineEnd := FindCrlf(raw, pos);
      if lineEnd.None? {
        return;
      }
      ParseRequestUnfold(raw, old(Value()), lineEnd.value);
      var requestLine := raw[pos..lineEnd.value];
      var complete := ParseRequestLine(requestLine);
      if !complete {
        return;
      }
      pos := lineEnd.value + 2;
      ghost var afterLine := Value();
      var closed;
      ghost var blank;
      closed, pos, blank := ParseHeaders(raw, pos);
      if !closed {
        HeadersAndBodyCut(raw, lineEnd.value + 2, afterLine);
        return;
      }
      HeadersAndBodyDone(raw, lineEnd.value + 2, afterLine);
      result := ParseBody(raw, pos);
    }

    /** The request line of `parse`; `false` where `parse` returns early. */
    method ParseRequestLine(requestLine: string) returns (complete: bool)
      modifies this
      ensures Stage(Value(), complete) == ReadRequestLine(requestLine, old(Value()))
    {
      complete := false;
      var space1 := FindChar(requestLine, ' ', 0);
      if space1.None? {
        return;
      }
      httpMethod := requestLine[..space1.value];
      var space2 := FindChar(requestLine, ' ', space1.value + 1);
      if space2.None? {
        return;
      }
      rawPath := requestLine[space1.value + 1..space2.value];
      ParsePathAndQuery(rawPath);
      version := requestLine[space2.value + 1..];
      complete := true;
    }

    /** The header loop of `parse`, from offset `start`: `closed` is false
        where `parse` returns early, otherwise `pos` is where the loop left. */
    method ParseHeaders(raw: string, start: nat) returns (closed: bool, pos: nat, ghost blank: bool)
      requires start <= |raw|
      modifies this
      ensures Value() == old(Value()).(headers := AddHeaderLines(old(headers), ScanLines(raw, start).lines))
      ensures ScanLines(raw, start).end == if closed then Done(pos, blank) else Cut
    {
      pos := start;
      closed := true;
      blank := false;
      while pos < |raw|
        invariant start <= pos <= |raw|
        invariant ScanLines(raw, start).end == ScanLines(raw, pos).end
        invariant AddHeaderLines(old(headers), ScanLines(raw, start).lines) == AddHeaderLines(headers, ScanLines(raw, pos).lines)
        invariant Value() == old(Value()).(headers := headers)
        decreases |raw| - pos
      {
        ghost var previous := headers;
        var stop, lineClosed, next := ParseHeaderLine(raw, pos);
        ScanLinesPass(raw, pos, previous, stop, lineClosed, next, headers);
        if stop {
          closed := lineClosed;
          blank := lineClosed;
          pos := next;
          return;
        }
        pos := next;
      }
      ScanLinesEnd(raw, pos);
    }

    /** One pass of the header loop at offset `pos`: `stop` where the loop
        returns, either cut off in the middle of a line (`closed` false) or
        at the empty line; otherwise the line up to the CRLF at `next - 2`
        is stored and `next` is the start of the following line. */
    method ParseHeaderLine(raw: string, pos: nat) returns (stop: bool, closed: bool, next: nat)
      requires pos < |raw|
      modifies this
      ensures stop && !closed ==> FindCrlf(raw, pos).None? && headers == old(headers)
      ensures stop && closed ==> FindCrlf(raw, pos) == Some(pos) && next == pos + 2 && headers == old(headers)
      ensures !stop ==> pos + 2 < next && FindCrlf(raw, pos) == Some(next - 2)
      ensures !stop ==> headers == AddHeaderLine(old(headers), raw[pos..next - 2])
      ensures Value() == old(Value()).(headers := headers)
    {
      var headerLineEnd := FindCrlf(raw, pos);
      if headerLineEnd.None? {
        return true, false, pos;
      }
      var line := raw[pos..headerLineEnd.value];
      if line == [] {
        return true, true, headerLineEnd.value + 2;
      }
      StoreHeaderLine(line);
      return false, true, headerLineEnd.value + 2;
    }

    /** The body of the header loop for one non-empty line. */
    method StoreHeaderLine(line: string)
      modifies this
      ensures headers == AddHeaderLine(old(headers), line)
      ensures Value() == old(Value()).(headers := headers)
    {
      ghost var h := headers;
      var colon := FindChar(line, ':', 0);
      if colon.Some? && colon.value + 1 < |line| {
        var key := line[..colon.value];
        var value := TrimValue(line[colon.value + 1..]);
        headers := headers[key := value];
        assert headers == AddHeaderLine(h, line);
      } else {
        assert AddHeaderLine(h, line) == h;
      }
    }

    /** The `Content-Length` body of `parse`, from offset `start`. */
    method ParseBody(raw: string, start: nat) returns (result: ParseResult)
      requires start <= |raw|
      modifies this
      ensures Parsed(Value(), result) == ReadBody(raw, start, old(Value()))
    {
      ghost var r := Value();
      result := Failed;
      var pos := start;
      var contentLength := 0;
      if "Content-Length" in headers {
        var parsed := Stoul(headers["Content-Length"]);
        if parsed.None? {
          assert ReadBody(raw, start, r) == Parsed(r, Failed);
          return;
        }
        contentLength := parsed.value;
      }
      assert ContentLength(r.headers) == Some(contentLength);
      if contentLength > 0 {
        if pos + contentLength > |raw| {
          assert ReadBody(raw, start, r) == Parsed(r, Failed);
          return;
        }
        body := raw[pos..pos + contentLength];
        pos := pos + contentLength;
      }
      result := ParseResult(httpMethod != "", pos);
      ReadBodyFits(raw, start, r, contentLength);
    }

    /** `parse_path_and_query`. */
    method ParsePathAndQuery(fullPath: string)
      modifies this
      ensures Value() == WithTarget(old(Value()), fullPath)
    {
      var questionMark := FindChar(fullPath, '?', 0);
      if questionMark.None? {
        path := UrlDecode(fullPath);
        return;
      }
      path := UrlDecode(fullPath[..questionMark.value]);
      var queryString := fullPath[questionMark.value + 1..];
      ParseQueryString(queryString);
    }

    /** `parse_query_string`. */
    method ParseQueryString(queryString: string)
      modifies this
      ensures Value() == old(Value()).(queryParams := ParseQuery(queryString, old(queryParams)))
    {
      ghost var target := ParseQuery(queryString, queryParams);
      QueryRestStart(queryString, queryParams);
      var pos := 0;
      while pos < |queryString|
        invariant pos <= |queryString| + 1
        invariant QueryRest(queryString, pos, queryParams) == target
        invariant Value() == old(Value()).(queryParams := queryParams)
        decreases |queryString| - pos
      {
        ghost var previous := queryParams;
        var next := AddNextPair(queryString, pos);
        QueryPass(queryString, pos, next, previous);
        pos := next;
      }
      QueryRestDone(queryString, pos, queryParams);
    }

    /** One pass of the query loop at offset `pos`: the pair up to the next
        `&` (or the end) is added; `next` is just past that `&`. */
    method AddNextPair(queryString: string, pos: nat) returns (next: nat)
      requires pos < |queryString|
      modifies this
      ensures pos < next <= |queryString| + 1
      ensures FindChar(queryString, '&', pos) == Some(next - 1)
           || (FindChar(queryString, '&', pos).None? && next == |queryString| + 1)
      ensures Value() == old(Value()).(queryParams := AddQueryPair(old(queryParams), queryString[pos..next - 1]))
    {
      var ampPos := |queryString|;
      var amp := FindChar(queryString, '&', pos);
      if amp.Some? {
        ampPos := amp.value;
      }
      var pair := queryString[pos..ampPos];
      AddPair(pair);
      next := ampPos + 1;
    }

    /** The body of the query loop for one pair. */
    method AddPair(pair: string)
      modifies this
      ensures Value() == old(Value()).(queryParams := AddQueryPair(old(queryParams), pair))
    {
      var eqPos := FindChar(pair, '=', 0);
      if eqPos.Some? {
        var key := UrlDecode(pair[..eqPos.value]);
        var value := UrlDecode(pair[eqPos.value + 1..]);
        queryParams := queryParams[key := value];
      } else if pair != [] {
        var key := UrlDecode(pair);
        queryParams := queryParams[key := ""];
      }
    }

    /** `url_decode`. */
    static method UrlDecode(str: string) returns (result: string)
      ensures result == UrlDecoded(str)
    {
      result := "";
      var i := 0;
      while i < |str|
        invariant 0 <= i <= |str|
        invariant result + UrlDecoded(str[i..]) == UrlDecoded(str)
        decreases |str| - i
      {
        var decoded: char;
        var next: nat;
        if str[i] == '%' && i + 2 < |str| {
          decoded, next := EscapeByte(str[i + 1], str[i + 2]), i + 3;
          UrlDecodedEscapeAt(str, i);
        } else {
          decoded, next := if str[i] == '+' then ' ' else str[i], i + 1;
          UrlDecodedByteAt(str, i);
        }
        UrlDecodedStep(UrlDecoded(str), result, decoded, UrlDecoded(str[i..]), UrlDecoded(str[next..]));
        result := result + [decoded];
        i := next;
      }
      assert str[i..] == [];
    }

    /** The loop of `parse` that drops leading white space from a value. */
    static method TrimValue(value: string) returns (trimmed: string)
      ensures trimmed == TrimLeadingSpace(value)
    {
      trimmed := value;
      while trimmed != [] && IsSpace(trimmed[0])
        invariant TrimLeadingSpace(trimmed) == TrimLeadingSpace(value)
        decreases |trimmed|
      {
        trimmed := trimmed[1..];
      }
    }
  }
}
