/** `MiddlewareChain`: middlewares in registration order around a final
    handler. Middleware `i` runs with a `next` that runs the chain from
    `i + 1`, so the first one registered is the outermost layer; one that
    answers without calling `next` cuts the rest of the chain off. */
module MiddlewareChains {
  import opened Text
  import opened HttpRequests
  import opened HttpResponses
  import opened Middlewares

  /** What the final handler leaves: the request (it takes it by
      reference) and its response. */
  datatype Exchange = Exchange(request: Request, response: Response)

  type Endpoint = Request -> Exchange

  /** A middleware: one of the built-ins, or one of the application's own,
      given as its work on the request before `next`, the answer it may give
      instead of calling `next`, and its work on the response `next`
      returns. */
  datatype Middleware =
    | Logger
    | RequestId
    | Cors(config: CorsConfig)
    | RateLimit(slot: nat, maxRequests: int, windowSecs: int)
    | RequireContentType(requiredType: string)
    | Custom(before: Request -> Request, answer: Request -> Option<Response>, after: (Request, Response) -> Response)

  /** Whether the middleware calls `next` for this request and state. */
  predicate Passes(mw: Middleware, r: Request, s: Shared, now: nat) {
    match mw
    case Logger => true
    case RequestId => true
    case Cors(c) => !IsPreflight(r)
    case RateLimit(slot, maxRequests, windowSecs) => Admitted(s, slot, r, now, maxRequests, windowSecs)
    case RequireContentType(t) => ContentTypeRejection(t, r).None?
    case Custom(before, answer, _) => answer(before(r)).None?
  }

  /** The request after the middleware's work before `next`. */
  function Inward(mw: Middleware, r: Request): Request {
    match mw
    case Custom(before, _, _) => before(r)
    case _ => r
  }

  /** The shared state after the middleware's work before `next`: the
      request-id counter taken, or the client's bucket updated. */
  function StateBefore(mw: Middleware, r: Request, s: Shared, now: nat): Shared {
    match mw
    case RequestId => s.(counter := s.counter + 1)
    case RateLimit(slot, maxRequests, windowSecs) => AfterAdmit(s, slot, r, now, maxRequests, windowSecs)
    case _ => s
  }

  /** The middleware's own answer when it does not call `next`. */
  function OwnAnswer(mw: Middleware, r: Request, s: Shared, now: nat): Response
    requires !Passes(mw, r, s, now)
  {
    match mw
    case Cors(c) => Preflight(c, r)
    case RateLimit(_, _, windowSecs) => TooManyRequests(windowSecs, r)
    case RequireContentType(t) => ContentTypeRejection(t, r).value
    case Custom(before, answer, _) => answer(before(r)).value
  }

  /** The middleware's work on the response `next` returned; `s` is the
      state it was entered with. */
  function Outward(mw: Middleware, s: Shared, r: Request, res: Response): Response {
    match mw
    case RequestId => Stamp(res, s.counter)
    case Cors(c) => AllowOrigin(c, res)
    case Custom(_, _, after) => after(r, res)
    case _ => res
  }

  /** What a run does, in order: entering middleware `index`, leaving it,
      and running the handler. */
  datatype Event = Enter(index: nat) | Leave(index: nat) | Handled

  /** The request, response and shared state after a run, and its events. */
  datatype Outcome = Outcome(request: Request, response: Response, state: Shared, trace: seq<Event>)

  /** `dispatch(req, i, handler)` at time `now`. */
  function Run(mws: seq<Middleware>, i: nat, r: Request, h: Endpoint, s: Shared, now: nat): Outcome
    decreases |mws| - i
  {
    if i >= |mws| then
      var x := h(r);
      Outcome(x.request, x.response, s, [Handled])
    else if !Passes(mws[i], r, s, now) then
      Outcome(Inward(mws[i], r), OwnAnswer(mws[i], r, s, now), StateBefore(mws[i], r, s, now), [Enter(i), Leave(i)])
    else
      var o := Run(mws, i + 1, Inward(mws[i], r), h, StateBefore(mws[i], r, s, now), now);
      Outcome(o.request, Outward(mws[i], s, o.request, o.response), o.state, [Enter(i)] + o.trace + [Leave(i)])
  }

  // ---------------------------------------------------------------------
  // The order of the layers
  // ---------------------------------------------------------------------

  /** `Enter(i)`, ..., `Enter(d - 1)`. */
  function Enters(i: nat, d: nat): seq<Event>
    decreases d - i
  {
    if i >= d then [] else [Enter(i)] + Enters(i + 1, d)
  }

  /** `Leave(d - 1)`, ..., `Leave(i)`. */
  function Leaves(i: nat, d: nat): seq<Event>
    decreases d - i
  {
    if i >= d then [] else Leaves(i + 1, d) + [Leave(i)]
  }

  /** Layers `i` to `d - 1` entered in order, the handler if it ran, and
      the layers left in reverse order. */
  function Onion(i: nat, d: nat, handled: bool): seq<Event> {
    Enters(i, d) + (if handled then [Handled] else []) + Leaves(i, d)
  }

  lemma OnionWrap(i: nat, d: nat, handled: bool)
    requires i < d
    ensures [Enter(i)] + Onion(i + 1, d, handled) + [Leave(i)] == Onion(i, d, handled)
  {
    var mid := if handled then [Handled] else [];
    assert Enters(i, d) == [Enter(i)] + Enters(i + 1, d);
    assert Leaves(i, d) == Leaves(i + 1, d) + [Leave(i)];
    assert [Enter(i)] + (Enters(i + 1, d) + mid + Leaves(i + 1, d)) + [Leave(i)]
        == ([Enter(i)] + Enters(i + 1, d)) + mid + (Leaves(i + 1, d) + [Leave(i)]);
  }

  /** Every run is an onion: for some depth `d`, middlewares `i` to
      `d - 1` are entered in registration order and left in reverse order;
      the handler runs in the middle exactly when every middleware called
      `next`, and otherwise the innermost one entered answered itself. */
  lemma {:induction false} RunOnion(mws: seq<Middleware>, i: nat, r: Request, h: Endpoint, s: Shared, now: nat)
    requires i <= |mws|
    ensures var t := Run(mws, i, r, h, s, now).trace;
      exists d :: i <= d <= |mws|
        && ((d == |mws| && t == Onion(i, d, true)) || (i < d && t == Onion(i, d, false)))
    decreases |mws| - i
  {
    var t := Run(mws, i, r, h, s, now).trace;
    if i == |mws| {
      assert t == Onion(i, i, true);
    } else if !Passes(mws[i], r, s, now) {
      RunStopTrace(mws, i, r, h, s, now);
      assert Enters(i + 1, i + 1) == [] && Leaves(i + 1, i + 1) == [];
      assert Enters(i, i + 1) == [Enter(i)] && Leaves(i, i + 1) == [Leave(i)];
      assert t == Onion(i, i + 1, false);
    } else {
      var r' := Inward(mws[i], r);
      var s' := StateBefore(mws[i], r, s, now);
      RunOnion(mws, i + 1, r', h, s', now);
      var t' := Run(mws, i + 1, r', h, s', now).trace;
      RunPassTrace(mws, i, r, h, s, now);
      var d :| i + 1 <= d <= |mws|
        && ((d == |mws| && t' == Onion(i + 1, d, true)) || (i + 1 < d && t' == Onion(i + 1, d, false)));
      OnionWrap(i, d, d == |mws| && t' == Onion(i + 1, d, true));
    }
  }

  /** A middleware that answers itself is entered and left, and nothing
      else happens inside it. */
  lemma RunStopTrace(mws: seq<Middleware>, i: nat, r: Request, h: Endpoint, s: Shared, now: nat)
    requires i < |mws| && !Passes(mws[i], r, s, now)
    ensures Run(mws, i, r, h, s, now).trace == [Enter(i), Leave(i)]
  {
  }

  /** A middleware that calls `next` wraps the rest of the chain. */
  lemma RunPassTrace(mws: seq<Middleware>, i: nat, r: Request, h: Endpoint, s: Shared, now: nat)
    requires i < |mws| && Passes(mws[i], r, s, now)
    ensures Run(mws, i, r, h, s, now).trace
         == [Enter(i)] + Run(mws, i + 1, Inward(mws[i], r), h, StateBefore(mws[i], r, s, now), now).trace + [Leave(i)]
  {
  }

  lemma {:induction false} EntersContents(i: nat, d: nat)
    ensures forall e :: e in Enters(i, d) <==> e.Enter? && i <= e.index < d
    decreases d - i
  {
    if i < d {
      EntersContents(i + 1, d);
    }
  }

  lemma {:induction false} LeavesContents(i: nat, d: nat)
    ensures forall e :: e in Leaves(i, d) <==> e.Leave? && i <= e.index < d
    decreases d - i
  {
    if i < d {
      LeavesContents(i + 1, d);
    }
  }

  /** Middleware 0 is the outermost layer: entered first and left last. */
  lemma OutermostFirstAndLast(mws: seq<Middleware>, r: Request, h: Endpoint, s: Shared, now: nat)
    requires |mws| > 0
    ensures var t := Run(mws, 0, r, h, s, now).trace;
      |t| >= 2 && t[0] == Enter(0) && t[|t| - 1] == Leave(0)
  {
    RunOnion(mws, 0, r, h, s, now);
    var t := Run(mws, 0, r, h, s, now).trace;
    var d :| 0 <= d <= |mws| && ((d == |mws| && t == Onion(0, d, true)) || (0 < d && t == Onion(0, d, false)));
    OnionEnds(d, d == |mws| && t == Onion(0, d, true));
  }

  lemma OnionEnds(d: nat, handled: bool)
    requires 0 < d
    ensures var t := Onion(0, d, handled);
      |t| >= 2 && t[0] == Enter(0) && t[|t| - 1] == Leave(0)
  {
    var mid := if handled then [Handled] else [];
    assert Enters(0, d) == [Enter(0)] + Enters(1, d);
    assert Leaves(0, d) == Leaves(1, d) + [Leave(0)];
    assert Onion(0, d, handled) == [Enter(0)] + (Enters(1, d) + mid + Leaves(1, d)) + [Leave(0)];
  }

  /** What an onion holds: the handler only if it ran, and an entry and an
      exit for exactly the layers reached. */
  lemma OnionContents(i: nat, d: nat, handled: bool)
    ensures Handled in Onion(i, d, handled) <==> handled
    ensures forall j: nat :: Enter(j) in Onion(i, d, handled) <==> i <= j < d
    ensures forall j: nat :: Leave(j) in Onion(i, d, handled) <==> i <= j < d
  {
    EntersContents(i, d);
    LeavesContents(i, d);
  }

  /** The handler runs only if every middleware called `next`: when it
      runs, every middleware was entered and left. When it does not run,
      some middleware answered itself and none after it was entered. */
  lemma HandlerRunsOnlyThroughAll(mws: seq<Middleware>, r: Request, h: Endpoint, s: Shared, now: nat)
    ensures var t := Run(mws, 0, r, h, s, now).trace;
      Handled in t ==> forall j: nat :: j < |mws| ==> Enter(j) in t && Leave(j) in t
    ensures var t := Run(mws, 0, r, h, s, now).trace;
      Handled !in t ==>
        exists k: nat :: k < |mws| && Enter(k) in t && Leave(k) in t && (forall j: nat :: k < j < |mws| ==> Enter(j) !in t)
  {
    RunOnion(mws, 0, r, h, s, now);
    var t := Run(mws, 0, r, h, s, now).trace;
    var d :| 0 <= d <= |mws| && ((d == |mws| && t == Onion(0, d, true)) || (0 < d && t == Onion(0, d, false)));
    var handled := d == |mws| && t == Onion(0, d, true);
    OnionContents(0, d, handled);
    if !handled {
      assert Enter(d - 1) in t && Leave(d - 1) in t;
    }
  }

  // ---------------------------------------------------------------------
  // What the handler sees
  // ---------------------------------------------------------------------

  /** The request after the work before `next` of middlewares `i` onwards,
      in registration order. */
  function Prepared(mws: seq<Middleware>, i: nat, r: Request): Request
    decreases |mws| - i
  {
    if i >= |mws| then r else Prepared(mws, i + 1, Inward(mws[i], r))
  }

  /** Every level works on the same request: when the handler runs, it runs
      on the request as every middleware before it left it, and what it
      leaves in the request is what the caller sees afterwards. */
  lemma {:induction false} HandlerSeesPrepared(mws: seq<Middleware>, i: nat, r: Request, h: Endpoint, s: Shared, now: nat)
    requires i <= |mws|
    ensures Handled in Run(mws, i, r, h, s, now).trace ==>
      Run(mws, i, r, h, s, now).request == h(Prepared(mws, i, r)).request
    decreases |mws| - i
  {
    if i < |mws| {
      if Passes(mws[i], r, s, now) {
        var r' := Inward(mws[i], r);
        var s' := StateBefore(mws[i], r, s, now);
        HandlerSeesPrepared(mws, i + 1, r', h, s', now);
        RunPassTrace(mws, i, r, h, s, now);
        RunPassRequest(mws, i, r, h, s, now);
        var t' := Run(mws, i + 1, r', h, s', now).trace;
        assert Handled in [Enter(i)] + t' + [Leave(i)] ==> Handled in t';
      } else {
        RunStopTrace(mws, i, r, h, s, now);
      }
    }
  }

  /** A middleware that calls `next` hands back the request the rest of the
      chain left. */
  lemma RunPassRequest(mws: seq<Middleware>, i: nat, r: Request, h: Endpoint, s: Shared, now: nat)
    requires i < |mws| && Passes(mws[i], r, s, now)
    ensures Run(mws, i, r, h, s, now).request
         == Run(mws, i + 1, Inward(mws[i], r), h, StateBefore(mws[i], r, s, now), now).request
    ensures Prepared(mws, i, r) == Prepared(mws, i + 1, Inward(mws[i], r))
  {
  }

  /** Without a middleware the handler's exchange is the result, and the
      shared state is untouched. */
  lemma EmptyChainIsHandler(r: Request, h: Endpoint, s: Shared, now: nat)
    ensures Run([], 0, r, h, s, now) == Outcome(h(r).request, h(r).response, s, [Handled])
  {
  }

  // ---------------------------------------------------------------------
  // The built-ins as layers
  // ---------------------------------------------------------------------

  /** `cors` answers a preflight itself: the rest of the chain does not
      run and nothing else changes. */
  lemma PreflightStopsChain(mws: seq<Middleware>, i: nat, c: CorsConfig, r: Request, h: Endpoint, s: Shared, now: nat)
    requires i < |mws| && mws[i] == Cors(c) && r.httpMethod == "OPTIONS"
    ensures Run(mws, i, r, h, s, now) == Outcome(r, Preflight(c, r), s, [Enter(i), Leave(i)])
  {
  }

  /** On any other method `cors` runs the rest of the chain once and only
      adds the allowed origin to its response. */
  lemma CorsDecoratesNext(mws: seq<Middleware>, i: nat, c: CorsConfig, r: Request, h: Endpoint, s: Shared, now: nat)
    requires i < |mws| && mws[i] == Cors(c) && r.httpMethod != "OPTIONS"
    ensures Run(mws, i, r, h, s, now).response == AllowOrigin(c, Run(mws, i + 1, r, h, s, now).response)
    ensures Run(mws, i, r, h, s, now).request == Run(mws, i + 1, r, h, s, now).request
    ensures Run(mws, i, r, h, s, now).state == Run(mws, i + 1, r, h, s, now).state
    ensures Run(mws, i, r, h, s, now).trace == [Enter(i)] + Run(mws, i + 1, r, h, s, now).trace + [Leave(i)]
  {
  }

  /** A full bucket: the 429, with the bucket only evicted, and the rest of
      the chain does not run. */
  lemma RateLimitRefuses(mws: seq<Middleware>, i: nat, slot: nat, maxRequests: int, windowSecs: int,
                         r: Request, h: Endpoint, s: Shared, now: nat)
    requires i < |mws| && mws[i] == RateLimit(slot, maxRequests, windowSecs)
    requires !Admitted(s, slot, r, now, maxRequests, windowSecs)
    ensures Run(mws, i, r, h, s, now)
         == Outcome(r, TooManyRequests(windowSecs, r), AfterAdmit(s, slot, r, now, maxRequests, windowSecs), [Enter(i), Leave(i)])
  {
  }

  /** A body-carrying request without the required type: the 415, and the
      rest of the chain does not run. */
  lemma ContentTypeRefuses(mws: seq<Middleware>, i: nat, t: string, r: Request, h: Endpoint, s: Shared, now: nat)
    requires i < |mws| && mws[i] == RequireContentType(t) && ContentTypeRejection(t, r).Some?
    ensures Run(mws, i, r, h, s, now) == Outcome(r, UnsupportedMediaType(t, r), s, [Enter(i), Leave(i)])
  {
  }

  // ---------------------------------------------------------------------
  // Request ids
  // ---------------------------------------------------------------------

  /** The counter only grows, and a `request_id` layer that is entered
      takes one id. */
  lemma {:induction false} RunCounterGrows(mws: seq<Middleware>, i: nat, r: Request, h: Endpoint, s: Shared, now: nat)
    ensures Run(mws, i, r, h, s, now).state.counter >= s.counter
    ensures i < |mws| && mws[i] == RequestId ==> Run(mws, i, r, h, s, now).state.counter > s.counter
    decreases |mws| - i
  {
    if i < |mws| {
      var s' := StateBefore(mws[i], r, s, now);
      assert s'.counter >= s.counter;
      if Passes(mws[i], r, s, now) {
        RunCounterGrows(mws, i + 1, Inward(mws[i], r), h, s', now);
      }
    }
  }

  /** With `request_id` registered first, two executions one after the
      other on the same shared state answer with different request ids: the
      first the counter it found, the second a larger one. */
  lemma RequestIdsIncrease(mws: seq<Middleware>, r1: Request, r2: Request, h: Endpoint, s: Shared, now1: nat, now2: nat)
    requires |mws| > 0 && mws[0] == RequestId
    ensures var o1 := Run(mws, 0, r1, h, s, now1);
      var o2 := Run(mws, 0, r2, h, o1.state, now2);
      RequestIdHeader in o1.response.headers && RequestIdHeader in o2.response.headers
      && o1.response.headers[RequestIdHeader] != o2.response.headers[RequestIdHeader]
    ensures var o1 := Run(mws, 0, r1, h, s, now1);
      var o2 := Run(mws, 0, r2, h, o1.state, now2);
      o1.state.counter <= ULongMax ==>
        && Stoul(o1.response.headers[RequestIdHeader]) == Some(s.counter)
        && Stoul(o2.response.headers[RequestIdHeader]) == Some(o1.state.counter)
        && s.counter < o1.state.counter
  {
    var o1 := Run(mws, 0, r1, h, s, now1);
    RunCounterGrows(mws, 0, r1, h, s, now1);
    var i1 := Run(mws, 1, r1, h, s.(counter := s.counter + 1), now1);
    assert o1.response == Stamp(i1.response, s.counter);
    var o2 := Run(mws, 0, r2, h, o1.state, now2);
    var i2 := Run(mws, 1, r2, h, o1.state.(counter := o1.state.counter + 1), now2);
    assert o2.response == Stamp(i2.response, o1.state.counter);
    StampOnlyAddsId(i1.response, s.counter);
    StampOnlyAddsId(i2.response, o1.state.counter);
    StampsDistinct(i1.response, i2.response, s.counter, o1.state.counter);
  }

  // ---------------------------------------------------------------------
  // Rate limits
  // ---------------------------------------------------------------------

  /** Every `rate_limit` layer of instance `slot` allows `maxRequests`. */
  predicate SlotCapped(mws: seq<Middleware>, slot: nat, maxRequests: int) {
    forall k :: 0 <= k < |mws| && mws[k].RateLimit? && mws[k].slot == slot ==> mws[k].maxRequests == maxRequests
  }

  lemma StateBeforeKeepsCap(mw: Middleware, r: Request, s: Shared, now: nat, slot: nat, maxRequests: int)
    requires mw.RateLimit? && mw.slot == slot ==> mw.maxRequests == maxRequests
    requires WithinCap(LimitOf(s.limits, slot), maxRequests)
    ensures WithinCap(LimitOf(StateBefore(mw, r, s, now).limits, slot), maxRequests)
  {
    if mw.RateLimit? && mw.slot == slot {
      AdmitWithinCap(LimitOf(s.limits, slot), ClientKey(r), now, maxRequests, mw.windowSecs);
    }
  }

  /** No client's bucket of instance `slot` ever holds more than its cap of
      time points, whatever the requests and the times. */
  lemma {:induction false} RunKeepsCap(mws: seq<Middleware>, i: nat, r: Request, h: Endpoint, s: Shared, now: nat, slot: nat, maxRequests: int)
    requires SlotCapped(mws, slot, maxRequests)
    requires WithinCap(LimitOf(s.limits, slot), maxRequests)
    ensures WithinCap(LimitOf(Run(mws, i, r, h, s, now).state.limits, slot), maxRequests)
    decreases |mws| - i
  {
    if i < |mws| {
      StateBeforeKeepsCap(mws[i], r, s, now, slot, maxRequests);
      if Passes(mws[i], r, s, now) {
        RunKeepsCap(mws, i + 1, Inward(mws[i], r), h, StateBefore(mws[i], r, s, now), now, slot, maxRequests);
      }
    }
  }

  // ---------------------------------------------------------------------
  // The chain object
  // ---------------------------------------------------------------------

  /** `MiddlewareChain`: the registered middlewares, run by `execute`. */
  class MiddlewareChain {
    var middlewares: seq<Middleware>

    constructor()
      ensures middlewares == []
    {
      middlewares := [];
    }

    /** `use(mw)`: appends, and returns the chain for further calls. */
    method Use(mw: Middleware) returns (chain: MiddlewareChain)
      modifies this
      ensures chain == this && middlewares == old(middlewares) + [mw]
    {
      middlewares := middlewares + [mw];
      chain := this;
    }

    /** `execute(req, handler)`: the whole chain around the handler. */
    method Execute(req: HttpRequest, handler: Endpoint, state: SharedState, now: nat) returns (res: Response)
      modifies req, state
      ensures req.Value() == Run(middlewares, 0, old(req.Value()), handler, old(state.Value()), now).request
      ensures res == Run(middlewares, 0, old(req.Value()), handler, old(state.Value()), now).response
      ensures state.Value() == Run(middlewares, 0, old(req.Value()), handler, old(state.Value()), now).state
    {
      res := Dispatch(req, 0, handler, state, now);
    }

    /** `dispatch(req, index, handler)`: middleware `index`, with a `next`
        that dispatches from `index + 1`; past the last one, the handler. */
    method Dispatch(req: HttpRequest, index: nat, handler: Endpoint, state: SharedState, now: nat) returns (res: Response)
      modifies req, state
      ensures req.Value() == Run(middlewares, index, old(req.Value()), handler, old(state.Value()), now).request
      ensures res == Run(middlewares, index, old(req.Value()), handler, old(state.Value()), now).response
      ensures state.Value() == Run(middlewares, index, old(req.Value()), handler, old(state.Value()), now).state
      decreases |middlewares| - index, 1
    {
      if index >= |middlewares| {
        var x := handler(req.Value());
        req.Assign(x.request);
        return x.response;
      }
      match middlewares[index]
      case Logger =>
        res := Dispatch(req, index + 1, handler, state, now);
      case RequestId =>
        res := StampRequestId(req, index, handler, state, now);
      case Cors(_) =>
        res := ApplyCors(req, index, handler, state, now);
      case RateLimit(_, _, _) =>
        res := LimitRate(req, index, handler, state, now);
      case RequireContentType(_) =>
        res := GuardContentType(req, index, handler, state, now);
      case Custom(_, _, _) =>
        res := ApplyCustom(req, index, handler, state, now);
    }

    /** `request_id`: takes the next id, calls `next`, and sets
        `X-Request-Id` on its response. */
    method StampRequestId(req: HttpRequest, index: nat, handler: Endpoint, state: SharedState, now: nat) returns (res: Response)
      requires index < |middlewares| && middlewares[index].RequestId?
      modifies req, state
      ensures req.Value() == Run(middlewares, index, old(req.Value()), handler, old(state.Value()), now).request
      ensures res == Run(middlewares, index, old(req.Value()), handler, old(state.Value()), now).response
      ensures state.Value() == Run(middlewares, index, old(req.Value()), handler, old(state.Value()), now).state
      decreases |middlewares| - index, 0
    {
      ghost var r, s := req.Value(), state.Value();
      var id := state.TakeId();
      assert state.Value() == StateBefore(RequestId, r, s, now);
      res := Dispatch(req, index + 1, handler, state, now);
      res := Stamp(res, id);
    }

    /** `cors`: answers a preflight itself; otherwise calls `next` and sets
        `Access-Control-Allow-Origin` on its response. */
    method ApplyCors(req: HttpRequest, index: nat, handler: Endpoint, state: SharedState, now: nat) returns (res: Response)
      requires index < |middlewares| && middlewares[index].Cors?
      modifies req, state
      ensures req.Value() == Run(middlewares, index, old(req.Value()), handler, old(state.Value()), now).request
      ensures res == Run(middlewares, index, old(req.Value()), handler, old(state.Value()), now).response
      ensures state.Value() == Run(middlewares, index, old(req.Value()), handler, old(state.Value()), now).state
      decreases |middlewares| - index, 0
    {
      var c := middlewares[index].config;
      if req.httpMethod == "OPTIONS" {
        res := Preflight(c, req.Value());
      } else {
        res := Dispatch(req, index + 1, handler, state, now);
        res := AllowOrigin(c, res);
      }
    }

    /** `rate_limit`: records the request in the client's bucket, or answers
        429 when the bucket is full; calls `next` after an admission. */
    method LimitRate(req: HttpRequest, index: nat, handler: Endpoint, state: SharedState, now: nat) returns (res: Response)
      requires index < |middlewares| && middlewares[index].RateLimit?
      modifies req, state
      ensures req.Value() == Run(middlewares, index, old(req.Value()), handler, old(state.Value()), now).request
      ensures res == Run(middlewares, index, old(req.Value()), handler, old(state.Value()), now).response
      ensures state.Value() == Run(middlewares, index, old(req.Value()), handler, old(state.Value()), now).state
      decreases |middlewares| - index, 0
    {
      var mw := middlewares[index];
      ghost var r, s := req.Value(), state.Value();
      var rejection := state.Admit(mw.slot, mw.maxRequests, mw.windowSecs, req.Value(), now);
      assert state.Value() == StateBefore(mw, r, s, now);
      if rejection.Some? {
        assert !Passes(mw, r, s, now);
        res := rejection.value;
        assert res == OwnAnswer(mw, r, s, now);
      } else {
        assert Passes(mw, r, s, now);
        res := Dispatch(req, index + 1, handler, state, now);
      }
    }

    /** `require_content_type`: answers 415 for a body-carrying request
        without the required type, and calls `next` otherwise. */
    method GuardContentType(req: HttpRequest, index: nat, handler: Endpoint, state: SharedState, now: nat) returns (res: Response)
      requires index < |middlewares| && middlewares[index].RequireContentType?
      modifies req, state
      ensures req.Value() == Run(middlewares, index, old(req.Value()), handler, old(state.Value()), now).request
      ensures res == Run(middlewares, index, old(req.Value()), handler, old(state.Value()), now).response
      ensures state.Value() == Run(middlewares, index, old(req.Value()), handler, old(state.Value()), now).state
      decreases |middlewares| - index, 0
    {
      var rejection := ContentTypeRejection(middlewares[index].requiredType, req.Value());
      if rejection.Some? {
        res := rejection.value;
      } else {
        res := Dispatch(req, index + 1, handler, state, now);
      }
    }

    /** An application middleware: its work on the request, then its own
        answer or `next` followed by its work on the response. */
    method ApplyCustom(req: HttpRequest, index: nat, handler: Endpoint, state: SharedState, now: nat) returns (res: Response)
      requires index < |middlewares| && middlewares[index].Custom?
      modifies req, state
      ensures req.Value() == Run(middlewares, index, old(req.Value()), handler, old(state.Value()), now).request
      ensures res == Run(middlewares, index, old(req.Value()), handler, old(state.Value()), now).response
      ensures state.Value() == Run(middlewares, index, old(req.Value()), handler, old(state.Value()), now).state
      decreases |middlewares| - index, 0
    {
      var mw := middlewares[index];
      req.Assign(mw.before(req.Value()));
      var early := mw.answer(req.Value());
      if early.Some? {
        res := early.value;
      } else {
        res := Dispatch(req, index + 1, handler, state, now);
        res := mw.after(req.Value(), res);
      }
    }
  }
}
