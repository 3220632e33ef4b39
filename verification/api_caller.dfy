/**
 `APICaller` of `src/APICaller.ts`: one API call as a pure function from its
 inputs (hooks, transport result, decoders) to the trace of what ran and the
 result, and the two hook-registration functions as updates of the registry.
 */
module ApiCaller {
  import opened JsValues
  import opened Options
  import opened ApiTypes

  /** A registered hook: an identity and the callback. */
  datatype Hook<F> = Hook(id: string, func: F)

  /** Start hooks receive the request; end hooks the request and the result. */
  type StartHook = Hook<Request -> Completion>
  type EndHook = Hook<(Request, Outcome) -> Completion>

  /** What the transport hands back: status, status text, and how reading the
      raw body (`generateRawResponse`) finishes. */
  datatype Response = Response(status: int, statusText: string, rawBody: Completion)

  /** One invocation of the transport (`fetch` or its substitute): a response
      together with the measured duration, or a thrown value. */
  datatype TransportResult =
    | Responded(response: Response, elapsed: nat)
    | TransportThrew(error: Value)

  /** The observable steps of a call, in the order they happen. */
  datatype Event =
    | StartHookRan(hookId: string, request: Request)
    | TransportCalled(request: Request)
    | BodyRead
    | ResponseDecoderRan(raw: Value)
    | ErrorDecoderRan(raw: Value)
    | EndHookRan(hookId: string, request: Request, result: Outcome)

  const DecodeFailureMessage: string := "Failed to decode API result to success response"
  const ExceptionPrefix: string := "Exception in call API: "

  /** The error code of a failure built from a caught exception. */
  const ExceptionErrorCode: int := -1

  /** Every hook's callback returns normally. */
  predicate AllReturn<F>(hooks: seq<Hook<F>>, invoke: F -> Completion)
  {
    forall i :: 0 <= i < |hooks| ==> invoke(hooks[i].func).Normal?
  }

  /** The trace of a `forEach` over hooks and the value that escaped it, if any. */
  datatype HooksRun = HooksRun(trace: seq<Event>, thrown: Option<Value>)

  /** `hooks.forEach(hook => hook.func(...))`: the hooks run in array order
      until one throws; the throw ends the loop and escapes. */
  function RunHooks<F>(hooks: seq<Hook<F>>, invoke: F -> Completion, event: string -> Event): (r: HooksRun)
    ensures |r.trace| <= |hooks|
    ensures forall i :: 0 <= i < |r.trace| ==> r.trace[i] == event(hooks[i].id)
    ensures forall i :: 0 <= i < |r.trace| - 1 ==> invoke(hooks[i].func).Normal?
    ensures r.thrown.None? <==> AllReturn(hooks, invoke)
    ensures r.thrown.None? ==> |r.trace| == |hooks|
    ensures r.thrown.Some? ==> 0 < |r.trace| && invoke(hooks[|r.trace| - 1].func) == Thrown(r.thrown.value)
  {
    if |hooks| == 0 then HooksRun([], None)
    else
      var first := event(hooks[0].id);
      match invoke(hooks[0].func)
      case Thrown(e) => HooksRun([first], Some(e))
      case Normal(_) =>
        var rest := RunHooks(hooks[1..], invoke, event);
        assert forall i :: 1 <= i < |hooks| ==> hooks[i] == hooks[1..][i - 1];
        HooksRun([first] + rest.trace, rest.thrown)
  }

  /** How a start hook is invoked: with the request. */
  function StartInvoker(request: Request): (Request -> Completion) -> Completion
  {
    (f: Request -> Completion) => f(request)
  }

  /** The event of a start hook running. */
  function StartEvent(request: Request): string -> Event
  {
    (id: string) => StartHookRan(id, request)
  }

  /** How an end hook is invoked: with the request and the call's result. */
  function EndInvoker(request: Request, result: Outcome): ((Request, Outcome) -> Completion) -> Completion
  {
    (f: (Request, Outcome) -> Completion) => f(request, result)
  }

  /** The event of an end hook running. */
  function EndEvent(request: Request, result: Outcome): string -> Event
  {
    (id: string) => EndHookRan(id, request, result)
  }

  /** How the `try` block ends: with a result, or with a thrown value. */
  datatype Attempt = Completed(outcome: Outcome) | Raised(error: Value)

  datatype TryRun = TryRun(trace: seq<Event>, attempt: Attempt)

  /** The events that can only happen once the transport has answered. */
  predicate AfterResponse(e: Event)
  {
    e.BodyRead? || e.ResponseDecoderRan? || e.ErrorDecoderRan?
  }

  /** The decoding step: the success decoder on the raw body and, only when it
      yields `null`, the error decoder on the same body. A non-null answer
      (`undefined` included) is a success carrying the status, status text and
      measured duration. */
  function DecodeBody(
    raw: Value, response: Response, elapsed: nat,
    responseDecoder: Value -> Completion, errorResponseDecoder: Value -> Completion
  ): (r: TryRun)
    ensures |r.trace| >= 1 && r.trace[0] == ResponseDecoderRan(raw)
    ensures |r.trace| == 2 <==> responseDecoder(raw) == Normal(Null)
    ensures |r.trace| <= 2 && (|r.trace| == 2 ==> r.trace[1] == ErrorDecoderRan(raw))
    ensures r.attempt.Completed? && r.attempt.outcome.APISuccess? ==>
      responseDecoder(raw).Normal? && r.attempt.outcome == APISuccess(response.status, response.statusText, responseDecoder(raw).value, elapsed)
    ensures r.attempt.Completed? && r.attempt.outcome.APIFailure? ==>
      errorResponseDecoder(raw).Normal? && r.attempt.outcome == APIFailure(DecodeFailureMessage, response.status, errorResponseDecoder(raw).value, elapsed)
    ensures responseDecoder(raw).Thrown? ==> r.attempt == Raised(responseDecoder(raw).error)
    ensures responseDecoder(raw).Normal? && responseDecoder(raw).value != Null ==>
      r.attempt == Completed(APISuccess(response.status, response.statusText, responseDecoder(raw).value, elapsed))
    ensures responseDecoder(raw) == Normal(Null) && errorResponseDecoder(raw).Thrown? ==>
      r.attempt == Raised(errorResponseDecoder(raw).error)
    ensures responseDecoder(raw) == Normal(Null) && errorResponseDecoder(raw).Normal? ==>
      r.attempt == Completed(APIFailure(DecodeFailureMessage, response.status, errorResponseDecoder(raw).value, elapsed))
  {
    var t := [ResponseDecoderRan(raw)];
    match responseDecoder(raw)
    case Thrown(e) => TryRun(t, Raised(e))
    case Normal(decoded) =>
      if decoded != Null then
        TryRun(t, Completed(APISuccess(response.status, response.statusText, decoded, elapsed)))
      else
        var t := t + [ErrorDecoderRan(raw)];
        match errorResponseDecoder(raw)
        case Thrown(e) => TryRun(t, Raised(e))
        case Normal(decodedError) =>
          TryRun(t, Completed(APIFailure(DecodeFailureMessage, response.status, decodedError, elapsed)))
  }

  /** Reading the raw body (which may throw), then decoding it. */
  function ReadBody(
    response: Response, elapsed: nat,
    responseDecoder: Value -> Completion, errorResponseDecoder: Value -> Completion
  ): (r: TryRun)
    ensures |r.trace| >= 1 && r.trace[0] == BodyRead
    ensures forall i :: 1 <= i < |r.trace| ==> r.trace[i].ResponseDecoderRan? || r.trace[i].ErrorDecoderRan?
    ensures response.rawBody.Thrown? ==> r == TryRun([BodyRead], Raised(response.rawBody.error))
  {
    match response.rawBody
    case Thrown(e) => TryRun([BodyRead], Raised(e))
    case Normal(raw) =>
      var rest := DecodeBody(raw, response, elapsed, responseDecoder, errorResponseDecoder);
      TryRun([BodyRead] + rest.trace, rest.attempt)
  }

  /** Invoking the transport once with the request, then reading the body. */
  function InvokeTransport(
    request: Request, transport: Request -> TransportResult,
    responseDecoder: Value -> Completion, errorResponseDecoder: Value -> Completion
  ): (r: TryRun)
    ensures |r.trace| >= 1 && r.trace[0] == TransportCalled(request)
    ensures forall i :: 1 <= i < |r.trace| ==> AfterResponse(r.trace[i])
    ensures transport(request).TransportThrew? ==> r == TryRun([TransportCalled(request)], Raised(transport(request).error))
  {
    match transport(request)
    case TransportThrew(e) => TryRun([TransportCalled(request)], Raised(e))
    case Responded(response, elapsed) =>
      var rest := ReadBody(response, elapsed, responseDecoder, errorResponseDecoder);
      TryRun([TransportCalled(request)] + rest.trace, rest.attempt)
  }

  /** The events the start hooks contribute when all of them return. */
  predicate StartHooksRanInOrder(trace: seq<Event>, startHooks: seq<StartHook>, request: Request)
  {
    && |startHooks| <= |trace|
    && forall i :: 0 <= i < |startHooks| ==> trace[i] == StartHookRan(startHooks[i].id, request)
  }

  /** The `try` block of `APICaller.call`: start hooks in order, then the
      transport, body read and decoders. The first throw ends the block; the
      transport runs at most once, right after the last start hook, and only
      when every start hook returned. */
  function TryBlock(
    request: Request,
    startHooks: seq<StartHook>,
    transport: Request -> TransportResult,
    responseDecoder: Value -> Completion,
    errorResponseDecoder: Value -> Completion
  ): (r: TryRun)
    ensures forall i :: 0 <= i < |r.trace| ==> !r.trace[i].EndHookRan?
    ensures forall k :: 0 <= k < |r.trace| && r.trace[k].TransportCalled? ==>
      && k == |startHooks|
      && r.trace[k] == TransportCalled(request)
      && StartHooksRanInOrder(r.trace, startHooks, request)
      && AllReturn(startHooks, StartInvoker(request))
    ensures forall j, k :: 0 <= j < k < |r.trace| ==> !(r.trace[j].TransportCalled? && r.trace[k].TransportCalled?)
  {
    var hooks := RunHooks(startHooks, StartInvoker(request), StartEvent(request));
    if hooks.thrown.Some? then TryRun(hooks.trace, Raised(hooks.thrown.value))
    else
      var rest := InvokeTransport(request, transport, responseDecoder, errorResponseDecoder);
      assert |hooks.trace| == |startHooks|;
      TryRun(hooks.trace + rest.trace, rest.attempt)
  }

  /** The default error decoder `(e) => e`. */
  function IdentityDecoder(v: Value): Completion
  {
    Normal(v)
  }

  /** The error decoder in force: the caller's, or the identity by default. */
  function ErrorDecoderOrDefault(errorResponseDecoder: Option<Value -> Completion>): (r: Value -> Completion)
    ensures errorResponseDecoder.Some? ==> r == errorResponseDecoder.value
    ensures errorResponseDecoder.None? ==> forall v :: r(v) == Normal(v)
  {
    match errorResponseDecoder
    case Some(d) => d
    case None => IdentityDecoder
  }

  /** The failure every caught exception collapses into: error code -1, no
      error response, time 0, and a message that is the fixed prefix followed
      by the exception's text. */
  function ExceptionFailure(e: Value, stringify: Value -> string): (r: Outcome)
    ensures r.APIFailure? && r.errorCode == ExceptionErrorCode && r.errorResponse == Null && r.time == 0
    ensures |ExceptionPrefix| <= |r.errorMessage| && r.errorMessage[..|ExceptionPrefix|] == ExceptionPrefix
    ensures r.errorMessage[|ExceptionPrefix|..] == stringify(e)
  {
    APIFailure(ExceptionPrefix + stringify(e), ExceptionErrorCode, Null, 0)
  }

  /** The exception's text can be read back from the failure, so exceptions
      with different texts give different failures. */
  lemma ExceptionFailureKeepsText(e1: Value, e2: Value, stringify: Value -> string)
    requires stringify(e1) != stringify(e2)
    ensures ExceptionFailure(e1, stringify) != ExceptionFailure(e2, stringify)
  {
    var m1, m2 := ExceptionFailure(e1, stringify).errorMessage, ExceptionFailure(e2, stringify).errorMessage;
    assert m1[|ExceptionPrefix|..] != m2[|ExceptionPrefix|..];
  }

  /** A whole call: the events in order, the `result` handed to the end hooks
      and returned, and the value an end hook threw, if one did (it escapes
      the call, which then rejects instead of resolving). */
  datatype Run = Run(trace: seq<Event>, result: Outcome, escaped: Option<Value>)

  /** `APICaller.call`. `stringify` stands for JavaScript's `String(e)`. */
  function Call(
    request: Request,
    startHooks: seq<StartHook>,
    endHooks: seq<EndHook>,
    transport: Request -> TransportResult,
    responseDecoder: Value -> Completion,
    errorResponseDecoder: Option<Value -> Completion>,
    stringify: Value -> string
  ): (r: Run)
    ensures r.escaped.None? <==> AllReturn(endHooks, EndInvoker(request, r.result))
    ensures forall i :: 0 <= i < |r.trace| && r.trace[i].EndHookRan? ==>
      r.trace[i].request == request && r.trace[i].result == r.result
  {
    var tried := TryBlock(request, startHooks, transport, responseDecoder, ErrorDecoderOrDefault(errorResponseDecoder));
    var result :=
      match tried.attempt
      case Completed(o) => o
      case Raised(e) => ExceptionFailure(e, stringify);
    var ends := RunHooks(endHooks, EndInvoker(request, result), EndEvent(request, result));
    assert forall i :: |tried.trace| <= i < |tried.trace| + |ends.trace| ==>
      (tried.trace + ends.trace)[i] == ends.trace[i - |tried.trace|];
    Run(tried.trace + ends.trace, result, ends.thrown)
  }

  /** The part of a call's trace produced by the `try` block, and how the
      block ended; the rest of the trace belongs to the end hooks. */
  lemma CallSplits(
    request: Request, startHooks: seq<StartHook>, endHooks: seq<EndHook>,
    transport: Request -> TransportResult, responseDecoder: Value -> Completion,
    errorResponseDecoder: Option<Value -> Completion>, stringify: Value -> string)
    ensures var r := Call(request, startHooks, endHooks, transport, responseDecoder, errorResponseDecoder, stringify);
      var tried := TryBlock(request, startHooks, transport, responseDecoder, ErrorDecoderOrDefault(errorResponseDecoder));
      && |tried.trace| <= |r.trace|
      && r.trace[..|tried.trace|] == tried.trace
      && (forall k :: |tried.trace| <= k < |r.trace| ==> r.trace[k].EndHookRan?)
      && r.result == (if tried.attempt.Completed? then tried.attempt.outcome else ExceptionFailure(tried.attempt.error, stringify))
  {
    var r := Call(request, startHooks, endHooks, transport, responseDecoder, errorResponseDecoder, stringify);
    var tried := TryBlock(request, startHooks, transport, responseDecoder, ErrorDecoderOrDefault(errorResponseDecoder));
    var ends := RunHooks(endHooks, EndInvoker(request, r.result), EndEvent(request, r.result));
    assert r.trace == tried.trace + ends.trace;
    assert forall k :: 0 <= k < |ends.trace| ==> ends.trace[k].EndHookRan?;
  }

  /** Start hooks run in array order with the request before the transport is
      invoked; the transport is invoked at most once, with the request, and
      only when every start hook returned. */
  lemma TransportAfterStartHooks(
    request: Request, startHooks: seq<StartHook>, endHooks: seq<EndHook>,
    transport: Request -> TransportResult, responseDecoder: Value -> Completion,
    errorResponseDecoder: Option<Value -> Completion>, stringify: Value -> string)
    ensures var r := Call(request, startHooks, endHooks, transport, responseDecoder, errorResponseDecoder, stringify);
      forall k :: 0 <= k < |r.trace| && r.trace[k].TransportCalled? ==>
        && k == |startHooks|
        && r.trace[k] == TransportCalled(request)
        && StartHooksRanInOrder(r.trace, startHooks, request)
        && AllReturn(startHooks, StartInvoker(request))
    ensures var r := Call(request, startHooks, endHooks, transport, responseDecoder, errorResponseDecoder, stringify);
      forall j, k :: 0 <= j < k < |r.trace| ==> !(r.trace[j].TransportCalled? && r.trace[k].TransportCalled?)
  {
    var r := Call(request, startHooks, endHooks, transport, responseDecoder, errorResponseDecoder, stringify);
    var tried := TryBlock(request, startHooks, transport, responseDecoder, ErrorDecoderOrDefault(errorResponseDecoder));
    CallSplits(request, startHooks, endHooks, transport, responseDecoder, errorResponseDecoder, stringify);
    assert forall k :: 0 <= k < |tried.trace| ==> r.trace[k] == tried.trace[k];
  }

  /** When every start hook returns and the transport answers, the `try`
      block's trace is the start hooks, the transport call and the steps
      after it. */
  lemma TryBlockAfterHooks(
    request: Request, startHooks: seq<StartHook>, transport: Request -> TransportResult,
    responseDecoder: Value -> Completion, errorResponseDecoder: Value -> Completion)
    requires AllReturn(startHooks, StartInvoker(request))
    ensures var tried := TryBlock(request, startHooks, transport, responseDecoder, errorResponseDecoder);
      var rest := InvokeTransport(request, transport, responseDecoder, errorResponseDecoder);
      && tried.trace[|startHooks|..] == rest.trace
      && tried.attempt == rest.attempt
      && forall k :: 0 <= k < |startHooks| ==> tried.trace[k].StartHookRan?
  {
    var hooks := RunHooks(startHooks, StartInvoker(request), StartEvent(request));
    assert |hooks.trace| == |startHooks|;
  }

  /** The success path: when the success decoder's result is not `null` (an
      `undefined` counts as success), the result is an `APISuccess` carrying
      the status, status text, decoded value and measured duration, and the
      error decoder is never invoked. */
  lemma CallSuccess(
    request: Request, startHooks: seq<StartHook>, endHooks: seq<EndHook>,
    transport: Request -> TransportResult, responseDecoder: Value -> Completion,
    errorResponseDecoder: Option<Value -> Completion>, stringify: Value -> string,
    response: Response, elapsed: nat, raw: Value, decoded: Value)
    requires AllReturn(startHooks, StartInvoker(request))
    requires transport(request) == Responded(response, elapsed)
    requires response.rawBody == Normal(raw)
    requires responseDecoder(raw) == Normal(decoded) && decoded != Null
    ensures var r := Call(request, startHooks, endHooks, transport, responseDecoder, errorResponseDecoder, stringify);
      && r.result == APISuccess(response.status, response.statusText, decoded, elapsed)
      && forall k :: 0 <= k < |r.trace| ==> !r.trace[k].ErrorDecoderRan?
  {
    var r := Call(request, startHooks, endHooks, transport, responseDecoder, errorResponseDecoder, stringify);
    var errorDecoder := ErrorDecoderOrDefault(errorResponseDecoder);
    var tried := TryBlock(request, startHooks, transport, responseDecoder, errorDecoder);
    CallSplits(request, startHooks, endHooks, transport, responseDecoder, errorResponseDecoder, stringify);
    TryBlockAfterHooks(request, startHooks, transport, responseDecoder, errorDecoder);
    var decode := DecodeBody(raw, response, elapsed, responseDecoder, errorDecoder);
    assert decode.trace == [ResponseDecoderRan(raw)];
    assert tried.trace[|startHooks|..] == [TransportCalled(request), BodyRead, ResponseDecoderRan(raw)];
    assert forall k :: 0 <= k < |tried.trace| ==> !tried.trace[k].ErrorDecoderRan? by {
      forall k | 0 <= k < |tried.trace| ensures !tried.trace[k].ErrorDecoderRan? {
        if k >= |startHooks| {
          assert tried.trace[k] == tried.trace[|startHooks|..][k - |startHooks|];
        }
      }
    }
    assert forall k :: 0 <= k < |tried.trace| ==> r.trace[k] == tried.trace[k];
  }

  /** The decode-failure path: when the success decoder yields `null`, the
      result is an `APIFailure` with the fixed message, the response status as
      error code, the error decoder's answer on the raw body and the measured
      duration. */
  lemma CallDecodeFailure(
    request: Request, startHooks: seq<StartHook>, endHooks: seq<EndHook>,
    transport: Request -> TransportResult, responseDecoder: Value -> Completion,
    errorResponseDecoder: Option<Value -> Completion>, stringify: Value -> string,
    response: Response, elapsed: nat, raw: Value, decodedError: Value)
    requires AllReturn(startHooks, StartInvoker(request))
    requires transport(request) == Responded(response, elapsed)
    requires response.rawBody == Normal(raw)
    requires responseDecoder(raw) == Normal(Null)
    requires ErrorDecoderOrDefault(errorResponseDecoder)(raw) == Normal(decodedError)
    ensures var r := Call(request, startHooks, endHooks, transport, responseDecoder, errorResponseDecoder, stringify);
      && r.result == APIFailure(DecodeFailureMessage, response.status, decodedError, elapsed)
      && ErrorDecoderRan(raw) in r.trace
  {
    var r := Call(request, startHooks, endHooks, transport, responseDecoder, errorResponseDecoder, stringify);
    var errorDecoder := ErrorDecoderOrDefault(errorResponseDecoder);
    var tried := TryBlock(request, startHooks, transport, responseDecoder, errorDecoder);
    CallSplits(request, startHooks, endHooks, transport, responseDecoder, errorResponseDecoder, stringify);
    TryBlockAfterHooks(request, startHooks, transport, responseDecoder, errorDecoder);
    var decode := DecodeBody(raw, response, elapsed, responseDecoder, errorDecoder);
    assert decode.trace == [ResponseDecoderRan(raw), ErrorDecoderRan(raw)];
    var n := |startHooks|;
    assert tried.trace[n..] == [TransportCalled(request), BodyRead, ResponseDecoderRan(raw), ErrorDecoderRan(raw)];
    assert tried.trace[n + 3] == ErrorDecoderRan(raw);
    assert r.trace[n + 3] == ErrorDecoderRan(raw);
  }

  /** With the default error decoder the raw body itself is kept as the
      failure's error response. */
  lemma CallDefaultErrorDecoderKeepsRaw(
    request: Request, startHooks: seq<StartHook>, endHooks: seq<EndHook>,
    transport: Request -> TransportResult, responseDecoder: Value -> Completion,
    stringify: Value -> string, response: Response, elapsed: nat, raw: Value)
    requires AllReturn(startHooks, StartInvoker(request))
    requires transport(request) == Responded(response, elapsed)
    requires response.rawBody == Normal(raw)
    requires responseDecoder(raw) == Normal(Null)
    ensures Call(request, startHooks, endHooks, transport, responseDecoder, None, stringify).result
      == APIFailure(DecodeFailureMessage, response.status, raw, elapsed)
  {
    CallDecodeFailure(request, startHooks, endHooks, transport, responseDecoder, None, stringify,
                      response, elapsed, raw, raw);
  }

  /** A start hook that throws: the exception becomes the failure, and neither
      the later start hooks nor the transport run. */
  lemma CallStartHookThrows(
    request: Request, startHooks: seq<StartHook>, endHooks: seq<EndHook>,
    transport: Request -> TransportResult, responseDecoder: Value -> Completion,
    errorResponseDecoder: Option<Value -> Completion>, stringify: Value -> string,
    k: nat, e: Value)
    requires k < |startHooks|
    requires AllReturn(startHooks[..k], StartInvoker(request))
    requires startHooks[k].func(request) == Thrown(e)
    ensures var r := Call(request, startHooks, endHooks, transport, responseDecoder, errorResponseDecoder, stringify);
      && r.result == ExceptionFailure(e, stringify)
      && (forall i :: 0 <= i < |r.trace| ==> !r.trace[i].TransportCalled?)
      && (forall i :: 0 <= i < |r.trace| && r.trace[i].StartHookRan? ==> i <= k)
  {
    var r := Call(request, startHooks, endHooks, transport, responseDecoder, errorResponseDecoder, stringify);
    var tried := TryBlock(request, startHooks, transport, responseDecoder, ErrorDecoderOrDefault(errorResponseDecoder));
    var invoke := StartInvoker(request);
    var hooks := RunHooks(startHooks, invoke, StartEvent(request));
    assert tried == TryRun(hooks.trace, Raised(e)) && |hooks.trace| == k + 1 by {
      assert forall i :: 0 <= i < k ==> startHooks[..k][i] == startHooks[i];
      RunHooksThrowsAt(startHooks, invoke, StartEvent(request), k, e);
    }
    CallSplits(request, startHooks, endHooks, transport, responseDecoder, errorResponseDecoder, stringify);
    assert forall i :: 0 <= i < |r.trace| ==>
      (i <= k && r.trace[i].StartHookRan?) || (k < i && r.trace[i].EndHookRan?) by {
      forall i | 0 <= i < |r.trace|
        ensures (i <= k && r.trace[i].StartHookRan?) || (k < i && r.trace[i].EndHookRan?)
      {
        if i <= k {
          assert r.trace[i] == r.trace[..k + 1][i] == hooks.trace[i];
        }
      }
    }
  }

  /** The transport throws: the exception becomes the failure and the body is
      never read. */
  lemma CallTransportThrows(
    request: Request, startHooks: seq<StartHook>, endHooks: seq<EndHook>,
    transport: Request -> TransportResult, responseDecoder: Value -> Completion,
    errorResponseDecoder: Option<Value -> Completion>, stringify: Value -> string, e: Value)
    requires AllReturn(startHooks, StartInvoker(request))
    requires transport(request) == TransportThrew(e)
    ensures var r := Call(request, startHooks, endHooks, transport, responseDecoder, errorResponseDecoder, stringify);
      && r.result == ExceptionFailure(e, stringify)
      && forall i :: 0 <= i < |r.trace| ==> !AfterResponse(r.trace[i])
  {
    var r := Call(request, startHooks, endHooks, transport, responseDecoder, errorResponseDecoder, stringify);
    var errorDecoder := ErrorDecoderOrDefault(errorResponseDecoder);
    var tried := TryBlock(request, startHooks, transport, responseDecoder, errorDecoder);
    CallSplits(request, startHooks, endHooks, transport, responseDecoder, errorResponseDecoder, stringify);
    TryBlockAfterHooks(request, startHooks, transport, responseDecoder, errorDecoder);
    var n := |startHooks|;
    assert tried.trace[n..] == [TransportCalled(request)];
    assert |tried.trace| == n + 1;
    assert forall i :: 0 <= i < |tried.trace| ==> r.trace[i] == tried.trace[i];
  }

  /** Reading the body throws: the exception becomes the failure and no decoder
      runs. */
  lemma CallBodyReadThrows(
    request: Request, startHooks: seq<StartHook>, endHooks: seq<EndHook>,
    transport: Request -> TransportResult, responseDecoder: Value -> Completion,
    errorResponseDecoder: Option<Value -> Completion>, stringify: Value -> string,
    response: Response, elapsed: nat, e: Value)
    requires AllReturn(startHooks, StartInvoker(request))
    requires transport(request) == Responded(response, elapsed)
    requires response.rawBody == Thrown(e)
    ensures var r := Call(request, startHooks, endHooks, transport, responseDecoder, errorResponseDecoder, stringify);
      && r.result == ExceptionFailure(e, stringify)
      && forall i :: 0 <= i < |r.trace| ==> !r.trace[i].ResponseDecoderRan? && !r.trace[i].ErrorDecoderRan?
  {
    var r := Call(request, startHooks, endHooks, transport, responseDecoder, errorResponseDecoder, stringify);
    var errorDecoder := ErrorDecoderOrDefault(errorResponseDecoder);
    var tried := TryBlock(request, startHooks, transport, responseDecoder, errorDecoder);
    CallSplits(request, startHooks, endHooks, transport, responseDecoder, errorResponseDecoder, stringify);
    TryBlockAfterHooks(request, startHooks, transport, responseDecoder, errorDecoder);
    var n := |startHooks|;
    assert tried.trace[n..] == [TransportCalled(request), BodyRead];
    assert |tried.trace| == n + 2;
    assert forall i :: 0 <= i < |tried.trace| ==> r.trace[i] == tried.trace[i];
    assert forall i :: 0 <= i < n ==> tried.trace[i].StartHookRan?;
    assert tried.trace[n] == TransportCalled(request) && tried.trace[n + 1] == BodyRead;
  }

  /** The success decoder throws: the exception becomes the failure and the
      error decoder never runs. */
  lemma CallResponseDecoderThrows(
    request: Request, startHooks: seq<StartHook>, endHooks: seq<EndHook>,
    transport: Request -> TransportResult, responseDecoder: Value -> Completion,
    errorResponseDecoder: Option<Value -> Completion>, stringify: Value -> string,
    response: Response, elapsed: nat, raw: Value, e: Value)
    requires AllReturn(startHooks, StartInvoker(request))
    requires transport(request) == Responded(response, elapsed)
    requires response.rawBody == Normal(raw)
    requires responseDecoder(raw) == Thrown(e)
    ensures var r := Call(request, startHooks, endHooks, transport, responseDecoder, errorResponseDecoder, stringify);
      && r.result == ExceptionFailure(e, stringify)
      && forall i :: 0 <= i < |r.trace| ==> !r.trace[i].ErrorDecoderRan?
  {
    var r := Call(request, startHooks, endHooks, transport, responseDecoder, errorResponseDecoder, stringify);
    var errorDecoder := ErrorDecoderOrDefault(errorResponseDecoder);
    var tried := TryBlock(request, startHooks, transport, responseDecoder, errorDecoder);
    CallSplits(request, startHooks, endHooks, transport, responseDecoder, errorResponseDecoder, stringify);
    TryBlockAfterHooks(request, startHooks, transport, responseDecoder, errorDecoder);
    var n := |startHooks|;
    assert tried.trace[n..] == [TransportCalled(request), BodyRead, ResponseDecoderRan(raw)];
    assert |tried.trace| == n + 3;
    assert forall i :: 0 <= i < |tried.trace| ==> r.trace[i] == tried.trace[i];
    assert forall i :: 0 <= i < n ==> tried.trace[i].StartHookRan?;
    assert tried.trace[n] == TransportCalled(request) && tried.trace[n + 1] == BodyRead;
    assert tried.trace[n + 2] == ResponseDecoderRan(raw);
  }

  /** The error decoder throws: the exception becomes the failure. */
  lemma CallErrorDecoderThrows(
    request: Request, startHooks: seq<StartHook>, endHooks: seq<EndHook>,
    transport: Request -> TransportResult, responseDecoder: Value -> Completion,
    errorResponseDecoder: Option<Value -> Completion>, stringify: Value -> string,
    response: Response, elapsed: nat, raw: Value, e: Value)
    requires AllReturn(startHooks, StartInvoker(request))
    requires transport(request) == Responded(response, elapsed)
    requires response.rawBody == Normal(raw)
    requires responseDecoder(raw) == Normal(Null)
    requires ErrorDecoderOrDefault(errorResponseDecoder)(raw) == Thrown(e)
    ensures Call(request, startHooks, endHooks, transport, responseDecoder, errorResponseDecoder, stringify).result
      == ExceptionFailure(e, stringify)
  {
    var errorDecoder := ErrorDecoderOrDefault(errorResponseDecoder);
    CallSplits(request, startHooks, endHooks, transport, responseDecoder, errorResponseDecoder, stringify);
    TryBlockAfterHooks(request, startHooks, transport, responseDecoder, errorDecoder);
  }

  /** Every result is one of three kinds: the collapsed exception, with time
      0; or, after the transport answered, a success or decode failure whose
      status and time are the response's status and the measured duration. */
  lemma CallResultShape(
    request: Request, startHooks: seq<StartHook>, endHooks: seq<EndHook>,
    transport: Request -> TransportResult, responseDecoder: Value -> Completion,
    errorResponseDecoder: Option<Value -> Completion>, stringify: Value -> string)
    ensures var r := Call(request, startHooks, endHooks, transport, responseDecoder, errorResponseDecoder, stringify);
      || (exists e :: r.result == ExceptionFailure(e, stringify))
      || (&& transport(request).Responded?
          && r.result.time == transport(request).elapsed
          && (r.result.APISuccess? ==> r.result.statusCode == transport(request).response.status)
          && (r.result.APIFailure? ==>
                && r.result.errorMessage == DecodeFailureMessage
                && r.result.errorCode == transport(request).response.status))
  {
    var r := Call(request, startHooks, endHooks, transport, responseDecoder, errorResponseDecoder, stringify);
    var errorDecoder := ErrorDecoderOrDefault(errorResponseDecoder);
    var tried := TryBlock(request, startHooks, transport, responseDecoder, errorDecoder);
    CallSplits(request, startHooks, endHooks, transport, responseDecoder, errorResponseDecoder, stringify);
    if tried.attempt.Raised? {
      assert r.result == ExceptionFailure(tried.attempt.error, stringify);
    } else {
      var hooks := RunHooks(startHooks, StartInvoker(request), StartEvent(request));
      assert hooks.thrown.None?;
      TryBlockAfterHooks(request, startHooks, transport, responseDecoder, errorDecoder);
    }
  }

  /** A call's trace is the `try` block's trace followed by the end hooks'
      run, and what escapes is what the end hooks threw. */
  lemma CallEndsWithEndHooks(
    request: Request, startHooks: seq<StartHook>, endHooks: seq<EndHook>,
    transport: Request -> TransportResult, responseDecoder: Value -> Completion,
    errorResponseDecoder: Option<Value -> Completion>, stringify: Value -> string)
    ensures var r := Call(request, startHooks, endHooks, transport, responseDecoder, errorResponseDecoder, stringify);
      var tried := TryBlock(request, startHooks, transport, responseDecoder, ErrorDecoderOrDefault(errorResponseDecoder));
      var ends := RunHooks(endHooks, EndInvoker(request, r.result), EndEvent(request, r.result));
      && r.trace == tried.trace + ends.trace
      && r.escaped == ends.thrown
  {
  }

  /** End hooks sit outside the `try`. When none throws, each runs exactly
      once, in array order, with the request and the very result the call
      returns, after every other step. */
  lemma CallEndHooksAllReturn(
    request: Request, startHooks: seq<StartHook>, endHooks: seq<EndHook>,
    transport: Request -> TransportResult, responseDecoder: Value -> Completion,
    errorResponseDecoder: Option<Value -> Completion>, stringify: Value -> string)
    ensures var r := Call(request, startHooks, endHooks, transport, responseDecoder, errorResponseDecoder, stringify);
      && (r.escaped.None? <==> AllReturn(endHooks, EndInvoker(request, r.result)))
      && (r.escaped.None? ==>
            && |endHooks| <= |r.trace|
            && (forall i :: 0 <= i < |endHooks| ==>
                  r.trace[|r.trace| - |endHooks| + i] == EndHookRan(endHooks[i].id, request, r.result))
            && (forall i :: 0 <= i < |r.trace| - |endHooks| ==> !r.trace[i].EndHookRan?))
  {
    var r := Call(request, startHooks, endHooks, transport, responseDecoder, errorResponseDecoder, stringify);
    var tried := TryBlock(request, startHooks, transport, responseDecoder, ErrorDecoderOrDefault(errorResponseDecoder));
    var ends := RunHooks(endHooks, EndInvoker(request, r.result), EndEvent(request, r.result));
    CallEndsWithEndHooks(request, startHooks, endHooks, transport, responseDecoder, errorResponseDecoder, stringify);
    if r.escaped.None? {
      assert |ends.trace| == |endHooks|;
      assert forall i :: 0 <= i < |endHooks| ==> r.trace[|tried.trace| + i] == ends.trace[i];
      assert forall i :: 0 <= i < |tried.trace| ==> r.trace[i] == tried.trace[i];
    }
  }

  /** When hook `k` is the first to throw, the run stops right after it and
      its exception is the one that escapes. */
  lemma RunHooksThrowsAt<F>(hooks: seq<Hook<F>>, invoke: F -> Completion, event: string -> Event, k: nat, e: Value)
    requires k < |hooks|
    requires forall i :: 0 <= i < k ==> invoke(hooks[i].func).Normal?
    requires invoke(hooks[k].func) == Thrown(e)
    ensures RunHooks(hooks, invoke, event).thrown == Some(e)
    ensures |RunHooks(hooks, invoke, event).trace| == k + 1
  {
    var run := RunHooks(hooks, invoke, event);
    assert !invoke(hooks[k].func).Normal?;
    assert run.thrown.Some?;
  }

  /** A trace followed by a run: the earlier events keep their positions and
      the run's events follow them. */
  lemma AppendedRun(pre: seq<Event>, run: seq<Event>)
    ensures forall i :: 0 <= i < |pre| ==> (pre + run)[i] == pre[i]
    ensures forall i :: 0 <= i < |run| ==> (pre + run)[|pre| + i] == run[i]
  {
  }

  /** An end hook that throws: when end hook `k` is the first to throw, its
      exception escapes the call (the call rejects), the end hooks before it
      have run in order with the result, and the ones after it do not run. */
  lemma CallEndHookThrows(
    request: Request, startHooks: seq<StartHook>, endHooks: seq<EndHook>,
    transport: Request -> TransportResult, responseDecoder: Value -> Completion,
    errorResponseDecoder: Option<Value -> Completion>, stringify: Value -> string, k: nat, e: Value)
    requires var r := Call(request, startHooks, endHooks, transport, responseDecoder, errorResponseDecoder, stringify);
      && k < |endHooks|
      && (forall i :: 0 <= i < k ==> EndInvoker(request, r.result)(endHooks[i].func).Normal?)
      && EndInvoker(request, r.result)(endHooks[k].func) == Thrown(e)
    ensures var r := Call(request, startHooks, endHooks, transport, responseDecoder, errorResponseDecoder, stringify);
      && r.escaped == Some(e)
      && k + 1 <= |r.trace|
      && (forall i :: 0 <= i <= k ==>
            r.trace[|r.trace| - (k + 1) + i] == EndHookRan(endHooks[i].id, request, r.result))
      && (forall i :: 0 <= i < |r.trace| - (k + 1) ==> !r.trace[i].EndHookRan?)
  {
    var r := Call(request, startHooks, endHooks, transport, responseDecoder, errorResponseDecoder, stringify);
    var tried := TryBlock(request, startHooks, transport, responseDecoder, ErrorDecoderOrDefault(errorResponseDecoder));
    var event := EndEvent(request, r.result);
    var ends := RunHooks(endHooks, EndInvoker(request, r.result), event);
    CallEndsWithEndHooks(request, startHooks, endHooks, transport, responseDecoder, errorResponseDecoder, stringify);
    RunHooksThrowsAt(endHooks, EndInvoker(request, r.result), event, k, e);
    AppendedRun(tried.trace, ends.trace);
    assert |r.trace| - (k + 1) == |tried.trace|;
  }

  /** The process-wide hook lists `APICaller.startHooks` and `APICaller.endHooks`. */
  datatype Registry = Registry(startHooks: seq<StartHook>, endHooks: seq<EndHook>)

  const EmptyRegistry: Registry := Registry([], [])

  /** `APICaller.call` reading the hooks from the registry. */
  function CallWithRegistry(
    registry: Registry, request: Request,
    transport: Request -> TransportResult, responseDecoder: Value -> Completion,
    errorResponseDecoder: Option<Value -> Completion>, stringify: Value -> string
  ): Run
  {
    Call(request, registry.startHooks, registry.endHooks, transport, responseDecoder, errorResponseDecoder, stringify)
  }

  /** Some hook in the list has identity `id`. */
  predicate HasHookId<F>(hooks: seq<Hook<F>>, id: string)
  {
    exists i :: 0 <= i < |hooks| && hooks[i].id == id
  }

  /** `hooks.find(h => h.id === id)`: the first hook with that identity. */
  function FindHook<F>(hooks: seq<Hook<F>>, id: string): (r: Option<Hook<F>>)
    ensures r.None? <==> !HasHookId(hooks, id)
    ensures r.Some? ==> r.value.id == id
    ensures r.Some? ==> exists i :: 0 <= i < |hooks| && hooks[i] == r.value && forall j :: 0 <= j < i ==> hooks[j].id != id
  {
    if |hooks| == 0 then None
    else if hooks[0].id == id then Some(hooks[0])
    else
      assert HasHookId(hooks, id) ==> HasHookId(hooks[1..], id) by {
        if HasHookId(hooks, id) {
          var i :| 0 <= i < |hooks| && hooks[i].id == id;
          assert hooks[1..][i - 1].id == id;
        }
      }
      assert HasHookId(hooks[1..], id) ==> HasHookId(hooks, id) by {
        if HasHookId(hooks[1..], id) {
          var i :| 0 <= i < |hooks| - 1 && hooks[1..][i].id == id;
          assert hooks[i + 1].id == id;
        }
      }
      FindHook(hooks[1..], id)
  }

  /** `registerStartHook` as written: the hook is appended only when a hook
      with the same identity is ALREADY present; otherwise nothing changes.
      The end hooks are never touched. */
  function RegisterStartHook(registry: Registry, hook: StartHook): (r: Registry)
    ensures r.endHooks == registry.endHooks
    ensures HasHookId(registry.startHooks, hook.id) ==> r.startHooks == registry.startHooks + [hook]
    ensures !HasHookId(registry.startHooks, hook.id) ==> r.startHooks == registry.startHooks
  {
    if FindHook(registry.startHooks, hook.id).Some? then
      registry.(startHooks := registry.startHooks + [hook])
    else registry
  }

  /** `registerEndHook` as written: the same rule on the end hooks; the start
      hooks are never touched. */
  function RegisterEndHook(registry: Registry, hook: EndHook): (r: Registry)
    ensures r.startHooks == registry.startHooks
    ensures HasHookId(registry.endHooks, hook.id) ==> r.endHooks == registry.endHooks + [hook]
    ensures !HasHookId(registry.endHooks, hook.id) ==> r.endHooks == registry.endHooks
  {
    if FindHook(registry.endHooks, hook.id).Some? then
      registry.(endHooks := registry.endHooks + [hook])
    else registry
  }

  /** One call of a registration function. */
  datatype Registration = RegisterStart(startHook: StartHook) | RegisterEnd(endHook: EndHook)

  /** Applies registrations in order with the functions as written. */
  function RegisterAll(registry: Registry, registrations: seq<Registration>): Registry
    decreases |registrations|
  {
    if |registrations| == 0 then registry
    else
      var next :=
        match registrations[0]
        case RegisterStart(h) => RegisterStartHook(registry, h)
        case RegisterEnd(h) => RegisterEndHook(registry, h);
      RegisterAll(next, registrations[1..])
  }

  /** Because a hook is only appended when its identity is already present, a
      registry that starts empty stays empty whatever is registered. */
  lemma {:induction false} RegistryStaysEmpty(registrations: seq<Registration>)
    ensures RegisterAll(EmptyRegistry, registrations) == EmptyRegistry
    decreases |registrations|
  {
    if |registrations| > 0 {
      match registrations[0] {
        case RegisterStart(h) =>
          assert !HasHookId(EmptyRegistry.startHooks, h.id);
          assert RegisterStartHook(EmptyRegistry, h) == EmptyRegistry;
        case RegisterEnd(h) =>
          assert !HasHookId(EmptyRegistry.endHooks, h.id);
          assert RegisterEndHook(EmptyRegistry, h) == EmptyRegistry;
      }
      RegistryStaysEmpty(registrations[1..]);
    }
  }

  /** Consequently, a call made after any registrations from the initial state
      runs no hook at all. */
  lemma CallAfterRegistrationsRunsNoHooks(
    registrations: seq<Registration>, request: Request,
    transport: Request -> TransportResult, responseDecoder: Value -> Completion,
    errorResponseDecoder: Option<Value -> Completion>, stringify: Value -> string)
    ensures var r := CallWithRegistry(RegisterAll(EmptyRegistry, registrations), request, transport,
                                      responseDecoder, errorResponseDecoder, stringify);
      && r.escaped.None?
      && forall i :: 0 <= i < |r.trace| ==> !r.trace[i].StartHookRan? && !r.trace[i].EndHookRan?
  {
    RegistryStaysEmpty(registrations);
  }

  /** The registration rule evidently intended: append only when no hook with
      that identity is present, so registering an identity twice is a no-op. */
  function RegisterStartHookIfNew(registry: Registry, hook: StartHook): (r: Registry)
    ensures r.endHooks == registry.endHooks
    ensures !HasHookId(registry.startHooks, hook.id) ==> r.startHooks == registry.startHooks + [hook]
    ensures HasHookId(registry.startHooks, hook.id) ==> r.startHooks == registry.startHooks
  {
    if FindHook(registry.startHooks, hook.id).None? then
      registry.(startHooks := registry.startHooks + [hook])
    else registry
  }

  /** The intended rule for end hooks. */
  function RegisterEndHookIfNew(registry: Registry, hook: EndHook): (r: Registry)
    ensures r.startHooks == registry.startHooks
    ensures !HasHookId(registry.endHooks, hook.id) ==> r.endHooks == registry.endHooks + [hook]
    ensures HasHookId(registry.endHooks, hook.id) ==> r.endHooks == registry.endHooks
  {
    if FindHook(registry.endHooks, hook.id).None? then
      registry.(endHooks := registry.endHooks + [hook])
    else registry
  }

  /** No two hooks of the list share an identity. */
  predicate DistinctIds<F>(hooks: seq<Hook<F>>)
  {
    forall i, j :: 0 <= i < j < |hooks| ==> hooks[i].id != hooks[j].id
  }

  /** Applies registrations in order with the intended rule. */
  function RegisterAllIfNew(registry: Registry, registrations: seq<Registration>): Registry
    decreases |registrations|
  {
    if |registrations| == 0 then registry
    else
      var next :=
        match registrations[0]
        case RegisterStart(h) => RegisterStartHookIfNew(registry, h)
        case RegisterEnd(h) => RegisterEndHookIfNew(registry, h);
      RegisterAllIfNew(next, registrations[1..])
  }

  /** Under the intended rule identities stay unique in both lists, and every
      registered identity ends up present exactly once. */
  lemma {:induction false} RegisterAllIfNewKeepsIdsDistinct(registry: Registry, registrations: seq<Registration>)
    requires DistinctIds(registry.startHooks) && DistinctIds(registry.endHooks)
    ensures var r := RegisterAllIfNew(registry, registrations);
      && DistinctIds(r.startHooks) && DistinctIds(r.endHooks)
      && (forall k :: 0 <= k < |registrations| && registrations[k].RegisterStart? ==>
            HasHookId(r.startHooks, registrations[k].startHook.id))
      && (forall k :: 0 <= k < |registrations| && registrations[k].RegisterEnd? ==>
            HasHookId(r.endHooks, registrations[k].endHook.id))
    decreases |registrations|
  {
    if |registrations| > 0 {
      var next :=
        match registrations[0]
        case RegisterStart(h) => RegisterStartHookIfNew(registry, h)
        case RegisterEnd(h) => RegisterEndHookIfNew(registry, h);
      var r := RegisterAllIfNew(next, registrations[1..]);
      assert RegisterAllIfNew(registry, registrations) == r;
      RegisterAllIfNewKeepsIdsDistinct(next, registrations[1..]);
      RegisterAllIfNewGrows(next, registrations[1..]);
      match registrations[0]
      case RegisterStart(h) =>
        assert HasHookId(next.startHooks, h.id) by {
          if !HasHookId(registry.startHooks, h.id) {
            assert next.startHooks[|next.startHooks| - 1] == h;
          }
        }
        assert forall k :: 1 <= k < |registrations| ==> registrations[k] == registrations[1..][k - 1];
      case RegisterEnd(h) =>
        assert HasHookId(next.endHooks, h.id) by {
          if !HasHookId(registry.endHooks, h.id) {
            assert next.endHooks[|next.endHooks| - 1] == h;
          }
        }
        assert forall k :: 1 <= k < |registrations| ==> registrations[k] == registrations[1..][k - 1];
    }
  }

  /** Registration only ever appends: every identity present stays present. */
  lemma {:induction false} RegisterAllIfNewGrows(registry: Registry, registrations: seq<Registration>)
    ensures var r := RegisterAllIfNew(registry, registrations);
      && registry.startHooks <= r.startHooks
      && registry.endHooks <= r.endHooks
    decreases |registrations|
  {
    if |registrations| > 0 {
      var next :=
        match registrations[0]
        case RegisterStart(h) => RegisterStartHookIfNew(registry, h)
        case RegisterEnd(h) => RegisterEndHookIfNew(registry, h);
      RegisterAllIfNewGrows(next, registrations[1..]);
    }
  }

  /** Registering the same identity twice under the intended rule leaves one
      hook with that identity, so it fires once per call. */
  lemma RegisterTwiceIfNewKeepsOne(h1: StartHook, h2: StartHook)
    requires h1.id == h2.id
    ensures RegisterStartHookIfNew(RegisterStartHookIfNew(EmptyRegistry, h1), h2).startHooks == [h1]
  {
    assert HasHookId([h1], h2.id) by { assert [h1][0].id == h2.id; }
  }
}
