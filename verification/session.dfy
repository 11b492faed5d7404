/** The request side of `OllamaClient`: the base URL, the payloads of `chat`
    and `generateResponse`, the choice between streaming and a buffered
    request, the status check of `_makeRequest` and `_streamRequest`, the
    extraction of a buffered answer, and `getModels`. The transport is not
    modelled: each call is given what the server answered. */
module Session {
  import opened Wrappers
  import opened Text
  import opened Protocol
  import opened Seqs
  import S = StreamSpec

  /** The settings the client reads at call time. */
  datatype Settings = Settings(ollamaUrl: string, currentModel: string, streamResponse: bool)

  datatype Role = User | Assistant

  datatype ChatMessage = ChatMessage(role: Role, content: string)

  /** The JSON body of a POST: one shape per endpoint. */
  datatype Payload =
    | ChatPayload(model: string, messages: seq<ChatMessage>, stream: bool)
    | GeneratePayload(model: string, prompt: string, stream: bool)

  datatype HttpMethod = Get | Post

  datatype Request = Request(verb: HttpMethod, url: string, body: Option<Payload>)

  /** What `_makeRequest` resolves with: the parsed JSON, or the text when
      `JSON.parse` rejects it. */
  datatype Reply = JsonReply(record: Record) | TextReply(text: string)

  /** What the transport reports for one request: the URL did not parse (with
      the message of the error `GLib.Uri.parse` raised), the send failed, or
      the server answered with a status, its reason phrase and (for a buffered
      request) a body. */
  datatype Exchange =
    | UnparsableUrl(parseError: string)
    | SendFailed(message: string)
    | Answered(status: int, reason: string, body: Reply)

  /** Everything the server does for one call: its answer to the request, the
      read results of a streamed body, and the JSON parser for its lines. */
  datatype Server = Server(exchange: Exchange, results: seq<ReadResult>, parse: string -> Option<Record>)

  /** Which callbacks the caller supplied. */
  datatype Callbacks = Callbacks(onToken: bool, onComplete: bool, onError: bool)

  /** How the call's promise ends: resolved with a value (`null` is None),
      rejected, or still pending because the server's reads ran out. */
  datatype Settle = Returned(value: Option<string>) | Threw(error: Error) | Pending

  /** One call: the request sent, the callbacks invoked in order, the result. */
  datatype Call = Call(request: Request, trace: seq<Event>, settle: Settle)

  /* ---------- endpoint ---------- */

  /** `get baseUrl()`: the `ollama-url` setting without one trailing slash. */
  function BaseUrl(url: string): (r: string)
    ensures url == r + "/" || (url == r && (url == [] || url[|url| - 1] != '/'))
  {
    if |url| > 0 && url[|url| - 1] == '/' then url[..|url| - 1] else url
  }

  /** Exactly one slash is removed, whatever precedes it, so a URL ending in
      two slashes keeps one. */
  lemma BaseUrlStripsOne(prefix: string)
    ensures BaseUrl(prefix + "/") == prefix
    ensures BaseUrl(prefix + "//") == prefix + "/"
  {
    assert (prefix + "//")[..|prefix| + 1] == prefix + "/";
  }

  function FullUrl(settings: Settings, endpoint: string): string
  {
    BaseUrl(settings.ollamaUrl) + endpoint
  }

  /* ---------- status ---------- */

  /** The check of `_makeRequest`: `statusCode >= 200 && statusCode < 300`. */
  predicate IsSuccessStatus(status: int)
  {
    status >= 200 && status < 300
  }

  /** The check of `_streamRequest`: `statusCode < 200 || statusCode >= 300`. */
  predicate IsStreamRejected(status: int)
  {
    status < 200 || status >= 300
  }

  /** The two status checks classify every status the same way. */
  lemma StatusChecksAgree(status: int)
    ensures IsStreamRejected(status) <==> !IsSuccessStatus(status)
    ensures IsSuccessStatus(status) <==> 200 <= status <= 299
  {
  }

  /** `_makeRequest`: succeeds with the body exactly on a 2xx answer. */
  function MakeRequest(settings: Settings, endpoint: string, exchange: Exchange): (r: Result<Reply, Error>)
    ensures r.Ok? <==> exchange.Answered? && 200 <= exchange.status < 300
    ensures r.Ok? ==> r.value == exchange.body
    ensures exchange.Answered? && r.Err? ==> r.error == HttpStatus(exchange.status, exchange.reason)
    ensures exchange.UnparsableUrl? ==> r == Err(InvalidUrl(BaseUrl(settings.ollamaUrl) + endpoint))
    ensures exchange.SendFailed? ==> r == Err(Transport(exchange.message))
  {
    match exchange
    case UnparsableUrl(_) => Err(InvalidUrl(FullUrl(settings, endpoint)))
    case SendFailed(message) => Err(Transport(message))
    case Answered(status, reason, body) =>
      if IsSuccessStatus(status) then Ok(body) else Err(HttpStatus(status, reason))
  }

  /* ---------- getModels ---------- */

  /** `models.map(model => model.name)` */
  function Names(models: seq<ModelInfo>): (names: seq<string>)
    ensures |names| == |models|
    ensures forall i :: 0 <= i < |models| ==> names[i] == models[i].name
  {
    if models == [] then [] else Names(models[..|models| - 1]) + [models[|models| - 1].name]
  }

  /** `getModels`: the model names in server order when the answer is JSON
      with a `models` member; an empty list otherwise, errors included. */
  function GetModels(settings: Settings, exchange: Exchange): (names: seq<string>)
    ensures var reply := MakeRequest(settings, TagsEndpoint, exchange);
      if reply.Ok? && reply.value.JsonReply? && reply.value.record.models.Some? then
        var models := reply.value.record.models.value;
        |names| == |models| && forall i :: 0 <= i < |models| ==> names[i] == models[i].name
      else names == []
  {
    match MakeRequest(settings, TagsEndpoint, exchange)
    case Err(_) => []
    case Ok(reply) =>
      if reply.JsonReply? && reply.record.models.Some? then Names(reply.record.models.value) else []
  }

  /* ---------- callbacks ---------- */

  function OnError(cb: Callbacks, e: Error): seq<Event>
  {
    if cb.onError then [Fail(e)] else []
  }

  function OnComplete(cb: Callbacks, text: string): seq<Event>
  {
    if cb.onComplete then [Complete(text)] else []
  }

  /** The callback, if any, that one reader event becomes. */
  function DeliverOne(cb: Callbacks, e: Event): seq<Event>
  {
    match e
    case Token(_) => if cb.onToken then [e] else []
    case Close => []
    case Complete(r) => OnComplete(cb, r)
    case Fail(err) => OnError(cb, err)
  }

  /** The callbacks the caller sees from a reader's trace: closes are internal,
      and a resolve or reject reaches a callback only if one was supplied. */
  function Deliver(cb: Callbacks, ev: seq<Event>): seq<Event>
  {
    if ev == [] then [] else Deliver(cb, ev[..|ev| - 1]) + DeliverOne(cb, ev[|ev| - 1])
  }

  /** What a reader's promise settled to. */
  datatype Promise = Resolved(value: string) | Rejected(error: Error) | Unsettled

  function Settled(ev: seq<Event>): Promise
  {
    if ev == [] then Unsettled
    else
      match ev[|ev| - 1]
      case Complete(r) => Resolved(r)
      case Fail(e) => Rejected(e)
      case _ => Settled(ev[..|ev| - 1])
  }

  /** `_streamRequest`: a URL that does not parse, a failed send or a non-2xx
      status reports the error and rejects; otherwise the body is read by
      `_readStream`. For a URL that does not parse, `onError` is given a new
      "Invalid URL" error but the promise rejects with the parser's own error. */
  function StreamRequest(settings: Settings, endpoint: string, cb: Callbacks, server: Server): (seq<Event>, Promise)
  {
    match server.exchange
    case UnparsableUrl(parseError) =>
      (OnError(cb, InvalidUrl(FullUrl(settings, endpoint))), Rejected(UriParseFailure(parseError)))
    case SendFailed(message) =>
      (OnError(cb, Transport(message)), Rejected(Transport(message)))
    case Answered(status, reason, _) =>
      if IsStreamRejected(status) then
        (OnError(cb, HttpStatus(status, reason)), Rejected(HttpStatus(status, reason)))
      else
        var st := S.HandleReads(S.Config(endpoint, server.parse), S.Initial, server.results);
        (Deliver(cb, st.events), Settled(st.events))
  }

  /** `model || current-model`: an absent or empty model falls back to the
      setting, which is not checked for emptiness. */
  function SelectModel(model: Option<string>, settings: Settings): string
  {
    if model.Some? && model.value != [] then model.value else settings.currentModel
  }

  /** The end of the streaming branch: the promise of `_streamRequest`
      resolving makes the caller return `null`; its rejection reaches the
      caller's `catch`, which calls `onError` again and rethrows. */
  function AfterStream(request: Request, cb: Callbacks, streamed: (seq<Event>, Promise)): Call
  {
    match streamed.1
    case Resolved(_) => Call(request, streamed.0, Returned(None))
    case Rejected(e) => Call(request, streamed.0 + OnError(cb, e), Threw(e))
    case Unsettled => Call(request, streamed.0, Pending)
  }

  /** `chat(messages, model, onToken, onComplete, onError)` */
  function Chat(settings: Settings, messages: seq<ChatMessage>, model: Option<string>, cb: Callbacks, server: Server): Call
  {
    var payload := ChatPayload(SelectModel(model, settings), messages, settings.streamResponse);
    var request := Request(Post, FullUrl(settings, ChatEndpoint), Some(payload));
    if payload.stream && cb.onToken then
      AfterStream(request, cb, StreamRequest(settings, ChatEndpoint, cb, server))
    else
      match MakeRequest(settings, ChatEndpoint, server.exchange)
      case Err(e) => Call(request, OnError(cb, e), Threw(e))
      case Ok(reply) =>
        if reply.JsonReply? && reply.record.message.Some? && Truthy(reply.record.message.value.content) then
          var content := reply.record.message.value.content.value;
          Call(request, OnComplete(cb, content), Returned(Some(content)))
        else
          // reported once before the throw and once more by the catch
          Call(request, OnError(cb, InvalidResponseFormat) + OnError(cb, InvalidResponseFormat),
               Threw(InvalidResponseFormat))
  }

  /** `generateResponse(prompt, model, onToken, onComplete, onError)` */
  function GenerateResponse(settings: Settings, prompt: string, model: Option<string>, cb: Callbacks, server: Server): Call
  {
    var payload := GeneratePayload(SelectModel(model, settings), prompt, settings.streamResponse);
    var request := Request(Post, FullUrl(settings, GenerateEndpoint), Some(payload));
    if payload.stream && cb.onToken then
      AfterStream(request, cb, StreamRequest(settings, GenerateEndpoint, cb, server))
    else
      match MakeRequest(settings, GenerateEndpoint, server.exchange)
      case Err(e) => Call(request, OnError(cb, e), Threw(e))
      case Ok(reply) =>
        if reply.JsonReply? && Truthy(reply.record.response) then
          var response := reply.record.response.value;
          Call(request, OnComplete(cb, response), Returned(Some(response)))
        else
          // no usable field: the call falls through to `return null`
          Call(request, [], Returned(None))
  }

  /* ---------- properties ---------- */

  lemma DeliverOneCounts(cb: Callbacks, e: Event)
    ensures S.Tokens(DeliverOne(cb, e)) == if cb.onToken then S.Tokens([e]) else []
    ensures S.Completes(DeliverOne(cb, e)) == if cb.onComplete then S.Completes([e]) else 0
    ensures S.Fails(DeliverOne(cb, e)) == if cb.onError then S.Fails([e]) else 0
  {
    assert [e][..0] == [];
  }

  /** Filtering keeps the tokens (when `onToken` is supplied) and each kind of
      terminal notification exactly when its callback is supplied. */
  lemma {:induction false} DeliverCounts(cb: Callbacks, ev: seq<Event>)
    ensures S.Tokens(Deliver(cb, ev)) == if cb.onToken then S.Tokens(ev) else []
    ensures S.Completes(Deliver(cb, ev)) == if cb.onComplete then S.Completes(ev) else 0
    ensures S.Fails(Deliver(cb, ev)) == if cb.onError then S.Fails(ev) else 0
    decreases |ev|
  {
    if ev != [] {
      var init, e := ev[..|ev| - 1], ev[|ev| - 1];
      DeliverCounts(cb, init);
      DeliverOneCounts(cb, e);
      S.AppendEvents(Deliver(cb, init), DeliverOne(cb, e));
      SplitLast(ev);
      S.AppendEvents(init, [e]);
    }
  }

  /** A resolve or reject reaches the caller exactly when its callback was
      supplied, with its value unchanged. */
  lemma {:induction false} DeliverKeepsTerminals(cb: Callbacks, ev: seq<Event>, e: Event)
    requires e.IsTerminal()
    ensures e in Deliver(cb, ev) <==> e in ev && (if e.Complete? then cb.onComplete else cb.onError)
    decreases |ev|
  {
    if ev != [] {
      var init, last := ev[..|ev| - 1], ev[|ev| - 1];
      DeliverKeepsTerminals(cb, init, e);
      SplitLast(ev);
      assert e in DeliverOne(cb, last) <==> e == last && (if e.Complete? then cb.onComplete else cb.onError);
    }
  }

  /** A trace holding a completion counts one. */
  lemma {:induction false} CompleteCounted(ev: seq<Event>, r: string)
    requires Complete(r) in ev
    ensures S.Completes(ev) >= 1
    decreases |ev|
  {
    var init, last := ev[..|ev| - 1], ev[|ev| - 1];
    SplitLast(ev);
    S.AppendEvents(init, [last]);
    if last != Complete(r) {
      CompleteCounted(init, r);
    }
  }

  /** With at most one terminal notification, a trace holding `Complete(r)`
      settles to `r`. */
  lemma {:induction false} SettledResolves(ev: seq<Event>, r: string)
    requires Complete(r) in ev && S.Completes(ev) + S.Fails(ev) <= 1
    ensures Settled(ev) == Resolved(r)
    decreases |ev|
  {
    var init, last := ev[..|ev| - 1], ev[|ev| - 1];
    SplitLast(ev);
    if last != Complete(r) {
      S.AppendEvents(init, [last]);
      SettledResolves(init, r);
      CompleteCounted(init, r);
      assert !last.IsTerminal();
    }
  }

  /** The promise settles the way the last terminal notification says. */
  lemma {:induction false} SettledCounts(ev: seq<Event>)
    ensures Settled(ev).Resolved? ==> S.Completes(ev) >= 1
    ensures Settled(ev).Rejected? ==> S.Fails(ev) >= 1
    ensures Settled(ev).Unsettled? <==> S.Completes(ev) + S.Fails(ev) == 0
    decreases |ev|
  {
    if ev != [] {
      SettledCounts(ev[..|ev| - 1]);
    }
  }

  /** `_streamRequest` reports at most one terminal notification, and the
      promise agrees with it. */
  lemma StreamRequestTerminals(settings: Settings, endpoint: string, cb: Callbacks, server: Server)
    ensures var (trace, promise) := StreamRequest(settings, endpoint, cb, server);
      S.Completes(trace) + S.Fails(trace) <= 1 &&
      (promise.Resolved? ==> S.Fails(trace) == 0) &&
      (promise.Rejected? ==> S.Completes(trace) == 0) &&
      (promise.Unsettled? ==> S.Completes(trace) + S.Fails(trace) == 0)
  {
    if server.exchange.Answered? && !IsStreamRejected(server.exchange.status) {
      var cfg := S.Config(endpoint, server.parse);
      var ev := S.HandleReads(cfg, S.Initial, server.results).events;
      S.AtMostOneTermination(cfg, server.results);
      S.TerminalsSplit(ev);
      SettledCounts(ev);
      DeliverCounts(cb, ev);
    }
  }

  /** A reader that resolved with `r` rejected nothing and settles to `r`. */
  lemma ReaderResolves(cfg: S.Config, rs: seq<ReadResult>, r: string)
    requires Complete(r) in S.HandleReads(cfg, S.Initial, rs).events
    ensures var ev := S.HandleReads(cfg, S.Initial, rs).events;
      S.Fails(ev) == 0 && Settled(ev) == Resolved(r)
  {
    var ev := S.HandleReads(cfg, S.Initial, rs).events;
    S.AtMostOneTermination(cfg, rs);
    S.TerminalsSplit(ev);
    CompleteCounted(ev, r);
    SettledResolves(ev, r);
  }

  /** A 2xx stream whose reader resolved with `r`: `onComplete(r)` is called
      exactly when it was supplied, no error is reported, and the promise
      resolves with `r`. */
  lemma StreamRequestCompletes(settings: Settings, endpoint: string, cb: Callbacks, server: Server, r: string)
    requires server.exchange.Answered? && IsSuccessStatus(server.exchange.status)
    requires Complete(r) in S.HandleReads(S.Config(endpoint, server.parse), S.Initial, server.results).events
    ensures var (trace, promise) := StreamRequest(settings, endpoint, cb, server);
      (Complete(r) in trace <==> cb.onComplete) && S.Fails(trace) == 0 && promise == Resolved(r)
  {
    var ev := S.HandleReads(S.Config(endpoint, server.parse), S.Initial, server.results).events;
    ReaderResolves(S.Config(endpoint, server.parse), server.results, r);
    DeliverKeepsTerminals(cb, ev, Complete(r));
    DeliverCounts(cb, ev);
  }

  /** After the caller's `catch`: a completion is never followed or preceded
      by an error, there is at most one completion, and at most two error
      reports (the reject reported by the reader and again by the caller). */
  lemma AfterStreamTerminals(settings: Settings, endpoint: string, request: Request, cb: Callbacks, server: Server)
    ensures var c := AfterStream(request, cb, StreamRequest(settings, endpoint, cb, server));
      S.Completes(c.trace) <= 1 && S.Fails(c.trace) <= 2 &&
      (S.Completes(c.trace) == 0 || S.Fails(c.trace) == 0) &&
      (c.settle.Threw? ==> S.Completes(c.trace) == 0) &&
      (c.settle.Returned? ==> S.Fails(c.trace) == 0)
  {
    var streamed := StreamRequest(settings, endpoint, cb, server);
    StreamRequestTerminals(settings, endpoint, cb, server);
    if streamed.1.Rejected? {
      S.AppendEvents(streamed.0, OnError(cb, streamed.1.error));
    }
  }

  /** `chat` never reports both a completion and an error, completes at most
      once, and reports an error at most twice. */
  lemma ChatTerminals(settings: Settings, messages: seq<ChatMessage>, model: Option<string>, cb: Callbacks, server: Server)
    ensures var c := Chat(settings, messages, model, cb, server);
      S.Completes(c.trace) <= 1 && S.Fails(c.trace) <= 2 &&
      (S.Completes(c.trace) == 0 || S.Fails(c.trace) == 0) &&
      (c.settle.Threw? ==> S.Completes(c.trace) == 0) &&
      (c.settle.Returned? ==> S.Fails(c.trace) == 0)
  {
    var payload := ChatPayload(SelectModel(model, settings), messages, settings.streamResponse);
    var request := Request(Post, FullUrl(settings, ChatEndpoint), Some(payload));
    if settings.streamResponse && cb.onToken {
      AfterStreamTerminals(settings, ChatEndpoint, request, cb, server);
    } else {
      S.AppendEvents(OnError(cb, InvalidResponseFormat), OnError(cb, InvalidResponseFormat));
    }
  }

  /** The same for `generateResponse`. */
  lemma GenerateTerminals(settings: Settings, prompt: string, model: Option<string>, cb: Callbacks, server: Server)
    ensures var c := GenerateResponse(settings, prompt, model, cb, server);
      S.Completes(c.trace) <= 1 && S.Fails(c.trace) <= 2 &&
      (S.Completes(c.trace) == 0 || S.Fails(c.trace) == 0) &&
      (c.settle.Threw? ==> S.Completes(c.trace) == 0) &&
      (c.settle.Returned? ==> S.Fails(c.trace) == 0)
  {
    var payload := GeneratePayload(SelectModel(model, settings), prompt, settings.streamResponse);
    var request := Request(Post, FullUrl(settings, GenerateEndpoint), Some(payload));
    if settings.streamResponse && cb.onToken {
      AfterStreamTerminals(settings, GenerateEndpoint, request, cb, server);
    }
  }

  /** On the streaming path the caller sees the reader's tokens when the
      answer was not rejected and `onToken` was supplied, and none otherwise. */
  lemma AfterStreamTokens(settings: Settings, endpoint: string, request: Request, cb: Callbacks, server: Server)
    ensures var c := AfterStream(request, cb, StreamRequest(settings, endpoint, cb, server));
      S.Tokens(c.trace) ==
        if cb.onToken && server.exchange.Answered? && !IsStreamRejected(server.exchange.status)
        then S.Tokens(S.HandleReads(S.Config(endpoint, server.parse), S.Initial, server.results).events)
        else []
  {
    var streamed := StreamRequest(settings, endpoint, cb, server);
    var report := if streamed.1.Rejected? then OnError(cb, streamed.1.error) else [];
    assert AfterStream(request, cb, streamed).trace == streamed.0 + report;
    S.AppendEvents(streamed.0, report);
    if streamed.1.Rejected? {
      ErrorsCarryNoToken(cb, streamed.1.error);
    }
    if server.exchange.Answered? && !IsStreamRejected(server.exchange.status) {
      DeliverCounts(cb, S.HandleReads(S.Config(endpoint, server.parse), S.Initial, server.results).events);
    } else {
      match server.exchange
      case UnparsableUrl(_) => ErrorsCarryNoToken(cb, InvalidUrl(FullUrl(settings, endpoint)));
      case SendFailed(m) => ErrorsCarryNoToken(cb, Transport(m));
      case Answered(status, reason, _) => ErrorsCarryNoToken(cb, HttpStatus(status, reason));
    }
  }

  /** An error report holds no token. */
  lemma ErrorsCarryNoToken(cb: Callbacks, e: Error)
    ensures S.Tokens(OnError(cb, e)) == []
  {
    if cb.onError {
      assert OnError(cb, e)[..0] == [];
    }
  }

  /** Tokens reach the caller only when streaming was chosen, which happens
      exactly when the setting is on and an `onToken` callback was supplied;
      then they are the reader's tokens, in order. */
  lemma ChatTokens(settings: Settings, messages: seq<ChatMessage>, model: Option<string>, cb: Callbacks, server: Server)
    ensures var c := Chat(settings, messages, model, cb, server);
      (S.Tokens(c.trace) != [] ==> settings.streamResponse && cb.onToken) &&
      (settings.streamResponse && cb.onToken && server.exchange.Answered? && IsSuccessStatus(server.exchange.status) ==>
         S.Tokens(c.trace) == S.Tokens(S.HandleReads(S.Config(ChatEndpoint, server.parse), S.Initial, server.results).events))
  {
    if settings.streamResponse && cb.onToken {
      var payload := ChatPayload(SelectModel(model, settings), messages, settings.streamResponse);
      var request := Request(Post, FullUrl(settings, ChatEndpoint), Some(payload));
      AfterStreamTokens(settings, ChatEndpoint, request, cb, server);
      if server.exchange.Answered? {
        StatusChecksAgree(server.exchange.status);
      }
    } else {
      S.AppendEvents(OnError(cb, InvalidResponseFormat), OnError(cb, InvalidResponseFormat));
    }
  }

  /** A buffered `chat` whose answer carries a message: one completion with
      that content, no token, and the content returned. */
  lemma ChatBufferedSuccess(settings: Settings, messages: seq<ChatMessage>, model: Option<string>, cb: Callbacks,
                            server: Server, content: string)
    requires !(settings.streamResponse && cb.onToken)
    requires server.exchange.Answered? && IsSuccessStatus(server.exchange.status)
    requires server.exchange.body.JsonReply?
    requires server.exchange.body.record.message == Some(Message(Some(content))) && content != []
    ensures var c := Chat(settings, messages, model, cb, server);
      c.request == Request(Post, BaseUrl(settings.ollamaUrl) + "/api/chat",
                           Some(ChatPayload(SelectModel(model, settings), messages, settings.streamResponse))) &&
      c.trace == (if cb.onComplete then [Complete(content)] else []) &&
      c.settle == Returned(Some(content))
  {
  }

  /** A buffered `chat` whose answer has no usable content reports the format
      error twice and throws. */
  lemma ChatInvalidFormat(settings: Settings, messages: seq<ChatMessage>, model: Option<string>, cb: Callbacks, server: Server)
    requires !(settings.streamResponse && cb.onToken)
    requires server.exchange.Answered? && IsSuccessStatus(server.exchange.status)
    requires var body := server.exchange.body;
      !(body.JsonReply? && body.record.message.Some? && Truthy(body.record.message.value.content))
    ensures var c := Chat(settings, messages, model, cb, server);
      c.trace == (if cb.onError then [Fail(InvalidResponseFormat), Fail(InvalidResponseFormat)] else []) &&
      c.settle == Threw(InvalidResponseFormat)
  {
  }

  /** A streamed `chat` answered with a non-2xx status: no token and no
      completion, the status error reported twice, and the call throws. */
  lemma ChatStreamHttpError(settings: Settings, messages: seq<ChatMessage>, model: Option<string>, cb: Callbacks, server: Server)
    requires settings.streamResponse && cb.onToken
    requires server.exchange.Answered? && !IsSuccessStatus(server.exchange.status)
    ensures var c := Chat(settings, messages, model, cb, server);
      var e := HttpStatus(server.exchange.status, server.exchange.reason);
      c.trace == (if cb.onError then [Fail(e), Fail(e)] else []) && c.settle == Threw(e)
  {
  }

  /** A streamed `chat` whose URL does not parse reports two different
      errors: the "Invalid URL" error from `_streamRequest`, then the parser's
      own error, which is also the one thrown. */
  lemma ChatStreamUnparsableUrl(settings: Settings, messages: seq<ChatMessage>, model: Option<string>, cb: Callbacks,
                                server: Server, parseError: string)
    requires settings.streamResponse && cb.onToken
    requires server.exchange == UnparsableUrl(parseError)
    ensures var c := Chat(settings, messages, model, cb, server);
      var url := BaseUrl(settings.ollamaUrl) + ChatEndpoint;
      c.trace == (if cb.onError then [Fail(InvalidUrl(url)), Fail(UriParseFailure(parseError))] else []) &&
      c.settle == Threw(UriParseFailure(parseError))
  {
  }

  /** A streamed `chat` whose reader resolved with `r` passes `r` to
      `onComplete` when it was supplied, reports no error, and returns `null`. */
  lemma ChatStreamCompletes(settings: Settings, messages: seq<ChatMessage>, model: Option<string>, cb: Callbacks,
                            server: Server, r: string)
    requires settings.streamResponse && cb.onToken
    requires server.exchange.Answered? && IsSuccessStatus(server.exchange.status)
    requires Complete(r) in S.HandleReads(S.Config(ChatEndpoint, server.parse), S.Initial, server.results).events
    ensures var c := Chat(settings, messages, model, cb, server);
      (Complete(r) in c.trace <==> cb.onComplete) && S.Fails(c.trace) == 0 && c.settle == Returned(None)
  {
    StreamRequestCompletes(settings, ChatEndpoint, cb, server, r);
  }

  /** A failed send: buffered, `chat`'s `catch` reports the transport error
      once; streamed, `_streamRequest` reports it and the `catch` reports it
      again. Either way the call throws it. */
  lemma ChatSendFailed(settings: Settings, messages: seq<ChatMessage>, model: Option<string>, cb: Callbacks,
                       server: Server, message: string)
    requires server.exchange == SendFailed(message)
    ensures var c := Chat(settings, messages, model, cb, server);
      var once := if cb.onError then [Fail(Transport(message))] else [];
      c.trace == (if settings.streamResponse && cb.onToken then once + once else once) &&
      c.settle == Threw(Transport(message))
  {
  }

  /** A buffered `generateResponse` whose answer has a non-empty `response`:
      one completion with it, and it is returned. */
  lemma GenerateBufferedSuccess(settings: Settings, prompt: string, model: Option<string>, cb: Callbacks,
                                server: Server, r: string)
    requires !(settings.streamResponse && cb.onToken)
    requires server.exchange.Answered? && IsSuccessStatus(server.exchange.status)
    requires server.exchange.body.JsonReply? && server.exchange.body.record.response == Some(r) && r != []
    ensures var c := GenerateResponse(settings, prompt, model, cb, server);
      c.trace == (if cb.onComplete then [Complete(r)] else []) && c.settle == Returned(Some(r))
  {
  }

  /** The request `generateResponse` sends: a POST of `{model, prompt, stream}`
      to `<base>/api/generate`, the model falling back to the `current-model`
      setting when the argument is absent or empty. */
  lemma GenerateRequest(settings: Settings, prompt: string, model: Option<string>, cb: Callbacks, server: Server)
    ensures var c := GenerateResponse(settings, prompt, model, cb, server);
      var m := if model.Some? && model.value != [] then model.value else settings.currentModel;
      c.request == Request(Post, BaseUrl(settings.ollamaUrl) + "/api/generate",
                           Some(GeneratePayload(m, prompt, settings.streamResponse)))
  {
  }

  /** Tokens reach the caller of `generateResponse` only when streaming was
      chosen; then, on a 2xx answer, they are the reader's tokens in order. */
  lemma GenerateTokens(settings: Settings, prompt: string, model: Option<string>, cb: Callbacks, server: Server)
    ensures var c := GenerateResponse(settings, prompt, model, cb, server);
      (S.Tokens(c.trace) != [] ==> settings.streamResponse && cb.onToken) &&
      (settings.streamResponse && cb.onToken && server.exchange.Answered? && IsSuccessStatus(server.exchange.status) ==>
         S.Tokens(c.trace) == S.Tokens(S.HandleReads(S.Config(GenerateEndpoint, server.parse), S.Initial, server.results).events))
  {
    if settings.streamResponse && cb.onToken {
      var payload := GeneratePayload(SelectModel(model, settings), prompt, settings.streamResponse);
      var request := Request(Post, FullUrl(settings, GenerateEndpoint), Some(payload));
      AfterStreamTokens(settings, GenerateEndpoint, request, cb, server);
      if server.exchange.Answered? {
        StatusChecksAgree(server.exchange.status);
      }
    } else {
      var trace := GenerateResponse(settings, prompt, model, cb, server).trace;
      assert trace == [] || (|trace| == 1 && !trace[0].Token?);
      if trace != [] {
        assert trace[..|trace| - 1] == [];
        assert S.Tokens(trace) == S.Tokens([]);
      }
    }
  }

  /** A buffered `generateResponse` whose answer has no usable `response`
      reports nothing and returns `null`. */
  lemma GenerateInvalidFormatSilent(settings: Settings, prompt: string, model: Option<string>, cb: Callbacks, server: Server)
    requires !(settings.streamResponse && cb.onToken)
    requires server.exchange.Answered? && IsSuccessStatus(server.exchange.status)
    requires !(server.exchange.body.JsonReply? && Truthy(server.exchange.body.record.response))
    ensures var c := GenerateResponse(settings, prompt, model, cb, server);
      c.trace == [] && c.settle == Returned(None)
  {
  }

  /** The model sent is the argument when it is a non-empty string and the
      `current-model` setting otherwise, even when that setting is empty. */
  lemma ModelFallback(settings: Settings, messages: seq<ChatMessage>, model: Option<string>, cb: Callbacks, server: Server)
    ensures var c := Chat(settings, messages, model, cb, server);
      c.request.body.Some? && c.request.body.value.ChatPayload? &&
      c.request.body.value.model == (if model.Some? && model.value != [] then model.value else settings.currentModel)
  {
  }
}
