/** The values the Ollama client exchanges with the server and with its caller. */
module Protocol {
  import opened Wrappers

  const ChatEndpoint: string := "/api/chat"
  const GenerateEndpoint: string := "/api/generate"
  const TagsEndpoint: string := "/api/tags"

  /** The `message` member of a chat record; only `content` is read. */
  datatype Message = Message(content: Option<string>)

  /** One entry of the `models` array of `/api/tags`; only `name` is read. */
  datatype ModelInfo = ModelInfo(name: string)

  /** A JSON object as the client reads it. A member that is absent or null is
      `None`; `done` is its truthiness. */
  datatype Record = Record(
    response: Option<string>,
    message: Option<Message>,
    done: bool,
    models: Option<seq<ModelInfo>>)

  /** The errors a request can end with. */
  datatype Error =
    | InvalidUrl(url: string)
    | UriParseFailure(message: string)
    | HttpStatus(code: int, reason: string)
    | Transport(message: string)
    | InvalidResponseFormat
    | ReadFailure(message: string)

  /** What the client does that its caller can observe, in order: a token passed
      to `onToken`, the input stream being closed, the promise being resolved
      (with `onComplete`) or rejected (with `onError`). */
  datatype Event = Token(text: string) | Close | Complete(response: string) | Fail(error: Error)
  {
    predicate IsTerminal() { Complete? || Fail? }
  }

  /** The outcome of one `read_bytes_async`: the decoded text of the chunk (empty
      at end of stream) or the message of the error it raised. */
  datatype ReadResult = Chunk(text: string) | ReadError(message: string)

  /** JavaScript truthiness of an optional string. */
  predicate Truthy(s: Option<string>)
  {
    s.Some? && s.value != []
  }

  /** The token a streamed record carries: `message.content` on the chat
      endpoint, `response` on any other, and only when it is truthy. */
  function TokenOf(endpoint: string, rec: Record): (t: Option<string>)
  {
    if endpoint == ChatEndpoint then
      if rec.message.Some? && Truthy(rec.message.value.content) then rec.message.value.content else None
    else
      if Truthy(rec.response) then rec.response else None
  }

  /** A token is never empty, and on each endpoint it is the field that
      endpoint streams. */
  lemma TokenOfField(endpoint: string, rec: Record)
    ensures TokenOf(endpoint, rec).Some? ==> TokenOf(endpoint, rec).value != []
    ensures endpoint == ChatEndpoint && TokenOf(endpoint, rec).Some? ==>
      rec.message.Some? && rec.message.value.content == TokenOf(endpoint, rec)
    ensures endpoint == ChatEndpoint ==>
      (TokenOf(endpoint, rec).Some? <==> rec.message.Some? && Truthy(rec.message.value.content))
    ensures endpoint != ChatEndpoint && TokenOf(endpoint, rec).Some? ==> TokenOf(endpoint, rec) == rec.response
    ensures endpoint != ChatEndpoint ==> (TokenOf(endpoint, rec).Some? <==> Truthy(rec.response))
  {
  }
}
