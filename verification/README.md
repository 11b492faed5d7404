# GnomeLLM Ollama client and markdown renderers in Dafny

This project models the core of the GnomeLLM GNOME Shell extension:

- **`OllamaClient`** (`lib/ollamaClient.js`):
  - the base URL taken from the `ollama-url` setting;
  - the request payloads of `chat` and `generateResponse`, including the fallback to the `current-model` setting;
  - the choice between a streamed and a buffered request;
  - the 2xx status check of `_makeRequest` and `_streamRequest`;
  - the extraction of a buffered answer, and `getModels`;
  - above all, the line-delimited JSON stream reader `_readStream`.
- **`MarkdownRenderer`** of `lib/markdownRenderer.js`: `_escapeHtml`, then the four delimiter rewrites (code block, inline code, bold, italic) applied in order, then `render`'s choice between markup and plain text.
- **`MarkdownRenderer`** of the built extension (`build/GnomeLLM@luishg.github.io/lib/markdownRenderer.js`): `_escapePango`, then the last three steps of `_htmlToPango` (strip remaining tags, collapse runs of newlines, trim), then `render`'s fallbacks.

The stream reader appears twice:

- **`StreamSpec`** is a reference state machine over values. It has one function per closure of `_readStream`, and every property is proved about it:
  - the stream closes at most once;
  - it resolves or rejects at most once and never both;
  - a resolution carries every token emitted before it;
  - tokens come in line order;
  - the same text cut into chunks differently gives the same outcome, as long as no chunk before the last completes a `done` line;
  - a text whose only `done` line is its last line yields, however it is cut, all its tokens and then exactly one resolution with their concatenation.
- **`StreamReader.LineStreamReader`** keeps the closure variables as the fields of an object. It has one method per closure, and the `forEach` and the self-reissuing `readChunk` are loops. Each method is proved to update its fields exactly as the reference machine says. `HandleLine`, `HandleChunk`, `OnRead` and `ReadChunks` are also proved to keep the reader invariant. `CloseStream`, `CompleteStream` and `ErrorStream` are proved only to match the reference machine; that those steps keep the invariant is proved about the reference functions (`StreamSpec.ValidComplete`, `StreamSpec.ValidError`).

Callbacks are recorded as a trace of events: `Token` for `onToken`, `Close` for the input stream being closed, `Complete` for resolve plus `onComplete`, and `Fail` for reject plus `onError`. `Session` then keeps only the callbacks the caller supplied.

The client has the following quirks, and the model keeps them:

- Tokens of lines after a `done` record in the same chunk are still passed to `onToken`. The `return` only leaves the `forEach` callback.
- At end of stream, the unterminated buffer is dropped unparsed.
- Empty tokens are ignored.
- On the invalid-format, HTTP-error and stream-error paths, `chat` reports the error to `onError` twice: once where it is raised and once more in its own `catch`.
- When the URL cannot be parsed, `_streamRequest` passes an invalid-URL error to `onError` but rejects with the parse error itself. The caller's `catch` then reports that second, different error.
- A buffered `generateResponse` whose answer has no `response` field reports nothing and returns `null`.
- In the Pango renderer, the final tag strip (`/<[^>]*>/g`) removes every tag that the element rewrites just before it inserted. The markup handed to `set_markup` therefore never carries a `<b>`, `<i>` or `<span>`: the `NoTag` clause of `MarkdownPango.HtmlTailShape` states that no `<` of the result is followed by a `>`.
- An empty `current-model` setting is sent as it is. The "no model selected" check lives in the chat window, which is not part of this model.

## Model

| member | source | states |
|---|---|---|
| Session.BaseUrl | lib/ollamaClient.js:27-31 | the URL is the setting with exactly one trailing `/` removed, or the setting itself when it does not end in `/` |
| Session.BaseUrlStripsOne | lib/ollamaClient.js:30 | only one slash is stripped: `x/` gives `x`, and `x//` gives `x/` |
| Session.StatusChecksAgree | lib/ollamaClient.js:180-260 | the buffered check (`>= 200 && < 300`) and the streamed check (`< 200 \|\| >= 300`) classify every status the same way, with success exactly at 200..299 |
| Session.MakeRequest | lib/ollamaClient.js:135-203 | succeeds exactly on a 2xx answer and then yields the body (JSON, or text when it is not JSON); a non-2xx answer fails with the status and reason; an unparsable URL fails with `Invalid URL: <url>`, and a failed send with the transport error |
| Session.Names | lib/ollamaClient.js:51 | the names list has one entry per model, in server order, each the model's `name` |
| Session.GetModels | lib/ollamaClient.js:46-61 | the model names when the 2xx answer is JSON with a `models` member; an empty list otherwise, errors included |
| Session.DeliverCounts | lib/ollamaClient.js:293-307 | the caller receives the reader's tokens exactly when `onToken` is supplied, and as many completions and errors as the reader produced exactly when their callbacks are supplied; that each keeps its value is stated by `DeliverKeepsTerminals` |
| Session.DeliverKeepsTerminals | lib/ollamaClient.js:293-307 | a given completion or error reaches the caller exactly when the reader produced it and its callback was supplied, with its value unchanged |
| Session.SettledResolves | lib/ollamaClient.js:293-299 | a trace with at most one terminal notification that holds a completion with `r` settles the promise to `r` |
| Session.ReaderResolves | lib/ollamaClient.js:293-307 | when the reader resolved with `r`, it rejected nothing and its promise settles to `r` |
| Session.StreamRequestCompletes | lib/ollamaClient.js:254-299 | a 2xx stream whose reader resolved with `r`: `onComplete(r)` is called exactly when `onComplete` was supplied, no error is reported, and the promise resolves with `r` |
| Session.SettledCounts | lib/ollamaClient.js:293-307 | a resolved promise follows a completion and a rejected one follows an error; the promise stays pending exactly when neither happened |
| Session.StreamRequestTerminals | lib/ollamaClient.js:205-273 | `_streamRequest` reports at most one completion or error, and its promise agrees with the report |
| Session.AfterStreamTerminals | lib/ollamaClient.js:109-131 | after the caller's `catch`: at most one completion and at most two error reports, never both; a throw comes with no completion and a return with no error |
| Session.ChatTerminals | lib/ollamaClient.js:97-133 | `chat` never reports both a completion and an error; it completes at most once and reports an error at most twice; a return has no error and a throw no completion |
| Session.GenerateTerminals | lib/ollamaClient.js:68-95 | the same bounds for `generateResponse` |
| Session.AfterStreamTokens | lib/ollamaClient.js:254-263 | on the streaming path the caller's tokens are the reader's tokens when the status is 2xx and `onToken` was supplied, and none otherwise |
| Session.ChatTokens | lib/ollamaClient.js:99-112 | tokens reach the caller only when the `stream-response` setting is on and `onToken` is supplied; then, on a 2xx answer, they are exactly the reader's tokens in order |
| Session.ChatBufferedSuccess | lib/ollamaClient.js:101-119 | a buffered chat POSTs `{model, messages, stream}` to `<base>/api/chat`; an answer with a non-empty `message.content` gives one completion with it and returns it |
| Session.ChatInvalidFormat | lib/ollamaClient.js:116-131 | a buffered chat answer without usable content reports the format error twice (when `onError` is given) and throws it |
| Session.ChatStreamHttpError | lib/ollamaClient.js:254-260 | a streamed chat answered with a non-2xx status has no token and no completion; it reports the HTTP error twice and throws |
| Session.ChatStreamCompletes | lib/ollamaClient.js:109-133 | a streamed chat on a 2xx answer whose reader resolved with `r` passes `r` to `onComplete` when it was supplied, reports no error, and returns `null` |
| Session.ChatSendFailed | lib/ollamaClient.js:109-131 | a failed send is reported once by a buffered chat (only in its `catch`), and twice by a streamed one (by `_streamRequest` and again by the `catch`); either way the chat throws the transport error |
| Session.GenerateBufferedSuccess | lib/ollamaClient.js:81-86 | a buffered `generateResponse` whose 2xx answer has a non-empty `response` gives one completion with it (when `onComplete` is given) and returns it |
| Session.GenerateRequest | lib/ollamaClient.js:68-74 | `generateResponse` POSTs `{model, prompt, stream}` to `<base>/api/generate`; the model is the argument when it is a non-empty string, and otherwise the `current-model` setting |
| Session.GenerateTokens | lib/ollamaClient.js:78-80 | tokens reach the caller of `generateResponse` only when the `stream-response` setting is on and `onToken` is supplied; then, on a 2xx answer, they are exactly the reader's tokens in order |
| Session.GenerateInvalidFormatSilent | lib/ollamaClient.js:81-94 | a buffered `generateResponse` whose answer has no truthy `response` invokes no callback and returns `null` |
| Session.ChatStreamUnparsableUrl | lib/ollamaClient.js:209-218 | a streamed chat to an unparsable URL reports the invalid-URL error to `onError` and the parse error once more in `chat`'s own `catch`, then throws the parse error |
| Session.StreamRequest | lib/ollamaClient.js:205-273 | `_streamRequest` as a function of what the server does: the callbacks invoked and how the promise settles; its properties are stated by `StreamRequestTerminals`, `StreamRequestCompletes`, `AfterStreamTokens` and `ChatStreamUnparsableUrl` |
| Session.Chat | lib/ollamaClient.js:97-133 | `chat` as a function of the settings, arguments and server; its properties are stated by `ChatTerminals`, `ChatTokens`, `ChatBufferedSuccess`, `ChatStreamCompletes`, `ChatSendFailed`, `ChatInvalidFormat`, `ChatStreamHttpError`, `ChatStreamUnparsableUrl` and `ModelFallback` |
| Session.GenerateResponse | lib/ollamaClient.js:68-95 | `generateResponse` in the same terms; its properties are stated by `GenerateTerminals`, `GenerateRequest`, `GenerateTokens`, `GenerateBufferedSuccess` and `GenerateInvalidFormatSilent` |
| Session.ModelFallback | lib/ollamaClient.js:98 | the model sent is the argument when it is a non-empty string, and otherwise the `current-model` setting, even when that is empty |
| Protocol.TokenOf | lib/ollamaClient.js:350-364 | the token a parsed line contributes, or none; its properties are stated by `TokenOfField` |
| Protocol.TokenOfField | lib/ollamaClient.js:350-364 | a streamed token is never empty; on `/api/chat` it is present exactly when `message.content` is truthy and is then that content; on any other endpoint it is present exactly when `response` is truthy and is then that field |
| StreamSpec.CloseStream | lib/ollamaClient.js:281-291 | the stream ends up closed, and the input stream is closed only the first time; buffer, response and count are untouched |
| StreamSpec.CompleteStream | lib/ollamaClient.js:293-299 | on an open stream: one close, then one resolution with the given response; once closed, nothing happens; buffer, response and count are untouched |
| StreamSpec.ErrorStream | lib/ollamaClient.js:301-307 | on an open stream: one close, then one rejection with the error; once closed, nothing happens; buffer, response and count are untouched |
| StreamSpec.TerminalsSplit | lib/ollamaClient.js:293-307 | every terminal notification is either a resolve or a reject |
| StreamSpec.AppendEvents | lib/ollamaClient.js:293-307 | tokens, completions and errors of two traces add up |
| StreamSpec.ValidEmit | lib/ollamaClient.js:355-368 | emitting a token keeps the reader invariant: `fullResponse` is the concatenation of the tokens and `tokenCount` their number |
| StreamSpec.ValidTerminate | lib/ollamaClient.js:293-307 | a close followed by one resolve or reject, on an open stream, keeps the invariant |
| StreamSpec.ValidComplete | lib/ollamaClient.js:293-299 | `completeStream(fullResponse)` keeps the invariant, so a resolution carries every token emitted before it |
| StreamSpec.ValidError | lib/ollamaClient.js:301-307 | `errorStream` keeps the invariant |
| StreamSpec.HandleLine | lib/ollamaClient.js:346-379 | the `forEach` body for one line; its properties are stated by `ValidHandleLine`, `HandleLineEffect` and `DoneLineCompletes` |
| StreamSpec.HandleLines | lib/ollamaClient.js:345-380 | the `forEach` over the complete lines; its properties are stated by `ValidHandleLines`, `HandleLinesEffect` and `LinesEndingInDone` |
| StreamSpec.HandleRead | lib/ollamaClient.js:321-396 | the `read_bytes_async` callback; its properties are stated by `ValidHandleRead`, `ChunkEffect`, `EndOfStreamCompletes` and `ReadErrorOutcome` |
| StreamSpec.HandleReads | lib/ollamaClient.js:309-401 | the chain of reads; its properties are stated by `ValidHandleReads`, `AtMostOneTermination`, `StreamEndsOnce`, `ClosedIsFinal`, `HandleReadsAppend` and the chunking lemmas |
| StreamSpec.ValidHandleLine | lib/ollamaClient.js:345-380 | handling one line keeps the invariant |
| StreamSpec.ValidHandleLines | lib/ollamaClient.js:345-380 | handling any lines keeps the invariant |
| StreamSpec.ValidHandleRead | lib/ollamaClient.js:321-396 | one read callback keeps the invariant |
| StreamSpec.ValidHandleReads | lib/ollamaClient.js:309-401 | any sequence of reads keeps the invariant |
| StreamSpec.AtMostOneTermination | lib/ollamaClient.js:275-402 | whatever the server sends: the input stream is closed at most once; resolve or reject happens at most once, never both, right after that close, exactly when the stream is closed, and a resolution carries every token emitted before it; `fullResponse` and `tokenCount` are the concatenation and number of the tokens passed to `onToken` |
| StreamSpec.HandleLineEffect | lib/ollamaClient.js:345-380 | one line keeps the buffer and adds its token, if any; it closes the stream exactly when the line is a `done` record |
| StreamSpec.HandleLinesEffect | lib/ollamaClient.js:345-380 | handling lines emits exactly the truthy tokens of the lines in order, including lines after a `done` record; it closes exactly when some line is a `done` record and keeps the buffer |
| StreamSpec.ChunkEffect | lib/ollamaClient.js:337-380 | after one chunk the new buffer has no newline, the complete lines plus the buffer reassemble the old buffer plus the chunk, those lines' tokens are emitted in order, and the stream closes exactly when one of them is `done` |
| StreamSpec.ClosedIsFinal | lib/ollamaClient.js:309-325 | once closed, no read result changes anything |
| StreamSpec.EndOfStreamCompletes | lib/ollamaClient.js:330-335 | an empty chunk closes the stream and resolves it with the response so far; the buffer is dropped |
| StreamSpec.ReadErrorOutcome | lib/ollamaClient.js:387-395 | a read error closes the stream; it resolves when the message contains "closed" and rejects otherwise |
| StreamSpec.StreamEndsOnce | lib/ollamaClient.js:330-395 | when the reads include an end of stream or a read error, the reader ends with exactly one resolve or reject |
| StreamSpec.IssuedWhileOpenMeans | lib/ollamaClient.js:382-385 | a read is issued only while the stream is open, spelled out for every prefix of the reads |
| StreamSpec.ReadsAfterClose | lib/ollamaClient.js:382-385 | reads that are never issued once the stream has closed would not change anything |
| StreamSpec.HandleReadsAppend | lib/ollamaClient.js:309-401 | handling two batches of reads equals handling them one after the other |
| StreamSpec.ChunkSplitIndependence | lib/ollamaClient.js:337-345 | when no chunk before the last completes a `done` line, reading a text in any number of non-empty chunks gives the same state as handling all its complete lines at once, with the text after the last newline kept as the buffer; the last chunk may complete `done` lines |
| StreamSpec.SameTextSameOutcome | lib/ollamaClient.js:337-345 | two ways of cutting the same text into non-empty chunks give the same state, tokens and trace, when neither completes a `done` line before its last chunk |
| StreamSpec.DoneLineCompletes | lib/ollamaClient.js:351-374 | a `done` line on an open stream ends the trace with a resolution carrying the response so far |
| StreamSpec.LinesEndingInDone | lib/ollamaClient.js:345-380 | lines whose only `done` record is the last one emit every line's token, then close and resolve exactly once with all the tokens, and nothing fails |
| StreamSpec.DoneAtEndAnyChunking | lib/ollamaClient.js:309-380 | a text whose only `done` line is its last line, cut into any non-empty chunks, yields the tokens of all its lines in order, then exactly one resolution with their concatenation as the last event, and no error |
| StreamReader.LineStreamReader.CloseStream | lib/ollamaClient.js:281-291 | the fields become `StreamSpec.CloseStream` of the old ones |
| StreamReader.LineStreamReader.CompleteStream | lib/ollamaClient.js:293-299 | the fields become `StreamSpec.CompleteStream` of the old ones |
| StreamReader.LineStreamReader.ErrorStream | lib/ollamaClient.js:301-307 | the fields become `StreamSpec.ErrorStream` of the old ones |
| StreamReader.LineStreamReader.HandleLine | lib/ollamaClient.js:346-379 | the fields become `StreamSpec.HandleLine` of the old ones, and the invariant is kept |
| StreamReader.LineStreamReader.HandleChunk | lib/ollamaClient.js:338-380 | the buffer is split at newlines, the trailing fragment is kept, and every complete line is handled in order; the invariant is kept |
| StreamReader.LineStreamReader.OnRead | lib/ollamaClient.js:321-396 | the fields become `StreamSpec.HandleRead` of the old ones, and the invariant is kept |
| StreamReader.LineStreamReader.ReadChunks | lib/ollamaClient.js:309-398 | reads are issued only while the stream is open; unread results are left only once it is closed; the final state is the reference machine's on all the results |
| StreamReader.ReadStream | lib/ollamaClient.js:275-402 | a fresh reader ends in the reference machine's state for the server's reads, with its invariant |
| Text.TrimCutsSpace | lib/ollamaClient.js:346 | the trimmed line is the middle slice of the line, and what `trim` removes from either end is whitespace only |
| Text.TrimEnds | build/GnomeLLM@luishg.github.io/lib/markdownRenderer.js:111 | a trimmed string is empty or neither starts nor ends with whitespace |
| Text.BlankIffAllSpace | lib/ollamaClient.js:346 | a line is skipped exactly when it consists only of whitespace |
| Text.TrimEmptyIffAllSpace | lib/ollamaClient.js:346 | the trimmed line is empty exactly when the line is all whitespace |
| Text.ContainsIffOccurs | lib/ollamaClient.js:388 | `includes` holds exactly when the needle occurs at some index |
| Text.SplitLines | lib/ollamaClient.js:342-343 | the complete lines and the kept fragment contain no newline, and the lines joined with newlines plus the fragment give back the text |
| Text.UnlinesUnique | lib/ollamaClient.js:342-343 | a text has only one decomposition into newline-free lines and a newline-free fragment |
| Text.SplitLinesAppend | lib/ollamaClient.js:339-343 | splitting more text continues from the previous fragment |
| MarkdownLib.EscapeHtml | lib/markdownRenderer.js:70-77 | the `_escapeHtml` replace chain; its properties are stated by the `EscapeHtml…` lemmas below |
| MarkdownLib.EscapeHtmlPerChar | lib/markdownRenderer.js:70-77 | because `&` is replaced first, the chain escapes each character independently, so no entity is escaped twice |
| MarkdownLib.EscapeHtmlNoSpecials | lib/markdownRenderer.js:70-77 | the output holds no raw `<`, `>`, `"` or `'` |
| MarkdownLib.EscapeHtmlIdentity | lib/markdownRenderer.js:70-77 | text without `&<>"'` is left unchanged |
| MarkdownLib.EscapeHtmlAmpersands | lib/markdownRenderer.js:70-77 | every `&` of the output starts one of the five entities |
| MarkdownLib.EscapeHtmlRoundTrip | lib/markdownRenderer.js:70-77 | decoding the five entities gives the input back |
| MarkdownLib.MatchAt | lib/markdownRenderer.js:14-29 | a match found at the start of the text is exactly a non-empty content free of the delimiter's character between an opening and a closing delimiter (`IsMatch`); every such content is the one found; a text starting with another character has no match |
| MarkdownLib.Rewrite | lib/markdownRenderer.js:43-45 | the global `replace` of one pattern; its properties are stated by `RewriteIdentity`, `RewritePlainPrefix`, `RewriteNoMatch`, `RewriteAtMatch` and `RewriteDelimitedThenRest` |
| MarkdownLib.RewriteIdentity | lib/markdownRenderer.js:43-45 | text without the pattern's character is left alone |
| MarkdownLib.RewritePlainPrefix | lib/markdownRenderer.js:43-45 | a prefix without the pattern's character is copied, and the scan goes on after it |
| MarkdownLib.RewriteNoMatch | lib/markdownRenderer.js:43-45 | where no match starts (an opening delimiter with no closing one, or any other character), the first character is copied and the scan moves on by one |
| MarkdownLib.RewriteAtMatch | lib/markdownRenderer.js:43-45 | wherever the text starts with a match (`IsMatch`), the captured content is wrapped and the scan continues after the closing delimiter |
| MarkdownLib.RewriteDelimitedThenRest | lib/markdownRenderer.js:43-45 | a delimited non-empty content free of the delimiter's character, followed by any text, becomes the content's wrapping followed by the rewrite of that text |
| MarkdownLib.RewriteSingle | lib/markdownRenderer.js:11-32 | one delimited span between plain text becomes its wrapping: the escaped trimmed code block, the escaped inline code, `<b>` or `<i>` |
| MarkdownLib.PatternOrder | lib/markdownRenderer.js:11-45 | the rewrites apply in the order code block, inline code, bold, italic |
| MarkdownLib.RenderLabel | lib/markdownRenderer.js:35-68 | `render`'s choice of label; its properties are stated by `Render` and `RenderPlainText` |
| MarkdownLib.Render | lib/markdownRenderer.js:35-68 | empty text gives an empty label; otherwise the rewritten text is set as markup when it holds both `<` and `>` and Pango accepts it, the original text is shown when Pango rejects it, and the rewritten text is shown as plain text otherwise |
| MarkdownLib.RenderPlainText | lib/markdownRenderer.js:35-68 | text without backticks, asterisks or both angle brackets is shown as it is |
| MarkdownPango.EscapePango | build/GnomeLLM@luishg.github.io/lib/markdownRenderer.js:114-119 | the `_escapePango` replace chain; its properties are stated by the `EscapePango…` lemmas below |
| MarkdownPango.EscapePangoPerChar | build/GnomeLLM@luishg.github.io/lib/markdownRenderer.js:114-119 | because `&` is replaced first, the chain escapes each character independently |
| MarkdownPango.EscapePangoNoBrackets | build/GnomeLLM@luishg.github.io/lib/markdownRenderer.js:114-119 | the output holds no raw `<` or `>` |
| MarkdownPango.EscapePangoIdentity | build/GnomeLLM@luishg.github.io/lib/markdownRenderer.js:114-119 | text without `&`, `<` or `>` is left unchanged |
| MarkdownPango.EscapePangoAmpersands | build/GnomeLLM@luishg.github.io/lib/markdownRenderer.js:114-119 | every `&` of the output starts `&amp;`, `&lt;` or `&gt;` |
| MarkdownPango.EscapePangoRoundTrip | build/GnomeLLM@luishg.github.io/lib/markdownRenderer.js:114-119 | decoding the three entities gives the input back |
| MarkdownPango.StripTags | build/GnomeLLM@luishg.github.io/lib/markdownRenderer.js:107 | the `/<[^>]*>/g` removal; its properties are stated by the `StripTags…` lemmas below |
| MarkdownPango.StripTagsPlainPrefix | build/GnomeLLM@luishg.github.io/lib/markdownRenderer.js:107 | text without `<` is copied, and the strip goes on after it |
| MarkdownPango.StripTagsTag | build/GnomeLLM@luishg.github.io/lib/markdownRenderer.js:107 | a tag `<…>` whose inside has no `>` is removed |
| MarkdownPango.StripTagsUnclosed | build/GnomeLLM@luishg.github.io/lib/markdownRenderer.js:107 | a `<` with no later `>` is kept |
| MarkdownPango.StripTagsLeavesNoTag | build/GnomeLLM@luishg.github.io/lib/markdownRenderer.js:107 | after the strip, no `<` is followed anywhere by a `>` |
| MarkdownPango.StripTagsIdentity | build/GnomeLLM@luishg.github.io/lib/markdownRenderer.js:107 | text without a tag is left unchanged |
| MarkdownPango.StripTagsIdempotent | build/GnomeLLM@luishg.github.io/lib/markdownRenderer.js:107 | stripping twice is stripping once |
| MarkdownPango.CollapseNewlines | build/GnomeLLM@luishg.github.io/lib/markdownRenderer.js:110 | the `/\n{3,}/g` replacement by two newlines; its properties are stated by the `Collapse…` lemmas below |
| MarkdownPango.CollapsePlainPrefix | build/GnomeLLM@luishg.github.io/lib/markdownRenderer.js:110 | text without a newline is copied, and the collapse goes on after it |
| MarkdownPango.CollapseRun | build/GnomeLLM@luishg.github.io/lib/markdownRenderer.js:110 | a maximal run of newlines becomes two newlines when it has three or more, and is kept otherwise; the collapse goes on after it |
| MarkdownPango.CollapseLeadingRun | build/GnomeLLM@luishg.github.io/lib/markdownRenderer.js:110 | a leading run of three or more newlines becomes two; a shorter run is kept |
| MarkdownPango.CollapseShortRuns | build/GnomeLLM@luishg.github.io/lib/markdownRenderer.js:110 | after collapsing, no run of three or more newlines is left |
| MarkdownPango.CollapseKeepsNoTag | build/GnomeLLM@luishg.github.io/lib/markdownRenderer.js:107-110 | collapsing newlines does not bring a tag back |
| MarkdownPango.HtmlTail | build/GnomeLLM@luishg.github.io/lib/markdownRenderer.js:106-111 | strip, collapse, trim; its properties are stated by `HtmlTailShape` |
| MarkdownPango.HtmlTailShape | build/GnomeLLM@luishg.github.io/lib/markdownRenderer.js:106-111 | the markup handed to Pango has no tag left, no run of three or more newlines, and no whitespace at either end |
| MarkdownPango.RenderLabel | build/GnomeLLM@luishg.github.io/lib/markdownRenderer.js:30-67 | `render`'s choice of label; its properties are stated by `RenderOutcome` |
| MarkdownPango.RenderOutcome | build/GnomeLLM@luishg.github.io/lib/markdownRenderer.js:30-67 | empty text gives an empty label; a successful conversion whose tail Pango accepts is set as markup; if the conversion fails or Pango rejects the markup, the label shows the escaped original, which holds no raw `<` or `>` and decodes to the original; markup that is set follows a successful conversion, has no tag left, no run of three or more newlines and no whitespace at either end |

## Left out

- The Soup/GLib transport: sessions, timeouts, `GLib.Uri.parse`, sending, and closing the input stream. What the server does for a call is a parameter (`Session.Server`). The model records that the stream was closed, not whether closing raised an error, which the source only logs.
- `JSON.parse` and `JSON.stringify`. Parsing a line is the parameter `parse`, which returns None when the line is not JSON. A request body is the `Payload` value, not its serialised text. JSON members that are present but not strings are not modelled.
- Decoding bytes with `TextDecoder`: a read result holds the decoded text of the chunk. A chunk is taken to be empty exactly when its byte size is zero, so a chunk made only of a byte-order mark is not modelled. A multi-byte character split across chunks is not modelled either. Strings are sequences of Unicode code points, not UTF-16 code units.
- Asynchrony and concurrency: reads are handled one after another in the order they complete, and promises settle synchronously. A callback that throws is not modelled.
- Logging, and the exact text of error messages: errors are the `Protocol.Error` values.
- `testConnection`, `listModels` and `destroy`, which only wrap or tear down what is modelled.
- The chat window (`lib/chatWindow.js`), including its check that a model is selected. The extension entry point and the preferences window are not part of this model either.
- `marked.parse` and the element rewrites of `_htmlToPango` (headers, emphasis, code, lists, paragraphs, breaks, rules). Their result, or None when they throw, is the parameter `converted` of `MarkdownPango.RenderLabel`.
- Whether Pango's `set_markup` accepts a string: this is the parameter `accepts`. The label's wrap, ellipsis and selection settings are not modelled.
- `render` called with a falsy value that is not a string (null, undefined): inputs are strings, and only the empty string takes the early return.
