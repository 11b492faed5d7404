/** The line-delimited JSON stream reader of `OllamaClient._readStream`, as a
    reference state machine over values: one function per closure of the
    source (`closeStream`, `completeStream`, `errorStream`, the per-line body
    of the `forEach`, the read callback) and the properties they keep. */
module StreamSpec {
  import opened Wrappers
  import opened Text
  import opened Protocol
  import opened Seqs

  /** What a stream is read for: the endpoint decides how tokens are extracted,
      and `parse` stands for `JSON.parse` (None when it throws). */
  datatype Config = Config(endpoint: string, parse: string -> Option<Record>)

  /** The closure variables of `_readStream` and the trace of what it did. */
  datatype State = State(
    buffer: string,
    fullResponse: string,
    tokenCount: nat,
    streamClosed: bool,
    events: seq<Event>)

  const Initial: State := State([], [], 0, false, [])

  /* ---------- the trace ---------- */

  /** The tokens passed to `onToken`, in order. */
  function Tokens(ev: seq<Event>): seq<string>
  {
    if ev == [] then []
    else Tokens(ev[..|ev| - 1]) + (if ev[|ev| - 1].Token? then [ev[|ev| - 1].text] else [])
  }

  function Closes(ev: seq<Event>): nat
  {
    if ev == [] then 0 else Closes(ev[..|ev| - 1]) + (if ev[|ev| - 1].Close? then 1 else 0)
  }

  function Terminals(ev: seq<Event>): nat
  {
    if ev == [] then 0 else Terminals(ev[..|ev| - 1]) + (if ev[|ev| - 1].IsTerminal() then 1 else 0)
  }

  function Completes(ev: seq<Event>): nat
  {
    if ev == [] then 0 else Completes(ev[..|ev| - 1]) + (if ev[|ev| - 1].Complete? then 1 else 0)
  }

  function Fails(ev: seq<Event>): nat
  {
    if ev == [] then 0 else Fails(ev[..|ev| - 1]) + (if ev[|ev| - 1].Fail? then 1 else 0)
  }

  /** A terminal notification is a resolve or a reject. */
  lemma {:induction false} TerminalsSplit(ev: seq<Event>)
    ensures Terminals(ev) == Completes(ev) + Fails(ev)
    decreases |ev|
  {
    if ev != [] {
      TerminalsSplit(ev[..|ev| - 1]);
    }
  }

  lemma AppendEvent(ev: seq<Event>, e: Event)
    ensures Tokens(ev + [e]) == Tokens(ev) + (if e.Token? then [e.text] else [])
    ensures Closes(ev + [e]) == Closes(ev) + (if e.Close? then 1 else 0)
    ensures Terminals(ev + [e]) == Terminals(ev) + (if e.IsTerminal() then 1 else 0)
  {
    assert (ev + [e])[..|ev|] == ev;
  }

  /** Tokens, completions and errors of two traces add up. */
  lemma {:induction false} AppendEvents(a: seq<Event>, b: seq<Event>)
    ensures Tokens(a + b) == Tokens(a) + Tokens(b)
    ensures Completes(a + b) == Completes(a) + Completes(b)
    ensures Fails(a + b) == Fails(a) + Fails(b)
    decreases |b|
  {
    if b == [] {
      assert a + b == a;
    } else {
      var init := b[..|b| - 1];
      AppendEvents(a, init);
      AppendDropLast(a, b);
    }
  }

  /** The input stream is closed at most once, and each terminal notification
      comes right after that close: so at most one of resolve and reject. */
  predicate SingleTermination(ev: seq<Event>)
  {
    Closes(ev) <= 1 && Terminals(ev) == Closes(ev)
    && forall i :: 0 <= i < |ev| && ev[i].IsTerminal() ==> 0 < i && ev[i - 1] == Close
  }

  /** A completion carries every token emitted before it. */
  predicate CompletionsCarryTokens(ev: seq<Event>)
  {
    forall i :: 0 <= i < |ev| && ev[i].Complete? ==> ev[i].response == Concat(Tokens(ev[..i]))
  }

  /** The invariant of `_readStream`'s closure variables. */
  predicate Valid(st: State)
  {
    NoNewline(st.buffer)
    && st.fullResponse == Concat(Tokens(st.events))
    && st.tokenCount == |Tokens(st.events)|
    && SingleTermination(st.events)
    && (st.streamClosed <==> Closes(st.events) == 1)
    && CompletionsCarryTokens(st.events)
  }

  /* ---------- the closures ---------- */

  /** `closeStream`: closes the input stream the first time only. */
  function CloseStream(st: State): (r: State)
    ensures r.streamClosed
    ensures r.buffer == st.buffer && r.fullResponse == st.fullResponse && r.tokenCount == st.tokenCount
    ensures r.events == if st.streamClosed then st.events else st.events + [Close]
  {
    if st.streamClosed then st else st.(streamClosed := true, events := st.events + [Close])
  }

  /** `completeStream(response)`: closes and resolves, unless already closed. */
  function CompleteStream(st: State, response: string): (r: State)
    ensures r.streamClosed
    ensures r.buffer == st.buffer && r.fullResponse == st.fullResponse && r.tokenCount == st.tokenCount
    ensures r.events == if st.streamClosed then st.events else st.events + [Close, Complete(response)]
  {
    if st.streamClosed then st
    else
      var c := CloseStream(st);
      c.(events := c.events + [Complete(response)])
  }

  /** `errorStream(error)`: closes and rejects, unless already closed. */
  function ErrorStream(st: State, error: Error): (r: State)
    ensures r.streamClosed
    ensures r.buffer == st.buffer && r.fullResponse == st.fullResponse && r.tokenCount == st.tokenCount
    ensures r.events == if st.streamClosed then st.events else st.events + [Close, Fail(error)]
  {
    if st.streamClosed then st
    else
      var c := CloseStream(st);
      c.(events := c.events + [Fail(error)])
  }

  /** A token appended to `fullResponse`, counted and passed to `onToken`. */
  function Emit(st: State, token: string): State
  {
    st.(fullResponse := st.fullResponse + token,
        tokenCount := st.tokenCount + 1,
        events := st.events + [Token(token)])
  }

  /** One complete line, as the `forEach` body handles it: blank lines and lines
      `JSON.parse` rejects are skipped; a truthy token is emitted; a `done`
      record completes the stream. Nothing here looks at `streamClosed`. */
  function HandleLine(cfg: Config, st: State, line: string): State
  {
    if Blank(line) then st
    else
      var parsed := cfg.parse(line);
      if parsed.None? then st
      else
        var rec := parsed.value;
        var token := TokenOf(cfg.endpoint, rec);
        var st1 := if token.Some? then Emit(st, token.value) else st;
        if rec.done then CompleteStream(st1, st1.fullResponse) else st1
  }

  /** `lines.forEach(...)`: the lines handled in order. */
  function HandleLines(cfg: Config, st: State, lines: seq<string>): State
  {
    if lines == [] then st
    else HandleLine(cfg, HandleLines(cfg, st, lines[..|lines| - 1]), lines[|lines| - 1])
  }

  /** The `read_bytes_async` callback: ignored once closed; an empty chunk
      completes (the unterminated buffer is left unparsed); a chunk is appended
      to the buffer, split at newlines, and its complete lines handled; a read
      error completes when its message mentions "closed" and fails otherwise. */
  function HandleRead(cfg: Config, st: State, r: ReadResult): State
  {
    if st.streamClosed then st
    else
      match r
      case Chunk(text) =>
        if text == [] then CompleteStream(st, st.fullResponse)
        else
          var split := SplitLines(st.buffer + text);
          HandleLines(cfg, st.(buffer := split.1), split.0)
      case ReadError(message) =>
        if message != [] && Contains(message, "closed") then CompleteStream(st, st.fullResponse)
        else ErrorStream(st, ReadFailure(message))
  }

  /** `readChunk` re-issued after each chunk: the read results in order. */
  function HandleReads(cfg: Config, st: State, rs: seq<ReadResult>): State
  {
    if rs == [] then st
    else HandleRead(cfg, HandleReads(cfg, st, rs[..|rs| - 1]), rs[|rs| - 1])
  }

  /* ---------- what a line contributes ---------- */

  /** The token a line yields, if any, whether or not the stream is closed. */
  function LineToken(cfg: Config, line: string): seq<string>
  {
    if Blank(line) then []
    else
      var parsed := cfg.parse(line);
      if parsed.None? then []
      else
        var token := TokenOf(cfg.endpoint, parsed.value);
        if token.Some? then [token.value] else []
  }

  function LineTokens(cfg: Config, lines: seq<string>): seq<string>
  {
    if lines == [] then []
    else LineTokens(cfg, lines[..|lines| - 1]) + LineToken(cfg, lines[|lines| - 1])
  }

  predicate IsDoneLine(cfg: Config, line: string)
  {
    !Blank(line) && cfg.parse(line).Some? && cfg.parse(line).value.done
  }

  predicate AnyDone(cfg: Config, lines: seq<string>)
  {
    lines != [] && (AnyDone(cfg, lines[..|lines| - 1]) || IsDoneLine(cfg, lines[|lines| - 1]))
  }

  /* ---------- the invariant is kept ---------- */

  /** A token appended after the trace keeps both trace properties. */
  lemma TokenKeepsTrace(ev: seq<Event>, t: string)
    requires SingleTermination(ev) && CompletionsCarryTokens(ev)
    ensures SingleTermination(ev + [Token(t)]) && CompletionsCarryTokens(ev + [Token(t)])
  {
    var ev' := ev + [Token(t)];
    AppendEvent(ev, Token(t));
    forall i | 0 <= i < |ev'| && ev'[i].IsTerminal() ensures 0 < i && ev'[i - 1] == Close {
      assert ev'[i] == ev[i];
      assert ev'[i - 1] == ev[i - 1];
    }
    forall i | 0 <= i < |ev'| && ev'[i].Complete? ensures ev'[i].response == Concat(Tokens(ev'[..i])) {
      assert ev'[i] == ev[i];
      assert ev'[..i] == ev[..i];
    }
  }

  lemma ValidEmit(st: State, t: string)
    requires Valid(st)
    ensures Valid(Emit(st, t))
  {
    AppendEvent(st.events, Token(t));
    ConcatAppend(Tokens(st.events), t);
    TokenKeepsTrace(st.events, t);
  }

  /** A close and one terminal notification after a trace without a close
      terminate it once. */
  lemma TerminateOnce(ev: seq<Event>, e: Event)
    requires SingleTermination(ev) && Closes(ev) == 0 && e.IsTerminal()
    ensures SingleTermination(ev + [Close] + [e]) && Closes(ev + [Close] + [e]) == 1
  {
    var ev1 := ev + [Close];
    var ev2 := ev1 + [e];
    AppendEvent(ev, Close);
    AppendEvent(ev1, e);
    forall i | 0 <= i < |ev2| && ev2[i].IsTerminal() ensures 0 < i && ev2[i - 1] == Close {
      if i < |ev| {
        assert ev2[i] == ev[i];
        assert ev2[i - 1] == ev[i - 1];
      }
    }
  }

  /** The same notification keeps completions carrying their tokens when a
      completion carries the tokens so far. */
  lemma TerminateCarries(ev: seq<Event>, e: Event)
    requires CompletionsCarryTokens(ev) && e.IsTerminal()
    requires e.Complete? ==> e.response == Concat(Tokens(ev))
    ensures CompletionsCarryTokens(ev + [Close] + [e])
    ensures Tokens(ev + [Close] + [e]) == Tokens(ev)
  {
    var ev1 := ev + [Close];
    var ev2 := ev1 + [e];
    AppendEvent(ev, Close);
    AppendEvent(ev1, e);
    assert Tokens(ev) + [] == Tokens(ev);
    forall i | 0 <= i < |ev2| && ev2[i].Complete? ensures ev2[i].response == Concat(Tokens(ev2[..i])) {
      if i < |ev| {
        assert ev2[i] == ev[i];
        assert ev2[..i] == ev[..i];
      } else {
        assert i == |ev| + 1;
        assert ev2[..i] == ev1;
      }
    }
  }

  /** Closing and then resolving or rejecting keeps the invariant, provided a
      completion carries the response accumulated so far. */
  lemma ValidTerminate(st: State, e: Event)
    requires Valid(st) && !st.streamClosed && e.IsTerminal()
    requires e.Complete? ==> e.response == st.fullResponse
    ensures Valid(st.(streamClosed := true, events := st.events + [Close] + [e]))
  {
    TerminateOnce(st.events, e);
    TerminateCarries(st.events, e);
  }

  lemma ValidComplete(st: State)
    requires Valid(st)
    ensures Valid(CompleteStream(st, st.fullResponse))
  {
    if !st.streamClosed {
      ValidTerminate(st, Complete(st.fullResponse));
    }
  }

  lemma ValidError(st: State, error: Error)
    requires Valid(st)
    ensures Valid(ErrorStream(st, error))
  {
    if !st.streamClosed {
      ValidTerminate(st, Fail(error));
    }
  }

  lemma ValidHandleLine(cfg: Config, st: State, line: string)
    requires Valid(st)
    ensures Valid(HandleLine(cfg, st, line))
  {
    if !Blank(line) && cfg.parse(line).Some? {
      var rec := cfg.parse(line).value;
      var token := TokenOf(cfg.endpoint, rec);
      var st1 := if token.Some? then Emit(st, token.value) else st;
      if token.Some? {
        ValidEmit(st, token.value);
      }
      if rec.done {
        ValidComplete(st1);
        assert HandleLine(cfg, st, line) == CompleteStream(st1, st1.fullResponse);
      } else {
        assert HandleLine(cfg, st, line) == st1;
      }
    }
  }

  lemma {:induction false} ValidHandleLines(cfg: Config, st: State, lines: seq<string>)
    requires Valid(st)
    ensures Valid(HandleLines(cfg, st, lines))
    decreases |lines|
  {
    if lines != [] {
      ValidHandleLines(cfg, st, lines[..|lines| - 1]);
      ValidHandleLine(cfg, HandleLines(cfg, st, lines[..|lines| - 1]), lines[|lines| - 1]);
    }
  }

  lemma ValidHandleRead(cfg: Config, st: State, r: ReadResult)
    requires Valid(st)
    ensures Valid(HandleRead(cfg, st, r))
  {
    if !st.streamClosed {
      match r
      case Chunk(text) =>
        if text == [] {
          ValidComplete(st);
        } else {
          var split := SplitLines(st.buffer + text);
          ValidHandleLines(cfg, st.(buffer := split.1), split.0);
        }
      case ReadError(message) =>
        ValidComplete(st);
        ValidError(st, ReadFailure(message));
    }
  }

  lemma {:induction false} ValidHandleReads(cfg: Config, st: State, rs: seq<ReadResult>)
    requires Valid(st)
    ensures Valid(HandleReads(cfg, st, rs))
    decreases |rs|
  {
    if rs != [] {
      ValidHandleReads(cfg, st, rs[..|rs| - 1]);
      ValidHandleRead(cfg, HandleReads(cfg, st, rs[..|rs| - 1]), rs[|rs| - 1]);
    }
  }

  /** Whatever the server sends, a stream closes its input at most once,
      resolves or rejects at most once (never both), resolves only right after
      that close and with every token emitted before, and its `fullResponse`
      and `tokenCount` are the concatenation and number of the tokens passed to
      `onToken`. */
  lemma AtMostOneTermination(cfg: Config, rs: seq<ReadResult>)
    ensures var st := HandleReads(cfg, Initial, rs);
      Closes(st.events) <= 1 && Terminals(st.events) <= 1
      && (st.streamClosed <==> Terminals(st.events) == 1)
      && (forall i :: 0 <= i < |st.events| && st.events[i].IsTerminal() ==> 0 < i && st.events[i - 1] == Close)
      && CompletionsCarryTokens(st.events)
      && st.fullResponse == Concat(Tokens(st.events))
      && st.tokenCount == |Tokens(st.events)|
  {
    ValidHandleReads(cfg, Initial, rs);
  }

  /* ---------- tokens, in line order ---------- */

  lemma AnyDoneAppend(cfg: Config, lines: seq<string>, line: string)
    ensures AnyDone(cfg, lines + [line]) <==> AnyDone(cfg, lines) || IsDoneLine(cfg, line)
  {
    assert (lines + [line])[..|lines|] == lines;
  }

  lemma {:induction false} AnyDonePrefix(cfg: Config, a: seq<string>, b: seq<string>)
    ensures AnyDone(cfg, a) ==> AnyDone(cfg, a + b)
    decreases |b|
  {
    if b == [] {
      assert a + b == a;
    } else {
      AnyDonePrefix(cfg, a, b[..|b| - 1]);
      AppendDropLast(a, b);
    }
  }

  lemma EmitTokens(st: State, t: string)
    ensures Tokens(Emit(st, t).events) == Tokens(st.events) + [t]
  {
    AppendEvent(st.events, Token(t));
  }

  lemma CompleteTokens(st: State, response: string)
    ensures Tokens(CompleteStream(st, response).events) == Tokens(st.events)
  {
    if !st.streamClosed {
      AppendEvent(st.events, Close);
      AppendEvent(st.events + [Close], Complete(response));
    }
  }

  lemma HandleLineTokens(cfg: Config, st: State, line: string)
    ensures Tokens(HandleLine(cfg, st, line).events) == Tokens(st.events) + LineToken(cfg, line)
  {
    if !Blank(line) && cfg.parse(line).Some? {
      var rec := cfg.parse(line).value;
      var token := TokenOf(cfg.endpoint, rec);
      var st1 := if token.Some? then Emit(st, token.value) else st;
      if token.Some? {
        EmitTokens(st, token.value);
      } else {
        assert Tokens(st.events) + [] == Tokens(st.events);
      }
      CompleteTokens(st1, st1.fullResponse);
    } else {
      assert Tokens(st.events) + [] == Tokens(st.events);
    }
  }

  lemma HandleLineClosed(cfg: Config, st: State, line: string)
    ensures HandleLine(cfg, st, line).streamClosed == (st.streamClosed || IsDoneLine(cfg, line))
  {
  }

  /** One line keeps the buffer, adds the line's token, and closes the
      stream exactly when the line is a `done` record. */
  lemma HandleLineEffect(cfg: Config, st: State, line: string)
    ensures HandleLine(cfg, st, line).buffer == st.buffer
    ensures Tokens(HandleLine(cfg, st, line).events) == Tokens(st.events) + LineToken(cfg, line)
    ensures HandleLine(cfg, st, line).streamClosed == (st.streamClosed || IsDoneLine(cfg, line))
  {
    HandleLineTokens(cfg, st, line);
    HandleLineClosed(cfg, st, line);
  }

  lemma {:induction false} HandleLinesKeepBuffer(cfg: Config, st: State, lines: seq<string>)
    ensures HandleLines(cfg, st, lines).buffer == st.buffer
    decreases |lines|
  {
    if lines != [] {
      var init := lines[..|lines| - 1];
      HandleLinesKeepBuffer(cfg, st, init);
      HandleLineEffect(cfg, HandleLines(cfg, st, init), lines[|lines| - 1]);
    }
  }

  lemma {:induction false} HandleLinesTokens(cfg: Config, st: State, lines: seq<string>)
    ensures Tokens(HandleLines(cfg, st, lines).events) == Tokens(st.events) + LineTokens(cfg, lines)
    decreases |lines|
  {
    if lines == [] {
      assert Tokens(st.events) + [] == Tokens(st.events);
    } else {
      var init, last := lines[..|lines| - 1], lines[|lines| - 1];
      var prev := HandleLines(cfg, st, init);
      HandleLinesTokens(cfg, st, init);
      HandleLineEffect(cfg, prev, last);
      var t0, ti, tl := Tokens(st.events), LineTokens(cfg, init), LineToken(cfg, last);
      assert (t0 + ti) + tl == t0 + (ti + tl);
    }
  }

  lemma {:induction false} HandleLinesClosed(cfg: Config, st: State, lines: seq<string>)
    ensures HandleLines(cfg, st, lines).streamClosed == (st.streamClosed || AnyDone(cfg, lines))
    decreases |lines|
  {
    if lines != [] {
      var init, last := lines[..|lines| - 1], lines[|lines| - 1];
      HandleLinesClosed(cfg, st, init);
      HandleLineEffect(cfg, HandleLines(cfg, st, init), last);
    }
  }

  /** Handling lines emits exactly the truthy tokens of the lines, in line
      order, including lines after a `done` record (the early `return` only
      leaves the `forEach` callback), and closes exactly when some line is a
      `done` record. The carry buffer is not touched. */
  lemma HandleLinesEffect(cfg: Config, st: State, lines: seq<string>)
    ensures HandleLines(cfg, st, lines).buffer == st.buffer
    ensures Tokens(HandleLines(cfg, st, lines).events) == Tokens(st.events) + LineTokens(cfg, lines)
    ensures HandleLines(cfg, st, lines).streamClosed == (st.streamClosed || AnyDone(cfg, lines))
  {
    HandleLinesKeepBuffer(cfg, st, lines);
    HandleLinesTokens(cfg, st, lines);
    HandleLinesClosed(cfg, st, lines);
  }


  /** One chunk read while the stream is open: the new buffer is the text after
      the last newline of the old buffer plus the chunk, the complete lines
      before it are handled, their tokens are emitted in order (also those
      after a `done`), and the stream closes exactly when one of them is a
      `done` record. */
  lemma ChunkEffect(cfg: Config, st: State, text: string)
    requires !st.streamClosed && text != []
    ensures var r := HandleRead(cfg, st, Chunk(text));
      var lines := SplitLines(st.buffer + text).0;
      NoNewline(r.buffer) && AllNoNewline(lines)
      && Unlines(lines) + r.buffer == st.buffer + text
      && Tokens(r.events) == Tokens(st.events) + LineTokens(cfg, lines)
      && (r.streamClosed <==> AnyDone(cfg, lines))
  {
    var split := SplitLines(st.buffer + text);
    HandleLinesEffect(cfg, st.(buffer := split.1), split.0);
  }

  /* ---------- termination ---------- */

  /** Once closed, no read result changes anything. */
  lemma {:induction false} ClosedIsFinal(cfg: Config, st: State, rs: seq<ReadResult>)
    requires st.streamClosed
    ensures HandleReads(cfg, st, rs) == st
    decreases |rs|
  {
    if rs != [] {
      ClosedIsFinal(cfg, st, rs[..|rs| - 1]);
    }
  }

  /** At the natural end of the stream the reader closes and resolves with the
      response accumulated so far; the unterminated buffer is dropped unparsed. */
  lemma EndOfStreamCompletes(cfg: Config, st: State)
    requires !st.streamClosed
    ensures HandleRead(cfg, st, Chunk([])) ==
      st.(streamClosed := true, events := st.events + [Close, Complete(st.fullResponse)])
  {
    assert st.events + [Close] + [Complete(st.fullResponse)] == st.events + [Close, Complete(st.fullResponse)];
  }

  /** A read error closes the stream; it resolves with the response so far when
      the error message mentions "closed" anywhere, and rejects otherwise. */
  lemma ReadErrorOutcome(cfg: Config, st: State, message: string)
    requires !st.streamClosed
    ensures HandleRead(cfg, st, ReadError(message)) ==
      st.(streamClosed := true,
          events := st.events + [Close,
            if exists i :: OccursAt(message, "closed", i) then Complete(st.fullResponse)
            else Fail(ReadFailure(message))])
  {
    ContainsIffOccurs(message, "closed");
    if exists i :: OccursAt(message, "closed", i) {
      var i :| OccursAt(message, "closed", i);
      assert message != [];
    }
    var e := if Contains(message, "closed") then Complete(st.fullResponse) else Fail(ReadFailure(message));
    assert st.events + [Close] + [e] == st.events + [Close, e];
  }

  /** A read result that ends the stream: the empty chunk or any read error. */
  predicate EndsStream(r: ReadResult)
  {
    r == Chunk([]) || r.ReadError?
  }

  /** An end of stream or a read error closes the stream, whatever came
      before. */
  lemma EndingReadCloses(cfg: Config, st: State, r: ReadResult)
    requires EndsStream(r)
    ensures HandleRead(cfg, st, r).streamClosed
  {
  }

  lemma {:induction false} EndingReadsClose(cfg: Config, st: State, rs: seq<ReadResult>)
    requires exists i :: 0 <= i < |rs| && EndsStream(rs[i])
    ensures HandleReads(cfg, st, rs).streamClosed
    decreases |rs|
  {
    var init, last := rs[..|rs| - 1], rs[|rs| - 1];
    var prev := HandleReads(cfg, st, init);
    assert HandleReads(cfg, st, rs) == HandleRead(cfg, prev, last);
    var i :| 0 <= i < |rs| && EndsStream(rs[i]);
    if i < |rs| - 1 {
      assert EndsStream(init[i]);
      EndingReadsClose(cfg, st, init);
      assert HandleRead(cfg, prev, last) == prev;
    } else {
      EndingReadCloses(cfg, prev, last);
    }
  }

  /** When the server's reads include an end of stream or a read error, the
      reader ends: exactly one of resolve and reject has happened. */
  lemma StreamEndsOnce(cfg: Config, st: State, rs: seq<ReadResult>)
    requires Valid(st)
    requires exists i :: 0 <= i < |rs| && EndsStream(rs[i])
    ensures HandleReads(cfg, st, rs).streamClosed
    ensures Terminals(HandleReads(cfg, st, rs).events) == 1
  {
    EndingReadsClose(cfg, st, rs);
    ValidHandleReads(cfg, st, rs);
  }

  /* ---------- chunk boundaries ---------- */

  lemma HandleLineBuffer(cfg: Config, st: State, line: string, b: string)
    ensures HandleLine(cfg, st.(buffer := b), line) == HandleLine(cfg, st, line).(buffer := b)
  {
    var st' := st.(buffer := b);
    if !Blank(line) && cfg.parse(line).Some? {
      var rec := cfg.parse(line).value;
      var token := TokenOf(cfg.endpoint, rec);
      var st1 := if token.Some? then Emit(st, token.value) else st;
      var st1' := if token.Some? then Emit(st', token.value) else st';
      assert st1' == st1.(buffer := b);
      if rec.done {
        assert CompleteStream(st1', st1'.fullResponse) == CompleteStream(st1, st1.fullResponse).(buffer := b);
      }
    }
  }

  lemma {:induction false} HandleLinesBuffer(cfg: Config, st: State, lines: seq<string>, b: string)
    ensures HandleLines(cfg, st.(buffer := b), lines) == HandleLines(cfg, st, lines).(buffer := b)
    decreases |lines|
  {
    if lines != [] {
      var init := lines[..|lines| - 1];
      HandleLinesBuffer(cfg, st, init, b);
      HandleLineBuffer(cfg, HandleLines(cfg, st, init), lines[|lines| - 1], b);
    }
  }

  lemma {:induction false} HandleLinesAppend(cfg: Config, st: State, a: seq<string>, b: seq<string>)
    ensures HandleLines(cfg, st, a + b) == HandleLines(cfg, HandleLines(cfg, st, a), b)
    decreases |b|
  {
    if b == [] {
      assert a + b == a;
    } else {
      AppendDropLast(a, b);
      HandleLinesAppend(cfg, st, a, b[..|b| - 1]);
    }
  }

  /** Every read of `rs` was issued while the stream was still open. */
  predicate IssuedWhileOpen(cfg: Config, st: State, rs: seq<ReadResult>)
  {
    rs == [] ||
    (IssuedWhileOpen(cfg, st, rs[..|rs| - 1]) && !HandleReads(cfg, st, rs[..|rs| - 1]).streamClosed)
  }

  lemma IssuedWhileOpenStep(cfg: Config, st: State, rs: seq<ReadResult>, i: nat)
    requires i < |rs|
    ensures IssuedWhileOpen(cfg, st, rs[..i + 1]) <==>
      IssuedWhileOpen(cfg, st, rs[..i]) && !HandleReads(cfg, st, rs[..i]).streamClosed
  {
    assert rs[..i + 1][..i] == rs[..i];
  }

  /** Spelled out: no read of `rs` was issued after the stream had closed. */
  lemma {:induction false} IssuedWhileOpenMeans(cfg: Config, st: State, rs: seq<ReadResult>)
    ensures IssuedWhileOpen(cfg, st, rs) <==>
      forall j :: 0 <= j < |rs| ==> !HandleReads(cfg, st, rs[..j]).streamClosed
    decreases |rs|
  {
    if rs != [] {
      var init := rs[..|rs| - 1];
      IssuedWhileOpenMeans(cfg, st, init);
      if IssuedWhileOpen(cfg, st, rs) {
        forall j | 0 <= j < |rs| ensures !HandleReads(cfg, st, rs[..j]).streamClosed {
          if j < |init| {
            assert rs[..j] == init[..j];
          }
        }
      }
      if forall j :: 0 <= j < |rs| ==> !HandleReads(cfg, st, rs[..j]).streamClosed {
        forall j | 0 <= j < |init| ensures !HandleReads(cfg, st, init[..j]).streamClosed {
          assert rs[..j] == init[..j];
        }
        assert !HandleReads(cfg, st, rs[..|init|]).streamClosed;
      }
    }
  }

  /** Reads left unissued once the stream has closed change nothing. */
  lemma ReadsAfterClose(cfg: Config, st: State, rs: seq<ReadResult>, k: nat)
    requires k <= |rs|
    requires k < |rs| ==> HandleReads(cfg, st, rs[..k]).streamClosed
    ensures HandleReads(cfg, st, rs[..k]) == HandleReads(cfg, st, rs)
  {
    var done, rest := rs[..k], rs[k..];
    assert done + rest == rs;
    HandleReadsAppend(cfg, st, done, rest);
    if k < |rs| {
      ClosedIsFinal(cfg, HandleReads(cfg, st, done), rest);
    } else {
      assert rest == [];
    }
  }

  /** One more read, as `readChunk` issues it. */
  lemma HandleReadsStep(cfg: Config, st: State, rs: seq<ReadResult>, i: nat)
    requires i < |rs|
    ensures HandleReads(cfg, st, rs[..i + 1]) == HandleRead(cfg, HandleReads(cfg, st, rs[..i]), rs[i])
  {
    assert rs[..i + 1][..i] == rs[..i];
  }

  /** One more line, as the `forEach` handles it. */
  lemma HandleLinesStep(cfg: Config, st: State, lines: seq<string>, i: nat)
    requires i < |lines|
    ensures HandleLines(cfg, st, lines[..i + 1]) == HandleLine(cfg, HandleLines(cfg, st, lines[..i]), lines[i])
  {
    assert lines[..i + 1][..i] == lines[..i];
  }

  lemma {:induction false} HandleReadsAppend(cfg: Config, st: State, a: seq<ReadResult>, b: seq<ReadResult>)
    ensures HandleReads(cfg, st, a + b) == HandleReads(cfg, HandleReads(cfg, st, a), b)
    decreases |b|
  {
    if b == [] {
      assert a + b == a;
    } else {
      AppendDropLast(a, b);
      HandleReadsAppend(cfg, st, a, b[..|b| - 1]);
    }
  }

  /** The reads delivering `chunks` one after the other. */
  function AsReads(chunks: seq<string>): (rs: seq<ReadResult>)
    ensures |rs| == |chunks| && forall i :: 0 <= i < |chunks| ==> rs[i] == Chunk(chunks[i])
  {
    if chunks == [] then [] else AsReads(chunks[..|chunks| - 1]) + [Chunk(chunks[|chunks| - 1])]
  }

  /** The text after the first chunks is split as the carry buffer plus the
      last chunk. */
  lemma SplitMoreText(b: string, chunks: seq<string>)
    requires chunks != []
    ensures var cs, c := chunks[..|chunks| - 1], chunks[|chunks| - 1];
      var r1 := SplitLines(b + Concat(cs)).1;
      SplitLines(b + Concat(chunks)) ==
        (SplitLines(b + Concat(cs)).0 + SplitLines(r1 + c).0, SplitLines(r1 + c).1)
  {
    var cs, c := chunks[..|chunks| - 1], chunks[|chunks| - 1];
    var x := b + Concat(cs);
    assert Concat(chunks) == Concat(cs) + c;
    AppendAssoc(b, Concat(cs), c);
    SplitLinesAppend(x, c);
  }

  lemma ReadsOneMoreChunk(cfg: Config, st: State, chunks: seq<string>)
    requires chunks != []
    ensures HandleReads(cfg, st, AsReads(chunks)) ==
      HandleRead(cfg, HandleReads(cfg, st, AsReads(chunks[..|chunks| - 1])), Chunk(chunks[|chunks| - 1]))
  {
    assert AsReads(chunks)[..|chunks| - 1] == AsReads(chunks[..|chunks| - 1]);
  }

  /** A non-empty chunk read while open: its complete lines are handled after
      the carry buffer is replaced by the new trailing fragment. */
  lemma ReadChunkLines(cfg: Config, mid: State, c: string)
    requires !mid.streamClosed && c != []
    ensures HandleRead(cfg, mid, Chunk(c)) ==
      HandleLines(cfg, mid.(buffer := SplitLines(mid.buffer + c).1), SplitLines(mid.buffer + c).0)
  {
  }

  /** Lines handled with one carry buffer, then more lines with another, are
      the lines handled together with the second buffer. */
  lemma LinesThenLines(cfg: Config, st: State, l1: seq<string>, l2: seq<string>, r1: string, r2: string)
    ensures HandleLines(cfg, HandleLines(cfg, st.(buffer := r1), l1).(buffer := r2), l2) ==
      HandleLines(cfg, st.(buffer := r2), l1 + l2)
  {
    HandleLinesBuffer(cfg, st.(buffer := r1), l1, r2);
    assert st.(buffer := r1).(buffer := r2) == st.(buffer := r2);
    HandleLinesAppend(cfg, st.(buffer := r2), l1, l2);
  }

  /** A buffer without a newline holds no complete line. */
  lemma SplitNoNewline(b: string)
    requires NoNewline(b)
    ensures SplitLines(b) == ([], b)
  {
    assert Unlines([]) + b == b;
    UnlinesUnique(SplitLines(b).0, SplitLines(b).1, [], b);
  }

  /** One more non-empty chunk read while no `done` line has closed the
      stream continues the handling of the text's lines. */
  lemma OneMoreChunk(cfg: Config, st: State, chunks: seq<string>)
    requires !st.streamClosed && chunks != [] && chunks[|chunks| - 1] != []
    requires var cs := chunks[..|chunks| - 1];
      var split := SplitLines(st.buffer + Concat(cs));
      HandleReads(cfg, st, AsReads(cs)) == HandleLines(cfg, st.(buffer := split.1), split.0)
      && !AnyDone(cfg, split.0)
    ensures HandleReads(cfg, st, AsReads(chunks)) ==
      HandleLines(cfg, st.(buffer := SplitLines(st.buffer + Concat(chunks)).1),
                  SplitLines(st.buffer + Concat(chunks)).0)
  {
    var b := st.buffer;
    var cs, c := chunks[..|chunks| - 1], chunks[|chunks| - 1];
    var l1, r1 := SplitLines(b + Concat(cs)).0, SplitLines(b + Concat(cs)).1;
    var l2, r2 := SplitLines(r1 + c).0, SplitLines(r1 + c).1;
    SplitMoreText(b, chunks);
    ReadsOneMoreChunk(cfg, st, chunks);
    var mid := HandleLines(cfg, st.(buffer := r1), l1);
    HandleLinesEffect(cfg, st.(buffer := r1), l1);
    ReadChunkLines(cfg, mid, c);
    LinesThenLines(cfg, st, l1, l2, r1, r2);
  }

  /** While no line of the text is a `done` record, the chunks are read as
      the complete lines of their concatenation. */
  lemma {:induction false} ChunksBeforeDone(cfg: Config, st: State, chunks: seq<string>)
    requires !st.streamClosed && NoNewline(st.buffer)
    requires forall i :: 0 <= i < |chunks| ==> chunks[i] != []
    requires !AnyDone(cfg, SplitLines(st.buffer + Concat(chunks)).0)
    ensures HandleReads(cfg, st, AsReads(chunks)) ==
      HandleLines(cfg, st.(buffer := SplitLines(st.buffer + Concat(chunks)).1),
                  SplitLines(st.buffer + Concat(chunks)).0)
    decreases |chunks|
  {
    var b := st.buffer;
    if chunks == [] {
      assert b + Concat(chunks) == b;
      SplitNoNewline(b);
      assert st.(buffer := b) == st;
    } else {
      var cs := chunks[..|chunks| - 1];
      var l1 := SplitLines(b + Concat(cs)).0;
      SplitMoreText(b, chunks);
      AnyDonePrefix(cfg, l1, SplitLines(SplitLines(b + Concat(cs)).1 + chunks[|chunks| - 1]).0);
      ChunksBeforeDone(cfg, st, cs);
      OneMoreChunk(cfg, st, chunks);
    }
  }

  /** Chunk independence: as long as no `done` record is complete before the
      last chunk, reading the text in any number of non-empty chunks leaves
      the reader exactly as handling the complete lines of the whole text at
      once, with the text after the last newline as the carry buffer. The
      last chunk may complete any number of lines, `done` records included. */
  lemma ChunkSplitIndependence(cfg: Config, st: State, chunks: seq<string>)
    requires !st.streamClosed && NoNewline(st.buffer)
    requires forall i :: 0 <= i < |chunks| ==> chunks[i] != []
    requires chunks != [] ==> !AnyDone(cfg, SplitLines(st.buffer + Concat(chunks[..|chunks| - 1])).0)
    ensures HandleReads(cfg, st, AsReads(chunks)) ==
      HandleLines(cfg, st.(buffer := SplitLines(st.buffer + Concat(chunks)).1),
                  SplitLines(st.buffer + Concat(chunks)).0)
  {
    if chunks == [] {
      assert st.buffer + Concat(chunks) == st.buffer;
      SplitNoNewline(st.buffer);
      ChunksBeforeDone(cfg, st, chunks);
    } else {
      ChunksBeforeDone(cfg, st, chunks[..|chunks| - 1]);
      OneMoreChunk(cfg, st, chunks);
    }
  }

  /** Two ways of cutting the same text into non-empty chunks give the same
      reader state, tokens and trace, as long as neither completes a `done`
      record before its last chunk. */
  lemma SameTextSameOutcome(cfg: Config, st: State, c1: seq<string>, c2: seq<string>)
    requires !st.streamClosed && NoNewline(st.buffer)
    requires forall i :: 0 <= i < |c1| ==> c1[i] != []
    requires forall i :: 0 <= i < |c2| ==> c2[i] != []
    requires Concat(c1) == Concat(c2)
    requires c1 != [] ==> !AnyDone(cfg, SplitLines(st.buffer + Concat(c1[..|c1| - 1])).0)
    requires c2 != [] ==> !AnyDone(cfg, SplitLines(st.buffer + Concat(c2[..|c2| - 1])).0)
    ensures HandleReads(cfg, st, AsReads(c1)) == HandleReads(cfg, st, AsReads(c2))
  {
    ChunkSplitIndependence(cfg, st, c1);
    ChunkSplitIndependence(cfg, st, c2);
  }

  /** A `done` line completing some lines makes every earlier prefix that
      already reached it end before the last line. */
  lemma AnyDoneBeforeLast(cfg: Config, l1: seq<string>, l2: seq<string>)
    requires AnyDone(cfg, l1)
    ensures l2 != [] ==> AnyDone(cfg, (l1 + l2)[..|l1 + l2| - 1])
  {
    if l2 != [] {
      AppendDropLast(l1, l2);
      AnyDonePrefix(cfg, l1, l2[..|l2| - 1]);
    }
  }

  /** A `done` line on an open stream ends it with a resolution carrying the
      response so far. */
  lemma DoneLineCompletes(cfg: Config, st: State, line: string)
    requires !st.streamClosed && IsDoneLine(cfg, line)
    ensures var r := HandleLine(cfg, st, line);
      r.events != [] && r.events[|r.events| - 1] == Complete(r.fullResponse)
  {
    var rec := cfg.parse(line).value;
    var token := TokenOf(cfg.endpoint, rec);
    var st1 := if token.Some? then Emit(st, token.value) else st;
    assert HandleLine(cfg, st, line) == CompleteStream(st1, st1.fullResponse);
  }

  /** A trace that ends with a completion has one. */
  lemma CompletesLast(ev: seq<Event>)
    requires ev != [] && ev[|ev| - 1].Complete?
    ensures Completes(ev) >= 1
  {
  }

  /** Lines whose only `done` record is the last one: every line's token is
      emitted, then the stream closes and resolves once, with all the tokens,
      and nothing follows the resolution. */
  lemma LinesEndingInDone(cfg: Config, st: State, lines: seq<string>)
    requires Valid(st) && !st.streamClosed
    requires lines != [] && IsDoneLine(cfg, lines[|lines| - 1]) && !AnyDone(cfg, lines[..|lines| - 1])
    ensures var r := HandleLines(cfg, st, lines);
      r.streamClosed && Tokens(r.events) == Tokens(st.events) + LineTokens(cfg, lines)
      && Completes(r.events) == 1 && Fails(r.events) == 0
      && r.events[|r.events| - 1] == Complete(Concat(Tokens(r.events)))
  {
    var init, last := lines[..|lines| - 1], lines[|lines| - 1];
    var prev := HandleLines(cfg, st, init);
    var r := HandleLines(cfg, st, lines);
    HandleLinesClosed(cfg, st, init);
    HandleLinesEffect(cfg, st, lines);
    ValidHandleLines(cfg, st, lines);
    assert r == HandleLine(cfg, prev, last);
    DoneLineCompletes(cfg, prev, last);
    CompletesLast(r.events);
    TerminalsSplit(r.events);
  }

  /** When the first chunks already complete a `done` line and the text's
      only `done` line is its last, the last chunk adds no line. */
  lemma DoneLinesBeforeLastChunk(cfg: Config, chunks: seq<string>)
    requires |chunks| > 1
    requires AnyDone(cfg, SplitLines(Concat(chunks[..|chunks| - 1])).0)
    requires var lines := SplitLines(Concat(chunks)).0;
      lines != [] && !AnyDone(cfg, lines[..|lines| - 1])
    ensures SplitLines(Concat(chunks[..|chunks| - 1])).0 == SplitLines(Concat(chunks)).0
  {
    var b: string := [];
    var cs, c := chunks[..|chunks| - 1], chunks[|chunks| - 1];
    var l1, r1 := SplitLines(b + Concat(cs)).0, SplitLines(b + Concat(cs)).1;
    var l2 := SplitLines(r1 + c).0;
    SplitMoreText(b, chunks);
    assert b + Concat(chunks) == Concat(chunks) && b + Concat(cs) == Concat(cs);
    assert SplitLines(Concat(chunks)).0 == l1 + l2;
    AnyDoneBeforeLast(cfg, l1, l2);
    assert l2 == [] && l1 + l2 == l1;
  }

  /** A fresh reader holding only a carry buffer keeps the invariant. */
  lemma ValidFresh(b: string)
    requires NoNewline(b)
    ensures Valid(Initial.(buffer := b)) && Tokens(Initial.(buffer := b).events) == []
  {
  }

  /** `LinesEndingInDone` from a fresh reader holding only a carry buffer. */
  lemma FreshLinesEndingInDone(cfg: Config, b: string, lines: seq<string>)
    requires NoNewline(b)
    requires lines != [] && IsDoneLine(cfg, lines[|lines| - 1]) && !AnyDone(cfg, lines[..|lines| - 1])
    ensures var r := HandleLines(cfg, Initial.(buffer := b), lines);
      r.streamClosed && Tokens(r.events) == LineTokens(cfg, lines)
      && Completes(r.events) == 1 && Fails(r.events) == 0
      && r.events[|r.events| - 1] == Complete(Concat(LineTokens(cfg, lines)))
  {
    var start := Initial.(buffer := b);
    ValidFresh(b);
    LinesEndingInDone(cfg, start, lines);
    assert Tokens(start.events) + LineTokens(cfg, lines) == LineTokens(cfg, lines);
  }

  /** The case where no `done` line is complete before the last chunk. */
  lemma DoneInLastChunk(cfg: Config, chunks: seq<string>)
    requires chunks != [] && forall i :: 0 <= i < |chunks| ==> chunks[i] != []
    requires !AnyDone(cfg, SplitLines(Concat(chunks[..|chunks| - 1])).0)
    requires var lines := SplitLines(Concat(chunks)).0;
      lines != [] && IsDoneLine(cfg, lines[|lines| - 1]) && !AnyDone(cfg, lines[..|lines| - 1])
    ensures var r := HandleReads(cfg, Initial, AsReads(chunks));
      var lines := SplitLines(Concat(chunks)).0;
      r.streamClosed && Tokens(r.events) == LineTokens(cfg, lines)
      && Completes(r.events) == 1 && Fails(r.events) == 0
      && r.events[|r.events| - 1] == Complete(Concat(LineTokens(cfg, lines)))
  {
    var cs := chunks[..|chunks| - 1];
    assert Initial.buffer + Concat(chunks) == Concat(chunks);
    assert Initial.buffer + Concat(cs) == Concat(cs);
    ChunkSplitIndependence(cfg, Initial, chunks);
    FreshLinesEndingInDone(cfg, SplitLines(Concat(chunks)).1, SplitLines(Concat(chunks)).0);
  }

  /** A text whose only `done` record is its last line gives, however it is
      cut into non-empty chunks, the tokens of all its lines in order and one
      resolution with their concatenation, which is the last thing that
      happens. */
  lemma {:induction false} DoneAtEndAnyChunking(cfg: Config, chunks: seq<string>)
    requires chunks != [] && forall i :: 0 <= i < |chunks| ==> chunks[i] != []
    requires var lines := SplitLines(Concat(chunks)).0;
      lines != [] && IsDoneLine(cfg, lines[|lines| - 1]) && !AnyDone(cfg, lines[..|lines| - 1])
    ensures var r := HandleReads(cfg, Initial, AsReads(chunks));
      var lines := SplitLines(Concat(chunks)).0;
      r.streamClosed && Tokens(r.events) == LineTokens(cfg, lines)
      && Completes(r.events) == 1 && Fails(r.events) == 0
      && r.events[|r.events| - 1] == Complete(Concat(LineTokens(cfg, lines)))
    decreases |chunks|
  {
    var cs := chunks[..|chunks| - 1];
    if cs != [] && AnyDone(cfg, SplitLines(Concat(cs)).0) {
      DoneLinesBeforeLastChunk(cfg, chunks);
      DoneAtEndAnyChunking(cfg, cs);
      ReadsOneMoreChunk(cfg, Initial, chunks);
    } else {
      if cs == [] {
        SplitNoNewline([]);
      }
      DoneInLastChunk(cfg, chunks);
    }
  }
}
