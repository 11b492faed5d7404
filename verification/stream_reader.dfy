/** `OllamaClient._readStream` in its own imperative form: the closure
    variables become the fields of a reader object, each closure a method that
    updates them, the `forEach` over lines and the self-re-issuing `readChunk`
    become loops. Every method is proved to do what the reference machine in
    StreamSpec does; the line, chunk and read handlers are also proved to
    keep the reader invariant. */
module StreamReader {
  import opened Wrappers
  import opened Text
  import opened Protocol
  import S = StreamSpec

  class LineStreamReader {
    const config: S.Config
    var buffer: string
    var fullResponse: string
    var tokenCount: nat
    var streamClosed: bool
    /** The callbacks and the close, in the order they happened. */
    var events: seq<Event>

    function Snapshot(): S.State
      reads this
    {
      S.State(buffer, fullResponse, tokenCount, streamClosed, events)
    }

    ghost predicate Valid()
      reads this
    {
      S.Valid(Snapshot())
    }

    /** The start of `_readStream`: empty buffer and response, nothing counted,
        stream open. */
    constructor (endpoint: string, parse: string -> Option<Record>)
      ensures config == S.Config(endpoint, parse)
      ensures Snapshot() == S.Initial && Valid()
    {
      config := S.Config(endpoint, parse);
      buffer, fullResponse, tokenCount, streamClosed, events := [], [], 0, false, [];
    }

    /** `closeStream` */
    method CloseStream()
      modifies this
      ensures Snapshot() == S.CloseStream(old(Snapshot()))
    {
      if !streamClosed {
        streamClosed := true;
        events := events + [Close];
      }
    }

    /** `completeStream(response)` */
    method CompleteStream(response: string)
      modifies this
      ensures Snapshot() == S.CompleteStream(old(Snapshot()), response)
    {
      if !streamClosed {
        CloseStream();
        events := events + [Complete(response)];
      }
    }

    /** `errorStream(error)` */
    method ErrorStream(error: Error)
      modifies this
      ensures Snapshot() == S.ErrorStream(old(Snapshot()), error)
    {
      if !streamClosed {
        CloseStream();
        events := events + [Fail(error)];
      }
    }

    /** The body of `lines.forEach(line => ...)`. */
    method HandleLine(line: string)
      requires Valid()
      modifies this
      ensures Snapshot() == S.HandleLine(config, old(Snapshot()), line)
      ensures Valid()
    {
      S.ValidHandleLine(config, Snapshot(), line);
      if !Blank(line) {
        var parsed := config.parse(line);
        if parsed.Some? {
          var rec := parsed.value;
          var token := TokenOf(config.endpoint, rec);
          if token.Some? {
            fullResponse := fullResponse + token.value;
            tokenCount := tokenCount + 1;
            events := events + [Token(token.value)];
          }
          if rec.done {
            CompleteStream(fullResponse);
          }
        }
      }
    }

    /** A non-empty chunk: appended to the buffer, split at newlines, the
        trailing fragment kept as the new buffer and every complete line
        handled in order. */
    method HandleChunk(text: string)
      requires Valid()
      modifies this
      ensures var split := SplitLines(old(buffer) + text);
        Snapshot() == S.HandleLines(config, old(Snapshot()).(buffer := split.1), split.0)
      ensures Valid()
    {
      buffer := buffer + text;
      var split := SplitLines(buffer);
      var lines := split.0;
      buffer := split.1;
      ghost var start := Snapshot();
      assert S.Valid(start);
      var i := 0;
      while i < |lines|
        invariant 0 <= i <= |lines|
        invariant Snapshot() == S.HandleLines(config, start, lines[..i])
        invariant Valid()
      {
        S.HandleLinesStep(config, start, lines, i);
        HandleLine(lines[i]);
        i := i + 1;
      }
      assert lines[..|lines|] == lines;
    }

    /** The `read_bytes_async` callback. */
    method OnRead(r: ReadResult)
      requires Valid()
      modifies this
      ensures Snapshot() == S.HandleRead(config, old(Snapshot()), r)
      ensures Valid()
    {
      S.ValidHandleRead(config, Snapshot(), r);
      if streamClosed {
        return;
      }
      match r
      case Chunk(text) =>
        if text == [] {
          CompleteStream(fullResponse);
        } else {
          HandleChunk(text);
        }
      case ReadError(message) =>
        if message != [] && Contains(message, "closed") {
          CompleteStream(fullResponse);
        } else {
          ErrorStream(ReadFailure(message));
        }
    }

    /** `readChunk`, which issues the next read only while the stream is open.
        `results` are what the server would deliver; `issued` is how many
        of them were read. */
    method ReadChunks(results: seq<ReadResult>) returns (issued: nat)
      requires Valid()
      modifies this
      ensures issued <= |results|
      ensures Snapshot() == S.HandleReads(config, old(Snapshot()), results[..issued])
      ensures Snapshot() == S.HandleReads(config, old(Snapshot()), results)
      ensures issued < |results| ==> streamClosed
      ensures S.IssuedWhileOpen(config, old(Snapshot()), results[..issued])
      ensures Valid()
    {
      ghost var start := Snapshot();
      issued := 0;
      while issued < |results| && !streamClosed
        invariant 0 <= issued <= |results|
        invariant Snapshot() == S.HandleReads(config, start, results[..issued])
        invariant S.IssuedWhileOpen(config, start, results[..issued])
        invariant Valid()
      {
        S.HandleReadsStep(config, start, results, issued);
        S.IssuedWhileOpenStep(config, start, results, issued);
        OnRead(results[issued]);
        issued := issued + 1;
      }
      S.ReadsAfterClose(config, start, results, issued);
    }
  }

  /** `_readStream` as a whole: a fresh reader that reads until the stream
      closes or the server's reads run out. */
  method ReadStream(endpoint: string, parse: string -> Option<Record>, results: seq<ReadResult>)
    returns (reader: LineStreamReader, issued: nat)
    ensures fresh(reader)
    ensures reader.Snapshot() == S.HandleReads(S.Config(endpoint, parse), S.Initial, results)
    ensures issued <= |results| && (issued < |results| ==> reader.streamClosed)
    ensures reader.Valid()
  {
    reader := new LineStreamReader(endpoint, parse);
    issued := reader.ReadChunks(results);
  }
}
