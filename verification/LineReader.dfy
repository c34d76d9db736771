/** The line buffering of `consumeStream` in `electron-performance.js`. */
module LineReader {
  import opened Text

  datatype Stream = Stderr | Stdout

  datatype Chunk = Chunk(stream: Stream, text: string)

  /** Everything that a stream delivered. */
  function Received(chunks: seq<Chunk>, stream: Stream): string {
    if chunks == [] then ""
    else
      var last := chunks[|chunks| - 1];
      Received(chunks[..|chunks| - 1], stream) + if last.stream == stream then last.text else ""
  }

  /** The lines of one stream among the lines that were handed to the parser. */
  function LinesOf(handed: seq<(Stream, string)>, stream: Stream): seq<string> {
    if handed == [] then []
    else
      var last := handed[|handed| - 1];
      LinesOf(handed[..|handed| - 1], stream) + if last.0 == stream then [last.1] else []
  }

  function IndexOfNewline(s: string): (r: int)
    ensures r < |s|
    ensures if r < 0 then '\n' !in s else s[r] == '\n' && '\n' !in s[..r]
  {
    if s == "" then -1
    else if s[0] == '\n' then 0
    else
      var r := IndexOfNewline(s[1..]);
      if r < 0 then -1 else r + 1
  }

  lemma FirstPiece(buffer: string, newline: nat)
    requires newline == IndexOfNewline(buffer)
    ensures Split(buffer, '\n') == [buffer[..newline]] + Split(buffer[newline + 1..], '\n')
  {
    var line, rest := buffer[..newline], buffer[newline + 1..];
    assert buffer == line + ['\n'] + rest;
    SplitAtSeparator(line, rest, '\n');
    SplitOne(line, '\n');
  }

  class StreamConsumer {
    var lineBuffers: map<Stream, string>
    /** The lines handed to `parseStopwatchLog`, in order. */
    var handed: seq<(Stream, string)>

    ghost predicate Valid()
      reads this
    {
      Stderr in lineBuffers && Stdout in lineBuffers
    }

    function Buffer(s: Stream): string
      requires Valid()
      reads this
    {
      match s
      case Stderr => lineBuffers[Stderr]
      case Stdout => lineBuffers[Stdout]
    }

    constructor ()
      ensures Valid() && handed == [] && forall s :: Buffer(s) == ""
    {
      lineBuffers, handed := map[Stderr := "", Stdout := ""], [];
    }

    /**
     * One chunk: the buffer and the chunk, split at the newlines, are the new lines and the new
     * buffer. The other stream is left alone.
     */
    method ConsumeStream(streamName: Stream, chunk: string)
      requires Valid()
      modifies this
      ensures Valid() && old(handed) <= handed
      ensures forall s | s != streamName :: Buffer(s) == old(Buffer(s)) && LinesOf(handed, s) == LinesOf(old(handed), s)
      ensures LinesOf(old(handed), streamName) + Split(old(Buffer(streamName)) + chunk, '\n')
           == LinesOf(handed, streamName) + [Buffer(streamName)]
    {
      lineBuffers := lineBuffers[streamName := lineBuffers[streamName] + chunk];
      var newlineIndex := IndexOfNewline(lineBuffers[streamName]);
      while newlineIndex >= 0
        invariant Valid() && old(handed) <= handed
        invariant newlineIndex == IndexOfNewline(lineBuffers[streamName])
        invariant forall s | s != streamName ::
                    Buffer(s) == old(Buffer(s)) && LinesOf(handed, s) == LinesOf(old(handed), s)
        invariant LinesOf(old(handed), streamName) + Split(old(Buffer(streamName)) + chunk, '\n')
               == LinesOf(handed, streamName) + Split(lineBuffers[streamName], '\n')
        decreases |lineBuffers[streamName]|
      {
        TakeLine(streamName, newlineIndex);
        newlineIndex := IndexOfNewline(lineBuffers[streamName]);
      }
      SplitOne(lineBuffers[streamName], '\n');
    }

    /** The body of the loop: the text before the first newline is handed over. */
    method TakeLine(streamName: Stream, newlineIndex: nat)
      requires Valid() && newlineIndex == IndexOfNewline(Buffer(streamName))
      modifies this
      ensures Valid() && old(handed) <= handed && |Buffer(streamName)| < |old(Buffer(streamName))|
      ensures forall s | s != streamName :: Buffer(s) == old(Buffer(s)) && LinesOf(handed, s) == LinesOf(old(handed), s)
      ensures LinesOf(old(handed), streamName) + Split(old(Buffer(streamName)), '\n')
           == LinesOf(handed, streamName) + Split(Buffer(streamName), '\n')
    {
      var buffer := lineBuffers[streamName];
      var line := buffer[..newlineIndex];
      FirstPiece(buffer, newlineIndex);
      lineBuffers := lineBuffers[streamName := buffer[newlineIndex + 1..]];
      handed := handed + [(streamName, line)];
      assert handed[..|handed| - 1] == old(handed);
    }

    /** Chunks of both streams in any order. */
    method ConsumeAll(chunks: seq<Chunk>)
      requires Valid() && handed == [] && forall s :: Buffer(s) == ""
      modifies this
      ensures Valid()
      ensures forall s :: Split(Received(chunks, s), '\n') == LinesOf(handed, s) + [Buffer(s)]
    {
      for i := 0 to |chunks|
        invariant Valid()
        invariant forall s :: Split(Received(chunks[..i], s), '\n') == LinesOf(handed, s) + [Buffer(s)]
      {
        var stream, text := chunks[i].stream, chunks[i].text;
        ghost var lines, buffer := LinesOf(handed, stream), Buffer(stream);
        assert chunks[..i + 1][..i] == chunks[..i];
        SplitAppend(Received(chunks[..i], stream), text, '\n');
        ConsumeStream(stream, text);
        forall s ensures Split(Received(chunks[..i + 1], s), '\n') == LinesOf(handed, s) + [Buffer(s)] {
          if s != stream {
            assert Received(chunks[..i], s) + "" == Received(chunks[..i], s);
          }
        }
      }
      assert chunks[..|chunks|] == chunks;
    }
  }

  /** `lines` and `buffer` are a possible outcome of consuming a text. */
  ghost predicate Outcome(received: string, lines: seq<string>, buffer: string) {
    Split(received, '\n') == lines + [buffer]
  }

  /** A text has one outcome only. */
  lemma OutcomeIsUnique(received: string, la: seq<string>, ba: string, lb: seq<string>, bb: string)
    requires Outcome(received, la, ba) && Outcome(received, lb, bb)
    ensures la == lb && ba == bb
  {
    var pieces := Split(received, '\n');
    assert la == pieces[..|pieces| - 1] && lb == pieces[..|pieces| - 1];
    assert ba == pieces[|pieces| - 1] == bb;
  }

  /**
   * Two consumers that are fed with the same text of a stream, split into different chunks and mixed
   * differently with the other stream: they hand over the same lines of it and end with the same buffer.
   */
  method ChunksDoNotMatter(a: seq<Chunk>, b: seq<Chunk>) returns (x: StreamConsumer, y: StreamConsumer)
    ensures fresh(x) && fresh(y) && x.Valid() && y.Valid()
    ensures forall s | Received(a, s) == Received(b, s) ::
              LinesOf(x.handed, s) == LinesOf(y.handed, s) && x.Buffer(s) == y.Buffer(s)
    ensures forall s :: Terminated(LinesOf(x.handed, s)) + x.Buffer(s) == Received(a, s)
    ensures forall s :: Terminated(LinesOf(y.handed, s)) + y.Buffer(s) == Received(b, s)
  {
    x := new StreamConsumer();
    x.ConsumeAll(a);
    y := new StreamConsumer();
    y.ConsumeAll(b);
    forall s | Received(a, s) == Received(b, s)
      ensures LinesOf(x.handed, s) == LinesOf(y.handed, s) && x.Buffer(s) == y.Buffer(s)
    {
      OutcomeIsUnique(Received(a, s), LinesOf(x.handed, s), x.Buffer(s), LinesOf(y.handed, s), y.Buffer(s));
    }
    forall s
      ensures Terminated(LinesOf(x.handed, s)) + x.Buffer(s) == Received(a, s)
      ensures Terminated(LinesOf(y.handed, s)) + y.Buffer(s) == Received(b, s)
    {
      NothingIsLost(Received(a, s), LinesOf(x.handed, s), x.Buffer(s));
      NothingIsLost(Received(b, s), LinesOf(y.handed, s), y.Buffer(s));
    }
  }

  function Terminated(lines: seq<string>): string {
    if lines == [] then "" else lines[0] + "\n" + Terminated(lines[1..])
  }

  /** The newline-terminated lines and the buffer are together the whole input. */
  lemma NothingIsLost(received: string, lines: seq<string>, buffer: string)
    requires Outcome(received, lines, buffer)
    ensures Terminated(lines) + buffer == received
    ensures forall l | l in lines :: '\n' !in l
  {
    JoinSplit(received, '\n');
    PiecesHaveNoSeparator(received, '\n');
    assert forall l | l in lines :: l in lines + [buffer];
    TerminatedIsJoin(lines, buffer);
  }

  lemma {:induction false} TerminatedIsJoin(lines: seq<string>, buffer: string)
    ensures Terminated(lines) + buffer == Join(lines + [buffer], "\n")
  {
    if lines == [] {
      assert lines + [buffer] == [buffer];
    } else {
      assert (lines + [buffer])[1..] == lines[1..] + [buffer];
      TerminatedIsJoin(lines[1..], buffer);
    }
  }
}
