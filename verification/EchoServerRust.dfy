/** rust/src/tcp_server.rs: serving one echo request over reads of any size. */
module EchoServerRust {
  import opened Bytes
  import opened Streams
  import opened Fields
  import opened HeaderMachine
  import opened ChunkedGrammar
  import opened ChunkedParserRust
  import opened RequestHead
  import opened RequestLine
  import opened Framing
  import opened Body
  import opened Echo
  import opened Response
  import opened Connections
  import opened Lines
  import Numerals
  import HeaderParserRust

  method ReadRequestHead(connection: Connection, ghost max: nat) returns (r: Option<(bytes, bytes)>)
    requires connection.Valid()
    modifies connection
    ensures connection.Valid()
    ensures var s := old(connection.Stream());
      var end := Find(CRLFCRLF, s);
      if end.None? || !Run(HeadStep, HEAD_INIT, s[..end.value + 4]).status.Complete? then r.None?
      else r.Some? && r.value.0 == s[..end.value + 4] && r.value.1 + connection.Stream() == s[end.value + 4..]
    ensures var seen := if r.Some? then r.value.0 + r.value.1 else [];
      connection.asked + (if r.Some? then ReadsNeeded(max, seen, connection.pending) else 0)
      == old(connection.asked) + ReadsNeeded(max, [], old(connection.pending))
    ensures r.Some? ==> Find(CRLFCRLF, r.value.0 + r.value.1).Some?
  {
    hide FindFrom, HeadStep, HeaderStep, SelectFraming, BodyDecided, JudgeHead;
    ghost var s := connection.Stream();
    var request: bytes := [];
    while true
      invariant connection.Valid() && request + connection.Stream() == s
      invariant connection.asked + ReadsNeeded(max, request, connection.pending)
             == old(connection.asked) + ReadsNeeded(max, [], old(connection.pending))
      decreases |connection.pending|
    {
      var found := FindBytes(request, CRLFCRLF);
      if found.Some? {
        FindIsStable(CRLFCRLF, request, connection.Stream());
        var end := found.value + 4;
        assert s[..end] == request[..end];
        var parser := new RequestParser();
        var state := parser.Feed(request[..end]);
        if !state.Complete? {
          return None;
        }
        assert request[..end] + request[end..] == request;
        return Some((request[..end], request[end..]));
      }
      var chunk := connection.Read();
      if |chunk| == 0 {
        assert request == s;
        return None;
      }
      request := request + chunk;
    }
  }

  method ReadContentLengthBody(connection: Connection, max: nat, initial: bytes, value: bytes)
    returns (r: Option<bytes>)
    requires connection.Valid()
    modifies connection
    ensures r == TakeBody(max, Accepted(ByLength(value), initial + old(connection.Stream())))
    ensures connection.asked
         == old(connection.asked) + BodyReads(max, Accepted(ByLength(value), initial), old(connection.pending))
  {
    hide BodyStep, BodyInit, Run, Concat;
    ghost var s := initial + connection.Stream();
    var parser := new RustBodyParser(max, Some(value));
    ghost var start := parser.Abs();
    var state := parser.Feed(initial);
    ghost var fed := initial;
    while state.Incomplete?
      invariant parser.Valid() && connection.Valid()
      invariant fed + connection.Stream() == s
      invariant parser.Abs() == Run(BodyStep, start, fed) && state == parser.status
      invariant connection.asked + BodyReads(max, Accepted(ByLength(value), fed), connection.pending)
             == old(connection.asked) + BodyReads(max, Accepted(ByLength(value), initial), old(connection.pending))
      decreases |connection.pending|
    {
      var chunk := connection.Read();
      if |chunk| == 0 {
        assert fed == s;
        return None;
      }
      RunConcat(BodyStep, start, fed, chunk);
      state := parser.Feed(chunk);
      fed := fed + chunk;
    }
    RunConcat(BodyStep, start, fed, connection.Stream());
    SettledKeepsRest(parser.Abs(), connection.Stream());
    if !state.Complete? {
      return None;
    }
    r := Some(parser.body);
  }

  method ReadChunkedBody(connection: Connection, max: nat, initial: bytes) returns (r: Option<bytes>)
    requires connection.Valid()
    modifies connection
    ensures r == TakeBody(max, Accepted(Chunked, initial + old(connection.Stream())))
    ensures connection.asked
         == old(connection.asked) + BodyReads(max, Accepted(Chunked, initial), old(connection.pending))
  {
    hide RustStep, Run, Concat;
    ghost var s := initial + connection.Stream();
    var parser := new ChunkedParser(max);
    ghost var start := parser.Abs();
    var state := parser.Feed(initial);
    ghost var fed := initial;
    while state.Incomplete?
      invariant connection.Valid()
      invariant fed + connection.Stream() == s
      invariant parser.Abs() == Run(RustStep, start, fed) && state == parser.status
      invariant connection.asked + BodyReads(max, Accepted(Chunked, fed), connection.pending)
             == old(connection.asked) + BodyReads(max, Accepted(Chunked, initial), old(connection.pending))
      decreases |connection.pending|
    {
      var chunk := connection.Read();
      if |chunk| == 0 {
        assert fed == s;
        return None;
      }
      RunConcat(RustStep, start, fed, chunk);
      state := parser.Feed(chunk);
      fed := fed + chunk;
    }
    RunConcat(RustStep, start, fed, connection.Stream());
    RustSettled(parser.Abs(), connection.Stream());
    if !state.Complete? {
      return None;
    }
    r := Some(parser.body);
  }

  /** Line, header section and framing of a head that the head machine has accepted. */
  method ParseHead(head: bytes, ghost rest: bytes) returns (r: Framing)
    ensures JudgeHead(head, rest) == if r.Refused? then None else Some(Accepted(r, rest))
  {
    var lineEnd := FindBytes(head, CRLF);
    if lineEnd.None? {
      return Refused;
    }
    var line := ParseRequestLine(head[..lineEnd.value]);
    if line.None? || line.value.verb != POST || line.value.target != ECHO || line.value.version != HTTP11 {
      return Refused;
    }
    var headers := new HeaderParserRust.HeaderParser();
    var state := headers.Feed(head[lineEnd.value + 2..]);
    if !state.Complete? {
      return Refused;
    }
    r := SelectFramingRust(headers.headers);
  }

  /** The result is a function of the byte stream alone: how the stream was cut into reads does
      not appear in it. And no read follows the one that settles the answer. */
  method ReadEchoRequest(connection: Connection, max: nat) returns (r: Option<bytes>)
    requires connection.Valid()
    modifies connection
    ensures r == RustEcho(max, old(connection.Stream()))
    ensures connection.asked == old(connection.asked) + ReadsNeeded(max, [], old(connection.pending))
  {
    hide FindFrom, HeadStep, HeaderStep, BodyStep, RustStep, JudgeHead, BodyDecided, Concat;
    ghost var s := connection.Stream();
    var read := ReadRequestHead(connection, max);
    if read.None? {
      return None;
    }
    var (head, initial) := read.value;
    ghost var rest := initial + connection.Stream();
    var framing := ParseHead(head, rest);
    assert AcceptHead(s) == JudgeHead(head, rest);
    assert s == head + initial + connection.Stream();
    HeadThenBody(max, head + initial, initial, connection.Stream(), connection.pending);
    match framing {
      case Refused => r := None;
      case ByLength(value) => r := ReadContentLengthBody(connection, max, initial, value);
      case Chunked => r := ReadChunkedBody(connection, max, initial);
    }
  }

  /** The bytes written back for a stream. */
  function RustReply(max: nat, s: bytes): bytes {
    match RustEcho(max, s)
    case Some(body) => ResponseBytes(ImageBmpOk(body))
    case None => ResponseBytes(BadRequest())
  }

  method ServeEchoOnce(connection: Connection, max: nat) returns (response: bytes)
    requires connection.Valid()
    modifies connection
    ensures response == RustReply(max, old(connection.Stream()))
    ensures connection.asked == old(connection.asked) + ReadsNeeded(max, [], old(connection.pending))
  {
    var body := ReadEchoRequest(connection, max);
    response := if body.Some? then ResponseBytes(ImageBmpOk(body.value)) else ResponseBytes(BadRequest());
  }

  /** A client that sends a well-formed request, and anything after it, and reads the reply with
      the same parsers gets its body back byte for byte under "200 OK". */
  lemma EchoRoundTrip(max: nat, r: Request, rest: bytes)
    requires IsRequest(Limits(max, true), r) && |RequestBody(r)| <= max
    ensures IsEchoReply(ReadMessage(max, RustReply(max, RenderRequest(r) + rest)), RequestBody(r))
  {
    hide RustEcho, ReadMessage, ResponseBytes, IsRequest, RenderRequest, IsEchoReply, RequestBody, ImageBmpOk, BadRequest;
    TrailingBytesAreIgnored(max, r, rest);
    EchoReadsBack(max, RequestBody(r));
  }

  /** Every other stream is answered with an empty "400 Bad Request": no request bytes are
      echoed, and the reply is this text. */
  lemma EverythingElseIsRefused(max: nat, s: bytes)
    requires forall body, r, rest :: !EchoesAs(max, s, body, r, rest)
    ensures IsRefusalReply(ReadMessage(max, RustReply(max, s)))
    ensures RustReply(max, s) == REFUSED_LINE + REFUSED_TYPE + REFUSED_LENGTH + CLOSE_TEXT
  {
    hide ReadMessage, ResponseBytes, IsRefusalReply, RustEcho, EchoesAs, BadRequest,
      REFUSED_LINE, REFUSED_TYPE, REFUSED_LENGTH, CLOSE_TEXT;
    if RustEcho(max, s).Some? {
      RustEchoIffRequest(max, s, RustEcho(max, s).value);
      assert false;
    }
    RefusalReadsBack(max);
    BadRequestText();
  }

  // ----- a request and its reply as text

  /** A field line in mixed case and with extra whitespace, one chunk with an upper-case size,
      and a trailer. */
  function ExampleRequest(): bytes {
    Ascii("POST /echo HTTP/1.1\r\n") + (CodingLine() + CRLF + CRLF) + ExampleTail()
  }

  function ExampleTail(): bytes {
    Ascii("A\r\n0123456789\r\n") + (Ascii("0\r\n") + (Ascii("X: y\r\n") + Ascii("\r\n")))
  }

  function ExampleMessage(): Message {
    Message([Chunk(Ascii("A"), Ascii("0123456789"))], Ascii("0"), [Ascii("X: y")])
  }

  lemma TrailerLine()
    ensures ProperLines([Ascii("X: y")]) && ParseLines([Ascii("X: y")]).ok
  {
    var line, name, value := Ascii("X: y"), Ascii("X"), Ascii("y");
    assert line == name + [COLON] + [SP] + value + [];
    ParsesAsSpelled(line, name, [SP], value, []);
    hide ParseField, ParseLines;
    ParseLinesAt([line], [ParseField(line).value]);
  }

  lemma ExampleSizes(limits: Limits)
    requires limits.max >= 10
    ensures Size(limits, Ascii("A")) == Some(10) && Size(limits, Ascii("0")) == Some(0)
  {
    Numerals.ValueIsPositional([], 10);
    Numerals.ValueIsPositional([], 0);
    assert [] + [65] == Ascii("A") && [] + [48] == Ascii("0");
  }

  lemma ExampleIsMessage(limits: Limits)
    requires limits.max >= 10
    ensures IsMessage(limits, ExampleMessage())
  {
    hide Size, ParseLines, ProperLines;
    ExampleSizes(limits);
    TrailerLine();
  }

  lemma ExampleRender()
    ensures Render(ExampleMessage()) == ExampleTail()
    ensures ChunkedGrammar.Payload(ExampleMessage().chunks) == Ascii("0123456789")
  {
    ExampleLines();
    var m := ExampleMessage();
    hide Ascii;
    assert m.chunks[1..] == [] && m.lines[1..] == [];
    assert RenderLines(m.lines) == m.lines[0] + CRLF + [];
    assert RenderChunks(m.chunks) == RenderChunk(m.chunks[0]) + [];
  }

  lemma ExampleLines()
    ensures Ascii("A\r\n0123456789\r\n") == Ascii("A") + CRLF + (Ascii("0123456789") + CRLF)
    ensures Ascii("0\r\n") == Ascii("0") + CRLF && Ascii("X: y\r\n") == Ascii("X: y") + CRLF && Ascii("\r\n") == CRLF
  {
  }

  lemma ExampleHead()
    ensures Ascii("POST /echo HTTP/1.1\r\n") == ECHO_LINE + CRLF
  {
    EchoLineText();
  }

  /** The whole pipeline on text: the example, followed by anything, is answered with this text. */
  lemma ExampleReply(max: nat, rest: bytes)
    requires max >= 10
    ensures RustReply(max, ExampleRequest() + rest)
         == ECHO_STATUS + ECHO_TYPE + LengthText(10) + CLOSE_TEXT + Ascii("0123456789")
  {
    hide ExampleRequest, RustEcho, RequestBody, IsRequest, RenderRequest, ResponseBytes, ImageBmpOk, LengthText,
      ECHO_STATUS, ECHO_TYPE, CLOSE_TEXT;
    var r := ExampleIsRequest(max);
    TrailingBytesAreIgnored(max, r, rest);
    ImageBmpOkText(RequestBody(r));
  }

  lemma ExampleIsRequest(max: nat) returns (r: Request)
    requires max >= 10
    ensures IsRequest(Limits(max, true), r) && RenderRequest(r) == ExampleRequest()
    ensures RequestBody(r) == Ascii("0123456789")
  {
    var line := CodingLine();
    r := Request([line], InChunks(ExampleMessage()));
    ExampleHead();
    ExampleRender();
    hide Ascii, Render, ExampleMessage, ParseField, ParseLines, SelectFraming, ECHO_LINE, CodingLine, ExampleTail, IsMessage;
    ExampleIsMessage(Limits(max, true));
    CodingLineText();
    ParseLinesAt([line], [ParseField(line).value]);
    RenderOne(line);
  }

  lemma RenderOne(line: bytes)
    ensures RenderSection([line]) == line + CRLF + CRLF
  {
    assert RenderLines([line]) == line + CRLF + [];
  }
}
