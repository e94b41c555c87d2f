/**
 * c/http_echo_server.c: the same pipeline with its own ends. It stays silent when the stream
 * ends inside the head, and answers 200 with an empty body when it ends inside a chunked body.
 */
module EchoServerC {
  import opened Bytes
  import opened Streams
  import opened Fields
  import opened HeaderMachine
  import opened ChunkedGrammar
  import opened ChunkedMachine
  import opened ChunkedTheorems
  import opened RequestHead
  import opened RequestLine
  import opened Framing
  import opened Body
  import opened Buffers
  import opened Echo
  import opened Connections
  import opened Response
  import opened EchoServerRust
  import ChunkedParserRust
  import HeaderParserC
  import ChunkedParserC

  /** Close without a word, a 400, or a 200 with a body. */
  datatype Reply = Silent | Refusal | Echoed(body: bytes)

  /** The reply to an accepted head and the bytes that follow it up to end of file. */
  function BodyReply(sizeMax: nat, a: Accepted): Reply {
    match a.framing
    case Refused => Refusal
    case ByLength(value) =>
      var p := Run(BodyStep, BodyInit(sizeMax, Some(value)), a.rest);
      if p.status.Complete? then Echoed(p.body) else Refusal
    case Chunked =>
      var p := Run(ChunkedStep, ChunkedInit(Limits(sizeMax, false)), a.rest);
      if p.status.Complete? then Echoed(p.body)
      else if p.status.Invalid? then Refusal
      else Echoed([])
  }

  function CReply(sizeMax: nat, s: bytes): Reply {
    if Find(CRLFCRLF, s).None? then Silent
    else
      match AcceptHead(s)
      case None => Refusal
      case Some(a) => BodyReply(sizeMax, a)
  }

  // ----- buffers cannot fill up while the stream is shorter than SIZE_MAX

  function Held(p: ChunkedState): nat {
    |p.line| + |p.body| + |p.remaining| + |p.trailers.line|
  }

  lemma {:induction false} HeldBound(p: ChunkedState, s: bytes)
    ensures Held(Run(ChunkedStep, p, s)) <= Held(p) + |s|
    decreases |s|
  {
    if s != [] {
      HeldStep(p, s[0]);
      HeldBound(ChunkedStep(p, s[0]), s[1..]);
    }
  }

  lemma HeldStep(p: ChunkedState, b: byte)
    ensures Held(ChunkedStep(p, b)) <= Held(p) + 1
  {
  }

  lemma {:induction false} LineBound(h: HeaderState, s: bytes)
    ensures |Run(HeaderStep, h, s).line| <= |h.line| + |s|
    decreases |s|
  {
    if s != [] {
      LineBound(HeaderStep(h, s[0]), s[1..]);
    }
  }

  // ----- the server

  method ReadHead(connection: Connection, sizeMax: nat) returns (request: bytes, found: Option<nat>)
    requires connection.Valid() && sizeMax >= 4096
    modifies connection
    ensures connection.Valid()
    ensures found == Find(CRLFCRLF, old(connection.Stream()))
            || (found.None? && |old(connection.Stream())| > sizeMax)
    ensures found.Some? ==> request + connection.Stream() == old(connection.Stream()) && found.value + 4 <= |request|
  {
    hide FindFrom, Find, Concat, MatchesAt;
    ghost var s := connection.Stream();
    var buffer := new ByteBuffer(sizeMax, 4096);
    assert buffer.Contents() + connection.Stream() == s;
    while true
      invariant connection.Valid() && buffer.Valid() && fresh(buffer) && fresh(buffer.data)
      invariant buffer.sizeMax == sizeMax
      invariant buffer.Contents() + connection.Stream() == s
      decreases |connection.pending|
    {
      request := buffer.Contents();
      found := FindBytes(request, CRLFCRLF);
      if found.Some? {
        FoundInPrefix(request, connection.Stream());
        return;
      }
      var chunk := connection.Read();
      if |chunk| == 0 {
        assert request == s;
        return;
      }
      assert request + (chunk + connection.Stream()) == request + chunk + connection.Stream();
      var appended := buffer.Append(chunk);
      if !appended {
        return;
      }
    }
  }

  lemma FoundInPrefix(s: bytes, more: bytes)
    requires Find(CRLFCRLF, s).Some?
    ensures Find(CRLFCRLF, s + more) == Find(CRLFCRLF, s) && Find(CRLFCRLF, s).value + 4 <= |s|
  {
    FindIsStable(CRLFCRLF, s, more);
  }

  /** Line, header section and framing; a header parser that cannot grow also means 400. */
  method JudgeRequestHead(head: bytes, ghost rest: bytes, sizeMax: nat) returns (r: Framing)
    requires sizeMax >= 32
    ensures JudgeHead(head, rest) == (if r.Refused? then None else Some(Accepted(r, rest)))
            || (r.Refused? && |head| >= sizeMax)
  {
    var lineEnd := FindBytes(head, CRLF);
    if lineEnd.None? {
      return Refused;
    }
    var line := ParseRequestLine(head[..lineEnd.value]);
    if line.None? || line.value.verb != POST || line.value.target != ECHO {
      return Refused;
    }
    var headers := new HeaderParserC.HeaderParser(sizeMax);
    var section := head[lineEnd.value + 2..];
    var fed := headers.Feed(section);
    if !fed || !headers.status.Complete? {
      if !fed {
        LineIsFar(headers, section);
      }
      return Refused;
    }
    r := SelectFramingC(headers.fields);
  }

  lemma LineIsFar(headers: HeaderParserC.HeaderParser, input: bytes)
    requires headers.Valid()
    requires exists k :: 0 <= k < |input| && headers.Abs() == Run(HeaderStep, HEADER_INIT, input[..k])
    ensures headers.line.length <= |input|
  {
    var k :| 0 <= k < |input| && headers.Abs() == Run(HeaderStep, HEADER_INIT, input[..k]);
    LineBound(HEADER_INIT, input[..k]);
  }

  /** What the decoder's state after a prefix already says about the reply. */
  lemma ChunkedReplyNow(sizeMax: nat, p: ChunkedState, fed: bytes, more: bytes)
    requires p == Run(ChunkedStep, ChunkedInit(Limits(sizeMax, false)), fed)
    requires p.status.Incomplete? ==> more == []
    ensures BodyReply(sizeMax, Accepted(Chunked, fed + more))
         == if p.status.Complete? then Echoed(p.body) else if p.status.Invalid? then Refusal else Echoed([])
  {
    hide ChunkedStep;
    RunConcat(ChunkedStep, ChunkedInit(Limits(sizeMax, false)), fed, more);
    if p.status.Complete? {
      CompleteKeepsRest(p, more);
    } else if p.status.Invalid? {
      InvalidAbsorbs(p, more);
    }
  }

  lemma LengthReplyNow(sizeMax: nat, value: bytes, p: BodyState, fed: bytes, more: bytes)
    requires p == Run(BodyStep, BodyInit(sizeMax, Some(value)), fed)
    requires p.status.Incomplete? ==> more == []
    ensures BodyReply(sizeMax, Accepted(ByLength(value), fed + more))
         == if p.status.Complete? then Echoed(p.body) else Refusal
  {
    hide BodyStep;
    RunConcat(BodyStep, BodyInit(sizeMax, Some(value)), fed, more);
    if !p.status.Incomplete? {
      SettledKeepsRest(p, more);
    }
  }

  /** One feed; on failure the stream is at least SIZE_MAX long. */
  method FeedPart(parser: ChunkedParserC.ChunkedParser, ghost start: ChunkedState, ghost fed: bytes, part: bytes)
    returns (ok: bool)
    requires parser.Valid() && parser.Abs() == Run(ChunkedStep, start, fed)
    modifies parser.Buffers(), parser.Arrays()
    ensures parser.Valid() && fresh(parser.Arrays() - old(parser.Arrays()))
    ensures ok ==> parser.Abs() == Run(ChunkedStep, start, fed + part)
    ensures !ok ==> Held(start) + |fed| + |part| >= parser.sizeMax
  {
    hide ChunkedStep, Held;
    ghost var before := parser.Abs();
    ok := parser.Feed(part);
    if ok {
      RunConcat(ChunkedStep, start, fed, part);
    } else {
      HeldBound(start, fed);
      FullIsFar(parser, before, part);
    }
  }

  /** The read loop: until the decoder decides, the stream ends, or a buffer cannot grow. */
  method FeedUntilDecided(connection: Connection, parser: ChunkedParserC.ChunkedParser,
                          ghost start: ChunkedState, ghost first: bytes) returns (ok: bool, ghost fed: bytes)
    requires connection.Valid() && parser.Valid() && parser.Abs() == Run(ChunkedStep, start, first)
    modifies connection, parser.Buffers(), parser.Arrays()
    ensures parser.Valid() && fed + connection.Stream() == first + old(connection.Stream())
    ensures ok ==> parser.Abs() == Run(ChunkedStep, start, fed)
    ensures ok && parser.status.Incomplete? ==> connection.Stream() == []
    ensures !ok ==> Held(start) + |fed| >= parser.sizeMax
  {
    hide ChunkedParserC.ChunkedParser.Valid, ChunkedParserC.ChunkedParser.Abs, ChunkedStep, Held, Run, Concat;
    ghost var all := first + connection.Stream();
    fed, ok := first, true;
    while ok && parser.status.Incomplete?
      invariant connection.Valid() && parser.Valid()
      invariant fresh(parser.Arrays() - old(parser.Arrays()))
      invariant fed + connection.Stream() == all
      invariant if ok then parser.Abs() == Run(ChunkedStep, start, fed) else Held(start) + |fed| >= parser.sizeMax
      decreases ok, |connection.pending|
    {
      var chunk := connection.Read();
      assert fed + (chunk + connection.Stream()) == fed + chunk + connection.Stream();
      if |chunk| == 0 {
        break;
      }
      ok := FeedPart(parser, start, fed, chunk);
      fed := fed + chunk;
    }
  }

  /** End of file inside the body leaves `protocol_error` clear: a 200 without a body. */
  method ServeChunked(connection: Connection, sizeMax: nat, initial: bytes) returns (reply: Reply)
    requires connection.Valid() && sizeMax >= 32
    modifies connection
    ensures var s := initial + old(connection.Stream());
      reply == BodyReply(sizeMax, Accepted(Chunked, s)) || (reply == Echoed([]) && |s| >= sizeMax)
  {
    hide ChunkedStep, BodyReply, Held;
    var parser := new ChunkedParserC.ChunkedParser(sizeMax);
    ghost var start := parser.Abs();
    HeldAtStart(sizeMax);
    assert [] + initial == initial;
    ghost var fed := initial;
    var ok := FeedPart(parser, start, [], initial);
    if ok {
      ok, fed := FeedUntilDecided(connection, parser, start, initial);
    }
    if !ok {
      return Echoed([]);
    }
    ChunkedReplyNow(sizeMax, parser.Abs(), fed, connection.Stream());
    if parser.status.Complete? {
      reply := Echoed(parser.body.Contents());
    } else {
      reply := if parser.status.Invalid? then Refusal else Echoed([]);
    }
  }

  lemma HeldAtStart(sizeMax: nat)
    ensures Held(ChunkedInit(Limits(sizeMax, false))) == 0
  {
  }

  /** A parser that could not grow holds SIZE_MAX bytes, so at least that many were fed to it. */
  lemma FullIsFar(parser: ChunkedParserC.ChunkedParser, before: ChunkedState, input: bytes)
    requires parser.Valid() && parser.Full()
    requires exists k :: 0 <= k < |input| && parser.Abs() == Run(ChunkedStep, before, input[..k])
    ensures Held(before) + |input| >= parser.sizeMax
  {
    var k :| 0 <= k < |input| && parser.Abs() == Run(ChunkedStep, before, input[..k]);
    HeldBound(before, input[..k]);
  }

  method ServeByLength(connection: Connection, sizeMax: nat, initial: bytes, value: bytes) returns (reply: Reply)
    requires connection.Valid() && sizeMax >= 16
    modifies connection
    ensures var s := initial + old(connection.Stream());
      reply == BodyReply(sizeMax, Accepted(ByLength(value), s))
      || ((reply == Refusal || reply == Echoed([])) && |s| > sizeMax)
  {
    hide BodyStep, BodyReply, Run, Concat;
    ghost var s := initial + connection.Stream();
    var parser := new BodyParser(sizeMax, Some(value));
    ghost var start := parser.Abs();
    RunNone(BodyStep, start, []);
    ghost var fed := initial;
    var ok := FeedBodyPart(parser, start, [], initial);
    assert [] + initial == initial;
    if !ok {
      return Echoed([]);
    }
    while ok && parser.status.Incomplete?
      invariant connection.Valid() && parser.Valid()
      invariant fresh(parser) && fresh(parser.body) && fresh(parser.remaining)
      invariant fresh(parser.body.data) && fresh(parser.remaining.data)
      invariant fed + connection.Stream() == s
      invariant if ok then parser.Abs() == Run(BodyStep, start, fed) else |s| > sizeMax
      decreases ok, |connection.pending|
    {
      var chunk := connection.Read();
      if |chunk| == 0 {
        LengthReplyNow(sizeMax, value, parser.Abs(), fed, connection.Stream());
        return Refusal;
      }
      ok := FeedBodyPart(parser, start, fed, chunk);
      fed := fed + chunk;
    }
    if !ok {
      return Refusal;
    }
    LengthReplyNow(sizeMax, value, parser.Abs(), fed, connection.Stream());
    reply := if parser.status.Complete? then Echoed(parser.body.Contents()) else Refusal;
  }

  /** One feed of a parser that has not over-delivered; it fails only for a read beyond any size. */
  method FeedBodyPart(parser: BodyParser, ghost start: BodyState, ghost fed: bytes, part: bytes) returns (ok: bool)
    requires parser.Valid() && parser.Abs() == Run(BodyStep, start, fed)
    requires parser.remaining.length == 0
    modifies parser, parser.body, parser.remaining, parser.body.data, parser.remaining.data
    ensures parser.Valid()
    ensures parser.body.data == old(parser.body.data) || fresh(parser.body.data)
    ensures parser.remaining.data == old(parser.remaining.data) || fresh(parser.remaining.data)
    ensures ok ==> parser.Abs() == Run(BodyStep, start, fed + part)
    ensures ok <==> |part| <= parser.sizeMax
  {
    hide BodyStep;
    ok := false;
    if |part| <= parser.sizeMax {
      RunConcat(BodyStep, start, fed, part);
      ok := parser.Feed(part);
    }
  }

  /** What a parser that ran out of room may still lead to. */
  predicate Bodiless(reply: Reply) {
    reply == Silent || reply == Refusal || reply == Echoed([])
  }

  /** The reply is a function of the stream alone; only a stream of SIZE_MAX bytes or more may
      be answered otherwise, and then without a body. */
  method Answer(connection: Connection, sizeMax: nat) returns (reply: Reply)
    requires connection.Valid() && sizeMax >= 4096
    modifies connection
    ensures reply == CReply(sizeMax, old(connection.Stream()))
            || (Bodiless(reply) && |old(connection.Stream())| >= sizeMax)
  {
    hide BodyReply, JudgeHead, HeadStep, FindFrom, Find;
    ghost var s := connection.Stream();
    var request, found := ReadHead(connection, sizeMax);
    if found.None? {
      return Silent;
    }
    var headEnd := found.value + 4;
    ghost var rest := request[headEnd..] + connection.Stream();
    assert s[..headEnd] == request[..headEnd] && s[headEnd..] == rest;
    var headParser := new RequestParser();
    var state := headParser.Feed(request[..headEnd]);
    if !state.Complete? {
      return Refusal;
    }
    var framing := JudgeRequestHead(request[..headEnd], rest, sizeMax);
    match framing {
      case Refused => reply := Refusal;
      case ByLength(value) => reply := ServeByLength(connection, sizeMax, request[headEnd..], value);
      case Chunked => reply := ServeChunked(connection, sizeMax, request[headEnd..]);
    }
  }

  // ----- the bytes of the reply

  /** http_response_build: nothing is built that a size could not count. */
  function Built(sizeMax: nat, r: SimpleResponse): bytes {
    if |ResponseBytes(r)| < sizeMax then ResponseBytes(r) else []
  }

  /** The guard compares the header's length with what the body leaves of SIZE_MAX. */
  method HttpResponseBuild(sizeMax: nat, r: SimpleResponse) returns (response: Option<bytes>)
    ensures response == if Built(sizeMax, r) == [] then None else Some(Built(sizeMax, r))
  {
    ghost var all := ResponseBytes(r);
    var header := ResponseHeader(r);
    if |header| >= sizeMax - |r.body| {
      return None;
    }
    response := Some(header + r.body);
  }

  function ReplyBytes(sizeMax: nat, reply: Reply): bytes {
    match reply
    case Silent => []
    case Refusal => Built(sizeMax, BadRequest())
    case Echoed(body) => Built(sizeMax, ImageBmpOk(body))
  }

  /** http_echo_server_serve_once: the bytes written before the connection is closed. */
  method ServeOnce(connection: Connection, sizeMax: nat) returns (response: bytes)
    requires connection.Valid() && sizeMax >= 4096
    modifies connection
    ensures response == ReplyBytes(sizeMax, CReply(sizeMax, old(connection.Stream())))
            || (|old(connection.Stream())| >= sizeMax
                && exists reply :: Bodiless(reply) && response == ReplyBytes(sizeMax, reply))
  {
    var reply := Answer(connection, sizeMax);
    if reply.Silent? {
      return [];
    }
    var built := HttpResponseBuild(sizeMax, if reply.Refusal? then BadRequest() else ImageBmpOk(reply.body));
    response := if built.Some? then built.value else [];
  }

  // ----- C and Rust

  /** The reply the Rust server would give, in the same terms. */
  function RustAsReply(max: nat, s: bytes): Reply {
    match RustEcho(max, s)
    case None => Refusal
    case Some(body) => Echoed(body)
  }

  /** An accepted head with chunked framing, and the bytes that follow it. */
  predicate ChunkedHead(s: bytes, lines: seq<bytes>, rest: bytes) {
    HeadOf(s, lines, Accepted(Chunked, rest))
  }

  /** No prefix is a message, nor are the bytes complete chunks and then a fault. */
  ghost predicate Unfinished(limits: Limits, s: bytes) {
    && (forall m, after :: IsMessage(limits, m) ==> s != Render(m) + after)
    && (forall chunks, piece :: AllChunks(limits, chunks) && IsFault(limits, piece) ==> s != RenderChunks(chunks) + piece)
  }

  /** The stream ends inside the body of a request framed as chunked. */
  ghost predicate CutInChunkedBody(max: nat, s: bytes) {
    exists lines, rest :: ChunkedHead(s, lines, rest) && Unfinished(Limits(max, false), rest)
  }

  /** The chunked body is complete but for a '+' in front of a size. */
  ghost predicate PlusInChunkedBody(max: nat, s: bytes) {
    exists lines, rest, m, after :: ChunkedHead(s, lines, rest) && PlusReading(max, rest, m, after)
  }

  predicate PlusReading(max: nat, s: bytes, m: Message, after: bytes) {
    IsMessage(Limits(max, true), m) && s == Render(m) + after && !PlusFree(m)
  }

  lemma UnfinishedIff(limits: Limits, s: bytes)
    ensures Run(ChunkedStep, ChunkedInit(limits), s).status.Incomplete? <==> Unfinished(limits, s)
  {
    hide ChunkedStep, IsMessage, AllChunks, IsFault;
    var parts := [s];
    assert Concat(parts) == s;
    SegmentationIndependence(ChunkedStep, ChunkedInit(limits), parts);
    CompleteIffMessage(limits, parts);
    InvalidIffFault(limits, parts);
  }

  /** The two servers give the same reply on exactly the streams that contain a whole head, are
      not cut off inside a chunked body, and use no '+' in a chunk size. */
  lemma CAgreesWithRustIff(max: nat, s: bytes)
    ensures CReply(max, s) == RustAsReply(max, s)
       <==> Find(CRLFCRLF, s).Some? && !CutInChunkedBody(max, s) && !PlusInChunkedBody(max, s)
  {
    hide FindFrom, JudgeHead, ChunkedStep, BodyStep, HeadStep, SelectFraming, HeadOf, Unfinished, PlusReading;
    var a := AcceptHead(s);
    forall lines, rest | ChunkedHead(s, lines, rest) ensures a == Some(Accepted(Chunked, rest)) {
      AcceptHeadIffGrammar(s, Accepted(Chunked, rest));
    }
    if a.Some? && a.value.framing.Chunked? {
      AcceptHeadIffGrammar(s, a.value);
      var lines :| HeadOf(s, lines, a.value);
      assert ChunkedHead(s, lines, a.value.rest);
      UnfinishedIff(Limits(max, false), a.value.rest);
      ChunkedRepliesAgreeIff(max, a.value.rest);
    } else if a.Some? {
      AcceptedFraming(s);
    }
  }

  /** The same for the bytes on the wire, where C also refuses to send a response that would
      reach SIZE_MAX bytes. */
  lemma CBytesAgreeWithRustIff(max: nat, s: bytes)
    ensures ReplyBytes(max, CReply(max, s)) == RustReply(max, s)
       <==> && Find(CRLFCRLF, s).Some? && !CutInChunkedBody(max, s) && !PlusInChunkedBody(max, s)
            && |RustReply(max, s)| < max
  {
    hide RustEcho, CReply, ResponseBytes, CutInChunkedBody, PlusInChunkedBody, Find;
    CAgreesWithRustIff(max, s);
    var c, r := CReply(max, s), RustAsReply(max, s);
    NothingIsEmpty(BadRequest());
    if r.Echoed? {
      NothingIsEmpty(ImageBmpOk(r.body));
    }
    if c != r && !c.Silent? {
      RepliesDiffer(c, r);
    }
  }

  lemma NothingIsEmpty(r: SimpleResponse)
    ensures ResponseBytes(r) != []
  {
  }

  function ResponseOf(reply: Reply): SimpleResponse
    requires !reply.Silent?
  {
    if reply.Refusal? then BadRequest() else ImageBmpOk(reply.body)
  }

  /** Different replies are different bytes: read back, they differ in content type or body. */
  lemma RepliesDiffer(a: Reply, b: Reply)
    requires !a.Silent? && !b.Silent? && a != b
    ensures ResponseBytes(ResponseOf(a)) != ResponseBytes(ResponseOf(b))
  {
    hide ResponseBytes, ReadMessage, StatusLine, Trim;
    var x, y := ResponseOf(a), ResponseOf(b);
    var max := |x.body| + |y.body|;
    assert Clean(Ascii("OK")) && Clean(Ascii("Bad Request")) && Clean(Ascii("image/bmp")) && Clean(Ascii("text/plain"));
    RustResponseRoundTrip(max, x);
    RustResponseRoundTrip(max, y);
    TypesDiffer();
    assert NormalizeAll(StandardFields(x))[0].value == Trim(x.contentType);
    assert NormalizeAll(StandardFields(y))[0].value == Trim(y.contentType);
  }

  lemma TypesDiffer()
    ensures Trim(Ascii("image/bmp")) != Trim(Ascii("text/plain"))
  {
    var bmp, plain := Ascii("image/bmp"), Ascii("text/plain");
    assert bmp == [] + bmp + [] && plain == [] + plain + [];
    TrimExact([], bmp, []);
    TrimExact([], plain, []);
  }

  /** How C answers where it parts from Rust: nothing without a whole head, an empty 200 for a
      body that is cut off, and a 400 for a '+' size; Rust answers 400, 400, and echoes. */
  lemma CPartsAs(max: nat, s: bytes)
    ensures Find(CRLFCRLF, s).None? ==> CReply(max, s) == Silent && RustAsReply(max, s) == Refusal
    ensures CutInChunkedBody(max, s) ==> CReply(max, s) == Echoed([])
    ensures PlusInChunkedBody(max, s) ==> CReply(max, s) == Refusal && RustAsReply(max, s).Echoed?
  {
    hide FindFrom, Find, JudgeHead, AcceptHead, ChunkedStep, BodyStep, SelectFraming, HeadOf, Unfinished, PlusReading;
    EndedHead(s);
    if CutInChunkedBody(max, s) {
      var lines, rest :| ChunkedHead(s, lines, rest) && Unfinished(Limits(max, false), rest);
      AcceptHeadIffGrammar(s, Accepted(Chunked, rest));
      UnfinishedIff(Limits(max, false), rest);
    }
    if PlusInChunkedBody(max, s) {
      var lines, rest, m, after :| ChunkedHead(s, lines, rest) && PlusReading(max, rest, m, after);
      AcceptHeadIffGrammar(s, Accepted(Chunked, rest));
      PlusIsRefused(max, rest, m, after);
    }
  }

  lemma PlusIsRefused(max: nat, rest: bytes, m: Message, after: bytes)
    requires PlusReading(max, rest, m, after)
    ensures Run(ChunkedStep, ChunkedInit(Limits(max, false)), rest).status.Invalid?
    ensures TakeBody(max, Accepted(Chunked, rest)).Some?
  {
    hide ChunkedStep, IsMessage, PlusFree, ChunkedParserRust.RustStep;
    var parts := [rest];
    assert Concat(parts) == rest;
    SegmentationIndependence(ChunkedStep, ChunkedInit(Limits(max, false)), parts);
    SegmentationIndependence(ChunkedParserRust.RustStep, ChunkedParserRust.RustInit(max), parts);
    ChunkedParserRust.RustDecodesMessage(max, m, after, parts);
    ChunkedParserRust.RustAgreesWithC(max, m, after, parts);
    StrictDecides(max, m, after, parts);
  }

  /** The bytes C writes for each reply, as text. */
  lemma RepliesAsText(sizeMax: nat, body: bytes)
    ensures ReplyBytes(sizeMax, Silent) == []
    ensures sizeMax >= 4096 ==>
      ReplyBytes(sizeMax, Refusal) == REFUSED_LINE + REFUSED_TYPE + REFUSED_LENGTH + CLOSE_TEXT
    ensures var text := ECHO_STATUS + ECHO_TYPE + LengthText(|body|) + CLOSE_TEXT + body;
      ReplyBytes(sizeMax, Echoed(body)) == if |text| < sizeMax then text else []
  {
    hide ResponseBytes, LengthText, ImageBmpOk, BadRequest;
    BadRequestText();
    ImageBmpOkText(body);
  }

  // ----- inputs on which C and Rust part

  /** The field line of the example. */
  function ChunkedLine(): bytes {
    TRANSFER_ENCODING + [COLON] + CHUNKED
  }

  lemma ChunkedLineParses()
    ensures Clean(ChunkedLine()) && ChunkedLine() != []
    ensures ParseField(ChunkedLine()) == Some(Field(TRANSFER_ENCODING, CHUNKED))
  {
    assert IsName(TRANSFER_ENCODING) && LowerAll(TRANSFER_ENCODING) == TRANSFER_ENCODING;
    assert Clean(CHUNKED) && IsTrimmed(CHUNKED);
    PlainLineParses(TRANSFER_ENCODING, CHUNKED);
  }

  lemma PlainLineParses(name: bytes, value: bytes)
    requires IsName(name) && LowerAll(name) == name && Clean(value) && IsTrimmed(value)
    ensures var line := name + [COLON] + value;
      Clean(line) && line != [] && ParseField(line) == Some(Field(name, value))
  {
    var line := name + [COLON] + value;
    assert line == name + [COLON] + [] + value + [];
    ParsesAsSpelled(line, name, [], value, []);
  }

  lemma ChunkedHeadExample(line: bytes, field: Field)
    requires line != [] && Clean(line) && ParseField(line) == Some(field)
    requires SelectFraming([field]) == Chunked
    ensures HeadOf(ECHO_LINE + CRLF + RenderSection([line]), [line], Accepted(Chunked, []))
  {
    hide ParseField, RenderSection, ParseLines, SelectFraming;
    ParseLinesAt([line], [field]);
    var s := ECHO_LINE + CRLF + RenderSection([line]);
    assert s == s + [];
  }

  /** The head of a chunked request, and then end of file: C answers 200, Rust 400. */
  lemma CutExample(max: nat)
    ensures var s := ECHO_LINE + CRLF + RenderSection([ChunkedLine()]);
      CReply(max, s) == Echoed([]) && RustAsReply(max, s) == Refusal
  {
    hide ChunkedLine, RenderSection, HeadOf, AcceptHead, ParseField;
    var s := ECHO_LINE + CRLF + RenderSection([ChunkedLine()]);
    ChunkedLineParses();
    ChunkedFraming();
    ChunkedHeadExample(ChunkedLine(), Field(TRANSFER_ENCODING, CHUNKED));
    AcceptHeadIffGrammar(s, Accepted(Chunked, []));
    EndedHead(s);
  }

  lemma EndedHead(s: bytes)
    ensures AcceptHead(s).Some? ==> Find(CRLFCRLF, s).Some?
  {
  }

  lemma ChunkedFraming()
    ensures SelectFraming([Field(TRANSFER_ENCODING, CHUNKED)]) == Chunked
  {
    var field := Field(TRANSFER_ENCODING, CHUNKED);
    assert |TRANSFER_ENCODING| != |CONTENT_LENGTH| && [field][..0] == [];
    assert Named([field], TRANSFER_ENCODING) == [field] && Named([field], CONTENT_LENGTH) == [];
    assert LowerAll(CHUNKED) == CHUNKED;
  }

  /** A connection closed before any byte: C says nothing, Rust answers 400. */
  lemma SilentExample(max: nat)
    ensures CReply(max, []) == Silent && RustAsReply(max, []) == Refusal
  {
  }

  lemma AcceptedFraming(s: bytes)
    ensures AcceptHead(s).Some? ==> !AcceptHead(s).value.framing.Refused?
  {
  }

  lemma ChunkedRepliesAgreeIff(max: nat, rest: bytes)
    ensures var a := Accepted(Chunked, rest);
      var rust := match TakeBody(max, a) { case None => Refusal case Some(body) => Echoed(body) };
      BodyReply(max, a) == rust
      <==> !Run(ChunkedStep, ChunkedInit(Limits(max, false)), rest).status.Incomplete?
           && !exists m, after :: PlusReading(max, rest, m, after)
  {
    hide ChunkedStep, ChunkedParserRust.RustStep, IsMessage, PlusFree;
    var parts := [rest];
    assert Concat(parts) == rest;
    var strict := Limits(max, false);
    SegmentationIndependence(ChunkedStep, ChunkedInit(strict), parts);
    SegmentationIndependence(ChunkedParserRust.RustStep, ChunkedParserRust.RustInit(max), parts);
    ChunkedParserRust.RustCompleteIffMessage(max, parts);
    CompleteIffMessage(strict, parts);
    if m, after :| IsMessage(Limits(max, true), m) && rest == Render(m) + after {
      ChunkedParserRust.RustDecodesMessage(max, m, after, parts);
      ChunkedParserRust.RustAgreesWithC(max, m, after, parts);
      StrictDecides(max, m, after, parts);
      OneReading(max, m, after);
    } else {
      if m, after :| IsMessage(strict, m) && Concat(parts) == Render(m) + after {
        StrictIsLoose(max, m);
      }
    }
  }

  lemma OneReading(max: nat, m: Message, after: bytes)
    requires IsMessage(Limits(max, true), m)
    ensures PlusFree(m) <==> !exists m', after' :: PlusReading(max, Render(m) + after, m', after')
  {
    hide IsMessage, PlusFree;
    if m', after' :| PlusReading(max, Render(m) + after, m', after') {
      MessageIsUnique(Limits(max, true), m, after, m', after');
    } else if !PlusFree(m) {
      assert PlusReading(max, Render(m) + after, m, after);
    }
  }
}
