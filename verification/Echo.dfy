/**
 * The one-connection echo request as a function of the byte stream alone, and the grammar of
 * the requests it accepts. The stages each have their own notion of where a part ends; the
 * theorems say that the notions coincide.
 */
module Echo {
  import opened Bytes
  import opened Streams
  import opened Numerals
  import opened Lines
  import opened Fields
  import opened HeaderMachine
  import opened ChunkedGrammar
  import opened ChunkedMachine
  import opened ChunkedTheorems
  import opened ChunkedParserRust
  import opened RequestHead
  import opened RequestLine
  import opened Framing
  import opened Body

  // ----- the stages of read_echo_request, on a whole stream

  /** A head that passed every check: its framing, and the bytes after it. */
  datatype Accepted = Accepted(framing: Framing, rest: bytes)

  /** Cut at CRLFCRLF, re-check with the head machine, re-split at the first CRLF, parse the
      line and the header section, select the framing. None is a refusal. */
  function AcceptHead(s: bytes): Option<Accepted> {
    match Find(CRLFCRLF, s)
    case None => None
    case Some(end) =>
      var head := s[..end + 4];
      if !Run(HeadStep, HEAD_INIT, head).status.Complete? then None
      else JudgeHead(head, s[end + 4..])
  }

  function JudgeHead(head: bytes, rest: bytes): Option<Accepted> {
    match Find(CRLF, head)
    case None => None
    case Some(k) =>
      var h := Run(HeaderStep, HEADER_INIT, head[k + 2..]);
      if !IsEchoLine(head[..k]) || !h.status.Complete? then None
      else
        match SelectFraming(h.fields)
        case Refused => None
        case framing => Some(Accepted(framing, rest))
  }

  /** The body of an accepted request, or None when it is refused or cut off. */
  function TakeBody(max: nat, a: Accepted): Option<bytes> {
    match a.framing
    case Refused => None
    case ByLength(value) =>
      var p := Run(BodyStep, BodyInit(max, Some(value)), a.rest);
      if p.status.Complete? then Some(p.body) else None
    case Chunked =>
      var p := Run(RustStep, RustInit(max), a.rest);
      if p.status.Complete? then Some(p.body) else None
  }

  /** What the Rust server makes of a stream that ends: the body to echo, or None for a 400. */
  function RustEcho(max: nat, s: bytes): Option<bytes> {
    match AcceptHead(s)
    case None => None
    case Some(a) => TakeBody(max, a)
  }

  // ----- when the answer is settled

  /** The parser of the selected framing has decided. */
  predicate BodyDecided(max: nat, a: Accepted) {
    match a.framing
    case Refused => true
    case ByLength(value) => !Run(BodyStep, BodyInit(max, Some(value)), a.rest).status.Incomplete?
    case Chunked => !Run(RustStep, RustInit(max), a.rest).status.Incomplete?
  }

  /** The head has ended, and it is refused or its body is decided. */
  predicate Settled(max: nat, s: bytes) {
    && Find(CRLFCRLF, s).Some?
    && match AcceptHead(s) { case None => true case Some(a) => BodyDecided(max, a) }
  }

  /** The reads to ask for after `seen`: up to the first that settles the answer, else all that
      are coming and the one that meets end of file. */
  function ReadsNeeded(max: nat, seen: bytes, pending: seq<bytes>): nat
    decreases |pending|
  {
    if Settled(max, seen) then 0
    else if pending == [] then 1
    else 1 + ReadsNeeded(max, seen + pending[0], pending[1..])
  }

  /** The same, once the head is accepted. */
  function BodyReads(max: nat, a: Accepted, pending: seq<bytes>): nat
    decreases |pending|
  {
    if BodyDecided(max, a) then 0
    else if pending == [] then 1
    else 1 + BodyReads(max, a.(rest := a.rest + pending[0]), pending[1..])
  }

  /** More bytes after an ended head only add to what follows it. */
  lemma AcceptMore(s: bytes, more: bytes)
    requires Find(CRLFCRLF, s).Some?
    ensures AcceptHead(s + more)
         == match AcceptHead(s) { case None => None case Some(a) => Some(a.(rest := a.rest + more)) }
  {
    hide HeadStep, HeaderStep, FindFrom, SelectFraming;
    FindIsStable(CRLFCRLF, s, more);
    var end := Find(CRLFCRLF, s).value + 4;
    assert (s + more)[..end] == s[..end] && (s + more)[end..] == s[end..] + more;
  }

  lemma {:induction false} BodyReadsNeeded(max: nat, seen: bytes, a: Accepted, pending: seq<bytes>)
    requires AcceptHead(seen) == Some(a)
    ensures ReadsNeeded(max, seen, pending) == BodyReads(max, a, pending)
    decreases |pending|
  {
    assert Find(CRLFCRLF, seen).Some?;
    hide AcceptHead, BodyDecided, Find;
    if !BodyDecided(max, a) && pending != [] {
      AcceptMore(seen, pending[0]);
      BodyReadsNeeded(max, seen + pending[0], a.(rest := a.rest + pending[0]), pending[1..]);
    }
  }

  /** From an ended head on, what is left to read is what the body needs. */
  lemma HeadThenBody(max: nat, seen: bytes, initial: bytes, later: bytes, pending: seq<bytes>)
    requires Find(CRLFCRLF, seen).Some?
    requires AcceptHead(seen + later).Some? ==> AcceptHead(seen + later).value.rest == initial + later
    ensures ReadsNeeded(max, seen, pending)
         == match AcceptHead(seen + later)
            case None => 0
            case Some(a) => BodyReads(max, Accepted(a.framing, initial), pending)
  {
    hide AcceptHead, BodyDecided, Find, BodyReads;
    AcceptMore(seen, later);
    if AcceptHead(seen).Some? {
      var a := AcceptHead(seen).value;
      assert |a.rest| == |initial| && (a.rest + later)[..|initial|] == initial;
      BodyReadsNeeded(max, seen, a, pending);
    }
  }

  /** `ReadsNeeded` is the least number of reads that settle the answer. */
  lemma {:induction false} ReadsNeededIsLeast(max: nat, seen: bytes, pending: seq<bytes>, n: nat)
    requires n <= |pending|
    ensures ReadsNeeded(max, seen, pending) <= n
       <==> exists k :: 0 <= k <= n && Settled(max, seen + Concat(pending[..k]))
    decreases |pending|
  {
    hide Settled;
    assert seen + Concat(pending[..0]) == seen;
    if n > 0 && !Settled(max, seen) {
      var now := seen + pending[0];
      ReadsNeededIsLeast(max, now, pending[1..], n - 1);
      forall k | 0 < k <= n ensures seen + Concat(pending[..k]) == now + Concat(pending[1..][..k - 1]) {
        assert pending[..k][1..] == pending[1..][..k - 1];
      }
      if k :| 0 <= k <= n - 1 && Settled(max, now + Concat(pending[1..][..k])) {
        assert Settled(max, seen + Concat(pending[..k + 1]));
      }
    }
  }

  /** What is settled stays settled: no later byte changes the answer. */
  lemma SettledIsFinal(max: nat, s: bytes, more: bytes)
    requires Settled(max, s)
    ensures Settled(max, s + more) && RustEcho(max, s + more) == RustEcho(max, s)
  {
    hide AcceptHead, BodyStep, RustStep, Find, FindFrom;
    FindIsStable(CRLFCRLF, s, more);
    AcceptMore(s, more);
    if AcceptHead(s).Some? {
      DecidedIsFinal(max, AcceptHead(s).value, more);
    }
  }

  lemma DecidedIsFinal(max: nat, a: Accepted, more: bytes)
    requires BodyDecided(max, a)
    ensures var b := a.(rest := a.rest + more); BodyDecided(max, b) && TakeBody(max, b) == TakeBody(max, a)
  {
    hide BodyStep, RustStep;
    match a.framing
    case Refused =>
    case ByLength(value) =>
      var p := BodyInit(max, Some(value));
      RunConcat(BodyStep, p, a.rest, more);
      SettledKeepsRest(Run(BodyStep, p, a.rest), more);
    case Chunked =>
      RunConcat(RustStep, RustInit(max), a.rest, more);
      RustSettled(Run(RustStep, RustInit(max), a.rest), more);
  }

  // ----- the grammar of requests

  datatype Payload = Plain(data: bytes) | InChunks(message: Message)
  datatype Request = Request(lines: seq<bytes>, payload: Payload)

  predicate IsPayload(limits: Limits, framing: Framing, payload: Payload) {
    match payload
    case Plain(data) => framing.ByLength? && Parse(Decimal, limits.max, framing.value) == Some(|data|)
    case InChunks(m) => framing.Chunked? && IsMessage(limits, m)
  }

  /** Proper header lines that parse, whose fields select the framing the payload has. */
  predicate IsRequest(limits: Limits, r: Request) {
    && ProperLines(r.lines) && ParseLines(r.lines).ok
    && IsPayload(limits, SelectFraming(ParseLines(r.lines).fields), r.payload)
  }

  function RenderPayload(payload: Payload): bytes {
    match payload
    case Plain(data) => data
    case InChunks(m) => Render(m)
  }

  function RenderRequest(r: Request): bytes {
    ECHO_LINE + CRLF + RenderSection(r.lines) + RenderPayload(r.payload)
  }

  function RequestBody(r: Request): bytes {
    match r.payload
    case Plain(data) => data
    case InChunks(m) => ChunkedGrammar.Payload(m.chunks)
  }

  // ----- the head

  lemma JudgedHead(lines: seq<bytes>, rest: bytes)
    requires lines != [] && ProperLines(lines)
    ensures var parsed := ParseLines(lines[1..]);
      var framing := SelectFraming(parsed.fields);
      JudgeHead(RenderSection(lines), rest)
      == if lines[0] == ECHO_LINE && parsed.ok && !framing.Refused? then Some(Accepted(framing, rest)) else None
  {
    hide ParseField, HeaderStep, FindFrom, SelectFraming, ParseLines, IsEchoLine;
    var head := RenderSection(lines);
    HeaderHandOff(head, lines);
    assert head == lines[0] + CRLF + RenderSection(lines[1..]);
    assert head[..|lines[0]|] == lines[0];
    EchoLineIsLiteral(lines[0]);
  }

  /** Heads are accepted exactly by the grammar: the echo line, then header lines that parse and
      name one framing, then the blank line; and `rest` is exactly what follows. */
  lemma AcceptHeadIffGrammar(s: bytes, a: Accepted)
    ensures AcceptHead(s) == Some(a) <==> exists lines :: HeadOf(s, lines, a)
  {
    hide AcceptHead;
    if AcceptHead(s) == Some(a) {
      var lines := AcceptedSpells(s, a);
    }
    if lines :| HeadOf(s, lines, a) {
      AcceptsHead(s, lines, a);
    }
  }

  lemma AcceptedSpells(s: bytes, a: Accepted) returns (lines: seq<bytes>)
    requires AcceptHead(s) == Some(a)
    ensures HeadOf(s, lines, a)
  {
    hide ParseField, HeaderStep, HeadStep, FindFrom, SelectFraming, ParseLines, ScanLines, JudgeHead;
    var end := Find(CRLFCRLF, s).value;
    var head := s[..end + 4];
    CompleteHeadIsLines(s);
    var all := ScanLines(head).lines;
    JudgedHead(all, s[end + 4..]);
    lines := all[1..];
    HeadSpelled(head, all, s[end + 4..]);
    assert s == head + s[end + 4..];
  }

  predicate HeadOf(s: bytes, lines: seq<bytes>, a: Accepted) {
    && ProperLines(lines) && ParseLines(lines).ok
    && a.framing == SelectFraming(ParseLines(lines).fields) && !a.framing.Refused?
    && s == ECHO_LINE + CRLF + RenderSection(lines) + a.rest
  }

  lemma HeadSpelled(head: bytes, lines: seq<bytes>, rest: bytes)
    requires IsHead(head, lines)
    ensures head == lines[0] + CRLF + RenderSection(lines[1..])
  {
  }

  /** Any proper lines behind the echo line, followed by anything, are cut off as one head and
      judged by what they parse to. */
  lemma HeadIsJudged(s: bytes, lines: seq<bytes>, rest: bytes)
    requires ProperLines(lines) && s == ECHO_LINE + CRLF + RenderSection(lines) + rest
    ensures var framing := SelectFraming(ParseLines(lines).fields);
      && Find(CRLFCRLF, s).Some?
      && AcceptHead(s) == if ParseLines(lines).ok && !framing.Refused? then Some(Accepted(framing, rest)) else None
  {
    hide ParseField, HeaderStep, HeadStep, FindFrom, SelectFraming, ParseLines, JudgeHead;
    EchoLineIsLiteral(ECHO_LINE);
    var all := [ECHO_LINE] + lines;
    assert all[1..] == lines;
    var head := RenderSection(all);
    assert head == ECHO_LINE + CRLF + RenderSection(lines);
    assert s == head + rest;
    LinesAreACompleteHead(all, rest);
    assert s[..|head|] == head && s[|head|..] == rest;
    JudgedHead(all, rest);
  }

  lemma AcceptsHead(s: bytes, lines: seq<bytes>, a: Accepted)
    requires HeadOf(s, lines, a)
    ensures AcceptHead(s) == Some(a)
  {
    hide AcceptHead, RenderSection, SelectFraming, ParseLines, Find;
    HeadIsJudged(s, lines, a.rest);
  }

  /** A head that carries two framing fields, of either kind and in any place, is refused. */
  lemma AmbiguousHeadIsRefused(s: bytes, lines: seq<bytes>, rest: bytes, j: nat, k: nat)
    requires ProperLines(lines) && s == ECHO_LINE + CRLF + RenderSection(lines) + rest
    requires ParseLines(lines).ok && j < k < |lines|
    requires IsFramingName(ParseLines(lines).fields[j].name) && IsFramingName(ParseLines(lines).fields[k].name)
    ensures Find(CRLFCRLF, s).Some? && AcceptHead(s) == None
  {
    hide AcceptHead, RenderSection, SelectFraming, Find, IsFramingName, ECHO_LINE;
    AmbiguousIsRefused(ParseLines(lines).fields, j, k);
    HeadIsJudged(s, lines, rest);
  }

  // ----- the body

  /** A body is taken exactly when the rest begins with a payload for the framing. */
  lemma TakeBodyIffPayload(max: nat, a: Accepted, body: bytes)
    requires !a.framing.Refused?
    ensures TakeBody(max, a) == Some(body) <==> exists payload, rest :: PayloadOf(max, a, body, payload, rest)
  {
    if a.framing.ByLength? {
      TakePlain(max, a, body);
    } else {
      TakeChunks(max, a, body);
    }
  }

  predicate PayloadOf(max: nat, a: Accepted, body: bytes, payload: Payload, rest: bytes) {
    && IsPayload(Limits(max, true), a.framing, payload)
    && a.rest == RenderPayload(payload) + rest
    && body == match payload { case Plain(data) => data case InChunks(m) => ChunkedGrammar.Payload(m.chunks) }
  }

  lemma TakePlain(max: nat, a: Accepted, body: bytes)
    requires a.framing.ByLength?
    ensures TakeBody(max, a) == Some(body) <==> exists payload, rest :: PayloadOf(max, a, body, payload, rest)
  {
    BodyCompleteIff(max, a.framing.value, a.rest);
    var n := Parse(Decimal, max, a.framing.value);
    if TakeBody(max, a) == Some(body) {
      assert a.rest == body + a.rest[n.value..];
      assert PayloadOf(max, a, body, Plain(body), a.rest[n.value..]);
    }
    if payload, rest :| PayloadOf(max, a, body, payload, rest) {
      assert a.rest[..|body|] == body;
    }
  }

  lemma TakeChunks(max: nat, a: Accepted, body: bytes)
    requires a.framing.Chunked?
    ensures TakeBody(max, a) == Some(body) <==> exists payload, rest :: PayloadOf(max, a, body, payload, rest)
  {
    hide RustStep;
    var parts := [a.rest];
    assert Concat(parts) == a.rest;
    SegmentationIndependence(RustStep, RustInit(max), parts);
    RustCompleteIffMessage(max, parts);
    if TakeBody(max, a) == Some(body) {
      var m, rest :| IsMessage(Limits(max, true), m) && Concat(parts) == Render(m) + rest;
      RustDecodesMessage(max, m, rest, parts);
      assert PayloadOf(max, a, body, InChunks(m), rest);
    }
    if payload, rest :| PayloadOf(max, a, body, payload, rest) {
      RustDecodesMessage(max, payload.message, rest, parts);
    }
  }

  // ----- the whole request

  /** The headline: the server echoes `body` exactly when the stream begins with a well-formed
      echo request whose body that is. */
  lemma RustEchoIffRequest(max: nat, s: bytes, body: bytes)
    ensures RustEcho(max, s) == Some(body)
       <==> exists r, rest :: EchoesAs(max, s, body, r, rest)
  {
    hide AcceptHead, TakeBody, IsPayload, SelectFraming, ParseLines;
    if RustEcho(max, s) == Some(body) {
      var a := AcceptHead(s).value;
      AcceptHeadIffGrammar(s, a);
      var lines :| HeadOf(s, lines, a);
      TakeBodyIffPayload(max, a, body);
      var payload, rest :| PayloadOf(max, a, body, payload, rest);
      assert s == RenderRequest(Request(lines, payload)) + rest;
      assert EchoesAs(max, s, body, Request(lines, payload), rest);
    }
    if r, rest :| EchoesAs(max, s, body, r, rest) {
      EchoesRequest(max, s, body, r, rest);
    }
  }

  predicate EchoesAs(max: nat, s: bytes, body: bytes, r: Request, rest: bytes) {
    IsRequest(Limits(max, true), r) && s == RenderRequest(r) + rest && RequestBody(r) == body
  }

  lemma EchoesRequest(max: nat, s: bytes, body: bytes, r: Request, rest: bytes)
    requires EchoesAs(max, s, body, r, rest)
    ensures RustEcho(max, s) == Some(body)
  {
    hide AcceptHead, TakeBody, SelectFraming, ParseLines, IsMessage, Parse;
    var a := Accepted(SelectFraming(ParseLines(r.lines).fields), RenderPayload(r.payload) + rest);
    assert s == ECHO_LINE + CRLF + RenderSection(r.lines) + a.rest;
    assert HeadOf(s, r.lines, a);
    AcceptHeadIffGrammar(s, a);
    assert PayloadOf(max, a, body, r.payload, rest);
    TakeBodyIffPayload(max, a, body);
  }

  /** A request followed by anything at all echoes the same body: nothing past the selected
      framing is read into it. */
  lemma TrailingBytesAreIgnored(max: nat, r: Request, rest: bytes)
    requires IsRequest(Limits(max, true), r)
    ensures RustEcho(max, RenderRequest(r) + rest) == Some(RequestBody(r))
  {
    assert EchoesAs(max, RenderRequest(r) + rest, RequestBody(r), r, rest);
    RustEchoIffRequest(max, RenderRequest(r) + rest, RequestBody(r));
  }

  /** A client need not close: the reads that carry a whole request are all that is asked for. */
  lemma AnsweredBeforeEndOfFile(max: nat, reads_: seq<bytes>, n: nat, r: Request, rest: bytes)
    requires n <= |reads_| && IsRequest(Limits(max, true), r)
    requires Concat(reads_[..n]) == RenderRequest(r) + rest
    ensures ReadsNeeded(max, [], reads_) <= n
  {
    hide IsRequest, RenderRequest, AcceptHead, RequestBody;
    var s := Concat(reads_[..n]);
    TrailingBytesAreIgnored(max, r, rest);
    EchoIsSettled(max, s);
    assert [] + s == s;
    ReadsNeededIsLeast(max, [], reads_, n);
  }

  lemma EchoIsSettled(max: nat, s: bytes)
    requires RustEcho(max, s).Some?
    ensures Settled(max, s)
  {
  }

  lemma PayloadIsUnique(limits: Limits, framing: Framing, p1: Payload, rest1: bytes, p2: Payload, rest2: bytes)
    requires IsPayload(limits, framing, p1) && IsPayload(limits, framing, p2)
    requires RenderPayload(p1) + rest1 == RenderPayload(p2) + rest2
    ensures p1 == p2 && rest1 == rest2
  {
    if p1.Plain? {
      var s := p1.data + rest1;
      assert s[..|p1.data|] == p1.data && s[|p1.data|..] == rest1;
      assert s[..|p2.data|] == p2.data && s[|p2.data|..] == rest2;
    } else {
      MessageIsUnique(limits, p1.message, rest1, p2.message, rest2);
    }
  }

  /** No stream can be read as two different requests, or as one request ending at two places. */
  lemma RequestIsUnique(limits: Limits, r1: Request, rest1: bytes, r2: Request, rest2: bytes)
    requires IsRequest(limits, r1) && IsRequest(limits, r2)
    requires RenderRequest(r1) + rest1 == RenderRequest(r2) + rest2
    ensures r1 == r2 && rest1 == rest2
  {
    hide IsPayload, SelectFraming, ParseLines, ScanLines;
    var after1, after2 := RenderPayload(r1.payload) + rest1, RenderPayload(r2.payload) + rest2;
    var s1, s2 := RenderSection(r1.lines) + after1, RenderSection(r2.lines) + after2;
    assert RenderRequest(r1) + rest1 == ECHO_LINE + CRLF + s1;
    assert RenderRequest(r2) + rest2 == ECHO_LINE + CRLF + s2;
    assert (ECHO_LINE + CRLF + s1)[|ECHO_LINE| + 2..] == s1;
    assert (ECHO_LINE + CRLF + s2)[|ECHO_LINE| + 2..] == s2;
    ScanRendered(r1.lines, after1);
    ScanRendered(r2.lines, after2);
    PayloadIsUnique(limits, SelectFraming(ParseLines(r1.lines).fields), r1.payload, rest1, r2.payload, rest2);
  }
}
