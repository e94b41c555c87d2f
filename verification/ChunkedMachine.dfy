/**
 * The C chunked decoder as a machine over whole parser states (c/chunked_parser.c), and the
 * proof that after any stream its state is the one whole-stream decoding predicts.
 */
module ChunkedMachine {
  import opened Bytes
  import opened Streams
  import opened Lines
  import opened Fields
  import opened HeaderMachine
  import opened ChunkedGrammar

  datatype Phase = SizeDigits | SizeLf | Data | DataCr | DataLf | TrailerSection

  datatype ChunkedState = ChunkedState(
    limits: Limits,
    status: Status,
    phase: Phase,
    line: bytes,
    chunkRemaining: nat,
    body: bytes,
    trailers: HeaderState,
    remaining: bytes)

  function Ready(limits: Limits, body: bytes): ChunkedState {
    ChunkedState(limits, Incomplete, SizeDigits, [], 0, body, HEADER_INIT, [])
  }

  function ChunkedInit(limits: Limits): ChunkedState {
    Ready(limits, [])
  }

  function TrailerStep(p: ChunkedState, b: byte): ChunkedState {
    if p.trailers.status.Invalid? then p.(status := Invalid)
    else if p.trailers.status.Complete? then p.(remaining := p.remaining + [b])
    else
      var h := HeaderStep(p.trailers, b);
      p.(trailers := h, status := if h.status.Incomplete? then p.status else h.status)
  }

  /** `chunk_remaining -= 1` on an unsigned size. */
  function Decrement(limits: Limits, n: nat): nat {
    if n == 0 then limits.max else n - 1
  }

  function ChunkedStep(p: ChunkedState, b: byte): ChunkedState {
    if p.status.Invalid? then p
    else if p.status.Complete? then p.(remaining := p.remaining + [b])
    else
      match p.phase
      case SizeDigits =>
        if b == CR then p.(phase := SizeLf)
        else if b == LF then p.(status := Invalid)
        else p.(line := p.line + [b])
      case SizeLf =>
        if b != LF || Size(p.limits, p.line).None? then p.(status := Invalid)
        else
          var n := Size(p.limits, p.line).value;
          p.(line := [], chunkRemaining := n, phase := if n == 0 then TrailerSection else Data)
      case Data =>
        var n := Decrement(p.limits, p.chunkRemaining);
        p.(body := p.body + [b], chunkRemaining := n, phase := if n == 0 then DataCr else Data)
      case DataCr => if b == CR then p.(phase := DataLf) else p.(status := Invalid)
      case DataLf => if b == LF then p.(phase := SizeDigits) else p.(status := Invalid)
      case TrailerSection => TrailerStep(p, b)
  }

  // ----- runs of one phase

  lemma {:induction false} InvalidAbsorbs(p: ChunkedState, s: bytes)
    requires p.status.Invalid?
    ensures Run(ChunkedStep, p, s) == p
  {
    Absorbs(ChunkedStep, p, s);
  }

  lemma {:induction false} LimitsKept(p: ChunkedState, s: bytes)
    ensures Run(ChunkedStep, p, s).limits == p.limits
    decreases |s|
  {
    if s != [] {
      LimitsKept(ChunkedStep(p, s[0]), s[1..]);
    }
  }

  lemma {:induction false} CompleteKeepsRest(p: ChunkedState, s: bytes)
    requires p.status.Complete?
    ensures Run(ChunkedStep, p, s) == p.(remaining := p.remaining + s)
    decreases |s|
  {
    if s == [] {
      assert p.remaining + s == p.remaining;
    } else {
      assert p.remaining + s == p.remaining + [s[0]] + s[1..];
      CompleteKeepsRest(p.(remaining := p.remaining + [s[0]]), s[1..]);
    }
  }

  lemma {:induction false} SizeText(p: ChunkedState, text: bytes)
    requires p.status.Incomplete? && p.phase.SizeDigits? && Clean(text)
    ensures Run(ChunkedStep, p, text) == p.(line := p.line + text)
    decreases |text|
  {
    if text == [] {
      assert p.line + text == p.line;
    } else {
      assert p.line + text == p.line + [text[0]] + text[1..];
      SizeText(p.(line := p.line + [text[0]]), text[1..]);
    }
  }

  lemma SizeLine(limits: Limits, body: bytes, text: bytes, rest: bytes)
    requires Clean(text)
    ensures var p := Ready(limits, body).(line := text);
      Run(ChunkedStep, Ready(limits, body), text + CRLF + rest)
      == Run(ChunkedStep, ChunkedStep(ChunkedStep(p, CR), LF), rest)
  {
    var p := Ready(limits, body);
    RunConcat(ChunkedStep, p, text + CRLF, rest);
    RunConcat(ChunkedStep, p, text, CRLF);
    SizeText(p, text);
    assert [] + text == text;
    RunPair(ChunkedStep, p.(line := text), CR, LF);
  }

  function InData(limits: Limits, body: bytes, n: nat): ChunkedState {
    Ready(limits, body).(chunkRemaining := n, phase := if n == 0 then DataCr else Data)
  }

  lemma {:induction false} DataRun(limits: Limits, body: bytes, n: nat, d: bytes)
    requires |d| <= n
    ensures Run(ChunkedStep, InData(limits, body, n), d) == InData(limits, body + d, n - |d|)
    decreases |d|
  {
    if d == [] {
      assert body + d == body;
    } else {
      assert body + d == body + [d[0]] + d[1..];
      DataRun(limits, body + [d[0]], n - 1, d[1..]);
    }
  }

  lemma {:induction false} TrailerOpen(p: ChunkedState, s: bytes)
    requires p.status.Incomplete? && p.phase.TrailerSection?
    requires Run(HeaderStep, p.trailers, s).status.Incomplete?
    ensures Run(ChunkedStep, p, s) == p.(trailers := Run(HeaderStep, p.trailers, s))
    decreases |s|
  {
    if s != [] {
      var h := HeaderStep(p.trailers, s[0]);
      if !p.trailers.status.Incomplete? {
        HeaderAbsorbs(p.trailers, s);
      }
      if !h.status.Incomplete? {
        HeaderAbsorbs(h, s[1..]);
      }
      TrailerOpen(p.(trailers := h), s[1..]);
    }
  }

  lemma {:induction false} TrailerBad(p: ChunkedState, s: bytes)
    requires p.status.Incomplete? && p.phase.TrailerSection? && p.trailers.status.Incomplete?
    requires Run(HeaderStep, p.trailers, s).status.Invalid?
    ensures Run(ChunkedStep, p, s) == p.(trailers := Run(HeaderStep, p.trailers, s), status := Invalid)
    decreases |s|
  {
    var h := HeaderStep(p.trailers, s[0]);
    if h.status.Incomplete? {
      TrailerBad(p.(trailers := h), s[1..]);
    } else {
      HeaderAbsorbs(h, s[1..]);
      InvalidAbsorbs(p.(trailers := h, status := Invalid), s[1..]);
    }
  }

  lemma TrailerDone(p: ChunkedState, lines: seq<bytes>, fields: seq<Field>, rest: bytes)
    requires p.status.Incomplete? && p.phase.TrailerSection? && p.trailers == HEADER_INIT && p.remaining == []
    requires IsSection(lines, fields)
    ensures Run(ChunkedStep, p, RenderSection(lines) + rest)
         == p.(trailers := HeaderState(Complete, [], false, fields), status := Complete, remaining := rest)
  {
    hide ParseField, ParseLines, ScanLines, Run;
    var open := RenderLines(lines) + [CR];
    assert RenderSection(lines) + rest == open + [LF] + rest;
    SectionEndsOnLastByte(lines, fields);
    TrailerOpen(p, open);
    RunConcat(ChunkedStep, p, open + [LF], rest);
    RunSnoc(ChunkedStep, p, open, LF);
    var done := p.(trailers := HeaderState(Complete, [], false, fields), status := Complete);
    CompleteKeepsRest(done, rest);
    assert [] + rest == rest;
  }

  // ----- the state after a stream

  /** Payload bytes inside an unfinished or faulty piece. */
  function PieceData(limits: Limits, piece: bytes): bytes {
    var line := NextLine(piece);
    if line.Line? && Size(limits, line.text).Some? then
      var n := Size(limits, line.text).value;
      line.rest[..if n < |line.rest| then n else |line.rest|]
    else []
  }

  /** The whole state that an unfinished piece leaves: the piece alone fixes phase, size text,
      countdown, open trailer line and trailer fields. */
  function Partial(limits: Limits, body: bytes, piece: bytes): ChunkedState {
    var line := NextLine(piece);
    var p := Ready(limits, body + PieceData(limits, piece));
    match line
    case Open(text, cr) => p.(line := text, phase := if cr then SizeLf else SizeDigits)
    case Broken(_) => p
    case Line(text, rest) =>
      match Size(limits, text)
      case None => p
      case Some(n) =>
        if n == 0 then p.(phase := TrailerSection, trailers := Run(HeaderStep, HEADER_INIT, rest))
        else if |rest| < n then p.(phase := Data, chunkRemaining := n - |rest|)
        else p.(phase := if |rest| == n then DataCr else DataLf)
  }

  predicate Outcome(p: ChunkedState, limits: Limits, body: bytes, piece: bytes, ending: Ending) {
    && p.limits == limits
    && p.body == body + PieceData(limits, piece)
    && match ending
       case More => p == Partial(limits, body, piece)
       case Bad => p.status.Invalid? && p.remaining == []
       case Done(last, lines, rest) =>
         p.status.Complete? && p.remaining == rest
         && p.trailers == HeaderState(Complete, [], false, ParseLines(lines).fields)
  }

  lemma ChunkRun(limits: Limits, body: bytes, c: Chunk, rest: bytes)
    requires IsChunk(limits, c)
    ensures Run(ChunkedStep, Ready(limits, body), RenderChunk(c) + rest)
         == Run(ChunkedStep, Ready(limits, body + c.data), rest)
  {
    var after := c.data + CRLF + rest;
    assert RenderChunk(c) + rest == c.size + CRLF + after;
    SizeIsClean(limits, c.size);
    SizeLine(limits, body, c.size, after);
    var p := InData(limits, body, |c.data|);
    RunConcat(ChunkedStep, p, c.data + CRLF, rest);
    RunConcat(ChunkedStep, p, c.data, CRLF);
    DataRun(limits, body, |c.data|, c.data);
    RunPair(ChunkedStep, InData(limits, body + c.data, 0), CR, LF);
  }

  lemma OpenSize(limits: Limits, body: bytes, s: bytes)
    requires NextLine(s).Open?
    ensures Run(ChunkedStep, Ready(limits, body), s) == Partial(limits, body, s)
  {
    var line := NextLine(s);
    var p := Ready(limits, body);
    SizeText(p, line.text);
    assert [] + line.text == line.text && body + [] == body;
    if line.cr {
      RunSnoc(ChunkedStep, p, line.text, CR);
    } else {
      assert s == line.text;
    }
  }

  lemma BrokenSize(limits: Limits, body: bytes, s: bytes)
    requires NextLine(s).Broken?
    ensures var p := Run(ChunkedStep, Ready(limits, body), s);
      p.status.Invalid? && p.body == body && p.remaining == [] && p.limits == limits
  {
    var text := NextLine(s).text;
    var k := |text|;
    var p := Ready(limits, body);
    assert s == text + s[k..];
    RunConcat(ChunkedStep, p, text, s[k..]);
    SizeText(p, text);
    assert [] + text == text;
    var p1 := ChunkedStep(p.(line := text), s[k]);
    if s[k] == LF {
      InvalidAbsorbs(p1, s[k..][1..]);
    } else {
      assert s[k..][1..][0] == s[k + 1];
      InvalidAbsorbs(ChunkedStep(p1, s[k + 1]), s[k..][1..][1..]);
    }
  }

  lemma StuckInData(limits: Limits, body: bytes, size: bytes, n: nat, s: bytes)
    requires n > 0 && TakeData(size, n, s).Stuck?
    ensures var e := TakeData(size, n, s).ending;
      var p := Run(ChunkedStep, InData(limits, body, n), s);
      if |s| <= n then e == More && p == InData(limits, body + s, n - |s|)
      else if e.More? then |s| == n + 1 && p == InData(limits, body + s[..n], 0).(phase := DataLf)
      else e.Bad? && p.status.Invalid? && p.body == body + s[..n] && p.remaining == [] && p.limits == limits
  {
    if |s| <= n {
      DataRun(limits, body, n, s);
    } else {
      assert s == s[..n] + s[n..];
      RunConcat(ChunkedStep, InData(limits, body, n), s[..n], s[n..]);
      DataRun(limits, body, n, s[..n]);
      BadDelimiter(limits, body + s[..n], s[n..]);
    }
  }

  lemma BadDelimiter(limits: Limits, body: bytes, s: bytes)
    requires s != [] && (s[0] != CR || |s| == 1 || s[1] != LF)
    ensures var q := Run(ChunkedStep, InData(limits, body, 0), s);
      if s[0] == CR && |s| == 1 then q == InData(limits, body, 0).(phase := DataLf)
      else q.status.Invalid? && q.body == body && q.remaining == [] && q.limits == limits
  {
    var p1 := ChunkedStep(InData(limits, body, 0), s[0]);
    if s[0] != CR {
      InvalidAbsorbs(p1, s[1..]);
    } else if |s| > 1 {
      InvalidAbsorbs(ChunkedStep(p1, s[1]), s[1..][1..]);
    }
  }

  lemma StuckInTrailers(limits: Limits, body: bytes, last: bytes, s: bytes)
    ensures var p := Ready(limits, body).(phase := TrailerSection);
      var q := Run(ChunkedStep, p, s);
      match DecodeTrailers(last, s)
      case More => q == p.(trailers := Run(HeaderStep, HEADER_INIT, s))
      case Bad => q.status.Invalid? && q.body == body && q.remaining == [] && q.limits == limits
      case Done(_, lines, rest) =>
        q == p.(status := Complete, trailers := HeaderState(Complete, [], false, ParseLines(lines).fields),
                remaining := rest)
  {
    hide ScanLines, HeaderStep, ChunkedStep, ParseField;
    var p := Ready(limits, body).(phase := TrailerSection);
    HeaderRefinesSplit([], s);
    match DecodeTrailers(last, s)
    case More => TrailerOpen(p, s);
    case Bad => TrailerBad(p, s);
    case Done(_, lines, rest) =>
      ScanSpells(s);
      assert s == RenderSection(lines) + rest;
      TrailerDone(p, lines, ParseLines(lines).fields, rest);
  }

  lemma StuckOutcome(limits: Limits, body: bytes, s: bytes)
    requires TakeChunk(limits, s).Stuck?
    ensures Outcome(Run(ChunkedStep, Ready(limits, body), s), limits, body, s, TakeChunk(limits, s).ending)
  {
    match NextLine(s)
    case Open(_, _) =>
      OpenSize(limits, body, s);
    case Broken(_) =>
      BrokenSize(limits, body, s);
      assert body + [] == body;
    case Line(text, rest) =>
      SizeLine(limits, body, text, rest);
      var p := ChunkedStep(ChunkedStep(Ready(limits, body).(line := text), CR), LF);
      match Size(limits, text) {
        case None =>
          InvalidAbsorbs(p, rest);
          assert body + [] == body;
        case Some(n) =>
          if n == 0 {
            StuckInTrailers(limits, body, text, rest);
            assert body + [] == body && rest[..0] == [];
          } else {
            StuckInData(limits, body, text, n, rest);
            assert rest[..|rest|] == rest;
          }
      }
  }

  /** After any stream the machine is where whole-stream decoding says. */
  lemma {:induction false} MachineRefinesDecode(limits: Limits, body: bytes, s: bytes)
    ensures var d := Decode(limits, s);
      Outcome(Run(ChunkedStep, Ready(limits, body), s), limits, body + Payload(d.chunks), d.piece, d.ending)
    decreases |s|
  {
    hide TakeChunk, IsChunk, Outcome, ChunkedStep;
    match TakeChunk(limits, s)
    case Stuck(_) =>
      StuckOutcome(limits, body, s);
      assert body + [] == body;
    case Next(c, rest) =>
      ChunkRun(limits, body, c, rest);
      MachineRefinesDecode(limits, body + c.data, rest);
      var tail := Decode(limits, rest);
      RenderCons(c, tail.chunks);
      assert body + (c.data + Payload(tail.chunks)) == body + c.data + Payload(tail.chunks);
  }
}
