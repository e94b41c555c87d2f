/**
 * rust/src/chunked.rs: the size is judged at CR, one byte before C and Go judge it, and the
 * number parser also takes one leading '+'.
 */
module ChunkedParserRust {
  import opened Bytes
  import opened Streams
  import opened Lines
  import opened Fields
  import opened HeaderMachine
  import opened ChunkedGrammar
  import opened ChunkedMachine
  import opened ChunkedTheorems
  import HeaderParserRust

  datatype RustState = RustState(
    limits: Limits,
    status: Status,
    phase: Phase,
    sizeLine: bytes,
    chunkRemaining: nat,
    body: bytes,
    trailers: HeaderState,
    remaining: bytes)

  function RustInit(max: nat): RustState {
    RustState(Limits(max, true), Incomplete, SizeDigits, [], 0, [], HEADER_INIT, [])
  }

  /** parse_chunk_size, with its explicit refusal of chunk extensions. */
  function ParseChunkSize(limits: Limits, text: bytes): (r: Option<nat>)
    ensures r == Size(limits, text)
  {
    if text == [] || 59 in text then
      assert 59 in text && |text| > 1 && text[0] == PLUS ==> 59 in text[1..];
      None
    else Size(limits, text)
  }

  function RustOpenStep(p: RustState, b: byte): RustState {
    match p.phase
    case SizeDigits =>
      if b == CR then
        match ParseChunkSize(p.limits, p.sizeLine)
        case Some(n) => p.(chunkRemaining := n, phase := SizeLf)
        case None => p.(status := Invalid)
      else if b == LF then p.(status := Invalid)
      else p.(sizeLine := p.sizeLine + [b])
    case SizeLf =>
      if b != LF then p.(status := Invalid)
      else p.(phase := if p.chunkRemaining == 0 then TrailerSection else Data)
    case Data =>
      var n := Decrement(p.limits, p.chunkRemaining);
      p.(body := p.body + [b], chunkRemaining := n, phase := if n == 0 then DataCr else Data)
    case DataCr => if b == CR then p.(phase := DataLf) else p.(status := Invalid)
    case DataLf => if b == LF then p.(sizeLine := [], phase := SizeDigits) else p.(status := Invalid)
    case TrailerSection =>
      var h := HeaderStep(p.trailers, b);
      p.(trailers := h, status := if h.status.Incomplete? then p.status else h.status)
  }

  function RustStep(p: RustState, b: byte): RustState {
    if p.status.Complete? then p.(remaining := p.remaining + [b])
    else if p.status.Invalid? then p
    else RustOpenStep(p, b)
  }

  // ----- agreement with the C machine under the same limits

  predicate Equal(c: ChunkedState, r: RustState) {
    && c.status == r.status && c.body == r.body && c.remaining == r.remaining && c.trailers == r.trailers
    && (c.status.Incomplete? ==>
          && c.phase == r.phase && c.trailers.status.Incomplete?
          && match c.phase
             case SizeDigits => c.line == r.sizeLine
             case SizeLf => Size(c.limits, c.line) == Some(r.chunkRemaining)
             case TrailerSection => true
             case _ => c.chunkRemaining == r.chunkRemaining && c.line == [])
  }

  /** Rust has refused a size line at its CR; the C machine will refuse it at the next byte. */
  predicate OneByteEarly(c: ChunkedState, r: RustState) {
    && r.status.Invalid? && c.status.Incomplete? && c.phase.SizeLf? && Size(c.limits, c.line).None?
    && c.body == r.body && c.remaining == r.remaining && c.trailers == r.trailers
  }

  predicate Tracks(c: ChunkedState, r: RustState) {
    c.limits == r.limits && (Equal(c, r) || OneByteEarly(c, r))
  }

  lemma TracksStep(c: ChunkedState, r: RustState, b: byte)
    requires Tracks(c, r)
    ensures Tracks(ChunkedStep(c, b), RustStep(r, b))
    ensures OneByteEarly(c, r) ==> ChunkedStep(c, b).status.Invalid?
  {
  }

  lemma {:induction false} TracksRun(c: ChunkedState, r: RustState, s: bytes)
    requires Tracks(c, r)
    ensures Tracks(Run(ChunkedStep, c, s), Run(RustStep, r, s))
    decreases |s|
  {
    if s != [] {
      TracksStep(c, r, s[0]);
      TracksRun(ChunkedStep(c, s[0]), RustStep(r, s[0]), s[1..]);
    }
  }

  function RustFed(max: nat, parts: seq<bytes>): RustState {
    RunParts(RustStep, RustInit(max), parts)
  }

  lemma RustTracksPlus(max: nat, parts: seq<bytes>)
    ensures Tracks(Fed(Limits(max, true), parts), RustFed(max, parts))
  {
    SegmentationIndependence(ChunkedStep, ChunkedInit(Limits(max, true)), parts);
    SegmentationIndependence(RustStep, RustInit(max), parts);
    TracksRun(ChunkedInit(Limits(max, true)), RustInit(max), Concat(parts));
  }

  /** The Rust decoder completes exactly the messages whose sizes may carry a leading '+'. */
  lemma RustCompleteIffMessage(max: nat, parts: seq<bytes>)
    ensures RustFed(max, parts).status.Complete?
       <==> exists m, rest :: IsMessage(Limits(max, true), m) && Concat(parts) == Render(m) + rest
  {
    RustTracksPlus(max, parts);
    CompleteIffMessage(Limits(max, true), parts);
  }

  lemma RustDecodesMessage(max: nat, m: Message, rest: bytes, parts: seq<bytes>)
    requires IsMessage(Limits(max, true), m) && Concat(parts) == Render(m) + rest
    ensures var r := RustFed(max, parts);
      && r.status.Complete? && r.body == Payload(m.chunks)
      && r.trailers.fields == Trailers(m) && r.remaining == rest
  {
    RustTracksPlus(max, parts);
    DecodesMessage(Limits(max, true), m, rest, parts);
  }

  /** On a message Rust accepts, C agrees exactly when no size line carries a '+'. */
  lemma RustAgreesWithC(max: nat, m: Message, rest: bytes, parts: seq<bytes>)
    requires IsMessage(Limits(max, true), m) && Concat(parts) == Render(m) + rest
    ensures var c := Fed(Limits(max, false), parts);
      var r := RustFed(max, parts);
      && (c.status.Complete? <==> PlusFree(m))
      && (c.status.Complete? ==>
            c.body == r.body && c.trailers.fields == r.trailers.fields && c.remaining == r.remaining)
  {
    RustDecodesMessage(max, m, rest, parts);
    DecodesMessage(Limits(max, true), m, rest, parts);
    PlusMatters(Limits(max, true), m, rest, parts);
  }

  /** A stream only Rust completes: the last chunk written "+0". */
  lemma PlusExample(max: nat)
    ensures var s := [PLUS, 48] + CRLF + CRLF;
      RustFed(max, [s]).status.Complete? && Fed(Limits(max, false), [s]).status.Invalid?
  {
    var s := [PLUS, 48] + CRLF + CRLF;
    var m := Message([], [PLUS, 48], []);
    assert [PLUS, 48][1..] == [48] && Numerals.Value(Numerals.Hex, [48]) == 0;
    assert Concat([s]) == s && Render(m) == s && s == Render(m) + [];
    RustDecodesMessage(max, m, [], [s]);
    assert SizeFault(Limits(max, false), s, [PLUS, 48], CRLF + CRLF) by {
      assert !Numerals.IsDigit(Numerals.Hex, [PLUS, 48][0]);
    }
    assert IsFault(Limits(max, false), s);
    var none: seq<Chunk> := [];
    assert AllChunks(Limits(max, false), none) && Concat([s]) == RenderChunks(none) + s;
    InvalidIffFault(Limits(max, false), [s]);
  }

  // ----- in step with C

  function StrictRun(max: nat, s: bytes): ChunkedState {
    Run(ChunkedStep, ChunkedInit(Limits(max, false)), s)
  }

  function LooseRun(max: nat, s: bytes): ChunkedState {
    Run(ChunkedStep, ChunkedInit(Limits(max, true)), s)
  }

  function RustRun(max: nat, s: bytes): RustState {
    Run(RustStep, RustInit(max), s)
  }

  /** Equal observations, but for a bad size that Rust reports one byte earlier. */
  predicate InStep(c: ChunkedState, r: RustState) {
    && c.body == r.body && c.trailers == r.trailers && c.remaining == r.remaining
    && (c.status == r.status
        || (r.status.Invalid? && c.status.Incomplete? && c.phase.SizeLf? && Size(c.limits, c.line).None?))
  }

  /** Complete chunks, and then a CRLF-ended size line that is a size because of its '+'. */
  predicate HasPlusLine(max: nat, s: bytes, chunks: seq<Chunk>, text: bytes, tail: bytes) {
    && AllChunks(Limits(max, false), chunks)
    && HasPlus(text) && Size(Limits(max, true), text).Some?
    && s == RenderChunks(chunks) + (text + CRLF + tail)
  }

  ghost predicate SomePlusLine(max: nat, s: bytes) {
    exists chunks, text, tail :: HasPlusLine(max, s, chunks, text, tail)
  }

  /** The byte at which the strict machine refuses what the tolerant one takes. */
  predicate JudgesPlus(p: ChunkedState, b: byte) {
    && p.status.Incomplete? && p.phase.SizeLf? && b == LF
    && HasPlus(p.line) && Size(p.limits.(plus := true), p.line).Some?
  }

  lemma StepWithoutPlus(p: ChunkedState, b: byte)
    requires !p.limits.plus && !JudgesPlus(p, b)
    ensures var loose := p.limits.(plus := true);
      ChunkedStep(p.(limits := loose), b) == ChunkedStep(p, b).(limits := loose)
  {
  }

  lemma SizeLfPiece(limits: Limits, body: bytes, piece: bytes)
    requires Partial(limits, body, piece).phase.SizeLf?
    ensures piece == Partial(limits, body, piece).line + [CR]
  {
  }

  lemma JudgedLine(max: nat, s: bytes, k: nat)
    requires k < |s| && JudgesPlus(StrictRun(max, s[..k]), s[k])
    ensures SomePlusLine(max, s)
  {
    hide ChunkedStep, Partial, AllChunks, Run, Decode, RenderChunks, Size;
    var t, limits := s[..k], Limits(max, false);
    var p, d := StrictRun(max, t), Decode(limits, t);
    SegmentationIndependence(ChunkedStep, ChunkedInit(limits), [t]);
    assert Concat([t]) == t;
    HistoryInvariant(limits, [t]);
    SizeLfPiece(limits, Payload(d.chunks), d.piece);
    LimitsKept(ChunkedInit(limits), t);
    LineThenLf(s, k, RenderChunks(d.chunks), p.line);
    assert HasPlusLine(max, s, d.chunks, p.line, s[k + 1..]);
  }

  lemma LineThenLf(s: bytes, k: nat, before: bytes, line: bytes)
    requires k < |s| && s[k] == LF && s[..k] == before + (line + [CR])
    ensures s == before + (line + CRLF + s[k + 1..])
  {
    assert s == s[..k] + [LF] + s[k + 1..];
  }

  lemma {:induction false} StrictIsEnough(max: nat, s: bytes)
    requires forall k :: 0 <= k < |s| ==> !JudgesPlus(StrictRun(max, s[..k]), s[k])
    ensures LooseRun(max, s) == StrictRun(max, s).(limits := Limits(max, true))
    decreases |s|
  {
    hide ChunkedStep, JudgesPlus;
    if s != [] {
      var t, b := s[..|s| - 1], s[|s| - 1];
      assert s == t + [b];
      forall k | 0 <= k <= |t| ensures t[..k] == s[..k] { }
      assert s[..|t|] == t;
      StrictIsEnough(max, t);
      RunSnoc(ChunkedStep, ChunkedInit(Limits(max, false)), t, b);
      RunSnoc(ChunkedStep, ChunkedInit(Limits(max, true)), t, b);
      LimitsKept(ChunkedInit(Limits(max, false)), t);
      StepWithoutPlus(StrictRun(max, t), b);
    }
  }

  lemma InStepWithoutPlus(max: nat, s: bytes)
    requires !SomePlusLine(max, s)
    ensures InStep(StrictRun(max, s), RustRun(max, s))
  {
    hide ChunkedStep, RustStep, SomePlusLine, JudgesPlus;
    forall k | 0 <= k < |s| ensures !JudgesPlus(StrictRun(max, s[..k]), s[k]) {
      if JudgesPlus(StrictRun(max, s[..k]), s[k]) {
        JudgedLine(max, s, k);
        assert false;
      }
    }
    StrictIsEnough(max, s);
    TracksRun(ChunkedInit(Limits(max, true)), RustInit(max), s);
    LimitsKept(ChunkedInit(Limits(max, false)), s);
    var c := StrictRun(max, s);
    if Size(Limits(max, true), c.line).None? {
      StrictRefuses(max, c.line);
    }
  }

  lemma PrefixWithoutPlus(max: nat, s: bytes, k: nat)
    requires k <= |s| && SomePlusLine(max, s[..k])
    ensures SomePlusLine(max, s)
  {
    var chunks, text, tail :| HasPlusLine(max, s[..k], chunks, text, tail);
    assert s == s[..k] + s[k..];
    assert HasPlusLine(max, s, chunks, text, tail + s[k..]);
  }

  /** Right after its line's CRLF a '+' size has been refused by C and taken by Rust. */
  lemma OutOfStepAtPlus(max: nat, chunks: seq<Chunk>, text: bytes)
    requires HasPlusLine(max, RenderChunks(chunks) + (text + CRLF), chunks, text, [])
    ensures var w := RenderChunks(chunks) + (text + CRLF);
      StrictRun(max, w).status.Invalid? && RustRun(max, w).status.Incomplete?
  {
    hide ChunkedStep, RustStep, IsChunk, RenderChunks, Run;
    var strict, loose := Limits(max, false), Limits(max, true);
    var piece := text + CRLF;
    var w := RenderChunks(chunks) + piece;
    assert Concat([w]) == w;
    SegmentationIndependence(ChunkedStep, ChunkedInit(strict), [w]);
    SegmentationIndependence(ChunkedStep, ChunkedInit(loose), [w]);
    SizeIsClean(loose, text);
    assert !Numerals.IsDigit(Numerals.Hex, text[0]);
    assert SizeFault(strict, piece, text, CRLF);
    assert IsFault(strict, piece) && AllChunks(strict, chunks) && Concat([w]) == RenderChunks(chunks) + piece;
    InvalidIffFault(strict, [w]);
    StillOpen(max, chunks, text);
    TracksRun(ChunkedInit(loose), RustInit(max), w);
    OpenIsTracked(LooseRun(max, w), RustRun(max, w));
  }

  lemma OpenIsTracked(c: ChunkedState, r: RustState)
    requires Tracks(c, r) && c.status.Incomplete? && !c.phase.SizeLf?
    ensures r.status.Incomplete?
  {
  }

  lemma JustDeclared(limits: Limits, text: bytes)
    requires Size(limits, text).Some?
    ensures var piece := text + CRLF;
      TakeChunk(limits, piece) == Stuck(More) && !Partial(limits, [], piece).phase.SizeLf?
  {
    SizeIsClean(limits, text);
    assert text + CRLF == text + CRLF + [];
    NextLineOf(text, []);
  }

  lemma StillOpen(max: nat, chunks: seq<Chunk>, text: bytes)
    requires AllChunks(Limits(max, false), chunks) && Size(Limits(max, true), text).Some?
    ensures var p := LooseRun(max, RenderChunks(chunks) + (text + CRLF));
      p.status.Incomplete? && !p.phase.SizeLf?
  {
    hide ChunkedStep, RenderChunks, Size, Run, TakeChunk, Decode;
    var loose := Limits(max, true);
    var piece := text + CRLF;
    var w := RenderChunks(chunks) + piece;
    forall k | 0 <= k < |chunks| ensures IsChunk(loose, chunks[k]) {
      assert IsChunk(Limits(max, false), chunks[k]);
      StrictSize(max, chunks[k].size);
    }
    JustDeclared(loose, text);
    DecodeChunks(loose, chunks, piece);
    StuckDecode(loose, piece);
    assert chunks + [] == chunks && Concat([w]) == w;
    SegmentationIndependence(ChunkedStep, ChunkedInit(loose), [w]);
    FedRefinesDecode(loose, [w]);
    PhaseOfPartial(loose, Payload(chunks), piece);
  }

  lemma StuckDecode(limits: Limits, piece: bytes)
    requires TakeChunk(limits, piece).Stuck?
    ensures Decode(limits, piece) == Decoded([], piece, TakeChunk(limits, piece).ending)
  {
  }

  lemma PhaseOfPartial(limits: Limits, body: bytes, piece: bytes)
    ensures Partial(limits, body, piece).phase == Partial(limits, [], piece).phase
    ensures Partial(limits, body, piece).status.Incomplete?
  {
  }

  /** The decoders are in step after every prefix of a stream if and only if the stream is not
      complete chunks followed by a size line that owes its acceptance to a '+'. */
  lemma RustInStepIff(max: nat, s: bytes)
    ensures (forall k {:trigger s[..k]} :: 0 <= k <= |s| ==> InStep(StrictRun(max, s[..k]), RustRun(max, s[..k])))
       <==> !SomePlusLine(max, s)
  {
    hide StrictRun, RustRun, SomePlusLine;
    if SomePlusLine(max, s) {
      var k := PlusPoint(max, s);
    } else {
      forall k | 0 <= k <= |s| ensures InStep(StrictRun(max, s[..k]), RustRun(max, s[..k])) {
        if SomePlusLine(max, s[..k]) {
          PrefixWithoutPlus(max, s, k);
          assert false;
        }
        InStepWithoutPlus(max, s[..k]);
      }
    }
  }

  lemma PlusPoint(max: nat, s: bytes) returns (k: nat)
    requires SomePlusLine(max, s)
    ensures k <= |s| && !InStep(StrictRun(max, s[..k]), RustRun(max, s[..k]))
  {
    var chunks, text, tail :| HasPlusLine(max, s, chunks, text, tail);
    var w := RenderChunks(chunks) + (text + CRLF);
    assert s == w + tail && w == RenderChunks(chunks) + (text + CRLF + []);
    k := |w|;
    assert s[..k] == w;
    hide ChunkedStep, RustStep;
    OutOfStepAtPlus(max, chunks, text);
  }

  /** The same for any cut into feeds. */
  lemma RustInStepWithC(max: nat, parts: seq<bytes>)
    requires !SomePlusLine(max, Concat(parts))
    ensures InStep(Fed(Limits(max, false), parts), RustFed(max, parts))
  {
    SegmentationIndependence(ChunkedStep, ChunkedInit(Limits(max, false)), parts);
    SegmentationIndependence(RustStep, RustInit(max), parts);
    InStepWithoutPlus(max, Concat(parts));
  }

  lemma {:induction false} RustSettled(p: RustState, s: bytes)
    requires !p.status.Incomplete?
    ensures Run(RustStep, p, s) == if p.status.Complete? then p.(remaining := p.remaining + s) else p
    decreases |s|
  {
    if s == [] {
      assert p.remaining + s == p.remaining;
    } else {
      RustSettled(RustStep(p, s[0]), s[1..]);
      assert p.remaining + s == p.remaining + [s[0]] + s[1..];
    }
  }

  // ----- the parser object

  class ChunkedParser {
    const max: nat
    var status: Status
    var phase: Phase
    var sizeLine: bytes
    var chunkRemaining: nat
    var body: bytes
    const trailers: HeaderParserRust.HeaderParser
    var remaining: bytes

    ghost function Abs(): RustState
      reads this, trailers
    {
      RustState(Limits(max, true), status, phase, sizeLine, chunkRemaining, body, trailers.Abs(), remaining)
    }

    constructor (max: nat)
      ensures Abs() == RustInit(max) && fresh(trailers) && this.max == max
    {
      this.max := max;
      status, phase, sizeLine, chunkRemaining := Incomplete, SizeDigits, [], 0;
      body, remaining := [], [];
      trailers := new HeaderParserRust.HeaderParser();
    }

    method FeedByte(b: byte)
      requires status.Incomplete?
      modifies this, trailers
      ensures Abs() == RustOpenStep(old(Abs()), b)
    {
      match phase {
        case SizeDigits =>
          if b == CR {
            var size := ParseChunkSize(Limits(max, true), sizeLine);
            if size.Some? {
              chunkRemaining := size.value;
              phase := SizeLf;
            } else {
              status := Invalid;
            }
          } else if b == LF {
            status := Invalid;
          } else {
            sizeLine := sizeLine + [b];
          }
        case SizeLf =>
          if b != LF {
            status := Invalid;
          } else if chunkRemaining == 0 {
            phase := TrailerSection;
          } else {
            phase := Data;
          }
        case Data =>
          body := body + [b];
          chunkRemaining := Decrement(Limits(max, true), chunkRemaining);
          if chunkRemaining == 0 {
            phase := DataCr;
          }
        case DataCr =>
          if b == CR {
            phase := DataLf;
          } else {
            status := Invalid;
          }
        case DataLf =>
          if b == LF {
            sizeLine := [];
            phase := SizeDigits;
          } else {
            status := Invalid;
          }
        case TrailerSection =>
          ghost var before := trailers.Abs();
          var state := trailers.Feed([b]);
          RunSnoc(HeaderStep, before, [], b);
          assert [] + [b] == [b];
          if !state.Incomplete? {
            status := state;
          }
      }
    }

    method Feed(chunk: bytes) returns (result: Status)
      modifies this, trailers
      ensures Abs() == Run(RustStep, old(Abs()), chunk) && result == status
    {
      ghost var start := Abs();
      for index := 0 to |chunk|
        invariant Abs() == Run(RustStep, start, chunk[..index])
      {
        assert chunk[..index + 1] == chunk[..index] + [chunk[index]];
        RunSnoc(RustStep, start, chunk[..index], chunk[index]);
        if status.Complete? {
          remaining := remaining + [chunk[index]];
        } else if !status.Invalid? {
          FeedByte(chunk[index]);
        }
      }
      assert chunk[..|chunk|] == chunk;
      result := status;
    }
  }
}
