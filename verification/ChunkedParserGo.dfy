/**
 * go/internal/httprequest/chunked.go: one line buffer shared by size lines and trailer lines,
 * a pending-CR flag instead of CR phases, trailers parsed inline, and over-delivered bytes
 * sliced off in bulk. It is shown bisimilar to the C machine.
 */
module ChunkedParserGo {
  import opened Bytes
  import opened Streams
  import opened Lines
  import opened Fields
  import opened HeaderMachine
  import opened ChunkedGrammar
  import opened ChunkedMachine
  import opened ChunkedTheorems
  import opened HeaderParserGo

  datatype GoPhase = ChunkSizeLine | ChunkData | ChunkDataCr | ChunkDataLf | ChunkTrailers

  datatype GoState = GoState(
    maxInt: nat,
    status: Status,
    phase: GoPhase,
    line: bytes,
    pendingCr: bool,
    chunkRemain: int,
    body: bytes,
    trailers: seq<Field>,
    remaining: bytes)

  function GoInit(maxInt: nat): GoState {
    GoState(maxInt, Incomplete, ChunkSizeLine, [], false, 0, [], [], [])
  }

  /** finishChunkSize on the shared line; None when it returns false. */
  function FinishChunkSize(p: GoState): Option<GoState> {
    match Size(Limits(p.maxInt, false), p.line)
    case None => None
    case Some(n) =>
      Some(if n == 0 then p.(phase := ChunkTrailers) else p.(chunkRemain := n, phase := ChunkData))
  }

  /** finishTrailer on the shared line. */
  function FinishTrailer(p: GoState): Option<GoState> {
    if p.line == [] then Some(p.(status := Complete))
    else
      match ParseField(p.line)
      case None => None
      case Some(f) => Some(p.(trailers := p.trailers + [f]))
  }

  function ConsumeLineByte(p: GoState, b: byte): GoState {
    if p.pendingCr then
      if b != LF then p.(status := Invalid)
      else
        var q := p.(pendingCr := false);
        match if p.phase.ChunkSizeLine? then FinishChunkSize(q) else FinishTrailer(q)
        case None => q.(status := Invalid)
        case Some(done) => done.(line := [])
    else if b == CR then p.(pendingCr := true)
    else if b == LF then p.(status := Invalid)
    else p.(line := p.line + [b])
  }

  function GoStep(p: GoState, b: byte): GoState {
    if p.status.Invalid? then p
    else if p.status.Complete? then p.(remaining := p.remaining + [b])
    else
      match p.phase
      case ChunkData =>
        p.(body := p.body + [b], chunkRemain := p.chunkRemain - 1,
           phase := if p.chunkRemain - 1 == 0 then ChunkDataCr else ChunkData)
      case ChunkDataCr => if b != CR then p.(status := Invalid) else p.(phase := ChunkDataLf)
      case ChunkDataLf => if b != LF then p.(status := Invalid) else p.(phase := ChunkSizeLine)
      case _ => ConsumeLineByte(p, b)
  }

  lemma {:induction false} GoInvalidAbsorbs(p: GoState, s: bytes)
    requires p.status.Invalid?
    ensures Run(GoStep, p, s) == p
  {
    Absorbs(GoStep, p, s);
  }

  lemma {:induction false} GoCompleteKeepsRest(p: GoState, s: bytes)
    requires p.status.Complete?
    ensures Run(GoStep, p, s) == p.(remaining := p.remaining + s)
    decreases |s|
  {
    if s == [] {
      assert p.remaining + s == p.remaining;
    } else {
      assert p.remaining + s == p.remaining + [s[0]] + s[1..];
      GoCompleteKeepsRest(p.(remaining := p.remaining + [s[0]]), s[1..]);
    }
  }

  // ----- bisimulation with the C machine

  predicate SamePhase(c: ChunkedState, g: GoState) {
    match c.phase
    case SizeDigits => g.phase.ChunkSizeLine? && !g.pendingCr
    case SizeLf => g.phase.ChunkSizeLine? && g.pendingCr
    case Data => g.phase.ChunkData? && !g.pendingCr
    case DataCr => g.phase.ChunkDataCr? && !g.pendingCr
    case DataLf => g.phase.ChunkDataLf? && !g.pendingCr
    case TrailerSection => g.phase.ChunkTrailers? && g.pendingCr == c.trailers.pendingCr
  }

  /** Equal observations; and while open, phases that correspond, one countdown, and the shared
      line standing for the size line or, in the trailers, for the nested parser's line. */
  predicate Similar(c: ChunkedState, g: GoState) {
    && c.limits == Limits(g.maxInt, false)
    && c.status == g.status && c.body == g.body && c.remaining == g.remaining
    && c.trailers.fields == g.trailers
    && (c.status.Incomplete? ==>
          && c.chunkRemaining == g.chunkRemain && (c.phase.Data? <==> c.chunkRemaining > 0)
          && SamePhase(c, g)
          && (if c.phase.TrailerSection?
              then c.trailers.status.Incomplete? && c.line == [] && c.trailers.line == g.line
              else c.trailers == HEADER_INIT && c.line == g.line))
  }

  lemma SimilarInit(max: nat)
    ensures Similar(ChunkedInit(Limits(max, false)), GoInit(max))
  {
  }

  lemma SimilarStep(c: ChunkedState, g: GoState, b: byte)
    requires Similar(c, g)
    ensures Similar(ChunkedStep(c, b), GoStep(g, b))
  {
  }

  lemma {:induction false} SimilarRun(c: ChunkedState, g: GoState, s: bytes)
    requires Similar(c, g)
    ensures Similar(Run(ChunkedStep, c, s), Run(GoStep, g, s))
    decreases |s|
  {
    if s != [] {
      SimilarStep(c, g, s[0]);
      SimilarRun(ChunkedStep(c, s[0]), GoStep(g, s[0]), s[1..]);
    }
  }

  /** With one size bound the C and Go decoders agree after every feed, on every stream. */
  lemma GoAgreesWithC(max: nat, parts: seq<bytes>)
    ensures var c := Fed(Limits(max, false), parts);
      var g := RunParts(GoStep, GoInit(max), parts);
      && g.status == c.status && g.body == c.body
      && g.trailers == c.trailers.fields && g.remaining == c.remaining
  {
    SegmentationIndependence(ChunkedStep, ChunkedInit(Limits(max, false)), parts);
    SegmentationIndependence(GoStep, GoInit(max), parts);
    SimilarInit(max);
    SimilarRun(ChunkedInit(Limits(max, false)), GoInit(max), Concat(parts));
  }

  /** With the bounds the two languages really have, MaxInt below SIZE_MAX: they agree on every
      message except one with a chunk longer than MaxInt, which only C completes. */
  lemma GoWithinItsBound(maxInt: nat, sizeMax: nat, m: Message, rest: bytes, parts: seq<bytes>)
    requires maxInt <= sizeMax && IsMessage(Limits(sizeMax, false), m)
    requires Concat(parts) == Render(m) + rest
    ensures var c := Fed(Limits(sizeMax, false), parts);
      var g := RunParts(GoStep, GoInit(maxInt), parts);
      && (g.status.Complete? <==> FitsBound(maxInt, m))
      && (g.status.Complete? ==>
            g.body == c.body && g.trailers == c.trailers.fields && g.remaining == c.remaining)
  {
    GoAgreesWithC(maxInt, parts);
    BoundMatters(Limits(sizeMax, false), maxInt, m, rest, parts);
  }

  // ----- the parser object

  class ChunkedParser {
    const maxInt: nat
    var status: Status
    var phase: GoPhase
    var line: bytes
    var pendingCr: bool
    var chunkRemain: int
    var body: bytes
    var trailers: seq<Field>
    var remaining: bytes

    ghost function Abs(): GoState
      reads this
    {
      GoState(maxInt, status, phase, line, pendingCr, chunkRemain, body, trailers, remaining)
    }

    constructor (maxInt: nat)
      ensures Abs() == GoInit(maxInt)
    {
      this.maxInt := maxInt;
      status, phase, line, pendingCr := Incomplete, ChunkSizeLine, [], false;
      chunkRemain, body, trailers, remaining := 0, [], [], [];
    }

    method FinishSizeLine() returns (ok: bool)
      modifies this
      ensures ok <==> old(FinishChunkSize(Abs())).Some?
      ensures Abs() == if ok then old(FinishChunkSize(Abs())).value else old(Abs())
    {
      var length := Size(Limits(maxInt, false), line);
      if length.None? {
        return false;
      }
      if length.value == 0 {
        phase := ChunkTrailers;
        return true;
      }
      chunkRemain := length.value;
      phase := ChunkData;
      ok := true;
    }

    method FinishTrailerLine() returns (ok: bool)
      modifies this
      ensures ok <==> old(FinishTrailer(Abs())).Some?
      ensures Abs() == if ok then old(FinishTrailer(Abs())).value else old(Abs())
    {
      if |line| == 0 {
        status := Complete;
        return true;
      }
      var parsed := AddHeader(line);
      if parsed.None? {
        return false;
      }
      trailers := trailers + [parsed.value];
      ok := true;
    }

    /** Returns false when the caller's feed must stop: the parser has become Invalid. */
    method ConsumeLine(b: byte) returns (more: bool)
      requires status.Incomplete? && (phase.ChunkSizeLine? || phase.ChunkTrailers?)
      modifies this
      ensures Abs() == ConsumeLineByte(old(Abs()), b)
      ensures more <==> !status.Invalid?
    {
      if pendingCr {
        if b != LF {
          status := Invalid;
          return false;
        }
        pendingCr := false;
        var finished: bool;
        if phase.ChunkSizeLine? {
          finished := FinishSizeLine();
        } else {
          finished := FinishTrailerLine();
        }
        if !finished {
          status := Invalid;
          return false;
        }
        line := [];
        return true;
      }
      if b == CR {
        pendingCr := true;
      } else if b == LF {
        status := Invalid;
        return false;
      } else {
        line := line + [b];
      }
      more := true;
    }

    /** One byte of an open parser; false when the feed must return at once. */
    method FeedByte(b: byte) returns (more: bool)
      requires status.Incomplete?
      modifies this
      ensures Abs() == GoStep(old(Abs()), b)
      ensures more <==> !status.Invalid?
    {
      more := true;
      match phase {
        case ChunkData =>
          body := body + [b];
          chunkRemain := chunkRemain - 1;
          if chunkRemain == 0 {
            phase := ChunkDataCr;
          }
        case ChunkDataCr =>
          if b != CR {
            status := Invalid;
            return false;
          }
          phase := ChunkDataLf;
        case ChunkDataLf =>
          if b != LF {
            status := Invalid;
            return false;
          }
          phase := ChunkSizeLine;
        case ChunkSizeLine =>
          more := ConsumeLine(b);
        case ChunkTrailers =>
          more := ConsumeLine(b);
      }
    }

    /** Early returns and the bulk slice amount to one step per byte. */
    method Feed(chunk: bytes) returns (result: Status)
      modifies this
      ensures Abs() == Run(GoStep, old(Abs()), chunk) && result == status
    {
      ghost var start := Abs();
      if status.Complete? {
        GoCompleteKeepsRest(start, chunk);
        remaining := remaining + chunk;
        return status;
      }
      if status.Invalid? {
        GoInvalidAbsorbs(start, chunk);
        return status;
      }
      var index := 0;
      while index < |chunk|
        invariant 0 <= index <= |chunk|
        invariant status.Incomplete?
        invariant Abs() == Run(GoStep, start, chunk[..index])
      {
        var more := FeedByte(chunk[index]);
        ghost var rest := chunk[index + 1..];
        assert chunk[..index + 1] == chunk[..index] + [chunk[index]] && chunk == chunk[..index + 1] + rest;
        RunSnoc(GoStep, start, chunk[..index], chunk[index]);
        RunConcat(GoStep, start, chunk[..index + 1], rest);
        if !more {
          GoInvalidAbsorbs(Abs(), rest);
          return status;
        }
        if status.Complete? {
          GoCompleteKeepsRest(Abs(), rest);
          remaining := remaining + chunk[index + 1..];
          return status;
        }
        index := index + 1;
      }
      assert chunk[..|chunk|] == chunk;
      result := status;
    }
  }
}
