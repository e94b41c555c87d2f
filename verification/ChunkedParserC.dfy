/** c/chunked_parser.c: three growable buffers, a nested trailer parser, a phase and a countdown. */
module ChunkedParserC {
  import opened Bytes
  import opened Streams
  import opened Numerals
  import opened HeaderMachine
  import opened ChunkedGrammar
  import opened ChunkedMachine
  import opened Buffers
  import opened HeaderParserC

  class ChunkedParser {
    const sizeMax: nat
    const line: ByteBuffer
    const body: ByteBuffer
    const remaining: ByteBuffer
    const trailers: HeaderParser
    var chunkRemaining: nat
    var phase: Phase
    var status: Status

    ghost function Buffers(): set<object> {
      {this, line, body, remaining, trailers, trailers.line}
    }

    ghost function Arrays(): set<object>
      reads line, body, remaining, trailers.line
    {
      {line.data, body.data, remaining.data, trailers.line.data}
    }

    ghost predicate Valid()
      reads this, line, body, remaining, trailers, trailers.line
    {
      && sizeMax >= 32
      && line.Valid() && body.Valid() && remaining.Valid() && trailers.Valid()
      && line.sizeMax == body.sizeMax == remaining.sizeMax == trailers.line.sizeMax == sizeMax
      && line != body && line != remaining && body != remaining
      && trailers.line != line && trailers.line != body && trailers.line != remaining
      && line.data != body.data && line.data != remaining.data && body.data != remaining.data
      && trailers.line.data != line.data && trailers.line.data != body.data && trailers.line.data != remaining.data
    }

    ghost function Abs(): ChunkedState
      requires Valid()
      reads this, line, body, remaining, trailers, trailers.line
      reads line.data, body.data, remaining.data, trailers.line.data
    {
      ChunkedState(Limits(sizeMax, false), status, phase, line.Contents(), chunkRemaining,
                   body.Contents(), trailers.Abs(), remaining.Contents())
    }

    lemma StatusOfAbs()
      requires Valid()
      ensures Abs().status == status
    {
    }

    constructor (sizeMax: nat)
      requires sizeMax >= 32
      ensures Valid() && Abs() == ChunkedInit(Limits(sizeMax, false))
      ensures fresh(Buffers() - {this}) && fresh(Arrays())
    {
      this.sizeMax := sizeMax;
      line := new ByteBuffer(sizeMax, 32);
      body := new ByteBuffer(sizeMax, 32);
      remaining := new ByteBuffer(sizeMax, 32);
      trailers := new HeaderParser(sizeMax);
      chunkRemaining, phase, status := 0, SizeDigits, Incomplete;
    }

    ghost predicate Full()
      reads line, body, remaining, trailers.line
    {
      || line.length == sizeMax || body.length == sizeMax
      || remaining.length == sizeMax || trailers.line.length == sizeMax
    }

    /** parse_chunk_size on the size line. */
    method ParseChunkSize() returns (size: Option<nat>)
      requires Valid()
      ensures size == Size(Limits(sizeMax, false), line.Contents())
    {
      size := Accumulate(Hex, sizeMax, line.Contents());
    }

    method FeedTrailerByte(b: byte) returns (ok: bool)
      requires Valid() && status.Incomplete? && phase.TrailerSection?
      modifies Buffers(), Arrays()
      ensures Valid() && fresh(Arrays() - old(Arrays()))
      ensures Abs() == if ok then TrailerStep(old(Abs()), b) else old(Abs())
      ensures !ok ==> Full()
    {
      hide HeaderStep, ByteBuffer.Valid;
      if trailers.status.Invalid? {
        status := Invalid;
        return true;
      }
      if trailers.status.Complete? {
        ok := remaining.AppendByte(b);
        return;
      }
      ghost var before := trailers.Abs();
      var fed := trailers.Feed([b]);
      RunSnoc(HeaderStep, before, [], b);
      assert [] + [b] == [b];
      if !fed {
        return false;
      }
      if trailers.status.Invalid? {
        status := Invalid;
      }
      if trailers.status.Complete? {
        status := Complete;
      }
      ok := true;
    }

    method FeedSizeDigit(b: byte) returns (ok: bool)
      requires Valid() && status.Incomplete? && phase.SizeDigits?
      modifies Buffers(), Arrays()
      ensures Valid() && fresh(Arrays() - old(Arrays()))
      ensures Abs() == if ok then ChunkedStep(old(Abs()), b) else old(Abs())
      ensures !ok ==> Full()
    {
      hide Size, TrailerStep, ByteBuffer.Valid;
      ok := true;
      if b == CR {
        phase := SizeLf;
      } else if b == LF {
        status := Invalid;
      } else {
        ok := line.AppendByte(b);
      }
    }

    method FinishSizeLine(b: byte)
      requires Valid() && status.Incomplete? && phase.SizeLf?
      modifies Buffers(), Arrays()
      ensures Valid() && fresh(Arrays() - old(Arrays()))
      ensures Abs() == ChunkedStep(old(Abs()), b)
    {
      hide Size, TrailerStep, ByteBuffer.Valid;
      var size := ParseChunkSize();
      if b != LF || size.None? {
        status := Invalid;
      } else {
        line.Clear();
        chunkRemaining := size.value;
        phase := if size.value == 0 then TrailerSection else Data;
      }
    }

    method FeedDataByte(b: byte) returns (ok: bool)
      requires Valid() && status.Incomplete? && phase.Data?
      modifies Buffers(), Arrays()
      ensures Valid() && fresh(Arrays() - old(Arrays()))
      ensures Abs() == if ok then ChunkedStep(old(Abs()), b) else old(Abs())
      ensures !ok ==> Full()
    {
      hide Size, TrailerStep, ByteBuffer.Valid;
      ok := body.AppendByte(b);
      if ok {
        chunkRemaining := Decrement(Limits(sizeMax, false), chunkRemaining);
        if chunkRemaining == 0 {
          phase := DataCr;
        }
      }
    }

    /** The body of the feed loop. */
    method FeedByte(b: byte) returns (ok: bool)
      requires Valid()
      modifies Buffers(), Arrays()
      ensures Valid() && fresh(Arrays() - old(Arrays()))
      ensures Abs() == if ok then ChunkedStep(old(Abs()), b) else old(Abs())
      ensures !ok ==> Full()
    {
      ok := true;
      if status.Invalid? {
        return;
      }
      if status.Complete? {
        ok := remaining.AppendByte(b);
        return;
      }
      match phase {
        case SizeDigits =>
          ok := FeedSizeDigit(b);
        case SizeLf =>
          FinishSizeLine(b);
        case Data =>
          ok := FeedDataByte(b);
        case DataCr =>
          if b != CR {
            status := Invalid;
          } else {
            phase := DataLf;
          }
        case DataLf =>
          if b != LF {
            status := Invalid;
          } else {
            phase := SizeDigits;
          }
        case TrailerSection =>
          ok := FeedTrailerByte(b);
      }
    }

    /** Returns false (the C -1) only when a buffer already holds SIZE_MAX bytes; the bytes
        before the one that did not fit have been consumed. */
    method Feed(input: bytes) returns (ok: bool)
      requires Valid()
      modifies Buffers(), Arrays()
      ensures Valid() && fresh(Arrays() - old(Arrays()))
      ensures ok ==> Abs() == Run(ChunkedStep, old(Abs()), input)
      ensures !ok ==> Full()
      ensures !ok ==> exists k :: 0 <= k < |input| && Abs() == Run(ChunkedStep, old(Abs()), input[..k])
    {
      hide ChunkedStep, Run, Valid, Abs;
      ghost var start := Abs();
      RunNone(ChunkedStep, start, input);
      var index := 0;
      while index < |input|
        invariant 0 <= index <= |input|
        invariant Valid() && fresh(Arrays() - old(Arrays()))
        invariant Abs() == Run(ChunkedStep, start, input[..index])
      {
        if status.Invalid? {
          StatusOfAbs();
          assert input == input[..index] + input[index..];
          RunConcat(ChunkedStep, start, input[..index], input[index..]);
          InvalidAbsorbs(Abs(), input[index..]);
          return true;
        }
        ok := FeedByte(input[index]);
        if !ok {
          return;
        }
        assert input[..index + 1] == input[..index] + [input[index]];
        RunSnoc(ChunkedStep, start, input[..index], input[index]);
        index := index + 1;
      }
      assert input[..|input|] == input;
      ok := true;
    }
  }
}
