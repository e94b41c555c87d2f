/** c/header_parser.c: the header parser over a growable line buffer. */
module HeaderParserC {
  import opened Bytes
  import opened Streams
  import opened Fields
  import opened HeaderMachine
  import opened Buffers

  class HeaderParser {
    const line: ByteBuffer
    var pendingCr: bool
    var status: Status
    var fields: seq<Field>

    ghost predicate Valid()
      reads this, line
    {
      line.Valid()
    }

    ghost function Repr(): set<object>
      reads this, line
    {
      {this, line, line.data}
    }

    ghost function Abs(): HeaderState
      requires Valid()
      reads this, line, line.data
    {
      HeaderState(status, line.Contents(), pendingCr, fields)
    }

    constructor (sizeMax: nat)
      requires sizeMax >= 32
      ensures Valid() && Abs() == HEADER_INIT
      ensures fresh(line) && fresh(line.data) && line.sizeMax == sizeMax
    {
      line := new ByteBuffer(sizeMax, 32);
      pendingCr, status, fields := false, Incomplete, [];
    }

    /** The body of the feed loop: one byte of an open section. */
    method FeedByte(b: byte) returns (ok: bool)
      requires Valid() && status.Incomplete?
      modifies this, line, line.data
      ensures Valid() && (line.data == old(line.data) || fresh(line.data))
      ensures Abs() == if ok then HeaderStep(old(Abs()), b) else old(Abs())
      ensures !ok ==> line.length == line.sizeMax
    {
      hide ParseField;
      ok := true;
      if pendingCr {
        if b != LF {
          status := Invalid;
          return;
        }
        pendingCr := false;
        if line.length == 0 {
          status := Complete;
          return;
        }
        var parsed := ParseHeaderLine(line.Contents());
        if parsed.None? {
          status := Invalid;
          return;
        }
        fields := fields + [parsed.value];
        line.Clear();
      } else if b == CR {
        pendingCr := true;
      } else if b == LF {
        status := Invalid;
      } else {
        ok := line.AppendByte(b);
      }
    }

    /** Returns false (the C -1) only when the line buffer cannot grow by another byte; the
        bytes before that one have been consumed. */
    method Feed(input: bytes) returns (ok: bool)
      requires Valid()
      modifies this, line, line.data
      ensures Valid() && (line.data == old(line.data) || fresh(line.data))
      ensures ok ==> Abs() == Run(HeaderStep, old(Abs()), input)
      ensures !ok ==> line.length == line.sizeMax
      ensures !ok ==> exists k :: 0 <= k < |input| && Abs() == Run(HeaderStep, old(Abs()), input[..k])
    {
      hide Run, HeaderStep;
      ghost var start := Abs();
      RunNone(HeaderStep, start, input);
      if !status.Incomplete? {
        HeaderAbsorbs(start, input);
        return true;
      }
      var index := 0;
      while index < |input|
        invariant 0 <= index <= |input|
        invariant Valid() && (line.data == old(line.data) || fresh(line.data))
        invariant status.Incomplete?
        invariant Abs() == Run(HeaderStep, start, input[..index])
      {
        ok := FeedByte(input[index]);
        if !ok {
          return;
        }
        Consumed(start, input, index);
        if !status.Incomplete? {
          return;
        }
        index := index + 1;
      }
      assert input[..|input|] == input;
      ok := true;
    }
  }
}
