/** rust/src/header.rs: the header parser over an owned line. */
module HeaderParserRust {
  import opened Bytes
  import opened Streams
  import opened Fields
  import opened HeaderMachine

  class HeaderParser {
    var status: Status
    var line: bytes
    var pendingCr: bool
    var headers: seq<Field>

    ghost function Abs(): HeaderState
      reads this
    {
      HeaderState(status, line, pendingCr, headers)
    }

    constructor ()
      ensures Abs() == HEADER_INIT
    {
      status, line, pendingCr, headers := Incomplete, [], false, [];
    }

    /** The Rust form: find the colon first, then judge the name in front of it. */
    method AddHeader() returns (ok: bool)
      requires line != []
      modifies this`headers
      ensures ok <==> ParseField(line).Some?
      ensures headers == if ok then old(headers) + [ParseField(line).value] else old(headers)
    {
      if IsOws(line[0]) {
        assert ColonIndex(line) > 0 && line[..ColonIndex(line)][0] == line[0];
        return false;
      }
      var separator := ColonIndex(line);
      if separator == |line| {
        return false;
      }
      if separator == 0 || exists j :: 0 <= j < separator && (line[j] <= SP || line[j] == DEL) {
        assert forall j :: 0 <= j < separator ==> line[..separator][j] == line[j];
        return false;
      }
      assert IsName(line[..separator]);
      var start, end := TrimBounds(line, separator + 1);
      headers := headers + [Field(LowerAll(line[..separator]), line[start..end])];
      ok := true;
    }

    method Feed(chunk: bytes) returns (result: Status)
      modifies this
      ensures Abs() == Run(HeaderStep, old(Abs()), chunk) && result == status
    {
      ghost var start := Abs();
      if !status.Incomplete? {
        HeaderAbsorbs(start, chunk);
        return status;
      }
      var index := 0;
      while index < |chunk|
        invariant 0 <= index <= |chunk|
        invariant status.Incomplete?
        invariant Abs() == Run(HeaderStep, start, chunk[..index])
      {
        var b := chunk[index];
        Consumed(start, chunk, index);
        if pendingCr {
          if b != LF {
            status := Invalid;
            return status;
          }
          pendingCr := false;
          if |line| == 0 {
            status := Complete;
            return status;
          }
          var added := AddHeader();
          if !added {
            status := Invalid;
            return status;
          }
          line := [];
        } else if b == CR {
          pendingCr := true;
        } else if b == LF {
          status := Invalid;
          return status;
        } else {
          line := line + [b];
        }
        index := index + 1;
      }
      assert chunk[..|chunk|] == chunk;
      result := status;
    }
  }
}
