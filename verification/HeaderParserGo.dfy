/** go/internal/httprequest/header.go: the header parser, and the line rule Go trailers share. */
module HeaderParserGo {
  import opened Bytes
  import opened Streams
  import opened Fields
  import opened HeaderMachine

  /** addHeader: the scan stops at the colon or at the
      first byte a name cannot hold; the value is trimmed of SP and HTAB. */
  method AddHeader(line: bytes) returns (r: Option<Field>)
    requires line != []
    ensures r == ParseField(line)
  {
    if IsOws(line[0]) {
      return None;
    }
    var separator := -1;
    for index := 0 to |line|
      invariant forall j :: 0 <= j < index ==> IsNameByte(line[j])
      invariant separator == -1
    {
      if line[index] == COLON {
        separator := index;
        break;
      }
      if line[index] <= SP || line[index] == DEL {
        assert index < ColonIndex(line);
        assert line[..ColonIndex(line)][index] == line[index];
        return None;
      }
    }
    if separator <= 0 {
      return None;
    }
    assert separator == ColonIndex(line);
    var name := LowerCopy(line[..separator]);
    r := Some(Field(name, Trim(line[separator + 1..])));
  }

  class HeaderParser {
    var status: Status
    var line: bytes
    var pendingCr: bool
    var headers: seq<Field>

    ghost function Abs(): HeaderState
      reads this
    {
      HeaderState(status, line, pendingCr, headers)
    }

    constructor ()
      ensures Abs() == HEADER_INIT
    {
      status, line, pendingCr, headers := Incomplete, [], false, [];
    }

    method Feed(chunk: bytes) returns (result: Status)
      modifies this
      ensures Abs() == Run(HeaderStep, old(Abs()), chunk) && result == status
    {
      hide Run, ParseField;
      ghost var start := Abs();
      RunNone(HeaderStep, start, chunk);
      if !status.Incomplete? {
        HeaderAbsorbs(start, chunk);
        return status;
      }
      for index := 0 to |chunk|
        invariant status.Incomplete?
        invariant Abs() == Run(HeaderStep, start, chunk[..index])
      {
        var b := chunk[index];
        Consumed(start, chunk, index);
        if pendingCr {
          if b != LF {
            status := Invalid;
            return status;
          }
          pendingCr := false;
          if |line| == 0 {
            status := Complete;
            return status;
          }
          var parsed := AddHeader(line);
          if parsed.None? {
            status := Invalid;
            return status;
          }
          headers := headers + [parsed.value];
          line := [];
          continue;
        }
        if b == CR {
          pendingCr := true;
        } else if b == LF {
          status := Invalid;
          return status;
        } else {
          line := line + [b];
        }
      }
      assert chunk[..|chunk|] == chunk;
      result := status;
    }
  }
}
