/**
 * The course subset of the chunked transfer coding (RFC 9112, section 7.1): hexadecimal sizes
 * without extensions, chunk data, a zero-size last chunk and a trailer section. First as a
 * grammar of messages, then as a decoder of whole streams; the two determine each other.
 */
module ChunkedGrammar {
  import opened Bytes
  import opened Numerals
  import opened Lines
  import opened Fields
  import opened HeaderMachine

  /** `max` bounds a size; `plus` is set for a decoder whose number parser takes one leading '+'. */
  datatype Limits = Limits(max: nat, plus: bool)

  function Size(limits: Limits, text: bytes): Option<nat> {
    if limits.plus && |text| > 1 && text[0] == PLUS then Parse(Hex, limits.max, text[1..])
    else Parse(Hex, limits.max, text)
  }

  lemma {:induction false} SizeIsClean(limits: Limits, text: bytes)
    requires Size(limits, text).Some?
    ensures Clean(text)
  {
    if limits.plus && |text| > 1 && text[0] == PLUS {
      assert forall k :: 0 < k < |text| ==> text[k] == text[1..][k - 1];
    }
  }

  // ----- the grammar

  datatype Chunk = Chunk(size: bytes, data: bytes)
  datatype Message = Message(chunks: seq<Chunk>, last: bytes, lines: seq<bytes>)

  predicate IsChunk(limits: Limits, c: Chunk) {
    c.data != [] && Size(limits, c.size) == Some(|c.data|)
  }

  predicate AllChunks(limits: Limits, chunks: seq<Chunk>) {
    forall k :: 0 <= k < |chunks| ==> IsChunk(limits, chunks[k])
  }

  predicate IsMessage(limits: Limits, m: Message) {
    && AllChunks(limits, m.chunks)
    && Size(limits, m.last) == Some(0)
    && ProperLines(m.lines) && ParseLines(m.lines).ok
  }

  function RenderChunk(c: Chunk): bytes {
    c.size + CRLF + (c.data + CRLF)
  }

  function RenderChunks(chunks: seq<Chunk>): bytes {
    if chunks == [] then [] else RenderChunk(chunks[0]) + RenderChunks(chunks[1..])
  }

  function RenderEnd(last: bytes, lines: seq<bytes>): bytes {
    last + CRLF + RenderSection(lines)
  }

  function Render(m: Message): bytes {
    RenderChunks(m.chunks) + RenderEnd(m.last, m.lines)
  }

  /** The decoded payload. */
  function Payload(chunks: seq<Chunk>): bytes {
    if chunks == [] then [] else chunks[0].data + Payload(chunks[1..])
  }

  function Trailers(m: Message): seq<Field> {
    ParseLines(m.lines).fields
  }

  // ----- whole-stream decoding

  /** More: not decided yet. Bad: refused for good. Done: a message, and the bytes after it. */
  datatype Ending = More | Bad | Done(last: bytes, lines: seq<bytes>, rest: bytes)

  /** The chunks a stream completes, the piece that follows them, and how that piece ends. */
  datatype Decoded = Decoded(chunks: seq<Chunk>, piece: bytes, ending: Ending)

  function DecodeTrailers(last: bytes, s: bytes): Ending {
    var scan := ScanLines(s);
    if !ParseLines(scan.lines).ok then Bad
    else
      match scan.ending
      case Unfinished(_, _) => More
      case Malformed(_) => Bad
      case Blank(rest) => Done(last, scan.lines, rest)
  }

  datatype Head = Stuck(ending: Ending) | Next(chunk: Chunk, rest: bytes)

  /** One complete chunk off the front of a stream, or why there is none. */
  function TakeChunk(limits: Limits, s: bytes): (h: Head)
    ensures h.Next? ==> IsChunk(limits, h.chunk) && s == RenderChunk(h.chunk) + h.rest
  {
    match NextLine(s)
    case Open(_, _) => Stuck(More)
    case Broken(_) => Stuck(Bad)
    case Line(text, rest) =>
      match Size(limits, text)
      case None => Stuck(Bad)
      case Some(n) =>
        if n == 0 then Stuck(DecodeTrailers(text, rest))
        else TakeData(text, n, rest)
  }

  /** The data of a chunk of size `n` and its CRLF. */
  function TakeData(size: bytes, n: nat, s: bytes): (h: Head)
    requires n > 0
    ensures h.Next? ==> |h.chunk.data| == n && h.chunk.size == size && s == h.chunk.data + CRLF + h.rest
  {
    if |s| <= n then Stuck(More)
    else if s[n] != CR then Stuck(Bad)
    else if |s| == n + 1 then Stuck(More)
    else if s[n + 1] != LF then Stuck(Bad)
    else Next(Chunk(size, s[..n]), s[n + 2..])
  }

  function Decode(limits: Limits, s: bytes): (d: Decoded)
    decreases |s|
  {
    match TakeChunk(limits, s)
    case Stuck(ending) => Decoded([], s, ending)
    case Next(c, rest) =>
      var tail := Decode(limits, rest);
      Decoded([c] + tail.chunks, tail.piece, tail.ending)
  }

  /** Completed chunks are well formed; rendered, and with the piece put back, they spell the
      stream; and the piece on its own is stuck in the same way. */
  lemma {:induction false} DecodeSpells(limits: Limits, s: bytes)
    ensures var d := Decode(limits, s);
      && AllChunks(limits, d.chunks)
      && s == RenderChunks(d.chunks) + d.piece
      && TakeChunk(limits, d.piece) == Stuck(d.ending)
    decreases |s|
  {
    hide TakeChunk, IsChunk;
    match TakeChunk(limits, s)
    case Stuck(_) =>
    case Next(c, rest) =>
      DecodeSpells(limits, rest);
      var tail := Decode(limits, rest);
      RenderCons(c, tail.chunks);
      assert s == RenderChunk(c) + (RenderChunks(tail.chunks) + tail.piece);
  }

  lemma RenderCons(c: Chunk, chunks: seq<Chunk>)
    ensures RenderChunks([c] + chunks) == RenderChunk(c) + RenderChunks(chunks)
    ensures Payload([c] + chunks) == c.data + Payload(chunks)
  {
    assert ([c] + chunks)[1..] == chunks;
  }

  lemma TakeRendered(limits: Limits, c: Chunk, s: bytes)
    requires IsChunk(limits, c)
    ensures TakeChunk(limits, RenderChunk(c) + s) == Next(c, s)
  {
    var rest := c.data + CRLF + s;
    var n := |c.data|;
    assert RenderChunk(c) + s == c.size + CRLF + rest;
    SizeIsClean(limits, c.size);
    NextLineOf(c.size, rest);
    assert rest[n] == CR && rest[n + 1] == LF && rest[..n] == c.data && rest[n + 2..] == s;
  }

  lemma DecodeNext(limits: Limits, s: bytes, c: Chunk, rest: bytes)
    requires TakeChunk(limits, s) == Next(c, rest)
    ensures var tail := Decode(limits, rest);
      Decode(limits, s) == Decoded([c] + tail.chunks, tail.piece, tail.ending)
  {
    hide TakeChunk;
  }

  lemma {:induction false} DecodeChunks(limits: Limits, chunks: seq<Chunk>, s: bytes)
    requires AllChunks(limits, chunks)
    ensures var t := Decode(limits, s);
      Decode(limits, RenderChunks(chunks) + s) == Decoded(chunks + t.chunks, t.piece, t.ending)
    decreases |chunks|
  {
    hide TakeChunk, IsChunk, Decode;
    var t := Decode(limits, s);
    if chunks == [] {
      assert RenderChunks(chunks) + s == s && [] + t.chunks == t.chunks;
    } else {
      var more := RenderChunks(chunks[1..]) + s;
      DecodeChunks(limits, chunks[1..], s);
      TakeRendered(limits, chunks[0], more);
      assert RenderChunks(chunks) + s == RenderChunk(chunks[0]) + more;
      DecodeNext(limits, RenderChunk(chunks[0]) + more, chunks[0], more);
      assert [chunks[0]] + (chunks[1..] + t.chunks) == chunks + t.chunks;
    }
  }

  lemma EndIsDone(limits: Limits, m: Message, rest: bytes)
    requires IsMessage(limits, m)
    ensures TakeChunk(limits, RenderEnd(m.last, m.lines) + rest) == Stuck(Done(m.last, m.lines, rest))
  {
    hide ScanLines, NextLine, Size, ParseField, ParseLines;
    SizeIsClean(limits, m.last);
    var section := RenderSection(m.lines) + rest;
    assert RenderEnd(m.last, m.lines) + rest == m.last + CRLF + section;
    NextLineOf(m.last, section);
    ScanRendered(m.lines, rest);
  }

  /** Completeness: every message, whatever follows it, decodes to itself. */
  lemma DecodeRendered(limits: Limits, m: Message, rest: bytes)
    requires IsMessage(limits, m)
    ensures Decode(limits, Render(m) + rest)
         == Decoded(m.chunks, RenderEnd(m.last, m.lines) + rest, Done(m.last, m.lines, rest))
  {
    hide TakeChunk, IsChunk, Size, ParseLines, RenderEnd;
    var piece := RenderEnd(m.last, m.lines) + rest;
    assert Render(m) + rest == RenderChunks(m.chunks) + piece;
    DecodeChunks(limits, m.chunks, piece);
    EndIsDone(limits, m, rest);
    assert m.chunks + [] == m.chunks;
  }

  lemma DoneIsEnd(limits: Limits, piece: bytes)
    requires TakeChunk(limits, piece).Stuck? && TakeChunk(limits, piece).ending.Done?
    ensures var e := TakeChunk(limits, piece).ending;
      && Size(limits, e.last) == Some(0)
      && ProperLines(e.lines) && ParseLines(e.lines).ok
      && piece == RenderEnd(e.last, e.lines) + e.rest
  {
    hide ScanLines, NextLine, Size, ParseField, ParseLines, Decode;
    var e := TakeChunk(limits, piece).ending;
    var line := NextLine(piece);
    ScanSpells(line.rest);
    assert line.rest == RenderSection(e.lines) + e.rest;
  }

  /** Soundness: a stream decoded to the end is a message followed by the rest. */
  lemma DecodeDone(limits: Limits, s: bytes)
    requires Decode(limits, s).ending.Done?
    ensures var d := Decode(limits, s);
      var m := Message(d.chunks, d.ending.last, d.ending.lines);
      IsMessage(limits, m) && s == Render(m) + d.ending.rest
  {
    hide TakeChunk;
    var d := Decode(limits, s);
    DecodeSpells(limits, s);
    DoneIsEnd(limits, d.piece);
    assert s == RenderChunks(d.chunks) + (RenderEnd(d.ending.last, d.ending.lines) + d.ending.rest);
  }

  /** At most one prefix of a stream is a message, and it is one message only. */
  lemma MessageIsUnique(limits: Limits, m1: Message, rest1: bytes, m2: Message, rest2: bytes)
    requires IsMessage(limits, m1) && IsMessage(limits, m2)
    requires Render(m1) + rest1 == Render(m2) + rest2
    ensures m1 == m2 && rest1 == rest2
  {
    DecodeRendered(limits, m1, rest1);
    DecodeRendered(limits, m2, rest2);
  }

  /** No message is a proper prefix of another. */
  lemma PrefixFree(limits: Limits, m1: Message, m2: Message)
    requires IsMessage(limits, m1) && IsMessage(limits, m2) && Render(m1) <= Render(m2)
    ensures m1 == m2
  {
    var rest := Render(m2)[|Render(m1)|..];
    assert Render(m2) + [] == Render(m1) + rest;
    MessageIsUnique(limits, m1, rest, m2, []);
  }
}
