/** What the chunked decoder accepts, rejects and returns, for every stream and every cut into feeds. */
module ChunkedTheorems {
  import opened Bytes
  import opened Streams
  import opened Numerals
  import opened Lines
  import opened Fields
  import opened HeaderMachine
  import opened ChunkedGrammar
  import opened ChunkedMachine

  /** The decoder after one feed call per part. */
  function Fed(limits: Limits, parts: seq<bytes>): ChunkedState {
    RunParts(ChunkedStep, ChunkedInit(limits), parts)
  }

  lemma FedRefinesDecode(limits: Limits, parts: seq<bytes>)
    ensures var d := Decode(limits, Concat(parts));
      Outcome(Fed(limits, parts), limits, Payload(d.chunks), d.piece, d.ending)
  {
    SegmentationIndependence(ChunkedStep, ChunkedInit(limits), parts);
    MachineRefinesDecode(limits, [], Concat(parts));
    assert [] + Payload(Decode(limits, Concat(parts)).chunks) == Payload(Decode(limits, Concat(parts)).chunks);
  }

  lemma OutcomeStatus(p: ChunkedState, limits: Limits, body: bytes, piece: bytes, ending: ChunkedGrammar.Ending)
    requires Outcome(p, limits, body, piece, ending)
    requires TakeChunk(limits, piece) == Stuck(ending)
    ensures p.status.Complete? <==> ending.Done?
    ensures p.status.Invalid? <==> ending.Bad?
    ensures p.status.Incomplete? <==> ending.More?
    ensures ending.Done? ==>
      && p.body == body
      && p.trailers.fields == ParseLines(ending.lines).fields
      && p.remaining == ending.rest
  {
    if ending.Done? {
      var line := NextLine(piece);
      assert line.rest[..0] == [] && body + [] == body;
    }
  }

  /** Completeness: a message, then anything, however cut, decodes to its payload, its trailer
      fields in normal form, and exactly the bytes that follow it. */
  lemma DecodesMessage(limits: Limits, m: Message, rest: bytes, parts: seq<bytes>)
    requires IsMessage(limits, m) && Concat(parts) == Render(m) + rest
    ensures var p := Fed(limits, parts);
      && p.status.Complete?
      && p.body == Payload(m.chunks)
      && p.trailers.fields == Trailers(m)
      && p.remaining == rest
  {
    FedRefinesDecode(limits, parts);
    DecodeRendered(limits, m, rest);
    DecodeSpells(limits, Concat(parts));
    var d := Decode(limits, Concat(parts));
    OutcomeStatus(Fed(limits, parts), limits, Payload(d.chunks), d.piece, d.ending);
  }

  /** Soundness and completeness: Complete exactly when some prefix of the bytes fed is a message. */
  lemma CompleteIffMessage(limits: Limits, parts: seq<bytes>)
    ensures Fed(limits, parts).status.Complete?
       <==> exists m, rest :: IsMessage(limits, m) && Concat(parts) == Render(m) + rest
  {
    if Fed(limits, parts).status.Complete? {
      var s := Concat(parts);
      var d := Decode(limits, s);
      FedRefinesDecode(limits, parts);
      DecodeSpells(limits, s);
      OutcomeStatus(Fed(limits, parts), limits, Payload(d.chunks), d.piece, d.ending);
      DecodeDone(limits, s);
      assert s == Render(Message(d.chunks, d.ending.last, d.ending.lines)) + d.ending.rest;
    }
    if m, rest :| IsMessage(limits, m) && Concat(parts) == Render(m) + rest {
      DecodesMessage(limits, m, rest, parts);
    }
  }

  // ----- rejection

  /** What cannot follow a clean line text: a bare LF, a bare CR, or a CRLF when the text is refused. */
  predicate BreaksLine(tail: bytes, accepted: bool) {
    && tail != []
    && (tail[0] == LF || (tail[0] == CR && |tail| > 1 && (tail[1] != LF || !accepted)))
  }

  predicate SizeFault(limits: Limits, piece: bytes, text: bytes, tail: bytes) {
    piece == text + tail && Clean(text) && BreaksLine(tail, Size(limits, text).Some?)
  }

  predicate DelimiterFault(limits: Limits, piece: bytes, c: Chunk, tail: bytes) {
    && IsChunk(limits, c) && piece == c.size + CRLF + (c.data + tail)
    && tail != [] && (tail[0] != CR || (|tail| > 1 && tail[1] != LF))
  }

  predicate TrailerFault(limits: Limits, piece: bytes, last: bytes, lines: seq<bytes>, text: bytes, tail: bytes) {
    && piece == last + CRLF + (RenderLines(lines) + (text + tail))
    && Size(limits, last) == Some(0)
    && ProperLines(lines) && ParseLines(lines).ok
    && Clean(text) && BreaksLine(tail, text == [] || ParseField(text).Some?)
  }

  ghost predicate IsFault(limits: Limits, piece: bytes) {
    || (exists text, tail :: SizeFault(limits, piece, text, tail))
    || (exists c, tail :: DelimiterFault(limits, piece, c, tail))
    || (exists last, lines, text, tail :: TrailerFault(limits, piece, last, lines, text, tail))
  }

  lemma BreaksLineBroken(s: bytes)
    requires NextLine(s).Broken?
    ensures var text := NextLine(s).text; s == text + s[|text|..] && forall ok :: BreaksLine(s[|text|..], ok)
  {
    var text := NextLine(s).text;
    if s[|text|] != LF {
      assert s[|text|..][1] == s[|text| + 1];
    }
  }

  lemma BrokenByTail(text: bytes, tail: bytes, accepted: bool)
    requires Clean(text) && BreaksLine(tail, accepted)
    ensures var line := NextLine(text + tail);
      line.Broken? || (line.Line? && line.text == text && !accepted)
  {
    var s := text + tail;
    assert s[|text|] == tail[0];
    assert forall j :: 0 <= j < |text| ==> s[j] == text[j];
    assert FirstBreak(s) == |text|;
    assert s[..|text|] == text;
    if tail[0] == CR {
      assert s[|text| + 1] == tail[1];
    }
  }

  lemma FaultySizeIsBad(limits: Limits, text: bytes, tail: bytes)
    requires SizeFault(limits, text + tail, text, tail)
    ensures TakeChunk(limits, text + tail) == Stuck(Bad)
  {
    BrokenByTail(text, tail, Size(limits, text).Some?);
  }

  lemma FaultyDelimiterIsBad(limits: Limits, piece: bytes, c: Chunk, tail: bytes)
    requires DelimiterFault(limits, piece, c, tail)
    ensures TakeChunk(limits, piece) == Stuck(Bad)
  {
    var rest := c.data + tail;
    SizeIsClean(limits, c.size);
    NextLineOf(c.size, rest);
    assert rest[|c.data|] == tail[0];
    assert |tail| > 1 ==> rest[|c.data| + 1] == tail[1];
  }

  lemma FaultyLine(lines: seq<bytes>, text: bytes, tail: bytes)
    requires ProperLines(lines) && ParseLines(lines).ok
    requires Clean(text) && BreaksLine(tail, text == [] || ParseField(text).Some?)
    ensures DecodeTrailers([], RenderLines(lines) + (text + tail)).Bad?
  {
    hide ScanLines, ParseField;
    var s := text + tail;
    BrokenByTail(text, tail, text == [] || ParseField(text).Some?);
    ScanPrefix(lines, s);
    ScanFirst(s);
    ParseLinesConcat(lines, ScanLines(s).lines);
    assert NextLine(s).Broken? ==> lines + [] == lines;
  }

  lemma ScanFirst(s: bytes)
    ensures NextLine(s).Broken? ==> ScanLines(s) == Scan([], Malformed(s))
    ensures NextLine(s).Line? && NextLine(s).text != [] ==>
      ScanLines(s).lines != [] && ScanLines(s).lines[0] == NextLine(s).text
  {
  }

  lemma {:induction false} ParseLinesConcat(a: seq<bytes>, b: seq<bytes>)
    requires ParseLines(a).ok
    ensures ParseLines(a + b) == Parsed(ParseLines(a).fields + ParseLines(b).fields, ParseLines(b).ok)
    decreases |a|
  {
    hide ParseField, ParseLines;
    if a == [] {
      assert a + b == b;
      ParseLinesAt(a, []);
    } else {
      var f := ParseLines(a).fields[0];
      var rest := a[1..];
      assert a == [a[0]] + rest && a + b == [a[0]] + (rest + b);
      ParseLinesCons(a[0], f, rest);
      ParseLinesConcat(rest, b);
      ParseLinesCons(a[0], f, rest + b);
      assert [f] + (ParseLines(rest).fields + ParseLines(b).fields) == [f] + ParseLines(rest).fields + ParseLines(b).fields;
    }
  }

  lemma FaultyTrailerIsBad(limits: Limits, piece: bytes, last: bytes, lines: seq<bytes>, text: bytes, tail: bytes)
    requires TrailerFault(limits, piece, last, lines, text, tail)
    ensures TakeChunk(limits, piece) == Stuck(Bad)
  {
    SizeIsClean(limits, last);
    NextLineOf(last, RenderLines(lines) + (text + tail));
    FaultyLine(lines, text, tail);
  }

  lemma BadTrailersFault(s: bytes) returns (lines: seq<bytes>, text: bytes, tail: bytes)
    requires DecodeTrailers([], s).Bad?
    ensures s == RenderLines(lines) + (text + tail) && ProperLines(lines) && ParseLines(lines).ok
    ensures Clean(text) && BreaksLine(tail, text == [] || ParseField(text).Some?)
  {
    hide ScanLines, ParseField, NextLine, ParseLines;
    var scan := ScanLines(s);
    ScanSpells(s);
    var parsed := ParseLines(scan.lines);
    if parsed.ok {
      lines, text := scan.lines, NextLine(scan.ending.piece).text;
      tail := scan.ending.piece[|text|..];
      BreaksLineBroken(scan.ending.piece);
    } else {
      var k := |parsed.fields|;
      lines, text := scan.lines[..k], scan.lines[k];
      tail := CRLF + RenderLines(scan.lines[k + 1..]) + Leftover(scan.ending);
      assert scan.lines == lines + scan.lines[k..] && scan.lines[k..][1..] == scan.lines[k + 1..];
      RenderLinesConcat(lines, scan.lines[k..]);
      ParseLinesAt(lines, parsed.fields);
    }
  }

  lemma BadIsFault(limits: Limits, piece: bytes)
    requires TakeChunk(limits, piece) == Stuck(Bad)
    ensures IsFault(limits, piece)
  {
    hide NextLine, Size, ScanLines, ParseField, ParseLines;
    match NextLine(piece)
    case Broken(text) =>
      BreaksLineBroken(piece);
      assert SizeFault(limits, piece, text, piece[|text|..]);
    case Line(text, rest) =>
      if Size(limits, text).None? {
        assert SizeFault(limits, piece, text, CRLF + rest);
      } else if Size(limits, text).value == 0 {
        var lines, bad, tail := BadTrailersFault(rest);
        assert TrailerFault(limits, piece, text, lines, bad, tail);
      } else {
        var n := Size(limits, text).value;
        assert rest == rest[..n] + rest[n..];
        assert |rest| > n + 1 ==> rest[n..][1] == rest[n + 1];
        assert DelimiterFault(limits, piece, Chunk(text, rest[..n]), rest[n..]);
      }
  }

  /** Rejection is exact: Invalid precisely when the bytes fed are complete chunks followed by
      a faulty size line, a faulty data delimiter, or a faulty trailer line. */
  lemma InvalidIffFault(limits: Limits, parts: seq<bytes>)
    ensures Fed(limits, parts).status.Invalid?
       <==> exists chunks, piece :: AllChunks(limits, chunks) && IsFault(limits, piece)
                                    && Concat(parts) == RenderChunks(chunks) + piece
  {
    var s := Concat(parts);
    var d := Decode(limits, s);
    FedRefinesDecode(limits, parts);
    DecodeSpells(limits, s);
    OutcomeStatus(Fed(limits, parts), limits, Payload(d.chunks), d.piece, d.ending);
    if d.ending.Bad? {
      BadIsFault(limits, d.piece);
    }
    if chunks, piece :| AllChunks(limits, chunks) && IsFault(limits, piece) && s == RenderChunks(chunks) + piece {
      FaultIsBad(limits, piece);
      DecodeChunks(limits, chunks, piece);
    }
  }

  lemma FaultIsBad(limits: Limits, piece: bytes)
    requires IsFault(limits, piece)
    ensures TakeChunk(limits, piece) == Stuck(Bad)
  {
    hide TakeChunk;
    if text, tail :| SizeFault(limits, piece, text, tail) {
      FaultySizeIsBad(limits, text, tail);
    } else if c, tail :| DelimiterFault(limits, piece, c, tail) {
      FaultyDelimiterIsBad(limits, piece, c, tail);
    } else {
      var last, lines, text, tail :| TrailerFault(limits, piece, last, lines, text, tail);
      FaultyTrailerIsBad(limits, piece, last, lines, text, tail);
    }
  }

  // ----- history

  function DeclaredSum(limits: Limits, chunks: seq<Chunk>): nat {
    if chunks == [] then 0
    else
      var size := Size(limits, chunks[0].size);
      (if size.Some? then size.value else 0) + DeclaredSum(limits, chunks[1..])
  }

  function DeclaredInPiece(limits: Limits, piece: bytes): nat {
    var line := NextLine(piece);
    if line.Line? && Size(limits, line.text).Some? then Size(limits, line.text).value else 0
  }

  lemma {:induction false} DeclaredIsPayload(limits: Limits, chunks: seq<Chunk>)
    requires AllChunks(limits, chunks)
    ensures DeclaredSum(limits, chunks) == |Payload(chunks)|
    decreases |chunks|
  {
    if chunks != [] {
      DeclaredIsPayload(limits, chunks[1..]);
    }
  }

  /** In every reachable open state: the bytes fed are the finished chunks followed by one
      unfinished piece; that piece fixes the whole state; every byte declared so far is either
      in the body or still owed; the countdown cannot underflow; and the trailer parser is open. */
  lemma HistoryInvariant(limits: Limits, parts: seq<bytes>)
    requires Fed(limits, parts).status.Incomplete?
    ensures var p := Fed(limits, parts);
      var d := Decode(limits, Concat(parts));
      && AllChunks(limits, d.chunks)
      && Concat(parts) == RenderChunks(d.chunks) + d.piece
      && p == Partial(limits, Payload(d.chunks), d.piece)
      && DeclaredSum(limits, d.chunks) + DeclaredInPiece(limits, d.piece) == |p.body| + p.chunkRemaining
      && (p.phase.Data? ==> p.chunkRemaining > 0)
      && (p.phase.TrailerSection? ==> p.trailers.status.Incomplete?)
  {
    var d := Decode(limits, Concat(parts));
    FedRefinesDecode(limits, parts);
    DecodeSpells(limits, Concat(parts));
    OutcomeStatus(Fed(limits, parts), limits, Payload(d.chunks), d.piece, d.ending);
    DeclaredIsPayload(limits, d.chunks);
    PartialShape(limits, Payload(d.chunks), d.piece);
  }

  lemma PartialShape(limits: Limits, body: bytes, piece: bytes)
    requires TakeChunk(limits, piece) == Stuck(More)
    ensures var p := Partial(limits, body, piece);
      && |body| + DeclaredInPiece(limits, piece) == |p.body| + p.chunkRemaining
      && (p.phase.Data? ==> p.chunkRemaining > 0)
      && (p.phase.TrailerSection? ==> p.trailers.status.Incomplete?)
  {
    hide ScanLines, HeaderStep, ParseField;
    var line := NextLine(piece);
    if line.Line? {
      HeaderRefinesSplit([], line.rest);
    }
  }

  // ----- round trip

  function EncodeChunks(pieces: seq<bytes>): (r: seq<Chunk>)
    ensures |r| == |pieces|
    ensures forall k :: 0 <= k < |r| ==> r[k] == Chunk(Print(Hex, |pieces[k]|), pieces[k])
  {
    seq(|pieces|, k requires 0 <= k < |pieces| => Chunk(Print(Hex, |pieces[k]|), pieces[k]))
  }

  /** The encoder: each piece behind its printed hexadecimal size, then "0" and the trailer lines. */
  function Encode(pieces: seq<bytes>, fields: seq<Field>): Message {
    Message(EncodeChunks(pieces), Print(Hex, 0), PrintFields(fields))
  }

  lemma PrintedSize(limits: Limits, n: nat)
    requires n <= limits.max
    ensures Size(limits, Print(Hex, n)) == Some(n)
  {
    ParsePrint(Hex, limits.max, n);
  }

  lemma {:induction false} EncodedPayload(pieces: seq<bytes>)
    ensures Payload(EncodeChunks(pieces)) == Concat(pieces)
    decreases |pieces|
  {
    if pieces != [] {
      assert EncodeChunks(pieces)[1..] == EncodeChunks(pieces[1..]);
      EncodedPayload(pieces[1..]);
    }
  }

  /** Any cut of a body into non-empty chunks, any printable trailers, any following bytes and
      any cut into feeds: decoding gives back the body, the normalised trailers and those bytes. */
  lemma RoundTrip(limits: Limits, pieces: seq<bytes>, fields: seq<Field>, rest: bytes, parts: seq<bytes>)
    requires forall k :: 0 <= k < |pieces| ==> 0 < |pieces[k]| <= limits.max
    requires forall k :: 0 <= k < |fields| ==> IsPrintable(fields[k])
    requires Concat(parts) == Render(Encode(pieces, fields)) + rest
    ensures var p := Fed(limits, parts);
      && p.status.Complete?
      && p.body == Concat(pieces)
      && p.trailers.fields == NormalizeAll(fields)
      && p.remaining == rest
  {
    var m := Encode(pieces, fields);
    forall k | 0 <= k < |pieces| ensures IsChunk(limits, m.chunks[k]) {
      PrintedSize(limits, |pieces[k]|);
    }
    PrintedSize(limits, 0);
    ParsePrintedFields(fields);
    EncodedPayload(pieces);
    DecodesMessage(limits, m, rest, parts);
  }

  // ----- how the configuration matters

  predicate FitsBound(max: nat, m: Message) {
    forall k :: 0 <= k < |m.chunks| ==> |m.chunks[k].data| <= max
  }

  predicate HasPlus(text: bytes) {
    text != [] && text[0] == PLUS
  }

  predicate PlusFree(m: Message) {
    !HasPlus(m.last) && forall k :: 0 <= k < |m.chunks| ==> !HasPlus(m.chunks[k].size)
  }

  lemma SizeAcrossBounds(limits: Limits, max: nat, text: bytes)
    requires max <= limits.max && Size(limits, text).Some?
    ensures Size(limits.(max := max), text)
         == if Size(limits, text).value <= max then Size(limits, text) else None
  {
  }

  lemma SizeWithoutPlus(limits: Limits, text: bytes)
    requires limits.plus && Size(limits, text).Some?
    ensures Size(limits.(plus := false), text) == if HasPlus(text) then None else Size(limits, text)
  {
  }

  /** Decoders that differ only in their size bound return the same on whatever the smaller one
      completes; and the smaller one completes exactly the messages whose chunks fit its bound. */
  lemma BoundMatters(limits: Limits, max: nat, m: Message, rest: bytes, parts: seq<bytes>)
    requires max <= limits.max && IsMessage(limits, m) && Concat(parts) == Render(m) + rest
    ensures var small := Fed(limits.(max := max), parts);
      && (small.status.Complete? <==> FitsBound(max, m))
      && (small.status.Complete? ==>
            && small.body == Fed(limits, parts).body
            && small.trailers.fields == Fed(limits, parts).trailers.fields
            && small.remaining == Fed(limits, parts).remaining)
  {
    var low := limits.(max := max);
    forall k | 0 <= k < |m.chunks| ensures IsChunk(low, m.chunks[k]) <==> |m.chunks[k].data| <= max {
      assert IsChunk(limits, m.chunks[k]);
      SizeAcrossBounds(limits, max, m.chunks[k].size);
    }
    SizeAcrossBounds(limits, max, m.last);
    assert IsMessage(low, m) <==> FitsBound(max, m);
    DialectsAgree(limits, low, m, rest, parts);
  }

  /** A decoder that tolerates a leading '+' completes a message the strict one refuses exactly
      when one of its size lines has that '+'. */
  lemma PlusMatters(limits: Limits, m: Message, rest: bytes, parts: seq<bytes>)
    requires limits.plus && IsMessage(limits, m) && Concat(parts) == Render(m) + rest
    ensures var strict := Fed(limits.(plus := false), parts);
      && (strict.status.Complete? <==> PlusFree(m))
      && (strict.status.Complete? ==>
            && strict.body == Fed(limits, parts).body
            && strict.trailers.fields == Fed(limits, parts).trailers.fields
            && strict.remaining == Fed(limits, parts).remaining)
  {
    var strict := limits.(plus := false);
    forall k | 0 <= k < |m.chunks| ensures IsChunk(strict, m.chunks[k]) <==> !HasPlus(m.chunks[k].size) {
      assert IsChunk(limits, m.chunks[k]);
      SizeWithoutPlus(limits, m.chunks[k].size);
    }
    SizeWithoutPlus(limits, m.last);
    assert IsMessage(strict, m) <==> PlusFree(m);
    DialectsAgree(limits, strict, m, rest, parts);
  }

  /** `narrow` reads every size it accepts as `wide` does. */
  ghost predicate Narrows(narrow: Limits, wide: Limits) {
    forall text {:trigger Size(narrow, text)} :: Size(narrow, text).Some? ==> Size(wide, text) == Size(narrow, text)
  }

  lemma NarrowMessage(narrow: Limits, wide: Limits, m: Message)
    requires Narrows(narrow, wide) && IsMessage(narrow, m)
    ensures IsMessage(wide, m)
  {
    hide Size;
    forall k | 0 <= k < |m.chunks| ensures IsChunk(wide, m.chunks[k]) {
      assert IsChunk(narrow, m.chunks[k]);
    }
  }

  lemma DialectsAgree(wide: Limits, narrow: Limits, m: Message, rest: bytes, parts: seq<bytes>)
    requires IsMessage(wide, m) && Concat(parts) == Render(m) + rest
    requires Narrows(narrow, wide)
    ensures Fed(narrow, parts).status.Complete? <==> IsMessage(narrow, m)
    ensures IsMessage(narrow, m) ==>
      && Fed(narrow, parts).body == Fed(wide, parts).body
      && Fed(narrow, parts).trailers.fields == Fed(wide, parts).trailers.fields
      && Fed(narrow, parts).remaining == Fed(wide, parts).remaining
  {
    hide Size;
    DecodesMessage(wide, m, rest, parts);
    if IsMessage(narrow, m) {
      DecodesMessage(narrow, m, rest, parts);
    }
    CompleteIffMessage(narrow, parts);
    if Fed(narrow, parts).status.Complete? {
      var m', rest' :| IsMessage(narrow, m') && Concat(parts) == Render(m') + rest';
      NarrowMessage(narrow, wide, m');
      MessageIsUnique(wide, m, rest, m', rest');
    }
  }

  lemma StrictTakes(max: nat, s: bytes)
    ensures var loose, strict := TakeChunk(Limits(max, true), s), TakeChunk(Limits(max, false), s);
      loose != Stuck(More) ==> strict == loose || strict == Stuck(Bad)
  {
    hide ScanLines, ParseLines;
    var line := NextLine(s);
    if line.Line? {
      if Size(Limits(max, true), line.text).Some? {
        SizeWithoutPlus(Limits(max, true), line.text);
      } else {
        StrictRefuses(max, line.text);
      }
    }
  }

  lemma StrictRefuses(max: nat, text: bytes)
    requires Size(Limits(max, true), text).None?
    ensures Size(Limits(max, false), text).None?
  {
  }

  lemma StrictSize(max: nat, text: bytes)
    ensures var strict, loose := Limits(max, false), Limits(max, true);
      Size(strict, text).Some? ==> Size(loose, text) == Size(strict, text)
  {
    if Size(Limits(max, true), text).Some? {
      SizeWithoutPlus(Limits(max, true), text);
    } else {
      StrictRefuses(max, text);
    }
  }

  lemma StrictIsLoose(max: nat, m: Message)
    requires IsMessage(Limits(max, false), m)
    ensures IsMessage(Limits(max, true), m)
  {
    var strict, loose := Limits(max, false), Limits(max, true);
    forall text ensures Size(strict, text).Some? ==> Size(loose, text) == Size(strict, text) {
      StrictSize(max, text);
    }
    NarrowMessage(strict, loose, m);
  }

  lemma {:induction false} StrictDecodes(max: nat, s: bytes)
    requires Decode(Limits(max, true), s).ending.Done?
    ensures !Decode(Limits(max, false), s).ending.More?
    decreases |s|
  {
    hide TakeChunk, IsChunk;
    StrictTakes(max, s);
    var head := TakeChunk(Limits(max, true), s);
    if head.Next? {
      StrictDecodes(max, head.rest);
    }
  }

  /** On a complete message of the tolerant dialect the strict decoder always decides. */
  lemma StrictDecides(max: nat, m: Message, rest: bytes, parts: seq<bytes>)
    requires IsMessage(Limits(max, true), m) && Concat(parts) == Render(m) + rest
    ensures !Fed(Limits(max, false), parts).status.Incomplete?
  {
    var strict := Limits(max, false);
    DecodeRendered(Limits(max, true), m, rest);
    StrictDecodes(max, Concat(parts));
    FedRefinesDecode(strict, parts);
    DecodeSpells(strict, Concat(parts));
    var d := Decode(strict, Concat(parts));
    OutcomeStatus(Fed(strict, parts), strict, Payload(d.chunks), d.piece, d.ending);
  }
}
