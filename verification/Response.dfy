/** Serialised responses, and reading them back with the repository's own parsers. */
module Response {
  import opened Bytes
  import opened Streams
  import opened Numerals
  import opened Lines
  import opened Fields
  import opened HeaderMachine
  import opened RequestHead
  import opened Framing
  import opened Body
  import opened RequestLine

  function StatusLine(code: nat, reason: bytes): bytes {
    Ascii("HTTP/1.1 ") + Print(Decimal, code) + [SP] + reason
  }

  /** First line, header lines, blank line, body. */
  function Assemble(line: bytes, fields: seq<Field>, body: bytes): bytes {
    RenderSection([line] + PrintFields(fields)) + body
  }

  /** What a status line says: version, a decimal code, and the reason, between single spaces. */
  predicate SaysStatus(line: bytes, code: nat, reason: bytes) {
    && FirstSpace(line) == 8 < |line| && line[..8] == Ascii("HTTP/1.1")
    && var rest := line[9..];
       var k := FirstSpace(rest);
       && k < |rest| && Parse(Decimal, code, rest[..k]) == Some(code) && rest[k + 1..] == reason
  }

  lemma SpaceAfter(text: bytes, rest: bytes)
    requires NoSpace(text)
    ensures FirstSpace(text + [SP] + rest) == |text|
    ensures (text + [SP] + rest)[..|text|] == text && (text + [SP] + rest)[|text| + 1..] == rest
  {
    var s := text + [SP] + rest;
    assert s[|text|] == SP && forall j :: 0 <= j < |text| ==> s[j] == text[j];
  }

  lemma StatusLineSays(code: nat, reason: bytes)
    ensures SaysStatus(StatusLine(code, reason), code, reason)
  {
    hide FirstSpace, Parse;
    var version, digits := Ascii("HTTP/1.1"), Print(Decimal, code);
    assert StatusLine(code, reason) == version + [SP] + (digits + [SP] + reason);
    ParsePrint(Decimal, code, code);
    SpaceAfter(version, digits + [SP] + reason);
    SpaceAfter(digits, reason);
  }

  // ----- the reader

  datatype Received = Received(line: bytes, fields: seq<Field>, body: bytes, rest: bytes)

  /** Cut at the first CRLFCRLF, split off the first line, parse the fields. */
  function ReadHead(s: bytes): Option<Received> {
    match Find(CRLFCRLF, s)
    case None => None
    case Some(end) =>
      var head := s[..end + 4];
      match Find(CRLF, head)
      case None => None
      case Some(k) =>
        var h := Run(HeaderStep, HEADER_INIT, head[k + 2..]);
        if h.status.Complete? then Some(Received(head[..k], h.fields, [], s[end + 4..])) else None
  }

  /** Then select the framing and take a Content-Length body. */
  function ReadMessage(max: nat, s: bytes): Option<Received> {
    match ReadHead(s)
    case None => None
    case Some(r) =>
      var framing := SelectFraming(r.fields);
      if !framing.ByLength? then None
      else
        var p := Run(BodyStep, BodyInit(max, Some(framing.value)), r.rest);
        if p.status.Complete? then Some(r.(body := p.body, rest := p.remaining)) else None
  }

  lemma HeadReadsBack(line: bytes, lines: seq<bytes>, fields: seq<Field>, tail: bytes)
    requires line != [] && Clean(line) && IsSection(lines, fields)
    ensures ReadHead(RenderSection([line] + lines) + tail) == Some(Received(line, fields, [], tail))
  {
    hide ScanLines, HeaderStep, FindFrom, ParseLines;
    var all := [line] + lines;
    var head := RenderSection(all);
    var s := head + tail;
    assert all[1..] == lines;
    LinesAreACompleteHead(all, tail);
    assert s[..|head|] == head && s[|head|..] == tail;
    assert IsHead(head, all) && all[0] == line;
    HeaderHandOff(head, all);
    assert head == line + CRLF + RenderSection(lines);
    assert head[..|line|] == line;
  }

  predicate AllPrintable(fields: seq<Field>) {
    forall k :: 0 <= k < |fields| ==> IsPrintable(fields[k])
  }

  /** The head of any assembled message reads back, fields in normal form, and the body follows. */
  lemma AssembledHead(line: bytes, fields: seq<Field>, body: bytes)
    requires line != [] && Clean(line) && AllPrintable(fields)
    ensures ReadHead(Assemble(line, fields, body)) == Some(Received(line, NormalizeAll(fields), [], body))
  {
    hide ParseField, ReadHead;
    ParsePrintedFields(fields);
    HeadReadsBack(line, PrintFields(fields), NormalizeAll(fields), body);
  }

  /** A printed length takes exactly the bytes it counts, when a size can hold it. */
  lemma PrintedLengthTakes(max: nat, body: bytes)
    ensures var p := Run(BodyStep, BodyInit(max, Some(Print(Decimal, |body|))), body);
      && (p.status.Complete? <==> |body| <= max)
      && (p.status.Complete? ==> p.body == body && p.remaining == [])
  {
    hide Print;
    ParsePrint(Decimal, max, |body|);
    BodyCompleteIff(max, Print(Decimal, |body|), body);
    assert body[..|body|] == body;
  }

  /** Any assembled message whose fields declare its body length reads back whole, with the
      fields in normal form and nothing left over; one longer than a size does not read back. */
  lemma AssembledReadsBack(max: nat, line: bytes, fields: seq<Field>, body: bytes)
    requires line != [] && Clean(line) && AllPrintable(fields)
    requires SelectFraming(NormalizeAll(fields)) == ByLength(Print(Decimal, |body|))
    ensures ReadMessage(max, Assemble(line, fields, body))
         == if |body| <= max then Some(Received(line, NormalizeAll(fields), body, [])) else None
  {
    hide Print, ReadHead, SelectFraming, BodyStep, BodyInit;
    AssembledHead(line, fields, body);
    PrintedLengthTakes(max, body);
  }

  lemma StatusLineIsClean(code: nat, reason: bytes)
    requires Clean(reason)
    ensures StatusLine(code, reason) != [] && Clean(StatusLine(code, reason))
  {
    NumberIsPrintable(code);
    var line := StatusLine(code, reason);
    var start := Ascii("HTTP/1.1 ") + Print(Decimal, code) + [SP];
    assert Clean(Ascii("HTTP/1.1 "));
    assert Clean(start);
    assert line == start + reason;
  }

  lemma NumberIsPrintable(n: nat)
    ensures var text := Print(Decimal, n); Clean(text) && Trim(text) == text
  {
    var text := Print(Decimal, n);
    assert IsTrimmed(text) && text == [] + text + [];
    TrimExact([], text, []);
  }

  // ----- Rust

  datatype SimpleResponse = SimpleResponse(code: nat, reason: bytes, contentType: bytes, body: bytes)

  function ImageBmpOk(body: bytes): SimpleResponse {
    SimpleResponse(200, Ascii("OK"), Ascii("image/bmp"), body)
  }

  function BadRequest(): SimpleResponse {
    SimpleResponse(400, Ascii("Bad Request"), Ascii("text/plain"), [])
  }

  /** The format string, which C and Rust share. */
  function ResponseHeader(r: SimpleResponse): bytes {
    Ascii("HTTP/1.1 ") + Print(Decimal, r.code) + [SP] + r.reason + CRLF
    + (Ascii("Content-Type: ") + r.contentType + CRLF)
    + (Ascii("Content-Length: ") + Print(Decimal, |r.body|) + CRLF)
    + (Ascii("Connection: close") + CRLF)
    + CRLF
  }

  /** `Response::bytes`: the header, then the body. */
  function ResponseBytes(r: SimpleResponse): bytes {
    ResponseHeader(r) + r.body
  }

  function StandardFields(r: SimpleResponse): seq<Field> {
    [Field(Ascii("Content-Type"), r.contentType),
     Field(Ascii("Content-Length"), Print(Decimal, |r.body|)),
     Field(Ascii("Connection"), Ascii("close"))]
  }

  lemma RenderThree(lines: seq<bytes>)
    requires |lines| == 3
    ensures RenderLines(lines) == lines[0] + CRLF + (lines[1] + CRLF + (lines[2] + CRLF))
  {
    assert lines[1..][1..][1..] == [];
    assert RenderLines(lines[1..][1..]) == lines[2] + CRLF + [];
    assert RenderLines(lines[1..]) == lines[1] + CRLF + (lines[2] + CRLF);
  }

  lemma RenderFirst(line: bytes, lines: seq<bytes>)
    ensures RenderSection([line] + lines) == line + CRLF + RenderSection(lines)
  {
    assert ([line] + lines)[1..] == lines;
  }

  lemma FormatIsAssembly(r: SimpleResponse)
    ensures ResponseBytes(r) == Assemble(StatusLine(r.code, r.reason), StandardFields(r), r.body)
  {
    hide Print;
    var lines := PrintFields(StandardFields(r));
    var n := Print(Decimal, |r.body|);
    assert lines[0] == Ascii("Content-Type: ") + r.contentType;
    assert lines[1] == Ascii("Content-Length: ") + n;
    assert lines[2] == Ascii("Connection: close");
    hide Ascii, PrintFields;
    RenderThree(lines);
    var line := StatusLine(r.code, r.reason);
    RenderFirst(line, lines);
    assert ResponseBytes(r) == line + CRLF + (lines[0] + CRLF) + (lines[1] + CRLF) + (lines[2] + CRLF) + CRLF + r.body;
    Reassociate(line + CRLF, lines[0] + CRLF, lines[1] + CRLF, lines[2] + CRLF, CRLF, r.body);
  }

  lemma Reassociate(a: bytes, b: bytes, c: bytes, d: bytes, e: bytes, f: bytes)
    ensures a + b + c + d + e + f == a + ((b + (c + d)) + e) + f
  {
    assert a + b + c + d == a + (b + (c + d));
    assert a + (b + (c + d)) + e == a + ((b + (c + d)) + e);
  }

  lemma NameIsPrintable(f: Field, name: string)
    requires IsAscii(name) && name != "" && f.name == Ascii(name) && Clean(f.value)
    requires forall k :: 0 <= k < |name| ==> ' ' < name[k] && name[k] != ':' && name[k] != 127 as char
    ensures IsPrintable(f)
  {
  }

  lemma StandardFraming(r: SimpleResponse)
    ensures SelectFraming(NormalizeAll(StandardFields(r))) == ByLength(Print(Decimal, |r.body|))
  {
    hide Print;
    NumberIsPrintable(|r.body|);
    var fields := NormalizeAll(StandardFields(r));
    assert LowerAll(Ascii("Content-Length")) == CONTENT_LENGTH;
    assert |fields[0].name| == 12 && |fields[2].name| == 10 && |TRANSFER_ENCODING| == 17 && |CONTENT_LENGTH| == 14;
    assert fields[..0] == [] && fields[..3] == fields;
    NamedSnoc(fields, 0, CONTENT_LENGTH);
    NamedSnoc(fields, 1, CONTENT_LENGTH);
    NamedSnoc(fields, 2, CONTENT_LENGTH);
    NamedSnoc(fields, 0, TRANSFER_ENCODING);
    NamedSnoc(fields, 1, TRANSFER_ENCODING);
    NamedSnoc(fields, 2, TRANSFER_ENCODING);
    assert Named(fields[..3], CONTENT_LENGTH) == [fields[1]];
    assert Named(fields[..3], TRANSFER_ENCODING) == [];
  }

  /** Every Rust response whose length the reader can hold reads back: status line, fields,
      exactly its body, nothing left over. */
  lemma RustResponseRoundTrip(max: nat, r: SimpleResponse)
    requires Clean(r.reason) && Clean(r.contentType)
    ensures ReadMessage(max, ResponseBytes(r))
         == if |r.body| <= max
            then Some(Received(StatusLine(r.code, r.reason), NormalizeAll(StandardFields(r)), r.body, []))
            else None
    ensures SaysStatus(StatusLine(r.code, r.reason), r.code, r.reason)
  {
    hide Assemble, ReadMessage, SelectFraming;
    StatusLineSays(r.code, r.reason);
    FormatIsAssembly(r);
    StandardFraming(r);
    StandardPrintable(r);
    StatusLineIsClean(r.code, r.reason);
    AssembledReadsBack(max, StatusLine(r.code, r.reason), StandardFields(r), r.body);
  }

  lemma StandardPrintable(r: SimpleResponse)
    requires Clean(r.contentType)
    ensures AllPrintable(StandardFields(r))
  {
    hide Print, Trim;
    var fields := StandardFields(r);
    NumberIsPrintable(|r.body|);
    NameIsPrintable(fields[0], "Content-Type");
    NameIsPrintable(fields[1], "Content-Length");
    NameIsPrintable(fields[2], "Connection");
  }

  // ----- the two replies as text

  lemma PrintedCodes()
    ensures Print(Decimal, 0) == Ascii("0") && Print(Decimal, 200) == Ascii("200") && Print(Decimal, 400) == Ascii("400")
  {
    assert Print(Decimal, 2) == [50] && Print(Decimal, 20) == [50, 48] && Print(Decimal, 200) == [50, 48, 48];
    assert Print(Decimal, 4) == [52] && Print(Decimal, 40) == [52, 48] && Print(Decimal, 400) == [52, 48, 48];
  }

  function LengthText(n: nat): bytes {
    Ascii("Content-Length: ") + Print(Decimal, n) + CRLF
  }

  lemma HeaderText(r: SimpleResponse, line: bytes, kind: bytes)
    requires line == Ascii("HTTP/1.1 ") + Print(Decimal, r.code) + [SP] + r.reason + CRLF
    requires kind == Ascii("Content-Type: ") + r.contentType + CRLF
    ensures ResponseBytes(r) == line + kind + LengthText(|r.body|) + CLOSE_TEXT + r.body
  {
    hide Print;
    CloseText();
    Regroup(line, kind, LengthText(|r.body|), Ascii("Connection: close") + CRLF);
  }

  lemma Regroup(a: bytes, b: bytes, c: bytes, d: bytes)
    ensures a + b + c + d + CRLF == a + b + c + (d + CRLF)
  {
  }

  const CLOSE_TEXT: bytes := Ascii("Connection: close\r\n\r\n")
  const REFUSED_LINE: bytes := Ascii("HTTP/1.1 400 Bad Request\r\n")
  const REFUSED_TYPE: bytes := Ascii("Content-Type: text/plain\r\n")
  const REFUSED_LENGTH: bytes := Ascii("Content-Length: 0\r\n")
  const ECHO_STATUS: bytes := Ascii("HTTP/1.1 200 OK\r\n")
  const ECHO_TYPE: bytes := Ascii("Content-Type: image/bmp\r\n")

  lemma CloseText()
    ensures CLOSE_TEXT == Ascii("Connection: close") + CRLF + CRLF
  {
  }

  lemma RefusedLine()
    ensures REFUSED_LINE == Ascii("HTTP/1.1 ") + Ascii("400") + [SP] + Ascii("Bad Request") + CRLF
  {
  }

  lemma RefusedTypeAndLength()
    ensures REFUSED_TYPE == Ascii("Content-Type: ") + Ascii("text/plain") + CRLF
    ensures REFUSED_LENGTH == LengthText(0)
  {
    PrintedCodes();
    hide Print;
  }

  lemma EchoLines(r: SimpleResponse)
    requires r.code == 200 && r.reason == Ascii("OK") && r.contentType == Ascii("image/bmp")
    ensures ECHO_STATUS == Ascii("HTTP/1.1 ") + Print(Decimal, r.code) + [SP] + r.reason + CRLF
    ensures ECHO_TYPE == Ascii("Content-Type: ") + r.contentType + CRLF
  {
    hide Print;
    PrintedCodes();
  }

  /** The refusal, byte for byte. */
  lemma BadRequestText()
    ensures ResponseBytes(BadRequest()) == REFUSED_LINE + REFUSED_TYPE + REFUSED_LENGTH + CLOSE_TEXT
  {
    hide Print, ResponseBytes, LengthText, REFUSED_LINE, REFUSED_TYPE, REFUSED_LENGTH, CLOSE_TEXT;
    PrintedCodes();
    RefusedLine();
    RefusedTypeAndLength();
    HeaderText(BadRequest(), REFUSED_LINE, REFUSED_TYPE);
    AppendNothing(REFUSED_LINE + REFUSED_TYPE + REFUSED_LENGTH + CLOSE_TEXT);
  }

  lemma AppendNothing(s: bytes)
    ensures s + [] == s
  {
  }

  /** The echo, byte for byte. */
  lemma ImageBmpOkText(body: bytes)
    ensures ResponseBytes(ImageBmpOk(body)) == ECHO_STATUS + ECHO_TYPE + LengthText(|body|) + CLOSE_TEXT + body
  {
    EchoLines(ImageBmpOk(body));
    hide Print, ResponseBytes, ECHO_STATUS, ECHO_TYPE, CLOSE_TEXT, LengthText;
    HeaderText(ImageBmpOk(body), ECHO_STATUS, ECHO_TYPE);
  }

  /** A received message with this status line, content type and body, and not a byte more. */
  predicate Says(received: Option<Received>, line: bytes, contentType: bytes, body: bytes) {
    && received.Some? && received.value.line == line
    && Field(Ascii("content-type"), contentType) in received.value.fields
    && received.value.body == body && received.value.rest == []
  }

  predicate IsEchoReply(received: Option<Received>, body: bytes) {
    Says(received, Ascii("HTTP/1.1 200 OK"), Ascii("image/bmp"), body)
  }

  predicate IsRefusalReply(received: Option<Received>) {
    Says(received, Ascii("HTTP/1.1 400 Bad Request"), Ascii("text/plain"), [])
  }

  lemma TypeIsRead(r: SimpleResponse)
    requires IsTrimmed(r.contentType)
    ensures Field(Ascii("content-type"), r.contentType) in NormalizeAll(StandardFields(r))
  {
    hide Trim, Print;
    TrimExact([], r.contentType, []);
    assert [] + r.contentType + [] == r.contentType;
    assert LowerAll(Ascii("Content-Type")) == Ascii("content-type");
    assert NormalizeAll(StandardFields(r))[0] == Field(Ascii("content-type"), r.contentType);
  }

  lemma StatusTexts()
    ensures StatusLine(200, Ascii("OK")) == Ascii("HTTP/1.1 200 OK")
    ensures StatusLine(400, Ascii("Bad Request")) == Ascii("HTTP/1.1 400 Bad Request")
  {
    hide Print;
    PrintedCodes();
  }

  /** Both replies, read back. */
  lemma RefusalReadsBack(max: nat)
    ensures IsRefusalReply(ReadMessage(max, ResponseBytes(BadRequest())))
  {
    hide ReadMessage, ResponseBytes, StandardFields, StatusLine, SaysStatus;
    assert Clean(Ascii("Bad Request")) && Clean(Ascii("text/plain")) && IsTrimmed(Ascii("text/plain"));
    StatusTexts();
    RustResponseRoundTrip(max, BadRequest());
    TypeIsRead(BadRequest());
  }

  lemma EchoReadsBack(max: nat, body: bytes)
    requires |body| <= max
    ensures IsEchoReply(ReadMessage(max, ResponseBytes(ImageBmpOk(body))), body)
  {
    hide ReadMessage, ResponseBytes, StandardFields, StatusLine, SaysStatus;
    assert Clean(Ascii("OK")) && Clean(Ascii("image/bmp")) && IsTrimmed(Ascii("image/bmp"));
    StatusTexts();
    RustResponseRoundTrip(max, ImageBmpOk(body));
    TypeIsRead(ImageBmpOk(body));
  }

  // ----- Go

  datatype Kind = Length | Connection | Other

  const CONNECTION: bytes := Ascii("connection")

  /** What the header loop does with a field: drop it, defer it, or write it. */
  function KindOf(f: Field): Kind {
    if EqualFold(f.name, CONTENT_LENGTH) then Length
    else if EqualFold(f.name, CONNECTION) then Connection
    else Other
  }

  /** Neither name has a letter with a folding outside ASCII. */
  lemma KindIsAscii(f: Field)
    ensures KindOf(f).Length? <==> LowerAll(f.name) == CONTENT_LENGTH
    ensures KindOf(f).Connection? <==> LowerAll(f.name) == CONNECTION
  {
    assert |CONTENT_LENGTH| != |CONNECTION|;
    EqualFoldIsAscii(f.name, CONTENT_LENGTH);
    EqualFoldIsAscii(f.name, CONNECTION);
  }

  function Keep(headers: seq<Field>, kind: Kind): (r: seq<Field>)
    ensures forall k :: 0 <= k < |r| ==> KindOf(r[k]) == kind && r[k] in headers
  {
    if headers == [] then []
    else
      var init, last := Keep(headers[..|headers| - 1], kind), headers[|headers| - 1];
      if KindOf(last) == kind then init + [last] else init
  }

  /** Keeping is selecting: the positions kept rise, hold exactly that kind, and miss none. */
  lemma {:induction false} KeepsInOrder(headers: seq<Field>, kind: Kind) returns (at: seq<nat>)
    ensures Selects(headers, at, Keep(headers, kind))
    ensures forall k: nat :: k < |headers| ==> (KindOf(headers[k]) == kind <==> k in at)
    decreases |headers|
  {
    hide KindOf, Selects;
    at := [];
    if headers == [] {
      NoneSelected(headers);
    } else {
      var n := |headers| - 1;
      var init := headers[..n];
      at := KeepsInOrder(init, kind);
      SelectsSnoc(headers, at, Keep(init, kind));
      if KindOf(headers[n]) == kind {
        at := at + [n];
      }
    }
  }

  /** `kept` are the headers at these rising positions. */
  predicate Selects(headers: seq<Field>, at: seq<nat>, kept: seq<Field>) {
    && |at| == |kept|
    && (forall i :: 0 <= i < |at| ==> at[i] < |headers| && headers[at[i]] == kept[i])
    && (forall i, j :: 0 <= i < j < |at| ==> at[i] < at[j])
  }

  lemma NoneSelected(headers: seq<Field>)
    ensures Selects(headers, [], [])
  {
  }

  lemma SelectsSnoc(headers: seq<Field>, at: seq<nat>, kept: seq<Field>)
    requires headers != [] && Selects(headers[..|headers| - 1], at, kept)
    ensures Selects(headers, at, kept)
    ensures Selects(headers, at + [|headers| - 1], kept + [headers[|headers| - 1]])
  {
  }

  function LengthField(n: nat): Field {
    Field(Ascii("Content-Length"), Print(Decimal, n))
  }

  /** The header order Go writes: caller headers, one generated length, Connection headers. */
  function GoFields(headers: seq<Field>, n: nat): seq<Field> {
    Keep(headers, Other) + [LengthField(n)] + Keep(headers, Connection)
  }

  /** The generated length stands between the other headers, in the caller's order, and the
      Connection headers, in the caller's order. */
  lemma GoOrder(headers: seq<Field>, n: nat) returns (others: seq<nat>, connections: seq<nat>)
    ensures var fields := GoFields(headers, n);
      var p := |others|;
      && |fields| == p + 1 + |connections| && fields[p] == LengthField(n)
      && Selects(headers, others, fields[..p]) && Selects(headers, connections, fields[p + 1..])
    ensures forall k: nat :: k < |headers| ==>
      && (k in connections <==> LowerAll(headers[k].name) == CONNECTION)
      && (k in others <==> LowerAll(headers[k].name) != CONNECTION && LowerAll(headers[k].name) != CONTENT_LENGTH)
  {
    hide Keep, KindOf, LengthField, CONNECTION, CONTENT_LENGTH;
    others := KeepsInOrder(headers, Other);
    connections := KeepsInOrder(headers, Connection);
    var fields := GoFields(headers, n);
    assert fields[..|others|] == Keep(headers, Other) && fields[|others| + 1..] == Keep(headers, Connection);
    forall k: nat | k < |headers|
      ensures k in connections <==> LowerAll(headers[k].name) == CONNECTION
      ensures k in others <==> LowerAll(headers[k].name) != CONNECTION && LowerAll(headers[k].name) != CONTENT_LENGTH
    {
      KindIsAscii(headers[k]);
    }
  }

  lemma KeepSnoc(headers: seq<Field>, k: nat, kind: Kind)
    requires k < |headers|
    ensures Keep(headers[..k + 1], kind)
         == if KindOf(headers[k]) == kind then Keep(headers[..k], kind) + [headers[k]] else Keep(headers[..k], kind)
  {
    assert headers[..k + 1][..k] == headers[..k];
  }

  lemma RenderPrintedSnoc(fields: seq<Field>, f: Field)
    ensures RenderLines(PrintFields(fields + [f])) == RenderLines(PrintFields(fields)) + (PrintField(f) + CRLF)
  {
    var lines := PrintFields(fields);
    assert PrintFields(fields + [f]) == lines + [PrintField(f)];
    RenderLinesConcat(lines, [PrintField(f)]);
    assert RenderLines([PrintField(f)]) == PrintField(f) + CRLF + [];
  }

  method AppendHeader(buffer: bytes, header: Field) returns (r: bytes)
    ensures r == buffer + (PrintField(header) + CRLF)
  {
    r := buffer + header.name;
    r := r + [COLON, SP];
    r := r + header.value;
    r := r + CRLF;
    assert r == buffer + (PrintField(header) + CRLF);
  }

  lemma RenderPrintedConcat(a: seq<Field>, b: seq<Field>)
    ensures RenderLines(PrintFields(a + b)) == RenderLines(PrintFields(a)) + RenderLines(PrintFields(b))
  {
    assert PrintFields(a + b) == PrintFields(a) + PrintFields(b);
    RenderLinesConcat(PrintFields(a), PrintFields(b));
  }

  method AppendHeaders(buffer: bytes, headers: seq<Field>) returns (r: bytes)
    ensures r == buffer + RenderLines(PrintFields(headers))
  {
    r := buffer;
    assert RenderLines(PrintFields(headers[..0])) == [];
    hide PrintField, PrintFields, RenderLines;
    for index := 0 to |headers|
      invariant r == buffer + RenderLines(PrintFields(headers[..index]))
    {
      assert headers[..index + 1] == headers[..index] + [headers[index]];
      RenderPrintedSnoc(headers[..index], headers[index]);
      r := AppendHeader(r, headers[index]);
    }
    assert headers[..|headers|] == headers;
  }

  lemma NothingKept(headers: seq<Field>)
    ensures RenderLines(PrintFields(Keep(headers[..0], Other))) == [] && Keep(headers[..0], Connection) == []
  {
  }

  lemma OthersSnoc(headers: seq<Field>, k: nat)
    requires k < |headers|
    ensures var before, after :=
        RenderLines(PrintFields(Keep(headers[..k], Other))), RenderLines(PrintFields(Keep(headers[..k + 1], Other)));
      after == if KindOf(headers[k]) == Other then before + (PrintField(headers[k]) + CRLF) else before
  {
    hide KindOf, Keep, PrintFields, RenderLines, PrintField;
    KeepSnoc(headers, k, Other);
    RenderPrintedSnoc(Keep(headers[..k], Other), headers[k]);
  }

  lemma Associate(a: bytes, ab: bytes, c: bytes)
    requires a <= ab
    ensures ab + c == a + (ab[|a|..] + c)
  {
  }

  /** The header loop of `Response.Bytes`: drops caller lengths, defers Connection headers. */
  method AppendOthers(buffer: bytes, headers: seq<Field>) returns (r: bytes, connectionHeaders: seq<Field>)
    ensures connectionHeaders == Keep(headers, Connection)
    ensures r == buffer + RenderLines(PrintFields(Keep(headers, Other)))
  {
    hide KindOf, PrintField, Keep, PrintFields, RenderLines;
    r, connectionHeaders := buffer, [];
    NothingKept(headers);
    for index := 0 to |headers|
      invariant connectionHeaders == Keep(headers[..index], Connection)
      invariant r == buffer + RenderLines(PrintFields(Keep(headers[..index], Other)))
    {
      var header := headers[index];
      KeepSnoc(headers, index, Connection);
      OthersSnoc(headers, index);
      match KindOf(header) {
        case Length =>
        case Connection =>
          connectionHeaders := connectionHeaders + [header];
        case Other =>
          ghost var before := r;
          r := AppendHeader(r, header);
          Associate(buffer, before, PrintField(header) + CRLF);
      }
    }
    assert headers[..|headers|] == headers;
  }

  /** The bytes of a Go response. */
  function GoMessage(code: nat, reason: bytes, headers: seq<Field>, body: bytes): bytes {
    Assemble(StatusLine(code, reason), GoFields(headers, |body|), body)
  }

  /** `Response.Bytes` in Go. */
  method GoResponseBytes(code: nat, reason: bytes, headers: seq<Field>, body: bytes) returns (r: bytes)
    ensures r == GoMessage(code, reason, headers, body)
  {
    hide StatusLine, Keep, PrintField, Assemble, GoFields, RenderLines, PrintFields, LengthField;
    var line := StatusLine(code, reason);
    r := line + CRLF;
    var connectionHeaders;
    r, connectionHeaders := AppendOthers(r, headers);
    r := AppendHeader(r, LengthField(|body|));
    r := AppendHeaders(r, connectionHeaders);
    r := r + CRLF;
    r := r + body;
    GoPieces(line, headers, body);
  }

  lemma GoPieces(line: bytes, headers: seq<Field>, body: bytes)
    ensures var length := LengthField(|body|);
      line + CRLF + RenderLines(PrintFields(Keep(headers, Other))) + (PrintField(length) + CRLF)
      + RenderLines(PrintFields(Keep(headers, Connection))) + CRLF + body
      == Assemble(line, GoFields(headers, |body|), body)
  {
    hide Keep, PrintField, RenderLines, PrintFields, LengthField;
    var length := LengthField(|body|);
    var others, connections := Keep(headers, Other), Keep(headers, Connection);
    RenderPrintedSnoc(others, length);
    RenderPrintedConcat(others + [length], connections);
    RenderFirst(line, PrintFields(GoFields(headers, |body|)));
    var a, b, c := RenderLines(PrintFields(others)), PrintField(length) + CRLF, RenderLines(PrintFields(connections));
    assert line + CRLF + a + b + c + CRLF == line + CRLF + (a + b + c + CRLF);
  }

  /** Whatever Content-Length headers the caller passed, exactly one is written, it carries the
      body's length, and it stands between the other headers and the Connection headers. */
  lemma GoOneContentLength(headers: seq<Field>, n: nat)
    ensures Named(NormalizeAll(GoFields(headers, n)), CONTENT_LENGTH) == [Field(CONTENT_LENGTH, Print(Decimal, n))]
  {
    hide Print, Trim, KindOf, Named;
    var others, connections := Keep(headers, Other), Keep(headers, Connection);
    var a, m, b := NormalizeAll(others), [Normalize(LengthField(n))], NormalizeAll(connections);
    assert NormalizeAll(GoFields(headers, n)) == a + m + b;
    forall k | 0 <= k < |a| ensures a[k].name != CONTENT_LENGTH { KindIsAscii(others[k]); }
    forall k | 0 <= k < |b| ensures b[k].name != CONTENT_LENGTH { KindIsAscii(connections[k]); }
    NamedNone(a, CONTENT_LENGTH);
    NamedNone(b, CONTENT_LENGTH);
    NamedConcat(a + m, b, CONTENT_LENGTH);
    NamedConcat(a, m, CONTENT_LENGTH);
    NormalLength(n);
  }

  lemma NormalLength(n: nat)
    ensures var f := Field(CONTENT_LENGTH, Print(Decimal, n));
      Normalize(LengthField(n)) == f && Named([f], CONTENT_LENGTH) == [f]
  {
    hide Print, Trim;
    NumberIsPrintable(n);
    assert LowerAll(Ascii("Content-Length")) == CONTENT_LENGTH;
    var f := Field(CONTENT_LENGTH, Print(Decimal, n));
    assert [f][..0] == [];
  }

  predicate NoTransferEncoding(headers: seq<Field>) {
    forall k :: 0 <= k < |headers| ==> LowerAll(headers[k].name) != TRANSFER_ENCODING
  }

  lemma {:induction false} KeepsAll(headers: seq<Field>, k: nat)
    requires k < |headers|
    ensures headers[k] in Keep(headers, KindOf(headers[k]))
    decreases |headers|
  {
    hide KindOf;
    if k < |headers| - 1 {
      KeepsAll(headers[..|headers| - 1], k);
    }
  }

  lemma GoFieldsPrintable(headers: seq<Field>, n: nat)
    requires AllPrintable(headers)
    ensures AllPrintable(GoFields(headers, n))
  {
    hide Print, KindOf;
    var fields := GoFields(headers, n);
    NumberIsPrintable(n);
    NameIsPrintable(LengthField(n), "Content-Length");
    forall k | 0 <= k < |fields| ensures IsPrintable(fields[k]) {
      assert fields[k] in headers || fields[k] == LengthField(n);
    }
  }

  /** The serialiser adds no Transfer-Encoding and drops none. */
  lemma GoFieldsCodings(headers: seq<Field>, n: nat)
    ensures Named(NormalizeAll(GoFields(headers, n)), TRANSFER_ENCODING) == [] <==> NoTransferEncoding(headers)
  {
    hide Print, KindOf, Trim;
    var fields := GoFields(headers, n);
    NamedNone(NormalizeAll(fields), TRANSFER_ENCODING);
    assert |LengthField(n).name| != |TRANSFER_ENCODING|;
    forall k | 0 <= k < |fields|
      ensures LowerAll(fields[k].name) != TRANSFER_ENCODING || !NoTransferEncoding(headers)
    {
      assert fields[k] in headers || fields[k] == LengthField(n);
    }
    if k :| 0 <= k < |headers| && LowerAll(headers[k].name) == TRANSFER_ENCODING {
      CodingIsWritten(headers, k, n);
    }
  }

  lemma CodingIsWritten(headers: seq<Field>, k: nat, n: nat)
    requires k < |headers| && LowerAll(headers[k].name) == TRANSFER_ENCODING
    ensures headers[k] in GoFields(headers, n)
    ensures exists j :: 0 <= j < |GoFields(headers, n)| && NormalizeAll(GoFields(headers, n))[j].name == TRANSFER_ENCODING
  {
    hide KindOf, EqualFold, Print, Trim, Keep;
    KindIsAscii(headers[k]);
    assert |TRANSFER_ENCODING| == 17 && |CONTENT_LENGTH| == 14 && |CONNECTION| == 10;
    KeepsAll(headers, k);
    var fields := GoFields(headers, n);
    var kept := Keep(headers, Other);
    var j :| 0 <= j < |kept| && kept[j] == headers[k];
    assert fields[j] == kept[j];
    assert NormalizeAll(fields)[j].name == TRANSFER_ENCODING;
  }

  /** Whatever the caller's headers: the head of the response reads back, its one length is the
      body's, and a body parser started on that length takes exactly the body. */
  lemma GoResponseReadsBack(max: nat, code: nat, reason: bytes, headers: seq<Field>, body: bytes)
    requires Clean(reason) && AllPrintable(headers) && |body| <= max
    ensures var fields := NormalizeAll(GoFields(headers, |body|));
      && ReadHead(GoMessage(code, reason, headers, body))
         == Some(Received(StatusLine(code, reason), fields, [], body))
      && |Named(fields, CONTENT_LENGTH)| == 1
      && var p := Run(BodyStep, BodyInit(max, Some(Named(fields, CONTENT_LENGTH)[0].value)), body);
         p.status.Complete? && p.body == body && p.remaining == []
  {
    hide Print, KindOf, StatusLine, ReadHead, Assemble, NormalizeAll, GoFields, Named, BodyStep, BodyInit;
    GoOneContentLength(headers, |body|);
    GoFieldsPrintable(headers, |body|);
    StatusLineIsClean(code, reason);
    AssembledHead(StatusLine(code, reason), GoFields(headers, |body|), body);
    PrintedLengthTakes(max, body);
  }

  /** A Go response reads back whole, with nothing left over, exactly when the caller passed no
      Transfer-Encoding header and a size can hold the body's length; otherwise it is refused. */
  lemma GoResponseRoundTrip(max: nat, code: nat, reason: bytes, headers: seq<Field>, body: bytes)
    requires Clean(reason) && AllPrintable(headers)
    ensures ReadMessage(max, GoMessage(code, reason, headers, body))
         == if NoTransferEncoding(headers) && |body| <= max
            then Some(Received(StatusLine(code, reason), NormalizeAll(GoFields(headers, |body|)), body, []))
            else None
    ensures SaysStatus(StatusLine(code, reason), code, reason)
  {
    hide Print, KindOf, StatusLine, ReadHead, Assemble, NormalizeAll, GoFields, Named, NoTransferEncoding;
    GoOneContentLength(headers, |body|);
    GoFieldsPrintable(headers, |body|);
    GoFieldsCodings(headers, |body|);
    StatusLineIsClean(code, reason);
    StatusLineSays(code, reason);
    if NoTransferEncoding(headers) {
      AssembledReadsBack(max, StatusLine(code, reason), GoFields(headers, |body|), body);
    } else {
      AssembledHead(StatusLine(code, reason), GoFields(headers, |body|), body);
    }
  }

  // ----- writing

  /** How a writer treats one call: it takes at most `limit` bytes, and may report an error. */
  datatype Behaviour = Behaviour(limit: nat, fails: bool)

  class Writer {
    var written: bytes
    /** Whether some call has reported an error. */
    var failed: bool
    /** The calls still to come; after them every call fails. */
    var script: seq<Behaviour>

    constructor (script: seq<Behaviour>)
      ensures written == [] && !failed && this.script == script
    {
      written, failed, this.script := [], false, script;
    }

    /** Bytes may be taken and an error reported in the same call. */
    method Write(offered: bytes) returns (count: nat, ok: bool)
      modifies this
      ensures count <= |offered| && written == old(written) + offered[..count]
      ensures failed <==> old(failed) || !ok
    {
      count, ok := 0, false;
      if |script| > 0 {
        count := if script[0].limit < |offered| then script[0].limit else |offered|;
        ok := !script[0].fails;
        script := script[1..];
      }
      written := written + offered[..count];
      failed := failed || !ok;
    }
  }

  /** The Go `Write` loop: all bytes in order, or an error after a prefix of them. An error after
      all of them means that the writer reported one. */
  method WriteAll(writer: Writer, response: bytes) returns (ok: bool)
    modifies writer
    ensures ok ==> writer.written == old(writer.written) + response && writer.failed == old(writer.failed)
    ensures !ok ==> exists k ::
      && 0 <= k <= |response| && writer.written == old(writer.written) + response[..k]
      && (k == |response| ==> writer.failed)
  {
    var left := response;
    ghost var sent := 0;
    assert response[..0] == [];
    while |left| > 0
      invariant sent + |left| == |response| && left == response[sent..]
      invariant writer.written == old(writer.written) + response[..sent]
      invariant writer.failed == old(writer.failed)
      decreases |left|
    {
      var count, written := writer.Write(left);
      assert response[..sent + count] == response[..sent] + left[..count];
      if !written || count == 0 {
        return false;
      }
      left := left[count..];
      sent := sent + count;
    }
    assert response[..sent] == response;
    ok := true;
  }
}
