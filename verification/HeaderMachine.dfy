/** The incremental header-section machine, and what it makes of a whole stream. */
module HeaderMachine {
  import opened Bytes
  import opened Streams
  import opened Lines
  import opened Fields

  datatype HeaderState = HeaderState(status: Status, line: bytes, pendingCr: bool, fields: seq<Field>)

  const HEADER_INIT := HeaderState(Incomplete, [], false, [])

  function HeaderStep(h: HeaderState, b: byte): HeaderState {
    if !h.status.Incomplete? then h
    else if h.pendingCr then
      if b != LF then h.(status := Invalid)
      else if h.line == [] then h.(status := Complete, pendingCr := false)
      else
        match ParseField(h.line)
        case None => h.(status := Invalid, pendingCr := false)
        case Some(f) => h.(line := [], pendingCr := false, fields := h.fields + [f])
    else if b == CR then h.(pendingCr := true)
    else if b == LF then h.(status := Invalid)
    else h.(line := h.line + [b])
  }

  lemma {:induction false} HeaderAbsorbs(h: HeaderState, s: bytes)
    requires !h.status.Incomplete?
    ensures Run(HeaderStep, h, s) == h
  {
    Absorbs(HeaderStep, h, s);
  }

  /** One more byte, and what an early return at that byte leaves unread. */
  lemma Consumed(h: HeaderState, input: bytes, index: nat)
    requires index < |input|
    ensures var next := HeaderStep(Run(HeaderStep, h, input[..index]), input[index]);
      && Run(HeaderStep, h, input[..index + 1]) == next
      && (!next.status.Incomplete? ==> Run(HeaderStep, h, input) == next)
  {
    StopsAt(HeaderStep, h, input, index);
  }

  lemma {:induction false} HeaderText(h: HeaderState, text: bytes)
    requires h.status.Incomplete? && !h.pendingCr && Clean(text)
    ensures Run(HeaderStep, h, text) == h.(line := h.line + text)
    decreases |text|
  {
    if text == [] {
      assert h.line + text == h.line;
    } else {
      assert h.line + text == (h.line + [text[0]]) + text[1..];
      HeaderText(h.(line := h.line + [text[0]]), text[1..]);
    }
  }

  lemma HeaderLine(h: HeaderState, text: bytes, rest: bytes)
    requires h.status.Incomplete? && !h.pendingCr && h.line == [] && Clean(text)
    ensures Run(HeaderStep, h, text + CRLF + rest)
         == Run(HeaderStep, HeaderStep(HeaderStep(h.(line := text), CR), LF), rest)
  {
    RunConcat(HeaderStep, h, text + CRLF, rest);
    RunConcat(HeaderStep, h, text, CRLF);
    HeaderText(h, text);
    assert [] + text == text;
    RunPair(HeaderStep, h.(line := text), CR, LF);
  }

  /** The state the pure line split predicts: `parsed` are the complete lines, `ending` what follows them. */
  predicate Predicted(h: HeaderState, fields: seq<Field>, parsed: Parsed, ending: ScanEnd) {
    && h.fields == fields + parsed.fields
    && if !parsed.ok || ending.Malformed? then
         h.status.Invalid?
       else if ending.Blank? then
         h == HeaderState(Complete, [], false, fields + parsed.fields)
       else
         h == HeaderState(Incomplete, ending.text, ending.cr, fields + parsed.fields)
  }

  lemma HeaderBroken(h: HeaderState, s: bytes)
    requires h.status.Incomplete? && !h.pendingCr && h.line == [] && NextLine(s).Broken?
    ensures Run(HeaderStep, h, s).status.Invalid? && Run(HeaderStep, h, s).fields == h.fields
  {
    var text := NextLine(s).text;
    var k := |text|;
    assert s == text + s[k..];
    RunConcat(HeaderStep, h, text, s[k..]);
    HeaderText(h, text);
    assert [] + text == text;
    var h1 := HeaderStep(h.(line := text), s[k]);
    if s[k] == LF {
      HeaderAbsorbs(h1, s[k..][1..]);
    } else {
      assert s[k..][1..][0] == s[k + 1];
      HeaderAbsorbs(HeaderStep(h1, s[k + 1]), s[k..][1..][1..]);
    }
  }

  lemma HeaderOpen(h: HeaderState, text: bytes, cr: bool)
    requires h.status.Incomplete? && !h.pendingCr && h.line == [] && Clean(text)
    ensures Run(HeaderStep, h, text + if cr then [CR] else []) == h.(line := text, pendingCr := cr)
  {
    HeaderText(h, text);
    if cr {
      RunSnoc(HeaderStep, h, text, CR);
    } else {
      assert text + [] == text;
    }
  }

  /** The machine refines splitting the stream on CRLF and parsing line by line. */
  lemma {:induction false} HeaderRefinesSplit(fields: seq<Field>, s: bytes)
    ensures Predicted(Run(HeaderStep, HeaderState(Incomplete, [], false, fields), s), fields,
                      ParseLines(ScanLines(s).lines), ScanLines(s).ending)
    decreases |s|
  {
    var h := HeaderState(Incomplete, [], false, fields);
    match NextLine(s)
    case Open(text, cr) =>
      HeaderOpen(h, text, cr);
      assert fields + [] == fields;
    case Broken(_) =>
      HeaderBroken(h, s);
      assert fields + [] == fields;
    case Line(text, rest) =>
      HeaderLine(h, text, rest);
      var h1 := HeaderStep(HeaderStep(h.(line := text), CR), LF);
      if text == [] || ParseField(text).None? {
        HeaderAbsorbs(h1, rest);
        assert fields + [] == fields;
      } else {
        var f := ParseField(text).value;
        HeaderRefinesSplit(fields + [f], rest);
        ParseLinesCons(text, f, ScanLines(rest).lines);
        PredictedCons(Run(HeaderStep, h1, rest), fields, f, ParseLines(ScanLines(rest).lines), ScanLines(rest).ending);
      }
  }

  lemma PredictedCons(h: HeaderState, fields: seq<Field>, f: Field, parsed: Parsed, ending: ScanEnd)
    requires Predicted(h, fields + [f], parsed, ending)
    ensures Predicted(h, fields, Parsed([f] + parsed.fields, parsed.ok), ending)
  {
    assert fields + ([f] + parsed.fields) == fields + [f] + parsed.fields;
  }

  // ----- sections

  /** A header section: its lines and the field each line holds. */
  predicate IsSection(lines: seq<bytes>, fields: seq<Field>) {
    ProperLines(lines) && ParseLines(lines) == Parsed(fields, true)
  }

  function RenderSection(lines: seq<bytes>): bytes {
    RenderLines(lines) + CRLF
  }

  lemma ScanCr()
    ensures ScanLines([CR]) == Scan([], Unfinished([], true))
  {
  }

  lemma OpenAtLastCr(lines: seq<bytes>, fields: seq<Field>)
    requires IsSection(lines, fields)
    ensures Run(HeaderStep, HEADER_INIT, RenderLines(lines) + [CR]) == HeaderState(Incomplete, [], true, fields)
  {
    hide ScanLines, HeaderStep, ParseField, ParseLines, Run;
    ScanCr();
    ScanPrefix(lines, [CR]);
    assert lines + [] == lines && [] + fields == fields;
    HeaderRefinesSplit([], RenderLines(lines) + [CR]);
  }

  /** A section is still open one byte before its end, and complete at its end. */
  lemma SectionEndsOnLastByte(lines: seq<bytes>, fields: seq<Field>)
    requires IsSection(lines, fields)
    ensures Run(HeaderStep, HEADER_INIT, RenderLines(lines) + [CR]) == HeaderState(Incomplete, [], true, fields)
    ensures Run(HeaderStep, HEADER_INIT, RenderSection(lines)) == HeaderState(Complete, [], false, fields)
  {
    hide ParseField, ParseLines, ScanLines, Run;
    OpenAtLastCr(lines, fields);
    assert RenderSection(lines) == RenderLines(lines) + [CR] + [LF];
    RunSnoc(HeaderStep, HEADER_INIT, RenderLines(lines) + [CR], LF);
  }

  /** Over any cut into feeds, a section followed by anything is recognised, and the rest is dropped. */
  lemma SectionRecognised(lines: seq<bytes>, fields: seq<Field>, rest: bytes, parts: seq<bytes>)
    requires IsSection(lines, fields) && Concat(parts) == RenderSection(lines) + rest
    ensures RunParts(HeaderStep, HEADER_INIT, parts) == HeaderState(Complete, [], false, fields)
  {
    SegmentationIndependence(HeaderStep, HEADER_INIT, parts);
    ScanRendered(lines, rest);
    HeaderRefinesSplit([], Concat(parts));
    assert [] + fields == fields;
  }

  /** Nothing else is recognised. */
  lemma CompleteIffSection(s: bytes)
    ensures Run(HeaderStep, HEADER_INIT, s).status.Complete?
       <==> exists lines, fields :: IsSection(lines, fields) && RenderSection(lines) <= s
  {
    hide ScanLines, HeaderStep, ParseField, ParseLines, Run;
    HeaderRefinesSplit([], s);
    if Run(HeaderStep, HEADER_INIT, s).status.Complete? {
      ScanSpells(s);
      var scan := ScanLines(s);
      assert s == RenderSection(scan.lines) + scan.ending.rest;
      assert IsSection(scan.lines, ParseLines(scan.lines).fields);
    }
    if lines, fields :| IsSection(lines, fields) && RenderSection(lines) <= s {
      var rest := s[|RenderSection(lines)|..];
      assert s == RenderSection(lines) + rest;
      ScanRendered(lines, rest);
    }
  }

  /** Printing any printable list and parsing it gives the list in normal form, in order. */
  lemma PrintedFieldsNormalise(fields: seq<Field>)
    requires forall k :: 0 <= k < |fields| ==> IsPrintable(fields[k])
    ensures Run(HeaderStep, HEADER_INIT, RenderSection(PrintFields(fields)))
         == HeaderState(Complete, [], false, NormalizeAll(fields))
  {
    ParsePrintedFields(fields);
    var s := RenderSection(PrintFields(fields));
    SectionRecognised(PrintFields(fields), NormalizeAll(fields), [], [s]);
    assert RunParts(HeaderStep, HEADER_INIT, [s]) == Run(HeaderStep, HEADER_INIT, s) by {
      SegmentationIndependence(HeaderStep, HEADER_INIT, [s]);
      assert Concat([s]) == s;
    }
  }

  /** Fields that came out of the parser survive a print and a second parse unchanged. */
  lemma NormalFormIsFixedPoint(s: bytes)
    requires Run(HeaderStep, HEADER_INIT, s).status.Complete?
    ensures var h := Run(HeaderStep, HEADER_INIT, s);
      Run(HeaderStep, HEADER_INIT, RenderSection(PrintFields(h.fields))) == h
  {
    HeaderRefinesSplit([], s);
    var lines := ScanLines(s).lines;
    var fields := ParseLines(lines).fields;
    forall k | 0 <= k < |fields| ensures IsPrintable(fields[k]) && Normalize(fields[k]) == fields[k] {
      ParsedIsNormal(lines[k]);
    }
    PrintedFieldsNormalise(fields);
    assert NormalizeAll(fields) == fields;
    assert [] + fields == fields;
  }
}
