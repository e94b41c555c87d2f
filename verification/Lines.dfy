/** Strict CRLF lines: cutting a stream into lines, and putting lines back together. */
module Lines {
  import opened Bytes

  /** What a stream offers next: a line still open, a bare CR or LF, or a CRLF-ended line. */
  datatype Line =
    | Open(text: bytes, cr: bool)
    | Broken(text: bytes)
    | Line(text: bytes, rest: bytes)

  function FirstBreak(s: bytes): (k: nat)
    ensures k <= |s| && forall j :: 0 <= j < k ==> !IsBreak(s[j])
    ensures k < |s| ==> IsBreak(s[k])
  {
    if s == [] || IsBreak(s[0]) then 0 else 1 + FirstBreak(s[1..])
  }

  function NextLine(s: bytes): (r: Line)
    ensures Clean(r.text) && r.text <= s
    ensures r.Open? ==> s == r.text + if r.cr then [CR] else []
    ensures r.Line? ==> s == r.text + CRLF + r.rest
    ensures r.Broken? ==>
      && |r.text| < |s|
      && (s[|r.text|] == LF || (s[|r.text|] == CR && |r.text| + 1 < |s| && s[|r.text| + 1] != LF))
  {
    var k := FirstBreak(s);
    if k == |s| then Open(s, false)
    else if s[k] == LF then Broken(s[..k])
    else if k + 1 == |s| then Open(s[..k], true)
    else if s[k + 1] != LF then Broken(s[..k])
    else Line(s[..k], s[k + 2..])
  }

  lemma NextLineOf(text: bytes, rest: bytes)
    requires Clean(text)
    ensures NextLine(text + CRLF + rest) == Line(text, rest)
  {
    var s := text + CRLF + rest;
    assert s[|text|] == CR && s[|text| + 1] == LF;
    assert forall j :: 0 <= j < |text| ==> s[j] == text[j];
    assert FirstBreak(s) == |text|;
    assert s[..|text|] == text && s[|text| + 2..] == rest;
  }

  function RenderLines(lines: seq<bytes>): bytes {
    if lines == [] then [] else lines[0] + CRLF + RenderLines(lines[1..])
  }

  /** Lines a section may hold before its blank line. */
  predicate ProperLines(lines: seq<bytes>) {
    forall k :: 0 <= k < |lines| ==> lines[k] != [] && Clean(lines[k])
  }

  datatype ScanEnd = Unfinished(text: bytes, cr: bool) | Malformed(piece: bytes) | Blank(rest: bytes)
  datatype Scan = Scan(lines: seq<bytes>, ending: ScanEnd)

  /** Splits a stream on CRLF up to the first empty line, or to the first bare break. */
  function ScanLines(s: bytes): (r: Scan)
    ensures ProperLines(r.lines)
    decreases |s|
  {
    match NextLine(s)
    case Open(text, cr) => Scan([], Unfinished(text, cr))
    case Broken(_) => Scan([], Malformed(s))
    case Line(text, rest) =>
      if text == [] then Scan([], Blank(rest))
      else
        var tail := ScanLines(rest);
        Scan([text] + tail.lines, tail.ending)
  }

  /** The part of a scanned stream that follows its complete lines. */
  function Leftover(ending: ScanEnd): bytes {
    match ending
    case Unfinished(text, cr) => if cr then text + [CR] else text
    case Malformed(piece) => piece
    case Blank(rest) => CRLF + rest
  }

  /** What the scan found spells the stream, and the leftover really is open, broken or blank. */
  lemma {:induction false} ScanSpells(s: bytes)
    ensures s == RenderLines(ScanLines(s).lines) + Leftover(ScanLines(s).ending)
    ensures ScanLines(s).ending.Unfinished? ==> Clean(ScanLines(s).ending.text)
    ensures ScanLines(s).ending.Malformed? ==> NextLine(ScanLines(s).ending.piece).Broken?
    decreases |s|
  {
    match NextLine(s)
    case Open(text, cr) =>
    case Broken(_) =>
    case Line(text, rest) =>
      if text == [] {
        assert s == [] + (CRLF + rest);
      } else {
        var tail := ScanLines(rest);
        ScanSpells(rest);
        assert ScanLines(s).lines[1..] == tail.lines;
        assert s == text + CRLF + (RenderLines(tail.lines) + Leftover(tail.ending));
      }
  }

  lemma ScanCons(text: bytes, rest: bytes)
    requires text != [] && Clean(text)
    ensures ScanLines(text + CRLF + rest) == Scan([text] + ScanLines(rest).lines, ScanLines(rest).ending)
  {
    NextLineOf(text, rest);
  }

  /** Rendered proper lines scan back to themselves, whatever follows. */
  lemma {:induction false} ScanPrefix(lines: seq<bytes>, tail: bytes)
    requires ProperLines(lines)
    ensures ScanLines(RenderLines(lines) + tail) == Scan(lines + ScanLines(tail).lines, ScanLines(tail).ending)
    decreases |lines|
  {
    hide ScanLines;
    if lines == [] {
      assert RenderLines(lines) + tail == tail;
    } else {
      var more := RenderLines(lines[1..]) + tail;
      assert RenderLines(lines) + tail == lines[0] + CRLF + more;
      ScanCons(lines[0], more);
      ScanPrefix(lines[1..], tail);
      assert [lines[0]] + (lines[1..] + ScanLines(tail).lines) == lines + ScanLines(tail).lines;
    }
  }

  /** Scanning is the inverse of rendering a section. */
  lemma ScanRendered(lines: seq<bytes>, rest: bytes)
    requires ProperLines(lines)
    ensures ScanLines(RenderLines(lines) + CRLF + rest) == Scan(lines, Blank(rest))
  {
    assert RenderLines(lines) + CRLF + rest == RenderLines(lines) + (CRLF + rest);
    assert CRLF + rest == [] + CRLF + rest;
    NextLineOf([], rest);
    ScanPrefix(lines, CRLF + rest);
    assert lines + [] == lines;
  }

  lemma {:induction false} RenderLinesConcat(a: seq<bytes>, b: seq<bytes>)
    ensures RenderLines(a + b) == RenderLines(a) + RenderLines(b)
    decreases |a|
  {
    if a == [] {
      assert a + b == b;
    } else {
      assert (a + b)[1..] == a[1..] + b;
      RenderLinesConcat(a[1..], b);
    }
  }
}
