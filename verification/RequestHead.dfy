/**
 * Where a request head ends: the substring search for CRLFCRLF, the head machine
 * (c/request_parser.c, rust/src/request.rs), the search for the first CRLF, and the header
 * machine all have to agree on it.
 */
module RequestHead {
  import opened Bytes
  import opened Streams
  import opened Lines
  import opened Fields
  import opened HeaderMachine

  const CRLFCRLF: bytes := [CR, LF, CR, LF]

  /** The end of a head as text. */
  lemma HeadEndText()
    ensures CRLFCRLF == Ascii("\r\n\r\n")
  {
  }

  // ----- substring search

  predicate MatchesAt(needle: bytes, s: bytes, k: nat) {
    k + |needle| <= |s| && s[k..k + |needle|] == needle
  }

  function FindFrom(needle: bytes, s: bytes, k: nat): (r: Option<nat>)
    ensures r.Some? ==> k <= r.value && MatchesAt(needle, s, r.value)
    ensures r.Some? ==> forall j :: k <= j < r.value ==> !MatchesAt(needle, s, j)
    ensures r.None? ==> forall j :: k <= j ==> !MatchesAt(needle, s, j)
    decreases |s| - k
  {
    if k + |needle| > |s| then None
    else if MatchesAt(needle, s, k) then Some(k)
    else FindFrom(needle, s, k + 1)
  }

  function Find(needle: bytes, s: bytes): (r: Option<nat>)
    ensures r.Some? ==> MatchesAt(needle, s, r.value)
    ensures r.Some? ==> forall j :: 0 <= j < r.value ==> !MatchesAt(needle, s, j)
    ensures r.None? ==> forall j :: 0 <= j ==> !MatchesAt(needle, s, j)
  {
    FindFrom(needle, s, 0)
  }

  lemma FindIs(needle: bytes, s: bytes, k: nat)
    requires MatchesAt(needle, s, k) && forall j :: 0 <= j < k ==> !MatchesAt(needle, s, j)
    ensures Find(needle, s) == Some(k)
  {
  }

  /** find_bytes, and `windows(n).position(..)`: the first index, or none. */
  method FindBytes(s: bytes, needle: bytes) returns (r: Option<nat>)
    ensures r == Find(needle, s)
  {
    if |s| < |needle| {
      return None;
    }
    for index := 0 to |s| - |needle| + 1
      invariant forall j :: 0 <= j < index ==> !MatchesAt(needle, s, j)
    {
      if s[index..index + |needle|] == needle {
        FindIs(needle, s, index);
        return Some(index);
      }
    }
    r := None;
  }

  /** Once found, more input does not move the first occurrence. */
  lemma FindIsStable(needle: bytes, s: bytes, more: bytes)
    requires Find(needle, s).Some?
    ensures Find(needle, s + more) == Find(needle, s)
  {
    var k := Find(needle, s).value;
    forall j | 0 <= j <= k ensures MatchesAt(needle, s + more, j) <==> MatchesAt(needle, s, j) {
      assert (s + more)[j..j + |needle|] == s[j..j + |needle|];
    }
  }

  predicate DoubleAt(s: bytes, k: nat) {
    k + 4 <= |s| && s[k] == CR && s[k + 1] == LF && s[k + 2] == CR && s[k + 3] == LF
  }

  lemma DoubleMatches(s: bytes, k: nat)
    ensures MatchesAt(CRLFCRLF, s, k) <==> DoubleAt(s, k)
  {
    if k + 4 <= |s| {
      var w := s[k..k + 4];
      assert w == [w[0], w[1], w[2], w[3]];
    }
  }

  lemma {:induction false} NoEarlierDouble(lines: seq<bytes>, tail: bytes, j: nat)
    requires lines != [] && ProperLines(lines) && j + 2 < |RenderLines(lines)|
    ensures !DoubleAt(RenderLines(lines) + tail, j)
    decreases |lines|
  {
    var s := RenderLines(lines) + tail;
    var n := |lines[0]|;
    assert s == lines[0] + CRLF + (RenderLines(lines[1..]) + tail);
    if j < n {
      assert s[j] == lines[0][j];
    } else if j >= n + 2 {
      NoEarlierDouble(lines[1..], tail, j - (n + 2));
      assert s[n + 2..] == RenderLines(lines[1..]) + tail;
      assert forall i :: n + 2 <= i < |s| ==> s[i] == s[n + 2..][i - (n + 2)];
    } else if j == n {
      assert s[n + 2] == lines[1][0];
    }
  }

  lemma {:induction false} RenderedEnd(lines: seq<bytes>)
    requires lines != []
    ensures var r := RenderLines(lines); |r| >= 2 && r[|r| - 2] == CR && r[|r| - 1] == LF
    decreases |lines|
  {
    var more := RenderLines(lines[1..]);
    var r := RenderLines(lines);
    assert r == lines[0] + CRLF + more;
    if |lines| > 1 {
      RenderedEnd(lines[1..]);
      assert r[|r| - 2] == more[|more| - 2] && r[|r| - 1] == more[|more| - 1];
    }
  }

  /** The first CRLFCRLF of rendered lines, a blank line and anything else is at the blank line. */
  lemma FirstDouble(lines: seq<bytes>, tail: bytes)
    requires lines != [] && ProperLines(lines)
    ensures |RenderLines(lines)| >= 2
    ensures Find(CRLFCRLF, RenderLines(lines) + CRLF + tail) == Some(|RenderLines(lines)| - 2)
  {
    var s := RenderLines(lines) + CRLF + tail;
    RenderedEnd(lines);
    var k := |RenderLines(lines)| - 2;
    assert s == RenderLines(lines) + (CRLF + tail);
    assert s[k] == RenderLines(lines)[k] && s[k + 1] == RenderLines(lines)[k + 1];
    assert DoubleAt(s, k);
    forall j | 0 <= j <= k ensures MatchesAt(CRLFCRLF, s, j) <==> j == k {
      DoubleMatches(s, j);
      if j < k {
        NoEarlierDouble(lines, CRLF + tail, j);
      }
    }
    FindIs(CRLFCRLF, s, k);
  }

  lemma CrlfMatches(s: bytes, k: nat)
    ensures MatchesAt(CRLF, s, k) <==> k + 2 <= |s| && s[k] == CR && s[k + 1] == LF
  {
    if k + 2 <= |s| {
      var w := s[k..k + 2];
      assert w == [w[0], w[1]];
    }
  }

  lemma FirstCrlf(line: bytes, rest: bytes)
    requires Clean(line)
    ensures Find(CRLF, line + CRLF + rest) == Some(|line|)
  {
    var s := line + CRLF + rest;
    forall j | 0 <= j <= |line| ensures MatchesAt(CRLF, s, j) <==> j == |line| {
      CrlfMatches(s, j);
      assert j < |line| ==> s[j] == line[j];
    }
    FindIs(CRLF, s, |line|);
  }

  // ----- the head machine

  datatype HeadState = HeadState(status: Status, sawFirstLine: bool, lineHasBytes: bool, pendingCr: bool)

  const HEAD_INIT := HeadState(Incomplete, false, false, false)

  function HeadStep(h: HeadState, b: byte): HeadState {
    if !h.status.Incomplete? then h
    else if h.pendingCr then
      if b != LF then h.(status := Invalid)
      else if !h.sawFirstLine then
        if !h.lineHasBytes then h.(status := Invalid, pendingCr := false)
        else HeadState(Incomplete, true, false, false)
      else if !h.lineHasBytes then h.(status := Complete, pendingCr := false)
      else HeadState(Incomplete, true, false, false)
    else if b == CR then h.(pendingCr := true)
    else if b == LF then h.(status := Invalid)
    else h.(lineHasBytes := true)
  }

  lemma {:induction false} HeadAbsorbs(h: HeadState, s: bytes)
    requires !h.status.Incomplete?
    ensures Run(HeadStep, h, s) == h
  {
    Absorbs(HeadStep, h, s);
  }

  lemma {:induction false} HeadText(h: HeadState, text: bytes)
    requires h.status.Incomplete? && !h.pendingCr && Clean(text)
    ensures Run(HeadStep, h, text) == h.(lineHasBytes := h.lineHasBytes || text != [])
    decreases |text|
  {
    if text != [] {
      HeadText(h.(lineHasBytes := true), text[1..]);
    }
  }

  lemma HeadLine(saw: bool, text: bytes, rest: bytes)
    requires Clean(text)
    ensures var h := HeadState(Incomplete, saw, false, false);
      Run(HeadStep, h, text + CRLF + rest)
      == Run(HeadStep, HeadStep(HeadStep(h.(lineHasBytes := text != []), CR), LF), rest)
  {
    var h := HeadState(Incomplete, saw, false, false);
    RunConcat(HeadStep, h, text + CRLF, rest);
    RunConcat(HeadStep, h, text, CRLF);
    HeadText(h, text);
    RunPair(HeadStep, h.(lineHasBytes := text != []), CR, LF);
  }

  lemma HeadBroken(saw: bool, s: bytes)
    requires NextLine(s).Broken?
    ensures Run(HeadStep, HeadState(Incomplete, saw, false, false), s).status.Invalid?
  {
    var h := HeadState(Incomplete, saw, false, false);
    var text := NextLine(s).text;
    var k := |text|;
    assert s == text + s[k..];
    RunConcat(HeadStep, h, text, s[k..]);
    HeadText(h, text);
    var h1 := HeadStep(h.(lineHasBytes := text != []), s[k]);
    if s[k] == LF {
      HeadAbsorbs(h1, s[k..][1..]);
    } else {
      assert s[k..][1..][0] == s[k + 1];
      HeadAbsorbs(HeadStep(h1, s[k + 1]), s[k..][1..][1..]);
    }
  }

  /** The head machine's whole state, read off the pure line split. */
  function HeadPredicted(saw: bool, h: HeadState, lines: seq<bytes>, ending: ScanEnd): bool {
    match ending
    case Malformed(_) => h.status.Invalid?
    case Blank(_) => if saw || lines != [] then h.status.Complete? else h.status.Invalid?
    case Unfinished(text, cr) => h == HeadState(Incomplete, saw || lines != [], text != [], cr)
  }

  lemma {:induction false} HeadRefinesSplit(saw: bool, s: bytes)
    ensures HeadPredicted(saw, Run(HeadStep, HeadState(Incomplete, saw, false, false), s),
                          ScanLines(s).lines, ScanLines(s).ending)
    decreases |s|
  {
    var h := HeadState(Incomplete, saw, false, false);
    match NextLine(s)
    case Open(text, cr) =>
      HeadText(h, text);
      if cr {
        RunSnoc(HeadStep, h, text, CR);
      } else {
        assert s == text;
      }
    case Broken(_) =>
      HeadBroken(saw, s);
    case Line(text, rest) =>
      HeadLine(saw, text, rest);
      if text == [] {
        HeadAbsorbs(HeadStep(HeadStep(h, CR), LF), rest);
      } else {
        HeadRefinesSplit(true, rest);
      }
  }

  // ----- agreement

  /** A well-formed head: a non-empty first line, proper lines, a blank line, and nothing else. */
  predicate IsHead(head: bytes, lines: seq<bytes>) {
    lines != [] && ProperLines(lines) && head == RenderSection(lines)
  }

  /** Whatever scans to a blank line after some lines has its first CRLFCRLF there. */
  lemma BlankIsFirstDouble(t: bytes, more: bytes)
    requires ScanLines(t).ending.Blank? && ScanLines(t).lines != []
    ensures var lines := ScanLines(t).lines;
      && |RenderSection(lines)| >= 4 && RenderSection(lines) <= t
      && Find(CRLFCRLF, t + more) == Some(|RenderSection(lines)| - 4)
  {
    hide ScanLines, FindFrom;
    ScanSpells(t);
    var scan := ScanLines(t);
    assert t + more == RenderLines(scan.lines) + CRLF + (scan.ending.rest + more);
    FirstDouble(scan.lines, scan.ending.rest + more);
    assert t == RenderSection(scan.lines) + scan.ending.rest;
  }

  /** A head cut at the first CRLFCRLF and accepted by the head machine consists of lines. */
  lemma CompleteHeadIsLines(s: bytes)
    requires Find(CRLFCRLF, s).Some?
    requires Run(HeadStep, HEAD_INIT, s[..Find(CRLFCRLF, s).value + 4]).status.Complete?
    ensures var head := s[..Find(CRLFCRLF, s).value + 4];
      ScanLines(head).ending.Blank? && IsHead(head, ScanLines(head).lines)
  {
    hide ScanLines, FindFrom, HeadStep;
    var end := Find(CRLFCRLF, s).value;
    var head := s[..end + 4];
    HeadRefinesSplit(false, head);
    assert s == head + s[end + 4..];
    BlankIsFirstDouble(head, s[end + 4..]);
  }

  /** Conversely, any lines and a blank line in front of anything are cut there and accepted. */
  lemma LinesAreACompleteHead(lines: seq<bytes>, tail: bytes)
    requires lines != [] && ProperLines(lines)
    ensures var s := RenderSection(lines) + tail;
      && Find(CRLFCRLF, s) == Some(|RenderSection(lines)| - 4)
      && Run(HeadStep, HEAD_INIT, RenderSection(lines)).status.Complete?
  {
    hide ScanLines, HeadStep, Run, FindFrom, Find;
    FirstDouble(lines, tail);
    HeadRefinesSplit(false, RenderSection(lines));
    ScanRendered(lines, []);
    assert RenderLines(lines) + CRLF + [] == RenderSection(lines);
  }

  lemma NoBareBreakBehindLine(line: bytes, more: bytes)
    requires Clean(line) && NoBareBreak(more)
    ensures NoBareBreak(line + CRLF + more)
  {
    var s := line + CRLF + more;
    var n := |line| + 2;
    forall k | 0 <= k < |s| ensures !BareAt(s, k) {
      if k >= n {
        assert !BareAt(more, k - n);
        assert s[k] == more[k - n];
        assert k + 1 < |s| ==> s[k + 1] == more[k + 1 - n];
        assert k > n ==> s[k - 1] == more[k - 1 - n];
      } else if k < |line| {
        assert s[k] == line[k];
      }
    }
  }

  lemma {:induction false} LinesHaveNoBareBreak(lines: seq<bytes>, tail: bytes)
    requires ProperLines(lines) && NoBareBreak(tail)
    ensures NoBareBreak(RenderLines(lines) + tail)
    decreases |lines|
  {
    if lines == [] {
      assert RenderLines(lines) + tail == tail;
    } else {
      var more := RenderLines(lines[1..]) + tail;
      LinesHaveNoBareBreak(lines[1..], tail);
      NoBareBreakBehindLine(lines[0], more);
      assert RenderLines(lines) + tail == lines[0] + CRLF + more;
    }
  }

  lemma BareBreakAfterLines(lines: seq<bytes>, piece: bytes)
    requires NextLine(piece).Broken?
    ensures !NoBareBreak(RenderLines(lines) + piece)
  {
    var s := RenderLines(lines) + piece;
    var text := NextLine(piece).text;
    var n := |RenderLines(lines)|;
    var k := n + |text|;
    assert s[k] == piece[|text|];
    if s[k] == CR {
      assert s[k + 1] == piece[|text| + 1];
    } else if text != [] {
      assert s[k - 1] == piece[|text| - 1] == text[|text| - 1];
    } else if lines != [] {
      RenderedEnd(lines);
      assert s[k - 1] == RenderLines(lines)[n - 1];
    }
    assert BareAt(s, k);
  }

  /** A stream that stops inside a line does not end in LF CR LF. */
  lemma UnfinishedEnd(lines: seq<bytes>, text: bytes, cr: bool)
    requires ProperLines(lines) && Clean(text)
    ensures var s := RenderLines(lines) + if cr then text + [CR] else text;
      |s| >= 3 && s[|s| - 1] == LF ==> s[|s| - 3] != LF
  {
    var s := RenderLines(lines) + if cr then text + [CR] else text;
    if cr {
      assert s[|s| - 1] == CR;
    } else if text != [] {
      assert s[|s| - 1] == text[|text| - 1];
    } else if lines != [] {
      LastLineNotBlank(lines);
      assert s == RenderLines(lines);
    }
  }

  lemma CutHeadIsDecided(s: bytes, end: nat)
    requires Find(CRLFCRLF, s) == Some(end)
    ensures !ScanLines(s[..end + 4]).ending.Unfinished?
  {
    hide ScanLines, FindFrom;
    var head := s[..end + 4];
    DoubleMatches(s, end);
    ScanSpells(head);
    var scan := ScanLines(head);
    if scan.ending.Unfinished? {
      UnfinishedEnd(scan.lines, scan.ending.text, scan.ending.cr);
    }
  }

  lemma {:induction false} LastLineNotBlank(lines: seq<bytes>)
    requires lines != [] && ProperLines(lines)
    ensures |RenderLines(lines)| >= 3 && RenderLines(lines)[|RenderLines(lines)| - 3] != LF
    decreases |lines|
  {
    var s := RenderLines(lines);
    assert s == lines[0] + CRLF + RenderLines(lines[1..]);
    if |lines| > 1 {
      LastLineNotBlank(lines[1..]);
      assert s[|s| - 3] == RenderLines(lines[1..])[|RenderLines(lines[1..])| - 3];
    } else {
      assert s[|s| - 3] == lines[0][|lines[0]| - 1];
    }
  }

  /** On a head cut at the first CRLFCRLF the head machine always decides; it accepts exactly
      when the head does not begin with CRLF and has no bare CR or LF; and no earlier byte
      could have completed it. */
  lemma HeadBoundaryAgreement(s: bytes, end: nat)
    requires Find(CRLFCRLF, s) == Some(end)
    ensures var head := s[..end + 4];
      var h := Run(HeadStep, HEAD_INIT, head);
      && !h.status.Incomplete?
      && (h.status.Complete? <==> !(CRLF <= head) && NoBareBreak(head))
      && forall k {:trigger head[..k]} :: 0 <= k < |head| ==> !Run(HeadStep, HEAD_INIT, head[..k]).status.Complete?
  {
    hide ScanLines, FindFrom, HeadStep;
    var head := s[..end + 4];
    HeadRefinesSplit(false, head);
    CutHeadIsDecided(s, end);
    ScanSpells(head);
    var scan := ScanLines(head);
    if Run(HeadStep, HEAD_INIT, head).status.Complete? {
      CompleteHeadIsLines(s);
      assert NoBareBreak(CRLF);
      LinesHaveNoBareBreak(scan.lines, CRLF);
      assert head[0] == scan.lines[0][0];
    } else if scan.ending.Malformed? {
      BareBreakAfterLines(scan.lines, scan.ending.piece);
    } else {
      assert head == CRLF + scan.ending.rest;
    }
    forall k | 0 <= k < |head| ensures !Run(HeadStep, HEAD_INIT, head[..k]).status.Complete? {
      NoEarlierComplete(s, end, k);
    }
  }

  lemma NoEarlierComplete(s: bytes, end: nat, k: nat)
    requires Find(CRLFCRLF, s) == Some(end) && k < end + 4
    ensures !Run(HeadStep, HEAD_INIT, s[..end + 4][..k]).status.Complete?
  {
    hide ScanLines, FindFrom, HeadStep;
    var t := s[..end + 4][..k];
    HeadRefinesSplit(false, t);
    if Run(HeadStep, HEAD_INIT, t).status.Complete? {
      assert s == t + s[k..];
      BlankIsFirstDouble(t, s[k..]);
    }
  }

  /** The hand-off: in an accepted head the first CRLF ends a non-empty line, and the header
      machine fed everything after it decides, completing (if it does) on the very last byte. */
  lemma HeaderHandOff(head: bytes, lines: seq<bytes>)
    requires IsHead(head, lines)
    ensures Find(CRLF, head) == Some(|lines[0]|) && lines[0] != []
    ensures head[|lines[0]| + 2..] == RenderSection(lines[1..])
    ensures var rest := RenderSection(lines[1..]);
      var parsed := ParseLines(lines[1..]);
      && Run(HeaderStep, HEADER_INIT, rest).status == (if parsed.ok then Complete else Invalid)
      && (parsed.ok ==> Run(HeaderStep, HEADER_INIT, rest).fields == parsed.fields)
      && forall k {:trigger rest[..k]} :: 0 <= k < |rest| ==> !Run(HeaderStep, HEADER_INIT, rest[..k]).status.Complete?
  {
    var rest := RenderSection(lines[1..]);
    assert head == lines[0] + CRLF + rest;
    FirstCrlf(lines[0], rest);
    ScanRendered(lines[1..], []);
    assert RenderLines(lines[1..]) + CRLF + [] == rest;
    HeaderRefinesSplit([], rest);
    assert [] + ParseLines(lines[1..]).fields == ParseLines(lines[1..]).fields;
    forall k | 0 <= k < |rest| ensures !Run(HeaderStep, HEADER_INIT, rest[..k]).status.Complete? {
      OpenBeforeLastByte(lines[1..], k);
    }
  }

  lemma OpenBeforeLastByte(lines: seq<bytes>, k: nat)
    requires ProperLines(lines) && k < |RenderSection(lines)|
    ensures !Run(HeaderStep, HEADER_INIT, RenderSection(lines)[..k]).status.Complete?
  {
    var open := RenderLines(lines) + [CR];
    var t := RenderSection(lines)[..k];
    assert t == open[..k] && open == open[..k] + open[k..];
    RunConcat(HeaderStep, HEADER_INIT, t, open[k..]);
    ScanPrefix(lines, [CR]);
    HeaderRefinesSplit([], open);
    if Run(HeaderStep, HEADER_INIT, t).status.Complete? {
      HeaderAbsorbs(Run(HeaderStep, HEADER_INIT, t), open[k..]);
    }
  }

  // ----- the parser object, the same four fields in C and Rust

  class RequestParser {
    var status: Status
    var sawFirstLine: bool
    var lineHasBytes: bool
    var pendingCr: bool

    ghost function Abs(): HeadState
      reads this
    {
      HeadState(status, sawFirstLine, lineHasBytes, pendingCr)
    }

    constructor ()
      ensures Abs() == HEAD_INIT
    {
      status, sawFirstLine, lineHasBytes, pendingCr := Incomplete, false, false, false;
    }

    method Feed(chunk: bytes) returns (result: Status)
      modifies this
      ensures Abs() == Run(HeadStep, old(Abs()), chunk) && result == status
    {
      ghost var start := Abs();
      if !status.Incomplete? {
        HeadAbsorbs(start, chunk);
        return status;
      }
      var index := 0;
      while index < |chunk|
        invariant 0 <= index <= |chunk|
        invariant status.Incomplete?
        invariant Abs() == Run(HeadStep, start, chunk[..index])
      {
        var b := chunk[index];
        HeadConsumed(start, chunk, index);
        index := index + 1;
        if pendingCr {
          if b != LF {
            status := Invalid;
            return status;
          }
          pendingCr := false;
          if !sawFirstLine {
            if !lineHasBytes {
              status := Invalid;
              return status;
            }
            sawFirstLine := true;
          } else if !lineHasBytes {
            status := Complete;
            return status;
          }
          lineHasBytes := false;
          continue;
        }
        if b == CR {
          pendingCr := true;
        } else if b == LF {
          status := Invalid;
          return status;
        } else {
          lineHasBytes := true;
        }
      }
      assert chunk[..|chunk|] == chunk;
      result := status;
    }
  }

  lemma HeadConsumed(h: HeadState, input: bytes, index: nat)
    requires index < |input|
    ensures var next := HeadStep(Run(HeadStep, h, input[..index]), input[index]);
      && Run(HeadStep, h, input[..index + 1]) == next
      && (!next.status.Incomplete? ==> Run(HeadStep, h, input) == next)
  {
    StopsAt(HeadStep, h, input, index);
  }
}
