/**
 * The line readers: c/line_reader.c scans its buffer in place and moves the tail to the front
 * after each line; rust/src/line_reader.rs walks an offset and drains once.
 */
module LineReader {
  import opened Bytes
  import opened Lines
  import opened Buffers
  import opened RequestHead

  /** Lines found in a buffer, without their CRLF, and what is left. */
  datatype Cut = Cut(lines: seq<bytes>, pending: bytes)

  predicate HasNoCrlf(s: bytes) {
    Find(CRLF, s).None?
  }

  function SplitCrlf(s: bytes): Cut
    decreases |s|
  {
    match Find(CRLF, s)
    case None => Cut([], s)
    case Some(k) =>
      var tail := SplitCrlf(s[k + 2..]);
      Cut([s[..k]] + tail.lines, tail.pending)
  }

  /** A reading of a stream as CRLF-free lines and a CRLF-free remainder. */
  predicate Reads(s: bytes, cut: Cut) {
    && s == RenderLines(cut.lines) + cut.pending
    && HasNoCrlf(cut.pending)
    && forall k :: 0 <= k < |cut.lines| ==> HasNoCrlf(cut.lines[k])
  }

  lemma PrefixHasNoCrlf(s: bytes, k: nat)
    requires Find(CRLF, s) == Some(k)
    ensures HasNoCrlf(s[..k])
  {
    forall j | 0 <= j ensures !MatchesAt(CRLF, s[..k], j) {
      CrlfMatches(s[..k], j);
      CrlfMatches(s, j);
    }
  }

  lemma FirstAfterLine(line: bytes, rest: bytes)
    requires HasNoCrlf(line)
    ensures Find(CRLF, line + CRLF + rest) == Some(|line|)
  {
    var s := line + CRLF + rest;
    forall j | 0 <= j <= |line| ensures MatchesAt(CRLF, s, j) <==> j == |line| {
      CrlfMatches(s, j);
      CrlfMatches(line, j);
      assert j < |line| ==> s[j] == line[j];
      assert j + 1 < |line| ==> s[j + 1] == line[j + 1];
    }
    FindIs(CRLF, s, |line|);
  }

  lemma {:induction false} SplitReads(s: bytes)
    ensures Reads(s, SplitCrlf(s))
    decreases |s|
  {
    SplitStep(s);
    hide SplitCrlf, FindFrom, Reads;
    if Find(CRLF, s).Some? {
      var k := Find(CRLF, s).value;
      SplitReads(s[k + 2..]);
      PrefixHasNoCrlf(s, k);
      assert s == s[..k] + CRLF + s[k + 2..];
      LineInFront(s[..k], s[k + 2..], SplitCrlf(s[k + 2..]));
    } else {
      NothingInFront(s);
    }
  }

  lemma NothingInFront(s: bytes)
    requires HasNoCrlf(s)
    ensures Reads(s, Cut([], s))
  {
    assert s == [] + s;
  }

  lemma LineInFront(line: bytes, rest: bytes, tail: Cut)
    requires HasNoCrlf(line) && Reads(rest, tail)
    ensures Reads(line + CRLF + rest, Cut([line] + tail.lines, tail.pending))
  {
    hide HasNoCrlf;
    assert ([line] + tail.lines)[1..] == tail.lines;
    assert line + CRLF + rest == line + CRLF + RenderLines(tail.lines) + tail.pending;
  }

  lemma SplitStep(s: bytes)
    ensures Find(CRLF, s).None? ==> SplitCrlf(s) == Cut([], s)
    ensures Find(CRLF, s).Some? ==>
      var k := Find(CRLF, s).value;
      SplitCrlf(s) == Cut([s[..k]] + SplitCrlf(s[k + 2..]).lines, SplitCrlf(s[k + 2..]).pending)
  {
  }

  lemma SplitLine(line: bytes, rest: bytes)
    requires HasNoCrlf(line)
    ensures SplitCrlf(line + CRLF + rest) == Cut([line] + SplitCrlf(rest).lines, SplitCrlf(rest).pending)
  {
    hide SplitCrlf;
    var s := line + CRLF + rest;
    FirstAfterLine(line, rest);
    SplitStep(s);
    assert s[..|line|] == line && s[|line| + 2..] == rest;
  }

  /** The reading exists and is the only one. */
  lemma {:induction false} ReadingIsUnique(s: bytes, cut: Cut)
    ensures Reads(s, cut) <==> cut == SplitCrlf(s)
    decreases |cut.lines|
  {
    hide SplitCrlf, HasNoCrlf, FindFrom;
    SplitReads(s);
    if Reads(s, cut) {
      if cut.lines == [] {
        assert s == cut.pending;
        NoCrlfIsPending(s);
      } else {
        var tail := Cut(cut.lines[1..], cut.pending);
        var rest := RenderLines(tail.lines) + cut.pending;
        assert s == cut.lines[0] + CRLF + rest;
        SplitLine(cut.lines[0], rest);
        ReadingIsUnique(rest, tail);
        assert cut.lines == [cut.lines[0]] + tail.lines;
      }
    }
  }

  lemma NoCrlfIsPending(s: bytes)
    requires HasNoCrlf(s)
    ensures SplitCrlf(s) == Cut([], s)
  {
  }

  lemma ReadsConcat(a: bytes, first: Cut, b: bytes, second: Cut)
    requires Reads(a, first) && Reads(first.pending + b, second)
    ensures Reads(a + b, Cut(first.lines + second.lines, second.pending))
  {
    hide HasNoCrlf, RenderLines;
    RenderLinesConcat(first.lines, second.lines);
    assert a + b == RenderLines(first.lines) + (first.pending + b);
  }

  /** Feeding a and then b emits the lines of a + b, in order, and leaves the same remainder. */
  lemma SplitIsAnAction(a: bytes, b: bytes)
    ensures var first := SplitCrlf(a);
      var second := SplitCrlf(first.pending + b);
      SplitCrlf(a + b) == Cut(first.lines + second.lines, second.pending)
  {
    hide SplitCrlf, Reads;
    var first := SplitCrlf(a);
    var second := SplitCrlf(first.pending + b);
    SplitReads(a);
    SplitReads(first.pending + b);
    ReadsConcat(a, first, b, second);
    ReadingIsUnique(a + b, Cut(first.lines + second.lines, second.pending));
  }

  /** What a run of feeds emits, and what it leaves pending. */
  function FeedAll(pending: bytes, parts: seq<bytes>): Cut
    decreases |parts|
  {
    if parts == [] then Cut([], pending)
    else
      var now := SplitCrlf(pending + parts[0]);
      var later := FeedAll(now.pending, parts[1..]);
      Cut(now.lines + later.lines, later.pending)
  }

  /** Conservation and independence of the cut: over any run of feeds the emitted lines, each
      with its CRLF, and then the remainder spell the stream, and they are its only reading. */
  lemma {:induction false} FeedsReadTheStream(pending: bytes, parts: seq<bytes>)
    requires HasNoCrlf(pending)
    ensures FeedAll(pending, parts) == SplitCrlf(pending + Concat(parts))
    ensures Reads(pending + Concat(parts), FeedAll(pending, parts))
    decreases |parts|
  {
    hide SplitCrlf, Reads, HasNoCrlf;
    if parts == [] {
      assert pending + Concat(parts) == pending;
      NoCrlfIsPending(pending);
    } else {
      var now := SplitCrlf(pending + parts[0]);
      PendingHasNoCrlf(pending + parts[0]);
      FeedsReadTheStream(now.pending, parts[1..]);
      SplitIsAnAction(pending + parts[0], Concat(parts[1..]));
      assert pending + Concat(parts) == pending + parts[0] + Concat(parts[1..]);
    }
    SplitReads(pending + Concat(parts));
  }

  lemma PendingHasNoCrlf(s: bytes)
    ensures HasNoCrlf(SplitCrlf(s).pending)
  {
    SplitReads(s);
  }

  // ----- Rust

  class RustLineReader {
    var pending: bytes

    constructor ()
      ensures pending == []
    {
      pending := [];
    }

    method Feed(chunk: bytes) returns (lines: seq<bytes>)
      modifies this
      ensures Cut(lines, pending) == SplitCrlf(old(pending) + chunk)
    {
      hide SplitCrlf, FindFrom;
      pending := pending + chunk;
      ghost var all := pending;
      lines := [];
      var consumed := 0;
      var found := Find(CRLF, pending[consumed..]);
      assert pending[0..] == all && [] + SplitCrlf(all).lines == SplitCrlf(all).lines;
      while found.Some?
        invariant 0 <= consumed <= |pending| && pending == all
        invariant found == Find(CRLF, pending[consumed..])
        invariant var left := SplitCrlf(pending[consumed..]);
          SplitCrlf(all) == Cut(lines + left.lines, left.pending)
        decreases |pending| - consumed
      {
        var end := consumed + found.value;
        assert pending[consumed..][..found.value] == pending[consumed..end];
        assert pending[consumed..][found.value + 2..] == pending[end + 2..];
        ghost var left := SplitCrlf(pending[end + 2..]);
        SplitStep(pending[consumed..]);
        assert lines + ([pending[consumed..end]] + left.lines) == lines + [pending[consumed..end]] + left.lines;
        lines := lines + [pending[consumed..end]];
        consumed := end + 2;
        found := Find(CRLF, pending[consumed..]);
      }
      SplitStep(pending[consumed..]);
      assert lines + [] == lines;
      if consumed > 0 {
        pending := pending[consumed..];
      }
    }
  }

  // ----- C

  /** The emit callback: records lines until it starts to refuse them. */
  class Sink {
    var lines: seq<bytes>
    var budget: nat

    constructor (budget: nat)
      ensures lines == [] && this.budget == budget
    {
      lines, this.budget := [], budget;
    }

    method Emit(line: bytes) returns (ok: bool)
      modifies this
      ensures ok <==> old(budget) > 0
      ensures lines == old(lines) + if ok then [line] else []
    {
      if budget == 0 {
        return false;
      }
      budget := budget - 1;
      lines := lines + [line];
      ok := true;
    }
  }

  class LineReader {
    const pending: ByteBuffer

    constructor (sizeMax: nat)
      requires sizeMax >= 64
      ensures fresh(pending) && fresh(pending.data) && pending.Valid() && pending.Contents() == []
    {
      pending := new ByteBuffer(sizeMax, 64);
    }

    /** One scan of the buffer for CRLF from its start. */
    method Scan() returns (found: Option<nat>)
      requires pending.Valid()
      ensures found == Find(CRLF, pending.Contents())
    {
      var index := 0;
      ghost var s := pending.Contents();
      while index + 1 < pending.length
        invariant 0 <= index <= pending.length
        invariant forall j :: 0 <= j < index ==> !MatchesAt(CRLF, s, j)
        decreases pending.length - index
      {
        CrlfMatches(s, index);
        if pending.data[index] == CR && pending.data[index + 1] == LF {
          FindIs(CRLF, s, index);
          return Some(index);
        }
        index := index + 1;
      }
      forall j | 0 <= j ensures !MatchesAt(CRLF, s, j) {
        CrlfMatches(s, j);
      }
      found := None;
    }

    /** Hands the first line to the callback and then moves the tail over it. */
    method EmitLine(index: nat, sink: Sink) returns (ok: bool)
      requires pending.Valid() && index + 2 <= pending.length
      modifies pending`length, pending.data, sink
      ensures pending.Valid()
      ensures sink.lines == old(sink.lines) + if ok then [old(pending.Contents())[..index]] else []
      ensures pending.Contents() == if ok then old(pending.Contents())[index + 2..] else old(pending.Contents())
    {
      assert pending.data[..index] == pending.Contents()[..index];
      ok := sink.Emit(pending.data[..index]);
      if ok {
        pending.DropFront(index + 2);
      }
    }

    /** Emits every complete line and keeps the rest. When the callback refuses a line, the lines
        before it have been emitted, and it and everything after it stay pending. Input that
        does not fit changes nothing. */
    method Feed(chunk: bytes, sink: Sink) returns (ok: bool)
      requires pending.Valid()
      modifies pending, pending.data, sink
      ensures pending.Valid() && (pending.data == old(pending.data) || fresh(pending.data))
      ensures ok ==> var cut := SplitCrlf(old(pending.Contents()) + chunk);
        sink.lines == old(sink.lines) + cut.lines && pending.Contents() == cut.pending
      ensures !ok && old(pending.length) + |chunk| <= pending.sizeMax ==>
        var cut := SplitCrlf(old(pending.Contents()) + chunk);
        exists n :: 0 <= n < |cut.lines| && sink.lines == old(sink.lines) + cut.lines[..n]
                    && pending.Contents() == RenderLines(cut.lines[n..]) + cut.pending
      ensures old(pending.length) + |chunk| > pending.sizeMax ==>
        !ok && sink.lines == old(sink.lines) && pending.Contents() == old(pending.Contents())
    {
      hide SplitCrlf, FindFrom, Find, RenderLines, Progress;
      var appended := pending.Append(chunk);
      if !appended {
        return false;
      }
      ghost var all := pending.Contents();
      ghost var before := sink.lines;
      ghost var emitted: seq<bytes> := [];
      NothingEmitted(all);
      var found := Scan();
      while found.Some?
        invariant pending.Valid() && (pending.data == old(pending.data) || fresh(pending.data))
        invariant found == Find(CRLF, pending.Contents())
        invariant sink.lines == before + emitted
        invariant Progress(all, emitted, pending.Contents())
        decreases pending.length
      {
        ghost var buffer := pending.Contents();
        ok := EmitLine(found.value, sink);
        if !ok {
          Refused(all, emitted, buffer);
          return;
        }
        Emitted(all, emitted, buffer, found.value);
        emitted := emitted + [buffer[..found.value]];
        found := Scan();
      }
      AllEmitted(all, emitted, pending.Contents());
      ok := true;
    }
  }

  /** `emitted` are the first lines of `all`, and `buffer` is what follows them. */
  predicate Progress(all: bytes, emitted: seq<bytes>, buffer: bytes) {
    && RenderLines(emitted) + buffer == all
    && SplitCrlf(all) == Cut(emitted + SplitCrlf(buffer).lines, SplitCrlf(buffer).pending)
  }

  lemma NothingEmitted(all: bytes)
    ensures Progress(all, [], all)
  {
    assert [] + SplitCrlf(all).lines == SplitCrlf(all).lines;
  }

  /** The lines before the refused one are the first of the reading; the rest is still there. */
  lemma Refused(all: bytes, emitted: seq<bytes>, buffer: bytes)
    requires Progress(all, emitted, buffer) && Find(CRLF, buffer).Some?
    ensures var cut := SplitCrlf(all);
      && |emitted| < |cut.lines| && emitted == cut.lines[..|emitted|]
      && buffer == RenderLines(cut.lines[|emitted|..]) + cut.pending
  {
    SplitStep(buffer);
    hide SplitCrlf;
    SplitReads(buffer);
  }

  lemma AllEmitted(all: bytes, emitted: seq<bytes>, buffer: bytes)
    requires Progress(all, emitted, buffer) && Find(CRLF, buffer).None?
    ensures SplitCrlf(all) == Cut(emitted, buffer)
  {
    assert emitted + [] == emitted;
  }

  lemma Emitted(all: bytes, emitted: seq<bytes>, buffer: bytes, index: nat)
    requires Progress(all, emitted, buffer) && Find(CRLF, buffer) == Some(index)
    ensures Progress(all, emitted + [buffer[..index]], buffer[index + 2..])
  {
    hide SplitCrlf, FindFrom;
    var line, rest := buffer[..index], buffer[index + 2..];
    SplitStep(buffer);
    RenderLinesConcat(emitted, [line]);
    assert RenderLines([line]) == line + CRLF + [];
    assert buffer == line + CRLF + rest;
    assert emitted + ([line] + SplitCrlf(rest).lines) == emitted + [line] + SplitCrlf(rest).lines;
  }
}
