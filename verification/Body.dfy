/** Content-Length bodies: the bulk feeds of C and Rust as one byte-fed machine. */
module Body {
  import opened Bytes
  import opened Streams
  import opened Numerals
  import opened Buffers

  datatype BodyState = BodyState(status: Status, expected: nat, body: bytes, remaining: bytes)

  /** No Content-Length means no body; a bad one is Invalid from the start. */
  function BodyInit(max: nat, value: Option<bytes>): BodyState {
    match value
    case None => BodyState(Complete, 0, [], [])
    case Some(text) =>
      match Parse(Decimal, max, text)
      case None => BodyState(Invalid, 0, [], [])
      case Some(n) => BodyState(if n == 0 then Complete else Incomplete, n, [], [])
  }

  function BodyStep(p: BodyState, b: byte): BodyState {
    if p.status.Incomplete? then
      p.(body := p.body + [b], status := if |p.body| + 1 == p.expected then Complete else Incomplete)
    else p.(remaining := p.remaining + [b])
  }

  lemma {:induction false} SettledKeepsRest(p: BodyState, s: bytes)
    requires !p.status.Incomplete?
    ensures Run(BodyStep, p, s) == p.(remaining := p.remaining + s)
    decreases |s|
  {
    if s == [] {
      assert p.remaining + s == p.remaining;
    } else {
      assert p.remaining + s == p.remaining + [s[0]] + s[1..];
      SettledKeepsRest(BodyStep(p, s[0]), s[1..]);
    }
  }

  predicate Sound(p: BodyState) {
    p.status.Incomplete? ==> |p.body| < p.expected && p.remaining == []
  }

  /** The closed form of a feed: fill the body up to its length, keep the rest. */
  function Bulk(p: BodyState, s: bytes): BodyState
    requires Sound(p)
  {
    if !p.status.Incomplete? then p.(remaining := p.remaining + s)
    else
      var needed := p.expected - |p.body|;
      if |s| < needed then p.(body := p.body + s)
      else p.(body := p.body + s[..needed], remaining := s[needed..], status := Complete)
  }

  /** The bulk form and the byte-fed form are the same machine. */
  lemma {:induction false} BulkIsRun(p: BodyState, s: bytes)
    requires Sound(p)
    ensures Run(BodyStep, p, s) == Bulk(p, s) && Sound(Bulk(p, s))
    decreases |s|
  {
    if !p.status.Incomplete? {
      SettledKeepsRest(p, s);
    } else if s == [] {
      assert p.body + s == p.body;
    } else {
      BulkIsRun(BodyStep(p, s[0]), s[1..]);
      BulkCons(p, s);
    }
  }

  lemma BulkCons(p: BodyState, s: bytes)
    requires Sound(p) && p.status.Incomplete? && s != []
    ensures Sound(BodyStep(p, s[0])) && Bulk(BodyStep(p, s[0]), s[1..]) == Bulk(p, s)
  {
    var needed := p.expected - |p.body|;
    assert [] + s[1..] == s[1..];
    if |s| < needed {
      assert p.body + [s[0]] + s[1..] == p.body + s;
    } else if needed > 1 {
      assert p.body + [s[0]] + s[1..][..needed - 1] == p.body + s[..needed];
    } else {
      assert s[..needed] == [s[0]];
    }
  }

  /** Exactly the declared number of bytes, then everything else, however the bytes arrive. */
  lemma BodyExact(max: nat, text: bytes, n: nat, data: bytes, rest: bytes, parts: seq<bytes>)
    requires Parse(Decimal, max, text) == Some(n) && |data| == n
    requires Concat(parts) == data + rest
    ensures RunParts(BodyStep, BodyInit(max, Some(text)), parts) == BodyState(Complete, n, data, rest)
  {
    var p := BodyInit(max, Some(text));
    SegmentationIndependence(BodyStep, p, parts);
    BulkIsRun(p, data + rest);
    assert (data + rest)[..n] == data && (data + rest)[n..] == rest;
    assert [] + data == data && [] + rest == rest && (n == 0 ==> data + rest == rest);
  }

  /** The parser completes exactly when the length is representable and that many bytes came. */
  lemma BodyCompleteIff(max: nat, text: bytes, s: bytes)
    ensures var p := Run(BodyStep, BodyInit(max, Some(text)), s);
      var n := Parse(Decimal, max, text);
      && (p.status.Complete? <==> n.Some? && n.value <= |s|)
      && (p.status.Complete? ==> p.body == s[..n.value] && p.remaining == s[n.value..])
  {
    var p := BodyInit(max, Some(text));
    BulkIsRun(p, s);
    assert [] + s == s;
    if Parse(Decimal, max, text).Some? && Parse(Decimal, max, text).value <= |s| {
      assert [] + s[..Parse(Decimal, max, text).value] == s[..Parse(Decimal, max, text).value];
    }
  }

  /** Without a Content-Length there is no body: everything fed is over-delivered. */
  lemma NoLengthNoBody(max: nat, s: bytes)
    ensures var p := Run(BodyStep, BodyInit(max, None), s);
      p.status.Complete? && p.body == [] && p.remaining == s
  {
    SettledKeepsRest(BodyInit(max, None), s);
    assert [] + s == s;
  }

  // ----- Rust

  /** `try_fold` with checked multiplication and addition, after the all-digits test. */
  function CheckedFold(max: nat, text: bytes): Option<nat>
    requires AllDigits(Decimal, text)
  {
    if text == [] then Some(0)
    else
      match CheckedFold(max, text[..|text| - 1])
      case None => None
      case Some(length) =>
        var digit := Digit(Decimal, text[|text| - 1]);
        if length * 10 > max || length * 10 + digit > max then None else Some(length * 10 + digit)
  }

  function ParseContentLength(max: nat, text: bytes): Option<nat> {
    if text == [] || !AllDigits(Decimal, text) then None else CheckedFold(max, text)
  }

  lemma {:induction false} CheckedFoldIsExact(max: nat, text: bytes)
    requires AllDigits(Decimal, text)
    ensures CheckedFold(max, text) == if Value(Decimal, text) <= max then Some(Value(Decimal, text)) else None
    decreases |text|
  {
    if text != [] {
      CheckedFoldIsExact(max, text[..|text| - 1]);
    }
  }

  /** The checked fold computes the mathematical value or refuses: no wrap in between. */
  lemma ContentLengthIsExact(max: nat, text: bytes)
    ensures ParseContentLength(max, text) == Parse(Decimal, max, text)
  {
    if AllDigits(Decimal, text) {
      CheckedFoldIsExact(max, text);
    }
  }

  class RustBodyParser {
    var status: Status
    var expectedLength: Option<nat>
    var body: bytes
    var remaining: bytes

    ghost function Abs(): BodyState
      reads this
    {
      BodyState(status, if expectedLength.Some? then expectedLength.value else 0, body, remaining)
    }

    ghost predicate Valid()
      reads this
    {
      Sound(Abs()) && (status.Incomplete? ==> expectedLength.Some?)
    }

    constructor (max: nat, contentLength: Option<bytes>)
      ensures Valid() && Abs() == BodyInit(max, contentLength)
    {
      body, remaining, expectedLength, status := [], [], None, Complete;
      if contentLength.Some? {
        ContentLengthIsExact(max, contentLength.value);
        var parsed := ParseContentLength(max, contentLength.value);
        expectedLength := parsed;
        status := if parsed.None? then Invalid else if parsed.value == 0 then Complete else Incomplete;
      }
    }

    method Feed(chunk: bytes) returns (result: Status)
      requires Valid()
      modifies this
      ensures Valid() && Abs() == Run(BodyStep, old(Abs()), chunk) && result == status
    {
      BulkIsRun(Abs(), chunk);
      if !status.Incomplete? {
        remaining := remaining + chunk;
        return status;
      }
      var expected := expectedLength.value;
      var needed := expected - |body|;
      var consumed := if needed < |chunk| then needed else |chunk|;
      body := body + chunk[..consumed];
      if |body| == expected {
        status := Complete;
        remaining := remaining + chunk[consumed..];
      }
      result := status;
    }
  }

  // ----- C

  class BodyParser {
    const sizeMax: nat
    var status: Status
    var contentLength: nat
    const body: ByteBuffer
    const remaining: ByteBuffer

    ghost predicate Valid()
      reads this, body, remaining, body.data, remaining.data
    {
      && body.Valid() && remaining.Valid()
      && body.sizeMax == remaining.sizeMax == sizeMax
      && body != remaining && body.data != remaining.data
      && contentLength <= sizeMax
      && (status.Incomplete? ==> body.length < contentLength && remaining.length == 0)
    }

    ghost function Abs(): BodyState
      requires Valid()
      reads this, body, remaining, body.data, remaining.data
    {
      BodyState(status, contentLength, body.Contents(), remaining.Contents())
    }

    constructor (sizeMax: nat, contentLength: Option<bytes>)
      requires sizeMax >= 16
      ensures Valid() && Abs() == BodyInit(sizeMax, contentLength) && this.sizeMax == sizeMax
      ensures fresh(body) && fresh(remaining) && fresh(body.data) && fresh(remaining.data)
    {
      this.sizeMax := sizeMax;
      body := new ByteBuffer(sizeMax, 16);
      remaining := new ByteBuffer(sizeMax, 16);
      status, this.contentLength := Complete, 0;
      if contentLength.Some? {
        var parsed := Accumulate(Decimal, sizeMax, contentLength.value);
        if parsed.None? {
          status := Invalid;
        } else {
          this.contentLength := parsed.value;
          if parsed.value != 0 {
            status := Incomplete;
          }
        }
      }
    }

    /** Returns false (the C -1), consuming nothing, only when the over-delivered bytes no longer
        fit a size. The input length is itself a size. */
    method Feed(input: bytes) returns (ok: bool)
      requires Valid() && |input| <= sizeMax
      modifies this, body, remaining, body.data, remaining.data
      ensures Valid()
      ensures body.data == old(body.data) || fresh(body.data)
      ensures remaining.data == old(remaining.data) || fresh(remaining.data)
      ensures Abs() == if ok then Run(BodyStep, old(Abs()), input) else old(Abs())
      ensures !ok ==> old(remaining.length) + |input| > sizeMax
    {
      BulkIsRun(Abs(), input);
      if !status.Incomplete? {
        ok := remaining.Append(input);
      } else {
        FeedOpen(input);
        ok := true;
      }
    }

    method FeedOpen(input: bytes)
      requires Valid() && status.Incomplete? && |input| <= sizeMax
      modifies this, body, remaining, body.data, remaining.data
      ensures Valid()
      ensures body.data == old(body.data) || fresh(body.data)
      ensures remaining.data == old(remaining.data) || fresh(remaining.data)
      ensures Sound(old(Abs())) && Abs() == Bulk(old(Abs()), input)
    {
      assert |body.Contents()| == body.length;
      hide ByteBuffer.Valid;
      var needed := contentLength - body.length;
      var consume := if |input| < needed then |input| else needed;
      var filled := body.Append(input[..consume]);
      filled := remaining.Append(input[consume..]);
      if body.length == contentLength {
        status := Complete;
      }
      assert consume == |input| ==> input[..consume] == input && input[consume..] == [];
    }
  }
}
