/** rust/src/request_line.rs: three non-empty fields between single spaces. */
module RequestLine {
  import opened Bytes
  import opened Lines

  datatype RequestLine = RequestLine(verb: bytes, target: bytes, version: bytes)

  const HTTP11: bytes := Ascii("HTTP/1.1")
  const POST: bytes := Ascii("POST")
  const ECHO: bytes := Ascii("/echo")

  predicate NoSpace(s: bytes) {
    forall k :: 0 <= k < |s| ==> s[k] != SP
  }

  function FirstSpace(s: bytes): (k: nat)
    ensures k <= |s| && forall j :: 0 <= j < k ==> s[j] != SP
    ensures k < |s| ==> s[k] == SP
  {
    if s == [] || s[0] == SP then 0 else 1 + FirstSpace(s[1..])
  }

  /** `split(|b| b == b' ')`. */
  function SplitSpaces(s: bytes): (r: seq<bytes>)
    ensures r != []
    decreases |s|
  {
    var k := FirstSpace(s);
    if k == |s| then [s] else [s[..k]] + SplitSpaces(s[k + 1..])
  }

  /** None of the bytes the parser refuses outright. */
  predicate IsPlain(s: bytes) {
    forall k :: 0 <= k < |s| ==> s[k] != CR && s[k] != LF && s[k] != HTAB
  }

  function ParseRequestLine(line: bytes): Option<RequestLine> {
    if !IsPlain(line) then None
    else
      var fields := SplitSpaces(line);
      if |fields| != 3 || fields[0] == [] || fields[1] == [] || fields[2] != HTTP11 then None
      else Some(RequestLine(fields[0], fields[1], fields[2]))
  }

  /** A field of the line: not empty, and none of CR, LF, HTAB, SP. */
  predicate IsLineField(s: bytes) {
    s != [] && NoSpace(s) && IsPlain(s)
  }

  /** Which octets a field of the line may not hold. */
  lemma LineFieldIsThese(s: bytes)
    ensures IsLineField(s) <==> s != [] && forall k :: 0 <= k < |s| ==> s[k] !in Ascii(" \t\r\n")
  {
    assert Ascii(" \t\r\n") == [32, 9, 13, 10];
  }

  lemma SplitOnce(s: bytes, rest: bytes)
    requires NoSpace(s)
    ensures SplitSpaces(s) == [s]
    ensures SplitSpaces(s + [SP] + rest) == [s] + SplitSpaces(rest)
  {
    var t := s + [SP] + rest;
    assert t[|s|] == SP && forall j :: 0 <= j < |s| ==> t[j] == s[j];
    assert FirstSpace(t) == |s|;
    assert t[..|s|] == s && t[|s| + 1..] == rest;
  }

  function Join(fields: seq<bytes>): bytes {
    if fields == [] then [] else if |fields| == 1 then fields[0] else fields[0] + [SP] + Join(fields[1..])
  }

  lemma SplitLast(s: bytes)
    requires FirstSpace(s) == |s|
    ensures SplitSpaces(s) == [s]
  {
    hide FirstSpace;
  }

  lemma SplitNext(s: bytes, k: nat, rest: bytes)
    requires FirstSpace(s) == k < |s| && rest == s[k + 1..]
    ensures SplitSpaces(s) == [s[..k]] + SplitSpaces(rest)
  {
    hide FirstSpace;
  }

  lemma {:induction false} SplitSpells(s: bytes)
    ensures var r := SplitSpaces(s); Join(r) == s && forall k :: 0 <= k < |r| ==> NoSpace(r[k])
    decreases |s|
  {
    hide SplitSpaces, FirstSpace;
    var k := FirstSpace(s);
    if k == |s| {
      SplitLast(s);
    } else {
      var more := SplitSpaces(s[k + 1..]);
      SplitNext(s, k, s[k + 1..]);
      SplitSpells(s[k + 1..]);
      assert ([s[..k]] + more)[1..] == more;
      assert s == s[..k] + [SP] + s[k + 1..];
    }
  }

  lemma ThreeFields(line: bytes)
    requires |SplitSpaces(line)| == 3
    ensures var r := SplitSpaces(line);
      line == r[0] + [SP] + (r[1] + [SP] + r[2]) && NoSpace(r[0]) && NoSpace(r[1])
  {
    hide SplitSpaces;
    SplitSpells(line);
    var r := SplitSpaces(line);
    var tail := r[1..];
    assert tail[1..] == [r[2]] && Join([r[2]]) == r[2];
    assert Join(tail) == r[1] + [SP] + r[2];
  }

  lemma PlainParts(a: bytes, b: bytes, c: bytes)
    ensures IsPlain(a + [SP] + (b + [SP] + c)) <==> IsPlain(a) && IsPlain(b) && IsPlain(c)
  {
    var s := a + [SP] + (b + [SP] + c);
    assert forall k :: 0 <= k < |a| ==> a[k] == s[k];
    assert forall k :: 0 <= k < |b| ==> b[k] == s[|a| + 1 + k];
    assert forall k :: 0 <= k < |c| ==> c[k] == s[|a| + |b| + 2 + k];
  }

  lemma SplitOfThree(a: bytes, b: bytes, c: bytes)
    requires NoSpace(a) && NoSpace(b) && NoSpace(c)
    ensures SplitSpaces(a + [SP] + (b + [SP] + c)) == [a, b, c]
  {
    hide SplitSpaces;
    SplitOnce(a, b + [SP] + c);
    SplitOnce(b, c);
    SplitOnce(c, []);
  }

  /** The line grammar, both ways: method SP target SP HTTP/1.1. */
  lemma RequestLineGrammar(line: bytes, verb: bytes, target: bytes)
    ensures ParseRequestLine(line) == Some(RequestLine(verb, target, HTTP11))
       <==> IsLineField(verb) && IsLineField(target) && line == verb + [SP] + (target + [SP] + HTTP11)
  {
    hide SplitSpaces;
    assert NoSpace(HTTP11) && IsPlain(HTTP11);
    hide NoSpace, IsPlain;
    PlainParts(verb, target, HTTP11);
    if ParseRequestLine(line) == Some(RequestLine(verb, target, HTTP11)) {
      ThreeFields(line);
    }
    if IsLineField(verb) && IsLineField(target) && line == verb + [SP] + (target + [SP] + HTTP11) {
      SplitOfThree(verb, target, HTTP11);
    }
  }

  const ECHO_LINE: bytes := POST + [SP] + (ECHO + [SP] + HTTP11)

  /** The line the echo server serves. */
  predicate IsEchoLine(line: bytes) {
    ParseRequestLine(line) == Some(RequestLine(POST, ECHO, HTTP11))
  }

  lemma EchoLineIsLiteral(line: bytes)
    ensures IsEchoLine(line) <==> line == ECHO_LINE
    ensures ECHO_LINE != [] && Clean(ECHO_LINE)
  {
    RequestLineGrammar(line, POST, ECHO);
    assert IsLineField(POST) && IsLineField(ECHO);
    PlainParts(POST, ECHO, HTTP11);
    assert IsPlain(HTTP11);
  }

  lemma EchoLineText()
    ensures ECHO_LINE == Ascii("POST /echo HTTP/1.1")
  {
  }
}
