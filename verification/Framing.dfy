/** Choosing the body framing from the header fields: three loops, one counting rule. */
module Framing {
  import opened Bytes
  import opened Fields

  const CONTENT_LENGTH: bytes := Ascii("content-length")
  const TRANSFER_ENCODING: bytes := Ascii("transfer-encoding")
  const CHUNKED: bytes := Ascii("chunked")

  datatype Framing = ByLength(value: bytes) | Chunked | Refused

  /** The fields of one name, in order. */
  function Named(fields: seq<Field>, name: bytes): seq<Field> {
    if fields == [] then []
    else
      var init := Named(fields[..|fields| - 1], name);
      if fields[|fields| - 1].name == name then init + [fields[|fields| - 1]] else init
  }

  /** The rule: exactly one of the two fields occurs, once; a transfer coding must be chunked. */
  function SelectFraming(fields: seq<Field>): Framing {
    var codings := Named(fields, TRANSFER_ENCODING);
    Decide(Named(fields, CONTENT_LENGTH), codings, codings != [] && LowerAll(codings[0].value) == CHUNKED)
  }

  function Decide(lengths: seq<Field>, codings: seq<Field>, known: bool): Framing {
    if |lengths| == 1 && |codings| == 0 then ByLength(lengths[0].value)
    else if |lengths| == 0 && |codings| == 1 && known then Chunked
    else Refused
  }

  lemma {:induction false} NamedCounts(fields: seq<Field>, name: bytes, f: Field)
    ensures multiset(Named(fields, name))[f] == if f.name == name then multiset(fields)[f] else 0
    decreases |fields|
  {
    if fields != [] {
      var init, last := fields[..|fields| - 1], fields[|fields| - 1];
      assert fields == init + [last];
      NamedCounts(init, name, f);
    }
  }

  lemma NamedPermuted(a: seq<Field>, b: seq<Field>, name: bytes)
    requires multiset(a) == multiset(b)
    ensures multiset(Named(a, name)) == multiset(Named(b, name))
  {
    forall f ensures multiset(Named(a, name))[f] == multiset(Named(b, name))[f] {
      NamedCounts(a, name, f);
      NamedCounts(b, name, f);
    }
  }

  lemma SameSingleton(a: seq<Field>, b: seq<Field>)
    requires multiset(a) == multiset(b)
    ensures |a| == |b| && (|a| == 1 ==> a == b)
  {
    assert |multiset(a)| == |a| && |multiset(b)| == |b|;
    if |a| == 1 {
      assert a[0] in multiset(b);
      assert a == [a[0]] && b == [b[0]];
    }
  }

  /** The decision does not depend on the order of the header fields. */
  lemma FramingIsOrderFree(a: seq<Field>, b: seq<Field>)
    requires multiset(a) == multiset(b)
    ensures SelectFraming(a) == SelectFraming(b)
  {
    NamedPermuted(a, b, CONTENT_LENGTH);
    NamedPermuted(a, b, TRANSFER_ENCODING);
    SameSingleton(Named(a, CONTENT_LENGTH), Named(b, CONTENT_LENGTH));
    SameSingleton(Named(a, TRANSFER_ENCODING), Named(b, TRANSFER_ENCODING));
  }

  lemma NamedSnoc(fields: seq<Field>, k: nat, name: bytes)
    requires k < |fields|
    ensures Named(fields[..k + 1], name)
         == Named(fields[..k], name) + if fields[k].name == name then [fields[k]] else []
  {
    assert fields[..k + 1][..k] == fields[..k];
  }

  lemma NamedNothing(fields: seq<Field>)
    ensures forall name :: Named(fields[..0], name) == []
  {
  }

  lemma {:induction false} NamedGrows(fields: seq<Field>, k: nat, name: bytes)
    requires k <= |fields|
    ensures Named(fields[..k], name) <= Named(fields, name)
    decreases |fields| - k
  {
    if k == |fields| {
      assert fields[..k] == fields;
    } else {
      NamedSnoc(fields, k, name);
      NamedGrows(fields, k + 1, name);
    }
  }

  lemma {:induction false} NamedConcat(a: seq<Field>, b: seq<Field>, name: bytes)
    ensures Named(a + b, name) == Named(a, name) + Named(b, name)
    decreases |b|
  {
    if b == [] {
      assert a + b == a;
    } else {
      var init := b[..|b| - 1];
      assert (a + b)[..|a + b| - 1] == a + init;
      NamedConcat(a, init, name);
    }
  }

  lemma {:induction false} NamedNone(fields: seq<Field>, name: bytes)
    ensures Named(fields, name) == [] <==> forall k :: 0 <= k < |fields| ==> fields[k].name != name
    decreases |fields|
  {
    if fields != [] {
      NamedNone(fields[..|fields| - 1], name);
    }
  }

  // ----- the rule by position

  predicate IsFramingName(name: bytes) {
    name == Ascii("content-length") || name == Ascii("transfer-encoding")
  }

  /** The field at `k` is a framing field, and no other field is. */
  predicate OnlyFraming(fields: seq<Field>, k: nat) {
    && k < |fields| && IsFramingName(fields[k].name)
    && forall j :: 0 <= j < |fields| && j != k ==> !IsFramingName(fields[j].name)
  }

  lemma OnlyIsNamed(fields: seq<Field>, k: nat)
    requires OnlyFraming(fields, k)
    ensures Named(fields, CONTENT_LENGTH) == if fields[k].name == CONTENT_LENGTH then [fields[k]] else []
    ensures Named(fields, TRANSFER_ENCODING) == if fields[k].name == TRANSFER_ENCODING then [fields[k]] else []
  {
    NamedAlone(fields, k, CONTENT_LENGTH);
    NamedAlone(fields, k, TRANSFER_ENCODING);
  }

  lemma NamedAlone(fields: seq<Field>, k: nat, name: bytes)
    requires k < |fields| && forall j :: 0 <= j < |fields| && j != k ==> fields[j].name != name
    ensures Named(fields, name) == if fields[k].name == name then [fields[k]] else []
  {
    assert fields == fields[..k + 1] + fields[k + 1..];
    NamedConcat(fields[..k + 1], fields[k + 1..], name);
    NamedSnoc(fields, k, name);
    NamedNone(fields[..k], name);
    NamedNone(fields[k + 1..], name);
  }

  lemma NamedTwice(fields: seq<Field>, j: nat, k: nat, name: bytes)
    requires j < k < |fields| && fields[j].name == fields[k].name == name
    ensures |Named(fields, name)| > 1
  {
    var front, back := fields[..k], fields[k..];
    assert fields == front + back && front[j] == fields[j] && back[0] == fields[k];
    NamedConcat(front, back, name);
    NamedNone(front, name);
    NamedNone(back, name);
  }

  /** When the two fields occur once in total, that occurrence is the only framing field. */
  lemma CountedOnce(fields: seq<Field>) returns (k: nat)
    requires |Named(fields, CONTENT_LENGTH)| + |Named(fields, TRANSFER_ENCODING)| == 1
    ensures OnlyFraming(fields, k)
  {
    hide Named;
    NamedNone(fields, CONTENT_LENGTH);
    NamedNone(fields, TRANSFER_ENCODING);
    var name := if Named(fields, CONTENT_LENGTH) == [] then TRANSFER_ENCODING else CONTENT_LENGTH;
    k :| 0 <= k < |fields| && fields[k].name == name;
    forall j | 0 <= j < |fields| && j != k ensures fields[j].name != name {
      if fields[j].name == name {
        NamedTwice(fields, if j < k then j else k, if j < k then k else j, name);
      }
    }
  }

  /** What each decision means, without counting: there is exactly one framing field, and it is
      a Content-Length, or a Transfer-Encoding with a known coding; all else is refused. */
  ghost predicate FollowsRule(fields: seq<Field>, r: Framing, known: bytes -> bool) {
    && (forall v :: r == ByLength(v) <==> exists k: nat :: OnlyLength(fields, k, v))
    && (r == Chunked <==> exists k: nat :: OnlyCoding(fields, k) && known(fields[k].value))
    && (r == Refused <==> forall k: nat :: OnlyFraming(fields, k) ==> OnlyCoding(fields, k) && !known(fields[k].value))
  }

  predicate OnlyLength(fields: seq<Field>, k: nat, v: bytes) {
    OnlyFraming(fields, k) && fields[k] == Field(Ascii("content-length"), v)
  }

  predicate OnlyCoding(fields: seq<Field>, k: nat) {
    OnlyFraming(fields, k) && fields[k].name == Ascii("transfer-encoding")
  }

  lemma DecideFollowsRule(fields: seq<Field>, known: bytes -> bool)
    ensures var codings := Named(fields, TRANSFER_ENCODING);
      var r := Decide(Named(fields, CONTENT_LENGTH), codings, codings != [] && known(codings[0].value));
      FollowsRule(fields, r, known)
  {
    hide Named;
    assert |CONTENT_LENGTH| != |TRANSFER_ENCODING|;
    var codings := Named(fields, TRANSFER_ENCODING);
    var r := Decide(Named(fields, CONTENT_LENGTH), codings, codings != [] && known(codings[0].value));
    forall k: nat | OnlyFraming(fields, k) ensures r == DecisionOf(fields[k], known(fields[k].value)) {
      OnlyIsNamed(fields, k);
    }
    if !r.Refused? {
      var k := CountedOnce(fields);
      assert r == DecisionOf(fields[k], known(fields[k].value));
      assert if r.Chunked? then OnlyCoding(fields, k) else OnlyLength(fields, k, r.value);
    }
  }

  /** The decision for a list whose only framing field this is. */
  function DecisionOf(f: Field, known: bool): Framing {
    if f.name == CONTENT_LENGTH then ByLength(f.value) else if known then Chunked else Refused
  }

  /** The rule of C and Rust: a coding is known when it is "chunked" up to ASCII case. */
  lemma FramingRule(fields: seq<Field>)
    ensures FollowsRule(fields, SelectFraming(fields), v => LowerAll(v) == Ascii("chunked"))
  {
    hide FollowsRule, Named;
    DecideFollowsRule(fields, v => LowerAll(v) == Ascii("chunked"));
  }

  /** Two framing fields anywhere are refused: both kinds together, and either one twice. */
  lemma AmbiguousIsRefused(fields: seq<Field>, j: nat, k: nat)
    requires j < k < |fields| && IsFramingName(fields[j].name) && IsFramingName(fields[k].name)
    ensures SelectFraming(fields) == SelectFramingGoSpec(fields) == Refused
  {
    hide EqualFold, Named, IsFramingName;
    FramingRule(fields);
    GoFramingRule(fields);
    forall i: nat ensures !OnlyFraming(fields, i) {
    }
  }

  /** A header line with capitals and with whitespace on both sides of its value. */
  function CodingLine(): bytes {
    Ascii("Transfer-Encoding: \tChunked ")
  }

  /** It parses to the lower-case name and the bare value, and selects chunked framing. */
  lemma CodingLineText()
    ensures var field := Field(Ascii("transfer-encoding"), Ascii("Chunked"));
      && Clean(CodingLine()) && CodingLine() != []
      && ParseField(CodingLine()) == Some(field) && SelectFraming([field]) == Chunked
  {
    hide ParseField, Named, Spells, CodingLine;
    CodingLineSpells();
    CodingNames();
    ParsesAsSpelled(CodingLine(), Ascii("Transfer-Encoding"), [SP, HTAB], Ascii("Chunked"), [SP]);
    CodingSelects(Ascii("Chunked"));
  }

  lemma CodingLineSpells()
    ensures Clean(CodingLine()) && CodingLine() != []
    ensures Spells(CodingLine(), Ascii("Transfer-Encoding"), [SP, HTAB], Ascii("Chunked"), [SP])
  {
  }

  lemma CodingNames()
    ensures LowerAll(Ascii("Transfer-Encoding")) == TRANSFER_ENCODING && LowerAll(Ascii("Chunked")) == CHUNKED
  {
  }

  lemma CodingSelects(value: bytes)
    requires LowerAll(value) == CHUNKED
    ensures SelectFraming([Field(TRANSFER_ENCODING, value)]) == Chunked
  {
    hide Named;
    var fields := [Field(TRANSFER_ENCODING, value)];
    assert |CONTENT_LENGTH| != |TRANSFER_ENCODING|;
    assert OnlyFraming(fields, 0);
    OnlyIsNamed(fields, 0);
  }

  method EqualsAsciiCase(text: bytes, literal: bytes) returns (equal: bool)
    requires LowerAll(literal) == literal
    ensures equal <==> LowerAll(text) == literal
  {
    if |text| != |literal| {
      return false;
    }
    for index := 0 to |text|
      invariant forall k :: 0 <= k < index ==> Lower(text[k]) == literal[k]
    {
      if Lower(text[index]) != literal[index] {
        assert LowerAll(text)[index] != literal[index];
        return false;
      }
    }
    equal := true;
  }

  /** select_framing in c/http_echo_server.c: refuses a second field, or a coding it does not
      know, as soon as it meets it. */
  method SelectFramingC(fields: seq<Field>) returns (r: Framing)
    ensures r == SelectFraming(fields)
  {
    hide Named;
    NamedNothing(fields);
    var sawLength, sawTransfer, value := false, false, [];
    for index := 0 to |fields|
      invariant var lengths := Named(fields[..index], CONTENT_LENGTH);
        |lengths| == (if sawLength then 1 else 0) && (sawLength ==> value == lengths[0].value)
      invariant var codings := Named(fields[..index], TRANSFER_ENCODING);
        |codings| == (if sawTransfer then 1 else 0) && (sawTransfer ==> LowerAll(codings[0].value) == CHUNKED)
    {
      var field := fields[index];
      NamedSnoc(fields, index, CONTENT_LENGTH);
      NamedSnoc(fields, index, TRANSFER_ENCODING);
      NamedGrows(fields, index + 1, CONTENT_LENGTH);
      NamedGrows(fields, index + 1, TRANSFER_ENCODING);
      if field.name == CONTENT_LENGTH {
        if sawLength {
          return Refused;
        }
        sawLength := true;
        value := field.value;
      } else if field.name == TRANSFER_ENCODING {
        var known := EqualsAsciiCase(field.value, CHUNKED);
        if sawTransfer || !known {
          return Refused;
        }
        sawTransfer := true;
      }
    }
    assert fields[..|fields|] == fields;
    if sawLength == sawTransfer {
      return Refused;
    }
    r := if sawTransfer then Chunked else ByLength(value);
  }

  /** select_echo_framing in rust/src/tcp_server.rs: collects both, then matches on the pair. */
  method SelectFramingRust(headers: seq<Field>) returns (r: Framing)
    ensures r == SelectFraming(headers)
  {
    hide Named;
    NamedNothing(headers);
    var contentLength: Option<bytes> := None;
    var transferEncoding: Option<bytes> := None;
    for index := 0 to |headers|
      invariant var lengths := Named(headers[..index], CONTENT_LENGTH);
        match contentLength
        case None => |lengths| == 0
        case Some(v) => |lengths| == 1 && lengths[0].value == v
      invariant var codings := Named(headers[..index], TRANSFER_ENCODING);
        match transferEncoding
        case None => |codings| == 0
        case Some(v) => |codings| == 1 && codings[0].value == v
    {
      var header := headers[index];
      NamedSnoc(headers, index, CONTENT_LENGTH);
      NamedSnoc(headers, index, TRANSFER_ENCODING);
      NamedGrows(headers, index + 1, CONTENT_LENGTH);
      NamedGrows(headers, index + 1, TRANSFER_ENCODING);
      if header.name == CONTENT_LENGTH {
        if contentLength.Some? {
          return Refused;
        }
        contentLength := Some(header.value);
      } else if header.name == TRANSFER_ENCODING {
        if transferEncoding.Some? {
          return Refused;
        }
        transferEncoding := Some(header.value);
      }
    }
    assert headers[..|headers|] == headers;
    match (contentLength, transferEncoding) {
      case (Some(_), Some(_)) => r := Refused;
      case (None, None) => r := Refused;
      case (Some(value), None) => r := ByLength(value);
      case (None, Some(value)) =>
        var known := EqualsAsciiCase(value, CHUNKED);
        r := if known then Chunked else Refused;
    }
  }

  // ----- Go's case folding

  /** The UTF-8 forms of U+212A KELVIN SIGN and U+017F LATIN SMALL LETTER LONG S: the only code
      points outside ASCII whose simple case folding is an ASCII letter. */
  const KELVIN: bytes := [0xE2, 0x84, 0xAA]
  const LONG_S: bytes := [0xC5, 0xBF]

  /** How many bytes at the front of `text` fold to one lower-case ASCII letter; 0 for none. */
  function FoldsTo(text: bytes, letter: byte): (n: nat)
    ensures n <= |text|
  {
    if text == [] then 0
    else if text[0] < 128 then if Lower(text[0]) == letter then 1 else 0
    else if letter == 107 && KELVIN <= text then 3
    else if letter == 115 && LONG_S <= text then 2
    else 0
  }

  /** strings.EqualFold against a lower-case ASCII literal, letter by letter. */
  predicate EqualFold(text: bytes, literal: bytes)
    decreases |literal|
  {
    if literal == [] then text == []
    else
      var n := FoldsTo(text, literal[0]);
      n > 0 && EqualFold(text[n..], literal[1..])
  }

  /** ASCII, and neither of the two letters that have a third form. */
  predicate FoldsInAscii(literal: bytes) {
    forall k :: 0 <= k < |literal| ==> literal[k] < 128 && literal[k] != 107 && literal[k] != 115
  }

  lemma {:induction false} EqualFoldPrefix(text: bytes, plain: bytes, more: bytes)
    requires FoldsInAscii(plain)
    ensures EqualFold(text, plain + more)
       <==> |plain| <= |text| && LowerAll(text[..|plain|]) == plain && EqualFold(text[|plain|..], more)
    decreases |plain|
  {
    if plain == [] {
      assert plain + more == more;
    } else {
      assert (plain + more)[1..] == plain[1..] + more;
      if text != [] {
        var rest := text[1..];
        EqualFoldPrefix(rest, plain[1..], more);
        if |plain| <= |text| {
          assert rest[|plain| - 1..] == text[|plain|..];
          LowerCons(text[..|plain|], plain);
          assert text[..|plain|][1..] == rest[..|plain| - 1];
        }
      }
    }
  }

  lemma LowerCons(text: bytes, literal: bytes)
    requires text != [] && literal != []
    ensures LowerAll(text) == literal <==> Lower(text[0]) == literal[0] && LowerAll(text[1..]) == literal[1..]
  {
    assert LowerAll(text) == [Lower(text[0])] + LowerAll(text[1..]);
    assert literal == [literal[0]] + literal[1..];
  }

  /** Unicode folding is ASCII folding for a literal with no 'k' and no 's'. */
  lemma {:induction false} EqualFoldIsAscii(text: bytes, literal: bytes)
    requires FoldsInAscii(literal)
    ensures EqualFold(text, literal) <==> LowerAll(text) == literal
  {
    EqualFoldPrefix(text, literal, []);
    assert literal + [] == literal && (|text| == |literal| ==> text[..|literal|] == text);
  }

  /** "chunked" with its 'k' written as a Kelvin sign. */
  predicate IsKelvinChunked(value: bytes) {
    && |value| == |CHUNKED| + 2
    && LowerAll(value[..4]) == CHUNKED[..4] && value[4..7] == KELVIN && LowerAll(value[7..]) == CHUNKED[5..]
  }

  /** What folds to "chunked": its ASCII spellings, and those with a Kelvin sign. */
  lemma EqualFoldChunked(value: bytes)
    ensures EqualFold(value, CHUNKED) <==> LowerAll(value) == CHUNKED || IsKelvinChunked(value)
  {
    var chun, ed := CHUNKED[..4], CHUNKED[5..];
    assert CHUNKED == chun + ([107] + ed);
    EqualFoldPrefix(value, chun, [107] + ed);
    if |value| >= 4 {
      FoldsFromK(value[4..], ed);
      LowerSplit(value, 4, CHUNKED);
    }
  }

  lemma LowerSplit(text: bytes, k: nat, literal: bytes)
    requires k <= |text| && k <= |literal|
    ensures LowerAll(text) == literal <==> LowerAll(text[..k]) == literal[..k] && LowerAll(text[k..]) == literal[k..]
  {
    assert LowerAll(text) == LowerAll(text[..k]) + LowerAll(text[k..]);
    assert literal == literal[..k] + literal[k..];
  }

  lemma FoldsFromK(text: bytes, ed: bytes)
    requires FoldsInAscii(ed)
    ensures EqualFold(text, [107] + ed)
       <==> LowerAll(text) == [107] + ed || (KELVIN <= text && LowerAll(text[3..]) == ed)
  {
    assert ([107] + ed)[1..] == ed;
    if text != [] {
      LowerCons(text, [107] + ed);
      EqualFoldIsAscii(text[1..], ed);
      if KELVIN <= text {
        EqualFoldIsAscii(text[3..], ed);
      }
    }
  }

  /** The counting rule with Unicode folding on the coding. */
  function SelectFramingGoSpec(headers: seq<Field>): Framing {
    var codings := Named(headers, TRANSFER_ENCODING);
    Decide(Named(headers, CONTENT_LENGTH), codings, codings != [] && EqualFold(codings[0].value, CHUNKED))
  }

  /** selectRequestFraming in go/internal/tcpserver/server.go: a pointer, a count and the last value. */
  method SelectFramingGo(headers: seq<Field>) returns (r: Framing)
    ensures r == SelectFramingGoSpec(headers)
  {
    hide EqualFold, Named;
    var contentLength: Option<bytes> := None;
    var transferEncodingCount, transferEncoding := 0, [];
    NamedNothing(headers);
    for index := 0 to |headers|
      invariant var lengths := Named(headers[..index], CONTENT_LENGTH);
        match contentLength
        case None => |lengths| == 0
        case Some(v) => |lengths| == 1 && lengths[0].value == v
      invariant var codings := Named(headers[..index], TRANSFER_ENCODING);
        && transferEncodingCount == |codings|
        && (codings != [] ==> transferEncoding == codings[|codings| - 1].value)
    {
      var header := headers[index];
      NamedSnoc(headers, index, CONTENT_LENGTH);
      NamedSnoc(headers, index, TRANSFER_ENCODING);
      NamedGrows(headers, index + 1, CONTENT_LENGTH);
      if header.name == CONTENT_LENGTH {
        if contentLength.Some? {
          return Refused;
        }
        contentLength := Some(header.value);
      } else if header.name == TRANSFER_ENCODING {
        transferEncodingCount := transferEncodingCount + 1;
        transferEncoding := header.value;
      }
    }
    assert headers[..|headers|] == headers;
    if contentLength.Some? && transferEncodingCount != 0 {
      return Refused;
    }
    if contentLength.Some? {
      return ByLength(contentLength.value);
    }
    if transferEncodingCount == 1 && EqualFold(transferEncoding, CHUNKED) {
      return Chunked;
    }
    r := Refused;
  }

  /** The rule of Go: the same up to Unicode folding. */
  lemma GoFramingRule(fields: seq<Field>)
    ensures FollowsRule(fields, SelectFramingGoSpec(fields), v => EqualFold(v, Ascii("chunked")))
  {
    hide FollowsRule, Named, EqualFold;
    DecideFollowsRule(fields, v => EqualFold(v, Ascii("chunked")));
  }

  /** The folded letters outside ASCII are U+212A and U+017F in UTF-8. */
  lemma FoldedLetters()
    ensures KELVIN == [0xE0 + 0x212A / 4096, 0x80 + 0x212A / 64 % 64, 0x80 + 0x212A % 64]
    ensures LONG_S == [0xC0 + 0x017F / 64, 0x80 + 0x017F % 64]
    ensures FoldsTo(KELVIN, Ascii("k")[0]) == 3 && FoldsTo(LONG_S, Ascii("s")[0]) == 2
  {
    assert KELVIN <= KELVIN && LONG_S <= LONG_S;
  }

  /** Go decides as C and Rust do unless the only framing field is a Kelvin-sign "chunked". */
  lemma GoFramingAgrees(headers: seq<Field>)
    ensures SelectFramingGoSpec(headers) == SelectFraming(headers)
       <==> !(&& |Named(headers, CONTENT_LENGTH)| == 0
              && |Named(headers, TRANSFER_ENCODING)| == 1
              && IsKelvinChunked(Named(headers, TRANSFER_ENCODING)[0].value))
  {
    var codings := Named(headers, TRANSFER_ENCODING);
    if codings != [] {
      EqualFoldChunked(codings[0].value);
    }
  }

  /** A header list on which they differ. */
  lemma KelvinExample()
    ensures var value := CHUNKED[..4] + KELVIN + CHUNKED[5..];
      var headers := [Field(TRANSFER_ENCODING, value)];
      SelectFraming(headers) == Refused && SelectFramingGoSpec(headers) == Chunked
  {
    var value := CHUNKED[..4] + KELVIN + CHUNKED[5..];
    var headers := [Field(TRANSFER_ENCODING, value)];
    assert |TRANSFER_ENCODING| != |CONTENT_LENGTH|;
    NamedSnoc(headers, 0, CONTENT_LENGTH);
    NamedSnoc(headers, 0, TRANSFER_ENCODING);
    assert headers[..1] == headers && headers[..0] == [];
    assert value[..4] == CHUNKED[..4] && value[4..7] == KELVIN && value[7..] == CHUNKED[5..];
    assert LowerAll(CHUNKED[..4]) == CHUNKED[..4] && LowerAll(CHUNKED[5..]) == CHUNKED[5..];
    assert |LowerAll(value)| != |CHUNKED|;
    EqualFoldChunked(value);
  }
}
