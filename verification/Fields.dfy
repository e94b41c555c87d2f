/** Header and trailer fields: one line's grammar, its normal form, and printing. */
module Fields {
  import opened Bytes
  import opened Lines

  datatype Field = Field(name: bytes, value: bytes)

  predicate IsOws(b: byte) {
    b == SP || b == HTAB
  }

  predicate AllOws(s: bytes) {
    forall k :: 0 <= k < |s| ==> IsOws(s[k])
  }

  predicate IsNameByte(b: byte) {
    b > SP && b != DEL && b != COLON
  }

  predicate IsName(s: bytes) {
    s != [] && forall k :: 0 <= k < |s| ==> IsNameByte(s[k])
  }

  predicate IsTrimmed(v: bytes) {
    v == [] || (!IsOws(v[0]) && !IsOws(v[|v| - 1]))
  }

  function TrimRight(v: bytes): bytes {
    if v != [] && IsOws(v[|v| - 1]) then TrimRight(v[..|v| - 1]) else v
  }

  function Trim(v: bytes): bytes {
    if v != [] && IsOws(v[0]) then Trim(v[1..]) else TrimRight(v)
  }

  function ColonIndex(line: bytes): (k: nat)
    ensures k <= |line| && forall j :: 0 <= j < k ==> line[j] != COLON
    ensures k < |line| ==> line[k] == COLON
  {
    if line == [] || line[0] == COLON then 0 else 1 + ColonIndex(line[1..])
  }

  /** Find the colon, then judge the name before it; the value is what is left once trimmed. */
  function ParseField(line: bytes): Option<Field> {
    var k := ColonIndex(line);
    if k < |line| && IsName(line[..k]) then Some(Field(LowerAll(line[..k]), Trim(line[k + 1..]))) else None
  }

  /** The field grammar: field-name ":" OWS field-value OWS. */
  predicate Spells(line: bytes, name: bytes, left: bytes, value: bytes, right: bytes) {
    && line == name + [COLON] + left + value + right
    && IsName(name) && AllOws(left) && AllOws(right) && IsTrimmed(value)
  }

  lemma {:induction false} TrimRightExact(value: bytes, right: bytes)
    requires AllOws(right) && (value == [] || !IsOws(value[|value| - 1]))
    ensures TrimRight(value + right) == value
    decreases |right|
  {
    if right == [] {
      assert value + right == value;
    } else {
      var init := right[..|right| - 1];
      assert (value + right)[..|value + right| - 1] == value + init;
      TrimRightExact(value, init);
    }
  }

  lemma {:induction false} TrimExact(left: bytes, value: bytes, right: bytes)
    requires AllOws(left) && AllOws(right) && IsTrimmed(value)
    ensures Trim(left + value + right) == value
    decreases |left| + |right|
  {
    var v := left + value + right;
    if left != [] {
      assert v[1..] == left[1..] + value + right;
      TrimExact(left[1..], value, right);
    } else if value != [] {
      assert v == value + right;
      TrimRightExact(value, right);
    } else if right != [] {
      assert v == right && v[1..] == [] + [] + right[1..];
      TrimExact([], [], right[1..]);
    }
  }

  lemma {:induction false} TrimRightSplits(v: bytes) returns (right: bytes)
    ensures AllOws(right) && v == TrimRight(v) + right
    ensures TrimRight(v) == [] || !IsOws(TrimRight(v)[|TrimRight(v)| - 1])
    decreases |v|
  {
    right := [];
    if v != [] && IsOws(v[|v| - 1]) {
      var r := TrimRightSplits(v[..|v| - 1]);
      right := r + [v[|v| - 1]];
    }
  }

  lemma {:induction false} TrimSplits(v: bytes) returns (left: bytes, right: bytes)
    ensures AllOws(left) && AllOws(right) && IsTrimmed(Trim(v)) && v == left + Trim(v) + right
    decreases |v|
  {
    if v != [] && IsOws(v[0]) {
      var l, r := TrimSplits(v[1..]);
      left, right := [v[0]] + l, r;
    } else {
      left := [];
      right := TrimRightSplits(v);
      assert Trim(v) != [] ==> Trim(v)[0] == v[0];
    }
  }

  lemma ColonIndexAt(name: bytes, rest: bytes)
    requires IsName(name)
    ensures ColonIndex(name + [COLON] + rest) == |name|
  {
    var line := name + [COLON] + rest;
    assert line[|name|] == COLON;
    assert forall j :: 0 <= j < |name| ==> line[j] == name[j];
  }

  /** Any reading of a line by the grammar is the reading the parser returns. */
  lemma ParsesAsSpelled(line: bytes, name: bytes, left: bytes, value: bytes, right: bytes)
    requires Spells(line, name, left, value, right)
    ensures ParseField(line) == Some(Field(LowerAll(name), value))
  {
    assert line == name + [COLON] + (left + value + right);
    ColonIndexAt(name, left + value + right);
    TrimExact(left, value, right);
    assert line[..|name|] == name && line[|name| + 1..] == left + value + right;
  }

  lemma SpelledAt(line: bytes, k: nat, left: bytes, value: bytes, right: bytes)
    requires k < |line| && line[k] == COLON && IsName(line[..k])
    requires AllOws(left) && AllOws(right) && IsTrimmed(value) && line[k + 1..] == left + value + right
    ensures Spells(line, line[..k], left, value, right)
  {
    assert line == line[..k] + [COLON] + line[k + 1..];
  }

  /** The parser accepts a line exactly when the grammar does. */
  lemma ParseFieldIffGrammar(line: bytes)
    ensures ParseField(line).Some? <==> exists name, left, value, right :: Spells(line, name, left, value, right)
  {
    if ParseField(line).Some? {
      var k := ColonIndex(line);
      var left, right := TrimSplits(line[k + 1..]);
      SpelledAt(line, k, left, Trim(line[k + 1..]), right);
    }
    hide Spells, ParseField;
    if name, left, value, right :| Spells(line, name, left, value, right) {
      ParsesAsSpelled(line, name, left, value, right);
    }
  }

  /** Which octets are optional whitespace. */
  lemma WhitespaceIsThese(b: byte)
    ensures IsOws(b) <==> b in Ascii(" \t")
  {
    var blanks := Ascii(" \t");
    assert blanks == [32, 9];
  }

  /** The name runs up to the first colon: at least one octet, all visible or above ASCII. */
  predicate NameEndsAt(line: bytes, k: nat) {
    && 0 < k < |line| && line[k] == 0x3A
    && forall j :: 0 <= j < k ==> line[j] != 0x3A && (0x21 <= line[j] <= 0x7E || line[j] >= 0x80)
  }

  /** The same rule octet by octet: what is accepted, and what is returned. */
  lemma ParseFieldByOctets(line: bytes)
    ensures ParseField(line).Some? <==> exists k: nat :: NameEndsAt(line, k)
    ensures forall k: nat :: NameEndsAt(line, k) ==>
      ParseField(line) == Some(Field(LowerAll(line[..k]), Trim(line[k + 1..])))
  {
    var k := ColonIndex(line);
    forall j: nat | NameEndsAt(line, j) ensures j == k {
    }
    if ParseField(line).Some? {
      assert forall j :: 0 <= j < k ==> line[..k][j] == line[j];
      assert NameEndsAt(line, k);
    }
  }

  // ----- normal form

  /** A field a caller may print: a name the grammar takes and a value free of line breaks. */
  predicate IsPrintable(f: Field) {
    IsName(f.name) && Clean(f.value)
  }

  function Normalize(f: Field): Field {
    Field(LowerAll(f.name), Trim(f.value))
  }

  function NormalizeAll(fields: seq<Field>): (r: seq<Field>)
    ensures |r| == |fields| && forall k :: 0 <= k < |r| ==> r[k] == Normalize(fields[k])
  {
    seq(|fields|, k requires 0 <= k < |fields| => Normalize(fields[k]))
  }

  function PrintField(f: Field): bytes {
    f.name + [COLON, SP] + f.value
  }

  function PrintFields(fields: seq<Field>): (r: seq<bytes>)
    ensures |r| == |fields| && forall k :: 0 <= k < |r| ==> r[k] == PrintField(fields[k])
  {
    seq(|fields|, k requires 0 <= k < |fields| => PrintField(fields[k]))
  }

  lemma ParsePrinted(f: Field)
    requires IsPrintable(f)
    ensures Clean(PrintField(f)) && PrintField(f) != []
    ensures ParseField(PrintField(f)) == Some(Normalize(f))
  {
    var left, right := TrimSplits(f.value);
    var line := PrintField(f);
    assert line == f.name + [COLON] + ([SP] + left) + Trim(f.value) + right;
    ParsesAsSpelled(line, f.name, [SP] + left, Trim(f.value), right);
  }

  /** Every parsed field is in normal form, and printing keeps it on one line. */
  lemma ParsedIsNormal(line: bytes)
    requires ParseField(line).Some? && Clean(line)
    ensures var f := ParseField(line).value; IsPrintable(f) && Normalize(f) == f
  {
    var k := ColonIndex(line);
    TrimmedPart(line, k + 1);
    var f := ParseField(line).value;
    hide Trim, ColonIndex;
    LowerName(line[..k]);
  }

  lemma LowerName(name: bytes)
    requires IsName(name)
    ensures IsName(LowerAll(name)) && LowerAll(LowerAll(name)) == LowerAll(name)
  {
  }

  lemma TrimmedPart(line: bytes, from: nat)
    requires from <= |line| && Clean(line)
    ensures var v := Trim(line[from..]); Clean(v) && Trim(v) == v
  {
    var v := Trim(line[from..]);
    var left, right := TrimSplits(line[from..]);
    assert v == [] + v + [];
    TrimExact([], v, []);
    forall j | 0 <= j < |v| ensures !IsBreak(v[j]) {
      assert v[j] == line[from..][|left| + j] == line[from + |left| + j];
    }
  }

  // ----- a section's lines

  datatype Parsed = Parsed(fields: seq<Field>, ok: bool)

  /** Parses lines in order and stops at the first bad one. */
  function ParseLines(lines: seq<bytes>): (r: Parsed)
    ensures |r.fields| <= |lines|
    ensures r.ok <==> |r.fields| == |lines|
    ensures forall k :: 0 <= k < |r.fields| ==> ParseField(lines[k]) == Some(r.fields[k])
    ensures !r.ok ==> ParseField(lines[|r.fields|]).None?
  {
    if lines == [] then Parsed([], true)
    else
      match ParseField(lines[0])
      case None => Parsed([], false)
      case Some(f) =>
        var tail := ParseLines(lines[1..]);
        Parsed([f] + tail.fields, tail.ok)
  }

  lemma ParseLinesCons(line: bytes, f: Field, lines: seq<bytes>)
    requires ParseField(line) == Some(f)
    ensures ParseLines([line] + lines) == Parsed([f] + ParseLines(lines).fields, ParseLines(lines).ok)
  {
    assert ([line] + lines)[1..] == lines;
  }

  lemma ParseLinesAt(lines: seq<bytes>, fields: seq<Field>)
    requires |fields| == |lines|
    requires forall k :: 0 <= k < |lines| ==> ParseField(lines[k]) == Some(fields[k])
    ensures ParseLines(lines) == Parsed(fields, true)
  {
    var r := ParseLines(lines);
    assert r.fields == fields;
  }

  lemma ParsePrintedFields(fields: seq<Field>)
    requires forall k :: 0 <= k < |fields| ==> IsPrintable(fields[k])
    ensures ProperLines(PrintFields(fields))
    ensures ParseLines(PrintFields(fields)) == Parsed(NormalizeAll(fields), true)
  {
    forall k | 0 <= k < |fields|
      ensures var line := PrintFields(fields)[k];
        Clean(line) && line != [] && ParseField(line) == Some(NormalizeAll(fields)[k])
    {
      ParsePrinted(fields[k]);
    }
    ParseLinesAt(PrintFields(fields), NormalizeAll(fields));
  }

  // ----- the loops

  /** The trimming index loops shared by the C and Rust header parsers. */
  method TrimBounds(line: bytes, from: nat) returns (start: nat, end: nat)
    requires from <= |line|
    ensures from <= start <= end <= |line| && line[start..end] == Trim(line[from..])
  {
    start, end := from, |line|;
    while start < end && IsOws(line[start])
      invariant from <= start <= end == |line|
      invariant Trim(line[start..]) == Trim(line[from..])
    {
      assert line[start..][1..] == line[start + 1..];
      start := start + 1;
    }
    ghost var v := line[start..];
    assert Trim(v) == TrimRight(v) && v == line[start..end];
    while end > start && IsOws(line[end - 1])
      invariant start <= end <= |line|
      invariant TrimRight(line[start..end]) == TrimRight(v)
    {
      assert line[start..end][..end - start - 1] == line[start..end - 1];
      end := end - 1;
    }
  }

  /** The C form: the name is judged byte by byte on the way to the colon. */
  method ParseHeaderLine(line: bytes) returns (r: Option<Field>)
    ensures r == ParseField(line)
  {
    if |line| == 0 || IsOws(line[0]) {
      return None;
    }
    var colon := 0;
    while colon < |line| && line[colon] != COLON
      invariant 0 <= colon <= |line|
      invariant forall j :: 0 <= j < colon ==> IsNameByte(line[j])
    {
      var b := line[colon];
      if b <= SP || b == DEL {
        assert colon < ColonIndex(line);
        assert line[..ColonIndex(line)][colon] == b;
        return None;
      }
      colon := colon + 1;
    }
    assert colon == ColonIndex(line);
    if colon == 0 || colon == |line| {
      return None;
    }
    var start, end := TrimBounds(line, colon + 1);
    var name := LowerCopy(line[..colon]);
    r := Some(Field(name, line[start..end]));
  }

  /** Lower-casing a copy in place. */
  method LowerCopy(name: bytes) returns (r: bytes)
    ensures r == LowerAll(name)
  {
    var copy := new byte[|name|](k requires 0 <= k < |name| => name[k]);
    for index := 0 to |name|
      invariant forall k :: 0 <= k < index ==> copy[k] == Lower(name[k])
      invariant forall k :: index <= k < |name| ==> copy[k] == name[k]
    {
      copy[index] := Lower(copy[index]);
    }
    r := copy[..];
  }
}
