/** Octets, and the few octet values the framing rules name. */
module Bytes {
  type byte = b: int | 0 <= b < 256
  type bytes = seq<byte>

  datatype Option<+T> = None | Some(value: T)

  const HTAB: byte := 9
  const LF: byte := 10
  const CR: byte := 13
  const SP: byte := 32
  const PLUS: byte := 43
  const COLON: byte := 58
  const DEL: byte := 127
  const CRLF: bytes := [CR, LF]

  predicate IsBreak(b: byte) {
    b == CR || b == LF
  }

  /** No carriage return and no line feed. */
  predicate Clean(s: bytes) {
    forall k :: 0 <= k < |s| ==> !IsBreak(s[k])
  }

  /** A CR without its LF, or an LF without its CR. */
  predicate BareAt(s: bytes, k: nat)
    requires k < |s|
  {
    || (s[k] == CR && !(k + 1 < |s| && s[k + 1] == LF))
    || (s[k] == LF && !(0 < k && s[k - 1] == CR))
  }

  predicate NoBareBreak(s: bytes) {
    forall k :: 0 <= k < |s| ==> !BareAt(s, k)
  }

  predicate IsAscii(text: string) {
    forall k :: 0 <= k < |text| ==> text[k] < 128 as char
  }

  /** The octets of an ASCII literal. */
  function Ascii(text: string): (s: bytes)
    requires IsAscii(text)
    ensures |s| == |text|
    ensures forall k :: 0 <= k < |s| ==> s[k] == text[k] as int
  {
    seq(|text|, k requires 0 <= k < |text| => text[k] as int)
  }

  function Lower(b: byte): byte {
    if 65 <= b <= 90 then b + 32 else b
  }

  function LowerAll(s: bytes): (t: bytes)
    ensures |t| == |s|
    ensures forall k :: 0 <= k < |s| ==> t[k] == Lower(s[k])
  {
    seq(|s|, k requires 0 <= k < |s| => Lower(s[k]))
  }

  /** The named octets as text. */
  lemma NamedOctets()
    ensures CRLF == [CR, LF] == Ascii("\r\n")
    ensures Ascii("\t +:") == [HTAB, SP, PLUS, COLON]
    ensures Ascii("\U{7F}") == [DEL]
  {
  }

  const CAPITALS: string := "ABCDEFGHIJKLMNOPQRSTUVWXYZ"
  const SMALL_LETTERS: string := "abcdefghijklmnopqrstuvwxyz"

  /** Lower-casing maps the twenty-six capitals to their small letters and leaves the rest alone. */
  lemma LowerTable()
    ensures IsAscii(CAPITALS) && IsAscii(SMALL_LETTERS) && LowerAll(Ascii(CAPITALS)) == Ascii(SMALL_LETTERS)
    ensures forall b: byte :: b !in Ascii(CAPITALS) ==> Lower(b) == b
  {
    LowerShifts(CAPITALS, SMALL_LETTERS);
  }

  lemma LowerShifts(capitals: string, small: string)
    requires |capitals| == |small| == 26 && IsAscii(capitals) && IsAscii(small)
    requires forall k :: 0 <= k < 26 ==> capitals[k] as int == 65 + k && small[k] as int == 97 + k
    ensures LowerAll(Ascii(capitals)) == Ascii(small)
    ensures forall b: byte :: b !in Ascii(capitals) ==> Lower(b) == b
  {
    forall b: byte ensures b in Ascii(capitals) <==> 65 <= b < 91 {
      InRange(capitals, 65, b);
    }
  }

  /** Membership in a text of consecutive octets. */
  lemma InRange(text: string, first: nat, b: byte)
    requires IsAscii(text) && forall k :: 0 <= k < |text| ==> text[k] as int == first + k
    ensures b in Ascii(text) <==> first <= b < first + |text|
  {
    if first <= b < first + |text| {
      assert Ascii(text)[b - first] == b;
    }
  }

  lemma AsciiConcat(a: string, b: string)
    requires IsAscii(a) && IsAscii(b)
    ensures IsAscii(a + b) && Ascii(a + b) == Ascii(a) + Ascii(b)
  {
  }

  function Concat(parts: seq<bytes>): bytes {
    if parts == [] then [] else parts[0] + Concat(parts[1..])
  }
}
