/** Decimal and hexadecimal lengths: their values, their printed form, and the guarded accumulators. */
module Numerals {
  import opened Bytes

  datatype Radix = Decimal | Hex {
    function Base(): (n: nat)
      ensures n == 10 || n == 16
    {
      if Decimal? then 10 else 16
    }
  }

  predicate IsDigit(radix: Radix, b: byte) {
    48 <= b <= 57 || (radix.Hex? && (97 <= b <= 102 || 65 <= b <= 70))
  }

  function Digit(radix: Radix, b: byte): (d: nat)
    requires IsDigit(radix, b)
    ensures d < radix.Base()
  {
    if b <= 57 then b - 48 else if 97 <= b then b - 97 + 10 else b - 65 + 10
  }

  predicate AllDigits(radix: Radix, text: bytes) {
    forall k :: 0 <= k < |text| ==> IsDigit(radix, text[k])
  }

  /** The number a digit string denotes, without any bound. */
  function Value(radix: Radix, text: bytes): nat
    requires AllDigits(radix, text)
  {
    if text == [] then 0
    else Value(radix, text[..|text| - 1]) * radix.Base() + Digit(radix, text[|text| - 1])
  }

  /** A length: a non-empty digit string whose value a size can hold. */
  function Parse(radix: Radix, max: nat, text: bytes): (r: Option<nat>)
    ensures r.Some? <==> text != [] && AllDigits(radix, text) && Value(radix, text) <= max
    ensures r.Some? ==> r.value == Value(radix, text)
  {
    if text != [] && AllDigits(radix, text) && Value(radix, text) <= max then Some(Value(radix, text)) else None
  }

  /** Which octets are digits. */
  lemma DigitsAreThese(b: byte)
    ensures IsDigit(Decimal, b) <==> b in Ascii("0123456789")
    ensures IsDigit(Hex, b) <==> b in Ascii("0123456789") || b in Ascii("abcdef") || b in Ascii("ABCDEF")
  {
    InRange("0123456789", 48, b);
    InRange("abcdef", 97, b);
    InRange("ABCDEF", 65, b);
  }

  const DIGITS: bytes := Ascii("0123456789")
  const LOWER_HEX: bytes := Ascii("0123456789abcdef")
  const UPPER_HEX: bytes := Ascii("0123456789ABCDEF")

  /** Which number each digit stands for, in either case, and how it is printed. */
  lemma DigitTable(d: nat)
    requires d < 16
    ensures var lower, upper := LOWER_HEX[d], UPPER_HEX[d];
      && IsDigit(Hex, lower) && Digit(Hex, lower) == d && DigitByte(d) == lower
      && IsDigit(Hex, upper) && Digit(Hex, upper) == d
    ensures d < 10 ==> var b := DIGITS[d]; IsDigit(Decimal, b) && Digit(Decimal, b) == d
  {
  }

  /** A value is positional: the empty text is zero, and one more digit is ten or sixteen times
      the value before it and that digit. */
  lemma ValueIsPositional(text: bytes, d: nat)
    ensures Value(Decimal, []) == Value(Hex, []) == 0
    ensures d < 10 && AllDigits(Decimal, text) ==>
      var longer := text + [DIGITS[d]];
      AllDigits(Decimal, longer) && Value(Decimal, longer) == 10 * Value(Decimal, text) + d
    ensures d < 16 && AllDigits(Hex, text) ==>
      var lower, upper := text + [LOWER_HEX[d]], text + [UPPER_HEX[d]];
      && AllDigits(Hex, lower) && Value(Hex, lower) == 16 * Value(Hex, text) + d
      && AllDigits(Hex, upper) && Value(Hex, upper) == 16 * Value(Hex, text) + d
  {
    if d < 16 {
      DigitTable(d);
      forall b: byte ensures (text + [b])[..|text|] == text { }
    }
  }

  lemma ParseTwo(max: nat, a: byte, b: byte)
    requires IsDigit(Hex, a) && IsDigit(Hex, b)
    ensures var n := 16 * Digit(Hex, a) + Digit(Hex, b);
      Parse(Hex, max, [a, b]) == if n <= max then Some(n) else None
  {
    var text := [a, b];
    assert text[..1] == [a] && [a][..0] == [];
    assert Value(Hex, [a]) == Digit(Hex, a);
    assert AllDigits(Hex, text) && Value(Hex, text) == Value(Hex, [a]) * 16 + Digit(Hex, b);
  }

  /** Two hexadecimal digits in mixed case. */
  lemma ParseMixedCase(max: nat, high: nat, low: nat)
    requires high < 16 && low < 16
    ensures var parsed := if 16 * high + low <= max then Some(16 * high + low) else None;
      && Parse(Hex, max, [UPPER_HEX[high], LOWER_HEX[low]]) == parsed
      && Parse(Hex, max, [LOWER_HEX[high], UPPER_HEX[low]]) == parsed
  {
    hide Parse, Digit, IsDigit;
    DigitTable(high);
    DigitTable(low);
    ParseTwo(max, UPPER_HEX[high], LOWER_HEX[low]);
    ParseTwo(max, LOWER_HEX[high], UPPER_HEX[low]);
  }

  /** A longer digit string never denotes less: an overflowing prefix cannot be rescued. */
  lemma {:induction false} PrefixValue(radix: Radix, text: bytes, k: nat)
    requires AllDigits(radix, text) && k <= |text|
    ensures AllDigits(radix, text[..k]) && Value(radix, text[..k]) <= Value(radix, text)
    decreases |text|
  {
    if k == |text| {
      assert text[..k] == text;
    } else {
      var init := text[..|text| - 1];
      assert init[..k] == text[..k];
      PrefixValue(radix, init, k);
      assert Value(radix, init) <= Value(radix, init) * radix.Base();
    }
  }

  function DigitByte(d: nat): (b: byte)
    requires d < 16
  {
    if d < 10 then 48 + d else 97 + (d - 10)
  }

  /** `%zu` and `%zx`: no leading zeros, lower-case letters. */
  function Print(radix: Radix, n: nat): (text: bytes)
    ensures text != [] && AllDigits(radix, text) && Value(radix, text) == n
    ensures text[0] == 48 ==> n == 0
  {
    if n < radix.Base() then
      var text := [DigitByte(n)];
      assert text[..0] == [];
      text
    else
      var high := Print(radix, n / radix.Base());
      var text := high + [DigitByte(n % radix.Base())];
      assert text[..|text| - 1] == high;
      text
  }

  /** Parsing inverts printing, for exactly the sizes that fit. */
  lemma ParsePrint(radix: Radix, max: nat, n: nat)
    ensures Parse(radix, max, Print(radix, n)) == if n <= max then Some(n) else None
  {
    var text := Print(radix, n);
    assert Value(radix, text) == n;
  }

  /** The accumulator of parse_chunk_size and parse_content_length: the guard keeps every
      intermediate value within `max`, so no multiplication or addition wraps. */
  method Accumulate(radix: Radix, max: nat, text: bytes) returns (r: Option<nat>)
    requires max >= 15
    ensures r == Parse(radix, max, text)
  {
    if |text| == 0 {
      return None;
    }
    var value: nat := 0;
    for index := 0 to |text|
      invariant AllDigits(radix, text[..index])
      invariant value == Value(radix, text[..index]) <= max
    {
      assert text[..index + 1][..index] == text[..index];
      if !IsDigit(radix, text[index]) {
        return None;
      }
      var digit := Digit(radix, text[index]);
      assert text[..index + 1] == text[..index] + [text[index]];
      if value > (max - digit) / radix.Base() {
        GuardIsExact(radix, max, value, digit);
        if AllDigits(radix, text) {
          PrefixValue(radix, text, index + 1);
        }
        return None;
      }
      GuardIsExact(radix, max, value, digit);
      value := value * radix.Base() + digit;
    }
    assert text[..|text|] == text;
    return Some(value);
  }

  lemma GuardIsExact(radix: Radix, max: nat, value: nat, digit: nat)
    requires digit < radix.Base() && digit <= max
    ensures value > (max - digit) / radix.Base() <==> value * radix.Base() + digit > max
  {
  }
}
