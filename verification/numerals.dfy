/** Digits and decimal numerals: the digit alphabet `parseInt` reads and the
    decimal text `Number.prototype.toString` writes for an integer. */
module Numerals {

  /** The value of `c` as a digit in the largest radix (36): '0'..'9' are
      0..9, 'a'..'z' and 'A'..'Z' are 10..35, and any other character gets
      36, which is a digit in no radix. */
  function DigitValue(c: char): nat {
    if '0' <= c <= '9' then c as int - '0' as int
    else if 'a' <= c <= 'z' then c as int - 'a' as int + 10
    else if 'A' <= c <= 'Z' then c as int - 'A' as int + 10
    else 36
  }

  /** `c` is a radix-`radix` digit in the sense of ECMAScript `parseInt`. */
  predicate IsRadixDigit(c: char, radix: nat) {
    DigitValue(c) < radix
  }

  /** A decimal digit is a digit of radix 10: '0'..'9'. */
  predicate IsDecimalDigit(c: char) {
    IsRadixDigit(c, 10)
  }

  /** The decimal digits are the characters '0' through '9'. */
  lemma DecimalDigitRange(c: char)
    ensures IsDecimalDigit(c) <==> '0' <= c <= '9'
  {
  }

  predicate AllRadixDigits(z: string, radix: nat) {
    forall i :: 0 <= i < |z| ==> IsRadixDigit(z[i], radix)
  }

  /** The mathematical value of a numeral, most significant digit first. */
  function DigitsValue(z: string, radix: nat): nat
    requires AllRadixDigits(z, radix)
  {
    if |z| == 0 then 0
    else DigitsValue(z[..|z| - 1], radix) * radix + DigitValue(z[|z| - 1])
  }

  function DigitChar(d: nat): (c: char)
    requires d < 10
  {
    ('0' as int + d) as char
  }

  /** The shortest decimal numeral of `n`. */
  function NatToDecimal(n: nat): (r: string)
    ensures |r| > 0
    ensures forall i :: 0 <= i < |r| ==> IsDecimalDigit(r[i])
    ensures r[0] == '0' ==> n == 0 && |r| == 1
  {
    if n < 10 then [DigitChar(n)]
    else NatToDecimal(n / 10) + [DigitChar(n % 10)]
  }

  /** `String(n)` for an integer-valued JavaScript number whose shortest
      round-trip decimal is its exact decimal and whose magnitude is below
      10^21; every integer of magnitude up to 2^53 is one. */
  function NumberToString(n: int): (r: string)
    ensures |r| > 0
    ensures r[0] == '-' <==> n < 0
  {
    if n < 0 then "-" + NatToDecimal(-n) else NatToDecimal(n)
  }

  /** Reading back a written numeral gives the number that was written. */
  lemma {:induction false} DecimalRoundTrip(n: nat)
    ensures AllRadixDigits(NatToDecimal(n), 10)
    ensures DigitsValue(NatToDecimal(n), 10) == n
  {
    var r := NatToDecimal(n);
    if n < 10 {
      assert r[..|r| - 1] == [];
    } else {
      DecimalRoundTrip(n / 10);
      assert r[..|r| - 1] == NatToDecimal(n / 10);
    }
  }
}
