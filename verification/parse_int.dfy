/** ECMAScript `parseInt(string)` with the radix argument omitted, as the job
    detail page applies it to the route parameter (section 19.2.5 of
    ECMAScript 2023). `None` stands for `NaN`. */
module JsParseInt {
  import opened Wrappers
  import opened Numerals

  /** StrWhiteSpaceChar: the WhiteSpace code points (TAB, VT, FF, ZWNBSP and
      every space separator of category Zs) and the LineTerminator code
      points (LF, CR, LS, PS). */
  predicate IsStrWhiteSpace(c: char) {
    || c == '\t' || c == '\U{B}' || c == '\U{C}' || c == '\U{FEFF}'
    || c == ' ' || c == '\U{A0}' || c == '\U{1680}'
    || ('\U{2000}' <= c <= '\U{200A}')
    || c == '\U{202F}' || c == '\U{205F}' || c == '\U{3000}'
    || c == '\n' || c == '\r' || c == '\U{2028}' || c == '\U{2029}'
  }

  /** Removes leading white space (the first step of `parseInt`). */
  function TrimStart(s: string): string {
    if |s| > 0 && IsStrWhiteSpace(s[0]) then TrimStart(s[1..]) else s
  }

  /** Drops one leading '+' or '-'. */
  function StripSign(t: string): string {
    if |t| > 0 && (t[0] == '+' || t[0] == '-') then t[1..] else t
  }

  /** "0x" or "0X": the prefix that switches an omitted radix to 16. */
  predicate HasHexPrefix(u: string) {
    |u| >= 2 && u[0] == '0' && (u[1] == 'x' || u[1] == 'X')
  }

  /** The longest prefix of `s` made of radix-`radix` digits. */
  function LeadingDigits(s: string, radix: nat): (z: string)
    ensures AllRadixDigits(z, radix)
  {
    if |s| > 0 && IsRadixDigit(s[0], radix) then [s[0]] + LeadingDigits(s[1..], radix)
    else []
  }

  /** The unsigned part of `parseInt`: radix 16 after a "0x"/"0X" prefix,
      radix 10 otherwise, then the longest run of digits; no digits at all
      gives `NaN`. */
  function ParseMagnitude(u: string): Option<nat> {
    var radix := if HasHexPrefix(u) then 16 else 10;
    var digits := LeadingDigits(if HasHexPrefix(u) then u[2..] else u, radix);
    if |digits| == 0 then None else Some(DigitsValue(digits, radix))
  }

  /** `parseInt(s)`: skip white space, read an optional sign, then the
      magnitude. Negative zero is the integer 0, which `===` does not
      distinguish from positive zero. */
  function ParseInt(s: string): Option<int> {
    var t := TrimStart(s);
    match ParseMagnitude(StripSign(t))
    case None => None
    case Some(m) =>
      var magnitude: int := m;
      Some(if |t| > 0 && t[0] == '-' then -magnitude else magnitude)
  }

  /** `LeadingDigits` reads the maximal run of digits at the front: a
      prefix of `s`, all digits, and not followed by another digit. */
  lemma {:induction false} LeadingDigitsIsLongest(s: string, radix: nat)
    ensures var z := LeadingDigits(s, radix);
      && |z| <= |s| && z == s[..|z|]
      && (|z| == |s| || !IsRadixDigit(s[|z|], radix))
    decreases |s|
  {
    if |s| > 0 && IsRadixDigit(s[0], radix) {
      LeadingDigitsIsLongest(s[1..], radix);
    }
  }

  /** `TrimStart` removes exactly the leading white space. */
  lemma {:induction false} TrimStartIsLongestWhiteSpacePrefix(s: string)
    ensures var r := TrimStart(s);
      && |r| <= |s| && r == s[|s| - |r|..]
      && (forall i :: 0 <= i < |s| - |r| ==> IsStrWhiteSpace(s[i]))
      && (|r| == 0 || !IsStrWhiteSpace(r[0]))
    decreases |s|
  {
    if |s| > 0 && IsStrWhiteSpace(s[0]) {
      TrimStartIsLongestWhiteSpacePrefix(s[1..]);
      assert forall i :: 1 <= i < |s| ==> s[i] == s[1..][i - 1];
    }
  }

  /** The digit scan stops exactly at the end of a numeral followed by a
      non-digit. */
  lemma {:induction false} LeadingDigitsOfNumeral(z: string, rest: string, radix: nat)
    requires AllRadixDigits(z, radix)
    requires |rest| == 0 || !IsRadixDigit(rest[0], radix)
    ensures LeadingDigits(z + rest, radix) == z
    decreases |z|
  {
    if |z| > 0 {
      LeadingDigitsOfNumeral(z[1..], rest, radix);
      assert (z + rest)[1..] == z[1..] + rest;
      assert z == [z[0]] + z[1..];
    }
  }

  /** The unsigned step reads a decimal numeral back as its value, as long
      as the text after it does not continue it: no digit, and no 'x' or
      'X' after a lone "0". */
  lemma ParseMagnitudeOfDecimal(m: nat, rest: string)
    requires |rest| == 0 || !IsDecimalDigit(rest[0])
    requires m == 0 && |rest| > 0 ==> rest[0] != 'x' && rest[0] != 'X'
    ensures ParseMagnitude(NatToDecimal(m) + rest) == Some(m)
  {
    var d := NatToDecimal(m);
    var u := d + rest;
    assert !HasHexPrefix(u) by {
      if |d| == 1 && d[0] == '0' {
        assert m == 0;
      } else if |d| > 1 {
        assert u[1] == d[1] && IsDecimalDigit(d[1]);
      }
    }
    DecimalRoundTrip(m);
    LeadingDigitsOfNumeral(d, rest, 10);
  }

  /** Reading the decimal text of an integer gives the integer back, and
      text after the numeral is ignored as long as it does not continue the
      numeral: it must not start with a digit, nor, after "0", with 'x' or
      'X' (which would turn "0" into a hexadecimal prefix). */
  lemma ParseIntOfNumberText(n: int, rest: string)
    requires |rest| == 0 || !IsDecimalDigit(rest[0])
    requires n == 0 && |rest| > 0 ==> rest[0] != 'x' && rest[0] != 'X'
    ensures ParseInt(NumberToString(n) + rest) == Some(n)
  {
    var magnitude: nat := if n < 0 then -n else n;
    var u := NatToDecimal(magnitude) + rest;
    var s := NumberToString(n) + rest;
    assert TrimStart(s) == s by {
      if n >= 0 {
        DecimalDigitRange(s[0]);
      }
    }
    assert StripSign(s) == u by {
      if n < 0 {
        assert s == "-" + u;
      } else {
        DecimalDigitRange(u[0]);
      }
    }
    ParseMagnitudeOfDecimal(magnitude, rest);
  }

  /** `parseInt(String(n))` is `n` for every integer `n`. */
  lemma ParseIntRoundTrip(n: int)
    ensures ParseInt(NumberToString(n)) == Some(n)
  {
    ParseIntOfNumberText(n, "");
    assert NumberToString(n) + "" == NumberToString(n);
  }

  lemma {:induction false} TrimStartSkipsWhiteSpace(ws: string, s: string)
    requires forall i :: 0 <= i < |ws| ==> IsStrWhiteSpace(ws[i])
    ensures TrimStart(ws + s) == TrimStart(s)
    decreases |ws|
  {
    var t := ws + s;
    if |ws| == 0 {
      assert t == s;
    } else {
      TrimStartSkipsWhiteSpace(ws[1..], s);
      assert t[0] == ws[0];
      assert TrimStart(t) == TrimStart(t[1..]);
      assert t[1..] == ws[1..] + s;
    }
  }

  /** Leading white space does not change the parsed number. */
  lemma ParseIntSkipsWhiteSpace(ws: string, s: string)
    requires forall i :: 0 <= i < |ws| ==> IsStrWhiteSpace(ws[i])
    ensures ParseInt(ws + s) == ParseInt(s)
  {
    TrimStartSkipsWhiteSpace(ws, s);
  }

  /** `parseInt` gives `NaN` exactly when, after white space and sign, there
      is no decimal digit, or there is a "0x"/"0X" prefix not followed by a
      hexadecimal digit. */
  lemma ParseIntNaNExactly(s: string)
    ensures var u := StripSign(TrimStart(s));
      ParseInt(s) == None <==>
        || |u| == 0
        || !IsDecimalDigit(u[0])
        || (HasHexPrefix(u) && (|u| == 2 || !IsRadixDigit(u[2], 16)))
  {
  }

  /** Text after the leading numeral is ignored: "12abc" reads as 12,
      "3.9" as 3. */
  lemma ParseIntCutsTrailingText()
    ensures ParseInt("12abc") == ParseInt("12") == Some(12)
    ensures ParseInt("3.9") == Some(3)
  {
    assert NatToDecimal(1) == "1";
    assert NatToDecimal(12) == "12";
    assert NumberToString(12) + "abc" == "12abc";
    ParseIntOfNumberText(12, "abc");
    ParseIntRoundTrip(12);
    assert NumberToString(3) + ".9" == "3.9";
    ParseIntOfNumberText(3, ".9");
  }

  /** Leading white space and a minus sign are read. */
  lemma ParseIntReadsSpaceAndSign()
    ensures ParseInt(" \n-7") == Some(-7)
  {
    assert ParseInt("-7") == Some(-7) by {
      assert NumberToString(-7) == "-7";
      ParseIntRoundTrip(-7);
    }
    assert ParseInt(" \n-7") == ParseInt("-7") by {
      ParseIntSkipsWhiteSpace(" \n", "-7");
      assert " \n" + "-7" == " \n-7";
    }
  }

  /** "0x" switches to hexadecimal. */
  lemma ParseIntReadsHex()
    ensures ParseInt("0x1A") == Some(26)
  {
    assert TrimStart("0x1A") == "0x1A";
    assert StripSign("0x1A") == "0x1A";
    assert HasHexPrefix("0x1A");
    assert "0x1A"[2..] == "1A";
    assert LeadingDigits("", 16) == "";
    assert LeadingDigits("A", 16) == "A";
    assert LeadingDigits("1A", 16) == "1A";
    assert DigitsValue("1A", 16) == 26 by {
      assert "1A"[..1] == "1";
      assert DigitsValue("1", 16) == 1 by { assert "1"[..0] == ""; }
    }
  }

  /** Text without a leading digit is `NaN`. */
  lemma ParseIntOfWordIsNaN()
    ensures ParseInt("abc") == None
  {
    assert TrimStart("abc") == "abc";
    assert LeadingDigits("abc", 10) == "";
  }

  /** A bare "0x" prefix with no hexadecimal digit after it is `NaN`. */
  lemma ParseIntOfBareHexPrefixIsNaN()
    ensures ParseInt("0x") == None
  {
    assert TrimStart("0x") == "0x";
    assert HasHexPrefix("0x") && "0x"[2..] == "";
    assert LeadingDigits("", 16) == "";
  }

  /** Only one sign is read: "+-1" is `NaN`. */
  lemma ParseIntOfDoubleSignIsNaN()
    ensures ParseInt("+-1") == None
  {
    assert TrimStart("+-1") == "+-1";
    assert StripSign("+-1") == "-1";
    assert LeadingDigits("-1", 10) == "";
  }
}
