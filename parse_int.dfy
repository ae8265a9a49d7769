/**
 * JavaScript's global `parseInt(string)` called without a radix (ECMAScript
 * section 19.2.5): leading white space is skipped, one sign is accepted, a
 * "0x"/"0X" prefix switches to base 16, and the longest run of digits that
 * follows is the value. No digit at all gives NaN, modelled as None.
 */
module JsParseInt {
  import opened Wrappers
  import opened Decimal

  /**
   * StrWhiteSpaceChar: the WhiteSpace and LineTerminator code points (tab,
   * line feed, vertical tab, form feed, carriage return, space, no-break space,
   * the Unicode space separators, line and paragraph separators, and the byte
   * order mark).
   */
  predicate IsStrWhiteSpace(c: char) {
    var u := c as int;
    (0x09 <= u <= 0x0D) || u == 0x20 || u == 0xA0 || u == 0x1680
    || (0x2000 <= u <= 0x200A) || u == 0x2028 || u == 0x2029 || u == 0x202F
    || u == 0x205F || u == 0x3000 || u == 0xFEFF
  }

  predicate IsHexDigit(c: char) {
    IsDigit(c) || 'a' <= c <= 'f' || 'A' <= c <= 'F'
  }

  function HexDigitValue(c: char): (d: nat)
    requires IsHexDigit(c)
    ensures d < 16
  {
    if IsDigit(c) then DigitValue(c)
    else if 'a' <= c <= 'f' then c as int - 'a' as int + 10
    else c as int - 'A' as int + 10
  }

  predicate AllHexDigits(s: string) {
    forall i :: 0 <= i < |s| ==> IsHexDigit(s[i])
  }

  function HexValue(s: string): nat
    requires AllHexDigits(s)
  {
    if s == [] then 0 else HexValue(s[..|s| - 1]) * 16 + HexDigitValue(s[|s| - 1])
  }

  predicate AllWhiteSpace(s: string) {
    forall i :: 0 <= i < |s| ==> IsStrWhiteSpace(s[i])
  }

  /** The string without its leading white space. */
  function TrimStart(s: string): string
  {
    if s != [] && IsStrWhiteSpace(s[0]) then TrimStart(s[1..]) else s
  }

  /** What is trimmed is white space, and what is left does not start with any. */
  lemma {:induction false} TrimStartSpec(s: string)
    ensures var r := TrimStart(s);
      |r| <= |s| && r == s[|s| - |r|..] && AllWhiteSpace(s[..|s| - |r|])
      && (r == [] || !IsStrWhiteSpace(r[0]))
  {
    if s != [] && IsStrWhiteSpace(s[0]) {
      TrimStartSpec(s[1..]);
      var r := TrimStart(s);
      assert s[..|s| - |r|] == [s[0]] + s[1..][..|s| - 1 - |r|];
    }
  }

  /** The longest prefix of s made of decimal digits. */
  function DigitPrefix(s: string): (r: string)
    ensures AllDigits(r)
  {
    if s != [] && IsDigit(s[0]) then [s[0]] + DigitPrefix(s[1..]) else []
  }

  /** The digit prefix is a prefix, and the character after it is not a digit. */
  lemma {:induction false} DigitPrefixSpec(s: string)
    ensures var r := DigitPrefix(s);
      |r| <= |s| && r == s[..|r|] && (|r| < |s| ==> !IsDigit(s[|r|]))
  {
    if s != [] && IsDigit(s[0]) {
      DigitPrefixSpec(s[1..]);
    }
  }

  /** The longest prefix of s made of hexadecimal digits. */
  function HexPrefix(s: string): (r: string)
    ensures AllHexDigits(r)
  {
    if s != [] && IsHexDigit(s[0]) then [s[0]] + HexPrefix(s[1..]) else []
  }

  /** The hexadecimal prefix is a prefix, and the character after it is not a hexadecimal digit. */
  lemma {:induction false} HexPrefixSpec(s: string)
    ensures var r := HexPrefix(s);
      |r| <= |s| && r == s[..|r|] && (|r| < |s| ==> !IsHexDigit(s[|r|]))
  {
    if s != [] && IsHexDigit(s[0]) {
      HexPrefixSpec(s[1..]);
    }
  }

  predicate HasHexPrefix(s: string) {
    |s| >= 2 && s[0] == '0' && (s[1] == 'x' || s[1] == 'X')
  }

  /** The magnitude parsed from the unsigned part: None when no digit follows. */
  function ParseMagnitude(s: string): Option<nat>
  {
    if HasHexPrefix(s) then
      var h := HexPrefix(s[2..]);
      if h == [] then None else Some(HexValue(h))
    else
      var d := DigitPrefix(s);
      if d == [] then None else Some(DigitsValue(d))
  }

  /** The value after white space is skipped: one optional sign, then the magnitude. */
  function ParseSigned(t: string): Option<int> {
    var negative := t != [] && t[0] == '-';
    var unsigned := if t != [] && (t[0] == '-' || t[0] == '+') then t[1..] else t;
    match ParseMagnitude(unsigned)
    case None => None
    case Some(m) => Some(if negative then 0 - m as int else m)
  }

  /** `parseInt(s)`; None stands for NaN. */
  function ParseInt(s: string): Option<int> {
    ParseSigned(TrimStart(s))
  }

  /** A plain run of decimal digits is a decimal magnitude. */
  lemma MagnitudeOfDigits(s: string)
    requires s != [] && AllDigits(s)
    ensures ParseMagnitude(s) == Some(DigitsValue(s))
  {
    assert !HasHexPrefix(s) by {
      if |s| >= 2 {
        assert IsDigit(s[1]);
      }
    }
    DigitPrefixOfDigits(s);
  }

  /** A plain run of decimal digits is read as its decimal value. */
  lemma ParseDigits(s: string)
    requires s != [] && AllDigits(s)
    ensures ParseInt(s) == Some(DigitsValue(s))
  {
    assert IsDigit(s[0]);
    TrimStartKeeps(s);
    assert ParseSigned(s) == ParseMagnitude(s);
    MagnitudeOfDigits(s);
  }

  lemma {:induction false} DigitPrefixOfDigits(s: string)
    requires AllDigits(s)
    ensures DigitPrefix(s) == s
  {
    if s != [] {
      DigitPrefixOfDigits(s[1..]);
    }
  }

  /** A string that starts with a digit or a sign is not trimmed. */
  lemma TrimStartKeeps(s: string)
    requires s != [] && (IsDigit(s[0]) || s[0] == '-')
    ensures TrimStart(s) == s
  {
    assert !IsStrWhiteSpace(s[0]);
  }

  /** parseInt reads back every integer that JavaScript renders as a string. */
  lemma ParseIntToString(i: int)
    ensures ParseInt(IntToString(i)) == Some(i)
  {
    var n: nat := if i < 0 then -i else i;
    var d := NatToString(n);
    assert ParseMagnitude(d) == Some(n) by {
      NatToStringRoundTrip(n);
      MagnitudeOfDigits(d);
    }
    var s := IntToString(i);
    assert ParseInt(s) == ParseSigned(s) by {
      TrimStartKeeps(s);
    }
    if i < 0 {
      assert s == "-" + d && s[1..] == d;
    } else {
      assert s == d && IsDigit(d[0]);
    }
  }

  /** The digit prefix of digits followed by a non-digit is those digits. */
  lemma {:induction false} DigitPrefixStops(d: string, rest: string)
    requires AllDigits(d)
    requires rest == [] || !IsDigit(rest[0])
    ensures DigitPrefix(d + rest) == d
  {
    if d == [] {
      assert d + rest == rest;
    } else {
      assert (d + rest)[1..] == d[1..] + rest;
      DigitPrefixStops(d[1..], rest);
    }
  }

  /**
   * parseInt stops at the first character that is not a digit: "15ab" reads
   * as 15. Only "0" followed by 'x' or 'X' would switch to base 16.
   */
  lemma ParseIntIgnoresTail(d: string, rest: string)
    requires d != [] && AllDigits(d)
    requires rest == [] || !IsDigit(rest[0])
    requires !(d == "0" && rest != [] && (rest[0] == 'x' || rest[0] == 'X'))
    ensures ParseInt(d + rest) == Some(DigitsValue(d))
  {
    var s := d + rest;
    assert s[0] == d[0] && IsDigit(d[0]);
    TrimStartKeeps(s);
    assert ParseSigned(s) == ParseMagnitude(s);
    assert !HasHexPrefix(s) by {
      if |d| >= 2 {
        assert s[1] == d[1] && IsDigit(d[1]);
      } else if rest != [] {
        assert d == [d[0]] && s[1] == rest[0];
      }
    }
    DigitPrefixStops(d, rest);
  }

  /** A leading '+' is skipped: "+5" reads as 5. */
  lemma ParseIntPlusSign(d: string)
    requires d != [] && AllDigits(d)
    ensures ParseInt("+" + d) == Some(DigitsValue(d))
  {
    var s := "+" + d;
    assert !IsStrWhiteSpace(s[0]);
    assert s[1..] == d;
    MagnitudeOfDigits(d);
  }
}
