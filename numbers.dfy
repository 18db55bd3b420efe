/**
 * The integer conversions of the store: `StringToNumber` for the integer types,
 * which calls `strtol` with base 0 and succeeds only when the whole C string is
 * consumed (ISO C11 section 7.22.1.4), and `std::to_string`, the decimal text
 * that the numeric SetValue stores.  Integers are unbounded here.
 */
module IniNumbers {
  import opened IniText

  /** `isspace` in the C locale: what `strtol` skips before the number. */
  predicate IsCSpace(c: char)
  {
    c == ' ' || c == '\t' || c == '\n' || c == '\U{000B}' || c == '\U{000C}' || c == '\r'
  }

  predicate IsNotNul(c: char) { c != '\0' }

  /** What `c_str()` shows of a string: everything before the first NUL. */
  function CString(s: string): (r: string)
    ensures |r| <= |s| && r == s[..|r|] && forall i :: 0 <= i < |r| ==> r[i] != '\0'
    ensures |r| < |s| ==> s[|r|] == '\0'
  {
    s[..Span(s, IsNotNul)]
  }

  predicate IsOctalDigit(c: char) { '0' <= c <= '7' }

  predicate IsHexDigit(c: char) { IsDecimalDigit(c) || ('a' <= c <= 'f') || ('A' <= c <= 'F') }

  /** A digit of `base` (8, 10 or 16). */
  predicate IsDigitOf(c: char, base: nat)
  {
    if base == 8 then IsOctalDigit(c) else if base == 10 then IsDecimalDigit(c) else IsHexDigit(c)
  }

  predicate AllDigitsOf(s: string, base: nat)
  {
    forall i :: 0 <= i < |s| ==> IsDigitOf(s[i], base)
  }

  function DigitValue(c: char): (v: nat)
    requires IsHexDigit(c)
    ensures v < 16
    ensures IsDecimalDigit(c) ==> v < 10
    ensures IsOctalDigit(c) ==> v < 8
  {
    if IsDecimalDigit(c) then (c - '0') as nat
    else if 'a' <= c <= 'f' then (c - 'a') as nat + 10
    else (c - 'A') as nat + 10
  }

  /** The value of a digit string in `base`, most significant digit first. */
  function DigitsValue(ds: string, base: nat): nat
    requires base == 8 || base == 10 || base == 16
    requires AllDigitsOf(ds, base)
  {
    if ds == [] then 0
    else DigitsValue(ds[..|ds| - 1], base) * base + DigitValue(ds[|ds| - 1])
  }

  /**
   * `StringToNumber` for an integer type: `strtol(str, &end, 0)` skips C white
   * space, takes an optional sign, reads hexadecimal after `0x`/`0X` followed by
   * a hexadecimal digit, octal after a leading `0`, decimal otherwise, and the
   * conversion succeeds only when some digit was read and `*end` is the NUL
   * that ends the C string.
   */
  function StrToLong(text: string): (r: Option<int>)
    ensures r.Some? ==> CString(text) != [] && IsHexDigit(CString(text)[|CString(text)| - 1])
  {
    var u := CString(text);
    var t := u[Span(u, IsCSpace)..];
    var r := ParseSigned(t);
    assert r.Some? ==> t[|t| - 1] == u[|u| - 1];
    r
  }

  /** The number after the leading white space: an optional sign, then the digits. */
  function ParseSigned(t: string): (r: Option<int>)
    ensures r.Some? ==> t != [] && IsHexDigit(t[|t| - 1])
  {
    if t != [] && (t[0] == '+' || t[0] == '-') then
      match ParseMagnitude(t[1..])
      case None => None
      case Some(v) => var w: int := v; Some(if t[0] == '-' then -w else w)
    else
      match ParseMagnitude(t)
      case None => None
      case Some(v) => Some(v)
  }

  /**
   * The digits with base 0: hexadecimal after `0x`/`0X` and a hexadecimal
   * digit, octal after a leading `0`, decimal otherwise; every character must
   * be a digit of that base.
   */
  function ParseMagnitude(body: string): (r: Option<nat>)
    ensures r.Some? ==> body != [] && IsHexDigit(body[|body| - 1])
  {
    if |body| >= 3 && body[0] == '0' && (body[1] == 'x' || body[1] == 'X') && IsHexDigit(body[2]) then
      (if AllDigitsOf(body[2..], 16) then Some(DigitsValue(body[2..], 16)) else None)
    else if body != [] && body[0] == '0' then
      (if AllDigitsOf(body, 8) then Some(DigitsValue(body, 8)) else None)
    else if body != [] && AllDigitsOf(body, 10) then Some(DigitsValue(body, 10))
    else None
  }

  /** On text with no NUL that does not start with white space, only the sign and digits matter. */
  lemma StrToLongPlain(text: string)
    requires text != [] && !IsCSpace(text[0]) && forall i :: 0 <= i < |text| ==> text[i] != '\0'
    ensures StrToLong(text) == ParseSigned(text)
  {
    assert CString(text) == text;
    assert text[Span(text, IsCSpace)..] == text;
  }

  function DecimalChar(d: nat): (c: char)
    requires d < 10
    ensures IsDecimalDigit(c) && DigitValue(c) == d
  {
    ('0' as int + d) as char
  }

  /**
   * The digits `std::to_string` writes for a non-negative number: decimal, and
   * with no leading zero unless the number is zero.
   */
  function NatToDecimal(n: nat): (r: string)
    ensures r != [] && AllDigitsOf(r, 10)
    ensures r[0] == '0' <==> n == 0
  {
    if n < 10 then [DecimalChar(n)]
    else NatToDecimal(n / 10) + [DecimalChar(n % 10)]
  }

  /** `std::to_string` of an integer: a minus sign for negative numbers, then the decimal digits. */
  function IntToString(n: int): (r: string)
    ensures r != [] && (r[0] == '-' <==> n < 0)
    ensures n >= 0 ==> AllDigitsOf(r, 10)
    ensures n < 0 ==> |r| >= 2 && AllDigitsOf(r[1..], 10)
  {
    if n < 0 then "-" + NatToDecimal(-n) else NatToDecimal(n)
  }

  lemma {:induction false} NatToDecimalValue(n: nat)
    ensures DigitsValue(NatToDecimal(n), 10) == n
  {
    var r := NatToDecimal(n);
    if n >= 10 {
      NatToDecimalValue(n / 10);
      assert r[..|r| - 1] == NatToDecimal(n / 10);
    }
  }

  /** The text a numeric SetValue stores converts back to the same number. */
  lemma IntToStringRoundTrip(n: int)
    ensures StrToLong(IntToString(n)) == Some(n)
  {
    var s := IntToString(n);
    var m := if n < 0 then -n else n;
    DecimalMagnitude(m);
    assert forall i :: 0 <= i < |s| ==> s[i] != '\0';
    StrToLongPlain(s);
    if n < 0 {
      assert s[1..] == NatToDecimal(m);
    }
  }

  lemma DecimalMagnitude(m: nat)
    ensures ParseMagnitude(NatToDecimal(m)) == Some(m)
  {
    NatToDecimalValue(m);
    if m == 0 {
      assert NatToDecimal(0) == "0";
      assert DigitsValue("0", 8) == 0 by { assert "0"[..0] == ""; }
    }
  }

  /** A value with trailing characters after the number is rejected: "123abc". */
  lemma RejectsTrailingText()
    ensures StrToLong("123abc") == None
  {
    var s := "123abc";
    assert forall i :: 0 <= i < |s| ==> s[i] != '\0';
    StrToLongPlain(s);
    assert !IsDecimalDigit(s[3]);
  }

  /** "123" reads as 123. */
  lemma AcceptsDecimal()
    ensures StrToLong("123") == Some(123)
  {
    IntToStringRoundTrip(123);
    assert IntToString(123) == "123" by {
      assert NatToDecimal(12) == "12" by {
        assert NatToDecimal(1) == "1";
      }
    }
  }

  /** Base 0 reads hexadecimal after `0x`: "0x1A" is 26. */
  lemma DetectsHex()
    ensures StrToLong("0x1A") == Some(26)
  {
    var h := "0x1A";
    assert forall i :: 0 <= i < |h| ==> h[i] != '\0';
    StrToLongPlain(h);
    assert ParseMagnitude(h) == Some(26) by {
      assert h[2..] == "1A";
      assert DigitsValue("1A", 16) == 26 by { assert "1A"[..1] == "1"; assert "1"[..0] == ""; }
    }
  }

  /** Base 0 reads octal after a leading zero: "010" is 8. */
  lemma DetectsOctal()
    ensures StrToLong("010") == Some(8)
  {
    var o := "010";
    assert forall i :: 0 <= i < |o| ==> o[i] != '\0';
    StrToLongPlain(o);
    assert ParseMagnitude(o) == Some(8) by {
      assert DigitsValue(o, 8) == 8 by { assert o[..2] == "01"; assert "01"[..1] == "0"; assert "0"[..0] == ""; }
    }
  }

  /** Leading white space and a sign are accepted: " -7" is -7. */
  lemma AcceptsSpaceAndSign()
    ensures StrToLong(" -7") == Some(-7)
  {
    var d := " -7";
    assert forall i :: 0 <= i < |d| ==> d[i] != '\0';
    assert CString(d) == d;
    assert Span(d, IsCSpace) == 1 by { assert IsCSpace(d[0]) && !IsCSpace(d[1]); }
    assert d[1..] == "-7";
    assert ParseMagnitude("7") == Some(7) by { assert DigitsValue("7", 10) == 7 by { assert "7"[..0] == ""; } }
    assert "-7"[1..] == "7";
  }
}
