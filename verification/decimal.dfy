/**
 * Python's conversions between integers and decimal text: `str(n)` (an
 * optional `-` followed by digits without leading zeros) and `int(s)`
 * (surrounding whitespace, an optional sign, and ASCII digits that may be
 * grouped by single underscores).
 */
module Decimal {
  import opened Optional

  predicate IsDigit(c: char) {
    '0' <= c <= '9'
  }

  /** The ASCII characters Python's `int()` skips around a numeral. */
  predicate IsSpace(c: char) {
    c == ' ' || c == '\t' || c == '\n' || c == '\r' || c == '\U{000B}' || c == '\U{000C}'
  }

  function DigitChar(d: nat): (c: char)
    requires d < 10
    ensures IsDigit(c)
  {
    (('0' as int) + d) as char
  }

  function DigitValue(c: char): nat
    requires IsDigit(c)
  {
    (c as int) - ('0' as int)
  }

  predicate AllDigits(s: string) {
    forall i :: 0 <= i < |s| ==> IsDigit(s[i])
  }

  /** `str(n)` for a non-negative `n`. */
  function NatToString(n: nat): (r: string)
    ensures |r| > 0 && AllDigits(r)
    ensures r[0] == '0' ==> n == 0
    decreases n
  {
    if n < 10 then [DigitChar(n)] else NatToString(n / 10) + [DigitChar(n % 10)]
  }

  /** `str(n)` */
  function IntToString(n: int): (r: string)
    ensures |r| > 0
    ensures r[0] == '-' <==> n < 0
  {
    if n < 0 then "-" + NatToString(-n) else NatToString(n)
  }

  /** The value of a string of decimal digits, most significant first. */
  function DigitsValue(s: string): nat
    requires AllDigits(s)
    decreases |s|
  {
    if |s| == 0 then 0 else DigitsValue(s[..|s| - 1]) * 10 + DigitValue(s[|s| - 1])
  }

  /** Digits, possibly grouped: no leading, trailing or doubled underscore. */
  predicate WellGrouped(b: string) {
    && |b| > 0
    && IsDigit(b[0])
    && IsDigit(b[|b| - 1])
    && (forall i :: 0 <= i < |b| ==> IsDigit(b[i]) || b[i] == '_')
    && (forall i :: 0 <= i < |b| - 1 && b[i] == '_' ==> b[i + 1] != '_')
  }

  /** The digits of `b` with the grouping underscores removed. */
  function Ungroup(b: string): (r: string)
    requires forall i :: 0 <= i < |b| ==> IsDigit(b[i]) || b[i] == '_'
    ensures AllDigits(r)
    ensures AllDigits(b) ==> r == b
    decreases |b|
  {
    if |b| == 0 then ""
    else if b[0] == '_' then Ungroup(b[1..])
    else [b[0]] + Ungroup(b[1..])
  }

  /** `s.lstrip()` over the whitespace `int()` skips. */
  function TrimStart(s: string): string
    decreases |s|
  {
    if |s| > 0 && IsSpace(s[0]) then TrimStart(s[1..]) else s
  }

  /** `s.rstrip()` over the whitespace `int()` skips. */
  function TrimEnd(s: string): string
    decreases |s|
  {
    if |s| > 0 && IsSpace(s[|s| - 1]) then TrimEnd(s[..|s| - 1]) else s
  }

  /** `lstrip` removes exactly the leading whitespace: what remains is a suffix that does not start with a space. */
  lemma {:induction false} TrimStartStrips(s: string)
    ensures var r := TrimStart(s);
            && |r| <= |s| && r == s[|s| - |r|..]
            && (forall i :: 0 <= i < |s| - |r| ==> IsSpace(s[i]))
            && (|r| > 0 ==> !IsSpace(r[0]))
    decreases |s|
  {
    if |s| > 0 && IsSpace(s[0]) {
      TrimStartStrips(s[1..]);
    }
  }

  /** `rstrip` removes exactly the trailing whitespace: what remains is a prefix that does not end with a space. */
  lemma {:induction false} TrimEndStrips(s: string)
    ensures var r := TrimEnd(s);
            && |r| <= |s| && r == s[..|r|]
            && (forall i :: |r| <= i < |s| ==> IsSpace(s[i]))
            && (|r| > 0 ==> !IsSpace(r[|r| - 1]))
    decreases |s|
  {
    if |s| > 0 && IsSpace(s[|s| - 1]) {
      TrimEndStrips(s[..|s| - 1]);
    }
  }

  /** The unsigned part of a numeral: `None` where `int()` raises `ValueError`. */
  function ParseUnsigned(b: string): Option<nat>
  {
    if WellGrouped(b) then Some(DigitsValue(Ungroup(b))) else None
  }

  /** A numeral with its surrounding whitespace already removed. */
  function ParseSigned(t: string): Option<int>
  {
    if |t| > 0 && (t[0] == '-' || t[0] == '+') then
      match ParseUnsigned(t[1..])
      case None => None
      case Some(v) =>
        var k: int := if t[0] == '-' then -(v as int) else v;
        Some(k)
    else
      match ParseUnsigned(t)
      case None => None
      case Some(v) => Some(v)
  }

  /** A numeral that parses holds a digit. */
  lemma ParseSignedHasDigit(t: string)
    requires ParseSigned(t).Some?
    ensures exists k :: 0 <= k < |t| && IsDigit(t[k])
  {
    if |t| > 0 && (t[0] == '-' || t[0] == '+') {
      assert WellGrouped(t[1..]);
      assert IsDigit(t[1..][0]);
      assert IsDigit(t[1]);
    } else {
      assert WellGrouped(t);
      assert IsDigit(t[0]);
    }
  }

  /** `int(s)`: `None` stands for the `ValueError` Python raises. */
  function ParseInt(s: string): Option<int>
  {
    ParseSigned(TrimEnd(TrimStart(s)))
  }

  /** `int(s)` yields a value only when the text holds a digit, so blank text always raises. */
  lemma ParseIntNeedsDigit(s: string)
    requires ParseInt(s).Some?
    ensures exists i :: 0 <= i < |s| && IsDigit(s[i])
  {
    var a := TrimStart(s);
    var t := TrimEnd(a);
    TrimStartStrips(s);
    TrimEndStrips(a);
    ParseSignedHasDigit(t);
    var k :| 0 <= k < |t| && IsDigit(t[k]);
    assert t[k] == a[k];
    assert a[k] == s[|s| - |a| + k];
  }

  lemma {:induction false} DigitsValueOfNatToString(n: nat)
    ensures DigitsValue(NatToString(n)) == n
    decreases n
  {
    var s := NatToString(n);
    if n >= 10 {
      DigitsValueOfNatToString(n / 10);
      assert s[..|s| - 1] == NatToString(n / 10);
    }
  }

  /** Text that starts and ends with a non-space character is left alone by the trimming. */
  lemma TrimUnchanged(s: string)
    requires |s| > 0 && !IsSpace(s[0]) && !IsSpace(s[|s| - 1])
    ensures TrimEnd(TrimStart(s)) == s
  {
  }

  /** The digits of `str(m)` are read back as `m`. */
  lemma ParseUnsignedOfNatToString(m: nat)
    ensures ParseUnsigned(NatToString(m)) == Some(m)
  {
    var d := NatToString(m);
    DigitsValueOfNatToString(m);
    assert Ungroup(d) == d;
    assert WellGrouped(d);
  }

  lemma ParseSignedNegative(d: string, m: nat)
    requires ParseUnsigned(d) == Some(m)
    ensures ParseSigned("-" + d) == Some(-(m as int))
  {
    assert ("-" + d)[1..] == d;
  }

  lemma ParseSignedUnsigned(d: string, m: nat)
    requires |d| > 0 && IsDigit(d[0])
    requires ParseUnsigned(d) == Some(m)
    ensures ParseSigned(d) == Some(m)
  {
  }

  /** `int(str(n)) == n`: the decimal text of every integer parses back to it. */
  lemma ParseIntOfIntToString(n: int)
    ensures ParseInt(IntToString(n)) == Some(n)
  {
    var s := IntToString(n);
    if n < 0 {
      var d := NatToString(-n);
      assert s == "-" + d;
      assert s[|s| - 1] == d[|d| - 1];
      TrimUnchanged(s);
      ParseUnsignedOfNatToString(-n);
      ParseSignedNegative(d, -n);
    } else {
      var d := NatToString(n);
      assert s == d;
      TrimUnchanged(s);
      ParseUnsignedOfNatToString(n);
      ParseSignedUnsigned(d, n);
    }
  }

  /** Different integers have different decimal text. */
  lemma IntToStringInjective(m: int, n: int)
    requires IntToString(m) == IntToString(n)
    ensures m == n
  {
    ParseIntOfIntToString(m);
    ParseIntOfIntToString(n);
  }

  /** `str(n)` uses only digits and the minus sign. */
  lemma IntToStringAlphabet(n: int)
    ensures forall i :: 0 <= i < |IntToString(n)| ==> IsDigit(IntToString(n)[i]) || IntToString(n)[i] == '-'
  {
  }
}
