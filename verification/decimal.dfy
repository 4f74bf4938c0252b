/** Python's decimal integer conversions: `str(n)` for an `int`, and `int(s)`
    for a base-10 string. */
module Decimal {
  import opened Wrappers

  predicate IsDigit(c: char) {
    '0' <= c <= '9'
  }

  /** A non-empty run of ASCII digits. */
  predicate IsDigits(s: string) {
    |s| >= 1 && forall i :: 0 <= i < |s| ==> IsDigit(s[i])
  }

  function DigitValue(c: char): nat
    requires IsDigit(c)
  {
    c as int - '0' as int
  }

  function DigitChar(d: nat): (c: char)
    requires d < 10
    ensures IsDigit(c) && DigitValue(c) == d
  {
    ('0' as int + d) as char
  }

  /** The characters Python's `str.strip()` (and so `int()`) treats as white space. */
  predicate IsSpace(c: char) {
    var k := c as int;
    (9 <= k <= 13) || (28 <= k <= 32) || k == 0x85 || k == 0xA0 || k == 0x1680
    || (0x2000 <= k <= 0x200A) || k == 0x2028 || k == 0x2029 || k == 0x202F
    || k == 0x205F || k == 0x3000
  }

  function TrimStart(s: string): (r: string)
    ensures |r| <= |s| && r == s[|s| - |r|..]
    ensures |r| > 0 ==> !IsSpace(r[0])
    ensures forall i :: 0 <= i < |s| - |r| ==> IsSpace(s[i])
  {
    if |s| > 0 && IsSpace(s[0]) then TrimStart(s[1..]) else s
  }

  function TrimEnd(s: string): (r: string)
    ensures |r| <= |s| && r == s[..|r|]
    ensures |r| > 0 ==> !IsSpace(r[|r| - 1])
    ensures forall i :: |r| <= i < |s| ==> IsSpace(s[i])
  {
    if |s| > 0 && IsSpace(s[|s| - 1]) then TrimEnd(s[..|s| - 1]) else s
  }

  /** `s.strip()`: leading and trailing white space removed. */
  function Strip(s: string): string {
    TrimEnd(TrimStart(s))
  }

  /** The value of a digit string read most significant digit first. */
  function DigitsValue(s: string): nat
    requires forall i :: 0 <= i < |s| ==> IsDigit(s[i])
  {
    if |s| == 0 then 0
    else DigitsValue(s[..|s| - 1]) * 10 + DigitValue(s[|s| - 1])
  }

  /** The shortest decimal spelling of `n`: no sign and no leading zero. */
  function NatToDigits(n: nat): (r: string)
    ensures IsDigits(r)
    ensures |r| > 1 ==> r[0] != '0'
  {
    if n < 10 then [DigitChar(n)]
    else NatToDigits(n / 10) + [DigitChar(n % 10)]
  }

  /** `str(n)`: a minus sign for negative numbers, then the digits of `|n|`. */
  function IntToString(n: int): (r: string)
    ensures |r| >= 1
  {
    if n < 0 then "-" + NatToDigits(-n) else NatToDigits(n)
  }

  /** `int(s)` in base 10: surrounding white space, an optional sign and at least
      one digit; anything else is None, where Python's `int()` raises `ValueError`. */
  function ParseInt(s: string): Option<int>
  {
    ParseSigned(Strip(s))
  }

  /** An optional sign followed by at least one digit, and nothing else. */
  function ParseSigned(t: string): Option<int>
  {
    if |t| > 0 && (t[0] == '-' || t[0] == '+') then
      if IsDigits(t[1..]) then
        var magnitude: int := DigitsValue(t[1..]);
        Some(if t[0] == '-' then -magnitude else magnitude)
      else None
    else if IsDigits(t) then Some(DigitsValue(t))
    else None
  }

  lemma {:induction false} DigitsValueOfNat(n: nat)
    ensures DigitsValue(NatToDigits(n)) == n
  {
    if n >= 10 {
      var r := NatToDigits(n);
      var init := NatToDigits(n / 10);
      assert r[..|r| - 1] == init;
      DigitsValueOfNat(n / 10);
    }
  }

  /** A string whose ends are not white space is its own strip. */
  lemma StripNoSpace(s: string)
    requires |s| > 0 && !IsSpace(s[0]) && !IsSpace(s[|s| - 1])
    ensures Strip(s) == s
  {
  }

  /** A plain digit string parses as the number it spells. */
  lemma DigitsParse(s: string)
    requires IsDigits(s)
    ensures ParseInt(s) == Some(DigitsValue(s))
  {
    StripNoSpace(s);
  }

  lemma DigitsParseTo(d: string, n: nat)
    requires IsDigits(d) && DigitsValue(d) == n
    ensures ParseInt(d) == Some(n)
  {
    StripNoSpace(d);
  }

  /** A minus sign before digits has no white space to strip. */
  lemma StripNegative(d: string)
    requires IsDigits(d)
    ensures Strip("-" + d) == "-" + d
  {
    var s := "-" + d;
    assert s[|s| - 1] == d[|d| - 1];
    StripNoSpace(s);
  }

  lemma SignedNegative(d: string, n: nat)
    requires IsDigits(d) && DigitsValue(d) == n
    ensures ParseSigned("-" + d) == Some(-(n as int))
  {
    var s := "-" + d;
    assert s[0] == '-' && s[1..] == d;
  }

  /** A minus sign before a digit string negates the number it spells. */
  lemma NegativeParseTo(d: string, n: nat)
    requires IsDigits(d) && DigitsValue(d) == n
    ensures ParseInt("-" + d) == Some(-(n as int))
  {
    SignedNegative(d, n);
    StripNegative(d);
  }

  /** `str` of a natural number reads back as that number. */
  lemma NatRoundTrip(n: nat)
    ensures ParseInt(NatToDigits(n)) == Some(n)
  {
    DigitsValueOfNat(n);
    DigitsParseTo(NatToDigits(n), n);
  }

  /** `str` of a negative number is a minus sign and the digits of its magnitude. */
  lemma NegativeRoundTrip(n: int)
    requires n < 0
    ensures ParseInt("-" + NatToDigits(-n)) == Some(n)
  {
    DigitsValueOfNat(-n);
    NegativeParseTo(NatToDigits(-n), -n);
  }

  /** `int(str(n)) == n` for every integer. */
  lemma ParseIntOfString(n: int)
    ensures ParseInt(IntToString(n)) == Some(n)
  {
    if n < 0 {
      NegativeRoundTrip(n);
    } else {
      NatRoundTrip(n);
    }
  }
}
