/**
  Decimal integers as the configuration file holds them: Python 2's `int(s)`
  on a byte string, in base 10, and `str(n)`.
*/
module Numerals {
  import opened Wrappers
  import opened Text

  predicate IsDigit(c: char) {
    '0' <= c <= '9'
  }

  predicate AllDigits(s: string) {
    forall i :: 0 <= i < |s| ==> IsDigit(s[i])
  }

  /** The value of a string of decimal digits, most significant first. */
  function DigitsValue(s: string): nat
    requires AllDigits(s)
  {
    if s == [] then 0 else 10 * DigitsValue(s[..|s| - 1]) + (s[|s| - 1] as int - '0' as int)
  }

  /** A non-empty run of decimal digits. */
  predicate IsDigits(s: string) {
    s != [] && AllDigits(s)
  }

  /**
    What Python 2's `int` accepts: white space, an optional `+` or `-`, white
    space again when there is a sign, at least one digit, and white space.
  */
  predicate IsIntLiteral(s: string) {
    var t := Strip(s);
    if |t| > 0 && (t[0] == '+' || t[0] == '-') then IsDigits(TrimStart(t[1..]))
    else IsDigits(t)
  }

  /** `int` on its argument once the surrounding white space is stripped. */
  function ParseStripped(t: string): Option<int> {
    if |t| > 0 && (t[0] == '+' || t[0] == '-') then
      var digits := TrimStart(t[1..]);
      if IsDigits(digits) then
        var magnitude: int := DigitsValue(digits);
        Some(if t[0] == '-' then -magnitude else magnitude)
      else None
    else if IsDigits(t) then Some(DigitsValue(t))
    else None
  }

  /** `int(s)` on a byte string; `None` stands for the ValueError raised on anything else. */
  function ParseInt(s: string): (r: Option<int>)
    ensures r.Some? <==> IsIntLiteral(s)
  {
    ParseStripped(Strip(s))
  }

  predicate AllZeros(z: string) {
    forall i :: 0 <= i < |z| ==> z[i] == '0'
  }

  lemma {:induction false} ZerosValue(z: string)
    requires AllZeros(z)
    ensures AllDigits(z) && DigitsValue(z) == 0
  {
    if z != [] {
      ZerosValue(z[..|z| - 1]);
    }
  }

  /** Zeros in front of a numeral do not change its value. */
  lemma {:induction false} LeadingZeros(z: string, d: string)
    requires AllZeros(z) && AllDigits(d)
    ensures AllDigits(z + d) && DigitsValue(z + d) == DigitsValue(d)
  {
    ZerosValue(z);
    if d == [] {
      assert z + d == z;
    } else {
      assert (z + d)[..|z + d| - 1] == z + d[..|d| - 1];
      LeadingZeros(z, d[..|d| - 1]);
    }
  }

  function DigitChar(d: nat): (c: char)
    requires d < 10
    ensures IsDigit(c) && c as int - '0' as int == d
  {
    ('0' as int + d) as char
  }

  /** `str(n)` for a natural number: its shortest decimal digits. */
  function NatToString(n: nat): (r: string)
    ensures |r| > 0 && AllDigits(r) && DigitsValue(r) == n
    ensures r[0] == '0' ==> r == "0"
  {
    if n < 10 then [DigitChar(n)]
    else
      var prefix := NatToString(n / 10);
      var r := prefix + [DigitChar(n % 10)];
      assert r[..|r| - 1] == prefix;
      r
  }

  /** `str(n)`: the digits of `n`, after a minus sign when `n` is negative. */
  function IntToString(n: int): (r: string)
    ensures |r| > 0 && (r[0] == '-' <==> n < 0)
    ensures n >= 0 ==> AllDigits(r)
    ensures var d := if n < 0 then r[1..] else r;
      IsDigits(d) && DigitsValue(d) == (if n < 0 then -n else n) && (d[0] == '0' ==> d == "0")
  {
    if n < 0 then "-" + NatToString(-n) else NatToString(n)
  }

  /** Plain digits are read as their decimal value. */
  lemma ParseDigits(digits: string)
    requires IsDigits(digits)
    ensures Stripped(digits)
    ensures ParseInt(digits) == Some(DigitsValue(digits))
  {
    StrippedStrip(digits);
  }

  /** A sign, white space and digits are read as the digits' value, negated after a minus. */
  lemma ParseSigned(sign: char, gap: string, digits: string)
    requires sign == '+' || sign == '-'
    requires AllSpace(gap) && IsDigits(digits)
    ensures Stripped([sign] + gap + digits)
    ensures ParseStripped([sign] + gap + digits) == Some(if sign == '-' then -(DigitsValue(digits) as int) else DigitsValue(digits))
  {
    var core := [sign] + gap + digits;
    assert core[0] == sign && core[|core| - 1] == digits[|digits| - 1];
    assert core[1..] == gap + digits;
    TrimStartAround(gap, digits);
    ParseSignedStripped(core, digits);
  }

  lemma ParseSignedStripped(t: string, digits: string)
    requires |t| > 0 && (t[0] == '+' || t[0] == '-')
    requires TrimStart(t[1..]) == digits && IsDigits(digits)
    ensures ParseStripped(t) == Some(if t[0] == '-' then -(DigitsValue(digits) as int) else DigitsValue(digits))
  {
  }

  lemma ParseCore(sign: string, gap: string, digits: string, n: nat)
    requires AllSpace(gap) && IsDigits(digits) && DigitsValue(digits) == n
    requires sign == "" || sign == "+" || sign == "-"
    requires sign == "" ==> gap == ""
    ensures Stripped(sign + gap + digits)
    ensures ParseStripped(sign + gap + digits) == Some(if sign == "-" then -(n as int) else n)
  {
    if sign == "" {
      assert sign + gap + digits == digits;
      ParseDigits(digits);
      StrippedStrip(digits);
    } else {
      assert sign + gap + digits == [sign[0]] + gap + digits;
      ParseSigned(sign[0], gap, digits);
    }
  }

  lemma ParseIntAround(pre: string, core: string, post: string)
    requires AllSpace(pre) && AllSpace(post) && Stripped(core)
    ensures ParseInt(pre + core + post) == ParseStripped(core)
  {
    StripAround(pre, core, post);
  }

  lemma ParseIntLiteral(pre: string, sign: string, gap: string, z: string, n: nat, post: string)
    requires AllSpace(pre) && AllSpace(gap) && AllSpace(post)
    requires sign == "" || sign == "+" || sign == "-"
    requires sign == "" ==> gap == ""
    requires AllZeros(z)
    ensures ParseInt(pre + (sign + gap + (z + NatToString(n))) + post) == Some(if sign == "-" then -(n as int) else n)
  {
    var d := NatToString(n);
    var digits := z + d;
    LeadingZeros(z, d);
    assert IsDigits(digits) && DigitsValue(digits) == n;
    ParseCore(sign, gap, digits, n);
    ParseIntAround(pre, sign + gap + digits, post);
  }

  /** `int(str(n)) == n`. */
  lemma IntToStringParses(n: int)
    ensures ParseInt(IntToString(n)) == Some(n)
  {
    if n < 0 {
      ParseNegative(NatToString(-n));
    } else {
      ParseDigits(NatToString(n));
    }
  }

  lemma ParseNegative(digits: string)
    requires IsDigits(digits)
    ensures ParseInt("-" + digits) == Some(-(DigitsValue(digits) as int))
  {
    var r := "-" + digits;
    assert r == ['-'] + [] + digits;
    ParseSigned('-', [], digits);
    ParseIntAround([], r, []);
    assert [] + r + [] == r;
  }
}
