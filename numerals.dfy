/**
 Decimal numerals: Python's `str()` of an integer and the integer part of
 what `float()` accepts, with the round trip between the two.
 */
module Numerals {
  import opened Wrappers
  import PyStr

  predicate IsDigit(c: char) {
    '0' <= c <= '9'
  }

  predicate AllDigits(s: string) {
    forall k :: 0 <= k < |s| ==> IsDigit(s[k])
  }

  function DigitChar(d: nat): (c: char)
    requires d < 10
    ensures IsDigit(c) && c as int - '0' as int == d
  {
    ('0' as int + d) as char
  }

  /** The value of a run of decimal digits, most significant first. */
  function DigitsValue(s: string): nat
    requires AllDigits(s)
    decreases |s|
  {
    if |s| == 0 then 0
    else DigitsValue(s[..|s| - 1]) * 10 + (s[|s| - 1] as int - '0' as int)
  }

  /** The shortest decimal numeral of `n`, `str(n)` for `n >= 0`. */
  function NatToDecimal(n: nat): (s: string)
    ensures |s| > 0 && AllDigits(s)
    ensures DigitsValue(s) == n
    ensures s[0] == '0' ==> s == "0"
    decreases n
  {
    if n < 10 then
      [DigitChar(n)]
    else
      var front := NatToDecimal(n / 10);
      var s := front + [DigitChar(n % 10)];
      assert s[..|s| - 1] == front;
      s
  }

  /** `str(n)` for a Python `int`. */
  function IntToDecimal(n: int): (s: string)
    ensures |s| > 0 && IsDigit(s[|s| - 1])
    ensures IsDigit(s[0]) || s[0] == '-'
    ensures forall k :: 0 < k < |s| ==> IsDigit(s[k])
    ensures ParseInteger(s) == Some(n)
    ensures s[0] == '0' ==> s == "0"
    ensures s[0] == '-' ==> |s| > 1 && s[1] != '0'
  {
    if n < 0 then
      var digits := NatToDecimal(-n);
      assert ("-" + digits)[1..] == digits;
      assert ("-" + digits)[1] == digits[0];
      "-" + digits
    else
      NatToDecimal(n)
  }

  /** An optional `+` or `-` followed by one or more ASCII digits, and nothing else:
      the integral inputs Python's `float()` converts once surrounding whitespace is gone. */
  function ParseInteger(s: string): Option<int> {
    if |s| == 0 then None
    else if s[0] == '+' || s[0] == '-' then
      var digits := s[1..];
      if |digits| > 0 && AllDigits(digits) then
        Some(if s[0] == '-' then -(DigitsValue(digits) as int) else DigitsValue(digits))
      else None
    else if AllDigits(s) then Some(DigitsValue(s))
    else None
  }

  /** Leading zeros and an explicit plus sign do not change the value read. */
  lemma {:induction false} LeadingZeros(zeros: nat, n: nat)
    ensures var s := seq(zeros, _ => '0') + NatToDecimal(n);
            ParseInteger(s) == Some(n) && ParseInteger("+" + s) == Some(n)
  {
    var d := NatToDecimal(n);
    var s := seq(zeros, _ => '0') + d;
    assert AllDigits(s);
    ZerosValue(zeros, d);
    assert ("+" + s)[1..] == s;
  }

  lemma {:induction false} ZerosValue(zeros: nat, d: string)
    requires AllDigits(d) && AllDigits(seq(zeros, _ => '0') + d)
    ensures DigitsValue(seq(zeros, _ => '0') + d) == DigitsValue(d)
    decreases |d|
  {
    var z := seq(zeros, _ => '0');
    if |d| == 0 {
      assert z + d == z;
      ZerosOnly(zeros);
    } else {
      var d' := d[..|d| - 1];
      assert (z + d)[..|z + d| - 1] == z + d';
      ZerosValue(zeros, d');
    }
  }

  lemma {:induction false} ZerosOnly(zeros: nat)
    ensures AllDigits(seq(zeros, _ => '0')) && DigitsValue(seq(zeros, _ => '0')) == 0
  {
    if zeros > 0 {
      assert seq(zeros, _ => '0')[..zeros - 1] == seq(zeros - 1, _ => '0');
      ZerosOnly(zeros - 1);
    }
  }

  /** A run of digits without a leading zero is the only numeral `str()` gives for its value. */
  lemma {:induction false} CanonicalDecimal(s: string)
    requires |s| > 0 && AllDigits(s) && (s[0] == '0' ==> s == "0")
    ensures NatToDecimal(DigitsValue(s)) == s
    decreases |s|
  {
    var c := s[|s| - 1];
    var d := c as int - '0' as int;
    if |s| > 1 {
      var front := s[..|s| - 1];
      assert front[0] == s[0];
      CanonicalDecimal(front);
      PositiveValue(front);
      var n := DigitsValue(s);
      assert n == DigitsValue(front) * 10 + d;
      assert n / 10 == DigitsValue(front) && n % 10 == d;
      assert DigitChar(d) == c;
      assert s == front + [c];
    } else {
      assert DigitChar(d) == c;
    }
  }

  lemma {:induction false} PositiveValue(s: string)
    requires |s| > 0 && AllDigits(s) && s[0] != '0'
    ensures DigitsValue(s) >= 1
    decreases |s|
  {
    if |s| > 1 {
      var front := s[..|s| - 1];
      assert front[0] == s[0];
      PositiveValue(front);
    }
  }

  /** `str()` of an integer never carries whitespace at either end. */
  lemma DecimalUnpadded(n: int)
    ensures var s := IntToDecimal(n); !PyStr.IsSpace(s[0]) && !PyStr.IsSpace(s[|s| - 1])
  {
  }
}
