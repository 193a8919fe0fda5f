// Decimal text of the 64-bit signed integers that SQLite hands back, as
// produced by Rust's `i64::to_string` (used by `SqlData::to_string`), and a
// reader for that text, so that the rendering can be shown to lose nothing.

module Decimal {

  /** Rust's `i64`: the payload of an SQLite INTEGER value. */
  newtype i64 = x: int | -0x8000_0000_0000_0000 <= x < 0x8000_0000_0000_0000

  predicate IsDigit(c: char) {
    '0' <= c <= '9'
  }

  predicate AllDigits(s: string) {
    forall i :: 0 <= i < |s| ==> IsDigit(s[i])
  }

  /** The text a signed decimal may take: an optional leading '-' and then digits. */
  predicate IsSignedDigits(s: string) {
    |s| >= 1 && AllDigits(if s[0] == '-' then s[1..] else s)
  }

  function DigitChar(d: nat): (c: char)
    requires d < 10
    ensures IsDigit(c) && c as int - '0' as int == d
  {
    ('0' as int + d) as char
  }

  /** Decimal digits of `n`, most significant first, with no leading zero. */
  function NatToDecimal(n: nat): (s: string)
    ensures |s| >= 1 && AllDigits(s)
    ensures s[0] == '0' ==> n == 0 && s == "0"
  {
    if n < 10 then [DigitChar(n)] else NatToDecimal(n / 10) + [DigitChar(n % 10)]
  }

  /** `i64::to_string`: a '-' for negative values, then the digits of the magnitude. */
  function IntToDecimal(z: int): (s: string)
    ensures IsSignedDigits(s)
    ensures s[0] == '-' <==> z < 0
    ensures var digits := if z < 0 then s[1..] else s; |digits| >= 1 && (digits[0] == '0' ==> digits == "0" && z == 0)
    ensures ':' !in s && '/' !in s
  {
    var s := if z < 0 then "-" + NatToDecimal(-z) else NatToDecimal(z);
    assert forall i :: 0 <= i < |s| ==> s[i] == '-' || IsDigit(s[i]) by {
      if z < 0 {
        assert forall i :: 1 <= i < |s| ==> s[i] == NatToDecimal(-z)[i - 1];
      }
    }
    s
  }

  /** Reads back a string of digits, most significant first. */
  function ParseNat(s: string): nat
    requires AllDigits(s)
  {
    if s == [] then 0 else ParseNat(s[..|s| - 1]) * 10 + (s[|s| - 1] as int - '0' as int)
  }

  /** Reads back an optionally negative decimal. */
  function ParseInt(s: string): int
    requires IsSignedDigits(s)
  {
    if s[0] == '-' then -(ParseNat(s[1..]) as int) else ParseNat(s)
  }

  lemma {:induction false} ParseNatOfDecimal(n: nat)
    ensures ParseNat(NatToDecimal(n)) == n
  {
    if n >= 10 {
      var s := NatToDecimal(n);
      var prefix := NatToDecimal(n / 10);
      assert s[..|s| - 1] == prefix;
      ParseNatOfDecimal(n / 10);
    }
  }

  /** Reading the rendered text of an integer gives back that integer. */
  lemma DecimalRoundTrip(z: int)
    ensures ParseInt(IntToDecimal(z)) == z
  {
    var s := IntToDecimal(z);
    if z < 0 {
      assert s[1..] == NatToDecimal(-z);
      ParseNatOfDecimal(-z);
    } else {
      ParseNatOfDecimal(z);
    }
  }

  /** Two different integers never render to the same text. */
  lemma DecimalInjective(a: int, b: int)
    requires IntToDecimal(a) == IntToDecimal(b)
    ensures a == b
  {
    DecimalRoundTrip(a);
    DecimalRoundTrip(b);
  }
}
