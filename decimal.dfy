/** Rust's `i32` and the text `i32::to_string` produces for it: an optional
    minus sign followed by decimal digits without leading zeros. */
module Decimal {
  import opened Wrappers

  predicate IsI32(n: int) {
    -0x8000_0000 <= n < 0x8000_0000
  }

  type i32 = x: int | IsI32(x)

  predicate IsDigit(c: char) {
    '0' <= c <= '9'
  }

  predicate AllDigits(s: string) {
    forall i :: 0 <= i < |s| ==> IsDigit(s[i])
  }

  /** The form `i32::to_string` prints: an optional minus sign, then at least
      one digit, no leading zero, and never "-0". */
  predicate CanonicalDecimal(s: string) {
    if |s| > 0 && s[0] == '-' then
      |s| >= 2 && AllDigits(s[1..]) && s[1] != '0'
    else
      |s| >= 1 && AllDigits(s) && (s[0] == '0' ==> |s| == 1)
  }

  function DigitChar(d: nat): (c: char)
    requires d < 10
    ensures IsDigit(c)
  {
    ('0' as int + d) as char
  }

  function DigitValue(c: char): (d: nat)
    requires IsDigit(c)
    ensures d < 10
  {
    c as int - '0' as int
  }

  /** Decimal digits of `n`, most significant first, with no leading zero. */
  function NatToDecimal(n: nat): (s: string)
    ensures |s| >= 1
    ensures AllDigits(s)
    ensures s[0] == '0' ==> n == 0 && |s| == 1
    decreases n
  {
    if n < 10 then [DigitChar(n)] else NatToDecimal(n / 10) + [DigitChar(n % 10)]
  }

  /** The text Rust's `Display` for integers gives. */
  function IntToDecimal(i: int): (s: string)
    ensures CanonicalDecimal(s)
    ensures s[0] == '-' <==> i < 0
  {
    if i < 0 then
      var digits := NatToDecimal(-i);
      assert ("-" + digits)[1..] == digits;
      "-" + digits
    else NatToDecimal(i)
  }

  /** Reads a non-empty string of decimal digits (leading zeros accepted). */
  function ParseNat(s: string): Option<nat>
    decreases |s|
  {
    if |s| == 0 || !IsDigit(s[|s| - 1]) then None
    else if |s| == 1 then Some(DigitValue(s[0]))
    else match ParseNat(s[..|s| - 1])
      case None => None
      case Some(p) => Some(10 * p + DigitValue(s[|s| - 1]))
  }

  /** Reads an optionally negated decimal number. */
  function ParseInt(s: string): Option<int> {
    if |s| > 0 && s[0] == '-' then
      match ParseNat(s[1..])
      case None => None
      case Some(p) => Some(-(p as int))
    else
      match ParseNat(s)
      case None => None
      case Some(p) => Some(p as int)
  }

  lemma {:induction false} ParseNatOfDecimal(n: nat)
    ensures ParseNat(NatToDecimal(n)) == Some(n)
    decreases n
  {
    var s := NatToDecimal(n);
    if n >= 10 {
      var prefix := NatToDecimal(n / 10);
      assert s == prefix + [DigitChar(n % 10)];
      assert s[..|s| - 1] == prefix;
      ParseNatOfDecimal(n / 10);
    }
  }

  /** Reading back the decimal text of any integer yields that integer. */
  lemma ParseIntOfDecimal(i: int)
    ensures ParseInt(IntToDecimal(i)) == Some(i)
  {
    var s := IntToDecimal(i);
    if i < 0 {
      assert s[1..] == NatToDecimal(-i);
      ParseNatOfDecimal(-i);
    } else {
      ParseNatOfDecimal(i);
    }
  }

  /** Two integers have the same decimal text only if they are equal. */
  lemma IntToDecimalInjective(a: int, b: int)
    ensures IntToDecimal(a) == IntToDecimal(b) ==> a == b
  {
    ParseIntOfDecimal(a);
    ParseIntOfDecimal(b);
  }

  /** Canonical digits are the only digits with their value. */
  lemma {:induction false} CanonicalNatUnique(s: string, n: nat)
    requires |s| >= 1 && AllDigits(s) && (s[0] == '0' ==> |s| == 1)
    requires ParseNat(s) == Some(n)
    ensures s == NatToDecimal(n)
    ensures s[0] != '0' ==> n >= 1
    decreases |s|
  {
    if |s| == 1 {
      assert [DigitChar(DigitValue(s[0]))] == s;
    } else {
      var prefix := s[..|s| - 1];
      assert prefix[0] == s[0];
      var p := ParseNat(prefix).value;
      CanonicalNatUnique(prefix, p);
      assert n == 10 * p + DigitValue(s[|s| - 1]);
      assert n / 10 == p && n % 10 == DigitValue(s[|s| - 1]);
      assert DigitChar(n % 10) == s[|s| - 1];
      assert s == prefix + [s[|s| - 1]];
    }
  }

  /** A canonical decimal text is the text of the integer it reads as, so the
      canonical form together with the round trip fixes the text. */
  lemma CanonicalDecimalUnique(s: string, i: int)
    requires CanonicalDecimal(s)
    requires ParseInt(s) == Some(i)
    ensures s == IntToDecimal(i)
  {
    if s[0] == '-' {
      var p := ParseNat(s[1..]).value;
      CanonicalNatUnique(s[1..], p);
      assert s == "-" + s[1..];
    } else {
      CanonicalNatUnique(s, ParseNat(s).value);
    }
  }
}
