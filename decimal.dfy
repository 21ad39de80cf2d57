/** Python's `str(n)` for an integer: its decimal numeral, with a leading
    '-' for a negative value and no leading zeros. */
module Decimal {

  predicate IsDigit(c: char) {
    '0' <= c <= '9'
  }

  predicate AllDigits(s: string) {
    forall i :: 0 <= i < |s| ==> IsDigit(s[i])
  }

  /** The shapes `str(n)` can produce: digits, optionally after one '-'. */
  predicate IsNumeral(s: string) {
    (|s| > 0 && AllDigits(s)) || (|s| > 1 && s[0] == '-' && AllDigits(s[1..]))
  }

  function DigitChar(d: nat): (c: char)
    requires d < 10
  {
    ('0' as int + d) as char
  }

  function DigitValue(c: char): nat
    requires IsDigit(c)
  {
    c as int - '0' as int
  }

  /** Decimal digits of a natural number, most significant first. */
  function NatToStr(n: nat): (s: string)
    ensures |s| > 0 && AllDigits(s)
    ensures s[0] == '0' ==> n == 0
    decreases n
  {
    if n < 10 then [DigitChar(n)] else NatToStr(n / 10) + [DigitChar(n % 10)]
  }

  /** `str(n)`. */
  function IntToStr(n: int): (s: string)
    ensures IsNumeral(s)
    ensures n < 0 <==> s[0] == '-'
  {
    if n < 0 then "-" + NatToStr(-n) else NatToStr(n)
  }

  /** Value of a string of digits (the partner of NatToStr). */
  function ParseNat(s: string): nat
    requires AllDigits(s)
  {
    if s == [] then 0 else ParseNat(s[..|s| - 1]) * 10 + DigitValue(s[|s| - 1])
  }

  /** Value of a numeral (Python's `int(s)` on the strings `str` produces). */
  function ParseInt(s: string): int
    requires IsNumeral(s)
  {
    if s[0] == '-' then -(ParseNat(s[1..]) as int) else ParseNat(s)
  }

  lemma {:induction false} ParseNatToStr(n: nat)
    ensures ParseNat(NatToStr(n)) == n
    decreases n
  {
    if n >= 10 {
      var s := NatToStr(n);
      assert s[..|s| - 1] == NatToStr(n / 10);
      ParseNatToStr(n / 10);
    }
  }

  /** Parsing undoes `str`: the numeral determines the integer. */
  lemma ParseIntToStr(n: int)
    ensures ParseInt(IntToStr(n)) == n
  {
    if n < 0 {
      ParseNatToStr(-n);
      assert IntToStr(n)[1..] == NatToStr(-n);
    } else {
      ParseNatToStr(n);
    }
  }

  /** Distinct years have distinct numerals. */
  lemma IntToStrInjective(a: int, b: int)
    requires IntToStr(a) == IntToStr(b)
    ensures a == b
  {
    ParseIntToStr(a);
    ParseIntToStr(b);
  }

  /** A year from 1000 to 9999 is written with four digits. */
  lemma FourDigits(n: int)
    requires 1000 <= n <= 9999
    ensures |IntToStr(n)| == 4
  {
    assert |NatToStr(n / 1000)| == 1;
    assert |NatToStr(n / 100)| == 2;
    assert |NatToStr(n / 10)| == 3;
  }

  /** A numeral holds no letter. */
  lemma NumeralHasNoLetter(n: int, c: char)
    requires 'A' <= c <= 'Z' || 'a' <= c <= 'z'
    ensures c !in IntToStr(n)
  {
    var s := IntToStr(n);
    forall k | 0 <= k < |s| ensures s[k] != c {
      if k > 0 {
        assert s[1..][k - 1] == s[k];
      }
    }
  }
}
