/** Decimal numerals as `to_string`, `sprintf("%u")` and stream extraction handle them. */
module Decimal {

  predicate IsDigit(c: char) {
    '0' <= c <= '9'
  }

  function DigitChar(d: nat): (c: char)
    requires d < 10
    ensures IsDigit(c) && DigitValue(c) == d
  {
    ('0' as int + d) as char
  }

  function DigitValue(c: char): (d: nat)
    requires IsDigit(c)
    ensures d < 10
  {
    c as int - '0' as int
  }

  predicate AllDigits(s: string) {
    forall i :: 0 <= i < |s| ==> IsDigit(s[i])
  }

  /** The numeral of n without leading zeros. */
  function Numeral(n: nat): (s: string)
    ensures |s| > 0 && AllDigits(s)
  {
    if n < 10 then [DigitChar(n)] else Numeral(n / 10) + [DigitChar(n % 10)]
  }

  /** Consumes leading digits of s into acc; returns the value and what follows the digits. */
  function ScanDigits(s: string, acc: nat): (r: (nat, string))
  {
    if s == [] || !IsDigit(s[0]) then (acc, s)
    else ScanDigits(s[1..], acc * 10 + DigitValue(s[0]))
  }

  /** Scanning only drops characters. */
  lemma {:induction false} ScanKeepsChars(s: string, acc: nat)
    ensures forall c :: c in ScanDigits(s, acc).1 ==> c in s
  {
    if s != [] && IsDigit(s[0]) {
      ScanKeepsChars(s[1..], acc * 10 + DigitValue(s[0]));
    }
  }

  /** Scanning a numeral accumulates exactly its number, whatever follows it. */
  lemma {:induction false} ScanNumeral(n: nat, rest: string)
    ensures ScanDigits(Numeral(n) + rest, 0) == ScanDigits(rest, n)
  {
    if n < 10 {
      assert (Numeral(n) + rest)[1..] == rest;
    } else {
      var last := [DigitChar(n % 10)];
      assert Numeral(n) + rest == Numeral(n / 10) + (last + rest);
      ScanNumeral(n / 10, last + rest);
      assert (last + rest)[1..] == rest;
    }
  }
}
