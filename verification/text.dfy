/** Decimal rendering of integers as Python's f-strings produce it (`f"{n}"`,
    `f"{n:03d}"`), its inverse, and the string facts the seeders rely on to
    keep generated names apart. */
module Text {

  predicate IsDigit(c: char) {
    '0' <= c <= '9'
  }

  predicate AllDigits(s: string) {
    forall i | 0 <= i < |s| :: IsDigit(s[i])
  }

  function Digit(d: nat): (c: char)
    requires d < 10
    ensures IsDigit(c) && DigitValue(c) == d
  {
    (('0' as int) + d) as char
  }

  function DigitValue(c: char): nat
    requires IsDigit(c)
  {
    (c as int) - ('0' as int)
  }

  /** `f"{n}"` for a non-negative integer: no sign, no leading zero. */
  function Decimal(n: nat): (s: string)
    ensures 1 <= |s| && AllDigits(s)
    ensures |s| == 1 <==> n < 10
    decreases n
  {
    if n < 10 then [Digit(n)] else Decimal(n / 10) + [Digit(n % 10)]
  }

  /** The value of a string of decimal digits (leading zeros allowed). */
  function ParseDecimal(s: string): nat
    requires AllDigits(s)
  {
    if s == [] then 0 else ParseDecimal(s[..|s| - 1]) * 10 + DigitValue(s[|s| - 1])
  }

  /** Reading back what `Decimal` wrote gives the number again. */
  lemma {:induction false} ParseDecimalRoundTrip(n: nat)
    ensures ParseDecimal(Decimal(n)) == n
    decreases n
  {
    if n >= 10 {
      var s := Decimal(n);
      assert s[..|s| - 1] == Decimal(n / 10);
      ParseDecimalRoundTrip(n / 10);
    }
  }

  lemma DecimalInjective(a: nat, b: nat)
    ensures Decimal(a) == Decimal(b) ==> a == b
  {
    ParseDecimalRoundTrip(a);
    ParseDecimalRoundTrip(b);
  }

  /** A leading zero does not change the value of a digit string. */
  lemma {:induction false} ParseLeadingZero(s: string)
    requires AllDigits(s)
    ensures AllDigits("0" + s) && ParseDecimal("0" + s) == ParseDecimal(s)
    decreases |s|
  {
    var z := "0" + s;
    if s != [] {
      assert z[..|z| - 1] == "0" + s[..|s| - 1];
      ParseLeadingZero(s[..|s| - 1]);
    }
  }

  /** `f"{n:03d}"`: at least three digits, padded with zeros on the left. */
  function Pad3(n: nat): (s: string)
    ensures AllDigits(s) && 3 <= |s|
    ensures n < 1000 ==> |s| == 3
    ensures ParseDecimal(s) == n
  {
    ParseDecimalRoundTrip(n);
    var d := Decimal(n);
    if n < 10 then
      ParseLeadingZero(d);
      ParseLeadingZero("0" + d);
      assert "0" + ("0" + d) == "00" + d;
      "00" + d
    else if n < 100 then
      assert n / 10 < 10;
      ParseLeadingZero(d);
      "0" + d
    else
      assert n / 10 >= 10 && n / 100 >= 1;
      assert n < 1000 ==> n / 10 < 100 && n / 100 < 10;
      d
  }

  lemma Pad3Injective(a: nat, b: nat)
    ensures Pad3(a) == Pad3(b) ==> a == b
  {
  }

  /** `f"{i}"` for any integer: a minus sign before the magnitude when negative. */
  function IntToString(i: int): (s: string)
    ensures 1 <= |s|
    ensures 0 <= i ==> s == Decimal(i)
    ensures i < 0 ==> s[0] == '-' && s[1..] == Decimal(-i)
  {
    if i < 0 then "-" + Decimal(-i) else Decimal(i)
  }

  /** The years the seeders use all print with exactly four digits. */
  lemma FourDigits(n: nat)
    requires 1000 <= n < 10000
    ensures |Decimal(n)| == 4
  {
    assert n / 10 / 10 == n / 100 && n / 100 / 10 == n / 1000;
    assert |Decimal(n / 1000)| == 1;
    assert |Decimal(n / 100)| == 2;
    assert |Decimal(n / 10)| == 3;
  }

  /** Two numbers in 10..99 print with two digits. */
  lemma TwoDigits(n: nat)
    requires 10 <= n < 100
    ensures |Decimal(n)| == 2
  {
  }

  /** Equal concatenations whose first parts have equal length split equally. */
  lemma SplitSameLength(a: string, x: string, b: string, y: string)
    requires |a| == |b| && a + x == b + y
    ensures a == b && x == y
  {
    assert a == (a + x)[..|a|] && b == (b + y)[..|b|];
    assert x == (a + x)[|a|..] && y == (b + y)[|b|..];
  }

  /** Equal concatenations with equal tails have equal heads. */
  lemma CancelSuffix(a: string, b: string, s: string)
    requires a + s == b + s
    ensures a == b
  {
    assert a == (a + s)[..|a|] && b == (b + s)[..|b|];
  }

  /** In `x + [c] + y` with `x` all digits and `c` not a digit, the first
      `|x|` characters are digits and the next one is not. */
  lemma DigitsThenSeparator(x: string, y: string, c: char)
    requires AllDigits(x) && !IsDigit(c)
    ensures forall i | 0 <= i < |x| :: IsDigit((x + [c] + y)[i])
    ensures !IsDigit((x + [c] + y)[|x|])
  {
    assert forall i | 0 <= i < |x| :: (x + [c] + y)[i] == x[i];
  }

  /** A digit string, a non-digit separator and a tail can be read back only
      one way: the separator is the first non-digit. */
  lemma SplitAtSeparator(x: string, y: string, u: string, v: string, c: char)
    requires AllDigits(x) && AllDigits(u) && !IsDigit(c)
    requires x + [c] + y == u + [c] + v
    ensures x == u && y == v
  {
    DigitsThenSeparator(x, y, c);
    DigitsThenSeparator(u, v, c);
    SplitSameLength(x + [c], y, u + [c], v);
    assert x == (x + [c])[..|x|] && u == (u + [c])[..|u|];
  }
}
