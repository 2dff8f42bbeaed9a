/** Numbers in writing, digit by digit from a table, and what the scanner makes of them. */
module Numerals {
  import opened CStrings
  import opened IntegerParser
  import opened Words

  const DIGITS := "0123456789abcdef"
  const CAPITALS := "0123456789ABCDEF"
  const XDIGITS := "0123456789abcdefABCDEF"

  lemma Shrinks(n: nat, base: nat)
    requires base >= 2
    ensures n % base < base && n == n / base * base + n % base
    ensures n >= base ==> 1 <= n / base < n
  {
    var q, r := n / base, n % base;
    assert n == q * base + r;
    if q >= 1 {
      TimesAtMost(q, q, 2, base);
    }
  }

  /** A number written in a base with those digits, without leading zeros. */
  function Numeral(n: nat, base: nat, digits: string): (t: string)
    requires 2 <= base <= |digits|
    ensures t != ""
  {
    Shrinks(n, base);
    if n < base then [digits[n]] else Numeral(n / base, base, digits) + [digits[n % base]]
  }

  /** The sixteen digits mean their place in the table. */
  lemma DigitsMean(digits: string, d: nat)
    requires d < 16 && digits in {DIGITS, CAPITALS}
    ensures IsXDigit(digits[d]) && DigitValue(digits[d]) == d && digits[d] in XDIGITS
    ensures IsDigit(digits[d]) <==> d < 10
  {
    assert XDIGITS[d] == DIGITS[d];
    assert d >= 10 ==> XDIGITS[d + 6] == CAPITALS[d];
    assert d < 10 ==> XDIGITS[d] == CAPITALS[d];
  }

  /** There are no others. */
  lemma OnlyDigits(c: char)
    ensures IsXDigit(c) <==> c in XDIGITS
    ensures IsDigit(c) <==> c in "0123456789"
  {
  }

  /** What is written is read: all digits of the base, and the number again. */
  lemma {:induction false} NumeralValue(n: nat, base: nat, digits: string)
    requires 2 <= base <= 16 && digits in {DIGITS, CAPITALS}
    ensures AllDigits(Numeral(n, base, digits), base) && Value(Numeral(n, base, digits), base) == n
    ensures Numeral(n, base, digits)[0] in XDIGITS && !IsSpace(Numeral(n, base, digits)[0])
    ensures n > 0 ==> Numeral(n, base, digits)[0] != '0'
    ensures base <= 10 ==> Numeral(n, base, digits)[0] in "0123456789"[..base]
    decreases n
  {
    var t := Numeral(n, base, digits);
    Shrinks(n, base);
    DigitsMean(digits, n % base);
    if n < base {
      DigitsMean(digits, n);
      assert base <= 10 ==> digits[n] == "0123456789"[..base][n];
      OneDigit(digits[n], base);
    } else {
      NumeralValue(n / base, base, digits);
      hide Value, Numeral, AllDigits, DigitValue, IsXDigit;
      OneMore(Numeral(n / base, base, digits), digits[n % base], base);
      assert t == Numeral(n / base, base, digits) + [digits[n % base]] by { NumeralUnfolds(n, base, digits); }
    }
  }

  lemma NumeralUnfolds(n: nat, base: nat, digits: string)
    requires 2 <= base <= |digits| && n >= base
    ensures n % base < base
    ensures Numeral(n, base, digits) == Numeral(n / base, base, digits) + [digits[n % base]]
  {
    Shrinks(n, base);
  }

  lemma OneDigit(c: char, base: nat)
    requires IsDigitIn(c, base)
    ensures AllDigits([c], base) && Value([c], base) == DigitValue(c)
  {
    assert [c][..0] == "";
    assert Value([c], base) == Append(Value("", base), base, DigitValue(c));
  }

  lemma OneMore(t: string, c: char, base: nat)
    requires AllDigits(t, base) && IsDigitIn(c, base)
    ensures AllDigits(t + [c], base) && Value(t + [c], base) == Value(t, base) * base + DigitValue(c)
  {
    assert (t + [c])[..|t|] == t;
  }

  /** A digit run ends where the digits end. */
  lemma {:induction false} DigitRunStops(t: string, rest: string, base: nat)
    requires AllDigits(t, base)
    requires rest == "" || !IsDigitIn(rest[0], base)
    ensures DigitRun(t + rest, base) == |t|
    decreases |t|
  {
    if t == "" {
      assert t + rest == rest;
    } else {
      assert (t + rest)[1..] == t[1..] + rest;
      DigitRunStops(t[1..], rest, base);
    }
  }
}
