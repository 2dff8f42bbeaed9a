/** The integer scanner of system/system.c: radix fix-up, digit accumulation with
    a cheap overflow test, and the signed and narrow front ends. */
module IntegerParser {
  import opened CStrings
  import opened Words

  const BASE_8 := 9   // the value the source gives this name
  const BASE_10 := 10
  const BASE_16 := 16

  // ---------- Specification ----------

  /** `c` is one of the sixteen digits and small enough for the base. */
  predicate IsDigitIn(c: char, base: nat) {
    IsXDigit(c) && DigitValue(c) < base
  }

  function DigitValue(c: char): (v: nat)
    requires IsXDigit(c)
    ensures v < 16
  {
    if IsDigit(c) then (c - '0') as nat else (Lower(c) - 'a') as nat + 10
  }

  /** Length of the longest prefix made of digits of the base. */
  function DigitRun(t: string, base: nat): (n: nat)
    ensures n <= |t|
    ensures forall k :: 0 <= k < n ==> IsDigitIn(t[k], base)
    ensures n < |t| ==> !IsDigitIn(t[n], base)
  {
    if t != "" && IsDigitIn(t[0], base) then 1 + DigitRun(t[1..], base) else 0
  }

  predicate AllDigits(t: string, base: nat) {
    forall k :: 0 <= k < |t| ==> IsDigitIn(t[k], base)
  }

  /** The number a digit string denotes, without any bound. */
  function Value(t: string, base: nat): nat
    requires AllDigits(t, base)
  {
    if t == "" then 0
    else Append(Value(t[..|t| - 1], base), base, DigitValue(t[|t| - 1]))
  }

  function Append(x: nat, base: nat, digit: nat): nat { x * base + digit }

  /** The accumulator holds the low 64 bits of the exact value, and the flag says
      whether the exact value has outgrown them. */
  predicate Accumulated(exact: nat, base: nat, res: nat, overflow: bool) {
    && res == exact % TWO_64
    && (overflow ==> exact >= TWO_64)
    && (base <= 16 && exact >= TWO_64 ==> overflow)
  }

  /** What the overflow test of the loop, made on residues, has found by the end of `t`. */
  predicate Flagged(t: string, base: nat)
    requires AllDigits(t, base)
  {
    && t != ""
    && var front, val := t[..|t| - 1], DigitValue(t[|t| - 1]);
       Flagged(front, base) || FlagsNow(Value(front, base) % TWO_64, base, val)
  }

  /** The test is made only if one of the top four bits is set. */
  predicate FlagsNow(res: nat, base: nat, val: nat)
    requires val < 16
  {
    res >= TWO_60 && res > DivU64(TWO_64 - 1 - val, base)
  }

  function Radix(t: string, base: nat): nat {
    if base != 0 then base
    else if |t| >= 3 && t[0] == '0' && Lower(t[1]) == 'x' && IsXDigit(t[2]) then BASE_16
    else if t != "" && t[0] == '0' then BASE_8
    else BASE_10
  }

  function PrefixLength(t: string, radix: nat): (n: nat)
    ensures n <= |t|
  {
    if radix == BASE_16 && |t| >= 2 && t[0] == '0' && Lower(t[1]) == 'x' then 2 else 0
  }

  /** A scanned number: its unbounded value and how many characters it took. */
  datatype Scanned = Scanned(value: int, length: nat)

  function Magnitude(t: string, base: nat): (r: Scanned)
    ensures r.length <= |t| && r.value >= 0
  {
    var radix := Radix(t, base);
    var p := PrefixLength(t, radix);
    var n := DigitRun(t[p..], radix);
    Scanned(Value(t[p..][..n], radix), p + n)
  }

  function Signed(t: string, base: nat): (r: Scanned)
    ensures r.length <= |t|
  {
    if t != "" && t[0] == '-' then
      var m := Magnitude(t[1..], base);
      Scanned(-m.value, 1 + m.length)
    else Magnitude(t, base)
  }

  // ---------- The code ----------

  /** `_parse_integer_fixup_radix`. */
  method FixupRadix(s: CString, str: nat, base: nat) returns (i: nat, radix: nat)
    requires str < |s|
    ensures radix == Radix(Text(s, str), base)
    ensures i == str + PrefixLength(Text(s, str), radix)
    ensures i < |s|
    ensures (s[str] == '0' && s[str + 1] in "xX"
             && (base == 16 || (base == 0 && s[str + 2] in "0123456789abcdefABCDEF"))) ==>
              i == str + 2 && radix == 16
    ensures base == 0 && s[str] == '0' && !(s[str + 1] in "xX" && s[str + 2] in "0123456789abcdefABCDEF") ==>
              i == str && radix == 9
    ensures base == 0 && s[str] != '0' ==> i == str && radix == 10
    ensures base != 0 && !(base == 16 && s[str] == '0' && s[str + 1] in "xX") ==> i == str && radix == base
  {
    i, radix := str, base;
    if radix == 0 {
      if s[i] == '0' {
        if Lower(s[i + 1]) == 'x' && IsXDigit(s[i + 2]) {
          radix := BASE_16;
        } else {
          radix := BASE_8;
        }
      } else {
        radix := BASE_10;
      }
    }
    if radix == BASE_16 && s[i] == '0' && Lower(s[i + 1]) == 'x' {
      i := i + 2;
    }
  }

  /** `div_u64`: a zero divisor gives zero. */
  function DivU64(dividend: nat, divisor: nat): nat {
    if divisor == 0 then 0 else dividend / divisor
  }

  /** The body of the accumulation loop, given the exact value so far. */
  method Accumulate(res: nat, base: nat, val: nat, overflow: bool, ghost exact: nat) returns (res': nat, overflow': bool)
    requires val < 16 && val < base
    requires Accumulated(exact, base, res, overflow)
    ensures Accumulated(Append(exact, base, val), base, res', overflow')
    ensures overflow' <==> overflow || FlagsNow(res, base, val)
  {
    AccumulateStep(exact, res, base, val);
    overflow' := overflow;
    // The division is made only within range of an overflow in the largest supported base.
    if res >= TWO_60 {
      if res > DivU64(TWO_64 - 1 - val, base) {
        overflow' := true;
      }
    }
    res' := (res * base + val) % TWO_64;
  }

  lemma ExtendValue(t: string, n: nat, base: nat)
    requires n < |t| && AllDigits(t[..n], base) && IsDigitIn(t[n], base)
    ensures AllDigits(t[..n + 1], base)
    ensures Value(t[..n + 1], base) == Append(Value(t[..n], base), base, DigitValue(t[n]))
    ensures Flagged(t[..n + 1], base)
       <==> Flagged(t[..n], base) || FlagsNow(Value(t[..n], base) % TWO_64, base, DigitValue(t[n]))
  {
    assert t[..n + 1][..n] == t[..n];
  }

  lemma DigitRunStep(t: string, n: nat, base: nat)
    requires n < |t|
    ensures DigitRun(t[n..], base) == if IsDigitIn(t[n], base) then 1 + DigitRun(t[n + 1..], base) else 0
  {
    assert t[n..][1..] == t[n + 1..];
  }

  lemma NoDigits(t: string, base: nat)
    ensures AllDigits(t[..0], base) && Value(t[..0], base) == 0 && !Flagged(t[..0], base) && t[0..] == t
    ensures DigitRun(t[|t|..], base) == 0
  {
  }

  /** `_parse_integer`. The third result is the local overflow flag, which the
      source folds into the count with a mask of zero. */
  method ParseInteger(s: CString, str: nat, base: nat) returns (rv: nat, res: nat, overflow: bool)
    requires str < |s|
    ensures rv == DigitRun(Text(s, str), base)
    ensures res == Value(Text(s, str)[..rv], base) % TWO_64
    ensures base <= 16 ==> (overflow <==> Value(Text(s, str)[..rv], base) > TWO_64 - 1)
    ensures overflow ==> Value(Text(s, str)[..rv], base) > TWO_64 - 1
    ensures overflow <==> Flagged(Text(s, str)[..rv], base)
  {
    hide Value, DigitRun, AllDigits, Append, Flagged, FlagsNow;
    NoDigits(Text(s, str), base);
    res, rv, overflow := 0, 0, false;
    ghost var t, exact := Text(s, str), 0;
    while s[str + rv] != '\0'
      invariant str + rv < |s|
      invariant AllDigits(t[..rv], base) && exact == Value(t[..rv], base)
      invariant DigitRun(t, base) == rv + DigitRun(t[rv..], base)
      invariant Accumulated(exact, base, res, overflow) && (overflow <==> Flagged(t[..rv], base))
      decreases |s| - rv
    {
      DigitRunStep(t, rv, base);
      var c := s[str + rv];
      var val: nat;
      if '0' <= c <= '9' {
        val := (c - '0') as nat;
      } else if 'a' <= Lower(c) <= 'f' {
        val := (Lower(c) - 'a') as nat + 10;
      } else {
        break;
      }
      if val >= base {
        break;
      }
      ExtendValue(t, rv, base);
      res, overflow := Accumulate(res, base, val, overflow, exact);
      exact := Append(exact, base, val);
      rv := rv + 1;
    }
  }

  /** One accumulation step: residues stay right, and the overflow test on the
      residue is the overflow test on the exact value as long as none has occurred. */
  lemma AccumulateStep(exact: nat, res: nat, base: nat, val: nat)
    requires res == exact % TWO_64
    requires val < 16 && val < base
    ensures (res * base + val) % TWO_64 == (exact * base + val) % TWO_64
    ensures exact >= TWO_64 ==> exact * base + val >= TWO_64
    ensures res > DivU64(TWO_64 - 1 - val, base) <==> res * base + val >= TWO_64
    ensures exact < TWO_64 ==> res == exact
    ensures res * base + val >= TWO_64 ==> exact * base + val >= TWO_64
    ensures base <= 16 && res < TWO_60 ==> res * base + val < TWO_64
  {
    var q := exact / TWO_64;
    Distribute(q, res, base);
    TimesAtLeast(exact, base);
    TimesAtLeast(q, base);
    ShiftResidue(q * base, res * base + val);
    DivideTest(res, TWO_64 - 1 - val, base);
    if base <= 16 && res < TWO_60 {
      TimesAtMost(res, TWO_60 - 1, base, 16);
    }
  }

  lemma ShiftResidue(high: nat, x: nat)
    ensures (high * TWO_64 + x) % TWO_64 == x % TWO_64
  {
  }

  lemma Distribute(q: nat, res: nat, base: nat)
    ensures (q * TWO_64 + res) * base == (q * base) * TWO_64 + res * base
  {
  }

  lemma TimesAtLeast(x: nat, base: nat)
    requires base >= 1
    ensures x * base >= x
  {
  }

  lemma TimesAtMost(x: nat, bound: nat, base: nat, top: nat)
    requires x <= bound && base <= top
    ensures x * base <= bound * top
  {
    assert x * base <= x * top;
    assert x * top <= bound * top;
  }

  /** `x > limit / base` is the multiplication `x * base > limit`, without the multiplication. */
  lemma DivideTest(x: nat, limit: nat, base: nat)
    requires base >= 1
    ensures x > limit / base <==> x * base > limit
  {
    var d := limit / base;
    assert d * base <= limit < d * base + base;
    if x > d {
      assert x * base >= (d + 1) * base;
    } else {
      assert x * base <= d * base;
    }
  }

  /** The digits of the base at the front of `t` are `n`, and the number they denote, in 64 bits, is `res`. */
  predicate IsRun(t: string, base: nat, res: nat, n: int) {
    n == DigitRun(t, base) && res == Value(t[..n], base) % TWO_64
  }

  /** `simple_strtoull`: the magnitude modulo 2^64, and the cursor after it. */
  method SimpleStrtoull(s: CString, cp: nat, base: nat) returns (result: nat, end: nat)
    requires cp < |s|
    ensures result == Magnitude(Text(s, cp), base).value % TWO_64
    ensures end == cp + Magnitude(Text(s, cp), base).length < |s|
    ensures (s[cp] == '0' && s[cp + 1] in "xX"
             && (base == 16 || (base == 0 && s[cp + 2] in "0123456789abcdefABCDEF"))) ==>
              IsRun(Text(s, cp + 2), 16, result, end - cp - 2)
    ensures base == 0 && s[cp] == '0' && !(s[cp + 1] in "xX" && s[cp + 2] in "0123456789abcdefABCDEF") ==>
              IsRun(Text(s, cp), 9, result, end - cp)
    ensures base == 0 && s[cp] != '0' ==> IsRun(Text(s, cp), 10, result, end - cp)
    ensures base != 0 && !(base == 16 && s[cp] == '0' && s[cp + 1] in "xX") ==>
              IsRun(Text(s, cp), base, result, end - cp)
  {
    hide Radix, PrefixLength, Value, DigitRun, AllDigits, Flagged;
    var i, radix := FixupRadix(s, cp, base);
    TextAdvance(s, cp, i - cp);
    var rv, res, overflow := ParseInteger(s, i, radix);
    result, end := res, i + rv;
    assert IsRun(Text(s, i), radix, result, end - i);
    hide IsRun;
  }

  /** `simple_strtoul`: `unsigned long` has 32 bits on this target. */
  method SimpleStrtoul(s: CString, cp: nat, base: nat) returns (result: nat, end: nat)
    requires cp < |s|
    ensures result == Magnitude(Text(s, cp), base).value % TWO_32
    ensures end == cp + Magnitude(Text(s, cp), base).length < |s|
  {
    hide IsRun, Magnitude;
    var wide;
    wide, end := SimpleStrtoull(s, cp, base);
    NarrowResidue(Magnitude(Text(s, cp), base).value);
    result := wide % TWO_32;
  }

  /** `simple_strtoll`: negation is unsigned, then read as two's complement. */
  method SimpleStrtoll(s: CString, cp: nat, base: nat) returns (result: int, end: nat)
    requires cp < |s|
    ensures result == Wrap64(Signed(Text(s, cp), base).value)
    ensures end == cp + Signed(Text(s, cp), base).length < |s|
  {
    hide IsRun, Magnitude;
    var magnitude;
    if s[cp] == '-' {
      TextAdvance(s, cp, 1);
      magnitude, end := SimpleStrtoull(s, cp + 1, base);
      WrapNegated64(Magnitude(Text(s, cp + 1), base).value);
      return Wrap64((TWO_64 - magnitude) % TWO_64), end;
    }
    magnitude, end := SimpleStrtoull(s, cp, base);
    WrapResidue64(Magnitude(Text(s, cp), base).value);
    return Wrap64(magnitude), end;
  }

  /** `simple_strtol`. */
  method SimpleStrtol(s: CString, cp: nat, base: nat) returns (result: int, end: nat)
    requires cp < |s|
    ensures result == Wrap32(Signed(Text(s, cp), base).value)
    ensures end == cp + Signed(Text(s, cp), base).length < |s|
  {
    hide IsRun, Magnitude;
    var magnitude;
    if s[cp] == '-' {
      TextAdvance(s, cp, 1);
      magnitude, end := SimpleStrtoul(s, cp + 1, base);
      WrapNegated32(Magnitude(Text(s, cp + 1), base).value);
      return Wrap32((TWO_32 - magnitude) % TWO_32), end;
    }
    magnitude, end := SimpleStrtoul(s, cp, base);
    WrapResidue32(Magnitude(Text(s, cp), base).value);
    return Wrap32(magnitude), end;
  }

  // ---------- Results ----------

  /** The signed parsers on the same text: the narrow result is the wide one's low half, both stop
      at the same place, and either is the number that was scanned if and only if it fits. */
  method ParsersAgree(s: CString, cp: nat, base: nat)
    returns (narrow: int, narrowEnd: nat, wide: int, wideEnd: nat)
    requires cp < |s|
    ensures narrow == Wrap32(wide) && narrowEnd == wideEnd
    ensures narrow == wide <==> -TWO_31 <= wide < TWO_31
    ensures var exact := Signed(Text(s, cp), base).value;
            && (narrow == exact <==> -TWO_31 <= exact < TWO_31)
            && (wide == exact <==> -TWO_63 <= exact < TWO_63)
  {
    hide Wrap32, Wrap64, Signed;
    narrow, narrowEnd := SimpleStrtol(s, cp, base);
    wide, wideEnd := SimpleStrtoll(s, cp, base);
    ghost var exact := Signed(Text(s, cp), base).value;
    WrapTwice(exact);
    WrapExact(exact);
    WrapExact(wide);
  }

  // ---------- When the overflow test is complete ----------

  /** The flag is set if and only if the value outgrows 64 bits. */
  predicate FlagRight(t: string, base: nat)
    requires AllDigits(t, base)
  {
    Flagged(t, base) <==> Value(t, base) >= TWO_64
  }

  function Power(base: nat, k: nat): nat {
    if k == 0 then 1 else base * Power(base, k - 1)
  }

  function Fs(k: nat): (t: string)
    ensures |t| == k
  {
    seq(k, _ => 'f')
  }

  /** The largest number of `k` digits. */
  lemma {:induction false} FsValue(k: nat, base: nat)
    requires base > 16
    ensures AllDigits(Fs(k), base)
    ensures k > 0 ==> AllDigits(Fs(k - 1), base) && Value(Fs(k), base) == Append(Value(Fs(k - 1), base), base, 15)
  {
    if k > 0 {
      assert Fs(k)[..k - 1] == Fs(k - 1);
    }
  }

  /** Numbers below 2^60 leave the test no room to miss: `k` digits are enough for all of them, and
      one more digit still fits 64 bits. */
  predicate NoRoom(base: nat, k: nat)
    requires base > 16
  {
    FsValue(k + 1, base);
    Power(base, k) >= TWO_60 && Value(Fs(k + 1), base) < TWO_64
  }

  /** The flag is never set without cause. */
  lemma {:induction false} FlagSound(t: string, base: nat)
    requires AllDigits(t, base)
    ensures Flagged(t, base) ==> Value(t, base) >= TWO_64
    ensures base <= 16 ==> FlagRight(t, base)
  {
    if t != "" {
      var front, val := t[..|t| - 1], DigitValue(t[|t| - 1]);
      FlagSound(front, base);
      hide Value, Flagged, DivU64, DigitValue;
      FlagStep(t, base);
      AccumulateStep(Value(front, base), Value(front, base) % TWO_64, base, val);
    }
  }

  lemma FlagStep(t: string, base: nat)
    requires AllDigits(t, base) && t != ""
    ensures var front, val := t[..|t| - 1], DigitValue(t[|t| - 1]);
            && AllDigits(front, base) && val < base
            && Value(t, base) == Append(Value(front, base), base, val)
            && (Flagged(t, base) <==> Flagged(front, base) || FlagsNow(Value(front, base) % TWO_64, base, val))
  {
  }

  /** A number below `base^k` is at most the largest one of `k` digits. */
  lemma {:induction false} LargestBelow(t: string, base: nat, k: nat)
    requires base > 16 && AllDigits(t, base) && AllDigits(Fs(k), base) && Value(t, base) < Power(base, k)
    ensures Value(t, base) <= Value(Fs(k), base)
  {
    FsValue(k, base);
    if t != "" && k > 0 {
      var front, val := t[..|t| - 1], DigitValue(t[|t| - 1]);
      FlagStep(t, base);
      assert Power(base, k) == base * Power(base, k - 1);
      hide Value, Power, Fs, Flagged, DigitValue;
      QuotientBelow(Value(front, base), base, val, Power(base, k - 1));
      LargestBelow(front, base, k - 1);
      TimesAtMost(Value(front, base), Value(Fs(k - 1), base), base, base);
    }
  }

  lemma QuotientBelow(x: nat, base: nat, val: nat, bound: nat)
    requires x * base + val < base * bound
    ensures x < bound
  {
    if x >= bound {
      TimesAtMost(bound, x, base, base);
    }
  }

  lemma {:induction false} NoRoomIsExact(t: string, base: nat, k: nat)
    requires base > 16 && NoRoom(base, k) && AllDigits(t, base)
    ensures FlagRight(t, base)
  {
    if t != "" {
      var front, val := t[..|t| - 1], DigitValue(t[|t| - 1]);
      NoRoomIsExact(front, base, k);
      FlagStep(t, base);
      FsValue(k, base);
      FsValue(k + 1, base);
      var v := Value(front, base);
      AccumulateStep(v, v % TWO_64, base, val);
      if v < TWO_60 {
        LargestBelow(front, base, k);
        TimesAtMost(v, Value(Fs(k), base), base, base);
      }
      hide Value, Flagged, DivU64, Power, Fs, DigitValue;
    }
  }

  function HexDigit(d: nat): (c: char)
    requires d < 16
    ensures IsXDigit(c) && DigitValue(c) == d && (d == 15 ==> c == 'f')
  {
    if d < 10 then '0' + d as char else 'a' + (d - 10) as char
  }

  lemma WithDigit(front: string, base: nat, d: nat)
    requires base > 16 && d < 16 && AllDigits(front, base)
    ensures AllDigits(front + [HexDigit(d)], base)
    ensures Value(front + [HexDigit(d)], base) == Append(Value(front, base), base, d)
    ensures Flagged(front + [HexDigit(d)], base)
       <==> Flagged(front, base) || FlagsNow(Value(front, base) % TWO_64, base, d)
  {
    hide Value, Flagged, FlagsNow, HexDigit, DigitValue;
    var t := front + [HexDigit(d)];
    assert t[..|t| - 1] == front;
    FlagStep(t, base);
  }

  /** Below any limit there is a number so large that one more digit brings it past sixteen times
      the limit, unless all the digits that matter are already the largest. */
  lemma {:induction false} Extreme(base: nat, limit: nat) returns (t: string, k: nat)
    requires base > 16 && limit >= 1
    ensures AllDigits(t, base) && Value(t, base) < limit
    ensures Append(Value(t, base), base, 15) >= 16 * limit || (t == Fs(k) && Power(base, k) >= limit)
    decreases limit
  {
    if limit == 1 {
      return "", 0;
    }
    var shorter := Shorter(limit, base);
    var front, j := Extreme(base, shorter);
    hide Value, Power, Fs, Flagged, Append;
    var v := Value(front, base);
    var d := NextDigit(v, base, shorter, limit);
    WithDigit(front, base, d);
    t, k := front + [HexDigit(d)], j + 1;
    if Append(Value(t, base), base, 15) < 16 * limit {
      FsGrows(j, base);
      TimesAtMost(shorter, Power(base, j), base, base);
    }
  }

  /** The largest last digit that keeps the number below the limit. */
  lemma NextDigit(v: nat, base: nat, shorter: nat, limit: nat) returns (d: nat)
    requires base > 16 && limit >= 2 && v < shorter
    requires (shorter - 1) * base < limit <= shorter * base
    ensures d < 16 && Append(v, base, d) < limit
    ensures Append(v, base, 15) >= 16 * shorter || d < 15 ==> Append(Append(v, base, d), base, 15) >= 16 * limit
  {
    TimesAtMost(v, shorter - 1, base, base);
    var high := v * base;
    d := if limit - 1 - high < 15 then limit - 1 - high else 15;
    hide Append;
    Appended(v, base, d);
    if d < 15 {
      JustBelow(limit, base);
    } else if Append(v, base, 15) >= 16 * shorter {
      MuchMore(Append(v, base, 15), shorter, limit, base);
    }
  }

  lemma Appended(v: nat, base: nat, d: nat)
    ensures Append(v, base, d) == v * base + d
  {
  }

  lemma JustBelow(limit: nat, base: nat)
    requires base > 16 && limit >= 2
    ensures Append(limit - 1, base, 15) >= 16 * limit
  {
    TimesAtMost(limit - 1, limit - 1, 17, base);
  }

  lemma MuchMore(w: nat, shorter: nat, limit: nat, base: nat)
    requires w >= 16 * shorter && limit <= shorter * base
    ensures Append(w, base, 15) >= 16 * limit
  {
    TimesAtMost(16 * shorter, w, base, base);
    assert 16 * shorter * base == 16 * (shorter * base);
  }

  lemma FsGrows(j: nat, base: nat)
    ensures Fs(j) + ['f'] == Fs(j + 1) && Power(base, j + 1) == Power(base, j) * base
  {
  }

  lemma Shorter(limit: nat, base: nat) returns (shorter: nat)
    requires base > 16 && limit >= 2
    ensures 1 <= shorter < limit
    ensures (shorter - 1) * base < limit <= shorter * base
  {
    var q := (limit - 1) / base;
    assert limit - 1 == q * base + (limit - 1) % base;
    TimesAtMost(q, q, 2, base);
    shorter := q + 1;
  }

  /** Testing for overflow only when one of the top four bits is set is right for every string of a
      base up to sixteen. For a larger base it is right for every string if and only if numbers that
      pass the test untested have no room to overflow. */
  lemma TopFourBitsSuffice(base: nat)
    ensures (forall t: string | AllDigits(t, base) :: FlagRight(t, base))
       <==> base <= 16 || exists k: nat :: NoRoom(base, k)
  {
    hide Value, Flagged, FlagsNow, Fs, Power;
    if base <= 16 {
      forall t: string | AllDigits(t, base) ensures FlagRight(t, base) {
        FlagSound(t, base);
      }
    } else if k: nat :| NoRoom(base, k) {
      forall t: string | AllDigits(t, base) ensures FlagRight(t, base) {
        NoRoomIsExact(t, base, k);
      }
    } else {
      var t := MissedOverflow(base);
      assert !FlagRight(t, base);
    }
  }

  /** Where there is room, some string overflows unnoticed. */
  lemma MissedOverflow(base: nat) returns (t: string)
    requires base > 16 && forall k: nat :: !NoRoom(base, k)
    ensures AllDigits(t, base) && Value(t, base) >= TWO_64 && !Flagged(t, base)
  {
    hide Value, Flagged, Fs, Power, DivU64;
    var front, k := Extreme(base, TWO_60);
    WithDigit(front, base, 15);
    FlagSound(front, base);
    t := front + [HexDigit(15)];
    if front == Fs(k) && Power(base, k) >= TWO_60 {
      FsValue(k + 1, base);
      FsGrows(k, base);
      assert !NoRoom(base, k);
    }
    UniqueResidue(Value(front, base), 0, TWO_64, Value(front, base));
  }

  /** An unnoticed overflow: base 2^32 - 1, which a caller may pass, and three digits. */
  lemma MissedInThreeDigits()
    ensures AllDigits("200", 0xFFFF_FFFF)
    ensures Value("200", 0xFFFF_FFFF) >= TWO_64 && !Flagged("200", 0xFFFF_FFFF)
  {
    var base := 0xFFFF_FFFF;
    assert "200"[..2] == "20" && "20"[..1] == "2" && "2"[..0] == "";
    assert Value("2", base) == 2;
    assert Value("20", base) == 0x1_FFFF_FFFE;
  }

  /** Sixteen is not the largest base for which the test is right. */
  lemma ThirtyTwoIsExact(t: string)
    requires AllDigits(t, 32)
    ensures FlagRight(t, 32)
  {
    ThirtyTwoHasNoRoom();
    NoRoomIsExact(t, 32, 12);
  }

  lemma ThirtyTwoHasNoRoom()
    ensures NoRoom(32, 12)
  {
    assert Power(32, 6) == 0x4000_0000;
    assert Power(32, 12) == TWO_60;
    SumOfFs(13);
  }

  lemma {:induction false} SumOfFs(k: nat)
    ensures AllDigits(Fs(k), 32) && 31 * Value(Fs(k), 32) == 15 * (Power(32, k) - 1)
  {
    FsValue(k, 32);
    if k > 0 {
      SumOfFs(k - 1);
    } else {
      assert Fs(0) == "";
    }
  }
}
