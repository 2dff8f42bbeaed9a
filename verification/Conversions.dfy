/** What each conversion means, in plain terms: texts that are written out, and what a scan of them
    stores. */
module Conversions {
  import opened CStrings
  import opened IntegerParser
  import opened Numerals
  import opened ScanFacts
  import opened Scanf
  import opened Words

  /** The text goes on with nothing that could belong to a number. */
  predicate Ends(rest: string) {
    rest == "" || rest[0] !in "0123456789abcdefABCDEFxX"
  }

  // ---------- One directive ----------

  /** A turn that begins with a directive. */
  lemma DirectiveTurn(g: string, inp: string, used: nat)
    requires inp != ""
    ensures Turn("%" + g, inp, used) == Directive(g, inp, used)
  {
    hide Directive;
    assert ("%" + g)[1..] == g;
  }

  lemma ScanDirective(g: string, inp: string, used: nat)
    requires inp != ""
    ensures Scan("%" + g, inp, used) ==
            match Directive(g, inp, used)
            case Next(f, i, u, stores, n) => After(n, stores, Scan(f, i, u))
            case Stop(f, u) => Trailing(f, u)
            case Quit => Result(0, [])
  {
    hide Directive, Turn;
    DirectiveTurn(g, inp, used);
    Unfold(0, [], "%" + g, inp, used);
  }

  /** A qualifier as it may stand in a format: a lower-case one takes a further character along. */
  predicate Qualifies(quals: string, q: Qualifier) {
    match q
    case Plain => quals == ""
    case Half => |quals| == 2 && quals[0] == 'h' && quals[1] != 'h'
    case Long => quals == "L" || (|quals| == 2 && quals[0] == 'l' && quals[1] != 'l')
    case Size => quals == "z" || quals == "Z"
  }

  lemma QualifierRead(quals: string, q: Qualifier, kind: char, f: string)
    requires Qualifies(quals, q) && kind in "csn%oxXidu"
    ensures var g := quals + ([kind] + f);
            && Head(g) != '*' && Width(g) == (NO_WIDTH, g)
            && !IsDoubled(g) && Qualify(g) == (q, [kind] + f)
  {
    var g := quals + ([kind] + f);
    assert DigitRun(g, BASE_10) == 0;
    if quals == "" {
      assert g == [kind] + f;
    } else if |quals| == 1 {
      assert g[1..] == [kind] + f && g[1] == kind;
    } else {
      assert g[2..] == [kind] + f && g[1] == quals[1];
    }
  }

  /** A directive made of a qualifier and a conversion. */
  lemma QualifiedDirective(quals: string, q: Qualifier, kind: char, f: string, inp: string, used: nat)
    requires Qualifies(quals, q) && kind in "csn%oxXidu" && inp != ""
    ensures Directive(quals + ([kind] + f), inp, used) == Convert(kind, NO_WIDTH, q, f, inp, used)
  {
    hide Convert, Width, Qualify, IsDoubled;
    QualifierRead(quals, q, kind, f);
    assert ([kind] + f)[1..] == f;
  }

  /** An integer conversion of a text that it takes whole. */
  lemma IntegerScan(quals: string, q: Qualifier, kind: char, f: string, t: string, rest: string, used: nat)
    requires Qualifies(quals, q) && kind in "oxXidu" && t != "" && !IsSpace(t[0])
    requires StartsNumber(LeadingDigit(t + rest, IsSigned(kind)), Base(kind))
    requires NumberLength(q, IsSigned(kind), t + rest, Base(kind)) == |t|
    ensures Scan("%" + (quals + ([kind] + f)), t + rest, used)
         == After(1, [StoredNumber(q, IsSigned(kind), t + rest, Base(kind))], Scan(f, rest, used + |t|))
  {
    hide StoredNumber, NumberLength, StartsNumber, LeadingDigit, Base, IsSigned, Directive, Scan, Convert;
    ConvertsInteger(kind, q, f, t + rest, used);
    var inp := t + rest;
    assert inp[0] == t[0] && SpaceRun(inp) == 0 && inp[0..] == inp && inp[|t|..] == rest;
    ScanDirective(quals + ([kind] + f), inp, used);
    QualifiedDirective(quals, q, kind, f, inp, used);
  }

  // ---------- Numbers ----------

  lemma MagnitudeFrom(s: string, base: nat, radix: nat, p: nat, t: string, rest: string)
    requires Radix(s, base) == radix && PrefixLength(s, radix) == p && s[p..] == t + rest
    requires radix <= 16 && AllDigits(t, radix) && Ends(rest)
    ensures Magnitude(s, base) == Scanned(Value(t, radix), p + |t|)
  {
    hide Value, Radix, PrefixLength, DigitRun, AllDigits;
    if rest != "" {
      NothingOfANumber(rest);
    }
    DigitRunStops(t, rest, radix);
    assert (t + rest)[..|t|] == t;
  }

  /** A run of digits scans to what it denotes and no further. */
  lemma RunMagnitude(t: string, rest: string, base: nat)
    requires base in {9, 10, 16} && t != "" && AllDigits(t, base) && Ends(rest)
    ensures Magnitude(t + rest, base) == Scanned(Value(t, base), |t|)
  {
    hide Value, Ends;
    var s := t + rest;
    assert s[0] == t[0] && s[0..] == s;
    if |t| >= 2 {
      assert s[1] == t[1] && IsDigitIn(t[1], base);
    } else if rest != "" {
      NothingOfANumber(rest);
      assert s[1] == rest[0];
    }
    MagnitudeFrom(s, base, base, 0, t, rest);
  }

  /** With "0x" before it, in base 16 or with the base left open. */
  lemma PrefixedMagnitude(x: char, t: string, rest: string, base: nat)
    requires base in {0, 16} && x in "xX" && t != "" && AllDigits(t, 16) && Ends(rest)
    ensures Magnitude(['0', x] + (t + rest), base) == Scanned(Value(t, 16), 2 + |t|)
  {
    hide Value;
    var s := ['0', x] + (t + rest);
    assert s[2] == t[0] && IsDigitIn(t[0], 16) && s[2..] == t + rest;
    MagnitudeFrom(s, base, 16, 2, t, rest);
  }

  lemma NothingOfANumber(rest: string)
    requires Ends(rest) && rest != ""
    ensures !IsXDigit(rest[0]) && Lower(rest[0]) != 'x'
  {
    OnlyDigits(rest[0]);
  }

  lemma NineAhead(s: string)
    requires s != "" && s[0] == '0' && (|s| >= 2 ==> Lower(s[1]) != 'x')
    ensures Radix(s, 0) == 9 && PrefixLength(s, 9) == 0
  {
  }

  /** With the base left open, a leading zero means base 9. */
  lemma ZeroMagnitude(z: string, rest: string)
    requires z != "" && z[0] == '0' && AllDigits(z, 9) && Ends(rest)
    ensures Magnitude(z + rest, 0) == Scanned(Value(z, 9), |z|)
  {
    hide Value, Radix, PrefixLength, Magnitude, Ends;
    var s := z + rest;
    assert s[0] == z[0] && s[0..] == s;
    if |z| >= 2 {
      assert s[1] == z[1] && IsDigitIn(z[1], 9);
    } else if rest != "" {
      NothingOfANumber(rest);
      assert s[1] == rest[0];
    }
    NineAhead(s);
    MagnitudeFrom(s, 0, 9, 0, z, rest);
  }

  /** And any other digit base 10. */
  lemma OpenDecimalMagnitude(t: string, rest: string)
    requires t != "" && t[0] != '0' && AllDigits(t, 10) && Ends(rest)
    ensures Magnitude(t + rest, 0) == Scanned(Value(t, 10), |t|)
  {
    hide Value;
    var s := t + rest;
    assert s[0] == t[0] && s[0..] == s;
    MagnitudeFrom(s, 0, 10, 0, t, rest);
  }

  // ---------- What is stored ----------

  /** The conversions of a whole text: an unsigned one stores what it denotes, in 32 bits. */
  lemma UnsignedRun(kind: char, f: string, t: string, v: nat, rest: string, used: nat)
    requires kind in "oxXu" && t != "" && !IsSpace(t[0]) && StartsNumber(t[0], Base(kind))
    requires Magnitude(t + rest, Base(kind)) == Scanned(v, |t|)
    ensures Scan("%" + ([kind] + f), t + rest, used)
         == After(1, [Integer(32, false, v % 0x1_0000_0000)], Scan(f, rest, used + |t|))
  {
    hide Magnitude, StartsNumber, Base, Scan;
    assert (t + rest)[0] == t[0];
    IntegerScan("", Plain, kind, f, t, rest, used);
    assert "" + ([kind] + f) == [kind] + f;
  }

  /** A signed one stores it with its sign, read in 32 bits. */
  lemma SignedRun(kind: char, f: string, sign: string, t: string, v: nat, rest: string, used: nat)
    requires kind in "di" && sign in {"", "-"} && t != "" && t[0] in "0123456789"
    requires Magnitude(t + rest, Base(kind)) == Scanned(v, |t|)
    ensures var x: int := if sign == "-" then -(v as int) else v;
            Scan("%" + ([kind] + f), sign + t + rest, used)
            == After(1, [Integer(32, true, Wrap32(x))], Scan(f, rest, used + |sign| + |t|))
  {
    hide Magnitude, Scan, Wrap32;
    var s := sign + t;
    if sign == "-" {
      assert (s + rest)[1..] == t + rest && (s + rest)[0] == '-' && s[0] == '-';
      assert (t + rest)[0] == t[0];
    } else {
      assert s == t && (s + rest)[0] == t[0];
    }
    IntegerScan("", Plain, kind, f, s, rest, used);
    assert "" + ([kind] + f) == [kind] + f;
  }

  /** `%x` and `%X`: hexadecimal in either case, with "0x" or without, into 32 unsigned bits. */
  lemma HexScan(kind: char, prefix: string, n: nat, digits: string, f: string, rest: string, used: nat)
    requires kind in "xX" && prefix in {"", "0x", "0X"} && digits in {DIGITS, CAPITALS} && Ends(rest)
    ensures var t := Numeral(n, 16, digits);
            Scan("%" + ([kind] + f), prefix + t + rest, used)
            == After(1, [Integer(32, false, n % 0x1_0000_0000)], Scan(f, rest, used + |prefix| + |t|))
  {
    hide Numeral, Value, Magnitude, Scan;
    var t := Numeral(n, 16, digits);
    NumeralValue(n, 16, digits);
    OnlyDigits(t[0]);
    var s := prefix + t;
    if prefix == "" {
      RunMagnitude(t, rest, 16);
      assert s == t;
    } else {
      PrefixedMagnitude(prefix[1], t, rest, 16);
      assert s + rest == ['0', prefix[1]] + (t + rest) && s[0] == '0';
    }
    UnsignedRun(kind, f, s, n, rest, used);
  }

  /** `%u`: decimal into 32 unsigned bits. */
  lemma UnsignedScan(n: nat, f: string, rest: string, used: nat)
    requires Ends(rest)
    ensures var t := Numeral(n, 10, DIGITS);
            Scan("%" + ("u" + f), t + rest, used)
            == After(1, [Integer(32, false, n % 0x1_0000_0000)], Scan(f, rest, used + |t|))
  {
    hide Numeral, Value, Magnitude, Scan;
    var t := Numeral(n, 10, DIGITS);
    NumeralValue(n, 10, DIGITS);
    RunMagnitude(t, rest, 10);
    StartsAt(t[0]);
    hide AllDigits, StartsNumber;
    UnsignedRun('u', f, t, n, rest, used);
  }

  lemma StartsAt(c: char)
    ensures StartsNumber(c, 9) <==> c in "01234567"
    ensures StartsNumber(c, 10) <==> c in "0123456789"
    ensures StartsNumber(c, 16) <==> c in "0123456789abcdefABCDEF"
  {
    OnlyDigits(c);
  }

  lemma EightStops(inp: string, f: string, used: nat)
    requires inp != "" && inp[0] == '8'
    ensures Scan("%" + ("o" + f), inp, used) == Trailing(f, used)
  {
    NoNumber('o', f, inp, used);
  }

  /** `%o`: base 9, but not from an eight on. */
  lemma OctalScan(n: nat, f: string, rest: string, used: nat)
    requires Ends(rest)
    ensures var t := Numeral(n, 9, DIGITS);
            if t[0] == '8' then Scan("%" + ("o" + f), t + rest, used) == Trailing(f, used)
            else Scan("%" + ("o" + f), t + rest, used)
                 == After(1, [Integer(32, false, n % 0x1_0000_0000)], Scan(f, rest, used + |t|))
  {
    hide Numeral, Value, Magnitude, Scan;
    var t := Numeral(n, 9, DIGITS);
    NumeralValue(n, 9, DIGITS);
    StartsAt(t[0]);
    hide IsDigitIn, AllDigits, IsDigit, StartsNumber, Ends;
    if t[0] == '8' {
      EightStops(t + rest, f, used);
    } else {
      RunMagnitude(t, rest, 9);
      UnsignedRun('o', f, t, n, rest, used);
    }
  }

  /** `%d`: any decimal number with or without a sign, read in 32 bits. */
  lemma DecimalScan(sign: string, n: nat, f: string, rest: string, used: nat)
    requires sign in {"", "-"} && Ends(rest)
    ensures var t := Numeral(n, 10, DIGITS);
            var x: int := if sign == "-" then -(n as int) else n;
            Scan("%" + ("d" + f), sign + t + rest, used)
            == After(1, [Integer(32, true, Wrap32(x))], Scan(f, rest, used + |sign| + |t|))
  {
    hide Numeral, Value, Magnitude, Scan;
    var t := Numeral(n, 10, DIGITS);
    NumeralValue(n, 10, DIGITS);
    RunMagnitude(t, rest, 10);
    hide AllDigits;
    SignedRun('d', f, sign, t, n, rest, used);
  }

  /** `%i`: the text chooses the base, 16 behind "0x", 9 behind any other zero, 10 otherwise. */
  lemma OpenScan(sign: string, base: nat, x: char, n: nat, digits: string, f: string, rest: string, used: nat)
    requires sign in {"", "-"} && base in {9, 10, 16} && x in "xX" && digits in {DIGITS, CAPITALS} && Ends(rest)
    requires base == 10 ==> n > 0
    ensures var prefix := if base == 16 then ['0', x] else if base == 9 then ['0'] else [];
            var t := prefix + Numeral(n, base, digits);
            var v: int := if sign == "-" then -(n as int) else n;
            Scan("%" + ("i" + f), sign + t + rest, used)
            == After(1, [Integer(32, true, Wrap32(v))], Scan(f, rest, used + |sign| + |t|))
  {
    hide Numeral, Value, Magnitude, Scan, Wrap32, Ends;
    OpenText(base, x, n, digits, rest);
    var prefix := if base == 16 then ['0', x] else if base == 9 then ['0'] else [];
    SignedRun('i', f, sign, prefix + Numeral(n, base, digits), n, rest, used);
  }

  lemma OpenText(base: nat, x: char, n: nat, digits: string, rest: string)
    requires base in {9, 10, 16} && x in "xX" && digits in {DIGITS, CAPITALS} && Ends(rest)
    requires base == 10 ==> n > 0
    ensures var prefix := if base == 16 then ['0', x] else if base == 9 then ['0'] else [];
            var t := prefix + Numeral(n, base, digits);
            t != "" && t[0] in "0123456789" && Magnitude(t + rest, 0) == Scanned(n, |t|)
  {
    hide Numeral, Value, Magnitude, Ends;
    var u := Numeral(n, base, digits);
    NumeralValue(n, base, digits);
    hide AllDigits;
    if base == 16 {
      PrefixedMagnitude(x, u, rest, 0);
      assert ['0', x] + u + rest == ['0', x] + (u + rest);
    } else if base == 9 {
      ZeroWorthless(u, 9);
      ZeroMagnitude(['0'] + u, rest);
    } else {
      OpenDecimalMagnitude(u, rest);
      assert [] + u == u;
    }
  }

  lemma {:induction false} ZeroWorthless(t: string, base: nat)
    requires base >= 1 && AllDigits(t, base)
    ensures AllDigits(['0'] + t, base)
    ensures Value(['0'] + t, base) == Value(t, base)
    decreases |t|
  {
    var z := ['0'] + t;
    if t == "" {
      assert z[..0] == "";
    } else {
      var front := t[..|t| - 1];
      assert z[..|z| - 1] == ['0'] + front;
      ZeroWorthless(front, base);
    }
  }

  /** Where no digit of the base stands, behind a sign if the conversion is signed, it ends the scan. */
  lemma NoNumber(kind: char, f: string, inp: string, used: nat)
    requires kind in "oxXidu" && inp != "" && inp[0] != ' '
    requires var c := if kind in "di" && inp[0] == '-' then Head(inp[1..]) else inp[0];
             c !in (if kind in "xX" then "0123456789abcdefABCDEF" else if kind == 'o' then "01234567" else "0123456789")
    ensures Scan("%" + ([kind] + f), inp, used) == Trailing(f, used)
  {
    NotStarting(kind, inp);
    NoBlank(inp);
    StopsThere(kind, f, inp, used);
  }

  lemma StopsThere(kind: char, f: string, inp: string, used: nat)
    requires kind in "oxXidu" && inp != "" && SpaceRun(inp) == 0
    requires !StartsNumber(LeadingDigit(inp, IsSigned(kind)), Base(kind))
    ensures Scan("%" + ([kind] + f), inp, used) == Trailing(f, used)
  {
    hide Scan, Directive, StartsNumber, LeadingDigit, Base, IsSigned, Convert, SpaceRun;
    var g := [kind] + f;
    assert "" + g == g && inp[0..] == inp;
    ScanDirective(g, inp, used);
    QualifiedDirective("", Plain, kind, f, inp, used);
    ConvertsInteger(kind, Plain, f, inp, used);
  }

  lemma ConvertsInteger(kind: char, q: Qualifier, f: string, inp: string, used: nat)
    requires kind in "oxXidu" && inp != ""
    ensures Convert(kind, NO_WIDTH, q, f, inp, used) == ConvertInteger(kind, q, f, inp, used)
  {
    hide ConvertInteger;
  }

  lemma NoBlank(inp: string)
    requires inp != "" && inp[0] != ' '
    ensures SpaceRun(inp) == 0
  {
  }

  lemma NotStarting(kind: char, inp: string)
    requires kind in "oxXidu" && inp != ""
    requires var c := if kind in "di" && inp[0] == '-' then Head(inp[1..]) else inp[0];
             c !in (if kind in "xX" then "0123456789abcdefABCDEF" else if kind == 'o' then "01234567" else "0123456789")
    ensures !StartsNumber(LeadingDigit(inp, IsSigned(kind)), Base(kind))
  {
    OnlyDigits(LeadingDigit(inp, IsSigned(kind)));
  }

  // ---------- Qualifiers ----------

  /** What an object of a number of bits holds: the number, up to a multiple of its range. */
  lemma FitMeans(x: int)
    ensures -128 <= Fit(8, true, x) < 128 && (x - Fit(8, true, x)) % 0x100 == 0
    ensures 0 <= Fit(8, false, x) < 256 && (x - Fit(8, false, x)) % 0x100 == 0
    ensures Fit(32, true, x) == Wrap32(x) && Fit(32, false, x) == x % 0x1_0000_0000
    ensures Fit(64, true, x) == Wrap64(x) && Fit(64, false, x) == x % 0x1_0000_0000_0000_0000
  {
    UniqueResidue(x - Fit(8, true, x), x / 256 + (if x % 256 >= 128 then 1 else 0), 256, 0);
    UniqueResidue(x - Fit(8, false, x), x / 256, 256, 0);
  }

  /** `h` and a further character: a byte. */
  lemma ByteScan(c: char, sign: string, n: nat, f: string, rest: string, used: nat) returns (b: int)
    requires c != 'h' && sign in {"", "-"} && Ends(rest)
    ensures var t := sign + Numeral(n, 10, DIGITS);
            var x: int := if sign == "-" then -(n as int) else n;
            && -128 <= b < 128 && (x - b) % 0x100 == 0
            && Scan("%" + (['h', c] + ("d" + f)), t + rest, used)
               == After(1, [Integer(8, true, b)], Scan(f, rest, used + |t|))
  {
    var x: int := if sign == "-" then -(n as int) else n;
    hide Fit, Numeral, Scan, Ends, Wrap32;
    b := Fit(8, true, x);
    FitMeans(x);
    QualifiedDecimal(['h', c], Half, sign, n, f, rest, used);
  }

  /** `L`, or `l` and a further character: 64 bits. */
  lemma LongScan(quals: string, sign: string, n: nat, f: string, rest: string, used: nat)
    requires quals == "L" || (|quals| == 2 && quals[0] == 'l' && quals[1] != 'l')
    requires sign in {"", "-"} && Ends(rest)
    ensures var t := sign + Numeral(n, 10, DIGITS);
            var x: int := if sign == "-" then -(n as int) else n;
            Scan("%" + (quals + ("d" + f)), t + rest, used)
            == After(1, [Integer(64, true, Wrap64(x))], Scan(f, rest, used + |t|))
  {
    FitMeans(if sign == "-" then -(n as int) else n);
    QualifiedDecimal(quals, Long, sign, n, f, rest, used);
  }

  lemma QualifiedDecimal(quals: string, q: Qualifier, sign: string, n: nat, f: string, rest: string, used: nat)
    requires Qualifies(quals, q) && q in {Half, Long} && sign in {"", "-"} && Ends(rest)
    ensures var t := sign + Numeral(n, 10, DIGITS);
            var x: int := if sign == "-" then -(n as int) else n;
            Scan("%" + (quals + ("d" + f)), t + rest, used)
            == After(1, [Integer(ObjectBits(q), true, Fit(ObjectBits(q), true, x))], Scan(f, rest, used + |t|))
  {
    hide Numeral, Value, Magnitude, Scan, Fit, AllDigits;
    var u := Numeral(n, 10, DIGITS);
    NumeralValue(n, 10, DIGITS);
    RunMagnitude(u, rest, 10);
    var t := sign + u;
    SignedText(sign, u, n, rest);
    IntegerScan(quals, q, 'd', f, t, rest, used);
  }

  /** The unsigned conversions under those qualifiers: 8 and 64 unsigned bits. */
  lemma QualifiedUnsigned(quals: string, q: Qualifier, n: nat, f: string, rest: string, used: nat)
    requires Qualifies(quals, q) && q in {Half, Long} && Ends(rest)
    ensures var t := Numeral(n, 10, DIGITS);
            var stored := if q == Half then Integer(8, false, n % 0x100)
                          else Integer(64, false, n % 0x1_0000_0000_0000_0000);
            Scan("%" + (quals + ("u" + f)), t + rest, used) == After(1, [stored], Scan(f, rest, used + |t|))
  {
    hide Numeral, Value, Magnitude, Scan, AllDigits;
    var t := Numeral(n, 10, DIGITS);
    NumeralValue(n, 10, DIGITS);
    RunMagnitude(t, rest, 10);
    StartsAt(t[0]);
    assert (t + rest)[0] == t[0];
    IntegerScan(quals, q, 'u', f, t, rest, used);
  }

  /** A doubled qualifier ends the scan. */
  lemma DoubledScan(c: char, f: string, inp: string, used: nat)
    requires c in "hlLzZ" && inp != ""
    ensures Scan("%" + ([c, c] + f), inp, used) == Result(0, [])
  {
    var g := [c, c] + f;
    assert g[0] == c && g[1] == c && g[1..][0] == c;
    DoubledDirective(g, inp, used);
    hide Scan, Directive;
    ScanDirective(g, inp, used);
  }

  lemma DoubledDirective(g: string, inp: string, used: nat)
    requires |g| >= 2 && g[0] == g[1] && g[0] in "hlLzZ"
    ensures Directive(g, inp, used) == Stop(g[1..], used)
  {
    hide Convert, Qualify;
    assert DigitRun(g, BASE_10) == 0 && Width(g) == (NO_WIDTH, g);
  }

  /** A decimal text with its sign, as the signed conversions read it. */
  lemma SignedText(sign: string, u: string, v: nat, rest: string)
    requires sign in {"", "-"} && u != "" && u[0] in "0123456789" && Magnitude(u + rest, 10) == Scanned(v, |u|)
    ensures var t := sign + u;
            && t != "" && !IsSpace(t[0])
            && LeadingDigit(t + rest, true) == u[0] && StartsNumber(u[0], 10)
            && Signed(t + rest, 10) == Scanned(if sign == "-" then -(v as int) else v, |t|)
  {
    hide Magnitude;
    var t := sign + u;
    StartsAt(u[0]);
    assert (u + rest)[0] == u[0];
    if sign == "-" {
      assert (t + rest)[1..] == u + rest && (t + rest)[0] == '-' && t[0] == '-';
    } else {
      assert t == u && (t + rest)[0] == u[0];
    }
  }

  /** `z`: 32 unsigned bits. */
  lemma SizeScan(quals: string, kind: char, n: nat, f: string, rest: string, used: nat)
    requires quals in {"z", "Z"} && kind in "du" && Ends(rest)
    ensures var t := Numeral(n, 10, DIGITS);
            Scan("%" + (quals + ([kind] + f)), t + rest, used)
            == After(1, [Integer(32, false, n % 0x1_0000_0000)], Scan(f, rest, used + |t|))
  {
    hide Numeral, Value, Magnitude, Scan, AllDigits;
    var t := Numeral(n, 10, DIGITS);
    NumeralValue(n, 10, DIGITS);
    RunMagnitude(t, rest, 10);
    StartsAt(t[0]);
    assert (t + rest)[0] == t[0];
    IntegerScan(quals, Size, kind, f, t, rest, used);
  }

  // ---------- The other directives ----------

  function Blanks(k: nat): (t: string)
    ensures |t| == k
  {
    seq(k, _ => ' ')
  }

  lemma {:induction false} BlanksRun(k: nat, i: string)
    requires i == "" || i[0] != ' '
    ensures SpaceRun(Blanks(k) + i) == k && (Blanks(k) + i)[k..] == i
    decreases k
  {
    if k > 0 {
      assert (Blanks(k) + i)[1..] == Blanks(k - 1) + i;
      BlanksRun(k - 1, i);
    } else {
      assert Blanks(0) + i == i;
    }
  }

  /** No blank in a word. */
  predicate IsWord(w: string) { ' ' !in w }

  lemma {:induction false} WordRunStops(w: string, rest: string)
    requires IsWord(w) && (rest == "" || rest[0] == ' ')
    ensures WordRun(w + rest) == |w|
    decreases |w|
  {
    if w == "" {
      assert w + rest == rest;
    } else {
      assert (w + rest)[1..] == w[1..] + rest && (w + rest)[0] == w[0] && w[0] in w;
      WordRunStops(w[1..], rest);
    }
  }

  /** A width in front of a conversion. */
  lemma WidthRead(w: nat, kind: char, f: string)
    requires kind in "cs"
    ensures var g := Numeral(w, 10, DIGITS) + ([kind] + f);
            Head(g) in "0123456789" && Width(g) == (ToShort(w), [kind] + f)
  {
    hide Numeral, Value;
    var u := Numeral(w, 10, DIGITS);
    var g := u + ([kind] + f);
    NumeralValue(w, 10, DIGITS);
    DigitRunStops(u, [kind] + f, 10);
    assert g[..|u|] == u && g[|u|..] == [kind] + f && g[0] == u[0];
  }

  /** A width is kept in 16 bits. `%c` takes that many characters, but one where they read as zero or as a
      negative number other than the least. */
  function CharWidth(w: nat): nat {
    if 1 <= w % 65536 <= 32768 then w % 65536 else 1
  }

  /** `%s` reads them as unsigned, but all ones as no width. */
  function WordWidth(w: nat): nat {
    if w % 65536 == 65535 then 32767 else w % 65536
  }

  lemma WidthsMean(w: nat)
    ensures CharCount(ToShort(w)) == CharWidth(w) && WordLimit(ToShort(w)) == WordWidth(w)
  {
  }

  lemma SizedDirectiveRead(w: nat, kind: char, f: string, inp: string, used: nat)
    requires kind in "cs" && inp != ""
    ensures Directive(Numeral(w, 10, DIGITS) + ([kind] + f), inp, used) == Convert(kind, ToShort(w), Plain, f, inp, used)
  {
    hide Convert, Width, Numeral;
    WidthRead(w, kind, f);
    var h := [kind] + f;
    assert h[1..] == f && !IsDoubled(h) && Qualify(h) == (Plain, h);
  }

  /** `%c`: one character, whatever it is. */
  lemma CharScan(f: string, c: char, rest: string, used: nat)
    ensures Scan("%" + ("c" + f), [c] + rest, used) == After(1, [Chars([c])], Scan(f, rest, used + 1))
  {
    hide Scan, Directive;
    assert ([c] + rest)[1..] == rest && ([c] + rest)[..1] == [c] && "" + (['c'] + f) == "c" + f;
    ScanDirective("c" + f, [c] + rest, used);
    QualifiedDirective("", Plain, 'c', f, [c] + rest, used);
  }

  /** `%c` with a width: that many characters, or what is left. */
  lemma CharsScan(w: nat, f: string, t: string, rest: string, used: nat)
    requires t != "" && (|t| == CharWidth(w) || (|t| < CharWidth(w) && rest == ""))
    ensures Scan("%" + (Numeral(w, 10, DIGITS) + ("c" + f)), t + rest, used)
         == After(1, [Chars(t)], Scan(f, rest, used + |t|))
  {
    hide Scan, Directive, Numeral;
    assert (t + rest)[|t|..] == rest && (t + rest)[..|t|] == t && ['c'] + f == "c" + f;
    WidthsMean(w);
    ScanDirective(Numeral(w, 10, DIGITS) + ("c" + f), t + rest, used);
    SizedDirectiveRead(w, 'c', f, t + rest, used);
  }

  lemma WordConverts(width: int, k: nat, f: string, w: string, rest: string, used: nat)
    requires -32768 <= width <= 32767 && w != "" && IsWord(w) && (rest == "" || rest[0] == ' ')
    ensures var m := Min(|w|, WordLimit(width));
            ConvertWord(width, f, Blanks(k) + (w + rest), used)
            == Next(f, w[m..] + rest, used + k + m, [Word(w[..m] + ['\0'])], 1)
  {
    hide WordRun, SpaceRun, WordLimit, Blanks, TakeWord;
    assert (w + rest)[0] == w[0] && w[0] in w;
    BlanksRun(k, w + rest);
    WordTaken(width, f, w, rest, used + k);
  }

  lemma WordTaken(width: int, f: string, w: string, rest: string, used: nat)
    requires -32768 <= width <= 32767 && IsWord(w) && (rest == "" || rest[0] == ' ')
    ensures var m := Min(|w|, WordLimit(width));
            TakeWord(width, f, w + rest, used) == Next(f, w[m..] + rest, used + m, [Word(w[..m] + ['\0'])], 1)
  {
    hide WordRun, WordLimit;
    var m := Min(|w|, WordLimit(width));
    WordRunStops(w, rest);
    assert (w + rest)[..m] == w[..m] && (w + rest)[m..] == w[m..] + rest;
  }

  /** `%s`: blanks are skipped, a word is stored with a terminator. */
  lemma WordScan(k: nat, f: string, w: string, rest: string, used: nat)
    requires w != "" && |w| <= 32767 && IsWord(w) && (rest == "" || rest[0] == ' ')
    ensures Scan("%" + ("s" + f), Blanks(k) + (w + rest), used)
         == After(1, [Word(w + ['\0'])], Scan(f, rest, used + k + |w|))
  {
    hide Scan, Directive, ConvertWord, Blanks;
    var inp := Blanks(k) + (w + rest);
    assert "" + (['s'] + f) == "s" + f && w[..|w|] == w && w[|w|..] + rest == rest;
    WordConverts(NO_WIDTH, k, f, w, rest, used);
    ScanDirective("s" + f, inp, used);
    QualifiedDirective("", Plain, 's', f, inp, used);
  }

  /** `%s` with a width: as much of the word, and the rest of it stays. */
  lemma SizedWordScan(n: nat, k: nat, f: string, w: string, rest: string, used: nat)
    requires w != "" && IsWord(w) && (rest == "" || rest[0] == ' ')
    ensures var m := if WordWidth(n) < |w| then WordWidth(n) else |w|;
            Scan("%" + (Numeral(n, 10, DIGITS) + ("s" + f)), Blanks(k) + (w + rest), used)
            == After(1, [Word(w[..m] + ['\0'])], Scan(f, w[m..] + rest, used + k + m))
  {
    hide Scan, Directive, ConvertWord, Numeral, Blanks;
    var inp := Blanks(k) + (w + rest);
    assert ['s'] + f == "s" + f;
    WidthsMean(n);
    WordConverts(ToShort(n), k, f, w, rest, used);
    ScanDirective(Numeral(n, 10, DIGITS) + ("s" + f), inp, used);
    SizedDirectiveRead(n, 's', f, inp, used);
  }

  /** `%n`: the number of characters read, and nothing is counted. */
  lemma PositionScan(f: string, inp: string, used: nat)
    ensures Scan("%" + ("n" + f), inp, used)
         == if inp == "" then Result(0, [Position(used)]) else After(0, [Position(used)], Scan(f, inp, used))
  {
    if inp == "" {
      PositionAtEnd(f, used);
    } else {
      hide Scan, Directive, ConvertInteger, ConvertWord, ConvertChars;
      assert "" + (['n'] + f) == "n" + f;
      ScanDirective("n" + f, inp, used);
      QualifiedDirective("", Plain, 'n', f, inp, used);
    }
  }

  lemma PositionAtEnd(f: string, used: nat)
    ensures Scan("%" + ("n" + f), "", used) == Result(0, [Position(used)])
  {
    hide Turn;
    assert ("%" + ("n" + f))[0] == '%' && ("%" + ("n" + f))[1] == 'n';
    ScanEnds("%" + ("n" + f), "", used);
    hide Scan;
  }

  /** `%%`: a percent sign, or the scan is over. */
  lemma PercentScan(f: string, inp: string, used: nat)
    requires inp != ""
    ensures Scan("%" + ("%" + f), inp, used)
         == if inp[0] == '%' then After(0, [], Scan(f, inp[1..], used + 1)) else Result(0, [])
  {
    hide Scan, Directive;
    assert "" + (['%'] + f) == "%" + f;
    ScanDirective("%" + f, inp, used);
    QualifiedDirective("", Plain, '%', f, inp, used);
  }

  /** An unknown conversion: the scan is over. */
  lemma UnknownScan(kind: char, f: string, inp: string, used: nat)
    requires inp != "" && kind !in "csn%oxXidu" && kind !in "*hlLzZ0123456789"
    ensures Scan("%" + ([kind] + f), inp, used) == Result(0, [])
  {
    hide Scan;
    var g := [kind] + f;
    ScanDirective(g, inp, used);
    OnlyDigits(kind);
    assert g[1..] == f && DigitRun(g, BASE_10) == 0 && !IsQualifier(kind) && !IsDoubled(g);
    assert Width(g) == (NO_WIDTH, g) && Qualify(g) == (Plain, g);
  }

  /** A literal character. */
  lemma LiteralScan(c: char, f: string, inp: string, used: nat)
    requires c != '%' && c != ' ' && inp != ""
    ensures Scan([c] + f, inp, used)
         == if inp[0] == c then After(0, [], Scan(f, inp[1..], used + 1)) else Trailing(f, used + 1)
  {
    hide Scan;
    assert ([c] + f)[1..] == f;
    Unfold(0, [], [c] + f, inp, used);
    NothingBefore(Scan([c] + f, inp, used));
    NothingBefore(Trailing(f, used + 1));
  }

  /** A blank: any blanks in either text. */
  lemma BlankScan(k: nat, j: nat, f: string, i: string, used: nat)
    requires k >= 1 && f != "" && f[0] != ' ' && i != "" && i[0] != ' '
    ensures Scan(Blanks(k) + f, Blanks(j) + i, used) == Scan(f, i, used + j)
  {
    hide Scan, Match, SpaceRun;
    BlanksRun(k, f);
    BlanksRun(j, i);
    Unfold(0, [], Blanks(k) + f, Blanks(j) + i, used);
    Unfold(0, [], f, i, used + j);
    NothingBefore(Scan(Blanks(k) + f, Blanks(j) + i, used));
    NothingBefore(Scan(f, i, used + j));
  }

  lemma NothingBefore(r: Result)
    ensures After(0, [], r) == r
  {
  }

  lemma {:induction false} SuppressedRunStops(junk: string, f: string)
    requires (forall k :: 0 <= k < |junk| ==> junk[k] != ' ' && junk[k] != '%') && (f == "" || f[0] == ' ' || f[0] == '%')
    ensures SuppressedRun(junk + f) == |junk|
    decreases |junk|
  {
    if junk == "" {
      assert junk + f == f;
    } else {
      assert (junk + f)[1..] == junk[1..] + f && (junk + f)[0] == junk[0];
      SuppressedRunStops(junk[1..], f);
    }
  }

  /** `%*`: the conversion is passed over, and so is the next word of the input. */
  lemma SuppressScan(junk: string, f: string, w: string, rest: string, used: nat)
    requires (forall k :: 0 <= k < |junk| ==> junk[k] != ' ' && junk[k] != '%') && (f == "" || f[0] == ' ' || f[0] == '%')
    requires IsWord(w) && (rest == "" || rest[0] == ' ') && w + rest != ""
    ensures Scan("%" + (("*" + junk) + f), w + rest, used) == After(0, [], Scan(f, rest, used + |w|))
  {
    hide Scan, SuppressedRun, WordRun;
    var star := "*" + junk;
    SuppressedRunStops(star, f);
    WordRunStops(w, rest);
    assert (star + f)[0] == '*' && (star + f)[|star|..] == f && (w + rest)[|w|..] == rest;
    ScanDirective(star + f, w + rest, used);
  }
}
