/** Scanning what was rendered: decimal numbers separated by blanks come back
    through `sscanf` unchanged. */
module ScanRoundTrip {
  import opened CStrings
  import opened IntegerParser
  import opened Numerals
  import opened Words
  import opened ScanFacts
  import opened Scanf

  function Abs(x: int): nat { if x < 0 then -x else x }

  function Render(x: int): string {
    if x < 0 then "-" + Numeral(-x, 10, DIGITS) else Numeral(x, 10, DIGITS)
  }

  function RenderAll(xs: seq<Int32>): string {
    if xs == [] then ""
    else if |xs| == 1 then Render(xs[0])
    else Render(xs[0]) + " " + RenderAll(xs[1..])
  }

  /** `"%d %d ... %d"` with `n` conversions. */
  function Formats(n: nat): string {
    if n == 0 then "" else if n == 1 then "%d" else "%d" + " " + Formats(n - 1)
  }

  function Stored(xs: seq<Int32>): seq<Store> {
    if xs == [] then [] else [Integer(32, true, xs[0])] + Stored(xs[1..])
  }

  lemma MagnitudeOfDecimal(n: nat, rest: string)
    requires rest == "" || rest[0] == ' '
    ensures Magnitude(Numeral(n, 10, DIGITS) + rest, BASE_10) == Scanned(n, |Numeral(n, 10, DIGITS)|)
  {
    var t := Numeral(n, 10, DIGITS);
    NumeralValue(n, 10, DIGITS);
    hide Numeral, Value;
    DigitRunStops(t, rest, BASE_10);
    assert (t + rest)[0..] == t + rest;
    assert (t + rest)[..|t|] == t;
  }

  lemma SignedOfRendered(x: int, rest: string)
    requires rest == "" || rest[0] == ' '
    ensures Signed(Render(x) + rest, BASE_10) == Scanned(x, |Render(x)|)
  {
    hide Magnitude, Numeral;
    var t := Render(x) + rest;
    MagnitudeOfDecimal(Abs(x), rest);
    if x < 0 {
      assert t[1..] == Numeral(-x, 10, DIGITS) + rest;
    } else {
      RenderedStarts(x);
    }
  }

  /** A rendered number starts with a digit, behind its sign if it has one. */
  lemma RenderedStarts(x: int)
    ensures Render(x) != "" && !IsSpace(Render(x)[0])
    ensures x >= 0 ==> IsDigit(Render(x)[0])
    ensures x < 0 ==> |Render(x)| >= 2 && Render(x)[0] == '-' && IsDigit(Render(x)[1])
  {
    NumeralValue(Abs(x), 10, DIGITS);
    hide Numeral;
    assert IsDigitIn(Numeral(Abs(x), 10, DIGITS)[0], BASE_10);
  }

  /** The integer conversion behind one `%d`. */
  lemma ConvertOne(x: Int32, f: string, rest: string, used: nat)
    requires rest == "" || rest[0] == ' '
    ensures ConvertInteger('d', Plain, f, Render(x) + rest, used)
         == Next(f, rest, used + |Render(x)|, [Integer(32, true, x)], 1)
  {
    hide Signed, Magnitude, Render, Wrap32, Assign, StartsNumber, LeadingDigit, SpaceRun;
    var inp := Render(x) + rest;
    LeadingOne(x, rest);
    assert inp[0..] == inp;
    AssignOne(x, f, rest, used);
  }

  /** A rendered number can start a decimal conversion. */
  lemma LeadingOne(x: Int32, rest: string)
    ensures SpaceRun(Render(x) + rest) == 0
    ensures StartsNumber(LeadingDigit(Render(x) + rest, true), BASE_10)
  {
    RenderedStarts(x);
    var inp := Render(x) + rest;
    assert inp[0] == Render(x)[0];
    if x < 0 {
      assert inp[1] == Render(x)[1] && inp[1..][0] == inp[1];
    }
  }

  lemma AssignOne(x: Int32, f: string, rest: string, used: nat)
    requires rest == "" || rest[0] == ' '
    ensures Assign(Plain, true, BASE_10, f, Render(x) + rest, used)
         == Next(f, rest, used + |Render(x)|, [Integer(32, true, x)], 1)
  {
    hide Signed, Magnitude, Render, Wrap32;
    SignedOfRendered(x, rest);
    WrapExact(x);
    assert (Render(x) + rest)[|Render(x)|..] == rest;
  }

  /** One `%d` reads one rendered number and leaves the rest. */
  lemma MatchOne(x: Int32, f: string, rest: string, used: nat)
    requires rest == "" || rest[0] == ' '
    ensures Match("%d" + f, Render(x) + rest, used)
         == Next(f, rest, used + |Render(x)|, [Integer(32, true, x)], 1)
  {
    hide ConvertInteger, Directive, Render;
    RenderedStarts(x);
    ConvertOne(x, f, rest, used);
    SelectConversion('d', f, Render(x) + rest, used);
    assert "%d" + f == "%" + ("d" + f) && ("%" + ("d" + f))[1..] == "d" + f;
  }

  /** A directive that is a bare conversion character. */
  lemma SelectConversion(kind: char, f: string, inp: string, used: nat)
    requires kind in "cdnsu%" && inp != ""
    ensures Directive([kind] + f, inp, used) == Convert(kind, NO_WIDTH, Plain, f, inp, used)
  {
    hide ConvertInteger, ConvertWord, ConvertChars;
    var g := [kind] + f;
    assert g[1..] == f && g[0] == kind;
    assert DigitRun(g, BASE_10) == 0;
    assert Width(g) == (NO_WIDTH, g);
    assert Qualify(g) == (Plain, g);
  }

  function Blank(separated: bool): string { if separated then " " else "" }

  /** One turn of a scan, behind an optional separating blank. */
  lemma TurnOne(x: Int32, separated: bool, f: string, rest: string, used: nat)
    requires rest == "" || rest[0] == ' '
    ensures Turn(Blank(separated) + ("%d" + f), Blank(separated) + (Render(x) + rest), used)
         == Next(f, rest, used + |Blank(separated)| + |Render(x)|, [Integer(32, true, x)], 1)
  {
    hide Match, Unblanked, Render;
    RenderedStarts(x);
    assert ("%d" + f)[0] == '%' && (Render(x) + rest)[0] == Render(x)[0];
    Separated(separated, "%d" + f, Render(x) + rest, used);
    MatchOne(x, f, rest, used + |Blank(separated)|);
  }

  lemma ScanOne(x: Int32, separated: bool, f: string, rest: string, used: nat)
    requires rest == "" || rest[0] == ' '
    ensures Scan(Blank(separated) + ("%d" + f), Blank(separated) + (Render(x) + rest), used)
         == After(1, [Integer(32, true, x)], Scan(f, rest, used + |Blank(separated)| + |Render(x)|))
  {
    hide Turn, Scan, RenderAll;
    TurnOne(x, separated, f, rest, used);
    RenderedStarts(x);
    ScanStep(Blank(separated) + ("%d" + f), Blank(separated) + (Render(x) + rest), used);
  }

  /** The list is read back, whether or not a separating blank comes first. */
  lemma {:induction false} ScanList(xs: seq<Int32>, separated: bool, used: nat)
    requires xs != []
    ensures Scan(Blank(separated) + Formats(|xs|), Blank(separated) + RenderAll(xs), used) == Result(|xs|, Stored(xs))
    decreases |xs|
  {
    hide Scan, Render;
    var x := xs[0];
    if |xs| == 1 {
      assert "%d" + "" == "%d" && Render(x) + "" == Render(x);
      ScanOne(x, separated, "", "", used);
      ScanEnd("", used + |Blank(separated)| + |Render(x)|);
    } else {
      var f, rest := " " + Formats(|xs| - 1), " " + RenderAll(xs[1..]);
      FormatsAndRender(xs);
      ScanOne(x, separated, f, rest, used);
      ScanList(xs[1..], true, used + |Blank(separated)| + |Render(x)|);
    }
  }

  lemma ScanEnd(inp: string, used: nat)
    ensures Scan("", inp, used) == Result(0, [])
  {
  }

  lemma FormatsAndRender(xs: seq<Int32>)
    requires |xs| > 1
    ensures Formats(|xs|) == "%d" + (" " + Formats(|xs| - 1))
    ensures RenderAll(xs) == Render(xs[0]) + (" " + RenderAll(xs[1..]))
  {
    hide Render;
    var n := |xs| - 1;
    assert Formats(n + 1) == "%d" + " " + Formats(n);
    assert RenderAll(xs) == Render(xs[0]) + " " + RenderAll(xs[1..]);
    hide Formats, RenderAll;
    Associate("%d", " ", Formats(n));
    Associate(Render(xs[0]), " ", RenderAll(xs[1..]));
  }

  lemma Associate(a: string, b: string, c: string)
    ensures a + b + c == a + (b + c)
  {
  }

  lemma ScanStep(fmt: string, inp: string, used: nat)
    requires fmt != "" && inp != "" && Turn(fmt, inp, used).Next?
    ensures var o := Turn(fmt, inp, used);
            Scan(fmt, inp, used) == After(o.converted, o.stores, Scan(o.fmt, o.inp, o.used))
  {
  }

  lemma Separated(separated: bool, f: string, i: string, used: nat)
    requires f != "" && i != "" && !IsSpace(f[0]) && !IsSpace(i[0])
    ensures var b := Blank(separated);
            Unblanked(b + f, b + i, used) == (f, i, used + |b|)
  {
    if separated {
      assert (" " + f)[1..] == f && (" " + i)[1..] == i;
    } else {
      assert "" + f == f && "" + i == i;
    }
  }

  /** Every non-empty list of 32-bit integers survives rendering and scanning. */
  lemma RoundTrip(xs: seq<Int32>)
    requires xs != []
    ensures Scan(Formats(|xs|), RenderAll(xs), 0) == Result(|xs|, Stored(xs))
  {
    ScanList(xs, false, 0);
    assert "" + Formats(|xs|) == Formats(|xs|) && "" + RenderAll(xs) == RenderAll(xs);
  }

  /** The same through the code. */
  method ScanRendered(xs: seq<Int32>, s: CString, fmt: CString) returns (past: bool, num: nat, stores: seq<Store>)
    requires xs != [] && Text(s, 0) == RenderAll(xs) && Text(fmt, 0) == Formats(|xs|)
    ensures !past && num == |xs| && stores == Stored(xs)
  {
    FormatsEnd(|xs|);
    SafeEnding(Text(fmt, 0), Text(s, 0), 0);
    past, num, stores := PreVsscanf(s, fmt);
    RoundTrip(xs);
  }

  lemma {:induction false} FormatsEnd(n: nat)
    requires n > 0
    ensures Formats(n) != "" && Formats(n)[|Formats(n)| - 1] == 'd'
  {
    if n > 1 {
      FormatsEnd(n - 1);
    }
  }
}
