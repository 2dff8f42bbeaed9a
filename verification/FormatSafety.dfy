/** Which formats are safe with every input. A turn of the scan is not always reached: what the turns
    before it leave of the input may not be able to go on as the format demands. */
module FormatSafety {
  import opened CStrings
  import opened IntegerParser
  import opened Options
  import opened Scanf
  import opened ScanFacts

  /** What the turns so far say about the next character of the input, if there is one. */
  datatype Need = Anything | NotDigit(base: nat) | Blank | NotBlank

  predicate Meets(n: Need, inp: string) {
    inp == "" ||
      match n
      case Anything => true
      case NotDigit(base) => !IsDigitIn(inp[0], base)
      case Blank => IsSpace(inp[0])
      case NotBlank => !IsSpace(inp[0])
  }

  /** A blank at the front of a format leaves no blank at the front of the input. */
  function AfterBlank(fmt: string, n: Need): Need {
    if fmt != "" && IsSpace(fmt[0]) then NotBlank else n
  }

  /** The base whose digits no conversion of that kind leaves behind. */
  function DigitBase(kind: char): nat { if kind == 'i' then BASE_8 else Base(kind) }

  /** What a conversion makes of it, if the input can meet it. */
  function ConvertPasses(kind: char, width: int, n: Need): Option<Need>
    requires -32768 <= width <= 32767
  {
    if kind == 'c' then Some(Anything)
    else if kind == 's' then Some(if WordLimit(width) == 0 then NotBlank else Anything)
    else if kind == 'n' then Some(n)
    else if kind == '%' then if n == Blank then None else Some(Anything)
    else Some(NotDigit(DigitBase(kind)))
  }

  function DirectivePasses(g: string, n: Need): Option<Need>
    requires DirectiveRest(g).Some?
  {
    if Head(g) == '*' then Some(Blank) else ConvertPasses(Qualify(Width(g).1).1[0], Width(g).0, n)
  }

  /** What a turn makes of it, if the input can meet it. */
  function Passes(fmt: string, n: Need): Option<Need>
    requires fmt != "" && Rest(fmt).Some?
  {
    var f, n' := Start(fmt), AfterBlank(fmt, n);
    if f[0] == '%' then DirectivePasses(f[1..], n')
    else if Meets(n', [f[0]]) then Some(Anything) else None
  }

  // ---------- What a turn leaves ----------

  lemma NumberLeaves(kind: char, q: Qualifier, i: string)
    requires IsIntegerKind(kind)
    ensures Meets(NotDigit(DigitBase(kind)), i[NumberLength(q, IsSigned(kind), i, Base(kind))..])
  {
    hide Value, DigitValue;
    if IsSigned(kind) && q != Size && i != "" && i[0] == '-' {
      MagnitudeLeaves(kind, i[1..]);
      assert i[1 + Magnitude(i[1..], Base(kind)).length..] == i[1..][Magnitude(i[1..], Base(kind)).length..];
    } else {
      MagnitudeLeaves(kind, i);
    }
  }

  lemma MagnitudeLeaves(kind: char, t: string)
    requires IsIntegerKind(kind)
    ensures Meets(NotDigit(DigitBase(kind)), t[Magnitude(t, Base(kind)).length..])
  {
    hide Value;
    var radix := Radix(t, Base(kind));
    var p := PrefixLength(t, radix);
    var n := DigitRun(t[p..], radix);
    assert t[p + n..] == t[p..][n..];
    assert DigitBase(kind) <= radix;
  }

  lemma ConvertLeaves(kind: char, width: int, q: Qualifier, f: string, i: string, used: nat, n: Need)
    requires i != "" && -32768 <= width <= 32767 && Meets(n, i) && kind in "csn%oxXidu"
    requires Convert(kind, width, q, f, i, used).Next?
    ensures ConvertPasses(kind, width, n).Some?
    ensures Meets(ConvertPasses(kind, width, n).value, Convert(kind, width, q, f, i, used).inp)
  {
    hide ConvertInteger, ConvertWord, DigitBase, Meets, WordLimit, CharCount;
    if IsIntegerKind(kind) {
      IntegerLeaves(kind, q, f, i, used);
    } else if kind == 's' {
      WordLeaves(width, f, i, used, n);
    } else if kind == 'c' || kind == '%' {
      AnythingMet(Convert(kind, width, q, f, i, used).inp);
      PercentMeets(n, i);
    }
  }

  lemma AnythingMet(i: string)
    ensures Meets(Anything, i)
  {
  }

  lemma PercentMeets(n: Need, i: string)
    requires i != "" && Meets(n, i)
    ensures n == Blank ==> i[0] != '%'
  {
  }

  lemma IntegerLeaves(kind: char, q: Qualifier, f: string, i: string, used: nat)
    requires IsIntegerKind(kind) && ConvertInteger(kind, q, f, i, used).Next?
    ensures Meets(NotDigit(DigitBase(kind)), ConvertInteger(kind, q, f, i, used).inp)
  {
    hide NumberLength, StoredNumber, StartsNumber, LeadingDigit, DigitBase, Meets, Base;
    NumberLeaves(kind, q, i[SpaceRun(i)..]);
  }

  lemma WordLeaves(width: int, f: string, i: string, used: nat, n: Need)
    requires -32768 <= width <= 32767
    ensures Meets(ConvertPasses('s', width, n).value, ConvertWord(width, f, i, used).inp)
  {
    hide WordRun;
    var t := i[SpaceRun(i)..];
    assert t[0..] == t;
  }

  lemma DirectiveLeaves(g: string, i: string, used: nat, n: Need)
    requires Meets(n, i) && Directive(g, i, used).Next? && DirectiveRest(g).Some?
    ensures DirectivePasses(g, n).Some?
    ensures Meets(DirectivePasses(g, n).value, Directive(g, i, used).inp)
  {
    hide Convert, ConvertPasses;
    if Head(g) != '*' {
      var (width, h) := Width(g);
      var (q, k) := Qualify(h);
      ConvertLeaves(k[0], width, q, k[1..], i, used, n);
    }
  }

  lemma TurnLeaves(fmt: string, inp: string, used: nat, n: Need)
    requires fmt != "" && Meets(n, inp) && Turn(fmt, inp, used).Next? && Rest(fmt).Some?
    ensures Passes(fmt, n).Some? && Meets(Passes(fmt, n).value, Turn(fmt, inp, used).inp)
  {
    hide Directive, DirectivePasses, DirectiveRest;
    var (f, i, u) := Unblanked(fmt, inp, used);
    assert Meets(AfterBlank(fmt, n), i);
    if f[0] == '%' {
      DirectiveLeaves(f[1..], i, u, AfterBlank(fmt, n));
    }
  }

  // ---------- An input for every turn that can be passed ----------

  predicate IsText(t: string) { '\0' !in t }

  function Many(c: char, k: nat): (t: string)
    ensures |t| == k
  {
    seq(k, _ => c)
  }

  function Lead(kind: char, rest: string): char
    requires rest != ""
  {
    if kind == 'i' && rest[0] == '9' then '0' else '1'
  }

  /** An input that a conversion takes to `rest`. */
  function Before(kind: char, width: int, n: Need, rest: string): string
    requires -32768 <= width <= 32767 && rest != ""
  {
    if kind == 'c' then Many(if n == Blank then ' ' else 'x', CharCount(width)) + rest
    else if kind == 's' then
      if WordLimit(width) == 0 then if n == NotBlank then rest else " " + rest
      else (if n == Blank then " " else "") + (Many('x', WordLimit(width)) + rest)
    else if kind == 'n' then rest
    else if kind == '%' then "%" + rest
    else (if n == NotBlank then "" else " ") + ([Lead(kind, rest)] + rest)
  }

  lemma ManyWord(k: nat, rest: string)
    ensures WordRun(Many('x', k) + rest) >= k && (Many('x', k) + rest)[k..] == rest
    decreases k
  {
    if k > 0 {
      assert (Many('x', k) + rest)[1..] == Many('x', k - 1) + rest;
      ManyWord(k - 1, rest);
    }
  }

  lemma SkipsBlank(rest: string)
    requires rest != "" && !IsSpace(rest[0])
    ensures SpaceRun(rest) == 0 && SpaceRun(" " + rest) == 1 && (" " + rest)[1..] == rest && rest[0..] == rest
  {
    assert (" " + rest)[1..] == rest;
  }

  lemma NumberTaken(kind: char, q: Qualifier, rest: string)
    requires IsIntegerKind(kind) && rest != "" && Meets(NotDigit(DigitBase(kind)), rest)
    ensures var t := [Lead(kind, rest)] + rest;
            && StartsNumber(LeadingDigit(t, IsSigned(kind)), Base(kind))
            && NumberLength(q, IsSigned(kind), t, Base(kind)) == 1
            && t[1..] == rest
  {
    hide Value;
    var t := [Lead(kind, rest)] + rest;
    assert t[1..] == rest && t[0..] == t && t[1] == rest[0];
    var radix := Radix(t, Base(kind));
    assert PrefixLength(t, radix) == 0;
    assert DigitRun(rest, radix) == 0;
    assert DigitRun(t, radix) == 1;
  }

  lemma IntegerLeads(kind: char, q: Qualifier, f: string, n: Need, rest: string, used: nat)
    requires IsIntegerKind(kind) && rest != "" && Meets(NotDigit(DigitBase(kind)), rest)
    ensures var o := ConvertInteger(kind, q, f, Before(kind, NO_WIDTH, n, rest), used);
            o.Next? && o.inp == rest
  {
    hide StoredNumber, NumberLength, StartsNumber, LeadingDigit, DigitBase, Lead, Meets;
    var t := [Lead(kind, rest)] + rest;
    LeadNotBlank(kind, rest);
    SkipsBlank(t);
    NumberTaken(kind, q, rest);
    assert "" + t == t;
    assert Before(kind, NO_WIDTH, n, rest) == if n == NotBlank then t else " " + t;
    hide Before, SpaceRun;
  }

  lemma LeadNotBlank(kind: char, rest: string)
    requires rest != ""
    ensures !IsSpace(Lead(kind, rest)) && IsDigit(Lead(kind, rest))
  {
  }

  lemma WordLeads(width: int, f: string, n: Need, rest: string, used: nat)
    requires -32768 <= width <= 32767 && rest != "" && Meets(ConvertPasses('s', width, n).value, rest)
    ensures ConvertWord(width, f, Before('s', width, n, rest), used).inp == rest
  {
    var limit := WordLimit(width);
    if limit == 0 {
      SkipsBlank(rest);
    } else {
      hide WordRun, Many, Meets;
      var t := Many('x', limit) + rest;
      ManyWord(limit, rest);
      FirstOfMany('x', limit, rest);
      SkipsBlank(t);
      assert Before('s', width, n, rest) == (if n == Blank then " " else "") + t;
      assert "" + t == t;
      hide Before, SpaceRun, WordLimit;
    }
  }

  lemma FirstOfMany(c: char, k: nat, rest: string)
    requires k >= 1
    ensures (Many(c, k) + rest)[0] == c
  {
  }

  /** Where the conversion's need is met, that input leads to the rest and meets the need before. */
  lemma ConvertLeads(kind: char, width: int, q: Qualifier, f: string, n: Need, rest: string, used: nat)
    requires -32768 <= width <= 32767 && kind in "csn%oxXidu" && rest != ""
    requires ConvertPasses(kind, width, n).Some? && Meets(ConvertPasses(kind, width, n).value, rest)
    ensures var i := Before(kind, width, n, rest);
            && i != "" && Meets(n, i)
            && Convert(kind, width, q, f, i, used).Next? && Convert(kind, width, q, f, i, used).inp == rest
  {
    BeforeMeets(kind, width, n, rest);
    hide Meets;
    if kind == 'c' {
      assert Before(kind, width, n, rest)[CharCount(width)..] == rest;
    } else if kind == 's' {
      WordLeads(width, f, n, rest, used);
    } else if kind == '%' {
      assert ("%" + rest)[1..] == rest;
    } else if kind != 'n' {
      IntegerLeads(kind, q, f, n, rest, used);
    }
  }

  lemma BeforeMeets(kind: char, width: int, n: Need, rest: string)
    requires -32768 <= width <= 32767 && kind in "csn%oxXidu" && rest != ""
    requires ConvertPasses(kind, width, n).Some? && Meets(ConvertPasses(kind, width, n).value, rest)
    ensures var i := Before(kind, width, n, rest);
            i != "" && Meets(n, i) && (IsText(rest) ==> IsText(i))
  {
    hide CharCount, WordLimit, DigitBase;
    LeadNotBlank(kind, rest);
    var i := Before(kind, width, n, rest);
    assert i[0] == ' ' || i[0] == 'x' || i[0] == '%' || i[0] == Lead(kind, rest) || i[0] == rest[0];
  }

  function DirectiveBefore(g: string, n: Need, rest: string): string
    requires DirectiveRest(g).Some? && rest != ""
  {
    if Head(g) == '*' then if n == NotBlank then "x" + rest else rest
    else Before(Qualify(Width(g).1).1[0], Width(g).0, n, rest)
  }

  lemma DirectiveLeads(g: string, n: Need, rest: string, used: nat)
    requires DirectiveRest(g).Some? && rest != ""
    requires DirectivePasses(g, n).Some? && Meets(DirectivePasses(g, n).value, rest)
    ensures var i := DirectiveBefore(g, n, rest);
            && i != "" && Meets(n, i) && (IsText(rest) ==> IsText(i))
            && Directive(g, i, used).Next? && Directive(g, i, used).inp == rest
  {
    hide Convert, ConvertPasses, Before;
    if Head(g) == '*' {
      assert WordRun(rest) == 0 && rest[0..] == rest;
      assert ("x" + rest)[1..] == rest;
    } else {
      var (width, h) := Width(g);
      var (q, k) := Qualify(h);
      ConvertLeads(k[0], width, q, k[1..], n, rest, used);
      BeforeMeets(k[0], width, n, rest);
    }
  }

  /** An input that a turn takes to `rest`, behind the blanks of the format. */
  function MatchBefore(f: string, n: Need, rest: string): string
    requires f != "" && (f[0] == '%' ==> DirectiveRest(f[1..]).Some?) && rest != ""
  {
    if f[0] == '%' then DirectiveBefore(f[1..], n, rest) else [f[0]] + rest
  }

  /** An input that a turn takes to `rest`. */
  function TurnBefore(fmt: string, n: Need, rest: string): string
    requires fmt != "" && Rest(fmt).Some? && rest != ""
  {
    var i := MatchBefore(Start(fmt), AfterBlank(fmt, n), rest);
    if IsSpace(fmt[0]) && n != NotBlank then " " + i else i
  }

  lemma TurnLeads(fmt: string, n: Need, rest: string, used: nat)
    requires fmt != "" && Rest(fmt).Some? && rest != ""
    requires Passes(fmt, n).Some? && Meets(Passes(fmt, n).value, rest)
    ensures var inp := TurnBefore(fmt, n, rest);
            && inp != "" && Meets(n, inp) && (IsText(fmt) && IsText(rest) ==> IsText(inp))
            && Turn(fmt, inp, used).Next? && Turn(fmt, inp, used).inp == rest
            && !Mismatch(Unblanked(fmt, inp, used).0, Unblanked(fmt, inp, used).1)
  {
    hide Directive, DirectivePasses, DirectiveBefore, DirectiveRest, Meets, Start, SpaceRun, TurnBefore;
    var f, n' := Start(fmt), AfterBlank(fmt, n);
    var inp, i := TurnBefore(fmt, n, rest), MatchBefore(f, n', rest);
    InputBefore(fmt, n, rest, used);
    var u := Unblanked(fmt, inp, used).2;
    MatchLeads(f, n', rest, u);
  }

  lemma MatchLeads(f: string, n: Need, rest: string, used: nat)
    requires f != "" && !IsSpace(f[0]) && rest != ""
    requires f[0] == '%' ==> DirectiveRest(f[1..]).Some? && DirectivePasses(f[1..], n).Some?
                             && Meets(DirectivePasses(f[1..], n).value, rest)
    requires f[0] != '%' ==> Meets(n, [f[0]])
    ensures var i := MatchBefore(f, n, rest);
            && i != "" && Meets(n, i) && (IsText(f) && IsText(rest) ==> IsText(i))
            && Match(f, i, used).Next? && Match(f, i, used).inp == rest && !Mismatch(f, i)
  {
    hide Directive, DirectivePasses, DirectiveBefore, DirectiveRest;
    if f[0] == '%' {
      DirectiveLeads(f[1..], n, rest, used);
    } else {
      assert ([f[0]] + rest)[1..] == rest;
    }
  }

  /** Dropping the blanks that the format allows leaves that input. */
  lemma InputBefore(fmt: string, n: Need, rest: string, used: nat)
    requires fmt != "" && Rest(fmt).Some? && rest != ""
    requires Passes(fmt, n).Some? && Meets(Passes(fmt, n).value, rest)
    ensures var inp, i := TurnBefore(fmt, n, rest), MatchBefore(Start(fmt), AfterBlank(fmt, n), rest);
            && i != "" && !IsSpace(Start(fmt)[0])
            && inp != "" && Meets(n, inp) && (IsText(fmt) && IsText(rest) ==> IsText(inp))
            && Unblanked(fmt, inp, used).0 == Start(fmt) && Unblanked(fmt, inp, used).1 == i
  {
    hide Directive, DirectivePasses, DirectiveBefore, DirectiveRest, Match;
    StartIsSuffix(fmt);
    var f, n' := Start(fmt), AfterBlank(fmt, n);
    var i := MatchBefore(f, n', rest);
    MatchLeads(f, n', rest, used);
    if IsSpace(fmt[0]) {
      SkipsBlank(i);
    }
  }

  // ---------- Which formats are safe ----------

  /** What a format may be in for: stepping over its terminator, or a position that is counted wrong. */
  datatype Trouble = Overrun | Miscount

  predicate At(trouble: Trouble, f: string) {
    match trouble
    case Overrun => OverrunsNow(f)
    case Miscount => f != "" && f[0] != '%' && BeforePosition(f)
  }

  /** The scan runs into it. */
  predicate Strikes(trouble: Trouble, fmt: string, inp: string, used: nat) {
    match trouble
    case Overrun => Overruns(fmt, inp, used)
    case Miscount => StopsBeforePosition(fmt, inp, used)
  }

  /** It stands at a turn that some input reaches. */
  predicate Reaches(trouble: Trouble, fmt: string, n: Need)
    decreases |fmt|
  {
    && fmt != ""
    && (At(trouble, Start(fmt))
        || (Rest(fmt).Some? && Passes(fmt, n).Some? && Reaches(trouble, Rest(fmt).value, Passes(fmt, n).value)))
  }

  lemma {:induction false} StrikesOnlyWhereReached(trouble: Trouble, fmt: string, inp: string, used: nat, n: Need)
    requires Meets(n, inp) && Strikes(trouble, fmt, inp, used)
    ensures Reaches(trouble, fmt, n)
    decreases |fmt|
  {
    StartTwice(fmt);
    if !At(trouble, Start(fmt)) {
      TurnRest(fmt, inp, used);
      TurnLeaves(fmt, inp, used, n);
      var o := Turn(fmt, inp, used);
      hide Turn, Rest, Passes, Meets;
      StrikesOnlyWhereReached(trouble, o.fmt, o.inp, o.used, Passes(fmt, n).value);
    }
  }

  /** An input with which the scan runs into it. */
  lemma {:induction false} StrikingInput(trouble: Trouble, fmt: string, n: Need) returns (inp: string)
    requires Reaches(trouble, fmt, n)
    ensures inp != "" && Meets(n, inp) && (IsText(fmt) ==> IsText(inp))
    ensures forall used: nat :: Strikes(trouble, fmt, inp, used)
    decreases |fmt|
  {
    var f := Start(fmt);
    if At(trouble, f) {
      StartTwice(fmt);
      inp := if n != NotBlank then " " else if f[0] == 'x' then "y" else "x";
    } else {
      var rest := StrikingInput(trouble, Rest(fmt).value, Passes(fmt, n).value);
      inp := TurnBefore(fmt, n, rest);
      RestIsSuffix(fmt);
      forall used: nat ensures Strikes(trouble, fmt, inp, used) {
        TurnLeads(fmt, n, rest, used);
        TurnRest(fmt, inp, used);
        assert Strikes(trouble, Turn(fmt, inp, used).fmt, rest, Turn(fmt, inp, used).used);
      }
      TurnLeads(fmt, n, rest, 0);
    }
  }

  /** A format never makes the code step over its terminator, with any input, if and only if no bare
      `h` or `l` stands where some input reaches it. */
  lemma OverrunSafe(fmt: string)
    requires IsText(fmt)
    ensures (forall inp: string | IsText(inp) :: !Overruns(fmt, inp, 0)) <==> !Reaches(Overrun, fmt, Anything)
  {
    if Reaches(Overrun, fmt, Anything) {
      var inp := StrikingInput(Overrun, fmt, Anything);
      assert Strikes(Overrun, fmt, inp, 0);
    } else {
      forall inp: string | IsText(inp) ensures !Overruns(fmt, inp, 0) {
        if Overruns(fmt, inp, 0) {
          StrikesOnlyWhereReached(Overrun, fmt, inp, 0, Anything);
        }
      }
    }
  }

  /** A format scans as intended, with every input, if and only if no literal directly before a `%n`
      stands where some input reaches it. */
  lemma PositionSafe(fmt: string)
    requires IsText(fmt)
    ensures (forall inp: string | IsText(inp) :: Scan(fmt, inp, 0) == IntendedScan(fmt, inp, 0))
       <==> !Reaches(Miscount, fmt, Anything)
  {
    if Reaches(Miscount, fmt, Anything) {
      var inp := StrikingInput(Miscount, fmt, Anything);
      assert Strikes(Miscount, fmt, inp, 0);
      PositionsExact(fmt, inp, 0);
    } else {
      forall inp: string | IsText(inp) ensures Scan(fmt, inp, 0) == IntendedScan(fmt, inp, 0) {
        if StopsBeforePosition(fmt, inp, 0) {
          StrikesOnlyWhereReached(Miscount, fmt, inp, 0, Anything);
        }
        PositionsExact(fmt, inp, 0);
      }
    }
  }

  lemma FirstTurn()
    ensures Start("%d1%h") == "%d1%h" && Rest("%d1%h") == Some("1%h") && !OverrunsNow("%d1%h")
    ensures Passes("%d1%h", Anything) == Some(NotDigit(BASE_10))
  {
    var g := "d1%h";
    assert "%d1%h"[1..] == g && g[1..] == "1%h";
    assert DigitRun(g, BASE_10) == 0;
    assert Width(g) == (NO_WIDTH, g) && Qualify(g) == (Plain, g);
  }

  lemma SecondTurn()
    ensures Start("1%h") == "1%h" && Rest("1%h") == Some("%h") && !OverrunsNow("1%h")
    ensures Passes("1%h", NotDigit(BASE_10)) == None
  {
    assert "1%h"[1..] == "%h";
    assert IsDigitIn('1', BASE_10);
  }

  /** A turn point that no input reaches: behind `%d` no digit is left for the literal. */
  lemma NotEveryTurnPointIsReached()
    ensures "%h" in TurnPoints("%d1%h") && OverrunsNow("%h")
    ensures forall inp: string :: !Overruns("%d1%h", inp, 0)
  {
    assert "%h"[1..] == "h";
    FirstTurn();
    SecondTurn();
    assert TurnPoints("%h")[0] == "%h";
    assert TurnPoints("1%h") == ["1%h"] + TurnPoints("%h");
    assert TurnPoints("%d1%h") == ["%d1%h"] + TurnPoints("1%h");
    assert !Reaches(Overrun, "1%h", NotDigit(BASE_10));
    assert !Reaches(Overrun, "%d1%h", Anything);
    forall inp: string ensures !Overruns("%d1%h", inp, 0) {
      if Overruns("%d1%h", inp, 0) {
        StrikesOnlyWhereReached(Overrun, "%d1%h", inp, 0, Anything);
      }
    }
  }

  /** The smallest call that steps over the terminator. */
  lemma OverrunExample()
    ensures Overruns("%h", "1", 0)
  {
    assert "%h"[1..] == "h" && Width("h") == (NO_WIDTH, "h");
  }
}
