/** Facts about every scan: what it counts, which formats it can be given, and when the
    positions it reports are those a caller expects. */
module ScanFacts {
  import opened CStrings
  import opened IntegerParser
  import opened Options
  import opened Scanf

  // ---------- The count ----------

  function Conversions(stores: seq<Store>): nat {
    if stores == [] then 0
    else (if stores[0].Position? then 0 else 1) + Conversions(stores[1..])
  }

  lemma {:induction false} ConversionsConcat(a: seq<Store>, b: seq<Store>)
    ensures Conversions(a + b) == Conversions(a) + Conversions(b)
  {
    if a == [] {
      assert a + b == b;
    } else {
      assert (a + b)[1..] == a[1..] + b;
      ConversionsConcat(a[1..], b);
    }
  }

  predicate Tallies(o: Outcome) { o.Next? ==> o.converted == Conversions(o.stores) }

  lemma ConvertTallies(kind: char, width: int, q: Qualifier, f: string, inp: string, used: nat)
    requires inp != "" && -32768 <= width <= 32767
    ensures Tallies(Convert(kind, width, q, f, inp, used))
  {
  }

  lemma DirectiveTallies(f: string, inp: string, used: nat)
    ensures Tallies(Directive(f, inp, used))
  {
    if Head(f) != '*' {
      var (width, g) := Width(f);
      var (q, h) := Qualify(g);
      if h != "" && inp != "" {
        ConvertTallies(h[0], width, q, h[1..], inp, used);
      }
    }
  }

  lemma TurnTallies(fmt: string, inp: string, used: nat)
    requires fmt != ""
    ensures Tallies(Turn(fmt, inp, used))
  {
    var (f, i, u) := Unblanked(fmt, inp, used);
    if f != "" {
      DirectiveTallies(f[1..], i, u);
    }
  }

  /** The count returned is the number of objects assigned, positions not counted. */
  lemma {:induction false} CountIsAssignments(fmt: string, inp: string, used: nat)
    ensures Scan(fmt, inp, used).count == Conversions(Scan(fmt, inp, used).stores)
    decreases |fmt|
  {
    if fmt != "" && inp != "" {
      TurnTallies(fmt, inp, used);
      match Turn(fmt, inp, used)
      case Next(f, i, u, stores, n) =>
        CountIsAssignments(f, i, u);
        ConversionsConcat(stores, Scan(f, i, u).stores);
      case Stop(f, u) =>
      case Quit =>
    }
  }

  // ---------- The format alone ----------

  predicate IsSuffix(t: string, f: string) {
    |t| <= |f| && t == f[|f| - |t|..]
  }

  lemma SuffixChain(a: string, b: string, c: string)
    requires IsSuffix(a, b) && IsSuffix(b, c)
    ensures IsSuffix(a, c)
  {
  }

  /** The format behind a directive, if the scan can go on there. */
  function DirectiveRest(f: string): (r: Option<string>)
    ensures r.Some? ==> |r.value| <= |f|
  {
    if Head(f) == '*' then Some(f[SuppressedRun(f)..])
    else
      var g := Width(f).1;
      var h := Qualify(g).1;
      if IsDoubled(g) || h == "" || h[0] !in "csn%oxXidu" then None else Some(h[1..])
  }

  /** The format after one turn, if the scan can go on there. */
  function Rest(fmt: string): (r: Option<string>)
    requires fmt != ""
    ensures r.Some? ==> |r.value| < |fmt|
  {
    var f := Start(fmt);
    if f == "" then None else if f[0] != '%' then Some(f[1..]) else DirectiveRest(f[1..])
  }

  /** What a turn leaves of the format does not depend on the input. */
  lemma TurnRest(fmt: string, inp: string, used: nat)
    requires fmt != "" && Turn(fmt, inp, used).Next?
    ensures Rest(fmt) == Some(Turn(fmt, inp, used).fmt)
  {
    hide Directive, DirectiveRest;
    var (f, i, u) := Unblanked(fmt, inp, used);
    if f != "" && f[0] == '%' {
      AfterDirective(f[1..], i, u);
    }
  }

  lemma AfterDirective(f: string, inp: string, used: nat)
    requires Directive(f, inp, used).Next?
    ensures DirectiveRest(f) == Some(Directive(f, inp, used).fmt)
  {
    hide ConvertInteger, ConvertChars, ConvertWord, SuppressedRun, WordRun, Width, Qualify, IsDoubled;
  }

  /** The places of the format where a turn may begin, blanks dropped. */
  function TurnPoints(fmt: string): seq<string>
    decreases |fmt|
  {
    if fmt == "" then []
    else [Start(fmt)] + if Rest(fmt).Some? then TurnPoints(Rest(fmt).value) else []
  }

  /** A format without a bare `h` or `l` where a directive may end is safe with every input. */
  lemma {:induction false} SafeFormat(fmt: string, inp: string, used: nat)
    requires forall f :: f in TurnPoints(fmt) ==> !OverrunsNow(f)
    ensures !Overruns(fmt, inp, used)
    decreases |fmt|
  {
    if fmt != "" && inp != "" {
      StartTwice(fmt);
      assert Start(fmt) in TurnPoints(fmt);
      if Turn(fmt, inp, used).Next? {
        TurnRest(fmt, inp, used);
        var o := Turn(fmt, inp, used);
        assert forall f :: f in TurnPoints(o.fmt) ==> f in TurnPoints(fmt);
        SafeFormat(o.fmt, o.inp, o.used);
      }
    }
  }

  lemma StartTwice(fmt: string)
    ensures OverrunsNow(Start(fmt)) == OverrunsNow(fmt)
  {
  }

  lemma Dropped(f: string, n: nat)
    requires n <= |f|
    ensures IsSuffix(f[n..], f)
  {
  }

  lemma StartIsSuffix(fmt: string)
    ensures IsSuffix(Start(fmt), fmt)
  {
    Dropped(fmt, 0);
    Dropped(fmt, SpaceRun(fmt));
  }

  lemma WidthIsSuffix(f: string)
    ensures IsSuffix(Width(f).1, f)
  {
    Dropped(f, 0);
    Dropped(f, DigitRun(f, BASE_10));
  }

  lemma QualifyIsSuffix(g: string)
    ensures IsSuffix(Qualify(g).1, g)
  {
    hide IsSuffix;
    assert g[0..] == g && g[|g|..] == "";
    Dropped(g, 0);
    Dropped(g, |g|);
    if g != "" {
      Dropped(g, 1);
    }
    if |g| >= 2 {
      Dropped(g, 2);
    }
  }

  lemma DirectiveRestIsSuffix(f: string)
    ensures DirectiveRest(f).Some? ==> IsSuffix(DirectiveRest(f).value, f)
  {
    hide IsSuffix, Width, Qualify;
    if Head(f) == '*' {
      Dropped(f, SuppressedRun(f));
    } else {
      var g := Width(f).1;
      var h := Qualify(g).1;
      WidthIsSuffix(f);
      QualifyIsSuffix(g);
      SuffixChain(h, g, f);
      if h != "" {
        Dropped(h, 1);
        SuffixChain(h[1..], h, f);
      }
    }
  }

  lemma RestIsSuffix(fmt: string)
    requires fmt != "" && Rest(fmt).Some?
    ensures IsSuffix(Rest(fmt).value, fmt)
  {
    hide IsSuffix, DirectiveRest, Start;
    var f := Start(fmt);
    StartIsSuffix(fmt);
    Dropped(f, 1);
    SuffixChain(f[1..], f, fmt);
    DirectiveRestIsSuffix(f[1..]);
    if f[0] == '%' {
      SuffixChain(Rest(fmt).value, f[1..], fmt);
    }
  }

  /** So is a format whose last character is neither. */
  lemma {:induction false} SafeEnding(fmt: string, inp: string, used: nat)
    requires fmt != "" ==> fmt[|fmt| - 1] !in "hl"
    ensures !Overruns(fmt, inp, used)
    decreases |fmt|
  {
    if fmt != "" && inp != "" {
      if OverrunsNow(fmt) {
        BareEnding(fmt);
      }
      if Turn(fmt, inp, used).Next? {
        hide Turn, Rest, OverrunsNow;
        TurnRest(fmt, inp, used);
        RestIsSuffix(fmt);
        var o := Turn(fmt, inp, used);
        SafeEnding(o.fmt, o.inp, o.used);
      }
    }
  }

  lemma BareEnding(fmt: string)
    requires OverrunsNow(fmt)
    ensures fmt != "" && fmt[|fmt| - 1] in "hl"
  {
    var f := Start(fmt);
    var g := Width(f[1..]).1;
    StartIsSuffix(fmt);
    Dropped(f, 1);
    SuffixChain(f[1..], f, fmt);
    WidthIsSuffix(f[1..]);
    SuffixChain(g, f[1..], fmt);
  }

  // ---------- Positions ----------

  /** What a turn should do: a literal that does not match has not been read. */
  function IntendedTurn(fmt: string, inp: string, used: nat): Outcome
    requires fmt != ""
  {
    var (f, i, u) := Unblanked(fmt, inp, used);
    if Mismatch(f, i) then Stop(f[1..], u) else Match(f, i, u)
  }

  /** A literal stands at `f` and the input does not go on with it. */
  predicate Mismatch(f: string, i: string) {
    f != "" && f[0] != '%' && (i == "" || i[0] != f[0])
  }

  function IntendedScan(fmt: string, inp: string, used: nat): Result
    decreases |fmt|
  {
    if fmt == "" || inp == "" then Trailing(fmt, used)
    else
      match IntendedTurn(fmt, inp, used)
      case Next(f, i, u, stores, n) =>
        SameUnlessMismatch(fmt, inp, used);
        var rest := IntendedScan(f, i, u);
        Result(n + rest.count, stores + rest.stores)
      case Stop(f, u) => Trailing(f, u)
      case Quit => Result(0, [])
  }

  lemma SameUnlessMismatch(fmt: string, inp: string, used: nat)
    requires fmt != ""
    ensures var (f, i, u) := Unblanked(fmt, inp, used);
            if Mismatch(f, i) then Turn(fmt, inp, used) == Stop(f[1..], u + 1)
            else Turn(fmt, inp, used) == IntendedTurn(fmt, inp, used)
  {
    hide Directive;
  }

  /** `%n` directly behind the first character. */
  predicate BeforePosition(f: string) {
    |f| >= 3 && f[1] == '%' && f[2] == 'n'
  }

  /** The scan stops at a literal that does not match and has a `%n` directly behind it. */
  predicate StopsBeforePosition(fmt: string, inp: string, used: nat)
    decreases |fmt|
  {
    && fmt != "" && inp != ""
    && var (f, i, u) := Unblanked(fmt, inp, used);
       if Mismatch(f, i) then BeforePosition(f)
       else
         match Turn(fmt, inp, used)
         case Next(f', i', u', _, _) => StopsBeforePosition(f', i', u')
         case _ => false
  }

  /** For every format and input the count is the intended one, and so are the stores if and only
      if the scan does not stop at a literal with `%n` directly behind it. */
  lemma {:induction false} PositionsExact(fmt: string, inp: string, used: nat)
    ensures Scan(fmt, inp, used).count == IntendedScan(fmt, inp, used).count
    ensures Scan(fmt, inp, used).stores == IntendedScan(fmt, inp, used).stores
       <==> !StopsBeforePosition(fmt, inp, used)
    decreases |fmt|
  {
    if fmt != "" && inp != "" {
      hide Turn, IntendedTurn, Unblanked;
      SameUnlessMismatch(fmt, inp, used);
      var o := Turn(fmt, inp, used);
      if o.Next? {
        PositionsExact(o.fmt, o.inp, o.used);
        SameTail(o.stores, Scan(o.fmt, o.inp, o.used).stores, IntendedScan(o.fmt, o.inp, o.used).stores);
      }
    }
  }

  lemma SameTail(a: seq<Store>, b: seq<Store>, c: seq<Store>)
    ensures a + b == a + c <==> b == c
  {
    assert (a + b)[|a|..] == b && (a + c)[|a|..] == c;
  }

  /** A format in which no literal stands directly before a `%n` reports every position right. */
  lemma {:induction false} PositionsSafe(fmt: string, inp: string, used: nat)
    requires forall f :: f in TurnPoints(fmt) && f != "" && f[0] != '%' ==> !BeforePosition(f)
    ensures Scan(fmt, inp, used) == IntendedScan(fmt, inp, used)
    decreases |fmt|
  {
    NeverBeforePosition(fmt, inp, used);
    PositionsExact(fmt, inp, used);
  }

  lemma {:induction false} NeverBeforePosition(fmt: string, inp: string, used: nat)
    requires forall f :: f in TurnPoints(fmt) && f != "" && f[0] != '%' ==> !BeforePosition(f)
    ensures !StopsBeforePosition(fmt, inp, used)
    decreases |fmt|
  {
    if fmt != "" && inp != "" {
      assert Start(fmt) in TurnPoints(fmt) && Unblanked(fmt, inp, used).0 == Start(fmt);
      var o := Turn(fmt, inp, used);
      if o.Next? {
        TurnRest(fmt, inp, used);
        assert forall f :: f in TurnPoints(o.fmt) ==> f in TurnPoints(fmt);
        NeverBeforePosition(o.fmt, o.inp, o.used);
      }
    }
  }

  /** Every position lies in that range. */
  predicate Within(stores: seq<Store>, low: nat, high: nat) {
    forall k :: 0 <= k < |stores| && stores[k].Position? ==> low <= stores[k].offset <= high
  }

  /** A turn that goes on accounts for every character it takes; one that stops counts at most one
      character too many. */
  predicate Accounts(o: Outcome, inp: string, used: nat, extra: nat) {
    match o
    case Next(_, i, u, stores, _) => used <= u && u + |i| == used + |inp| && Within(stores, used, u)
    case Stop(_, u) => used <= u <= used + |inp| + extra
    case Quit => true
  }

  lemma ConvertAccounts(kind: char, width: int, q: Qualifier, f: string, inp: string, used: nat)
    requires inp != "" && -32768 <= width <= 32767
    ensures Accounts(Convert(kind, width, q, f, inp, used), inp, used, 0)
  {
    hide ConvertInteger, ConvertWord;
    if kind == 's' {
      WordAccounts(width, f, inp, used);
    } else if IsIntegerKind(kind) {
      IntegerAccounts(kind, q, f, inp, used);
    }
  }

  lemma IntegerAccounts(kind: char, q: Qualifier, f: string, inp: string, used: nat)
    ensures Accounts(ConvertInteger(kind, q, f, inp, used), inp, used, 0)
  {
    hide NumberLength, StoredNumber, LeadingDigit, StartsNumber, Base, IsSigned;
    var i := inp[SpaceRun(inp)..];
    StoresNoPosition(q, IsSigned(kind), i, Base(kind));
  }

  lemma StoresNoPosition(q: Qualifier, signed: bool, i: string, base: nat)
    ensures !StoredNumber(q, signed, i, base).Position?
  {
  }

  lemma WordAccounts(width: int, f: string, inp: string, used: nat)
    requires -32768 <= width <= 32767
    ensures Accounts(ConvertWord(width, f, inp, used), inp, used, 0)
  {
    hide WordLimit;
  }

  lemma DirectiveAccounts(f: string, inp: string, used: nat)
    ensures Accounts(Directive(f, inp, used), inp, used, 0)
  {
    hide Convert;
    if Head(f) != '*' {
      var (width, g) := Width(f);
      var h := Qualify(g).1;
      if h != "" && inp != "" {
        ConvertAccounts(h[0], width, Qualify(g).0, h[1..], inp, used);
      }
    }
  }

  lemma TurnAccounts(fmt: string, inp: string, used: nat)
    requires fmt != ""
    ensures Accounts(Turn(fmt, inp, used), inp, used, 1)
    ensures Accounts(IntendedTurn(fmt, inp, used), inp, used, 0)
  {
    hide Directive;
    var (f, i, u) := Unblanked(fmt, inp, used);
    if f != "" {
      DirectiveAccounts(f[1..], i, u);
    }
  }

  /** Every position the code reports is at most one past the end of the input, and every intended
      one is inside it. */
  lemma {:induction false} PositionsBounded(fmt: string, inp: string, used: nat)
    ensures Within(Scan(fmt, inp, used).stores, used, used + |inp| + 1)
    ensures Within(IntendedScan(fmt, inp, used).stores, used, used + |inp|)
    decreases |fmt|
  {
    if fmt != "" && inp != "" {
      hide Turn, IntendedTurn;
      TurnAccounts(fmt, inp, used);
      SameUnlessMismatch(fmt, inp, used);
      var o := Turn(fmt, inp, used);
      if o.Next? {
        PositionsBounded(o.fmt, o.inp, o.used);
      }
    }
  }

  /** The bound is reached: behind a skipped blank the input has ended, and the literal that is
      missing is counted. */
  lemma PositionPastEnd()
    ensures Scan(" a%n", " ", 0) == Result(0, [Position(2)])
    ensures IntendedScan(" a%n", " ", 0) == Result(0, [Position(1)])
  {
    assert DropSpaces(" a%n") == "a%n" by {
      assert SpaceRun("a%n") == 0;
      assert " a%n"[1..] == "a%n";
    }
    assert DropSpaces(" ") == "" by {
      assert " "[1..] == "";
    }
    assert "a%n"[1..] == "%n";
  }
}
