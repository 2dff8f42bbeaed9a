/** The format interpreter behind `sscanf` in system/system.c: first what one
    directive does to the remaining format and input, as functions on strings,
    then the loop over two cursors, proved to compute exactly that. */
module Scanf {
  import opened CStrings
  import opened IntegerParser
  import opened Words

  /** What a call stores through one of its pointer arguments. The k-th store goes
      through the k-th argument. */
  datatype Store =
    | Chars(bytes: seq<char>)                          // %c: no terminator
    | Word(bytes: seq<char>)                           // %s: ends with its terminator
    | Integer(bits: nat, signed: bool, value: int)     // an object of that width and signedness
    | Position(offset: int)                            // %n

  /** The length modifier left standing after the qualifier code has run. */
  datatype Qualifier = Plain | Half | Long | Size

  const NO_WIDTH := -1
  const SHRT_MAX := 32767

  /** Conversion of an `int` to `short`. */
  function ToShort(x: int): (r: int)
    ensures -32768 <= r <= 32767
  {
    if x % 65536 < 32768 then x % 65536 else x % 65536 - 65536
  }

  // ---------- Specification: one directive ----------

  /** The effect of one directive on the remaining format, the remaining input and
      the number of characters used so far. */
  datatype Outcome =
    | Next(fmt: string, inp: string, used: nat, stores: seq<Store>, converted: nat)
    | Stop(fmt: string, used: nat)   // leaves the loop: the trailing %n rule still applies
    | Quit                           // returns at once

  function Head(t: string): char { if t == "" then '\0' else t[0] }

  /** Drops the first `n` characters, or everything. */
  function Drop(t: string, n: nat): string { if n <= |t| then t[n..] else "" }

  function WordRun(t: string): (n: nat)
    ensures n <= |t|
    ensures forall k :: 0 <= k < n ==> !IsSpace(t[k])
    ensures n < |t| ==> IsSpace(t[n])
  {
    if t != "" && !IsSpace(t[0]) then 1 + WordRun(t[1..]) else 0
  }

  /** The part of a suppressed conversion that is skipped in the format. */
  function SuppressedRun(f: string): (n: nat)
    ensures n <= |f|
  {
    if f != "" && !IsSpace(f[0]) && f[0] != '%' then 1 + SuppressedRun(f[1..]) else 0
  }

  /** Field width and the format after it. */
  function Width(f: string): (r: (int, string))
    ensures -32768 <= r.0 <= 32767 && |r.1| <= |f|
  {
    var n := DigitRun(f, BASE_10);
    if n == 0 then (NO_WIDTH, f) else (ToShort(Value(f[..n], BASE_10)), f[n..])
  }

  predicate IsQualifier(c: char) { c == 'h' || Lower(c) == 'l' || Lower(c) == 'z' }

  predicate IsDoubled(f: string) { |f| >= 2 && IsQualifier(f[0]) && f[1] == f[0] }

  /** The qualifier and the format after it: a lower-case `h` or `l` takes the
      character behind it along. */
  function Qualify(f: string): (r: (Qualifier, string))
    ensures |r.1| <= |f|
  {
    if !IsQualifier(Head(f)) then (Plain, f)
    else if f[0] == 'h' then (Half, Drop(f, 2))
    else if f[0] == 'l' then (Long, Drop(f, 2))
    else if f[0] == 'L' then (Long, f[1..])
    else (Size, f[1..])
  }

  /** How many characters `%c` takes for a width, if the input has them. */
  function CharCount(width: int): (n: nat)
    ensures n >= 1
  {
    if width == NO_WIDTH then 1 else Countdown(width)
  }

  /** How often a `do ... while (--width > 0)` loop runs on a `short`. */
  function Countdown(width: int): (n: nat)
    ensures n >= 1
  {
    if width == -32768 then 32768 else if width < 1 then 1 else width
  }

  /** How many characters `%s` takes at most: the width read as unsigned. */
  function WordLimit(width: int): nat
    requires -32768 <= width <= 32767
  {
    if width == NO_WIDTH then SHRT_MAX else AsUnsigned(width)
  }

  /** The 16 bits of a `short`, read as an unsigned number. */
  function AsUnsigned(width: int): nat
    requires -32768 <= width <= 32767
  {
    if width < 0 then width + 65536 else width
  }

  /** Counting a non-zero `short` down by one, possibly around. */
  lemma CountDown(width: int)
    requires -32768 <= width <= 32767 && width != 0
    ensures AsUnsigned(ToShort(width - 1)) == AsUnsigned(width) - 1
  {
  }

  function Min(a: nat, b: nat): nat { if a < b then a else b }

  function Base(kind: char): nat {
    if kind == 'o' then BASE_8
    else if kind == 'x' || kind == 'X' then BASE_16
    else if kind == 'i' then 0
    else BASE_10
  }

  predicate IsSigned(kind: char) { kind == 'i' || kind == 'd' }

  predicate IsIntegerKind(kind: char) { kind in "oxXidu" }

  /** The character that decides whether an integer conversion may start. */
  function LeadingDigit(inp: string, signed: bool): char {
    if signed && Head(inp) == '-' then Head(inp[1..]) else Head(inp)
  }

  predicate StartsNumber(digit: char, base: nat) {
    && digit != '\0'
    && (base == BASE_16 ==> IsXDigit(digit))
    && (base == BASE_10 || base == 0 ==> IsDigit(digit))
    && (base == BASE_8 ==> IsDigit(digit) && digit <= '7')
  }

  /** The number of bits of the object an integer conversion stores to. */
  function ObjectBits(q: Qualifier): nat {
    match q
    case Half => 8
    case Long => 64
    case _ => 32
  }

  /** What an object of that many bits holds after a number is assigned to it. */
  function Fit(bits: nat, signed: bool, x: int): int
    requires bits in {8, 32, 64}
  {
    if bits == 8 then
      if signed && x % 256 >= 128 then x % 256 - 256 else x % 256
    else if bits == 32 then
      if signed then Wrap32(x) else x % TWO_32
    else
      if signed then Wrap64(x) else x % TWO_64
  }

  function StoredNumber(q: Qualifier, signed: bool, inp: string, base: nat): Store {
    if q == Size then Integer(32, false, Magnitude(inp, base).value % TWO_32)
    else if signed then Integer(ObjectBits(q), true, Fit(ObjectBits(q), true, Signed(inp, base).value))
    else Integer(ObjectBits(q), false, Fit(ObjectBits(q), false, Magnitude(inp, base).value))
  }

  /** How many characters a stored number took: a size conversion never reads a sign. */
  function NumberLength(q: Qualifier, signed: bool, inp: string, base: nat): (n: nat)
    ensures n <= |inp|
  {
    if signed && q != Size then Signed(inp, base).length else Magnitude(inp, base).length
  }

  /** The assignment of a number that has been found to start at `inp`. */
  function Assign(q: Qualifier, signed: bool, base: nat, f: string, inp: string, used: nat): (o: Outcome)
    ensures o.Next? && o.fmt == f
  {
    var n := NumberLength(q, signed, inp, base);
    Next(f, inp[n..], used + n, [StoredNumber(q, signed, inp, base)], 1)
  }

  /** An integer conversion; `f` is the format after the conversion character. */
  function ConvertInteger(kind: char, q: Qualifier, f: string, inp: string, used: nat): (o: Outcome)
    ensures o.Next? ==> o.fmt == f
  {
    var blanks := SpaceRun(inp);
    var i := inp[blanks..];
    if !StartsNumber(LeadingDigit(i, IsSigned(kind)), Base(kind)) then Stop(f, used + blanks)
    else Assign(q, IsSigned(kind), Base(kind), f, i, used + blanks)
  }

  /** The word at the front of `inp`, as far as the width allows. */
  function TakeWord(width: int, f: string, inp: string, used: nat): Outcome
    requires -32768 <= width <= 32767
  {
    var n := Min(WordRun(inp), WordLimit(width));
    Next(f, inp[n..], used + n, [Word(inp[..n] + ['\0'])], 1)
  }

  function ConvertWord(width: int, f: string, inp: string, used: nat): (o: Outcome)
    requires -32768 <= width <= 32767
    ensures o.Next? && o.fmt == f
  {
    TakeWord(width, f, inp[SpaceRun(inp)..], used + SpaceRun(inp))
  }

  function ConvertChars(width: int, f: string, inp: string, used: nat): Outcome {
    var n := Min(|inp|, CharCount(width));
    Next(f, inp[n..], used + n, [Chars(inp[..n])], 1)
  }

  /** The conversion named by `kind`; `f` is the format after it and `inp` is not empty. */
  function Convert(kind: char, width: int, q: Qualifier, f: string, inp: string, used: nat): (o: Outcome)
    requires inp != "" && -32768 <= width <= 32767
    ensures o.Next? ==> o.fmt == f
  {
    if kind == 'c' then ConvertChars(width, f, inp, used)
    else if kind == 's' then ConvertWord(width, f, inp, used)
    else if kind == 'n' then Next(f, inp, used, [Position(used)], 0)
    else if kind == '%' then if inp[0] == '%' then Next(f, inp[1..], used + 1, [], 0) else Quit
    else if IsIntegerKind(kind) then ConvertInteger(kind, q, f, inp, used)
    else Quit
  }

  /** A suppressed conversion: both strings move to their next blank, the format
      possibly only to its next `%`. */
  function Suppressed(f: string, inp: string, used: nat): (o: Outcome)
    ensures o.Next? && |o.fmt| <= |f|
  {
    Next(f[SuppressedRun(f)..], inp[WordRun(inp)..], used + WordRun(inp), [], 0)
  }

  /** A directive whose `%` has been read; `f` is the format after the `%`. */
  function Directive(f: string, inp: string, used: nat): (o: Outcome)
    ensures o.Next? ==> |o.fmt| <= |f|
  {
    if Head(f) == '*' then Suppressed(f, inp, used)
    else
      var (width, g) := Width(f);
      SizedDirective(width, g, inp, used)
  }

  /** The rest of a directive from its length modifier on. */
  function SizedDirective(width: int, g: string, inp: string, used: nat): (o: Outcome)
    requires -32768 <= width <= 32767
    ensures o.Next? ==> |o.fmt| <= |g|
  {
    if IsDoubled(g) then Stop(g[1..], used)
    else
      var (q, h) := Qualify(g);
      if h == "" || inp == "" then Stop(h, used)
      else Convert(h[0], width, q, h[1..], inp, used)
  }

  /** One turn of the interpreter after any blanks have been dropped. */
  function Match(fmt: string, inp: string, used: nat): (o: Outcome)
    ensures o.Next? ==> |o.fmt| < |fmt|
  {
    if fmt == "" then Stop(fmt, used)
    else if fmt[0] == '%' then Directive(fmt[1..], inp, used)
    else if inp != "" && Head(inp) == fmt[0] then Next(fmt[1..], inp[1..], used + 1, [], 0)
    else Stop(fmt[1..], used + 1)
  }

  /** One turn: a blank in the format stands for any number of blanks in both strings. */
  function Turn(fmt: string, inp: string, used: nat): (o: Outcome)
    requires fmt != ""
    ensures o.Next? ==> |o.fmt| < |fmt|
  {
    var (f, i, u) := Unblanked(fmt, inp, used);
    Match(f, i, u)
  }

  function Unblanked(fmt: string, inp: string, used: nat): (r: (string, string, nat))
    requires fmt != ""
    ensures |r.0| <= |fmt|
  {
    if IsSpace(fmt[0]) then (DropSpaces(fmt), DropSpaces(inp), used + SpaceRun(inp)) else (fmt, inp, used)
  }

  /** Where a turn finds its directive or literal. */
  function Start(fmt: string): (f: string)
    ensures |f| <= |fmt|
  {
    if fmt != "" && IsSpace(fmt[0]) then DropSpaces(fmt) else fmt
  }

  // ---------- Specification: the whole format ----------

  datatype Result = Result(count: nat, stores: seq<Store>)

  /** After the loop, a `%n` at the current place in the format is still filled. */
  function Trailing(fmt: string, used: nat): Result {
    Result(0, if |fmt| >= 2 && fmt[0] == '%' && fmt[1] == 'n' then [Position(used)] else [])
  }

  function Scan(fmt: string, inp: string, used: nat): Result
    decreases |fmt|
  {
    if fmt == "" || inp == "" then Trailing(fmt, used)
    else
      match Turn(fmt, inp, used)
      case Next(f, i, u, stores, n) =>
        var rest := Scan(f, i, u);
        Result(n + rest.count, stores + rest.stores)
      case Stop(f, u) => Trailing(f, u)
      case Quit => Result(0, [])
  }

  /** What the loop has gathered so far, followed by what is still to come. */
  function After(num: nat, stores: seq<Store>, rest: Result): Result {
    Result(num + rest.count, stores + rest.stores)
  }

  /** A directive, its `%` read, that ends with the format behind a single `h` or `l`. The code
      then steps over the terminator. */
  predicate IsBare(f: string) {
    Head(f) != '*' && |Width(f).1| == 1 && Width(f).1[0] in "hl"
  }

  /** The turn that begins at `fmt` steps over the terminator. */
  predicate OverrunsNow(fmt: string) {
    var f := Start(fmt);
    f != "" && f[0] == '%' && IsBare(f[1..])
  }

  /** Some turn of the scan does. */
  predicate Overruns(fmt: string, inp: string, used: nat)
    decreases |fmt|
  {
    && fmt != "" && inp != ""
    && (OverrunsNow(fmt)
        || match Turn(fmt, inp, used)
           case Next(f, i, u, _, _) => Overruns(f, i, u)
           case _ => false)
  }

  // ---------- The code ----------

  /** `skip_atoi`. The value is kept exact: its only use is the conversion to `short`,
      which depends on the low 16 bits alone. */
  method SkipAtoi(fmt: CString, start: nat) returns (i: nat, f: nat)
    requires start < |fmt|
    ensures f == start + DigitRun(Text(fmt, start), BASE_10) < |fmt|
    ensures i == Value(Text(fmt, start)[..f - start], BASE_10)
  {
    i, f := 0, start;
    ghost var t := Text(fmt, start);
    while IsDigit(fmt[f])
      invariant start <= f < |fmt|
      invariant AllDigits(t[..f - start], BASE_10) && i == Value(t[..f - start], BASE_10)
      invariant DigitRun(t, BASE_10) == f - start + DigitRun(t[f - start..], BASE_10)
      decreases |fmt| - f
    {
      ghost var n := f - start;
      assert t[n] == fmt[f] && t[n..][0] == fmt[f] && t[n..][1..] == t[n + 1..];
      ExtendValue(t, n, BASE_10);
      i := i * BASE_10 + (fmt[f] - '0') as nat;
      f := f + 1;
    }
  }

  /** The first loop of a suppressed conversion. */
  method SkipSuppressed(fmt: CString, start: nat) returns (f: nat)
    requires start < |fmt|
    ensures f == start + SuppressedRun(Text(fmt, start)) < |fmt|
    ensures fmt[f] in " %\0" && forall k :: start <= k < f ==> fmt[k] !in " %\0"
  {
    f := start;
    while !IsSpace(fmt[f]) && fmt[f] != '%' && fmt[f] != '\0'
      invariant start <= f < |fmt|
      invariant SuppressedRun(Text(fmt, start)) == f - start + SuppressedRun(Text(fmt, f))
      invariant forall k :: start <= k < f ==> fmt[k] !in " %\0"
      decreases |fmt| - f
    {
      assert Text(fmt, f)[1..] == Text(fmt, f + 1);
      f := f + 1;
    }
  }

  /** The second loop of a suppressed conversion. */
  method SkipWord(s: CString, start: nat) returns (p: nat)
    requires start < |s|
    ensures p == start + WordRun(Text(s, start)) < |s|
    ensures s[p] in " \0" && forall k :: start <= k < p ==> s[k] !in " \0"
  {
    p := start;
    while !IsSpace(s[p]) && s[p] != '\0'
      invariant start <= p < |s|
      invariant WordRun(Text(s, start)) == p - start + WordRun(Text(s, p))
      invariant forall k :: start <= k < p ==> s[k] !in " \0"
      decreases |s| - p
    {
      assert Text(s, p)[1..] == Text(s, p + 1);
      p := p + 1;
    }
  }

  /** The `%c` loop: the width is a `short` that is decremented, possibly around. */
  method CopyChars(s: CString, start: nat, width: int) returns (bytes: seq<char>, p: nat)
    requires start < |s| && s[start] != '\0'
    requires -32768 <= width <= 32767
    ensures |bytes| == Min(|Text(s, start)|, CharCount(width))
    ensures bytes == Text(s, start)[..|bytes|] && p == start + |bytes|
  {
    var fieldWidth := if width == NO_WIDTH then 1 else width;
    bytes, p := [], start;
    while true
      invariant start <= p < |s| && s[p] != '\0'
      invariant bytes == Text(s, start)[..p - start]
      invariant -32768 <= fieldWidth <= 32767
      invariant p == start ==> CharCount(width) == Countdown(fieldWidth)
      invariant p > start ==> fieldWidth > 0 && CharCount(width) == p - start + fieldWidth
      decreases |s| - p
    {
      bytes := bytes + [s[p]];
      p := p + 1;
      fieldWidth := ToShort(fieldWidth - 1);
      if !(fieldWidth > 0 && s[p] != '\0') {
        break;
      }
    }
  }

  /** The `%s` loop and its terminator: the width counts down to zero, possibly around. */
  method CopyWord(s: CString, start: nat, width: int) returns (bytes: seq<char>, p: nat)
    requires start < |s|
    requires -32768 <= width <= 32767
    ensures p == start + Min(WordRun(Text(s, start)), WordLimit(width)) < |s|
    ensures bytes == Text(s, start)[..p - start] + ['\0']
    ensures |bytes| <= WordLimit(width) + 1
  {
    var fieldWidth := if width == NO_WIDTH then SHRT_MAX else width;
    bytes, p := [], start;
    while s[p] != '\0' && !IsSpace(s[p]) && fieldWidth != 0
      invariant start <= p < |s|
      invariant bytes == Text(s, start)[..p - start]
      invariant WordRun(Text(s, start)) == p - start + WordRun(Text(s, p))
      invariant -32768 <= fieldWidth <= 32767
      invariant WordLimit(width) == p - start + AsUnsigned(fieldWidth)
      decreases |s| - p
    {
      assert Text(s, p)[1..] == Text(s, p + 1);
      CountDown(fieldWidth);
      bytes := bytes + [s[p]];
      p := p + 1;
      fieldWidth := ToShort(fieldWidth - 1);
    }
    bytes := bytes + ['\0'];
  }

  /** How a stretch of the loop body is left: `continue`, `break` or `return`, or with the format
      cursor past its terminator, where the next character that the code reads is not in the string. */
  datatype Exit = Continue | Break | Return | Past

  /** The cursors, stores and count after a stretch of the body are those of an outcome. */
  ghost predicate Achieves(o: Outcome, exit: Exit, fmt: CString, f: nat, s: CString, p: nat,
                           stores: seq<Store>, converted: nat)
  {
    match exit
    case Continue => f < |fmt| && p < |s| && o == Next(Text(fmt, f), Text(s, p), p, stores, converted)
    case Break => f < |fmt| && o == Stop(Text(fmt, f), p)
    case Return => o == Quit
    case Past => f == |fmt|
  }

  /** The assignment switch of an integer conversion: which parser runs and what the
      object it assigns to then holds. */
  method AssignNumber(s: CString, p: nat, base: nat, q: Qualifier, isSigned: bool) returns (store: Store, next: nat)
    requires p < |s|
    ensures store == StoredNumber(q, isSigned, Text(s, p), base)
    ensures next == p + NumberLength(q, isSigned, Text(s, p), base) < |s|
  {
    var x: int;
    if q == Size {
      x, next := SimpleStrtoul(s, p, base);
      store := Integer(32, false, x);
    } else if isSigned {
      if q == Long {
        x, next := SimpleStrtoll(s, p, base);
        store := Integer(64, true, x);
      } else {
        x, next := SimpleStrtol(s, p, base);
        NarrowToByte(Signed(Text(s, p), base).value);
        store := if q == Half then Integer(8, true, Fit(8, true, x)) else Integer(32, true, x);
      }
    } else {
      if q == Long {
        x, next := SimpleStrtoull(s, p, base);
        store := Integer(64, false, x);
      } else {
        x, next := SimpleStrtoul(s, p, base);
        NarrowToByte(Magnitude(Text(s, p), base).value);
        store := if q == Half then Integer(8, false, Fit(8, false, x)) else Integer(32, false, x);
      }
    }
  }

  method StoreNumber(fmt: CString, f: nat, s: CString, p: nat, base: nat, q: Qualifier, isSigned: bool)
    returns (next: nat, stores: seq<Store>)
    requires f < |fmt| && p < |s|
    ensures Achieves(Assign(q, isSigned, base, Text(fmt, f), Text(s, p), p), Continue, fmt, f, s, next, stores, 1)
  {
    hide Magnitude, Signed, StoredNumber;
    var store;
    store, next := AssignNumber(s, p, base, q, isSigned);
    TextAdvance(s, p, next - p);
    stores := [store];
  }

  /** The look-ahead that decides whether a number may be scanned. */
  method LooksLikeNumber(s: CString, p: nat, base: nat, isSigned: bool) returns (starts: bool)
    requires p < |s|
    ensures starts <==> StartsNumber(LeadingDigit(Text(s, p), isSigned), base)
  {
    var digit := s[p];
    if isSigned && digit == '-' {
      digit := s[p + 1];
    }
    assert digit == LeadingDigit(Text(s, p), isSigned);
    starts := !(digit == '\0'
                || (base == BASE_16 && !IsXDigit(digit))
                || (base == BASE_10 && !IsDigit(digit))
                || (base == BASE_8 && (!IsDigit(digit) || digit > '7'))
                || (base == 0 && !IsDigit(digit)));
  }

  /** An integer conversion: blanks, the look-ahead that may end the scan, the assignment. */
  method ScanInteger(fmt: CString, f: nat, s: CString, start: nat, kind: char, q: Qualifier)
    returns (exit: Exit, p: nat, stores: seq<Store>, converted: nat)
    requires f < |fmt| && start < |s| && IsIntegerKind(kind)
    ensures exit != Past
    ensures Achieves(ConvertInteger(kind, q, Text(fmt, f), Text(s, start), start), exit, fmt, f, s, p, stores, converted)
  {
    var base, isSigned := Base(kind), IsSigned(kind);
    p := SkipSpaces(s, start);
    var starts := LooksLikeNumber(s, p, base, isSigned);
    if !starts {
      return Break, p, [], 0;
    }
    p, stores := StoreNumber(fmt, f, s, p, base, q, isSigned);
    return Continue, p, stores, 1;
  }

  lemma NarrowToByte(x: int)
    ensures Fit(8, true, Wrap32(x)) == Fit(8, true, x)
    ensures Fit(8, false, x % TWO_32) == Fit(8, false, x)
  {
    var q, r := x / TWO_32, x % TWO_32;
    var q', r' := r / 256, r % 256;
    UniqueResidue(x, q * 0x100_0000 + q', 256, r');
    UniqueResidue(Wrap32(x), if Wrap32(x) == r then q' else q' - 0x100_0000, 256, r');
  }

  /** `%c`. */
  method ScanChars(fmt: CString, f: nat, s: CString, start: nat, width: int)
    returns (p: nat, stores: seq<Store>)
    requires f < |fmt| && start < |s| && s[start] != '\0' && -32768 <= width <= 32767
    ensures Achieves(ConvertChars(width, Text(fmt, f), Text(s, start), start), Continue, fmt, f, s, p, stores, 1)
  {
    var bytes;
    bytes, p := CopyChars(s, start, width);
    TextAdvance(s, start, p - start);
    stores := [Chars(bytes)];
  }

  /** `%s`. */
  method ScanWord(fmt: CString, f: nat, s: CString, start: nat, width: int)
    returns (p: nat, stores: seq<Store>)
    requires f < |fmt| && start < |s| && -32768 <= width <= 32767
    ensures Achieves(ConvertWord(width, Text(fmt, f), Text(s, start), start), Continue, fmt, f, s, p, stores, 1)
  {
    p := SkipSpaces(s, start);
    p, stores := StoreWord(fmt, f, s, p, width);
  }

  method StoreWord(fmt: CString, f: nat, s: CString, start: nat, width: int)
    returns (p: nat, stores: seq<Store>)
    requires f < |fmt| && start < |s| && -32768 <= width <= 32767
    ensures Achieves(TakeWord(width, Text(fmt, f), Text(s, start), start), Continue, fmt, f, s, p, stores, 1)
  {
    hide WordRun, WordLimit;
    var bytes;
    bytes, p := CopyWord(s, start, width);
    TextAdvance(s, start, p - start);
    stores := [Word(bytes)];
  }

  /** The conversion switch. */
  method RunConversion(fmt: CString, f: nat, s: CString, start: nat, kind: char, width: int, q: Qualifier)
    returns (exit: Exit, p: nat, stores: seq<Store>, converted: nat)
    requires f < |fmt| && start < |s| && s[start] != '\0' && -32768 <= width <= 32767
    ensures exit != Past
    ensures Achieves(Convert(kind, width, q, Text(fmt, f), Text(s, start), start), exit, fmt, f, s, p, stores, converted)
  {
    if kind == 'c' {
      p, stores := ScanChars(fmt, f, s, start, width);
      return Continue, p, stores, 1;
    } else if kind == 's' {
      p, stores := ScanWord(fmt, f, s, start, width);
      return Continue, p, stores, 1;
    } else if kind == 'n' {
      return Continue, start, [Position(start)], 0;
    } else if kind == '%' {
      if s[start] != '%' {
        return Return, start + 1, [], 0;
      }
      TextAdvance(s, start, 1);
      return Continue, start + 1, [], 0;
    } else if kind in "oxXidu" {
      exit, p, stores, converted := ScanInteger(fmt, f, s, start, kind, q);
    } else {
      return Return, start, [], 0;
    }
  }

  /** The length modifier: `doubled` reports the `break` on a repeated modifier. The cursor passes
      the terminator behind a single lower-case `h` or `l` that ends the format, and only there. */
  method ReadQualifier(fmt: CString, start: nat) returns (doubled: bool, q: Qualifier, f: nat)
    requires start < |fmt|
    ensures doubled <==> IsDoubled(Text(fmt, start))
    ensures f <= |fmt|
    ensures f == |fmt| <==> |Text(fmt, start)| == 1 && Text(fmt, start)[0] in "hl"
    ensures f < |fmt| ==>
      if doubled then Text(fmt, f) == Text(fmt, start)[1..] else (q, Text(fmt, f)) == Qualify(Text(fmt, start))
  {
    doubled, q, f := false, Plain, start;
    if fmt[f] == 'h' || Lower(fmt[f]) == 'l' || Lower(fmt[f]) == 'z' {
      var qualifier := fmt[f];
      TextAdvance(fmt, start, 1);
      f := f + 1;
      if qualifier == fmt[f] {
        return true, q, f;
      }
      if qualifier == 'h' {
        q, f := Half, f + 1;
      } else if qualifier == 'l' {
        q, f := Long, f + 1;
      } else {
        q := if qualifier == 'L' then Long else Size;
      }
      if f < |fmt| {
        TextAdvance(fmt, start, f - start);
      }
    }
  }

  /** The field width. */
  method ReadWidth(fmt: CString, start: nat) returns (width: int, f: nat)
    requires start < |fmt|
    ensures start <= f < |fmt| && -32768 <= width <= 32767
    ensures (width, Text(fmt, f)) == Width(Text(fmt, start))
  {
    width, f := NO_WIDTH, start;
    if IsDigit(fmt[f]) {
      var i;
      i, f := SkipAtoi(fmt, f);
      TextAdvance(fmt, start, f - start);
      width := ToShort(i);
    }
  }

  /** The two loops of a suppressed conversion. */
  method Suppress(fmt: CString, start: nat, s: CString, p0: nat) returns (f: nat, p: nat)
    requires start < |fmt| && p0 < |s|
    ensures Achieves(Suppressed(Text(fmt, start), Text(s, p0), p0), Continue, fmt, f, s, p, [], 0)
  {
    f := SkipSuppressed(fmt, start);
    p := SkipWord(s, p0);
    TextAdvance(fmt, start, f - start);
    TextAdvance(s, p0, p - p0);
  }

  /** Everything from the character behind a `%` to the end of the loop body. */
  method RunDirective(fmt: CString, start: nat, s: CString, p0: nat)
    returns (exit: Exit, f: nat, p: nat, stores: seq<Store>, converted: nat)
    requires start < |fmt| && p0 < |s|
    ensures exit == Past <==> IsBare(Text(fmt, start))
    ensures Achieves(Directive(Text(fmt, start), Text(s, p0), p0), exit, fmt, f, s, p, stores, converted)
  {
    if fmt[start] == '*' {
      f, p := Suppress(fmt, start, s, p0);
      return Continue, f, p, [], 0;
    }
    var width;
    width, f := ReadWidth(fmt, start);
    exit, f, p, stores, converted := RunSized(fmt, f, s, p0, width);
  }

  /** The length modifier, the end-of-string test, and the conversion. */
  method RunSized(fmt: CString, start: nat, s: CString, p0: nat, width: int)
    returns (exit: Exit, f: nat, p: nat, stores: seq<Store>, converted: nat)
    requires start < |fmt| && p0 < |s| && -32768 <= width <= 32767
    ensures exit == Past <==> |Text(fmt, start)| == 1 && Text(fmt, start)[0] in "hl"
    ensures Achieves(SizedDirective(width, Text(fmt, start), Text(s, p0), p0), exit, fmt, f, s, p, stores, converted)
  {
    var doubled, q;
    doubled, q, f := ReadQualifier(fmt, start);
    if doubled {
      return Break, f, p0, [], 0;
    }
    if f == |fmt| {
      return Past, f, p0, [], 0;
    }
    if fmt[f] == '\0' || s[p0] == '\0' {
      return Break, f, p0, [], 0;
    }
    TextAdvance(fmt, f, 1);
    exit, p, stores, converted := RunConversion(fmt, f + 1, s, p0, fmt[f], width, q);
    f := f + 1;
  }

  /** The loop body behind the blanks: a literal character, the end of the format, or a directive. */
  method RunMatch(fmt: CString, f0: nat, s: CString, p0: nat)
    returns (exit: Exit, f: nat, p: nat, stores: seq<Store>, converted: nat)
    requires f0 < |fmt| && p0 < |s|
    ensures exit == Past <==> fmt[f0] == '%' && IsBare(Text(fmt, f0)[1..])
    ensures Achieves(Match(Text(fmt, f0), Text(s, p0), p0), exit, fmt, f, s, p, stores, converted)
  {
    hide Directive, IsBare;
    f, p := f0, p0;
    if fmt[f] == '\0' {
      return Break, f, p, [], 0;
    }
    TextAdvance(fmt, f0, 1);
    if fmt[f] != '%' {
      f, p := f + 1, p + 1;
      if fmt[f - 1] != s[p - 1] {
        return Break, f, p, [], 0;
      }
      TextAdvance(s, p0, 1);
      return Continue, f, p, [], 0;
    }
    exit, f, p, stores, converted := RunDirective(fmt, f + 1, s, p);
  }

  /** The loop body. */
  method RunTurn(fmt: CString, f0: nat, s: CString, p0: nat)
    returns (exit: Exit, f: nat, p: nat, stores: seq<Store>, converted: nat)
    requires f0 < |fmt| && fmt[f0] != '\0' && p0 < |s|
    ensures exit == Past <==> OverrunsNow(Text(fmt, f0))
    ensures Achieves(Turn(Text(fmt, f0), Text(s, p0), p0), exit, fmt, f, s, p, stores, converted)
  {
    f, p := SkipBlanks(fmt, f0, s, p0);
    exit, f, p, stores, converted := RunMatch(fmt, f, s, p);
  }

  /** A blank in the format skips blanks in both strings. */
  method SkipBlanks(fmt: CString, f0: nat, s: CString, p0: nat) returns (f: nat, p: nat)
    requires f0 < |fmt| && fmt[f0] != '\0' && p0 < |s|
    ensures f < |fmt| && p < |s|
    ensures (Text(fmt, f), Text(s, p), p) == Unblanked(Text(fmt, f0), Text(s, p0), p0)
  {
    f, p := f0, p0;
    if IsSpace(fmt[f]) {
      f := SkipSpaces(fmt, f + 1);
      BlankRun(fmt, f0, f);
      p := SkipSpaces(s, p);
    }
  }

  /** `pre_vsscanf`: the stores in the order of the pointer arguments, and the count. If the cursor
      passes the format's terminator, which it does in exactly the calls named, they are those made
      until then; what the code reads from there on is not in the format. */
  method PreVsscanf(s: CString, fmt: CString) returns (past: bool, num: nat, stores: seq<Store>)
    ensures past <==> Overruns(Text(fmt, 0), Text(s, 0), 0)
    ensures Result(num, stores) == Scan(Text(fmt, 0), Text(s, 0), 0)
  {
    hide Overruns, OverrunsNow, Turn, Scan, Trailing;
    var f: nat, p: nat := 0, 0;
    past, num, stores := false, 0, [];
    ghost var total, stopped := Scan(Text(fmt, 0), Text(s, 0), 0), false;
    while fmt[f] != '\0' && s[p] != '\0'
      invariant f < |fmt| && p < |s| && !stopped
      invariant Overruns(Text(fmt, 0), Text(s, 0), 0) <==> Overruns(Text(fmt, f), Text(s, p), p)
      invariant total == After(num, stores, Scan(Text(fmt, f), Text(s, p), p))
      decreases |fmt| - f
    {
      Unfold(num, stores, Text(fmt, f), Text(s, p), p);
      UnfoldOverruns(Text(fmt, f), Text(s, p), p);
      var exit, more, converted;
      ghost var fmt0, inp0, used0 := Text(fmt, f), Text(s, p), p;
      exit, f, p, more, converted := RunTurn(fmt, f, s, p);
      if exit == Past {
        StopsWhenBare(fmt0, inp0, used0);
        return true, num, stores;
      }
      if exit == Break {
        stopped := true;
        break;
      }
      if exit == Return {
        return;
      }
      num, stores := num + converted, stores + more;
    }
    // The input or the format ended, or something did not match.
    if !stopped {
      ScanEnds(Text(fmt, f), Text(s, p), p);
    }
    assert total == After(num, stores, Trailing(Text(fmt, f), p));
    TrailingRule(fmt, f, p);
    if fmt[f] == '%' && fmt[f + 1] == 'n' {
      stores := stores + [Position(p)];
    }
  }

  /** A turn that steps over the terminator has stored nothing and there is nothing behind it. */
  lemma StopsWhenBare(fmt: string, inp: string, used: nat)
    requires fmt != "" && OverrunsNow(fmt)
    ensures Turn(fmt, inp, used).Stop? && Turn(fmt, inp, used).fmt == ""
    ensures Trailing(Turn(fmt, inp, used).fmt, Turn(fmt, inp, used).used) == Result(0, [])
  {
  }

  lemma UnfoldOverruns(fmt: string, inp: string, used: nat)
    requires fmt != "" && inp != ""
    ensures var o := Turn(fmt, inp, used);
            Overruns(fmt, inp, used) <==> OverrunsNow(fmt) || (o.Next? && Overruns(o.fmt, o.inp, o.used))
  {
    hide Turn, OverrunsNow;
  }

  lemma ScanEnds(fmt: string, inp: string, used: nat)
    requires fmt == "" || inp == ""
    ensures Scan(fmt, inp, used) == Trailing(fmt, used) && !Overruns(fmt, inp, used)
  {
  }

  lemma Unfold(num: nat, stores: seq<Store>, fmt: string, inp: string, used: nat)
    requires fmt != "" && inp != ""
    ensures After(num, stores, Scan(fmt, inp, used)) ==
            match Turn(fmt, inp, used)
            case Next(f, i, u, more, n) => After(num + n, stores + more, Scan(f, i, u))
            case Stop(f, u) => After(num, stores, Trailing(f, u))
            case Quit => Result(num, stores)
  {
  }

  lemma BlankRun(fmt: CString, start: nat, f: nat)
    requires start + 1 < |fmt| && IsSpace(fmt[start])
    requires f < |fmt| && Text(fmt, f) == DropSpaces(Text(fmt, start + 1))
    ensures Text(fmt, f) == DropSpaces(Text(fmt, start))
  {
    assert Text(fmt, start)[1..] == Text(fmt, start + 1);
  }

  lemma TrailingRule(fmt: CString, f: nat, used: nat)
    requires f < |fmt|
    ensures Trailing(Text(fmt, f), used).count == 0
    ensures Trailing(Text(fmt, f), used).stores
            == if fmt[f] == '%' && fmt[f + 1] == 'n' then [Position(used)] else []
  {
  }
}
