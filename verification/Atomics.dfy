/** The LDREX/STREX retry loops on one shared word: any number of callers, each
    instruction one step, a switch of caller possible between any two of them. The
    local exclusive monitor is cleared by every exception, so by every switch. */
module Atomics {
  import opened Options
  import opened Words

  datatype Op =
    | Read
    | Set(value: Int32)
    | Add(value: Int32)
    | Sub(value: Int32)
    | Exchange(value: Int32)
    | CompareExchange(value: Int32, expected: Int32)

  // ---------- What the operations mean one at a time ----------

  function NewValue(op: Op, w: Int32): Int32 {
    match op
    case Read => w
    case Set(v) => v
    case Add(v) => Wrap32(w + v)
    case Sub(v) => Wrap32(w - v)
    case Exchange(v) => v
    case CompareExchange(v, expected) => if w == expected then v else w
  }

  /** What the caller gets back: the new value, the previous value, or for a compare
      whether the word was different (a `BOOL`). `Set` returns nothing. */
  function Returned(op: Op, w: Int32): Int32 {
    match op
    case Read => w
    case Set(_) => 0
    case Add(v) => Wrap32(w + v)
    case Sub(v) => Wrap32(w - v)
    case Exchange(_) => w
    case CompareExchange(_, expected) => if w == expected then 0 else 1
  }

  /** One operation in the order in which operations took effect. */
  datatype Event = Event(caller: nat, op: Op, ret: Int32)

  function Replay(initial: Int32, history: seq<Event>): Int32 {
    if history == [] then initial
    else NewValue(history[|history| - 1].op, Replay(initial, history[..|history| - 1]))
  }

  /** Every operation returned what it returns when it runs alone after those before it. */
  predicate Explained(initial: Int32, history: seq<Event>) {
    forall k :: 0 <= k < |history| ==> history[k].ret == Returned(history[k].op, Replay(initial, history[..k]))
  }

  /** What one caller did, in the order of its own calls. */
  function Calls(history: seq<Event>, caller: nat): seq<(Op, Int32)> {
    if history == [] then []
    else
      var last := history[|history| - 1];
      Calls(history[..|history| - 1], caller) + (if last.caller == caller then [(last.op, last.ret)] else [])
  }

  lemma ReplayAppend(initial: Int32, history: seq<Event>, e: Event)
    ensures Replay(initial, history + [e]) == NewValue(e.op, Replay(initial, history))
    ensures forall c :: Calls(history + [e], c) == Calls(history, c) + (if e.caller == c then [(e.op, e.ret)] else [])
    ensures Explained(initial, history) && e.ret == Returned(e.op, Replay(initial, history))
            ==> Explained(initial, history + [e])
  {
    var all := history + [e];
    assert all[..|history|] == history;
    if Explained(initial, history) && e.ret == Returned(e.op, Replay(initial, history)) {
      forall k | 0 <= k < |all| ensures all[k].ret == Returned(all[k].op, Replay(initial, all[..k])) {
        if k < |history| {
          assert all[..k] == history[..k];
        }
      }
    }
  }

  // ---------- The machine ----------

  /** The instructions of the loops, in the order in which they can come. */
  datatype Pc = Ldrex | Arith | ClearStatus | Cmp | Bne | Strex | Test | Return

  /** A call in progress: its registers, and how often it failed and was preempted. */
  datatype Call = Call(op: Op, pc: Pc, val: Int32, status: int, equal: bool,
                       failures: nat, preemptions: nat, executed: nat)

  /** A finished call. */
  datatype Finished = Finished(op: Op, ret: Int32, failures: nat, preemptions: nat, executed: nat)

  datatype Caller = Caller(call: Option<Call>, finished: seq<Finished>)

  datatype State = State(word: Int32, exclusive: bool, running: nat, callers: seq<Caller>, history: seq<Event>)

  predicate WellFormed(s: State) { s.running < |s.callers| }

  function Init(n: nat, word: Int32, first: nat): State
    requires first < n
  {
    State(word, false, first, seq(n, _ => Caller(None, [])), [])
  }

  datatype Action =
    | Begin(op: Op)        // the running caller calls an operation
    | Execute              // the running caller executes one instruction
    | Preempt(next: nat)   // an exception: another caller, or the same one, goes on

  /** The value a call stores if its STREX succeeds. */
  function Stored(c: Call): Int32 {
    match c.op
    case Set(v) => v
    case Exchange(v) => v
    case CompareExchange(v, _) => v
    case _ => c.val
  }

  /** The value a call returns from its registers. */
  function Result(c: Call): Int32 {
    match c.op
    case Set(_) => 0
    case CompareExchange(_, expected) => if c.val != expected then 1 else 0
    case _ => c.val
  }

  /** One instruction on the registers of a call, given the word and the monitor. */
  function Registers(c: Call, word: Int32, exclusive: bool): Call {
    var c := c.(executed := c.executed + 1);
    match c.pc
    case Ldrex =>
      var loaded := c.(val := word);
      (match c.op
       case Read => loaded.(pc := Return)
       case Set(_) => loaded.(status := word, pc := Strex)
       case Add(_) => loaded.(pc := Arith)
       case Sub(_) => loaded.(pc := Arith)
       case Exchange(_) => loaded.(pc := Strex)
       case CompareExchange(_, _) => loaded.(pc := ClearStatus))
    case Arith =>
      c.(val := if c.op.Sub? then Wrap32(c.val - c.op.value) else if c.op.Add? then Wrap32(c.val + c.op.value) else c.val,
         pc := Strex)
    case ClearStatus => c.(status := 0, pc := Cmp)
    case Cmp => c.(equal := c.op.CompareExchange? && c.val == c.op.expected, pc := Bne)
    case Bne => c.(pc := if c.equal then Strex else Test)
    case Strex =>
      if exclusive then c.(status := 0, pc := Test)
      else c.(status := 1, pc := Test, failures := c.failures + 1)
    case Test => c.(pc := if c.status != 0 then Ldrex else Return)
    case Return => c
  }

  /** The instruction at which an operation takes effect: a successful STREX, or the
      LDREX of a read or of a compare that fails. */
  predicate TakesEffect(c: Call, word: Int32, exclusive: bool) {
    || (c.pc == Strex && exclusive)
    || (c.pc == Ldrex && c.op.Read?)
    || (c.pc == Ldrex && c.op.CompareExchange? && word != c.op.expected)
  }

  function Next(s: State, a: Action): State
    requires WellFormed(s)
  {
    var me := s.callers[s.running];
    match a
    case Begin(op) =>
      if me.call.Some? then s
      else s.(callers := s.callers[s.running := me.(call := Some(Call(op, Ldrex, 0, 0, false, 0, 0, 0)))])
    case Execute =>
      if me.call.None? then s
      else
        var c := me.call.value;
        if c.pc == Return then
          s.(callers := s.callers[s.running :=
               Caller(None, me.finished + [Finished(c.op, Result(c), c.failures, c.preemptions, c.executed)])])
        else
          s.(word := if c.pc == Strex && s.exclusive then Stored(c) else s.word,
             exclusive := if c.pc == Ldrex then true else if c.pc == Strex then false else s.exclusive,
             callers := s.callers[s.running := me.(call := Some(Registers(c, s.word, s.exclusive)))],
             history := if TakesEffect(c, s.word, s.exclusive)
                        then s.history + [Event(s.running, c.op, Returned(c.op, s.word))] else s.history)
    case Preempt(next) =>
      if next >= |s.callers| then s
      else
        var paused := if me.call.None? then me
                      else me.(call := Some(me.call.value.(preemptions := me.call.value.preemptions + 1)));
        s.(running := next, exclusive := false, callers := s.callers[s.running := paused])
  }

  function Run(s: State, actions: seq<Action>): (s': State)
    requires WellFormed(s)
    ensures WellFormed(s') && |s'.callers| == |s.callers|
    decreases |actions|
  {
    if actions == [] then s else Run(Next(s, actions[0]), actions[1..])
  }

  // ---------- The invariant ----------

  /** The call has taken effect and is on its way out. */
  predicate Effective(c: Call) {
    match c.op
    case Read => c.pc == Return
    case CompareExchange(_, expected) =>
      (c.pc != Ldrex && c.val != expected) || (c.pc == Test && c.status == 0) || c.pc == Return
    case _ => (c.pc == Test && c.status == 0) || c.pc == Return
  }

  /** Between its LDREX and its STREX, and not yet effective. */
  predicate InWindow(c: Call) {
    c.pc in {Arith, ClearStatus, Cmp, Bne, Strex} && !Effective(c)
  }

  /** The registers still describe the word: storing now is the operation. */
  predicate Linked(c: Call, word: Int32) {
    match c.op
    case Read => true
    case Set(_) => true
    case Add(v) => if c.pc == Arith then c.val == word else c.val == Wrap32(word + v)
    case Sub(v) => if c.pc == Arith then c.val == word else c.val == Wrap32(word - v)
    case Exchange(_) => c.val == word
    case CompareExchange(_, expected) => c.val == word == expected
  }

  /** The instructions belong to the operation. */
  predicate PcFits(c: Call) {
    match c.op
    case Read => c.pc in {Ldrex, Return}
    case Add(_) => c.pc in {Ldrex, Arith, Strex, Test, Return}
    case Sub(_) => c.pc in {Ldrex, Arith, Strex, Test, Return}
    case CompareExchange(_, expected) =>
      && c.pc != Arith
      && (c.pc in {Cmp, Bne} ==> c.status == 0)
      && (c.pc == Bne ==> c.equal == (c.val == expected))
      && (c.pc == Strex ==> c.val == expected)
      && (c.pc == Test && c.val != expected ==> c.status == 0)
    case _ => c.pc in {Ldrex, Strex, Test, Return}
  }

  function PcIndex(pc: Pc): nat {
    match pc
    case Ldrex => 0
    case Arith => 1
    case ClearStatus => 1
    case Cmp => 2
    case Bne => 3
    case Strex => 4
    case Test => 5
    case Return => 6
  }

  predicate CallOk(c: Call, word: Int32, live: bool) {
    && PcFits(c)
    && c.failures <= c.preemptions
    && (InWindow(c) && live ==> Linked(c, word))
    && (InWindow(c) && !live ==> c.failures < c.preemptions)
    && (if c.pc == Test && c.status != 0 then c.executed < 6 * c.failures
        else c.executed <= 6 * c.failures + PcIndex(c.pc))
  }

  predicate FinishedOk(f: Finished) {
    f.failures <= f.preemptions && f.executed <= 6 * (f.preemptions + 1)
  }

  /** What a caller's calls amount to so far, the one in progress included once it
      has taken effect. */
  function Done(c: Caller): seq<(Op, Int32)> {
    Outcomes(c.finished)
    + (if c.call.Some? && Effective(c.call.value) then [(c.call.value.op, Result(c.call.value))] else [])
  }

  function Outcomes(fs: seq<Finished>): seq<(Op, Int32)> {
    seq(|fs|, k requires 0 <= k < |fs| => (fs[k].op, fs[k].ret))
  }

  predicate CallerOk(s: State, t: nat)
    requires t < |s.callers|
  {
    var c := s.callers[t];
    && (c.call.Some? ==> CallOk(c.call.value, s.word, t == s.running && s.exclusive))
    && (forall k :: 0 <= k < |c.finished| ==> FinishedOk(c.finished[k]))
    && Calls(s.history, t) == Done(c)
  }

  /** The word is the replay of the operations in the order they took effect, every
      one of them returned what it should, and every caller's own calls are in it. */
  predicate Inv(s: State, initial: Int32) {
    && WellFormed(s)
    && s.word == Replay(initial, s.history)
    && Explained(initial, s.history)
    && forall t :: 0 <= t < |s.callers| ==> CallerOk(s, t)
  }

  // ---------- Every run ----------

  function WordAfter(c: Call, word: Int32, exclusive: bool): Int32 {
    if c.pc == Strex && exclusive then Stored(c) else word
  }

  function ExclusiveAfter(c: Call, exclusive: bool): bool {
    if c.pc == Ldrex then true else if c.pc == Strex then false else exclusive
  }

  /** One instruction keeps a call consistent, and takes effect at most once, then as
      the operation on the word of that moment. */
  lemma InstructionOk(c: Call, word: Int32, exclusive: bool)
    requires CallOk(c, word, exclusive) && c.pc != Return
    ensures var c' := Registers(c, word, exclusive);
            && CallOk(c', WordAfter(c, word, exclusive), ExclusiveAfter(c, exclusive))
            && (Effective(c') <==> Effective(c) || TakesEffect(c, word, exclusive))
            && (Effective(c) ==> !TakesEffect(c, word, exclusive) && Result(c') == Result(c))
            && (TakesEffect(c, word, exclusive) ==> Result(c') == Returned(c.op, word))
            && WordAfter(c, word, exclusive) == if TakesEffect(c, word, exclusive) then NewValue(c.op, word) else word
  {
    hide Wrap32;
  }

  /** Others are not affected by the word or the monitor while they do not run. */
  lemma NotLive(c: Call, word: Int32, word': Int32)
    requires CallOk(c, word, false)
    ensures CallOk(c, word', false)
  {
    hide Wrap32, Linked;
  }

  lemma PreemptedOk(c: Call, word: Int32, live: bool)
    requires CallOk(c, word, live)
    ensures CallOk(c.(preemptions := c.preemptions + 1), word, false)
    ensures Effective(c.(preemptions := c.preemptions + 1)) == Effective(c)
  {
    hide Wrap32, Linked;
  }

  lemma {:induction false} CallsUnchanged(history: seq<Event>, e: Event, t: nat)
    requires e.caller != t
    ensures Calls(history + [e], t) == Calls(history, t)
  {
    assert (history + [e])[..|history|] == history;
  }

  lemma ExecuteOthers(s: State, initial: Int32, t: nat)
    requires Inv(s, initial) && s.callers[s.running].call.Some? && s.callers[s.running].call.value.pc != Return
    requires t < |s.callers| && t != s.running
    ensures CallerOk(Next(s, Execute), t)
  {
    hide Wrap32, Returned, Registers, TakesEffect, CallOk, Effective, Result, Stored, Calls, Replay, Explained;
    var s', c := Next(s, Execute), s.callers[s.running].call.value;
    assert CallerOk(s, t);
    CallsUnchanged(s.history, Event(s.running, c.op, Returned(c.op, s.word)), t);
    if s.callers[t].call.Some? {
      NotLive(s.callers[t].call.value, s.word, s'.word);
    }
  }

  lemma ExecuteMine(s: State, initial: Int32)
    requires Inv(s, initial) && s.callers[s.running].call.Some? && s.callers[s.running].call.value.pc != Return
    ensures var s' := Next(s, Execute);
            s'.word == Replay(initial, s'.history) && Explained(initial, s'.history) && CallerOk(s', s.running)
  {
    hide Wrap32, NewValue, Returned, Registers, TakesEffect, CallOk, Effective, Result, Stored, Explained, Replay, Calls;
    var c := s.callers[s.running].call.value;
    assert CallerOk(s, s.running);
    InstructionOk(c, s.word, s.exclusive);
    ReplayAppend(initial, s.history, Event(s.running, c.op, Returned(c.op, s.word)));
    RegistersKeepOp(c, s.word, s.exclusive);
  }

  lemma RegistersKeepOp(c: Call, word: Int32, exclusive: bool)
    ensures Registers(c, word, exclusive).op == c.op
  {
  }

  lemma ExecuteOk(s: State, initial: Int32)
    requires Inv(s, initial) && s.callers[s.running].call.Some?
    ensures Inv(Next(s, Execute), initial)
  {
    hide Registers, TakesEffect, CallerOk, Returned, Stored, Explained, Replay;
    if s.callers[s.running].call.value.pc == Return {
      ReturnOk(s, initial);
    } else {
      var s' := Next(s, Execute);
      ExecuteMine(s, initial);
      forall t | 0 <= t < |s'.callers| ensures CallerOk(s', t) {
        if t != s.running {
          ExecuteOthers(s, initial, t);
        }
      }
    }
  }

  lemma ReturnOk(s: State, initial: Int32)
    requires Inv(s, initial) && s.callers[s.running].call.Some? && s.callers[s.running].call.value.pc == Return
    ensures Inv(Next(s, Execute), initial)
  {
    hide Wrap32, NewValue, Returned, Registers, TakesEffect, Stored, Result, Linked;
    var s', me := Next(s, Execute), s.callers[s.running];
    var c := me.call.value;
    var f := Finished(c.op, Result(c), c.failures, c.preemptions, c.executed);
    assert CallerOk(s, s.running);
    assert Outcomes(me.finished + [f]) == Outcomes(me.finished) + [(c.op, Result(c))];
    assert FinishedOk(f);
    forall t | 0 <= t < |s'.callers| ensures CallerOk(s', t) {
      assert CallerOk(s, t);
    }
  }

  lemma BeginOk(s: State, initial: Int32, op: Op)
    requires Inv(s, initial)
    ensures Inv(Next(s, Begin(op)), initial)
  {
    hide Wrap32, Linked, Result;
    var s' := Next(s, Begin(op));
    forall t | 0 <= t < |s'.callers| ensures CallerOk(s', t) {
      assert CallerOk(s, t);
    }
  }

  lemma PreemptOk(s: State, initial: Int32, next: nat)
    requires Inv(s, initial)
    ensures Inv(Next(s, Preempt(next)), initial)
  {
    hide CallOk, Effective;
    var s' := Next(s, Preempt(next));
    forall t | 0 <= t < |s'.callers| ensures CallerOk(s', t) {
      assert CallerOk(s, t);
      if s.callers[t].call.Some? && t == s.running && next < |s.callers| {
        PreemptedOk(s.callers[t].call.value, s.word, s.exclusive);
      }
    }
  }

  /** Linearizability: from the start, under every choice of calls, instructions and
      preemptions, the invariant holds. */
  lemma {:induction false} EveryRun(s: State, initial: Int32, actions: seq<Action>)
    requires Inv(s, initial)
    ensures Inv(Run(s, actions), initial)
    decreases |actions|
  {
    if actions != [] {
      match actions[0] {
        case Begin(op) => BeginOk(s, initial, op);
        case Execute => if s.callers[s.running].call.Some? { ExecuteOk(s, initial); }
        case Preempt(next) => PreemptOk(s, initial, next);
      }
      EveryRun(Next(s, actions[0]), initial, actions[1..]);
    }
  }

  /** In every run, each caller's operations in the order are exactly its finished calls, with what
      they returned, and its call in progress if that has taken effect. */
  lemma Linearizable(n: nat, word: Int32, first: nat, actions: seq<Action>)
    requires first < n
    ensures var s := Run(Init(n, word, first), actions);
            && s.word == Replay(word, s.history)
            && Explained(word, s.history)
            && (forall t :: 0 <= t < n ==> Calls(s.history, t) == Done(s.callers[t]))
            && (forall t, k :: 0 <= t < n && 0 <= k < |s.callers[t].finished| ==> FinishedOk(s.callers[t].finished[k]))
  {
    var s0 := Init(n, word, first);
    InitOk(n, word, first);
    EveryRun(s0, word, actions);
    Consequences(Run(s0, actions), word);
  }

  lemma InitOk(n: nat, word: Int32, first: nat)
    requires first < n
    ensures Inv(Init(n, word, first), word)
  {
    var s0 := Init(n, word, first);
    assert forall t :: 0 <= t < n ==> CallerOk(s0, t);
  }

  lemma Consequences(s: State, initial: Int32)
    requires Inv(s, initial)
    ensures forall t :: 0 <= t < |s.callers| ==> Calls(s.history, t) == Done(s.callers[t])
    ensures forall t, k :: 0 <= t < |s.callers| && 0 <= k < |s.callers[t].finished| ==>
              FinishedOk(s.callers[t].finished[k])
  {
    hide Calls, CallOk, Effective, Result;
    forall t | 0 <= t < |s.callers|
      ensures Calls(s.history, t) == Done(s.callers[t])
      ensures forall k :: 0 <= k < |s.callers[t].finished| ==> FinishedOk(s.callers[t].finished[k])
    {
      assert CallerOk(s, t);
    }
  }

  /** Operations never disappear from the order or change places in it. */
  lemma {:induction false} HistoryGrows(s: State, actions: seq<Action>)
    requires WellFormed(s)
    ensures s.history <= Run(s, actions).history
    decreases |actions|
  {
    if actions != [] {
      HistoryGrows(Next(s, actions[0]), actions[1..]);
    }
  }

  /** The place in the order of a caller's operation number `k`. */
  predicate IsNumber(history: seq<Event>, caller: nat, k: nat, i: nat) {
    i < |history| && history[i].caller == caller && |Calls(history[..i], caller)| == k
  }

  lemma {:induction false} CallsOfPrefix(history: seq<Event>, i: nat, caller: nat)
    requires i <= |history|
    ensures |Calls(history[..i], caller)| <= |Calls(history, caller)|
    ensures Calls(history[..i], caller) <= Calls(history, caller)
    decreases |history|
  {
    if i < |history| {
      assert history[..|history| - 1][..i] == history[..i];
      CallsOfPrefix(history[..|history| - 1], i, caller);
    } else {
      assert history[..i] == history;
    }
  }

  lemma CallsAtNumber(history: seq<Event>, caller: nat, k: nat, i: nat)
    requires IsNumber(history, caller, k, i)
    ensures |Calls(history[..i + 1], caller)| == k + 1
    ensures Calls(history[..i + 1], caller)[k] == (history[i].op, history[i].ret)
  {
    assert history[..i + 1][..i] == history[..i];
  }

  /** Every operation of a caller has its place in the order. */
  lemma {:induction false} PlaceOf(history: seq<Event>, caller: nat, k: nat) returns (i: nat)
    requires k < |Calls(history, caller)|
    ensures IsNumber(history, caller, k, i) && (history[i].op, history[i].ret) == Calls(history, caller)[k]
    decreases |history|
  {
    var front := history[..|history| - 1];
    if k < |Calls(front, caller)| {
      i := PlaceOf(front, caller, k);
      assert front[..i] == history[..i];
    } else {
      i := |history| - 1;
    }
  }

  /** Every finished call took effect, at one place in the order, with what it returned. */
  lemma FinishedTookEffect(n: nat, word: Int32, first: nat, actions: seq<Action>, t: nat, k: nat) returns (i: nat)
    requires first < n && t < n
    requires k < |Run(Init(n, word, first), actions).callers[t].finished|
    ensures var s := Run(Init(n, word, first), actions);
            var f := s.callers[t].finished[k];
            IsNumber(s.history, t, k, i) && s.history[i] == Event(t, f.op, f.ret)
  {
    hide Calls, Run;
    Linearizable(n, word, first, actions);
    i := PlaceOf(Run(Init(n, word, first), actions).history, t, k);
  }

  /** With the word `p` before it and `q` after it: a read returns the word, a set stores, an addition or a
      subtraction stores and returns the wrapped result, an exchange returns what it replaced, and a
      compare stores and says that nothing differed if and only if the word was the expected one. */
  predicate Means(op: Op, p: Int32, q: Int32, ret: Int32) {
    match op
    case Read => ret == p && q == p
    case Set(v) => q == v
    case Add(v) => ret == q && q == Wrap32(p + v)
    case Sub(v) => ret == q && q == Wrap32(p - v)
    case Exchange(v) => ret == p && q == v
    case CompareExchange(v, expected) =>
      if p == expected then ret == 0 && q == v else ret == 1 && q == p
  }

  lemma OperationMeans(op: Op, p: Int32)
    ensures Means(op, p, NewValue(op, p), Returned(op, p))
  {
    hide Wrap32;
  }

  lemma EventMeans(initial: Int32, history: seq<Event>, i: nat)
    requires Explained(initial, history) && i < |history|
    ensures Means(history[i].op, Replay(initial, history[..i]), Replay(initial, history[..i + 1]), history[i].ret)
  {
    hide Means, NewValue, Returned;
    assert history[..i + 1][..i] == history[..i];
    OperationMeans(history[i].op, Replay(initial, history[..i]));
  }

  /** Every finished call did what its operation means, on the word as it was when it took effect. */
  lemma FinishedMeans(n: nat, word: Int32, first: nat, actions: seq<Action>, t: nat, k: nat) returns (i: nat)
    requires first < n && t < n
    requires k < |Run(Init(n, word, first), actions).callers[t].finished|
    ensures var s := Run(Init(n, word, first), actions);
            var f := s.callers[t].finished[k];
            && IsNumber(s.history, t, k, i)
            && Means(f.op, Replay(word, s.history[..i]), Replay(word, s.history[..i + 1]), f.ret)
  {
    hide Calls, Run, Done, Means, Replay, Explained;
    i := FinishedTookEffect(n, word, first, actions, t, k);
    Linearizable(n, word, first, actions);
    EventMeans(word, Run(Init(n, word, first), actions).history, i);
  }

  /** The order respects real time. When call number `a` of one caller has returned and call number
      `b` of another has not begun, then however the run goes on the first comes before the second. */
  lemma RealTime(n: nat, word: Int32, first: nat, before: seq<Action>, after: seq<Action>,
                 t: nat, a: nat, i: nat, u: nat, b: nat, j: nat)
    requires first < n && t < n && u < n
    requires var s := Run(Init(n, word, first), before);
             a < |s.callers[t].finished| && s.callers[u].call.None? && b >= |s.callers[u].finished|
    requires var history := Run(Run(Init(n, word, first), before), after).history;
             IsNumber(history, t, a, i) && IsNumber(history, u, b, j)
    ensures i < j
  {
    hide Calls, Run, Replay, Explained;
    var s := Run(Init(n, word, first), before);
    var history := Run(s, after).history;
    Linearizable(n, word, first, before);
    HistoryGrows(s, after);
    var m := |s.history|;
    assert history[..m] == s.history;
    if i >= m {
      assert history[..i][..m] == s.history;
      CallsOfPrefix(history[..i], m, t);
    }
    if j < m {
      CallsAtNumber(history, u, b, j);
      assert s.history[..j + 1] == history[..j + 1];
      CallsOfPrefix(s.history, j + 1, u);
    }
  }

  /** `n` instructions of the running caller in a row. */
  function Steps(s: State, n: nat): (s': State)
    requires WellFormed(s)
    ensures WellFormed(s')
    decreases n
  {
    if n == 0 then s else Steps(Next(s, Execute), n - 1)
  }

  /** The running call of `op`, begun when the word was `w0`, has not been disturbed. */
  predicate OnCourse(s: State, op: Op, w0: Int32)
    requires WellFormed(s)
  {
    var me := s.callers[s.running];
    && me.call.Some?
    && var c := me.call.value;
       && c.op == op && c.failures == 0
       && (InWindow(c) ==> s.exclusive)
       && (c.pc == Test ==> c.status == 0)
       && (if Effective(c) then s.word == NewValue(op, w0) && Result(c) == Returned(op, w0) else s.word == w0)
  }

  lemma StaysOnCourse(s: State, initial: Int32, op: Op, w0: Int32)
    requires Inv(s, initial) && OnCourse(s, op, w0) && s.callers[s.running].call.value.pc != Return
    ensures var s' := Next(s, Execute);
            && OnCourse(s', op, w0) && s'.running == s.running && |s'.callers| == |s.callers|
            && s'.callers[s.running].finished == s.callers[s.running].finished
            && PcIndex(s'.callers[s.running].call.value.pc) > PcIndex(s.callers[s.running].call.value.pc)
  {
    hide Wrap32, Replay, Explained, Calls, Linked;
    assert CallerOk(s, s.running);
    var c := s.callers[s.running].call.value;
    InstructionOk(c, s.word, s.exclusive);
    ReadsDoNotWrite(c.op, w0);
  }

  /** A compare that fails and a read leave the word alone. */
  lemma ReadsDoNotWrite(op: Op, w: Int32)
    ensures op.Read? || (op.CompareExchange? && w != op.expected) ==> NewValue(op, w) == w
  {
  }

  lemma {:induction false} OnCourseFinishes(s: State, initial: Int32, s0: State, op: Op) returns (n: nat)
    requires WellFormed(s0) && Inv(s, initial) && OnCourse(s, op, s0.word)
    requires s.running == s0.running && |s.callers| == |s0.callers|
    requires s.callers[s.running].finished == s0.callers[s.running].finished
    ensures n <= 7 - PcIndex(s.callers[s.running].call.value.pc)
    ensures FinishedWith(Steps(s, n), s0, op)
    decreases 7 - PcIndex(s.callers[s.running].call.value.pc)
  {
    hide Wrap32, NewValue, Returned, Registers, TakesEffect, CallOk, CallerOk, Result, Stored;
    hide Replay, Explained, Calls, InWindow;
    if s.callers[s.running].call.value.pc == Return {
      assert Steps(s, 1) == Steps(Next(s, Execute), 0);
      return 1;
    }
    StaysOnCourse(s, initial, op, s0.word);
    ExecuteOk(s, initial);
    var m := OnCourseFinishes(Next(s, Execute), initial, s0, op);
    return m + 1;
  }

  /** A call that is not preempted takes at most seven steps, never retries, and does
      exactly the operation. */
  lemma UndisturbedCallFinishes(s: State, initial: Int32, op: Op) returns (n: nat)
    requires Inv(s, initial) && s.callers[s.running].call.None?
    ensures n <= 7 && FinishedWith(Steps(Next(s, Begin(op)), n), s, op)
  {
    BeginOk(s, initial, op);
    n := OnCourseFinishes(Next(s, Begin(op)), initial, s, op);
  }

  predicate FinishedWith(s': State, s: State, op: Op)
    requires WellFormed(s)
  {
    && s'.running == s.running && |s'.callers| == |s.callers|
    && s'.word == NewValue(op, s.word)
    && var me, me' := s.callers[s.running], s'.callers[s.running];
       && me'.call.None?
       && |me'.finished| == |me.finished| + 1
       && me'.finished[|me.finished|].ret == Returned(op, s.word)
       && me'.finished[|me.finished|].failures == 0
  }
}
