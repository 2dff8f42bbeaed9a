/** The retry loops in the form the source gives them, against an environment that may
    preempt between any two instructions and run any operations of other callers. */
module AtomicLoops {
  import opened Words
  import opened Atomics

  /** Between two histories only callers other than `me` did anything. */
  predicate OthersOnly(before: seq<Event>, after: seq<Event>, me: nat) {
    before <= after && forall k :: |before| <= k < |after| ==> after[k].caller != me
  }

  lemma OthersNone(h: seq<Event>, me: nat)
    ensures OthersOnly(h, h, me)
  {
  }

  lemma OthersMore(before: seq<Event>, after: seq<Event>, me: nat, e: Event)
    requires OthersOnly(before, after, me) && e.caller != me
    ensures OthersOnly(before, after + [e], me)
  {
  }

  /** Between two histories `me` did exactly one thing, with that outcome. */
  ghost predicate DidOnce(before: seq<Event>, after: seq<Event>, me: nat, op: Op, ret: Int32) {
    && before <= after
    && exists k :: |before| <= k < |after| && after[k] == Event(me, op, ret)
                && forall j :: |before| <= j < |after| && j != k ==> after[j].caller != me
  }

  lemma DidThenOthers(before: seq<Event>, at: seq<Event>, after: seq<Event>, me: nat, op: Op, ret: Int32)
    requires OthersOnly(before, at, me) && OthersOnly(at + [Event(me, op, ret)], after, me)
    ensures DidOnce(before, after, me, op, ret)
  {
    assert after[|at|] == Event(me, op, ret);
  }

  /** Operation number `k` of the order is the one thing that `me` did between two histories. */
  ghost predicate Once(before: seq<Event>, after: seq<Event>, me: nat, k: nat) {
    && before <= after && |before| <= k < |after| && after[k].caller == me
    && forall j :: |before| <= j < |after| && j != k ==> after[j].caller != me
  }

  lemma OnceAt(initial: Int32, before: seq<Event>, after: seq<Event>, me: nat, op: Op, ret: Int32) returns (k: nat)
    requires DidOnce(before, after, me, op, ret) && Explained(initial, after)
    ensures Once(before, after, me, k)
    ensures ret == Returned(op, Replay(initial, after[..k]))
    ensures Replay(initial, after[..k + 1]) == NewValue(op, Replay(initial, after[..k]))
  {
    hide Returned, NewValue, Wrap32;
    k :| |before| <= k < |after| && after[k] == Event(me, op, ret)
         && forall j :: |before| <= j < |after| && j != k ==> after[j].caller != me;
    assert after[..k + 1][..k] == after[..k];
  }

  /** A core: the shared word, the monitor, and the preemptions still to come. */
  class Core {
    var word: Int32
    var exclusive: bool
    var preemptions: nat       // preemptions so far
    var budget: nat            // preemptions still to come: finitely many
    ghost const initial: Int32
    ghost var history: seq<Event>

    constructor (w: Int32, n: nat)
      ensures Valid() && word == w && budget == n && history == []
    {
      word, exclusive, preemptions, budget := w, false, 0, n;
      initial, history := w, [];
    }

    ghost predicate Valid()
      reads `word, `history
    {
      word == Replay(initial, history) && Explained(initial, history)
    }

    /** What may happen between two instructions: nothing, or a preemption, which clears
        the monitor and lets other callers do any operations. */
    method Interlude(me: nat, ghost since: seq<Event>)
      requires Valid() && OthersOnly(since, history, me)
      modifies this
      ensures Valid() && OthersOnly(since, history, me)
      ensures preemptions + budget == old(preemptions + budget) && preemptions >= old(preemptions)
      ensures preemptions == old(preemptions) ==>
        word == old(word) && exclusive == old(exclusive) && history == old(history)
      ensures preemptions > old(preemptions) ==> !exclusive
    {
      hide Valid, OthersOnly, NewValue;
      var preempted: bool := *;
      if preempted && budget > 0 {
        budget, preemptions, exclusive := budget - 1, preemptions + 1, false;
        var others: seq<(nat, Op)> :| forall k :: 0 <= k < |others| ==> others[k].0 != me;
        for i := 0 to |others|
          invariant Valid() && OthersOnly(since, history, me)
          invariant preemptions + budget == old(preemptions + budget) && preemptions > old(preemptions) && !exclusive
        {
          Other(me, others[i].0, others[i].1, since);
        }
      }
    }

    /** One operation of another caller. */
    method Other(me: nat, caller: nat, op: Op, ghost since: seq<Event>)
      requires Valid() && OthersOnly(since, history, me) && caller != me
      modifies this`word, this`history
      ensures Valid() && OthersOnly(since, history, me)
    {
      hide OthersOnly;
      OthersMore(since, history, me, Event(caller, op, Returned(op, word)));
      Note(caller, op);
      word := NewValue(op, word);
    }

    /** Notes that an operation takes effect now; the word has yet to follow. */
    ghost method Note(caller: nat, op: Op)
      requires Valid()
      modifies this`history
      ensures history == old(history) + [Event(caller, op, Returned(op, word))]
      ensures Explained(initial, history) && Replay(initial, history) == NewValue(op, word)
    {
      var e := Event(caller, op, Returned(op, word));
      ReplayAppend(initial, history, e);
      history := history + [e];
    }

    /** Notes an operation that leaves the word alone. */
    ghost method Observe(caller: nat, op: Op)
      requires Valid() && NewValue(op, word) == word
      modifies this`history
      ensures Valid() && history == old(history) + [Event(caller, op, Returned(op, word))]
    {
      Note(caller, op);
    }

    method Ldrex() returns (val: Int32)
      requires Valid()
      modifies this`exclusive
      ensures Valid() && val == word && exclusive
    {
      val, exclusive := word, true;
    }

    /** A store that succeeds while the monitor is set is the operation. */
    method Strex(me: nat, val: Int32, ghost op: Op) returns (status: int)
      requires Valid()
      requires exclusive ==> val == NewValue(op, word)
      modifies this`word, this`exclusive, this`history
      ensures Valid() && !exclusive
      ensures status == if old(exclusive) then 0 else 1
      ensures history == if old(exclusive) then old(history) + [Event(me, op, Returned(op, old(word)))] else old(history)
    {
      status := 1;
      if exclusive {
        Note(me, op);
        word, status := val, 0;
      }
      exclusive := false;
    }
  }

  /** Where an operation took effect, and between which values of the word. */
  lemma Took(core: Core, before: seq<Event>, me: nat, op: Op, ret: Int32) returns (k: nat)
    requires core.Valid() && DidOnce(before, core.history, me, op, ret)
    ensures Once(before, core.history, me, k)
    ensures ret == Returned(op, Replay(core.initial, core.history[..k]))
    ensures Replay(core.initial, core.history[..k + 1]) == NewValue(op, Replay(core.initial, core.history[..k]))
  {
    k := OnceAt(core.initial, before, core.history, me, op, ret);
  }

  /** `ArchAtomicRead`. */
  method AtomicRead(core: Core, me: nat) returns (val: Int32)
    requires core.Valid()
    modifies core
    ensures core.Valid() && DidOnce(old(core.history), core.history, me, Read, val)
    ensures exists k: nat :: Once(old(core.history), core.history, me, k)
              && val == Replay(core.initial, core.history[..k])
              && val == Replay(core.initial, core.history[..k + 1])
  {
    hide Core.Valid, DidOnce, OthersOnly;
    ghost var start := core.history;
    OthersNone(start, me);
    core.Interlude(me, start);
    ghost var at := core.history;
    val := core.Ldrex();
    core.Observe(me, Read);
    OthersNone(core.history, me);
    core.Interlude(me, core.history);
    DidThenOthers(start, at, core.history, me, Read, val);
    ghost var k := Took(core, start, me, Read, val);
  }

  /** `ArchAtomicSet`: `retries` counts the failed stores. */
  method AtomicSet(core: Core, me: nat, setVal: Int32) returns (ghost retries: nat)
    requires core.Valid()
    modifies core
    ensures core.Valid() && DidOnce(old(core.history), core.history, me, Set(setVal), 0)
    ensures retries <= core.preemptions - old(core.preemptions)
    ensures exists k: nat :: Once(old(core.history), core.history, me, k)
              && Replay(core.initial, core.history[..k + 1]) == setVal
  {
    hide Core.Valid, Wrap32, DidOnce, OthersOnly;
    var status := 1;
    ghost var start, at := core.history, core.history;
    OthersNone(start, me);
    retries := 0;
    while true
      invariant core.Valid() && OthersOnly(start, core.history, me)
      invariant retries <= core.preemptions - old(core.preemptions)
      decreases core.budget
    {
      core.Interlude(me, start);
      var val := core.Ldrex();
      core.Interlude(me, start);
      at := core.history;
      status := core.Strex(me, setVal, Set(setVal));
      OthersNone(core.history, me);
      core.Interlude(me, if status == 0 then core.history else start);
      if status == 0 {
        break;
      }
      retries := retries + 1;
    }
    DidThenOthers(start, at, core.history, me, Set(setVal), 0);
    ghost var k := Took(core, start, me, Set(setVal), 0);
  }

  /** `ArchAtomicAdd`. */
  method AtomicAdd(core: Core, me: nat, addVal: Int32) returns (val: Int32, ghost retries: nat)
    requires core.Valid()
    modifies core
    ensures core.Valid() && DidOnce(old(core.history), core.history, me, Add(addVal), val)
    ensures retries <= core.preemptions - old(core.preemptions)
    ensures exists k: nat :: Once(old(core.history), core.history, me, k)
              && val == Replay(core.initial, core.history[..k + 1])
              && val == Wrap32(Replay(core.initial, core.history[..k]) + addVal)
  {
    hide Core.Valid, Wrap32, DidOnce, OthersOnly;
    var status := 1;
    ghost var start, at := core.history, core.history;
    OthersNone(start, me);
    retries := 0;
    while true
      invariant core.Valid() && OthersOnly(start, core.history, me)
      invariant retries <= core.preemptions - old(core.preemptions)
      decreases core.budget
    {
      core.Interlude(me, start);
      val := core.Ldrex();
      core.Interlude(me, start);
      val := Wrap32(val + addVal);
      core.Interlude(me, start);
      at := core.history;
      status := core.Strex(me, val, Add(addVal));
      OthersNone(core.history, me);
      core.Interlude(me, if status == 0 then core.history else start);
      if status == 0 {
        break;
      }
      retries := retries + 1;
    }
    DidThenOthers(start, at, core.history, me, Add(addVal), val);
    ghost var k := Took(core, start, me, Add(addVal), val);
  }

  /** `ArchAtomicSub`. */
  method AtomicSub(core: Core, me: nat, subVal: Int32) returns (val: Int32, ghost retries: nat)
    requires core.Valid()
    modifies core
    ensures core.Valid() && DidOnce(old(core.history), core.history, me, Sub(subVal), val)
    ensures retries <= core.preemptions - old(core.preemptions)
    ensures exists k: nat :: Once(old(core.history), core.history, me, k)
              && val == Replay(core.initial, core.history[..k + 1])
              && val == Wrap32(Replay(core.initial, core.history[..k]) - subVal)
  {
    hide Core.Valid, Wrap32, DidOnce, OthersOnly;
    var status := 1;
    ghost var start, at := core.history, core.history;
    OthersNone(start, me);
    retries := 0;
    while true
      invariant core.Valid() && OthersOnly(start, core.history, me)
      invariant retries <= core.preemptions - old(core.preemptions)
      decreases core.budget
    {
      core.Interlude(me, start);
      val := core.Ldrex();
      core.Interlude(me, start);
      val := Wrap32(val - subVal);
      core.Interlude(me, start);
      at := core.history;
      status := core.Strex(me, val, Sub(subVal));
      OthersNone(core.history, me);
      core.Interlude(me, if status == 0 then core.history else start);
      if status == 0 {
        break;
      }
      retries := retries + 1;
    }
    DidThenOthers(start, at, core.history, me, Sub(subVal), val);
    ghost var k := Took(core, start, me, Sub(subVal), val);
  }

  /** `ArchAtomicXchg32bits`. */
  method AtomicExchange(core: Core, me: nat, val: Int32) returns (prevVal: Int32, ghost retries: nat)
    requires core.Valid()
    modifies core
    ensures core.Valid() && DidOnce(old(core.history), core.history, me, Exchange(val), prevVal)
    ensures retries <= core.preemptions - old(core.preemptions)
    ensures exists k: nat :: Once(old(core.history), core.history, me, k)
              && prevVal == Replay(core.initial, core.history[..k]) && Replay(core.initial, core.history[..k + 1]) == val
  {
    hide Core.Valid, Wrap32, DidOnce, OthersOnly;
    var status := 1;
    ghost var start, at := core.history, core.history;
    OthersNone(start, me);
    retries := 0;
    while true
      invariant core.Valid() && OthersOnly(start, core.history, me)
      invariant retries <= core.preemptions - old(core.preemptions)
      decreases core.budget
    {
      core.Interlude(me, start);
      prevVal := core.Ldrex();
      core.Interlude(me, start);
      at := core.history;
      status := core.Strex(me, val, Exchange(val));
      OthersNone(core.history, me);
      core.Interlude(me, if status == 0 then core.history else start);
      if status == 0 {
        break;
      }
      retries := retries + 1;
    }
    DidThenOthers(start, at, core.history, me, Exchange(val), prevVal);
    ghost var k := Took(core, start, me, Exchange(val), prevVal);
  }

  /** One turn of the compare-and-exchange loop; `at` is the history just before it takes
      effect, which for a failed compare is at its LDREX. */
  method TryCompareExchange(core: Core, me: nat, val: Int32, oldVal: Int32, ghost start: seq<Event>)
    returns (prevVal: Int32, status: int, ghost at: seq<Event>)
    requires core.Valid() && OthersOnly(start, core.history, me)
    modifies core
    ensures core.Valid() && core.preemptions >= old(core.preemptions)
    ensures core.preemptions + core.budget == old(core.preemptions + core.budget)
    ensures status == 0 ==>
      && OthersOnly(start, at, me)
      && OthersOnly(at + [Event(me, CompareExchange(val, oldVal), if prevVal != oldVal then 1 else 0)], core.history, me)
    ensures status != 0 ==> OthersOnly(start, core.history, me) && core.preemptions > old(core.preemptions)
  {
    hide Core.Valid, DidOnce, OthersOnly;
    ghost var op := CompareExchange(val, oldVal);
    core.Interlude(me, start);
    at := core.history;
    prevVal := core.Ldrex();
    if prevVal != oldVal {
      core.Observe(me, op);
      OthersNone(core.history, me);
    }
    ghost var since := if prevVal != oldVal then core.history else start;
    core.Interlude(me, since);
    status := 0;
    if prevVal == oldVal {
      core.Interlude(me, since);
      at := core.history;
      status := core.Strex(me, val, op);
      OthersNone(core.history, me);
      since := if status == 0 then core.history else start;
    }
    core.Interlude(me, since);
  }

  /** `ArchAtomicCmpXchg32bits`. */
  method AtomicCompareExchange(core: Core, me: nat, val: Int32, oldVal: Int32)
    returns (different: bool, ghost retries: nat)
    requires core.Valid()
    modifies core
    ensures core.Valid()
    ensures DidOnce(old(core.history), core.history, me, CompareExchange(val, oldVal), if different then 1 else 0)
    ensures retries <= core.preemptions - old(core.preemptions)
    ensures exists k: nat :: Once(old(core.history), core.history, me, k)
              && (different <==> Replay(core.initial, core.history[..k]) != oldVal)
              && Replay(core.initial, core.history[..k + 1])
                 == if different then Replay(core.initial, core.history[..k]) else val
  {
    hide Core.Valid, DidOnce, OthersOnly;
    var prevVal, status := 0, 0;
    ghost var start, at := core.history, core.history;
    OthersNone(start, me);
    retries := 0;
    while true
      invariant core.Valid() && OthersOnly(start, core.history, me)
      invariant retries <= core.preemptions - old(core.preemptions)
      decreases core.budget
    {
      prevVal, status, at := TryCompareExchange(core, me, val, oldVal, start);
      if status == 0 {
        break;
      }
      retries := retries + 1;
    }
    different := prevVal != oldVal;
    DidThenOthers(start, at, core.history, me, CompareExchange(val, oldVal), if different then 1 else 0);
    ghost var k := Took(core, start, me, CompareExchange(val, oldVal), if different then 1 else 0);
  }
}
