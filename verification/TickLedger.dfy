/** Every clock accounted for: the ticks the kernel has counted, set against all the clocks that go
    by, whether the timer counts in them, reloads in them, or stands still. */
module TickLedger {
  import opened Options
  import opened TickSuppression
  import opened Words

  /** All clocks of an event: those in which the timer is stopped, its reload, its decrements, and
      those between its restart and the last write of LOAD. */
  function Clocked(e: Event): nat {
    match e
    case Elapse => 1
    case Sleep(_, stopped, counted, settle) => stopped + (counted + 1) + settle
  }

  /** The clocks that the tick count and the counter stand for. */
  function Ledger(perTick: nat, m: Machine): nat
    requires m.timer.cur <= perTick
  {
    m.ticks * perTick + Phase(perTick, m.timer.cur)
  }

  /** The timer as the tick runs it, its last tick counted. */
  predicate Ticking(perTick: nat, t: Timer) {
    perTick >= 2 && t.enabled && t.load == perTick - 1 && t.cur <= perTick && !t.pending
  }

  /** The last write of LOAD comes at the latest as the shortened tick ends. */
  predicate Allowed(perTick: nat, compensation: nat, m: Machine, e: Event) {
    && Ticking(perTick, m.timer)
    && (e.Sleep? ==>
          && Startable(perTick, compensation, e.sleep, m.timer.cur)
          && e.settle <= AtLeastOne(Suspended(perTick, compensation, e.sleep, m.timer.cur, e.counted).reload))
  }

  function AtLeastOne(n: nat): nat { if n == 0 then 1 else n }

  // ---------- One sleep ----------

  /** The tick that is counted twice when a sleep begins at zero. */
  function Extra(perTick: nat, cur: nat): nat { if cur == 0 then perTick else 0 }

  /** The clocks that a sleep takes for gone without a decrement: a tick counted twice, what does not
      fit the counter, and the compensation. */
  function Credit(perTick: nat, compensation: nat, sleep: nat, cur: nat): nat
    requires sleep >= 1
  {
    Extra(perTick, cur) + Skipped(perTick, compensation, sleep, cur) + Allowance(perTick, compensation, sleep, cur)
  }

  function Unabsorbed(perTick: nat, compensation: nat, beyond: nat): nat {
    if beyond + compensation >= perTick then beyond
    else if beyond == perTick - 1 then perTick
    else 0
  }

  /** The decrements that it does not report: every further round of the counter, and those beyond
      the end unless the next tick can absorb them. */
  function Overslept(perTick: nat, compensation: nat, sleep: nat, cur: nat, counted: nat): int
    requires sleep >= 1
  {
    var load := Loaded(perTick, compensation, sleep, cur);
    if load == 0 then counted
    else if counted < load then 0
    else (Whole(counted, load + 1) - 1) * (load + 1)
         + Unabsorbed(perTick, compensation + Skipped(perTick, compensation, sleep, cur), Part(counted, load + 1))
  }

  /** The clocks without a decrement that go by: those in which the timer is stopped, the reload
      before the sleep, and the one after it, or without that one the part of the tick that is then
      forgotten. */
  function Unseen(perTick: nat, stopped: nat, reload: nat, settle: nat): nat
    requires reload <= perTick
  {
    stopped + 1 + if settle == 0 then Phase(perTick, reload) else 1
  }

  /** The clocks that the tick count gains over a sleep, or loses. */
  function Slip(perTick: nat, compensation: nat, cur: nat, e: Event): int
    requires e.Sleep? && Startable(perTick, compensation, e.sleep, cur)
  {
    ReloadBounds(perTick, compensation, e.sleep, cur, e.counted);
    Credit(perTick, compensation, e.sleep, cur)
    - Overslept(perTick, compensation, e.sleep, cur, e.counted)
    - Unseen(perTick, e.stopped, Suspended(perTick, compensation, e.sleep, cur, e.counted).reload, e.settle)
  }

  /** What is reported, in decrements: early or full, the ticks counted and the part of the next one
      make up the decrements and the credit, less what was overslept. */
  lemma WakeLedger(perTick: nat, compensation: nat, sleep: nat, cur: nat, counted: nat)
    requires Startable(perTick, compensation, sleep, cur)
    ensures var w := Suspended(perTick, compensation, sleep, cur, counted);
            && w.reload <= perTick
            && (w.ticks + if w.interrupt then 1 else 0) * perTick + Phase(perTick, w.reload)
            == Phase(perTick, cur) + counted + Credit(perTick, compensation, sleep, cur)
             - Overslept(perTick, compensation, sleep, cur, counted)
  {
    var load := Loaded(perTick, compensation, sleep, cur);
    CountdownBounds(perTick, compensation, sleep, cur);
    hide Loaded, Part, Whole, Allowance;
    if load == 0 {
      WholeAndPart(Gone(perTick, compensation, sleep, cur, 0), perTick);
    } else if counted < load {
      EarlyWakeConserves(perTick, compensation, sleep, cur, counted);
    } else {
      SkippedBounds(perTick, compensation, sleep, cur);
      WholeAndPart(counted, load + 1);
      var rounds := Whole(counted, load + 1);
      assert counted == (rounds - 1) * (load + 1) + (load + 1) + Part(counted, load + 1);
    }
  }

  /** The clocks between the restart and the last write of LOAD: the first only reloads. */
  lemma SettledLedger(perTick: nat, ticks: nat, w: Wake, settle: nat)
    requires perTick >= 2 && w.reload <= perTick && settle <= AtLeastOne(w.reload)
    ensures var t := Clocks(Restarted(w, false), settle);
            && t.enabled && t.cur <= perTick && t.pending == w.interrupt
            && Phase(perTick, t.cur) == if settle == 0 then 0 else Phase(perTick, w.reload) + settle - 1
  {
    hide Part;
    var t := Restarted(w, false);
    if w.reload == 0 {
      ClocksOfNothing(t, settle);
    } else if settle == 0 {
      assert Clocks(t, 0) == t;
    } else {
      ClocksFromZero(t, settle);
    }
  }

  /** For every sleep: the ticks counted and the clocks of the current tick account for all the
      clocks that went by, up to the slip. */
  lemma SleepLedger(perTick: nat, compensation: nat, m: Machine, e: Event)
    requires Allowed(perTick, compensation, m, e) && e.Sleep?
    ensures Ticking(perTick, Happens(perTick, compensation, m, e).timer)
    ensures Ledger(perTick, Happens(perTick, compensation, m, e))
         == Ledger(perTick, m) + Clocked(e) + Slip(perTick, compensation, m.timer.cur, e)
  {
    var cur := m.timer.cur;
    var w := Suspended(perTick, compensation, e.sleep, cur, e.counted);
    ReloadBounds(perTick, compensation, e.sleep, cur, e.counted);
    hide Suspended, Startable, Credit, Overslept, Clocks;
    WakeLedger(perTick, compensation, e.sleep, cur, e.counted);
    SettledLedger(perTick, m.ticks, w, e.settle);
    AddTicks(m.ticks, w.ticks + if w.interrupt then 1 else 0, perTick);
  }

  // ---------- When a sleep counts right ----------

  /** The tick count and the counter stand for exactly the clocks that went by. */
  predicate CountsRight(perTick: nat, compensation: nat, m: Machine, e: Event)
    requires Allowed(perTick, compensation, m, e) && e.Sleep?
  {
    && Happens(perTick, compensation, m, e).timer.cur <= perTick
    && Ledger(perTick, Happens(perTick, compensation, m, e)) == Ledger(perTick, m) + Clocked(e)
  }

  /** Woken early, a sleep counts right if and only if its credit is the clocks that went unseen. */
  lemma EarlyWakeExact(perTick: nat, compensation: nat, m: Machine, e: Event)
    requires Allowed(perTick, compensation, m, e) && e.Sleep?
    requires e.counted < Loaded(perTick, compensation, e.sleep, m.timer.cur)
    ensures var reload := Suspended(perTick, compensation, e.sleep, m.timer.cur, e.counted).reload;
            && reload <= perTick
            && (CountsRight(perTick, compensation, m, e)
                <==> Credit(perTick, compensation, e.sleep, m.timer.cur)
                     == Unseen(perTick, e.stopped, reload, e.settle))
  {
    ReloadBounds(perTick, compensation, e.sleep, m.timer.cur, e.counted);
    hide Suspended, Loaded, Credit, Unseen, Happens, Allowed, Ledger;
    SleepLedger(perTick, compensation, m, e);
  }

  /** A sleep that fits the counter, begins inside a tick, and is given its reload afterwards. */
  predicate Ordinary(perTick: nat, compensation: nat, m: Machine, e: Event)
    requires e.Sleep? && e.sleep >= 1
  {
    && m.timer.cur != 0 && e.settle >= 1
    && Countdown(perTick, compensation, e.sleep, m.timer.cur) < LOAD_LIMIT
  }

  /** Woken early, an ordinary sleep gains its compensation and loses the clocks in which the timer was
      stopped and two reloads. It counts right if and only if the one makes up for the other. */
  lemma OrdinaryEarlyWake(perTick: nat, compensation: nat, m: Machine, e: Event)
    requires Allowed(perTick, compensation, m, e) && e.Sleep? && Ordinary(perTick, compensation, m, e)
    requires e.counted < Loaded(perTick, compensation, e.sleep, m.timer.cur)
    ensures var c := if m.timer.cur + perTick * (e.sleep - 1) > compensation then compensation else 0;
            && Happens(perTick, compensation, m, e).timer.cur <= perTick
            && Ledger(perTick, Happens(perTick, compensation, m, e))
            == Ledger(perTick, m) + Clocked(e) + c - e.stopped - 2
            && (CountsRight(perTick, compensation, m, e) <==> c == e.stopped + 2)
  {
    assert e.sleep >= 1;
    assert Allowance(perTick, compensation, e.sleep, m.timer.cur)
        == if m.timer.cur + perTick * (e.sleep - 1) > compensation then compensation else 0;
    hide Suspended, Loaded, Skipped, Countdown, Allowance, Happens, Startable, Ledger, Clocked;
    SleepLedger(perTick, compensation, m, e);
    SkippedBounds(perTick, compensation, e.sleep, m.timer.cur);
  }

  /** If the counter has nothing to count, the whole sleep is reported at once. */
  lemma StandstillExact(perTick: nat, compensation: nat, m: Machine, e: Event)
    requires Allowed(perTick, compensation, m, e) && e.Sleep?
    requires Loaded(perTick, compensation, e.sleep, m.timer.cur) == 0
    ensures var reload := Suspended(perTick, compensation, e.sleep, m.timer.cur, e.counted).reload;
            && reload <= perTick
            && (CountsRight(perTick, compensation, m, e)
                <==> e.counted == Credit(perTick, compensation, e.sleep, m.timer.cur)
                                  - Unseen(perTick, e.stopped, reload, e.settle))
  {
    ReloadBounds(perTick, compensation, e.sleep, m.timer.cur, e.counted);
    hide Suspended, Loaded, Credit, Unseen, Happens, Allowed, Ledger;
    SleepLedger(perTick, compensation, m, e);
  }

  /** The part of an overshoot that the next tick makes up for: all, none, or one clock less than none. */
  function Absorbed(perTick: nat, compensation: nat, beyond: nat): int {
    if beyond + compensation >= perTick then 0
    else if beyond == perTick - 1 then -1
    else beyond
  }

  /** Slept to the end, it counts right if and only if the decrements are those loaded, one for the
      counter's own reload, what the next tick absorbs, and the credit less what went unseen. */
  lemma FullSleepExact(perTick: nat, compensation: nat, m: Machine, e: Event)
    requires Allowed(perTick, compensation, m, e) && e.Sleep?
    requires 0 < Loaded(perTick, compensation, e.sleep, m.timer.cur) <= e.counted
    ensures var load := Loaded(perTick, compensation, e.sleep, m.timer.cur);
            var skipped := Skipped(perTick, compensation, e.sleep, m.timer.cur);
            var reload := Suspended(perTick, compensation, e.sleep, m.timer.cur, e.counted).reload;
            && reload <= perTick
            && (CountsRight(perTick, compensation, m, e)
                <==> e.counted == load + 1 + Absorbed(perTick, compensation + skipped, Part(e.counted, load + 1))
                                  + Credit(perTick, compensation, e.sleep, m.timer.cur)
                                  - Unseen(perTick, e.stopped, reload, e.settle))
  {
    ReloadBounds(perTick, compensation, e.sleep, m.timer.cur, e.counted);
    hide Suspended, Loaded, Skipped, Credit, Unseen, Happens, Allowed, Part, Whole, Ledger, Overslept;
    SleepLedger(perTick, compensation, m, e);
    FullOverslept(perTick, compensation, e.sleep, m.timer.cur, e.counted);
  }

  lemma FullOverslept(perTick: nat, compensation: nat, sleep: nat, cur: nat, counted: nat)
    requires sleep >= 1 && 0 < Loaded(perTick, compensation, sleep, cur) <= counted
    ensures var m, skipped := Loaded(perTick, compensation, sleep, cur) + 1, Skipped(perTick, compensation, sleep, cur);
            Overslept(perTick, compensation, sleep, cur, counted)
            == counted - m - Absorbed(perTick, compensation + skipped, Part(counted, m))
  {
    hide Loaded, Skipped, Part, Whole;
    var m := Loaded(perTick, compensation, sleep, cur) + 1;
    WholeAndPart(counted, m);
    assert counted == (Whole(counted, m) - 1) * m + m + Part(counted, m);
  }

  /** An ordinary sleep of several ticks, slept to the end, whose compensation is what it loses, counts
      right if and only if the counter has reloaded once and the next tick can absorb what it has
      counted since. */
  lemma FullSleepInTime(perTick: nat, compensation: nat, m: Machine, e: Event)
    requires Allowed(perTick, compensation, m, e) && e.Sleep? && Ordinary(perTick, compensation, m, e)
    requires e.sleep >= 2 && Allowance(perTick, compensation, e.sleep, m.timer.cur) == e.stopped + 2
    requires e.counted >= Countdown(perTick, compensation, e.sleep, m.timer.cur)
    ensures var countdown := Countdown(perTick, compensation, e.sleep, m.timer.cur);
            var extra := e.counted - countdown - 1;
            CountsRight(perTick, compensation, m, e)
            <==> (extra == 0 || (0 < extra <= countdown && extra + compensation < perTick && extra + 1 < perTick))
  {
    var cur := m.timer.cur;
    CountdownCovers(perTick, compensation, e.sleep, cur);
    SkippedBounds(perTick, compensation, e.sleep, cur);
    hide Part, Whole, Countdown, Suspended, Allowance, CountsRight, Startable;
    assert Loaded(perTick, compensation, e.sleep, cur) == Countdown(perTick, compensation, e.sleep, cur);
    FullSleepExact(perTick, compensation, m, e);
    hide Loaded, Skipped;
    var n := Countdown(perTick, compensation, e.sleep, cur) + 1;
    WholeAndPart(e.counted, n);
    RoundsBeyond(Whole(e.counted, n), n);
    assert e.counted == (Whole(e.counted, n) - 1) * n + n + Part(e.counted, n);
  }

  lemma CountdownCovers(perTick: nat, compensation: nat, sleep: nat, cur: nat)
    requires Startable(perTick, compensation, sleep, cur) && sleep >= 2
    ensures Countdown(perTick, compensation, sleep, cur) + compensation >= perTick
    ensures Countdown(perTick, compensation, sleep, cur) >= 1
  {
    assert perTick >= 2;
    hide Startable;
    AtLeastOnce(perTick, sleep - 1);
  }

  lemma AtLeastOnce(x: nat, n: nat)
    requires n >= 1
    ensures x * n >= x
  {
  }

  lemma RoundsBeyond(rounds: nat, m: nat)
    ensures rounds == 0 ==> (rounds - 1) * m == -(m as int)
    ensures rounds == 1 ==> (rounds - 1) * m == 0
    ensures rounds >= 2 ==> (rounds - 1) * m >= m
  {
    assert (rounds - 1) * m == m + (rounds - 2) * m;
  }

  // ---------- Runs ----------

  function SlipOf(perTick: nat, compensation: nat, m: Machine, e: Event): int
    requires Allowed(perTick, compensation, m, e)
  {
    if e.Elapse? then 0 else Slip(perTick, compensation, m.timer.cur, e)
  }

  /** Whatever happens, the ledger moves by the clocks and the slip. */
  lemma EventLedger(perTick: nat, compensation: nat, m: Machine, e: Event)
    requires Allowed(perTick, compensation, m, e)
    ensures Ticking(perTick, Happens(perTick, compensation, m, e).timer)
    ensures Ledger(perTick, Happens(perTick, compensation, m, e))
         == Ledger(perTick, m) + Clocked(e) + SlipOf(perTick, compensation, m, e)
  {
    if e.Sleep? {
      SleepLedger(perTick, compensation, m, e);
    } else {
      AddTicks(m.ticks, 1, perTick);
    }
  }

  datatype Totals = Totals(last: Machine, clocks: nat, slip: int)

  /** A run of clocks and sleeps in any order: where it ends, all the clocks in it and the slips, or
      nothing when it holds a sleep that is not allowed. */
  function After(perTick: nat, compensation: nat, m: Machine, es: seq<Event>): Option<Totals>
    decreases es
  {
    if es == [] then Some(Totals(m, 0, 0))
    else if !Allowed(perTick, compensation, m, es[0]) then None
    else
      match After(perTick, compensation, Happens(perTick, compensation, m, es[0]), es[1..])
      case None => None
      case Some(t) =>
        Some(Totals(t.last, t.clocks + Clocked(es[0]), t.slip + SlipOf(perTick, compensation, m, es[0])))
  }

  /** Over every run, the tick count is the number of whole ticks in all the clocks that went by,
      adjusted by the slips alone. */
  lemma {:induction false} RunLedger(perTick: nat, compensation: nat, m: Machine, es: seq<Event>)
    requires Ticking(perTick, m.timer)
    requires After(perTick, compensation, m, es).Some?
    ensures var t := After(perTick, compensation, m, es).value;
            && Ticking(perTick, t.last.timer)
            && Ledger(perTick, t.last) == Ledger(perTick, m) + t.clocks + t.slip
            && t.last.ticks == Whole(Ledger(perTick, m) + t.clocks + t.slip, perTick)
    decreases es
  {
    if es == [] {
    } else {
      hide Happens, Clocked, SlipOf, Ledger, Allowed, Whole;
      EventLedger(perTick, compensation, m, es[0]);
      RunLedger(perTick, compensation, Happens(perTick, compensation, m, es[0]), es[1..]);
    }
    var t := After(perTick, compensation, m, es).value;
    Unique(t.last.ticks, perTick, Phase(perTick, t.last.timer.cur));
  }

  /** Every sleep of the run is ordinary and woken early. */
  predicate Routine(perTick: nat, compensation: nat, m: Machine, es: seq<Event>)
    decreases es
  {
    es != [] ==>
      && Allowed(perTick, compensation, m, es[0])
      && (es[0].Sleep? ==>
            && Ordinary(perTick, compensation, m, es[0])
            && es[0].counted < Loaded(perTick, compensation, es[0].sleep, m.timer.cur))
      && Routine(perTick, compensation, Happens(perTick, compensation, m, es[0]), es[1..])
  }

  function Sleeps(es: seq<Event>): nat {
    if es == [] then 0 else (if es[0].Sleep? then 1 else 0) + Sleeps(es[1..])
  }

  /** Without compensation the kernel's clock falls behind by at least two clocks with every such sleep. */
  lemma {:induction false} UncompensatedRunLoses(perTick: nat, m: Machine, es: seq<Event>)
    requires Ticking(perTick, m.timer) && Routine(perTick, 0, m, es)
    ensures After(perTick, 0, m, es).Some?
    ensures After(perTick, 0, m, es).value.slip <= -2 * Sleeps(es)
    decreases es
  {
    if es != [] {
      var next := Happens(perTick, 0, m, es[0]);
      EventLedger(perTick, 0, m, es[0]);
      if es[0].Sleep? {
        OrdinaryEarlyWake(perTick, 0, m, es[0]);
      }
      hide Happens, Clocked, Ledger, Allowed, Ordinary, Loaded;
      UncompensatedRunLoses(perTick, next, es[1..]);
    }
  }
}
