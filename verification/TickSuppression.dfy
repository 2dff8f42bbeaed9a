/** Tick suppression around deep sleep: the SysTick counter (ARMv7-M Architecture Reference
    Manual, section B3.3) and the 32-bit arithmetic that turns a long count back into ticks. */
module TickSuppression {
  import opened Words

  const LOAD_LIMIT := 0x100_0000   // LOAD and CURRENT have 24 bits

  function U32(x: int): (r: nat)
    ensures r < TWO_32 && (0 <= x < TWO_32 ==> r == x)
  {
    x % TWO_32
  }

  lemma Borrowed(x: int)
    requires -TWO_32 <= x < 0
    ensures U32(x) == x + TWO_32
  {
    UniqueResidue(x, -1, TWO_32, x + TWO_32);
  }

  // ---------- The counter ----------

  /** `pending` is the tick interrupt, waiting while interrupts are masked. */
  datatype Timer = Timer(enabled: bool, load: nat, cur: nat, countFlag: bool, pending: bool)

  lemma Truncated(x: int, y: int)
    ensures U32(U32(x) - y) == U32(x - y)
  {
    var q, d := x / TWO_32, U32(x) - y;
    assert x - y == (q + d / TWO_32) * TWO_32 + d % TWO_32;
    UniqueResidue(x - y, q + d / TWO_32, TWO_32, d % TWO_32);
  }

  /** One clock: a counter at zero reloads, any other counts down; reaching zero sets the flag
      and pends the tick interrupt. */
  function Clock(t: Timer): Timer {
    if !t.enabled then t
    else if t.cur == 0 then t.(cur := t.load)
    else t.(cur := t.cur - 1, countFlag := t.countFlag || t.cur == 1, pending := t.pending || t.cur == 1)
  }

  function Clocks(t: Timer, n: nat): Timer {
    if n == 0 then t else Clock(Clocks(t, n - 1))
  }

  /** A counter that was just cleared, after `n` clocks: it holds the reload value less the
      decrements of its current round, and the flag is set once a round is complete. */
  lemma {:induction false} ClocksFromZero(t: Timer, n: nat)
    requires t.enabled && t.cur == 0 && !t.countFlag && t.load > 0 && n >= 1
    ensures Clocks(t, n)
         == Timer(true, t.load, t.load - Part(n - 1, t.load + 1), n - 1 >= t.load, t.pending || n - 1 >= t.load)
  {
    hide Part;
    if n == 1 {
      assert Clocks(t, 1) == Clock(Clocks(t, 0)) == Clock(t);
    } else {
      ClocksFromZero(t, n - 1);
      NextPart(n - 2, t.load + 1);
    }
  }

  /** A counter with nothing to reload stays at zero. */
  lemma {:induction false} ClocksOfNothing(t: Timer, n: nat)
    requires t.enabled && t.cur == 0 && t.load == 0
    ensures Clocks(t, n) == t
  {
    if n > 0 {
      ClocksOfNothing(t, n - 1);
    }
  }

  function Whole(x: nat, m: nat): (q: nat)
    requires m > 0
    ensures x < m ==> q == 0
  {
    x / m
  }

  function Part(x: nat, m: nat): (r: nat)
    requires m > 0
    ensures r < m && r <= x && (x < m ==> r == x)
  {
    x % m
  }

  lemma WholeAndPart(x: nat, m: nat)
    requires m > 0
    ensures x == Whole(x, m) * m + Part(x, m)
  {
  }

  lemma Unique(q: nat, m: nat, r: nat)
    requires r < m
    ensures Part(q * m + r, m) == r && Whole(q * m + r, m) == q
  {
    UniqueResidue(q * m + r, q, m, r);
  }

  lemma Fewer(q: nat, s: nat, m: nat)
    requires q * m < s * m
    ensures q < s
  {
    assert q * m - s * m == (q - s) * m;
  }

  lemma NextPart(x: nat, m: nat)
    requires m > 0
    ensures Part(x + 1, m) == if Part(x, m) == m - 1 then 0 else Part(x, m) + 1
    ensures Part(x, m) == m - 1 ==> x + 1 >= m
  {
    hide Part, Whole;
    WholeAndPart(x, m);
    var q := Whole(x, m);
    if Part(x, m) == m - 1 {
      assert x + 1 == (q + 1) * m + 0;
      Unique(q + 1, m, 0);
    } else {
      Unique(q, m, Part(x, m) + 1);
    }
  }

  // ---------- What a sleep should report ----------

  /** `ticks` are reported to the kernel, `reload` is the remaining length of the current tick,
      and `interrupt` says that the counter ran out, so one more tick is counted by its handler. */
  datatype Wake = Wake(ticks: nat, reload: nat, interrupt: bool)

  /** Clocks of the current tick that have gone by when the counter holds `cur`; a counter at
      zero has just completed one, and that tick has been counted. */
  function Phase(perTick: nat, cur: nat): nat
    requires cur <= perTick
  {
    if cur == 0 then 0 else perTick - cur
  }

  /** The clocks from the start of the sleep to the wake-up that was asked for. */
  function Span(perTick: nat, sleep: nat, cur: nat): nat
    requires sleep >= 1
  {
    cur + perTick * (sleep - 1)
  }

  /** The clocks taken off the sleep for the time in which the counter is stopped. */
  function Allowance(perTick: nat, compensation: nat, sleep: nat, cur: nat): (c: nat)
    requires sleep >= 1
    ensures c <= Span(perTick, sleep, cur)
  {
    if Span(perTick, sleep, cur) > compensation then compensation else 0
  }

  function Countdown(perTick: nat, compensation: nat, sleep: nat, cur: nat): nat
    requires sleep >= 1
  {
    Span(perTick, sleep, cur) - Allowance(perTick, compensation, sleep, cur)
  }

  /** A sleep whose clocks fit 32 bits, in ticks of at least two clocks that fit the counter. */
  predicate Startable(perTick: nat, compensation: nat, sleep: nat, cur: nat) {
    && 2 <= perTick < LOAD_LIMIT && compensation < LOAD_LIMIT && cur <= perTick
    && 1 <= sleep < TWO_32 && sleep * perTick < TWO_32 - 1
  }

  lemma CountdownBounds(perTick: nat, compensation: nat, sleep: nat, cur: nat)
    requires Startable(perTick, compensation, sleep, cur)
    ensures perTick * (sleep - 1) == sleep * perTick - perTick
    ensures Countdown(perTick, compensation, sleep, cur) <= Span(perTick, sleep, cur) <= sleep * perTick
  {
    assert perTick * (sleep - 1) == sleep * perTick - perTick;
  }

  /** The counter takes 24 bits of the countdown; the rest is skipped. */
  function Loaded(perTick: nat, compensation: nat, sleep: nat, cur: nat): (load: nat)
    requires sleep >= 1
    ensures load <= Countdown(perTick, compensation, sleep, cur) && load < LOAD_LIMIT
  {
    Part(Countdown(perTick, compensation, sleep, cur), LOAD_LIMIT)
  }

  function Skipped(perTick: nat, compensation: nat, sleep: nat, cur: nat): (skipped: nat)
    requires sleep >= 1
    ensures skipped <= Countdown(perTick, compensation, sleep, cur)
  {
    Countdown(perTick, compensation, sleep, cur) - Loaded(perTick, compensation, sleep, cur)
  }

  lemma SkippedBounds(perTick: nat, compensation: nat, sleep: nat, cur: nat)
    requires sleep >= 1
    ensures Skipped(perTick, compensation, sleep, cur) == 0
       <==> Countdown(perTick, compensation, sleep, cur) < LOAD_LIMIT
    ensures Skipped(perTick, compensation, sleep, cur) > 0
        ==> Skipped(perTick, compensation, sleep, cur) >= LOAD_LIMIT
  {
    hide Countdown, Part, Whole;
    WholeAndPart(Countdown(perTick, compensation, sleep, cur), LOAD_LIMIT);
  }

  /** The clocks that the code takes to have gone by since the current tick began, when the counter
      has made `seen` decrements and not reached zero. */
  function Gone(perTick: nat, compensation: nat, sleep: nat, cur: nat, seen: nat): nat
    requires sleep >= 1 && cur <= perTick
  {
    perTick - cur + Allowance(perTick, compensation, sleep, cur) + Skipped(perTick, compensation, sleep, cur) + seen
  }

  /** With what the counter still holds it makes up the whole sleep. */
  lemma GoneAndLeft(perTick: nat, compensation: nat, sleep: nat, cur: nat, seen: nat)
    requires Startable(perTick, compensation, sleep, cur) && seen <= Loaded(perTick, compensation, sleep, cur)
    ensures Gone(perTick, compensation, sleep, cur, seen) + (Loaded(perTick, compensation, sleep, cur) - seen)
         == sleep * perTick
  {
    CountdownBounds(perTick, compensation, sleep, cur);
  }

  /** The outcome of a sleep of `counted` decrements. Woken early, it reports the whole ticks that
      have gone by; slept to the end, all but the one its interrupt will count, and the clocks
      counted beyond the end shorten the next tick unless too few would be left. A counter with
      nothing to count down stands still. */
  function Suspended(perTick: nat, compensation: nat, sleep: nat, cur: nat, counted: nat): Wake
    requires Startable(perTick, compensation, sleep, cur)
  {
    var load := Loaded(perTick, compensation, sleep, cur);
    if load == 0 || counted < load then
      var gone := Gone(perTick, compensation, sleep, cur, if load == 0 then 0 else counted);
      Wake(Whole(gone, perTick), perTick - Part(gone, perTick), false)
    else
      var beyond := Skipped(perTick, compensation, sleep, cur) + Part(counted, load + 1);
      Wake(sleep - 1, if beyond + compensation < perTick then perTick - 1 - beyond else perTick - 1, true)
  }

  /** Woken early: no clock is lost or invented but those that do not fit the counter, the shortened
      tick is a positive number of clocks and at most a tick, and fewer ticks are reported than were
      asked for. */
  lemma EarlyWakeConserves(perTick: nat, compensation: nat, sleep: nat, cur: nat, counted: nat)
    requires Startable(perTick, compensation, sleep, cur)
    requires counted < Loaded(perTick, compensation, sleep, cur)
    ensures var w := Suspended(perTick, compensation, sleep, cur, counted);
            && w.ticks * perTick + (perTick - w.reload)
            == perTick - cur + counted + Allowance(perTick, compensation, sleep, cur)
             + Skipped(perTick, compensation, sleep, cur)
            && 1 <= w.reload <= perTick
            && w.ticks < sleep
            && !w.interrupt
  {
    GoneAndLeft(perTick, compensation, sleep, cur, counted);
    hide Part, Whole, Loaded, Allowance, Countdown, Skipped;
    var gone := Gone(perTick, compensation, sleep, cur, counted);
    WholeAndPart(gone, perTick);
    assert Suspended(perTick, compensation, sleep, cur, counted)
        == Wake(Whole(gone, perTick), perTick - Part(gone, perTick), false);
    Fewer(Whole(gone, perTick), sleep, perTick);
  }

  lemma ReloadBounds(perTick: nat, compensation: nat, sleep: nat, cur: nat, counted: nat)
    requires Startable(perTick, compensation, sleep, cur)
    ensures var w := Suspended(perTick, compensation, sleep, cur, counted);
            w.reload <= perTick && (w.interrupt <==> 0 < Loaded(perTick, compensation, sleep, cur) <= counted)
  {
    hide Part, Whole, Loaded, Skipped, Gone;
  }

  // ---------- The timer and the kernel ----------

  /** The counter as it is started again after a sleep. */
  function Restarted(w: Wake, pending: bool): Timer {
    Timer(true, w.reload, 0, false, pending || w.interrupt)
  }

  /** The ticks the kernel has counted, and the timer. */
  datatype Machine = Machine(ticks: nat, timer: Timer)

  /** What happens to it: a clock goes by, or a sleep in which the timer stands still for `stopped`
      clocks, makes `counted` decrements behind its first reload, and is given `settle` clocks
      between its restart and the last write of LOAD. */
  datatype Event = Elapse | Sleep(sleep: nat, stopped: nat, counted: nat, settle: nat)

  /** The handler counts a tick that is pending. */
  function Handled(ticks: nat, t: Timer): Machine {
    Machine(ticks + if t.pending then 1 else 0, t.(pending := false))
  }

  function Happens(perTick: nat, compensation: nat, m: Machine, e: Event): Machine
    requires e.Sleep? ==> Startable(perTick, compensation, e.sleep, m.timer.cur)
    requires perTick >= 1
  {
    match e
    case Elapse => Handled(m.ticks, Clock(m.timer))
    case Sleep(sleep, _, counted, settle) =>
      var w := Suspended(perTick, compensation, sleep, m.timer.cur, counted);
      Handled(m.ticks + w.ticks, Clocks(Restarted(w, m.timer.pending), settle).(load := perTick - 1))
  }

  /** The code's 32-bit expression for the rest of the current tick. */
  lemma NextTick(ticks: nat, perTick: nat, gone: nat, part: nat)
    requires gone == ticks * perTick + part && part < perTick < LOAD_LIMIT && perTick >= 2 && gone < TWO_32
    ensures U32(U32(U32(ticks + 1) * perTick) - gone) == perTick - part
  {
    hide U32;
    Twice(ticks, perTick);
    AddTicks(ticks, 1, perTick);
    assert U32(ticks + 1) == ticks + 1;
    var next := (ticks + 1) * perTick;
    assert next - gone == perTick - part;
    Truncated(next, gone);
  }

  lemma AddTicks(a: nat, b: nat, perTick: nat)
    ensures (a + b) * perTick == a * perTick + b * perTick
  {
  }

  lemma Twice(n: nat, m: nat)
    requires m >= 2
    ensures n * m >= 2 * n
  {
  }

  /** The 32-bit subtraction wraps if and only if a whole tick or more went by beyond the end, and
      the code's guard rejects its result if and only if it wrapped or leaves too little; whatever
      the guard lets through, with the overshoot, makes up the tick. */
  lemma GuardExact(perTick: nat, compensation: nat, beyond: nat)
    requires 2 <= perTick < LOAD_LIMIT && beyond < TWO_32 - 1
    ensures var calculated := U32(perTick - 1 - U32(beyond));
            && (calculated == perTick - 1 - beyond <==> beyond < perTick)
            && (calculated < compensation || calculated > perTick <==> beyond + compensation >= perTick)
            && (beyond + compensation < perTick ==> calculated + beyond == perTick - 1)
  {
    if beyond >= perTick {
      Borrowed(perTick - 1 - beyond);
    }
  }

  // ---------- The code ----------

  class LowPower {
    const cyclesPerTick: nat      // RTC_CYCLES_PER_TICK
    const compensation: nat       // STOPPED_TIMER_COMPENSATION
    var timer: Timer
    var sleepTime: nat            // g_SleepTime
    var primask: bool

    constructor (cyclesPerTick: nat, compensation: nat)
      requires cyclesPerTick > 0
      ensures this.cyclesPerTick == cyclesPerTick && this.compensation == compensation
      ensures timer == Timer(true, cyclesPerTick - 1, 0, false, false) && sleepTime == 0 && !primask
    {
      this.cyclesPerTick, this.compensation := cyclesPerTick, compensation;
      timer, sleepTime, primask := Timer(true, cyclesPerTick - 1, 0, false, false), 0, false;
    }

    /** Reading the control register clears the count flag. */
    method ReadCtrl() returns (countFlag: bool)
      modifies `timer
      ensures countFlag == old(timer).countFlag
      ensures timer == old(timer).(countFlag := false)
    {
      countFlag := timer.countFlag;
      timer := timer.(countFlag := false);
    }

    method ReadModifyEnable(enabled: bool)
      modifies `timer
      ensures timer == old(timer).(countFlag := false, enabled := enabled)
    {
      var _ := ReadCtrl();
      timer := timer.(enabled := enabled);
    }

    /** Writing the current value clears it and the count flag. */
    method Restart(load: nat)
      modifies `timer
      ensures timer == old(timer).(enabled := true, load := Part(load, LOAD_LIMIT), cur := 0, countFlag := false)
    {
      timer := timer.(load := Part(load, LOAD_LIMIT));
      timer := timer.(cur := 0, countFlag := false);
      ReadModifyEnable(true);
    }

    /** The value the counter is started with for the sleep. */
    method SleepValue() returns (reloadValue: nat)
      requires Startable(cyclesPerTick, compensation, sleepTime, timer.cur)
      ensures reloadValue == Countdown(cyclesPerTick, compensation, sleepTime, timer.cur)
    {
      hide U32;
      CountdownBounds(cyclesPerTick, compensation, sleepTime, timer.cur);
      ghost var span := cyclesPerTick * (sleepTime - 1);
      assert U32(sleepTime - 1) == sleepTime - 1;
      assert U32(span) == span && U32(timer.cur + span) == timer.cur + span;
      reloadValue := U32(timer.cur + U32(cyclesPerTick * U32(sleepTime - 1)));
      if reloadValue > compensation {
        reloadValue := U32(reloadValue - compensation);
      }
    }

    method AfterFullSleep(reloadValue: nat, ghost cur: nat, ghost counted: nat) returns (w: Wake)
      requires Startable(cyclesPerTick, compensation, sleepTime, cur)
      requires reloadValue == Countdown(cyclesPerTick, compensation, sleepTime, cur)
      requires 0 < Loaded(cyclesPerTick, compensation, sleepTime, cur) <= counted
      requires timer.cur == CounterAfter(Loaded(cyclesPerTick, compensation, sleepTime, cur), counted)
      ensures w == Suspended(cyclesPerTick, compensation, sleepTime, cur, counted)
    {
      CountdownBounds(cyclesPerTick, compensation, sleepTime, cur);
      hide Part, Loaded, Countdown;
      ghost var load := Loaded(cyclesPerTick, compensation, sleepTime, cur);
      var beyond := U32(reloadValue - timer.cur);
      assert beyond == Skipped(cyclesPerTick, compensation, sleepTime, cur) + Part(counted, load + 1);
      GuardExact(cyclesPerTick, compensation, beyond);
      var calculated := U32(cyclesPerTick - 1 - beyond);
      if calculated < compensation || calculated > cyclesPerTick {
        calculated := cyclesPerTick - 1;
      }
      w := Wake(U32(sleepTime - 1), calculated, true);
    }

    method AfterEarlyWake(ghost cur: nat, ghost counted: nat) returns (w: Wake)
      requires Startable(cyclesPerTick, compensation, sleepTime, cur)
      requires var load := Loaded(cyclesPerTick, compensation, sleepTime, cur);
               (load == 0 || counted < load) && timer.cur == CounterAfter(load, counted)
      ensures w == Suspended(cyclesPerTick, compensation, sleepTime, cur, counted)
    {
      hide Part, Whole, Loaded, U32, Gone, Skipped, Countdown;
      ghost var load := Loaded(cyclesPerTick, compensation, sleepTime, cur);
      ghost var seen := if load == 0 then 0 else counted;
      GoneAndLeft(cyclesPerTick, compensation, sleepTime, cur, seen);
      ghost var gone := Gone(cyclesPerTick, compensation, sleepTime, cur, seen);
      assert timer.cur == load - seen;
      var decrements := U32(U32(sleepTime * cyclesPerTick) - timer.cur);
      assert decrements == gone;
      WholeAndPart(gone, cyclesPerTick);
      var ticks := Whole(decrements, cyclesPerTick);
      NextTick(ticks, cyclesPerTick, gone, Part(gone, cyclesPerTick));
      w := Wake(ticks, U32(U32(U32(ticks + 1) * cyclesPerTick) - decrements), false);
    }

    method StartSleep(stopped: nat) returns (reloadValue: nat)
      requires Startable(cyclesPerTick, compensation, sleepTime, timer.cur)
      modifies `timer
      ensures reloadValue == Countdown(cyclesPerTick, compensation, sleepTime, old(timer.cur))
      ensures var span := old(timer.cur) + cyclesPerTick * (sleepTime - 1);
              reloadValue == if span > compensation then span - compensation else span
      ensures var load := Loaded(cyclesPerTick, compensation, sleepTime, old(timer.cur));
              timer == Timer(true, load, 0, false, old(timer).pending)
    {
      CountdownMeans(cyclesPerTick, compensation, sleepTime, timer.cur);
      hide Countdown, Part;
      ReadModifyEnable(false);
      ClocksStopped(timer, stopped);
      timer := Clocks(timer, stopped);
      reloadValue := SleepValue();
      Restart(reloadValue);
    }

    method StopSleep(reloadValue: nat, stopped: nat, ghost cur: nat, ghost counted: nat) returns (w: Wake)
      requires Startable(cyclesPerTick, compensation, sleepTime, cur)
      requires reloadValue == Countdown(cyclesPerTick, compensation, sleepTime, cur)
      requires var load := Loaded(cyclesPerTick, compensation, sleepTime, cur);
               timer.cur == CounterAfter(load, counted) && (timer.countFlag <==> 0 < load <= counted)
      modifies `timer
      ensures timer == old(timer).(countFlag := false, enabled := false)
      ensures w == Suspended(cyclesPerTick, compensation, sleepTime, cur, counted)
      ensures w.reload < LOAD_LIMIT
      ensures w.interrupt <==> 0 < Loaded(cyclesPerTick, compensation, sleepTime, cur) <= counted
    {
      hide Part, Loaded, CounterAfter;
      timer := timer.(enabled := false);
      ClocksStopped(timer, stopped);
      timer := Clocks(timer, stopped);
      var countFlag := ReadCtrl();
      if countFlag {
        w := AfterFullSleep(reloadValue, cur, counted);
      } else {
        w := AfterEarlyWake(cur, counted);
      }
      ReloadBounds(cyclesPerTick, compensation, sleepTime, cur, counted);
    }

    /** `UserDeepSleepSuspend`. The timer is disabled for `before` clocks, then runs for its first
        reload and `counted` clocks until the platform's post-sleep call returns, is disabled for
        `after` clocks, and runs for `settle` clocks between its restart and the last write of LOAD. */
    method UserDeepSleepSuspend(before: nat, counted: nat, after: nat, settle: nat)
      requires sleepTime == 0 || Startable(cyclesPerTick, compensation, sleepTime, timer.cur)
      modifies this
      ensures primask == old(primask)
      ensures old(sleepTime) == 0 ==> timer == old(timer) && sleepTime == 0
      ensures old(sleepTime) > 0 ==>
        var w := Suspended(cyclesPerTick, compensation, old(sleepTime), old(timer.cur), counted);
        && sleepTime == w.ticks
        && timer == Clocks(Restarted(w, old(timer.pending)), settle).(load := cyclesPerTick - 1)
      ensures old(sleepTime) > 0 ==>
        Handled(sleepTime, timer)
        == Happens(cyclesPerTick, compensation, Machine(0, old(timer)),
                   Sleep(old(sleepTime), before + after, counted, settle))
      ensures old(sleepTime) > 0 && settle == 1 ==>
        PlainSleep(cyclesPerTick, compensation, old(sleepTime), old(timer.cur), counted, sleepTime, timer.cur)
    {
      if sleepTime == 0 {
        return;
      }
      SleepMeans(cyclesPerTick, compensation, sleepTime, timer.cur, counted);
      RestartedOnce(Suspended(cyclesPerTick, compensation, sleepTime, timer.cur, counted), timer.pending);
      hide Suspended, Clocks, Loaded, CounterAfter, PlainSleep;
      var intSave := primask;
      primask := true;
      var reloadValue := StartSleep(before);
      CounterRuns(timer, counted);
      timer := Clocks(timer, counted + 1);
      var woken := StopSleep(reloadValue, after, old(timer.cur), counted);
      Restart(woken.reload);
      assert timer == Restarted(woken, old(timer.pending));
      timer := Clocks(timer, settle);
      timer := timer.(load := cyclesPerTick - 1);
      sleepTime := woken.ticks;
      primask := intSave;
    }
  }

  lemma CountdownMeans(perTick: nat, compensation: nat, sleep: nat, cur: nat)
    requires sleep >= 1
    ensures var span := cur + perTick * (sleep - 1);
            Countdown(perTick, compensation, sleep, cur) == if span > compensation then span - compensation else span
  {
  }

  /** A sleep that fits the counter, in plain figures: woken before the countdown ends, the ticks reported
      and the part of the next one that is gone make up the clocks counted and the compensation;
      later, all ticks but one are reported and the next one is shortened by what was counted since. */
  predicate PlainSleep(perTick: nat, compensation: nat, sleep: nat, cur: nat, counted: nat, ticks: nat, reload: nat)
    requires sleep >= 1
  {
    var countdown := cur + perTick * (sleep - 1) - compensation;
    0 < countdown < 0x100_0000 ==>
      if counted < countdown then
        && ticks * perTick + (perTick - reload) == perTick - cur + counted + compensation
        && 1 <= reload <= perTick && ticks < sleep
      else
        && ticks == sleep - 1
        && var beyond := Part(counted, countdown + 1);
           reload == if beyond + compensation < perTick then perTick - 1 - beyond else perTick - 1
  }

  /** What is reported is a plain sleep. */
  lemma SleepMeans(perTick: nat, compensation: nat, sleep: nat, cur: nat, counted: nat)
    requires Startable(perTick, compensation, sleep, cur)
    ensures var w := Suspended(perTick, compensation, sleep, cur, counted);
            && PlainSleep(perTick, compensation, sleep, cur, counted, w.ticks, w.reload)
            && (w.interrupt <==> 0 < Loaded(perTick, compensation, sleep, cur) <= counted)
  {
    var countdown := cur + perTick * (sleep - 1) - compensation;
    if 0 < countdown < 0x100_0000 {
      SkippedBounds(perTick, compensation, sleep, cur);
      hide Part;
      if counted < countdown {
        EarlyWakeConserves(perTick, compensation, sleep, cur, counted);
      }
    }
  }

  lemma RestartedOnce(w: Wake, pending: bool)
    ensures Clocks(Restarted(w, pending), 1).cur == w.reload
    ensures Clocks(Restarted(w, pending), 1).pending == (pending || w.interrupt)
  {
    var t := Restarted(w, pending);
    assert Clocks(t, 1) == Clock(Clocks(t, 0)) == Clock(t);
  }

  /** A disabled timer stands still. */
  lemma {:induction false} ClocksStopped(t: Timer, n: nat)
    requires !t.enabled
    ensures Clocks(t, n) == t
  {
    if n > 0 {
      ClocksStopped(t, n - 1);
    }
  }

  /** The counter after its first reload and `counted` decrements. */
  function CounterAfter(load: nat, counted: nat): nat {
    load - Part(counted, load + 1)
  }

  lemma CounterRuns(t: Timer, counted: nat)
    requires t.enabled && t.cur == 0 && !t.countFlag
    ensures var flag := 0 < t.load <= counted;
            Clocks(t, counted + 1) == Timer(true, t.load, CounterAfter(t.load, counted), flag, t.pending || flag)
  {
    if t.load == 0 {
      ClocksOfNothing(t, counted + 1);
    } else {
      ClocksFromZero(t, counted + 1);
    }
  }

  lemma {:induction false} CountsDown(t: Timer, n: nat)
    requires t.enabled && n <= t.cur
    ensures Clocks(t, n).cur == t.cur - n && Clocks(t, n).enabled
  {
    if n > 0 {
      CountsDown(t, n - 1);
    }
  }

  lemma {:induction false} ClocksKeep(t: Timer, n: nat)
    ensures Clocks(t, n).load == t.load && Clocks(t, n).enabled == t.enabled
  {
    if n > 0 {
      ClocksKeep(t, n - 1);
    }
  }

  /** The shortened tick is what the counter then counts if and only if it was given a clock to
      reload before LOAD was set back; otherwise it counts a whole tick. */
  lemma ReloadTakesEffect(perTick: nat, w: Wake, settle: nat, pending: bool)
    requires perTick >= 2 && 0 < w.reload < perTick - 1 && settle <= w.reload
    ensures var t := Clocks(Restarted(w, pending), settle).(load := perTick - 1);
            Clocks(t, w.reload + 1 - settle).cur == 0 <==> settle >= 1
  {
    var s := Restarted(w, pending);
    ClocksKeep(s, settle);
    var t := Clocks(s, settle).(load := perTick - 1);
    if settle >= 1 {
      ClocksFromZero(s, settle);
      CountsDown(t, w.reload + 1 - settle);
    } else {
      ClocksFromZero(t, w.reload + 1);
    }
  }
}
