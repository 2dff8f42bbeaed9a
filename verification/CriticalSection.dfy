/** Nested critical sections under preemption: tasks and interrupt handlers that enter and
    leave them, each machine step an access or an instruction, handlers firing between any
    two steps while interrupts are unmasked. */
module CriticalSection {
  import opened Options

  const LOS_MAX_NEST_DEPTH := 10

  /** How interrupts were locked: a critical section, or a plain `LOS_IntLock`. */
  datatype Kind = Critical | Plain

  /** A lock an activity holds. `found` is the PRIMASK it read when it took it; for a plain
      lock that is also the only copy. */
  datatype Lock = Lock(kind: Kind, found: bool)

  /** Where an activity is: between operations, or inside one, with the values its registers hold. */
  datatype Pc =
    | Ready
    | EnterChecked                                // the depth test has passed
    | EnterIndexed(index: int)                    // `nest_level` read early, as the index
    | EnterRead(early: Option<int>, found: bool)       // MRS R0, PRIMASK
    | EnterMasked(early: Option<int>, found: bool)     // CPSID I
    | EnterLoaded(index: int, found: bool)        // the index is known
    | EnterSaved(found: bool)                     // interrupt_states[index] written
    | EnterCounting(level: int, found: bool)      // nest_level read for the increment
    | LeaveCounting(level: int)                   // nest_level read for the decrement
    | LeaveCounted                                // nest_level written
    | LeaveIndexed(level: int)                    // nest_level read again
    | LeaveLoaded(saved: bool)                    // interrupt_states[nest_level] read
    | PlainRead(found: bool)                      // LOS_IntLock: MRS R0, PRIMASK

  /** A task, or a handler with the depth and the mask it found when it fired. */
  datatype Activity = Activity(pc: Pc, locks: seq<Lock>, startLevel: int, startMask: bool)

  /** `nest_level`, `interrupt_states` and PRIMASK. */
  datatype Shared = Shared(level: int, saved: seq<bool>, masked: bool)

  /** The shared variables, the tasks, the one that runs, and the active handlers, the
      innermost last. */
  datatype State = State(v: Shared, tasks: seq<Activity>, current: nat, handlers: seq<Activity>, failed: bool)

  function Init(n: nat, first: nat): State
    requires first < n
  {
    State(Shared(0, seq(LOS_MAX_NEST_DEPTH, _ => false), false),
          seq(n, _ => Activity(Ready, [], 0, false)), first, [], false)
  }

  predicate WellFormed(s: State) {
    |s.v.saved| == LOS_MAX_NEST_DEPTH && s.current < |s.tasks|
  }

  function Top(s: State): Activity
    requires WellFormed(s)
  {
    if s.handlers != [] then s.handlers[|s.handlers| - 1] else s.tasks[s.current]
  }

  /** The running activity and the shared variables after a step; no result is a failed assertion. */
  datatype Stepped = Stepped(a: Activity, v: Shared) | AssertionRaised

  function After(s: State, r: Stepped): State
    requires WellFormed(s)
  {
    match r
    case AssertionRaised => s.(failed := true)
    case Stepped(a, v) =>
      var s := s.(v := v);
      if s.handlers != [] then s.(handlers := s.handlers[|s.handlers| - 1 := a]) else s.(tasks := s.tasks[s.current := a])
  }

  datatype Action =
    | BeginEnter             // call port_enter_critical
    | BeginLeave             // call port_leave_critical for the innermost lock
    | BeginLock              // call LOS_IntLock
    | Unlock                 // call LOS_IntRestore with the value of the innermost lock
    | Micro(early: bool)     // one step inside an operation; `early` picks the order of evaluation
    | Fire                   // an interrupt handler starts
    | ReturnFromHandler      // the innermost handler is done
    | Switch(next: nat)      // PendSV makes another task current

  /** One step inside an operation of an activity. */
  function MicroStep(a: Activity, v: Shared, early: bool): Stepped
    requires |v.saved| == LOS_MAX_NEST_DEPTH
  {
    match a.pc
    case Ready => Stepped(a, v)
    case EnterChecked =>
      Stepped(a.(pc := if early then EnterIndexed(v.level) else EnterRead(None, v.masked)), v)
    case EnterIndexed(i) => Stepped(a.(pc := EnterRead(Some(i), v.masked)), v)
    case EnterRead(e, f) => Stepped(a.(pc := EnterMasked(e, f)), v.(masked := true))
    case EnterMasked(e, f) => Stepped(a.(pc := EnterLoaded(if e.Some? then e.value else v.level, f)), v)
    case EnterLoaded(i, f) =>
      if 0 <= i < LOS_MAX_NEST_DEPTH then Stepped(a.(pc := EnterSaved(f)), v.(saved := v.saved[i := f]))
      else AssertionRaised
    case EnterSaved(f) => Stepped(a.(pc := EnterCounting(v.level, f)), v)
    case EnterCounting(n, f) =>
      Stepped(a.(pc := Ready, locks := a.locks + [Lock(Critical, f)]), v.(level := n + 1))
    case LeaveCounting(n) => Stepped(a.(pc := LeaveCounted), v.(level := n - 1))
    case LeaveCounted => if v.level < 0 then AssertionRaised else Stepped(a.(pc := LeaveIndexed(v.level)), v)
    case LeaveIndexed(n) =>
      if 0 <= n < LOS_MAX_NEST_DEPTH then Stepped(a.(pc := LeaveLoaded(v.saved[n])), v) else AssertionRaised
    case LeaveLoaded(m) =>
      if a.locks == [] then AssertionRaised
      else Stepped(a.(pc := Ready, locks := a.locks[..|a.locks| - 1]), v.(masked := m))
    case PlainRead(f) => Stepped(a.(pc := Ready, locks := a.locks + [Lock(Plain, f)]), v.(masked := true))
  }

  /** An action of the running activity itself. */
  function Act(a: Activity, v: Shared, act: Action): Stepped
    requires |v.saved| == LOS_MAX_NEST_DEPTH
  {
    match act
    case BeginEnter =>
      if a.pc != Ready then Stepped(a, v)
      else if v.level < 0 || v.level >= LOS_MAX_NEST_DEPTH then AssertionRaised
      else Stepped(a.(pc := EnterChecked), v)
    case BeginLeave =>
      if a.pc != Ready || !Leaving(a.locks) then Stepped(a, v)
      else Stepped(a.(pc := LeaveCounting(v.level)), v)
    case BeginLock =>
      if a.pc != Ready then Stepped(a, v) else Stepped(a.(pc := PlainRead(v.masked)), v)
    case Unlock =>
      if a.pc != Ready || a.locks == [] || a.locks[|a.locks| - 1].kind != Plain then Stepped(a, v)
      else Stepped(a.(locks := a.locks[..|a.locks| - 1]), v.(masked := a.locks[|a.locks| - 1].found))
    case Micro(early) => MicroStep(a, v, early)
    case _ => Stepped(a, v)
  }

  /** Any action; one that is not possible now changes nothing. A failed assertion stops everything. */
  function Next(s: State, act: Action): (s': State)
    requires WellFormed(s)
  {
    if s.failed then s
    else match act
      case Fire =>
        if s.v.masked then s
        else s.(handlers := s.handlers + [Activity(Ready, [], s.v.level, s.v.masked)])
      case ReturnFromHandler =>
        if s.handlers == [] || Top(s).pc != Ready || Top(s).locks != [] then s
        else s.(handlers := s.handlers[..|s.handlers| - 1])
      case Switch(next) =>
        if s.v.masked || s.handlers != [] || next >= |s.tasks| then s else s.(current := next)
      case _ => After(s, Act(Top(s), s.v, act))
  }

  function Run(s: State, acts: seq<Action>): (s': State)
    requires WellFormed(s)
    ensures WellFormed(s')
    decreases |acts|
  {
    if acts == [] then s else Run(Next(s, acts[0]), acts[1..])
  }

  // ---------- The invariant ----------

  /** How many critical sections are among the locks: the activity's own depth. */
  function Depth(locks: seq<Lock>): (n: nat)
    ensures n <= |locks|
  {
    if locks == [] then 0
    else Depth(locks[..|locks| - 1]) + (if locks[|locks| - 1].kind == Critical then 1 else 0)
  }

  /** The first lock found interrupts unmasked, every later one masked. */
  predicate Stacked(locks: seq<Lock>) {
    forall k :: 0 <= k < |locks| ==> locks[k].found == (k > 0)
  }

  /** `interrupt_states` holds what each of the activity's critical sections found. */
  predicate Remembered(locks: seq<Lock>, saved: seq<bool>)
    requires |saved| == LOS_MAX_NEST_DEPTH
  {
    locks != [] ==>
      && Depth(locks) <= LOS_MAX_NEST_DEPTH
      && Remembered(locks[..|locks| - 1], saved)
      && (locks[|locks| - 1].kind == Critical ==> saved[Depth(locks) - 1] == locks[|locks| - 1].found)
  }

  /** What holds of the running activity: the shared variables are its own. */
  predicate Active(a: Activity, v: Shared) {
    var d, held := Depth(a.locks), a.locks != [];
    && |v.saved| == LOS_MAX_NEST_DEPTH
    && Stacked(a.locks) && Remembered(a.locks, v.saved) && d <= LOS_MAX_NEST_DEPTH
    && match a.pc
       case Ready => v.level == d && v.masked == held
       case EnterChecked => v.level == d < LOS_MAX_NEST_DEPTH && v.masked == held
       case EnterIndexed(i) => v.level == d < LOS_MAX_NEST_DEPTH && v.masked == held && i == d
       case EnterRead(e, f) => v.level == d < LOS_MAX_NEST_DEPTH && v.masked == held == f && (e.Some? ==> e.value == d)
       case EnterMasked(e, f) => v.level == d < LOS_MAX_NEST_DEPTH && v.masked && f == held && (e.Some? ==> e.value == d)
       case EnterLoaded(i, f) => v.level == d < LOS_MAX_NEST_DEPTH && v.masked && f == held && i == d
       case EnterSaved(f) => v.level == d < LOS_MAX_NEST_DEPTH && v.masked && f == held && v.saved[d] == f
       case EnterCounting(n, f) =>
         v.level == d < LOS_MAX_NEST_DEPTH && v.masked && f == held && v.saved[d] == f && n == d
       case LeaveCounting(n) => Leaving(a.locks) && v.level == d && v.masked && n == d
       case LeaveCounted => Leaving(a.locks) && v.level == d - 1 && v.masked
       case LeaveIndexed(n) => Leaving(a.locks) && v.level == d - 1 && v.masked && n == d - 1
       case LeaveLoaded(m) => Leaving(a.locks) && v.level == d - 1 && v.masked && m == a.locks[|a.locks| - 1].found
       case PlainRead(f) => v.level == d && v.masked == held == f
  }

  /** The innermost lock is a critical section. */
  predicate Leaving(locks: seq<Lock>) {
    locks != [] && locks[|locks| - 1].kind == Critical
  }

  /** What holds of an activity that was interrupted or switched out: it holds no lock, and
      what it has read so far is what it will find again. */
  predicate Parked(a: Activity) {
    && a.locks == []
    && match a.pc
       case Ready => true
       case EnterChecked => true
       case EnterIndexed(i) => i == 0
       case EnterRead(e, f) => !f && (e.Some? ==> e.value == 0)
       case PlainRead(f) => !f
       case _ => false
  }

  predicate Inv(s: State) {
    && WellFormed(s)
    && Active(Top(s), s.v)
    && (forall t :: 0 <= t < |s.tasks| && (t != s.current || s.handlers != []) ==> Parked(s.tasks[t]))
    && (forall h :: 0 <= h < |s.handlers| - 1 ==> Parked(s.handlers[h]))
    && (forall h :: 0 <= h < |s.handlers| ==> s.handlers[h].startLevel == 0 && !s.handlers[h].startMask)
    && (s.failed ==> Top(s).pc == Ready && Depth(Top(s).locks) == LOS_MAX_NEST_DEPTH)
  }

  // ---------- Each step ----------

  lemma DepthPush(locks: seq<Lock>, l: Lock)
    ensures Depth(locks + [l]) == Depth(locks) + (if l.kind == Critical then 1 else 0)
  {
    assert (locks + [l])[..|locks|] == locks;
  }

  lemma RememberedPush(locks: seq<Lock>, l: Lock, saved: seq<bool>)
    requires |saved| == LOS_MAX_NEST_DEPTH && Remembered(locks, saved)
    requires if l.kind == Critical then Depth(locks) < LOS_MAX_NEST_DEPTH && saved[Depth(locks)] == l.found
             else Depth(locks) <= LOS_MAX_NEST_DEPTH
    ensures Remembered(locks + [l], saved)
  {
    DepthPush(locks, l);
    assert (locks + [l])[..|locks|] == locks;
  }

  /** Writing a slot above the activity's depth forgets nothing. */
  lemma {:induction false} RememberedUpdate(locks: seq<Lock>, saved: seq<bool>, i: nat, f: bool)
    requires |saved| == LOS_MAX_NEST_DEPTH && Remembered(locks, saved) && Depth(locks) <= i < LOS_MAX_NEST_DEPTH
    ensures Remembered(locks, saved[i := f])
    decreases |locks|
  {
    if locks != [] {
      RememberedUpdate(locks[..|locks| - 1], saved, i, f);
    }
  }

  /** An interrupted activity that holds nothing is exactly where it was: while interrupts are
      unmasked the running activity can be parked, and a parked one can run. */
  lemma ParkedIsActive(a: Activity, v: Shared)
    requires |v.saved| == LOS_MAX_NEST_DEPTH && !v.masked
    ensures Active(a, v) ==> Parked(a) && v.level == 0
    ensures Parked(a) && v.level == 0 ==> Active(a, v)
  {
  }

  /** The result of an action: the activity still owns the shared variables, or the assertion
      is that of its own eleventh level. */
  predicate StepOk(a: Activity, r: Stepped) {
    match r
    case AssertionRaised => a.pc == Ready && Depth(a.locks) == LOS_MAX_NEST_DEPTH
    case Stepped(a', v') => Active(a', v') && a'.startLevel == a.startLevel && a'.startMask == a.startMask
  }

  /** Taking a lock: one more is held, and interrupts are masked. */
  lemma PushOk(a: Activity, v: Shared, kind: Kind)
    requires Stacked(a.locks) && |v.saved| == LOS_MAX_NEST_DEPTH && Remembered(a.locks, v.saved) && v.masked
    requires if kind == Critical then Depth(a.locks) < LOS_MAX_NEST_DEPTH && v.saved[Depth(a.locks)] == (a.locks != [])
             else Depth(a.locks) <= LOS_MAX_NEST_DEPTH
    requires v.level == Depth(a.locks) + (if kind == Critical then 1 else 0)
    ensures Active(a.(pc := Ready, locks := a.locks + [Lock(kind, a.locks != [])]), v)
  {
    DepthPush(a.locks, Lock(kind, a.locks != []));
    RememberedPush(a.locks, Lock(kind, a.locks != []), v.saved);
  }

  /** Releasing the innermost lock: the mask becomes what it found. */
  lemma PopOk(a: Activity, v: Shared)
    requires a.locks != [] && Stacked(a.locks) && |v.saved| == LOS_MAX_NEST_DEPTH && Remembered(a.locks, v.saved)
    requires v.level == Depth(a.locks[..|a.locks| - 1]) && v.masked == a.locks[|a.locks| - 1].found
    ensures Active(a.(pc := Ready, locks := a.locks[..|a.locks| - 1]), v)
  {
    var front := a.locks[..|a.locks| - 1];
    assert a.locks[|a.locks| - 1].found == (|a.locks| - 1 > 0) == (front != []);
    if front != [] {
      assert Depth(front) <= LOS_MAX_NEST_DEPTH;
    }
  }

  predicate Entering(pc: Pc) {
    pc.EnterChecked? || pc.EnterIndexed? || pc.EnterRead? || pc.EnterMasked? || pc.EnterLoaded? || pc.EnterSaved?
  }

  lemma EnteringOk(a: Activity, v: Shared, early: bool)
    requires Active(a, v) && Entering(a.pc)
    ensures StepOk(a, MicroStep(a, v, early)) && MicroStep(a, v, early).Stepped?
  {
    hide Depth, Stacked, Remembered;
    if a.pc.EnterLoaded? {
      RememberedUpdate(a.locks, v.saved, a.pc.index, a.pc.found);
    }
  }

  lemma MicroOk(a: Activity, v: Shared, early: bool)
    requires Active(a, v)
    ensures StepOk(a, MicroStep(a, v, early)) && MicroStep(a, v, early).Stepped?
  {
    hide Active, StepOk, MicroStep;
    if Entering(a.pc) {
      EnteringOk(a, v, early);
    } else if a.pc.EnterCounting? || a.pc.PlainRead? {
      LockTaken(a, v, early);
    } else if a.pc.LeaveLoaded? {
      LockDropped(a, v, early);
    } else {
      LeavingOk(a, v, early);
    }
  }

  lemma LockTaken(a: Activity, v: Shared, early: bool)
    requires Active(a, v) && (a.pc.EnterCounting? || a.pc.PlainRead?)
    ensures StepOk(a, MicroStep(a, v, early)) && MicroStep(a, v, early).Stepped?
  {
    hide Stacked, Remembered, Depth;
    if a.pc.EnterCounting? {
      PushOk(a, v.(level := a.pc.level + 1), Critical);
    } else {
      PushOk(a, v.(masked := true), Plain);
    }
  }

  lemma LockDropped(a: Activity, v: Shared, early: bool)
    requires Active(a, v) && a.pc.LeaveLoaded?
    ensures StepOk(a, MicroStep(a, v, early)) && MicroStep(a, v, early).Stepped?
  {
    hide Stacked, Remembered;
    PopOk(a, v.(masked := a.pc.saved));
  }

  lemma LeavingOk(a: Activity, v: Shared, early: bool)
    requires Active(a, v) && (a.pc.Ready? || a.pc.LeaveCounting? || a.pc.LeaveCounted? || a.pc.LeaveIndexed?)
    ensures StepOk(a, MicroStep(a, v, early)) && MicroStep(a, v, early).Stepped?
  {
  }

  lemma ActOk(a: Activity, v: Shared, act: Action)
    requires Active(a, v)
    ensures StepOk(a, Act(a, v, act))
  {
    hide MicroStep;
    if act.Micro? {
      MicroOk(a, v, act.early);
    } else if act.Unlock? && a.pc == Ready && a.locks != [] && a.locks[|a.locks| - 1].kind == Plain {
      PopOk(a, v.(masked := a.locks[|a.locks| - 1].found));
    }
  }

  lemma AfterOk(s: State, r: Stepped)
    requires Inv(s) && !s.failed && StepOk(Top(s), r)
    ensures Inv(After(s, r))
  {
    hide Parked, Depth, Stacked, Remembered, Leaving;
  }

  lemma FireOk(s: State)
    requires Inv(s)
    ensures Inv(Next(s, Fire))
  {
    if !s.v.masked && !s.failed {
      var started := Activity(Ready, [], s.v.level, s.v.masked);
      ParkedIsActive(Top(s), s.v);
      ParkedReady(started);
      ParkedIsActive(started, s.v);
    }
  }

  lemma ReturnOk(s: State)
    requires Inv(s)
    ensures Inv(Next(s, ReturnFromHandler))
  {
    hide Active;
    if |s.handlers| > 0 {
      HandlerDone(s);
    }
  }

  lemma SwitchOk(s: State, next: nat)
    requires Inv(s)
    ensures Inv(Next(s, Switch(next)))
  {
    hide Active;
    if !s.v.masked && next < |s.tasks| {
      ParkedIsActive(Top(s), s.v);
      ParkedIsActive(s.tasks[next], s.v);
    }
  }

  lemma NextOk(s: State, act: Action)
    requires Inv(s)
    ensures Inv(Next(s, act))
  {
    hide Act, Active, Parked;
    match act {
      case Fire => FireOk(s);
      case ReturnFromHandler => ReturnOk(s);
      case Switch(next) => SwitchOk(s, next);
      case _ =>
        ActOk(Top(s), s.v, act);
        if !s.failed {
          AfterOk(s, Act(Top(s), s.v, act));
        }
    }
  }

  lemma ParkedReady(a: Activity)
    requires a.pc == Ready && a.locks == []
    ensures Parked(a)
  {
  }

  /** When a handler that holds nothing returns, what it interrupted goes on. */
  lemma HandlerDone(s: State)
    requires Inv(s) && |s.handlers| > 0
    ensures Top(s).pc == Ready && Top(s).locks == [] ==>
      Active(if |s.handlers| > 1 then s.handlers[|s.handlers| - 2] else s.tasks[s.current], s.v)
  {
  }

  lemma {:induction false} RunOk(s: State, acts: seq<Action>)
    requires Inv(s)
    ensures Inv(Run(s, acts))
    decreases |acts|
  {
    if acts != [] {
      NextOk(s, acts[0]);
      RunOk(Next(s, acts[0]), acts[1..]);
    }
  }

  // ---------- Results ----------

  /** In every reachable state an open critical section means that interrupts are masked, and
      the depth assertion has fired only for an activity that itself entered an eleventh time. */
  lemma CriticalSectionsSurvive(n: nat, first: nat, acts: seq<Action>)
    requires first < n
    ensures var s := Run(Init(n, first), acts);
            && (s.v.level > 0 ==> s.v.masked)
            && (s.failed ==> Depth(Top(s).locks) == 10)
  {
    RunOk(Init(n, first), acts);
  }

  /** A handler that returns leaves `nest_level` and the mask as it found them. */
  lemma HandlersAreTransparent(n: nat, first: nat, acts: seq<Action>)
    requires first < n
    ensures var s := Run(Init(n, first), acts);
            s.handlers != [] && Top(s).pc == Ready && Top(s).locks == [] ==>
              s.v.level == Top(s).startLevel && s.v.masked == Top(s).startMask
  {
    RunOk(Init(n, first), acts);
  }

  /** A leave restores the mask that its own enter saved. */
  lemma LeaveRestores(n: nat, first: nat, acts: seq<Action>)
    requires first < n
    ensures var s := Run(Init(n, first), acts);
            Top(s).pc.LeaveLoaded? && !s.failed ==>
              var a := Top(s);
              && Leaving(a.locks)
              && MicroStep(a, s.v, false).Stepped?
              && MicroStep(a, s.v, false).v.masked == a.locks[|a.locks| - 1].found
              && MicroStep(a, s.v, false).a.locks == a.locks[..|a.locks| - 1]
  {
    RunOk(Init(n, first), acts);
  }

  /** The depth assertion is exact: whatever preempted the activity, entering raises it if and
      only if the activity itself already holds the full depth. */
  lemma AssertionExact(n: nat, first: nat, acts: seq<Action>)
    requires first < n
    ensures var s := Run(Init(n, first), acts);
            !s.failed && Top(s).pc == Ready ==>
              (Next(s, BeginEnter).failed <==> Depth(Top(s).locks) == 10)
  {
    RunOk(Init(n, first), acts);
  }

  /** `n` undisturbed steps inside an operation. */
  function Micros(r: Stepped, early: bool, n: nat): Stepped
    decreases n
  {
    if n == 0 || r.AssertionRaised? || |r.v.saved| != LOS_MAX_NEST_DEPTH then r
    else Micros(MicroStep(r.a, r.v, early), early, n - 1)
  }

  /** Enter takes effect whole when nothing comes between: one section more, its mask saved at
      its level, interrupts masked; either order of evaluation gives the same. */
  lemma EnterCompletes(a: Activity, v: Shared, early: bool)
    requires Active(a, v) && a.pc == Ready && Depth(a.locks) < LOS_MAX_NEST_DEPTH
    ensures Micros(Act(a, v, BeginEnter), early, if early then 7 else 6)
         == Stepped(a.(locks := a.locks + [Lock(Critical, v.masked)]),
                    Shared(v.level + 1, v.saved[v.level := v.masked], true))
  {
    hide Depth, Stacked, Remembered, Micros;
    var e := if early then Some(v.level) else None;
    if early {
      MicrosStep(a.(pc := EnterChecked), v, early, 7);
      MicrosStep(a.(pc := EnterIndexed(v.level)), v, early, 6);
    } else {
      MicrosStep(a.(pc := EnterChecked), v, early, 6);
    }
    var m := v.(masked := true);
    MicrosStep(a.(pc := EnterRead(e, v.masked)), v, early, 5);
    MicrosStep(a.(pc := EnterMasked(e, v.masked)), m, early, 4);
    MicrosStep(a.(pc := EnterLoaded(v.level, v.masked)), m, early, 3);
    var n := m.(saved := v.saved[v.level := v.masked]);
    MicrosStep(a.(pc := EnterSaved(v.masked)), n, early, 2);
    MicrosStep(a.(pc := EnterCounting(v.level, v.masked)), n, early, 1);
    NoMicros(Stepped(a.(locks := a.locks + [Lock(Critical, v.masked)]), n.(level := v.level + 1)), early);
  }

  lemma MicrosStep(a: Activity, v: Shared, early: bool, n: nat)
    requires n > 0 && |v.saved| == LOS_MAX_NEST_DEPTH
    ensures Micros(Stepped(a, v), early, n) == Micros(MicroStep(a, v, early), early, n - 1)
  {
  }

  lemma NoMicros(r: Stepped, early: bool)
    ensures Micros(r, early, 0) == r
  {
  }

  /** Leave takes back exactly one section and restores the mask that it found. */
  lemma LeaveCompletes(a: Activity, v: Shared)
    requires Active(a, v) && a.pc == Ready && Leaving(a.locks)
    ensures Micros(Act(a, v, BeginLeave), false, 4)
         == Stepped(a.(locks := a.locks[..|a.locks| - 1]),
                    Shared(v.level - 1, v.saved, a.locks[|a.locks| - 1].found))
  {
    hide Stacked, Micros;
    var front, found := a.locks[..|a.locks| - 1], a.locks[|a.locks| - 1].found;
    assert v.level == Depth(front) + 1 && v.saved[v.level - 1] == found;
    var u := v.(level := v.level - 1);
    MicrosStep(a.(pc := LeaveCounting(v.level)), v, false, 4);
    MicrosStep(a.(pc := LeaveCounted), u, false, 3);
    MicrosStep(a.(pc := LeaveIndexed(u.level)), u, false, 2);
    MicrosStep(a.(pc := LeaveLoaded(found)), u, false, 1);
    NoMicros(Stepped(a.(locks := front), u.(masked := found)), false);
  }

  // ---------- The functions without preemption ----------

  /** The port's variables as the C functions use them. */
  class Port {
    var interruptStates: array<bool>
    var nestLevel: int
    var primask: bool
    ghost var held: seq<bool>    // the mask found by each open section, outermost first

    ghost predicate Valid()
      reads this, interruptStates
    {
      && interruptStates.Length == LOS_MAX_NEST_DEPTH
      && nestLevel == |held| <= LOS_MAX_NEST_DEPTH
      && interruptStates[..nestLevel] == held
    }

    constructor (mask: bool)
      ensures Valid() && fresh(interruptStates) && held == [] && primask == mask
    {
      interruptStates := new bool[LOS_MAX_NEST_DEPTH](_ => false);
      nestLevel, primask, held := 0, mask, [];
    }

    /** `LOS_IntLock`. */
    method IntLock() returns (found: bool)
      modifies `primask
      ensures found == old(primask) && primask
    {
      found := primask;
      primask := true;
    }

    /** `port_enter_critical`; `raised` is the assertion, after which nothing more happens. */
    method EnterCritical() returns (raised: bool)
      requires Valid()
      modifies this, interruptStates
      ensures Valid() && interruptStates == old(interruptStates)
      ensures raised <==> |old(held)| == 10
      ensures raised ==> held == old(held) && primask == old(primask)
      ensures !raised ==> held == old(held) + [old(primask)] && primask
    {
      if nestLevel >= LOS_MAX_NEST_DEPTH {
        return true;
      }
      var found := IntLock();
      interruptStates[nestLevel] := found;
      nestLevel := nestLevel + 1;
      held := held + [found];
      return false;
    }

    /** `port_leave_critical`. */
    method LeaveCritical() returns (raised: bool)
      requires Valid()
      modifies this
      ensures interruptStates == old(interruptStates)
      ensures raised <==> old(held) == []
      ensures !raised ==> Valid() && old(held) == held + [primask]
    {
      nestLevel := nestLevel - 1;
      if nestLevel < 0 {
        return true;
      }
      primask := interruptStates[nestLevel];
      held := held[..nestLevel];
      return false;
    }

    /** Sections nested `depth` deep, whatever the mask was and whatever is already open. */
    method Nested(depth: nat)
      requires Valid() && |held| + depth <= LOS_MAX_NEST_DEPTH
      modifies this, interruptStates
      ensures Valid() && held == old(held) && primask == old(primask)
      decreases depth
    {
      if depth > 0 {
        var raised := EnterCritical();
        Nested(depth - 1);
        ghost var inner := held;
        raised := LeaveCritical();
        assert inner == held + [primask];
      }
    }
  }
}
