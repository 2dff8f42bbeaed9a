/** The PendSV context switch of the Cortex-M3 port, instruction by instruction, with
    the stacking the hardware does around it (ARMv7-M Architecture Reference Manual,
    sections B1.5.6 and B1.5.8). Without FPU and without signal delivery. Bits 1:0 of a
    stack pointer are always zero, so addresses count words. */
module ContextSwitch {
  import opened Words

  type Word = x: int | 0 <= x < 0x1_0000_0000

  const EXC_RETURN_THREAD_PSP: Word := 0xFFFF_FFFD
  const ALIGN_BIT := 0x200      // bit 9 of a stacked xPSR
  const SW_WORDS := 9           // R4-R11 and PRIMASK
  const HW_WORDS := 8           // R0-R3, R12, LR, PC, xPSR
  const FRAME_WORDS := 17       // sizeof(TaskContext) in words
  const MAX_FRAME := 18         // with the alignment word the hardware may add

  // ---------- A task's view ----------

  /** Everything a task can observe of itself: its registers and the stack it has in use. */
  datatype Context = Context(r: seq<Word>, lr: Word, pc: Word, psr: Word, psp: nat, primask: Word, stack: seq<Word>)

  datatype Region = Region(base: nat, top: nat)

  /** Branching drops bit 0, which selects the instruction set. */
  function BranchTarget(w: Word): Word { w - w % 2 }

  predicate HasAlignBit(psr: Word) { psr / ALIGN_BIT % 2 == 1 }

  /** Bit 24 of xPSR. A processor that returns to a context without it faults. */
  predicate Thumb(psr: Word) { psr / 0x100_0000 % 2 == 1 }

  /** The alignment bit is another one. */
  lemma ThumbWithoutAlign(w: Word)
    ensures Thumb(WithoutAlign(w)) == Thumb(w)
  {
    if HasAlignBit(w) {
      var q, r := w / 0x100_0000, w % 0x100_0000;
      var u, v := w / ALIGN_BIT, w % ALIGN_BIT;
      UniqueResidue(r, u - q * 0x8000, ALIGN_BIT, v);
      assert r >= ALIGN_BIT;
      UniqueResidue(w - ALIGN_BIT, q, 0x100_0000, r - ALIGN_BIT);
    }
  }

  function WithAlign(psr: Word, align: bool): (w: Word)
    requires !HasAlignBit(psr)
    ensures HasAlignBit(w) == align && WithoutAlign(w) == psr
  {
    if align then psr + ALIGN_BIT else psr
  }

  function WithoutAlign(w: Word): Word {
    if HasAlignBit(w) then w - ALIGN_BIT else w
  }

  lemma Branched(w: Word)
    ensures BranchTarget(BranchTarget(w)) == BranchTarget(w)
  {
  }

  lemma Unaligned(w: Word)
    ensures !HasAlignBit(WithoutAlign(w))
  {
    if HasAlignBit(w) {
      UniqueResidue(w - ALIGN_BIT, w / ALIGN_BIT - 1, ALIGN_BIT, w % ALIGN_BIT);
    }
  }

  /** The context of the task whose saved frame starts at `sp` in a stack that ends at `top`. */
  function Decode(mem: seq<Word>, sp: nat, top: nat): Context
    requires Saved(mem, sp, top)
  {
    var f := mem[sp..sp + FRAME_WORDS];
    var psp := ResumedPsp(mem, sp);
    Context(f[9..13] + f[0..8] + [f[13]], f[14], BranchTarget(f[15]), WithoutAlign(f[16]), psp, f[8], mem[psp..top])
  }

  function ResumedPsp(mem: seq<Word>, sp: nat): nat
    requires sp + FRAME_WORDS <= |mem|
  {
    sp + FRAME_WORDS + (if HasAlignBit(mem[sp + 16]) then 1 else 0)
  }

  /** A frame lies at `sp`, below `top`. */
  predicate Saved(mem: seq<Word>, sp: nat, top: nat) {
    top <= |mem| && sp + FRAME_WORDS <= |mem| && ResumedPsp(mem, sp) <= top
  }

  // ---------- Memory ----------

  function Store(mem: seq<Word>, a: nat, ws: seq<Word>): (m: seq<Word>)
    requires a + |ws| <= |mem|
    ensures |m| == |mem| && m[a..a + |ws|] == ws
    ensures forall k :: 0 <= k < |mem| && !(a <= k < a + |ws|) ==> m[k] == mem[k]
  {
    mem[..a] + ws + mem[a + |ws|..]
  }

  lemma IsStore(mem: seq<Word>, m: seq<Word>, a: nat, ws: seq<Word>)
    requires a + |ws| <= |mem| == |m| && m[a..a + |ws|] == ws
    requires forall k :: 0 <= k < |mem| && !(a <= k < a + |ws|) ==> m[k] == mem[k]
    ensures m == Store(mem, a, ws)
  {
    assert m == m[..a] + m[a..a + |ws|] + m[a + |ws|..];
    assert m[..a] == mem[..a] && m[a + |ws|..] == mem[a + |ws|..];
  }

  /** A frame depends only on the words between its start and the top of its stack. */
  lemma DecodeFrameLocal(mem: seq<Word>, mem': seq<Word>, sp: nat, top: nat)
    requires |mem| == |mem'| && Saved(mem, sp, top)
    requires forall k :: sp <= k < top ==> mem[k] == mem'[k]
    ensures Saved(mem', sp, top) && Decode(mem', sp, top) == Decode(mem, sp, top)
  {
    assert mem'[sp..sp + FRAME_WORDS] == mem[sp..sp + FRAME_WORDS];
    var psp := ResumedPsp(mem, sp);
    assert mem'[psp..top] == mem[psp..top];
  }

  /** The stacks do not overlap. */
  predicate DisjointStacks(regions: seq<Region>, mainStack: Region, size: nat) {
    && (forall t :: 0 <= t < |regions| ==> regions[t].base <= regions[t].top <= size)
    && mainStack.base <= mainStack.top <= size
    && (forall t, u :: 0 <= t < |regions| && 0 <= u < |regions| && t != u ==> Apart(regions[t], regions[u]))
    && (forall t :: 0 <= t < |regions| ==> Apart(regions[t], mainStack))
  }

  predicate Apart(a: Region, b: Region) { a.top <= b.base || b.top <= a.base }

  /** Two memories agree on every task's stack. */
  predicate SameStacks(regions: seq<Region>, m: seq<Word>, m': seq<Word>) {
    && |m| == |m'|
    && forall t :: 0 <= t < |regions| ==> SameRegion(regions[t], m, m')
  }

  predicate SameRegion(region: Region, m: seq<Word>, m': seq<Word>)
    requires |m| == |m'|
  {
    forall k :: region.base <= k < region.top && k < |m| ==> m[k] == m'[k]
  }

  /** A suspended task's frame, and the room above it, are inside the task's own stack. */
  predicate FrameIn(region: Region, mem: seq<Word>, sp: nat) {
    && Saved(mem, sp, region.top)
    && region.base <= sp
    && region.base + MAX_FRAME <= ResumedPsp(mem, sp)
    && Thumb(mem[sp + 16])
  }

  /** A frame survives whatever does not touch its stack. */
  lemma FrameKept(region: Region, mem: seq<Word>, mem': seq<Word>, sp: nat)
    requires |mem| == |mem'| && FrameIn(region, mem, sp) && SameRegion(region, mem, mem')
    ensures FrameIn(region, mem', sp) && Decode(mem', sp, region.top) == Decode(mem, sp, region.top)
  {
    DecodeFrameLocal(mem, mem', sp, region.top);
    assert mem'[sp + 16] == mem[sp + 16];
  }

  lemma FrameBelow(region: Region, mem: seq<Word>, sp: nat)
    requires FrameIn(region, mem, sp)
    ensures sp + FRAME_WORDS <= region.top <= |mem|
  {
  }

  lemma SameLength(regions: seq<Region>, m: seq<Word>, m': seq<Word>)
    requires SameStacks(regions, m, m')
    ensures |m| == |m'|
  {
  }

  lemma SameRegionOf(regions: seq<Region>, m: seq<Word>, m': seq<Word>, t: nat)
    requires SameStacks(regions, m, m') && t < |regions|
    ensures |m| == |m'| && SameRegion(regions[t], m, m')
  {
  }

  /** Words stacked on one task's stack leave every other task's frame alone. */
  lemma StackedApart(regions: seq<Region>, mainStack: Region, mem0: seq<Word>, mem1: seq<Word>, mem2: seq<Word>,
                     sp: seq<nat>, me: nat, p: nat, ws: seq<Word>)
    requires DisjointStacks(regions, mainStack, |mem0|) && |sp| == |regions| && me < |regions|
    requires regions[me].base <= p && p + |ws| <= regions[me].top && mem1 == Store(mem0, p, ws)
    requires SameStacks(regions, mem1, mem2)
    requires forall t :: 0 <= t < |regions| && t != me ==> FrameIn(regions[t], mem0, sp[t])
    ensures |mem2| == |mem0|
    ensures forall t :: 0 <= t < |regions| && t != me ==>
              && FrameIn(regions[t], mem2, sp[t])
              && Decode(mem2, sp[t], regions[t].top) == Decode(mem0, sp[t], regions[t].top)
  {
    hide Decode, Store;
    forall t | 0 <= t < |regions| && t != me
      ensures FrameIn(regions[t], mem2, sp[t])
      ensures Decode(mem2, sp[t], regions[t].top) == Decode(mem0, sp[t], regions[t].top)
    {
      StoreApart(regions[t], regions[me], mem0, p, ws);
      assert SameRegion(regions[t], mem1, mem2);
      FrameKept(regions[t], mem0, mem2, sp[t]);
    }
  }

  lemma SliceOfSlice(mem: seq<Word>, a: nat, n: nat, i: nat, j: nat)
    requires a + n <= |mem| && i <= j <= n
    ensures mem[a..a + n][i..j] == mem[a + i..a + j]
  {
    var f, g := mem[a..a + n][i..j], mem[a + i..a + j];
    assert forall k :: 0 <= k < j - i ==> f[k] == g[k];
  }

  lemma StoreApart(region: Region, mine: Region, mem: seq<Word>, a: nat, ws: seq<Word>)
    requires Apart(region, mine) && mine.base <= a && a + |ws| <= mine.top <= |mem|
    ensures SameRegion(region, mem, Store(mem, a, ws))
  {
  }

  lemma SameStacksChain(regions: seq<Region>, m: seq<Word>, m': seq<Word>, m'': seq<Word>)
    requires SameStacks(regions, m, m') && SameStacks(regions, m', m'')
    ensures SameStacks(regions, m, m'')
  {
    forall t | 0 <= t < |regions| ensures SameRegion(regions[t], m, m'') {
      assert SameRegion(regions[t], m, m') && SameRegion(regions[t], m', m'');
    }
  }

  lemma StoreKeepsSame(regions: seq<Region>, m: seq<Word>, m': seq<Word>, a: nat, ws: seq<Word>)
    requires SameStacks(regions, m, m') && a + |ws| <= |m|
    ensures SameStacks(regions, Store(m, a, ws), Store(m', a, ws))
  {
    var n, n' := Store(m, a, ws), Store(m', a, ws);
    forall t | 0 <= t < |regions| ensures SameRegion(regions[t], n, n') {
      assert SameRegion(regions[t], m, m');
      forall k | a <= k < a + |ws| ensures n[k] == n'[k] {
        assert n[a..a + |ws|][k - a] == n'[a..a + |ws|][k - a];
      }
    }
  }

  // ---------- The processor ----------

  class Cpu {
    const regions: seq<Region>       // one stack per task
    const mainStack: Region          // the handlers' stack
    var r: seq<Word>                 // R0-R12
    var lr: Word
    var pc: Word
    var psr: Word
    var psp: nat
    var msp: nat
    var primask: Word
    var mem: seq<Word>
    var stackPointer: seq<nat>       // in each task's control block
    var runTask: nat                 // g_losTask.runTask
    var newTask: nat                 // g_losTask.newTask

    predicate Layout()
      reads this`mem
    {
      DisjointStacks(regions, mainStack, |mem|)
    }

    predicate Suspended(t: nat)
      requires t < |regions| && t < |stackPointer|
      reads `mem, `stackPointer
    {
      FrameIn(regions[t], mem, stackPointer[t])
    }

    predicate Valid()
      reads this
    {
      && Layout() && |r| == 13 && |stackPointer| == |regions| && runTask < |regions|
      && mainStack.base + 2 <= msp <= mainStack.top
      && forall t :: 0 <= t < |regions| && t != runTask ==> Suspended(t)
    }

    /** Thread mode: the running task's stack has room for a frame. */
    predicate Running()
      reads this
    {
      && Valid() && BranchTarget(pc) == pc && !HasAlignBit(psr) && Thumb(psr)
      && regions[runTask].base + MAX_FRAME <= psp <= regions[runTask].top
    }

    /** The context of a task: the registers if it runs, its frame if it does not. */
    function ContextOf(t: nat): Context
      requires Running() && t < |regions|
      reads this
    {
      if t == runTask then Context(r, lr, pc, psr, psp, primask, mem[psp..regions[t].top])
      else assert Suspended(t); Decode(mem, stackPointer[t], regions[t].top)
    }

    /** Exception entry: the hardware pushes eight words on the process stack, aligned to
        eight bytes, and the caller-saved registers become unknown. */
    method ExceptionEntry()
      requires Running() && primask == 0
      modifies `r, `lr, `pc, `psr, `psp, `mem
      ensures |r| == 13 && r[4..12] == old(r[4..12]) && lr == EXC_RETURN_THREAD_PSP
      ensures psp == old(psp) - HW_WORDS - old(psp) % 2
      ensures mem == Store(old(mem), psp, HwWords(old(ContextOf(runTask))))
    {
      var frame := HwWords(ContextOf(runTask));
      psp := psp - HW_WORDS - psp % 2;
      mem := Store(mem, psp, frame);
      var r0: Word, r1: Word, r2: Word, r3: Word, r12: Word :| true;
      r := [r0, r1, r2, r3] + r[4..12] + [r12];
      lr := EXC_RETURN_THREAD_PSP;
      var vector: Word, exceptionPsr: Word :| true;
      pc, psr := vector, exceptionPsr;
    }

    /** Exception return with the process stack: the same eight words come back, and the
        alignment word is dropped if one was added. */
    method ExceptionReturn()
      requires |r| == 13 && lr == EXC_RETURN_THREAD_PSP && psp + HW_WORDS <= |mem| && Thumb(mem[psp + 7])
      modifies `r, `lr, `pc, `psr, `psp
      ensures |r| == 13 && r == old(mem[psp..psp + 4]) + old(r[4..12]) + [old(mem[psp + 4])]
      ensures lr == old(mem[psp + 5]) && pc == BranchTarget(old(mem[psp + 6])) && psr == WithoutAlign(old(mem[psp + 7]))
      ensures psp == old(psp) + HW_WORDS + (if HasAlignBit(old(mem[psp + 7])) then 1 else 0) && Thumb(psr)
    {
      var f := mem[psp..psp + HW_WORDS];
      assert f[0..4] == mem[psp..psp + 4];
      ThumbWithoutAlign(f[7]);
      hide HasAlignBit;
      r := f[0..4] + r[4..12] + [f[4]];
      lr, pc, psr := f[5], BranchTarget(f[6]), WithoutAlign(f[7]);
      psp := psp + HW_WORDS + (if HasAlignBit(f[7]) then 1 else 0);
    }

    /** A call into the kernel's C code from the handler: the callee-saved registers, the
        handlers' stack above the stack pointer and every task's stack survive. */
    method CallKernel(result: Word)
      requires |r| == 13
      modifies `r, `lr, `mem
      ensures |r| == 13 && r[0] == result && r[4..12] == old(r[4..12])
      ensures SameStacks(regions, old(mem), mem)
      ensures |mem| == |old(mem)|
      ensures forall k :: msp <= k < mainStack.top && k < |mem| ==> mem[k] == old(mem[k])
    {
      var r1: Word, r2: Word, r3: Word, r12: Word, link: Word :| true;
      r := [result, r1, r2, r3] + r[4..12] + [r12];
      lr := link;
      var m: seq<Word> :| && SameStacks(regions, mem, m) && |m| == |mem|
                          && forall k :: msp <= k < mainStack.top && k < |m| ==> m[k] == mem[k];
      mem := m;
    }

    /** `push {r12, lr}` on the handlers' stack. */
    method PushPair()
      requires Layout() && |r| == 13 && mainStack.base + 2 <= msp <= mainStack.top
      modifies `msp, `mem
      ensures msp == old(msp) - 2 && |mem| == |old(mem)|
      ensures mem[msp] == r[12] && mem[msp + 1] == lr
      ensures SameStacks(regions, old(mem), mem)
    {
      msp := msp - 2;
      mem := Store(mem, msp, [r[12], lr]);
      assert mem[msp..msp + 2][0] == r[12] && mem[msp..msp + 2][1] == lr;
    }

    /** `push {r12, lr}`, a call, `pop {r12, lr}`. */
    method GuardedCall(result: Word)
      requires Layout() && |r| == 13 && mainStack.base + 2 <= msp <= mainStack.top
      modifies `r, `lr, `msp, `mem
      ensures |r| == 13 && r[0] == result && r[4..12] == old(r[4..12]) && r[12] == old(r[12]) && lr == old(lr)
      ensures msp == old(msp) && SameStacks(regions, old(mem), mem)
    {
      PushPair();
      CallKernel(result);
      r := r[12 := mem[msp]];
      lr := mem[msp + 1];
      msp := msp + 2;
    }

    /** `HalPendSV`. The scheduler's answer and its choice of the next task are arbitrary. */
    method HalPendSV(switching: bool, chosen: nat)
      requires Layout() && |r| == 13 && |stackPointer| == |regions| && runTask < |regions|
      requires mainStack.base + 2 <= msp <= mainStack.top
      requires chosen < |regions| && lr == EXC_RETURN_THREAD_PSP
      requires regions[runTask].base + SW_WORDS <= psp <= regions[runTask].top
      requires chosen != runTask ==> stackPointer[chosen] + SW_WORDS <= regions[chosen].top
      modifies `r, `lr, `psp, `msp, `primask, `mem, `stackPointer, `runTask, `newTask
      ensures |r| == 13 && lr == EXC_RETURN_THREAD_PSP && msp == old(msp)
      ensures !switching ==>
        && r[4..12] == old(r[4..12]) && psp == old(psp) && primask == old(primask)
        && SameStacks(regions, old(mem), mem) && stackPointer == old(stackPointer) && runTask == old(runTask)
      ensures switching ==>
        && runTask == chosen
        && stackPointer == old(stackPointer)[old(runTask) := old(psp) - SW_WORDS]
        && SameStacks(regions, Store(old(mem), old(psp) - SW_WORDS, old(r[4..12]) + [old(primask)]), mem)
        && Loaded()
    {
      hide SameStacks, Apart, Store;
      var answer := AskScheduler(switching, chosen);
      // bne TaskContextSwitch
      if answer == 0 {
        // msr PRIMASK, r12; bx lr
        primask := r[12];
        return;
      }
      StoreKeepsSame(regions, old(mem), mem, psp - SW_WORDS, r[4..13]);
      assert r[4..13] == old(r[4..12]) + [old(primask)];
      TaskContextSwitch();
    }

    /** From `HalPendSV` to the branch: PRIMASK is kept in R12, interrupts are masked, and the
        kernel is asked twice. */
    method AskScheduler(switching: bool, chosen: nat) returns (answer: Word)
      requires Layout() && |r| == 13 && mainStack.base + 2 <= msp <= mainStack.top
      modifies `r, `lr, `msp, `primask, `mem, `newTask
      ensures |r| == 13 && r[4..12] == old(r[4..12]) && r[12] == old(primask) && primask == 1
      ensures lr == old(lr) && r[0] == lr && msp == old(msp) && newTask == chosen
      ensures SameStacks(regions, old(mem), mem)
      ensures answer == if switching then 1 else 0
    {
      // mrs r12, PRIMASK; cpsid I
      r := r[12 := primask];
      primask := 1;
      // SIGNAL_CONTEXT_RESTORE finds nothing to deliver
      GuardedCall(0);
      ghost var mem1 := mem;
      // push {r12, lr}; blx OsSchedTaskSwitch; pop {r12, lr}
      newTask := chosen;
      GuardedCall(if switching then 1 else 0);
      SameStacksChain(regions, old(mem), mem1, mem);
      // cmp r0, #0; mov r0, lr
      answer := r[0];
      r := r[0 := lr];
    }

    /** The handler's part of the running task's frame is in the registers. */
    predicate Loaded()
      reads this
    {
      && |r| == 13 && runTask < |stackPointer|
      && psp == stackPointer[runTask] + SW_WORDS <= |mem|
      && r[4..13] == mem[stackPointer[runTask]..psp]
      && primask == r[12]
    }

    /** From `TaskContextSwitch` to the `bx lr`. */
    method TaskContextSwitch()
      requires |r| == 13 && |stackPointer| == |regions| && runTask < |regions| && newTask < |regions|
      requires r[0] == EXC_RETURN_THREAD_PSP
      requires SW_WORDS <= psp <= |mem|
      requires newTask != runTask ==> stackPointer[newTask] + SW_WORDS <= |mem|
      modifies `r, `lr, `psp, `primask, `mem, `stackPointer, `runTask
      ensures lr == EXC_RETURN_THREAD_PSP && runTask == newTask
      ensures stackPointer == old(stackPointer)[old(runTask) := old(psp) - SW_WORDS]
      ensures mem == Store(old(mem), old(psp) - SW_WORDS, old(r[4..13]))
      ensures Loaded()
    {
      hide Store;
      // mov lr, r0; mrs r0, psp; stmfd r0!, {r4-r12}
      lr := r[0];
      var r0 := psp - SW_WORDS;
      mem := Store(mem, r0, r[4..13]);
      // ldr r6, [r5]; str r0, [r6]: the running task's stackPointer
      stackPointer := stackPointer[runTask := r0];
      // ldr r0, [r5, #4]; str r0, [r5]; ldr r1, [r0]
      runTask := newTask;
      var r1 := stackPointer[runTask];
      // ldmfd r1!, {r4-r12}; msr psp, r1; msr PRIMASK, r12
      ghost var loaded := mem[r1..r1 + SW_WORDS];
      assert (r[..4] + loaded)[4..13] == loaded;
      r := r[..4] + mem[r1..r1 + SW_WORDS];
      psp := r1 + SW_WORDS;
      primask := r[12];
    }

    /** PendSV taken between two instructions of the running task: whatever the scheduler
        decides, no task's context changes, and the chosen task runs. */
    method Preempt(switching: bool, chosen: nat)
      requires Running() && primask == 0 && chosen < |regions|
      modifies this
      ensures Running() && runTask == if switching then chosen else old(runTask)
      ensures |mem| == |old(mem)|
      ensures forall t :: 0 <= t < |regions| ==> ContextOf(t) == old(ContextOf(t))
    {
      if switching {
        SwitchTo(chosen);
      } else {
        Stay(chosen);
      }
    }

    /** The handler run that does not switch: the words stacked at entry come back. */
    method Stay(chosen: nat)
      requires Running() && primask == 0 && chosen < |regions|
      modifies this
      ensures Running() && runTask == old(runTask) && |mem| == |old(mem)|
      ensures forall t :: 0 <= t < |regions| ==> ContextOf(t) == old(ContextOf(t))
    {
      hide Decode, HwWords, HasAlignBit, Saved, ResumedPsp, SameStacks;
      ghost var me, mem0, ctx := runTask, mem, ContextOf(runTask);
      forall t | 0 <= t < |regions| && t != me
        ensures FrameIn(regions[t], mem0, stackPointer[t]) && stackPointer[t] + SW_WORDS <= regions[t].top
      {
        assert Suspended(t);
        FrameBelow(regions[t], mem0, stackPointer[t]);
      }
      ExceptionEntry();
      ghost var mem1, p := mem, psp;
      HalPendSV(false, chosen);
      SameLength(regions, mem1, mem);
      StackedApart(regions, mainStack, mem0, mem1, mem, stackPointer, me, p, HwWords(ctx));
      forall t | 0 <= t < |regions| && t != me
        ensures Suspended(t) && Decode(mem, stackPointer[t], regions[t].top) == old(ContextOf(t))
      {
        assert FrameIn(regions[t], mem, stackPointer[t]);
      }
      SameRegionOf(regions, mem1, mem, me);
      ReturnRestores(me, ctx, mem0, mem1);
    }

    /** Exception return from the words stacked for `ctx` gives back `ctx`. */
    method ReturnRestores(ghost me: nat, ghost ctx: Context, ghost mem0: seq<Word>, ghost mem1: seq<Word>)
      requires Layout() && |r| == 13 && lr == EXC_RETURN_THREAD_PSP && runTask == me < |regions| && |mem0| == |mem|
      requires Sound(ctx, regions[me].top) && ctx.stack == mem0[ctx.psp..regions[me].top]
      requires regions[me].base + MAX_FRAME <= ctx.psp
      requires psp == ctx.psp - HW_WORDS - ctx.psp % 2 && primask == ctx.primask && r[4..12] == ctx.r[4..12]
      requires mem1 == Store(mem0, psp, HwWords(ctx)) && SameRegion(regions[me], mem1, mem)
      modifies `r, `lr, `pc, `psr, `psp
      ensures |r| == 13 && psp == ctx.psp && BranchTarget(pc) == pc && !HasAlignBit(psr) && Thumb(psr)
      ensures Context(r, lr, pc, psr, psp, primask, mem[psp..regions[me].top]) == ctx
    {
      hide HasAlignBit, WithoutAlign, WithAlign, Decode, HwWords;
      assert mem[psp..psp + HW_WORDS] == mem1[psp..psp + HW_WORDS] == HwWords(ctx);
      assert mem[ctx.psp..regions[me].top] == ctx.stack;
      StackedFields(mem, psp, ctx);
      ThumbWithoutAlign(mem[psp + 7]);
      ExceptionReturn();
    }

    /** The handler run that switches. */
    method SwitchTo(chosen: nat)
      requires Running() && primask == 0 && chosen < |regions|
      modifies this
      ensures Running() && runTask == chosen && |mem| == |old(mem)|
      ensures forall t :: 0 <= t < |regions| ==> ContextOf(t) == old(ContextOf(t))
    {
      SaveAndLoad(chosen);
      ResumeLoaded();
    }

    /** The first half of a switch: entry and handler. Now every task's context is in its frame,
        and the handler's part of the chosen task's is in the registers. */
    method SaveAndLoad(chosen: nat)
      requires Running() && primask == 0 && chosen < |regions|
      modifies this
      ensures Valid() && runTask == chosen && |mem| == |old(mem)| && lr == EXC_RETURN_THREAD_PSP
      ensures forall t :: 0 <= t < |regions| ==>
        Suspended(t) && Decode(mem, stackPointer[t], regions[t].top) == old(ContextOf(t))
      ensures Loaded()
    {
      hide Decode, HwWords, SwWords, Store, Saved, ResumedPsp, SameStacks, HasAlignBit, Thumb, BranchTarget;
      ghost var me, mem0, sp0, ctx := runTask, mem, stackPointer, ContextOf(runTask);
      forall t | 0 <= t < |regions| && t != me
        ensures FrameIn(regions[t], mem0, sp0[t]) && sp0[t] + SW_WORDS <= regions[t].top
      {
        assert Suspended(t);
        FrameBelow(regions[t], mem0, sp0[t]);
      }
      EnterAndSwitch(chosen);
      ghost var mem1 := Store(mem0, FrameStart(ctx.psp) + SW_WORDS, HwWords(ctx));
      SameLength(regions, Store(mem1, FrameStart(ctx.psp), SwWords(ctx)), mem);
      SwitchedFrames(regions, mainStack, mem0, mem1, mem, sp0, me, ctx);
      forall t | 0 <= t < |regions|
        ensures Suspended(t) && Decode(mem, stackPointer[t], regions[t].top) == old(ContextOf(t))
      {
        assert Switched(regions[t], mem0, mem, sp0[t], stackPointer[t], t == me, ctx);
      }
    }

    /** Exception entry and the handler, up to its return. */
    method EnterAndSwitch(chosen: nat)
      requires Running() && primask == 0 && chosen < |regions|
      requires chosen != runTask ==> stackPointer[chosen] + SW_WORDS <= regions[chosen].top
      modifies this
      ensures |r| == 13 && lr == EXC_RETURN_THREAD_PSP && msp == old(msp) && runTask == chosen && Loaded()
      ensures stackPointer == old(stackPointer)[old(runTask) := FrameStart(old(psp))]
      ensures var ctx, sp := old(ContextOf(runTask)), FrameStart(old(psp));
              SameStacks(regions, Store(Store(old(mem), sp + SW_WORDS, HwWords(ctx)), sp, SwWords(ctx)), mem)
    {
      hide Decode, HwWords, Store, Saved, ResumedPsp, SameStacks, HasAlignBit, Thumb, BranchTarget, FrameIn, Loaded;
      ghost var ctx := ContextOf(runTask);
      ExceptionEntry();
      assert r[4..12] + [primask] == SwWords(ctx);
      HalPendSV(true, chosen);
    }

    /** The second half: exception return completes the chosen task's context. */
    method ResumeLoaded()
      requires Valid() && lr == EXC_RETURN_THREAD_PSP && Suspended(runTask)
      requires Loaded()
      modifies `r, `lr, `pc, `psr, `psp
      ensures Running()
      ensures ContextOf(runTask) == Decode(mem, stackPointer[runTask], regions[runTask].top)
    {
      hide HasAlignBit, WithoutAlign, BranchTarget;
      ghost var sp := stackPointer[runTask];
      ghost var f := mem[sp..sp + FRAME_WORDS];
      Branched(f[15]);
      Unaligned(f[16]);
      SliceOfSlice(mem, sp, FRAME_WORDS, 9, 13);
      SliceOfSlice(mem, sp, FRAME_WORDS, 0, 9);
      assert f[0..8] == f[0..9][0..8] == r[4..13][0..8] == r[4..12];
      assert f[8] == f[0..9][8] == r[12];
      ExceptionReturn();
    }

    // ---------- Whole runs ----------

    /** The running task does anything with its own registers and stack and with memory
        that is nobody's stack. */
    method TaskStep(ctx: Context)
      requires Running() && Fits(ctx, regions[runTask])
      modifies this
      ensures Running() && runTask == old(runTask) && |mem| == |old(mem)| && ContextOf(runTask) == ctx
      ensures forall t :: 0 <= t < |regions| && t != runTask ==> ContextOf(t) == old(ContextOf(t))
    {
      hide Decode, HasAlignBit;
      ghost var mem0 := mem;
      OwnStackOnly(regions, mainStack, mem, runTask, ctx);
      var m: seq<Word> :| TouchesOnly(regions, mem, m, runTask, ctx);
      mem, r, lr, pc, psr, psp, primask := m, ctx.r, ctx.lr, ctx.pc, ctx.psr, ctx.psp, ctx.primask;
      forall t | 0 <= t < |regions| && t != runTask
        ensures Suspended(t) && Decode(mem, stackPointer[t], regions[t].top) == old(ContextOf(t))
      {
        assert old(Suspended(t));
        FrameKept(regions[t], mem0, mem, stackPointer[t]);
      }
    }

    /** This machine shows every task what the ideal one does. */
    predicate Shows(i: Ideal)
      reads this
    {
      && Running()
      && i.running == runTask && |i.tasks| == |regions|
      && forall t :: 0 <= t < |regions| ==> ContextOf(t) == i.tasks[t]
    }

    /** Context isolation: under any interleaving of task steps and PendSV exceptions the one
        set of registers behaves as if every task had its own. */
    method Interleave(events: seq<Event>, ghost i: Ideal)
      requires Shows(i) && Permitted(regions, i, events)
      modifies this
      ensures Shows(IdealRun(i, events))
      ensures forall t :: 0 <= t < |regions| ==> Thumb(ContextOf(t).psr)
    {
      hide Decode;
      ghost var now := i;
      for n := 0 to |events|
        invariant Shows(now) && Permitted(regions, now, events[n..])
        invariant IdealRun(i, events) == IdealRun(now, events[n..])
      {
        assert events[n..][0] == events[n] && events[n..][1..] == events[n + 1..];
        match events[n] {
          case Step(ctx) =>
            TaskStep(ctx);
          case PendSv(switching, chosen) =>
            Preempt(switching, chosen);
        }
        now := IdealNext(now, events[n]);
      }
      EveryThumb();
    }

    /** Whatever a task is returned to, it is in Thumb state. */
    lemma EveryThumb()
      requires Running()
      ensures forall t :: 0 <= t < |regions| ==> Thumb(ContextOf(t).psr)
    {
      forall t | 0 <= t < |regions| && t != runTask ensures Thumb(ContextOf(t).psr) {
        assert Suspended(t);
        ThumbWithoutAlign(mem[stackPointer[t] + 16]);
      }
    }

    // ---------- The first run of a task ----------

    const archSysExit: Word
    const osTaskEntry: Word

    /** `ArchTskStackInit`. */
    method TskStackInit(taskID: Word, stackSize: nat, topStack: nat) returns (context: nat)
      requires FRAME_WORDS <= stackSize && topStack + stackSize <= |mem|
      modifies `mem
      ensures context + FRAME_WORDS == topStack + stackSize && |mem| == |old(mem)|
      ensures Saved(mem, context, topStack + stackSize) && !HasAlignBit(mem[context + 16])
      ensures Decode(mem, context, topStack + stackSize)
           == InitialContext(taskID, archSysExit, osTaskEntry, topStack + stackSize)
      ensures forall k :: 0 <= k < |mem| && !(context <= k < topStack + stackSize) ==> mem[k] == old(mem[k])
      ensures mem[context..context + 8]
           == [0x04040404, 0x05050505, 0x06060606, 0x07070707, 0x08080808, 0x09090909, 0x10101010, 0x11111111]
      ensures mem[context + 8] == 0 && mem[context + 9] == taskID
      ensures mem[context + 10..context + 14] == [0x01010101, 0x02020202, 0x03030303, 0x12121212]
      ensures mem[context + 14] == archSysExit && mem[context + 15] == osTaskEntry && mem[context + 16] == 0x01000000
    {
      context := topStack + stackSize - FRAME_WORDS;
      InitSaved(context);
      InitStacked(context + 9, taskID);
      hide Decode, InitialContext, HasAlignBit, Saved, Thumb, ResumedPsp;
      InitialHalves(old(mem), context, taskID, archSysExit, osTaskEntry);
      assert mem[context..topStack + stackSize] == InitialFrame(taskID, archSysExit, osTaskEntry);
      hide InitialFrame, Store;
      FrameWords(mem, context, taskID, archSysExit, osTaskEntry);
      FirstRun(mem, context, topStack + stackSize, taskID, archSysExit, osTaskEntry);
    }

    /** Its stores to R4-R11 and PRIMASK. */
    method InitSaved(context: nat)
      requires context + 9 <= |mem|
      modifies `mem
      ensures mem == Store(old(mem), context, InitialSaved())
    {
      ghost var mem0 := mem;
      mem := mem[context := 0x04040404];          // R4
      mem := mem[context + 1 := 0x05050505];
      mem := mem[context + 2 := 0x06060606];
      mem := mem[context + 3 := 0x07070707];
      mem := mem[context + 4 := 0x08080808];
      mem := mem[context + 5 := 0x09090909];
      mem := mem[context + 6 := 0x10101010];
      mem := mem[context + 7 := 0x11111111];      // R11
      mem := mem[context + 8 := 0];               // PRIMASK
      assert mem[context..context + 9] == InitialSaved();
      hide Store, InitialSaved;
      IsStore(mem0, mem, context, InitialSaved());
    }

    /** Its stores to R0-R3, R12, LR, PC and xPSR. */
    method InitStacked(stacked: nat, taskID: Word)
      requires stacked + 8 <= |mem|
      modifies `mem
      ensures mem == Store(old(mem), stacked, InitialStacked(taskID, archSysExit, osTaskEntry))
    {
      ghost var mem0 := mem;
      mem := mem[stacked := taskID];          // R0
      mem := mem[stacked + 1 := 0x01010101];
      mem := mem[stacked + 2 := 0x02020202];
      mem := mem[stacked + 3 := 0x03030303];
      mem := mem[stacked + 4 := 0x12121212];     // R12
      mem := mem[stacked + 5 := archSysExit];    // LR
      mem := mem[stacked + 6 := osTaskEntry];    // PC
      mem := mem[stacked + 7 := 0x01000000];     // xPSR
      assert mem[stacked..stacked + 8] == InitialStacked(taskID, archSysExit, osTaskEntry);
      hide Store, InitialStacked;
      IsStore(mem0, mem, stacked, InitialStacked(taskID, archSysExit, osTaskEntry));
    }

    /** A suspended task that has not run yet. */
    predicate AtEntry(t: nat, taskID: Word)
      requires t < |regions| && t < |stackPointer|
      reads `mem, `stackPointer
    {
      EntryFrame(regions[t], mem, stackPointer[t], taskID, archSysExit, osTaskEntry)
    }

    /** A task's frame is put on its stack and its control block pointed at it. */
    method InitTask(t: nat, taskID: Word)
      requires Layout() && |stackPointer| == |regions| && t < |regions| && HasRoom(regions[t])
      modifies `mem, `stackPointer
      ensures |mem| == |old(mem)| && |stackPointer| == |regions| && AtEntry(t, taskID)
      ensures forall u :: 0 <= u < |regions| && u != t ==>
                stackPointer[u] == old(stackPointer[u]) && SameRegion(regions[u], old(mem), mem)
    {
      hide Decode, HasAlignBit, InitialContext;
      ghost var mem0 := mem;
      var sp := TskStackInit(taskID, regions[t].top - regions[t].base, regions[t].base);
      stackPointer := stackPointer[t := sp];
      forall u | 0 <= u < |regions| && u != t ensures SameRegion(regions[u], mem0, mem) {
        assert Apart(regions[u], regions[t]);
      }
    }

    method InitTasks(ids: seq<Word>)
      requires Layout() && |stackPointer| == |regions| == |ids|
      requires forall t :: 0 <= t < |regions| ==> HasRoom(regions[t])
      modifies `mem, `stackPointer
      ensures Layout() && |stackPointer| == |regions|
      ensures forall t :: 0 <= t < |regions| ==> AtEntry(t, ids[t])
    {
      hide EntryFrame, SameRegion;
      for n := 0 to |regions|
        invariant Layout() && |stackPointer| == |regions|
        invariant forall t :: 0 <= t < n ==> AtEntry(t, ids[t])
      {
        ghost var mem0, sp0 := mem, stackPointer;
        InitTask(n, ids[n]);
        forall t | 0 <= t < n ensures AtEntry(t, ids[t]) {
          EntryKept(regions[t], mem0, mem, sp0[t], ids[t], archSysExit, osTaskEntry);
        }
      }
    }

    /** A task is created while others run: it is suspended at its entry, and they notice nothing. */
    method CreateTask(t: nat, taskID: Word)
      requires Running() && t < |regions| && t != runTask && HasRoom(regions[t])
      modifies `mem, `stackPointer
      ensures Running() && |mem| == |old(mem)|
      ensures ContextOf(t) == InitialContext(taskID, archSysExit, osTaskEntry, regions[t].top)
      ensures forall u :: 0 <= u < |regions| && u != t ==> ContextOf(u) == old(ContextOf(u))
    {
      hide Decode, HasAlignBit, InitialContext;
      ghost var mem0 := mem;
      InitTask(t, taskID);
      assert AtEntry(t, taskID);
      forall u | 0 <= u < |regions| && u != t && u != runTask
        ensures Suspended(u) && Decode(mem, stackPointer[u], regions[u].top) == old(ContextOf(u))
      {
        assert old(Suspended(u));
        FrameKept(regions[u], mem0, mem, stackPointer[u]);
      }
      assert SameRegion(regions[runTask], mem0, mem);
      assert mem[psp..regions[runTask].top] == mem0[psp..regions[runTask].top];
    }

    /** From reset to the first task: every task's frame is initialised, the scheduler picks `first`,
        and `HalStartToRun` branches to it. Every other task is at its entry, and the first is too as
        far as a task can rely on: the registers its entry function takes and returns through. */
    method Boot(ids: seq<Word>, first: nat) returns (ghost i: Ideal)
      requires Layout() && |r| == 13 && |stackPointer| == |regions| == |ids| && first < |regions|
      requires forall t :: 0 <= t < |regions| ==> HasRoom(regions[t])
      requires mainStack.base + 2 <= msp <= mainStack.top && !HasAlignBit(psr) && Thumb(psr)
      modifies this
      ensures Shows(i) && i.running == first
      ensures forall t :: 0 <= t < |regions| && t != first ==>
                i.tasks[t] == InitialContext(ids[t], archSysExit, osTaskEntry, regions[t].top)
      ensures SameEntry(i.tasks[first], InitialContext(ids[first], archSysExit, osTaskEntry, regions[first].top))
    {
      hide Decode, HasAlignBit, InitialContext, ResumedPsp;
      InitTasks(ids);
      assert AtEntry(first, ids[first]);
      EntryContext(ids[first], archSysExit, osTaskEntry, regions[first].top);
      newTask, runTask := first, first;
      StartToRun();
      forall t | 0 <= t < |regions|
        ensures Suspended(t)
        ensures Decode(mem, stackPointer[t], regions[t].top)
             == InitialContext(ids[t], archSysExit, osTaskEntry, regions[t].top)
      {
        assert AtEntry(t, ids[t]);
      }
      assert Running();
      i := Ideal(seq(|regions|, t requires 0 <= t < |regions| reads this requires Running() => ContextOf(t)), first);
    }

    /** Over a whole run, a task that takes no step resumes with exactly the context it left. */
    method Resumes(events: seq<Event>, ghost i: Ideal, t: nat)
      requires Shows(i) && Permitted(regions, i, events) && t < |regions|
      requires forall n :: 0 <= n < |events| && events[n].Step? ==> IdealRun(i, events[..n]).running != t
      modifies this
      ensures Running() && ContextOf(t) == old(ContextOf(t))
    {
      SuspendedUnchanged(regions, i, events, t);
      Interleave(events, i);
    }

    /** `HalStartToRun`: loads the hardware's words itself and branches. */
    method StartToRun()
      requires |r| == 13 && newTask < |stackPointer| && newTask < |regions|
      requires Saved(mem, stackPointer[newTask], regions[newTask].top)
      modifies `r, `lr, `pc, `psp, `primask
      ensures var ctx := Decode(mem, stackPointer[newTask], regions[newTask].top);
              && |r| == 13 && |ctx.r| == 13 && r[0..4] == ctx.r[0..4]
              && lr == ctx.lr && pc == ctx.pc && BranchTarget(pc) == pc && primask == 0
              && (psp == ctx.psp <==> !HasAlignBit(mem[stackPointer[newTask] + 16]))
      ensures var sp := stackPointer[newTask];
              && r[0..4] == mem[sp + 9..sp + 13] && lr == mem[sp + 14]
              && pc == mem[sp + 15] - mem[sp + 15] % 2 && psp == sp + 17
    {
      // ldr r12, [r0]; add r12, r12, #36
      var r12 := stackPointer[newTask];
      ghost var f := mem[r12..r12 + FRAME_WORDS];
      SliceOfSlice(mem, r12, FRAME_WORDS, 9, 17);
      r12 := r12 + SW_WORDS;
      // ldmfd r12!, {r0-r7}; msr psp, r12
      r := mem[r12..r12 + 8] + r[8..];
      assert r[..8] == f[9..17];
      assert r[0..4] == f[9..13] == (f[9..13] + f[0..8] + [f[13]])[0..4];
      r12 := r12 + 8;
      psp := r12;
      // mov lr, r5; cpsie I; bx r6
      lr := r[5];
      primask := 0;
      pc := BranchTarget(r[6]);
    }
  }

  /** A stack with room for a frame. */
  predicate HasRoom(region: Region) { region.base + MAX_FRAME <= region.top }

  /** Two contexts agree on the argument registers, LR, PC, the stack and PRIMASK. */
  predicate SameEntry(a: Context, b: Context) {
    && |a.r| == |b.r| == 13
    && a.r[0..4] == b.r[0..4] && a.lr == b.lr && a.pc == b.pc
    && a.psp == b.psp && a.stack == b.stack && a.primask == b.primask
  }

  /** The frame of a task that has not run yet. */
  predicate EntryFrame(region: Region, mem: seq<Word>, sp: nat, taskID: Word, exit: Word, entry: Word) {
    && FrameIn(region, mem, sp) && !HasAlignBit(mem[sp + 16])
    && Decode(mem, sp, region.top) == InitialContext(taskID, exit, entry, region.top)
  }

  lemma EntryKept(region: Region, mem: seq<Word>, mem': seq<Word>, sp: nat, taskID: Word, exit: Word, entry: Word)
    requires |mem| == |mem'| && SameRegion(region, mem, mem') && EntryFrame(region, mem, sp, taskID, exit, entry)
    ensures EntryFrame(region, mem', sp, taskID, exit, entry)
  {
    hide Decode;
    FrameKept(region, mem, mem', sp);
  }

  lemma EntryContext(taskID: Word, exit: Word, entry: Word, top: nat)
    ensures var c := InitialContext(taskID, exit, entry, top);
            && |c.r| == 13 && c.r[0..4] == [taskID, 0x01010101, 0x02020202, 0x03030303]
            && c.lr == exit && c.pc == BranchTarget(entry) && c.psp == top && c.stack == [] && c.primask == 0
            && c.r[4..] == [0x04040404, 0x05050505, 0x06060606, 0x07070707, 0x08080808,
                            0x09090909, 0x10101010, 0x11111111, 0x12121212]
            && c.psr == 0x01000000
  {
  }

  /** Both ways of first running a task agree, whatever its number and the size of its stack: on one
      processor it is the first to run, on another it is created while others run and switched to. */
  method BothWaysAgree(a: Cpu, b: Cpu, t: nat, taskID: Word)
    requires a != b && a.archSysExit == b.archSysExit && a.osTaskEntry == b.osTaskEntry
    requires t < |a.regions| && t < |b.regions| && a.regions[t] == b.regions[t] && HasRoom(a.regions[t])
    requires a.Layout() && |a.r| == 13 && |a.stackPointer| == |a.regions|
    requires b.Running() && b.primask == 0 && b.runTask != t
    modifies a, b
    ensures |a.r| == |b.r| == 13 && a.r[0..4] == b.r[0..4] == [taskID, 0x01010101, 0x02020202, 0x03030303]
    ensures a.lr == b.lr == a.archSysExit && a.pc == b.pc == BranchTarget(a.osTaskEntry)
    ensures a.psp == b.psp == a.regions[t].top && a.primask == b.primask == 0
    ensures b.psr == 0x01000000
    ensures b.r[4..] == [0x04040404, 0x05050505, 0x06060606, 0x07070707, 0x08080808,
                         0x09090909, 0x10101010, 0x11111111, 0x12121212]
  {
    hide Decode, HasAlignBit, InitialContext;
    ghost var ctx := InitialContext(taskID, a.archSysExit, a.osTaskEntry, a.regions[t].top);
    EntryContext(taskID, a.archSysExit, a.osTaskEntry, a.regions[t].top);
    a.InitTask(t, taskID);
    a.newTask := t;
    a.StartToRun();
    b.CreateTask(t, taskID);
    b.SwitchTo(t);
    assert b.ContextOf(t) == ctx;
  }

  /** The hardware's words for a context. */
  function HwWords(c: Context): (f: seq<Word>)
    requires |c.r| == 13 && !HasAlignBit(c.psr)
    ensures |f| == HW_WORDS
  {
    c.r[0..4] + [c.r[12], c.lr, c.pc, WithAlign(c.psr, c.psp % 2 == 1)]
  }

  /** They are R0-R3, R12, LR, PC and xPSR, with bit 9 set if a word was added to align the stack. */
  lemma HwWordsMean(c: Context)
    requires |c.r| == 13 && !HasAlignBit(c.psr)
    ensures HwWords(c) == c.r[0..4] + [c.r[12], c.lr, c.pc, c.psr + if c.psp % 2 == 1 then 0x200 else 0]
  {
  }

  /** The fields of a context among the words the hardware stacked for it. */
  lemma StackedFields(mem: seq<Word>, p: nat, c: Context)
    requires |c.r| == 13 && !HasAlignBit(c.psr)
    requires p + HW_WORDS <= |mem| && mem[p..p + HW_WORDS] == HwWords(c)
    ensures mem[p..p + 4] + c.r[4..12] + [mem[p + 4]] == c.r
    ensures mem[p + 5] == c.lr && mem[p + 6] == c.pc && mem[p + 7] == WithAlign(c.psr, c.psp % 2 == 1)
  {
    var f := mem[p..p + HW_WORDS];
    SliceOfSlice(mem, p, HW_WORDS, 0, 4);
    assert f[0..4] == c.r[0..4];
    assert f[4] == mem[p + 4] && f[5] == mem[p + 5] && f[6] == mem[p + 6] && f[7] == mem[p + 7];
    assert c.r[0..4] + c.r[4..12] + [c.r[12]] == c.r;
  }

  /** The handler's words for a context. */
  function SwWords(c: Context): (f: seq<Word>)
    requires |c.r| == 13
    ensures |f| == SW_WORDS
  {
    c.r[4..12] + [c.primask]
  }

  predicate Sound(c: Context, top: nat) {
    && |c.r| == 13 && !HasAlignBit(c.psr) && Thumb(c.psr) && BranchTarget(c.pc) == c.pc
    && c.psp <= top && |c.stack| == top - c.psp
  }

  /** Where the frame of a context starts. */
  function FrameStart(psp: nat): int { psp - HW_WORDS - psp % 2 - SW_WORDS }

  /** A frame made of those words, below an untouched stack, decodes to the context. */
  lemma FrameHoldsContext(c: Context, mem: seq<Word>, sp: nat, top: nat)
    requires Sound(c, top) && top <= |mem| && sp == FrameStart(c.psp)
    requires mem[sp..sp + SW_WORDS] == SwWords(c)
    requires mem[sp + SW_WORDS..sp + FRAME_WORDS] == HwWords(c)
    requires mem[c.psp..top] == c.stack
    ensures Saved(mem, sp, top) && Decode(mem, sp, top) == c
  {
    var f := mem[sp..sp + FRAME_WORDS];
    assert f == SwWords(c) + HwWords(c);
    assert mem[sp + 16] == f[16] == WithAlign(c.psr, c.psp % 2 == 1);
    assert f[9..13] + f[0..8] + [f[13]] == c.r;
  }

  /** After the running task's words have been stored, its frame decodes to its context. */
  lemma OwnFrame(region: Region, ctx: Context, mem0: seq<Word>, mem1: seq<Word>, mem2: seq<Word>)
    requires Sound(ctx, region.top) && region.top <= |mem0| && region.base + MAX_FRAME <= ctx.psp
    requires ctx.stack == mem0[ctx.psp..region.top]
    requires mem1 == Store(mem0, FrameStart(ctx.psp) + SW_WORDS, HwWords(ctx)) && |mem2| == |mem1|
    requires SameRegion(region, Store(mem1, FrameStart(ctx.psp), SwWords(ctx)), mem2)
    ensures FrameIn(region, mem2, FrameStart(ctx.psp)) && Decode(mem2, FrameStart(ctx.psp), region.top) == ctx
  {
    var sp := FrameStart(ctx.psp);
    var stored := Store(mem1, sp, SwWords(ctx));
    assert mem2[sp..sp + SW_WORDS] == stored[sp..sp + SW_WORDS];
    assert mem2[sp + SW_WORDS..sp + FRAME_WORDS] == mem1[sp + SW_WORDS..sp + FRAME_WORDS];
    assert mem2[ctx.psp..region.top] == mem0[ctx.psp..region.top];
    FrameHoldsContext(ctx, mem2, sp, region.top);
    ThumbWithoutAlign(mem2[sp + 16]);
  }

  /** A stack after the switch: a frame that decodes to the context its task had. */
  predicate Switched(region: Region, mem0: seq<Word>, mem2: seq<Word>, sp0: nat, sp2: int, isMine: bool, ctx: Context) {
    && sp2 >= 0
    && FrameIn(region, mem2, sp2)
    && if isMine then Decode(mem2, sp2, region.top) == ctx
       else sp2 == sp0 && FrameIn(region, mem0, sp0) && Decode(mem2, sp0, region.top) == Decode(mem0, sp0, region.top)
  }

  lemma SwitchedFrames(regions: seq<Region>, mainStack: Region, mem0: seq<Word>, mem1: seq<Word>, mem2: seq<Word>,
                       sp0: seq<nat>, me: nat, ctx: Context)
    requires DisjointStacks(regions, mainStack, |mem0|) && |sp0| == |regions| && me < |regions|
    requires Sound(ctx, regions[me].top) && regions[me].base + MAX_FRAME <= ctx.psp
    requires ctx.stack == mem0[ctx.psp..regions[me].top]
    requires mem1 == Store(mem0, FrameStart(ctx.psp) + SW_WORDS, HwWords(ctx))
    requires SameStacks(regions, Store(mem1, FrameStart(ctx.psp), SwWords(ctx)), mem2)
    requires forall t :: 0 <= t < |regions| && t != me ==> FrameIn(regions[t], mem0, sp0[t])
    ensures forall t :: 0 <= t < |regions| ==>
      Switched(regions[t], mem0, mem2, sp0[t], if t == me then FrameStart(ctx.psp) else sp0[t], t == me, ctx)
  {
    hide Decode, Store, HwWords, SwWords, FrameIn;
    var sp := FrameStart(ctx.psp);
    var stored := Store(mem1, sp, SwWords(ctx));
    forall t | 0 <= t < |regions|
      ensures Switched(regions[t], mem0, mem2, sp0[t], if t == me then sp else sp0[t], t == me, ctx)
    {
      assert SameRegion(regions[t], stored, mem2);
      if t == me {
        OwnFrame(regions[me], ctx, mem0, mem1, mem2);
      } else {
        StoreApart(regions[t], regions[me], mem0, sp + SW_WORDS, HwWords(ctx));
        StoreApart(regions[t], regions[me], mem1, sp, SwWords(ctx));
        FrameKept(regions[t], mem0, mem2, sp0[t]);
      }
    }
  }

  /** A memory that the task `me` can leave behind: its stack is as in its context and no
      other task's stack differs. */
  predicate TouchesOnly(regions: seq<Region>, m: seq<Word>, m': seq<Word>, me: nat, ctx: Context)
    requires me < |regions|
  {
    && |m'| == |m|
    && ctx.psp <= regions[me].top <= |m'| && m'[ctx.psp..regions[me].top] == ctx.stack
    && forall t :: 0 <= t < |regions| && t != me ==> SameRegion(regions[t], m, m')
  }

  /** There is always such a memory. */
  lemma OwnStackOnly(regions: seq<Region>, mainStack: Region, mem: seq<Word>, me: nat, ctx: Context)
    requires DisjointStacks(regions, mainStack, |mem|) && me < |regions| && Fits(ctx, regions[me])
    ensures exists m :: TouchesOnly(regions, mem, m, me, ctx)
  {
    var m := Store(mem, ctx.psp, ctx.stack);
    forall t | 0 <= t < |regions| && t != me ensures SameRegion(regions[t], mem, m) {
      StoreApart(regions[t], regions[me], mem, ctx.psp, ctx.stack);
    }
    assert TouchesOnly(regions, mem, m, me, ctx);
  }

  // ---------- The ideal machine ----------

  /** One register set per task. */
  datatype Ideal = Ideal(tasks: seq<Context>, running: nat)

  datatype Event =
    | Step(ctx: Context)                          // the running task reaches this context
    | PendSv(switching: bool, chosen: nat)        // the exception, and the scheduler's choice

  /** A context a task may reach: its stack pointer inside its stack, with room for a frame. */
  predicate Fits(ctx: Context, region: Region) {
    Sound(ctx, region.top) && region.base + MAX_FRAME <= ctx.psp
  }

  predicate CanHappen(regions: seq<Region>, i: Ideal, e: Event) {
    && i.running < |i.tasks| == |regions|
    && match e
       case Step(ctx) => Fits(ctx, regions[i.running])
       case PendSv(_, chosen) => chosen < |regions| && i.tasks[i.running].primask == 0
  }

  function IdealNext(i: Ideal, e: Event): Ideal
    requires i.running < |i.tasks|
  {
    match e
    case Step(ctx) => i.(tasks := i.tasks[i.running := ctx])
    case PendSv(switching, chosen) => if switching then i.(running := chosen) else i
  }

  predicate Permitted(regions: seq<Region>, i: Ideal, events: seq<Event>)
    decreases |events|
  {
    events != [] ==> CanHappen(regions, i, events[0]) && Permitted(regions, IdealNext(i, events[0]), events[1..])
  }

  function IdealRun(i: Ideal, events: seq<Event>): Ideal
    decreases |events|
  {
    if events == [] || i.running >= |i.tasks| then i else IdealRun(IdealNext(i, events[0]), events[1..])
  }

  /** Only its own steps change what a task sees: if it is suspended when it is switched in,
      it finds exactly the context it last left. */
  lemma {:induction false} SuspendedUnchanged(regions: seq<Region>, i: Ideal, events: seq<Event>, t: nat)
    requires Permitted(regions, i, events) && t < |i.tasks|
    requires forall n :: 0 <= n < |events| && events[n].Step? ==> IdealRun(i, events[..n]).running != t
    ensures |IdealRun(i, events).tasks| == |i.tasks| && IdealRun(i, events).tasks[t] == i.tasks[t]
    decreases |events|
  {
    if events != [] {
      var next := IdealNext(i, events[0]);
      assert events[..0] == [];
      assert IdealRun(i, events[..0]) == i;
      forall n | 0 <= n < |events[1..]| && events[1..][n].Step? ensures IdealRun(next, events[1..][..n]).running != t {
        assert events[..n + 1][1..] == events[1..][..n] && events[..n + 1][0] == events[0];
        assert events[n + 1].Step?;
      }
      SuspendedUnchanged(regions, next, events[1..], t);
    }
  }

  /** The frame `ArchTskStackInit` writes, in the order of `TaskContext`. */
  function InitialFrame(taskID: Word, exit: Word, entry: Word): (f: seq<Word>)
    ensures |f| == FRAME_WORDS
  {
    InitialSaved() + InitialStacked(taskID, exit, entry)
  }

  function InitialSaved(): (f: seq<Word>)
    ensures |f| == SW_WORDS
  {
    [0x04040404, 0x05050505, 0x06060606, 0x07070707, 0x08080808, 0x09090909, 0x10101010, 0x11111111, 0]
  }

  function InitialStacked(taskID: Word, exit: Word, entry: Word): (f: seq<Word>)
    ensures |f| == HW_WORDS
  {
    [taskID, 0x01010101, 0x02020202, 0x03030303, 0x12121212, exit, entry, 0x01000000]
  }

  lemma InitialHalves(mem: seq<Word>, sp: nat, taskID: Word, exit: Word, entry: Word)
    requires sp + FRAME_WORDS <= |mem|
    ensures var m := Store(Store(mem, sp, InitialSaved()), sp + 9, InitialStacked(taskID, exit, entry));
            && m[sp..sp + FRAME_WORDS] == InitialFrame(taskID, exit, entry)
            && forall k :: 0 <= k < |mem| && !(sp <= k < sp + FRAME_WORDS) ==> m[k] == mem[k]
  {
    hide InitialSaved, InitialStacked;
  }

  lemma FrameWords(mem: seq<Word>, sp: nat, taskID: Word, exit: Word, entry: Word)
    requires sp + FRAME_WORDS <= |mem| && mem[sp..sp + FRAME_WORDS] == InitialFrame(taskID, exit, entry)
    ensures mem[sp..sp + 8]
         == [0x04040404, 0x05050505, 0x06060606, 0x07070707, 0x08080808, 0x09090909, 0x10101010, 0x11111111]
    ensures mem[sp + 8] == 0 && mem[sp + 9] == taskID
    ensures mem[sp + 10..sp + 14] == [0x01010101, 0x02020202, 0x03030303, 0x12121212]
    ensures mem[sp + 14] == exit && mem[sp + 15] == entry && mem[sp + 16] == 0x01000000
  {
    var f := mem[sp..sp + FRAME_WORDS];
    SliceOfSlice(mem, sp, FRAME_WORDS, 0, 8);
    SliceOfSlice(mem, sp, FRAME_WORDS, 10, 14);
    assert forall k :: 0 <= k < FRAME_WORDS ==> f[k] == mem[sp + k];
  }

  /** The context a new task starts with. */
  function InitialContext(taskID: Word, exit: Word, entry: Word, top: nat): Context {
    Context([taskID, 0x01010101, 0x02020202, 0x03030303, 0x04040404, 0x05050505, 0x06060606, 0x07070707, 0x08080808,
             0x09090909, 0x10101010, 0x11111111, 0x12121212],
            exit, BranchTarget(entry), 0x01000000, top, 0, [])
  }

  /** Restored by either path, the initial frame puts the task at its entry with its number in
      R0, the exit routine in LR, an empty stack and interrupts enabled. */
  lemma FirstRun(mem: seq<Word>, sp: nat, top: nat, taskID: Word, exit: Word, entry: Word)
    requires sp + FRAME_WORDS == top <= |mem| && mem[sp..top] == InitialFrame(taskID, exit, entry)
    ensures Saved(mem, sp, top) && Decode(mem, sp, top) == InitialContext(taskID, exit, entry, top)
    ensures !HasAlignBit(mem[sp + 16])
  {
    hide BranchTarget;
    var f := mem[sp..top];
    assert mem[sp + 16] == f[16] == 0x01000000;
    assert !HasAlignBit(0x01000000);
    hide HasAlignBit;
    assert mem[top..top] == [];
    assert f[9..13] == [taskID, 0x01010101, 0x02020202, 0x03030303];
    assert f[0..8] == [0x04040404, 0x05050505, 0x06060606, 0x07070707, 0x08080808, 0x09090909, 0x10101010, 0x11111111];
    assert f[9..13] + f[0..8] + [f[13]] == InitialContext(taskID, exit, entry, top).r;
  }
}
