# Board support verification

A Dafny model of the parts of this board-support repository that are state machines, loops or bounded
arithmetic, and proofs about them. `dafny verify dfyconfig.toml` checks everything.

| Files | What they model |
|---|---|
| `CStrings`, `IntegerParser`, `Scanf`, `ScanFacts`, `FormatSafety`, `Numerals`, `Conversions`, `ScanRoundTrip` | the integer scanner and the `sscanf` interpreter of `system/system.c` |
| `FlashChip`, `FlashDriver`, `FlashStore`, `BlockStore` | the W25Q serial flash, its driver, and the littlefs callbacks on top |
| `Atomics`, `AtomicLoops` | the LDREX/STREX retry loops of the Cortex-M3 port, as a machine of single instructions and as loops |
| `ContextSwitch` | PendSV, the hardware's stacking, and the first run of a task |
| `CriticalSection` | nested critical sections, preempted between any two machine steps |
| `TickSuppression`, `TickLedger` | the SysTick arithmetic around deep sleep, and every clock accounted for |
| `Mpu` | the MPU size and attribute encoder and the region table |
| `Words`, `Bits`, `Options` | fixed-width words, remainders and powers of two, an optional value |

How the pieces fit together:

* Code that changes things step by step is a class or a method with the source's own loops and assignments.
  Each is proved equal to a function, and the properties are lemmas about that function or invariants over
  all runs of it.
* A C string is a sequence that ends in its only terminator, and a cursor is an index. Dafny checks every
  index, so the scanner reads past no terminator, look-ahead included; the calls in which its format cursor passes
  one are reported by a result.
* `FlashChip.Chip` and the core classes stand for hardware. What the hardware may do on its own (how long an
  erase takes, when an exception comes, what the scheduler answers, what a register holds after a call) is an
  arbitrary choice, so the proofs hold for all of them.
* `Conversions` says in plain texts and figures what each conversion of a format stores, digit by digit from a
  table; the other contracts that name a function of the model have such a statement beside them too.
* `AtomicLoops` is the same code as `Atomics` in the form the source gives it: a method per function, with
  other callers acting between any two instructions.

## What the code does not do

Some statements one would expect do not hold of the code. Each is proved with its exact condition.

* A flash write is cut into 256-byte chunks whatever its address. It is the intended write if and only if it
  starts on a page boundary or stays in one page (`FlashStore.ChunkingExact`); littlefs's 16-byte writes do.
* `%n` right behind a literal that did not match counts that literal's character as read, because the cursor
  has moved before the comparison is known. For every format and input the stores are the intended ones if and
  only if the scan does not stop there (`ScanFacts.PositionsExact`). A format is right with every input if and
  only if no literal directly before a `%n` stands where some input reaches it (`FormatSafety.PositionSafe`). The
  position is at most one past the end of the input (`ScanFacts.PositionsBounded`), and that is reached
  (`ScanFacts.PositionPastEnd`).
* A directive that ends with the format behind a single `h` or `l` makes the code step over the terminator. It
  does so in exactly the calls that `Scanf.Overruns` names (`Scanf.PreVsscanf`). A format never does, with any
  input, if and only if no such directive stands where some input reaches it (`FormatSafety.OverrunSafe`). Not
  every place of a format is reached: no input takes "%d1%h" to its end (`FormatSafety.NotEveryTurnPointIsReached`).
* The overflow test that looks at the top four bits is right for every string if the base is at most 16. For a
  larger base it is right for every string if and only if the numbers that pass untested have no room to overflow
  (`IntegerParser.TopFourBitsSuffice`): base 32 is such a base, base 2^32 - 1 is not. The flag never reaches the
  caller.
* The tick count does not account for the clocks in which the timer is stopped or only reloads. An ordinary sleep
  (it fits 24 bits, begins inside a tick, and its reload is taken before LOAD is set back) that is woken early
  gains its compensation and loses the stopped clocks and two reloads, so it counts right if and only if the
  compensation is exactly that (`TickLedger.OrdinaryEarlyWake`); without compensation every such
  sleep loses two clocks or more (`TickLedger.UncompensatedRunLoses`). A sleep that begins as the counter stands
  at zero counts that tick twice, and one that does not fit 24 bits takes the rest for gone at once
  (`TickLedger.EarlyWakeExact`). A sleep that runs past its end loses what the next tick cannot absorb
  (`TickLedger.FullSleepExact`, `TickLedger.FullSleepInTime`).
* The sector erase lets the offset one past the end of the chip through. At that offset, and at no other outside
  the chip, a sector is erased: the first one (`BlockStore.LittlefsBlockErase`).
* The shortened tick that is computed after a sleep is used if and only if the counter gets a clock before LOAD
  is set back (`TickSuppression.ReloadTakesEffect`).
* `HalStartToRun` restores the stack pointer that exception return would if and only if the frame carries no
  alignment word (`ContextSwitch.Cpu.StartToRun`); the initial frame carries none (`ContextSwitch.Cpu.TskStackInit`).

## Model

| member | source | states |
|---|---|---|
| `CStrings.SkipSpaces` | system/system.c:139-147 | the cursor skips ' ' only, and stops at the first other character, inside the string |
| `IntegerParser.DigitRun` | system/system.c:94-118 | the digit prefix is maximal: all digits before its end, none at it |
| `IntegerParser.FixupRadix` | system/system.c:66-85 | for every string and base: two characters are skipped and the base is 16 behind "0x" or "0X" in base 16, or in base 0 if a hexadecimal digit follows; in base 0 the base is 9 behind any other zero and 10 otherwise; the look-ahead stays inside the string |
| `IntegerParser.ParseInteger` | system/system.c:87-128 | takes the maximal digit prefix and yields its unbounded value mod 2^64; for bases up to 16 the overflow flag is set if and only if the value exceeds 2^64 - 1; for any base it is the flag that the test on residues gives, and never set without cause |
| `IntegerParser.AccumulateStep` | system/system.c:111-119 | one step on residues is one step on the exact value, and the division test is the overflow test of the multiplication |
| `IntegerParser.DivideTest` | system/system.c:112 | x > limit / base if and only if x * base > limit |
| `IntegerParser.TopFourBitsSuffice` | system/system.c:107-111 | for every base: the flag is right for every string if and only if the base is at most 16, or some number of digits covers everything below 2^60 and one digit more still fits 64 bits |
| `IntegerParser.SimpleStrtoull` | system/system.c:150-164 | the maximal digit run in the base so chosen, its value mod 2^64, and the end of it |
| `IntegerParser.SimpleStrtoul` | system/system.c:176-179 | the magnitude mod 2^32, same end |
| `IntegerParser.SimpleStrtoll` | system/system.c:187-193 | the signed value read as 64-bit two's complement, although it is negated unsigned |
| `IntegerParser.SimpleStrtol` | system/system.c:195-201 | the signed value read as 32-bit two's complement, same end as the wide parser |
| `IntegerParser.MissedInThreeDigits` | system/system.c:111-119 | a three-digit string whose overflow goes unnoticed in base 2^32 - 1 |
| `IntegerParser.ThirtyTwoIsExact` | system/system.c:111-119 | in base 32, although it is above 16, the flag is right for every string |
| `IntegerParser.ParsersAgree` | system/system.c:187-201 | on every text and base the narrow result is the 32-bit truncation of the wide one, both stop at the same place, and either is the scanned number if and only if that fits its width |
| `Numerals.NumeralValue` | system/system.c:87-128 | a number written in any base up to 16, in either case, is all digits of the base and denotes that number again |
| `Numerals.OnlyDigits` | system/system.c:97-103 | the 22 hexadecimal and the 10 decimal digits, and no other characters, are digits |
| `Scanf.SkipAtoi` | system/system.c:167-174 | the value of the maximal decimal prefix and the cursor after it |
| `Scanf.SkipSuppressed` | system/system.c:249-251 | a suppressed conversion ends in the format at the next ' ', percent sign or end |
| `Scanf.SkipWord` | system/system.c:252-254 | and in the input at the next ' ' or end |
| `Scanf.ReadWidth` | system/system.c:259-262 | the field width is the low 16 bits of the number, and none if there is none |
| `Scanf.ReadQualifier` | system/system.c:264-279 | a doubled qualifier stops the scan; a lower-case h or l takes the next character along; the cursor passes the terminator if and only if a single h or l ends the format |
| `Scanf.CopyChars` | system/system.c:289-298 | %c takes exactly as many characters as its width, or what is left |
| `Scanf.CopyWord` | system/system.c:300-314 | %s takes the longest word the width allows and writes at most width + 1 bytes, terminator included |
| `Scanf.LooksLikeNumber` | system/system.c:352-361 | the look-ahead lets a conversion start if and only if a digit of the base follows, behind a sign if the conversion is signed |
| `Scanf.AssignNumber` | system/system.c:362-414 | the object assigned and the value it then holds, for each qualifier and signedness |
| `Scanf.RunConversion` | system/system.c:288-420 | the conversion switch is the specified conversion: remaining strings, count, stores and the way the loop goes on |
| `Scanf.RunDirective` | system/system.c:246-420 | a whole directive behind its percent sign is the specified one; it passes the terminator if and only if it ends with the format behind a single h or l |
| `Scanf.RunTurn` | system/system.c:221-420 | one turn of the loop is one turn of the recursive interpreter; it passes the terminator exactly where the format says so |
| `Scanf.Turn` | system/system.c:221-421 | each turn that goes on leaves a strictly shorter format, so the loop terminates |
| `Scanf.PreVsscanf` | system/system.c:209-434 | for every input and format the stores, the count and the %n positions are those of the directive-by-directive interpreter, trailing %n rule included; the cursor passes the format's terminator if and only if some turn of the scan ends behind a bare h or l, and the stores are then those made until there |
| `ScanRoundTrip.SignedOfRendered` | system/system.c:187-201 | a rendered number followed by a blank or the end scans to itself and no further |
| `ScanRoundTrip.ScanList` | system/system.c:209-434 | the list scans back from any point of the text, with or without a leading blank |
| `ScanRoundTrip.RoundTrip` | system/system.c:209-434 | every non-empty list of 32-bit integers, rendered with blanks between and scanned with as many %d, comes back whole and is counted right |
| `ScanRoundTrip.ScanRendered` | system/system.c:209-434 | the same through the loop of the code |
| `ScanFacts.CountIsAssignments` | system/system.c:209-434 | for every format and input the count is the number of objects assigned, positions not counted |
| `ScanFacts.TurnRest` | system/system.c:221-421 | which part of the format a turn leaves does not depend on the input |
| `ScanFacts.SafeFormat` | system/system.c:264-279 | a format in which no directive may end behind a bare h or l never makes the code step over the terminator |
| `ScanFacts.SafeEnding` | system/system.c:264-279 | nor does one whose last character is neither |
| `ScanFacts.PositionsExact` | system/system.c:231-238 | for every format and input the count is the intended one, and the stores are if and only if the scan does not stop at a mismatched literal with a %n directly behind it |
| `ScanFacts.PositionsSafe` | system/system.c:231-238 | a format in which no literal stands directly before a %n scans as intended with every input |
| `ScanFacts.PositionsBounded` | system/system.c:316-321 | every position reported is at most one past the end of the input, every intended one inside it |
| `ScanFacts.PositionPastEnd` | system/system.c:231-238 | the bound is reached |
| `FormatSafety.OverrunExample` | system/system.c:264-279 | "%h" with the input "1" steps over the terminator |
| `FormatSafety.TurnLeaves` | system/system.c:221-421 | what is known of the next input character after each turn, for every input |
| `FormatSafety.TurnLeads` | system/system.c:221-421 | for every turn that can be passed and every input it may leave, an input that the turn takes there |
| `FormatSafety.OverrunSafe` | system/system.c:264-279 | a format is safe from stepping over its terminator with every input if and only if no bare h or l stands where some input reaches it |
| `FormatSafety.PositionSafe` | system/system.c:231-238 | a format scans as intended with every input if and only if no literal directly before a %n stands where some input reaches it |
| `FormatSafety.NotEveryTurnPointIsReached` | system/system.c:94-118 | a format with a bare h that no input reaches, because the number before it takes every digit |
| `Conversions.HexScan` | system/system.c:326-329 | %x and %X read hexadecimal digits of either case, with "0x", "0X" or nothing before them, into 32 unsigned bits, and no further |
| `Conversions.UnsignedScan` | system/system.c:334-335 | %u reads decimal digits into 32 unsigned bits |
| `Conversions.OctalScan` | system/system.c:323-325 | %o reads digits of base 9 into 32 unsigned bits, but stops at a leading eight |
| `Conversions.DecimalScan` | system/system.c:332-335 | %d reads any decimal number with or without a minus sign, wrapped to 32 bits |
| `Conversions.OpenScan` | system/system.c:330-335 | %i does so in base 16 behind "0x", in base 9 behind another zero, and in base 10 otherwise |
| `Conversions.NoNumber` | system/system.c:352-361 | an integer conversion stops the scan where none of its digits stands, behind a minus sign if it is signed |
| `Conversions.ByteScan` | system/system.c:264-279 | behind h and another character a signed conversion stores 8 bits |
| `Conversions.LongScan` | system/system.c:264-279 | behind L, or l and another character, it stores 64 bits |
| `Conversions.QualifiedUnsigned` | system/system.c:362-414 | under the same qualifiers the unsigned conversion stores 8 and 64 unsigned bits |
| `Conversions.SizeScan` | system/system.c:399-403 | behind z or Z every decimal conversion stores 32 unsigned bits |
| `Conversions.DoubledScan` | system/system.c:266-271 | a doubled qualifier ends the scan |
| `Conversions.CharScan` | system/system.c:289-299 | %c stores one character, whatever it is |
| `Conversions.CharsScan` | system/system.c:289-299 | with a width it stores as many as the low 16 bits say, but one where they are zero or negative other than the least, or what is left |
| `Conversions.WordScan` | system/system.c:300-315 | %s skips blanks and stores the next word, up to 32767 characters, with a terminator |
| `Conversions.SizedWordScan` | system/system.c:300-315 | with a width it stores as much of the word as the low 16 bits say, and leaves the rest of it |
| `Conversions.PositionScan` | system/system.c:316-322 | %n stores the number of characters read and counts nothing, also at the end of the input |
| `Conversions.PercentScan` | system/system.c:336-341 | %% matches a percent sign or ends the scan |
| `Conversions.UnknownScan` | system/system.c:342-345 | an unknown conversion ends the scan |
| `Conversions.LiteralScan` | system/system.c:231-238 | a literal matches itself or stops the scan |
| `Conversions.BlankScan` | system/system.c:222-230 | blanks in the format match any number of blanks in the input, none included |
| `Conversions.SuppressScan` | system/system.c:244-257 | %* passes over the conversion in the format and the next word in the input |
| `FlashDriver.WriteCmd` | ing9188/components/spi_flash/src/w25qxx.c:119-126 | for every command, one closed one-byte frame with exactly its effect; the protocol is kept if and only if a program or erase finds the latch set |
| `FlashDriver.ReadRegister` | ing9188/components/spi_flash/src/w25qxx.c:128-137 | for every command, one frame of it and as many zeros, with exactly its effect; read of the status fills every place asked for and changes nothing |
| `FlashDriver.WriteEnable` | ing9188/components/spi_flash/src/w25qxx.c:139-150 | ends with the latch set, memory unchanged |
| `FlashDriver.WaitFlash` | ing9188/components/spi_flash/src/w25qxx.c:152-166 | terminates on the busy time and ends idle, memory unchanged |
| `FlashDriver.WriteAddr` | ing9188/components/spi_flash/src/w25qxx.c:183-190 | the command and three address bytes b1, b2, b3, most significant first, with b1 * 0x10000 + b2 * 0x100 + b3 the address modulo 2^24 |
| `FlashDriver.AddressSurvives` | ing9188/components/spi_flash/src/w25qxx.c:183-190 | the chip reads back the address that was meant, modulo its size |
| `FlashDriver.ProgramChunk` | ing9188/components/spi_flash/src/w25qxx.c:204-216 | one program frame, sent with the latch set, programs exactly its chunk |
| `FlashDriver.WriteExtendFlash` | ing9188/components/spi_flash/src/w25qxx.c:192-226 | besides status polls it sends exactly the byte 0x06 and a frame 0x02, address, data per chunk, in order, keeps the protocol, ends idle, and has the chunks' effect; a size beyond the chip is refused |
| `FlashDriver.ReadExtendFlash` | ing9188/components/spi_flash/src/w25qxx.c:228-239 | one frame 0x03, address, fills the buffer with memory from the address on and nothing beyond it, memory unchanged |
| `FlashDriver.SectorErase` | ing9188/components/spi_flash/src/w25qxx.c:256-275 | besides status polls exactly the frames 0x06, 0x7A and 0x20 with the address; the bytes of its 4096-byte sector become 0xFF and no others change; ends idle |
| `FlashDriver.EraseWholeChip` | ing9188/components/spi_flash/src/w25qxx.c:241-254 | besides status polls exactly the frames 0x06 and 0xC7; every byte becomes 0xFF; ends idle |
| `FlashStore.ChunksPartition` | ing9188/components/spi_flash/src/w25qxx.c:203-222 | the chunks are consecutive, at most a page long, and together the data |
| `FlashStore.ChunksFitPages` | ing9188/components/spi_flash/src/w25qxx.c:203-222 | no chunk crosses a page if and only if the write is page-aligned or stays in one page |
| `FlashStore.AlignedWriteIsIdeal` | ing9188/components/spi_flash/src/w25qxx.c:192-226 | such a write is one ideal AND-write of the whole range |
| `FlashStore.UnalignedWriteStrays` | ing9188/components/spi_flash/src/w25qxx.c:192-226 | any other write changes bytes it should not |
| `FlashStore.ChunkingExact` | ing9188/components/spi_flash/src/w25qxx.c:192-226 | for every address and size: right for all memories and data if and only if aligned |
| `FlashStore.EffectIsMap` | ing9188/components/spi_flash/src/w25qxx.c:192-275 | an aligned write, a read, and the erases are those of a map without pages, chunks or frames |
| `FlashStore.RunIsMap` | ing9188/components/spi_flash/src/w25qxx.c:192-275 | over every run whose writes are aligned the chip holds what that map holds |
| `FlashStore.Perform` | ing9188/components/spi_flash/src/w25qxx.c:192-275 | each driver call has the effect of its frames, and if a write is aligned that of the operation on a plain byte map; reads return what memory holds |
| `FlashStore.Run` | ing9188/components/spi_flash/src/w25qxx.c:192-275 | over any run of calls every exchange has CS low, every frame is closed and issued legally, and every call ends idle; if the writes are aligned, memory and all replies are those of the plain byte map |
| `BlockStore.LittlefsBlockRead` | ing9188/components/fs/fs_init.c:42-57 | the bytes of the store from the offset on, modulo the chip's size, nothing written beyond them |
| `BlockStore.LittlefsBlockWrite` | ing9188/components/fs/fs_init.c:59-83 | the driver's write of exactly the given bytes; an aligned one inside the chip is an AND-write in place; a size beyond the chip writes nothing |
| `BlockStore.LittlefsBlockErase` | ing9188/components/fs/fs_init.c:85-102 | exactly the sector that holds the offset is erased, whatever size is passed; past the chip nothing is erased, except that the offset one past its end erases the first sector |
| `BlockStore.BlockWriteIsIdeal` | ing9188/components/fs/fs_init.c:26-28 | the configured geometry makes every block write an ideal one |
| `BlockStore.AddWrite` | ing9188/components/fs/fs_init.c:59-83 | one more write keeps everything written before |
| `BlockStore.BlockFilled` | ing9188/components/fs/fs_init.c:42-102 | after an erase any writes to distinct offsets read back exactly, the rest of the block is erased, all other blocks are unchanged |
| `BlockStore.OrderIndependent` | ing9188/components/fs/fs_init.c:59-83 | the order of the writes makes no difference |
| `BlockStore.FillBlock` | ing9188/components/fs/fs_init.c:42-102 | the same through the callbacks and the driver |
| `Atomics.InstructionOk` | docs/ohos-source-patches/liteos_m-cortex-m3-gcc.patch:103-253 | each instruction keeps a call consistent with the word, and takes effect at most once, as the whole operation |
| `Atomics.EveryRun` | docs/ohos-source-patches/liteos_m-cortex-m3-gcc.patch:103-253 | the invariant holds under every choice of calls, instructions and preemptions |
| `Atomics.Linearizable` | docs/ohos-source-patches/liteos_m-cortex-m3-gcc.patch:103-253 | from the start, in every run: the word is the replay of the operations in the order they took effect, every return value matches that order, each caller's operations in it are exactly its finished calls and the one in progress if it has taken effect, and failures are bounded by preemptions |
| `Atomics.HistoryGrows` | docs/ohos-source-patches/liteos_m-cortex-m3-gcc.patch:103-253 | an operation that took effect never disappears or changes place |
| `Atomics.FinishedTookEffect` | docs/ohos-source-patches/liteos_m-cortex-m3-gcc.patch:103-253 | every finished call has its place in the order, with what it returned |
| `Atomics.FinishedMeans` | docs/ohos-source-patches/liteos_m-cortex-m3-gcc.patch:103-253 | every finished call did what its operation means to the word as it was: an exchange returned what it replaced, an addition or subtraction the wrapped result it stored, a compare whether the word was the expected one |
| `Atomics.RealTime` | docs/ohos-source-patches/liteos_m-cortex-m3-gcc.patch:103-253 | a call that has returned before another begins comes before it in the order, however the run goes on |
| `Atomics.UndisturbedCallFinishes` | docs/ohos-source-patches/liteos_m-cortex-m3-gcc.patch:103-253 | a call that is not preempted ends within seven steps, without a retry, having done exactly its operation |
| `AtomicLoops.AtomicRead` | docs/ohos-source-patches/liteos_m-cortex-m3-gcc.patch:103-113 | happens exactly once between call and return, returns the word as it then is and leaves it |
| `AtomicLoops.AtomicSet` | docs/ohos-source-patches/liteos_m-cortex-m3-gcc.patch:115-126 | happens exactly once, and the word is then the value; no more retries than preemptions |
| `AtomicLoops.AtomicAdd` | docs/ohos-source-patches/liteos_m-cortex-m3-gcc.patch:128-143 | happens exactly once; the result is the word after it, the word before it plus the operand, wrapped to 32 bits; no more retries than preemptions |
| `AtomicLoops.AtomicSub` | docs/ohos-source-patches/liteos_m-cortex-m3-gcc.patch:145-160 | the same for subtraction |
| `AtomicLoops.AtomicExchange` | docs/ohos-source-patches/liteos_m-cortex-m3-gcc.patch:200-214 | happens exactly once, returns the word as it was and leaves the value in it; no more retries than preemptions |
| `AtomicLoops.AtomicCompareExchange` | docs/ohos-source-patches/liteos_m-cortex-m3-gcc.patch:235-253 | happens exactly once; it says that the word differed if and only if it did, and stores if and only if it did not; a failed compare takes effect at its LDREX |
| `ContextSwitch.DecodeFrameLocal` | docs/ohos-source-patches/liteos_m-cortex-m3-gcc.patch:1555-1592 | what a saved frame means depends only on the words of its own stack |
| `ContextSwitch.FrameHoldsContext` | docs/ohos-source-patches/liteos_m-cortex-m3-gcc.patch:1555-1592 | the handler's nine words over the hardware's eight encode the whole context |
| `ContextSwitch.SwitchedFrames` | docs/ohos-source-patches/liteos_m-cortex-m3-gcc.patch:1551-1570 | after the stores every task's frame, the running one's included, decodes to its context |
| `ContextSwitch.Cpu.HalPendSV` | docs/ohos-source-patches/liteos_m-cortex-m3-gcc.patch:1530-1595 | without a switch nothing but scratch registers changes; with one the old task's words are stored, its pointer updated, and the chosen task's loaded |
| `ContextSwitch.Cpu.TaskContextSwitch` | docs/ohos-source-patches/liteos_m-cortex-m3-gcc.patch:1551-1595 | R4-R11 and PRIMASK stored below the process stack, the chosen task's taken from its own |
| `ContextSwitch.Cpu.Preempt` | docs/ohos-source-patches/liteos_m-cortex-m3-gcc.patch:1530-1595 | entry, handler and exception return together leave every task's context as it was, whoever runs next |
| `ContextSwitch.Cpu.Interleave` | docs/ohos-source-patches/liteos_m-cortex-m3-gcc.patch:1530-1595 | context isolation: under any interleaving of task steps and PendSV exceptions the one register set refines a machine with a register set per task, and every context a task can be returned to has the Thumb bit |
| `ContextSwitch.Cpu.Resumes` | docs/ohos-source-patches/liteos_m-cortex-m3-gcc.patch:1530-1595 | over a whole run of the processor, a task that takes no step resumes with exactly the context it left |
| `ContextSwitch.Cpu.TskStackInit` | docs/ohos-source-patches/liteos_m-cortex-m3-gcc.patch:1280-1341 | the seventeen words at the top of the stack have their literal values, xPSR 0x01000000 among them; they decode to the task's entry, with its id in R0, ArchSysExit in LR, an empty stack and interrupts enabled; no other word changes; for every task id and size |
| `ContextSwitch.Cpu.StartToRun` | docs/ohos-source-patches/liteos_m-cortex-m3-gcc.patch:1440-1482 | R0-R3, LR, PC and the stack pointer come from words 9 to 15 of the frame, interrupts are enabled; the stack pointer is that of exception return if and only if there is no alignment word |
| `ContextSwitch.Cpu.ResumeLoaded` | docs/ohos-source-patches/liteos_m-cortex-m3-gcc.patch:1589-1594 | loading nine words and returning from the exception gives the frame's context |
| `ContextSwitch.BothWaysAgree` | docs/ohos-source-patches/liteos_m-cortex-m3-gcc.patch:1280-1341 | starting a task first through HalStartToRun, or creating it while others run and switching to it through PendSV and exception return, gives the same R0-R3, LR, PC, PSP and PRIMASK, for every task id and stack size; the second way R4-R12 and xPSR have their literal values too |
| `ContextSwitch.Cpu.CreateTask` | docs/ohos-source-patches/liteos_m-cortex-m3-gcc.patch:1280-1341 | a task created while others run is suspended at its entry, and no other task's context changes |
| `ContextSwitch.Cpu.Boot` | docs/ohos-source-patches/liteos_m-cortex-m3-gcc.patch:1440-1482 | after every task's frame is initialised and HalStartToRun has branched, the processor shows the ideal machine with every task at its entry, from which context isolation follows for the whole run |
| `CriticalSection.MicroOk` | docs/ohos-source-patches/liteos_m-cortex-m3-gcc.patch:1484-1514 | every machine step inside an enter, a leave or an interrupt lock keeps the invariant and raises no assertion |
| `CriticalSection.ParkedIsActive` | hal_liteos/gen_os_impl.c:150-167 | while interrupts are unmasked what an interrupted activity has read so far is what it will find again |
| `CriticalSection.NextOk` | hal_liteos/gen_os_impl.c:150-167 | the invariant is kept by every step, interrupt, return and task switch |
| `CriticalSection.CriticalSectionsSurvive` | hal_liteos/gen_os_impl.c:150-167 | in every reachable state a positive nest_level means masked, and the assertion fired only on an eleventh level |
| `CriticalSection.HandlersAreTransparent` | hal_liteos/gen_os_impl.c:150-167 | a handler returns with nest_level and mask as it found them |
| `CriticalSection.LeaveRestores` | hal_liteos/gen_os_impl.c:161-167 | a leave restores the mask its own enter saved, whatever came between |
| `CriticalSection.AssertionExact` | hal_liteos/gen_os_impl.c:153-156 | entering raises the assertion if and only if the activity itself holds the full depth |
| `CriticalSection.EnterCompletes` | hal_liteos/gen_os_impl.c:153-159 | undisturbed, enter takes effect whole, in either order of evaluation of the assignment |
| `CriticalSection.LeaveCompletes` | hal_liteos/gen_os_impl.c:161-167 | undisturbed, leave takes back exactly one section |
| `CriticalSection.Port.EnterCritical` | hal_liteos/gen_os_impl.c:153-159 | pushes the mask it found and masks, or asserts if and only if the stack is full |
| `CriticalSection.Port.LeaveCritical` | hal_liteos/gen_os_impl.c:161-167 | pops the mask, or asserts if and only if nothing is open |
| `CriticalSection.Port.Nested` | hal_liteos/gen_os_impl.c:150-167 | matched sections of any depth restore level, saved masks and mask |
| `TickSuppression.ClocksFromZero` | hal_liteos/gen_os_impl.c:436-445 | the counter and its flag after any number of clocks from a restart |
| `TickSuppression.EarlyWakeConserves` | hal_liteos/gen_os_impl.c:457-463 | measured in the counter's decrements: reported ticks and the elapsed part of the current tick are exactly the decrements, the compensation and what does not fit 24 bits; the reload is in 1..a tick; fewer ticks than asked for |
| `TickLedger.WakeLedger` | hal_liteos/gen_os_impl.c:443-463 | for every sleep, early or full: ticks and phase are the decrements and the credit, less what was overslept |
| `TickLedger.SleepLedger` | hal_liteos/gen_os_impl.c:418-475 | for every sleep: ticks counted plus phase equal all clocks that went by, stopped clocks, both reloads and settling included, plus a slip given in closed form |
| `TickLedger.EarlyWakeExact` | hal_liteos/gen_os_impl.c:430-463 | an early wake counts right if and only if its credit is the clocks that went by without a decrement |
| `TickLedger.OrdinaryEarlyWake` | hal_liteos/gen_os_impl.c:430-463 | an ordinary early wake gains the compensation and loses the stopped clocks and two reloads, and counts right if and only if these are equal |
| `TickLedger.FullSleepExact` | hal_liteos/gen_os_impl.c:443-456 | any full sleep counts right if and only if the decrements are those loaded, the counter's reload, what the next tick absorbs, and the credit less what went unseen |
| `TickLedger.FullSleepInTime` | hal_liteos/gen_os_impl.c:443-456 | an ordinary sleep of at least two ticks whose compensation is what it loses, slept to the end, counts right if and only if the counter reloaded once and the overshoot fits the next tick |
| `TickLedger.StandstillExact` | hal_liteos/gen_os_impl.c:430-463 | a sleep whose counter has nothing to count is reported whole, and counts right if and only if it lasted that long |
| `TickSuppression.GuardExact` | hal_liteos/gen_os_impl.c:447-452 | the unsigned subtraction wraps if and only if a tick or more was overslept, the guard catches every wrap, and otherwise reload plus overshoot is a tick less one |
| `TickSuppression.LowPower.UserDeepSleepSuspend` | hal_liteos/gen_os_impl.c:418-475 | the 32-bit code reports the ticks and computes the reload of the unbounded specification for every sleep whose clocks fit 32 bits, 24-bit truncation of LOAD included; PRIMASK and the tick's LOAD are restored; what it leaves in the timer and has reported is the sleep event of a run, for any stopped and settling clocks and any pending tick |
| `TickSuppression.SleepMeans` | hal_liteos/gen_os_impl.c:430-463 | a sleep that fits the counter, in plain figures: before the countdown ends, ticks and phase make up the clocks counted and the compensation; later all ticks but one are reported, and the next is shortened by what was counted since unless too little is left |
| `TickSuppression.LowPower.StartSleep` | hal_liteos/gen_os_impl.c:428-438 | the counter starts from the requested span less the compensation, as far as it fits 24 bits |
| `TickLedger.RunLedger` | hal_liteos/gen_os_impl.c:418-475 | over every run of timer clocks and sleeps the tick count is the number of whole ticks in all clocks that went by, adjusted by the slips alone |
| `TickLedger.UncompensatedRunLoses` | hal_liteos/gen_os_impl.c:352-358 | over every run of ordinary early wakes without compensation the tick count falls behind by at least two clocks a sleep |
| `TickSuppression.ReloadTakesEffect` | hal_liteos/gen_os_impl.c:465-469 | the shortened tick is counted if and only if the counter reloads before LOAD is set back |
| `Mpu.EncodeSize` | docs/ohos-source-patches/liteos_m-cortex-m3-gcc.patch:2552-2570 | for every 64-bit size the code is non-zero if and only if the size is a power of two in 32..2^32, and then the size is 2^(code+1) |
| `Bits.AndMask` | docs/ohos-source-patches/liteos_m-cortex-m3-gcc.patch:2558-2631 | masking with 2^k - 1 is the remainder by 2^k, which the alignment tests rely on |
| `Mpu.EncodeAp` | docs/ohos-source-patches/liteos_m-cortex-m3-gcc.patch:2572-2593 | the access code of each permission, 1, 3, 5 or 6 and 3 by default, which grants both privilege levels what the permission names |
| `Mpu.AddMemAttr` | docs/ohos-source-patches/liteos_m-cortex-m3-gcc.patch:2528-2550 | the cache and buffer flags of the memory type, added to the register |
| `Mpu.Packed` | docs/ohos-source-patches/liteos_m-cortex-m3-gcc.patch:2595-2606 | every field can be read back from the packed register, none disturbs another |
| `Mpu.GetRasr` | docs/ohos-source-patches/liteos_m-cortex-m3-gcc.patch:2595-2606 | every field stands in its bits; decoding the register as the hardware does gives the requested size, access, execute-never, share, cache and buffer attributes |
| `Mpu.RequestedMeans` | docs/ohos-source-patches/liteos_m-cortex-m3-gcc.patch:2528-2593 | what each permission grants to privileged and user code, and how each memory type is cached and buffered; execute-never and share are the low bits of their parameters |
| `Mpu.MatchesIsCovers` | docs/ohos-source-patches/liteos_m-cortex-m3-gcc.patch:2637-2641 | the hardware's comparison of address bits selects exactly the addresses from the base to base plus size |
| `Mpu.Unit.SetRegion` | docs/ohos-source-patches/liteos_m-cortex-m3-gcc.patch:2608-2649 | succeeds if and only if the id is below 8, the unit exists, the size is a power of two in 32..2^32, the base is a multiple of it and the region is free; then that region alone becomes one with that base and size, the access of its permission and the attributes of its memory type; a region is flagged used if and only if it is enabled |
| `Mpu.Unit.DisableRegion` | docs/ohos-source-patches/liteos_m-cortex-m3-gcc.patch:2651-2676 | disables its own region alone, and succeeds if and only if it was in use |
| `Mpu.Unit.UnusedRegionGet` | docs/ohos-source-patches/liteos_m-cortex-m3-gcc.patch:2678-2694 | the least free region, or -1 if and only if all are used |
| `Mpu.Run` | docs/ohos-source-patches/liteos_m-cortex-m3-gcc.patch:2608-2694 | over any list of calls flags and registers agree, and every answer is the specified one |
| `Mpu.RegionKept` | docs/ohos-source-patches/liteos_m-cortex-m3-gcc.patch:2608-2676 | over any calls but its own disabling a region in use never changes |
| `Mpu.RegionAskedFor` | docs/ohos-source-patches/liteos_m-cortex-m3-gcc.patch:2608-2676 | every region in use is one that some call asked for |
| `Mpu.RequestFits` | docs/ohos-source-patches/liteos_m-cortex-m3-gcc.patch:2626-2635 | an accepted region lies within the 32-bit address space |
| `Mpu.SetGoverns` | docs/ohos-source-patches/liteos_m-cortex-m3-gcc.patch:2608-2649 | setting a region takes over exactly the addresses it covers that no higher region governs |
| `Mpu.SetThenDisable` | docs/ohos-source-patches/liteos_m-cortex-m3-gcc.patch:2608-2676 | set and then disable give back the regions as the hardware reads them and the flags |

## Left out

Scanner (`system/system.c`):

- PreVsscanf: once the cursor has passed the format's terminator the run ends; what the code reads from there on is not in the format.
- The source's own values are kept: `BASE_8` is 9, and only ' ' is a blank because the other constants hold several characters. Octal is therefore not claimed.
- `ParseInteger` shows the overflow flag as a result; in the source it is folded into the count with a mask of zero.
- `skip_atoi` is exact, since only its low 16 bits are used; strings are shorter than 2^31, so counts do not wrap.
- Stores are a list in argument order: arguments that overlap each other or the strings, and too few arguments, are not modelled.
- `sscanf` itself, which only passes its arguments on, and `strcpy`.

Flash (`w25qxx.c`, `fs_init.c` of ing9188; the copies for the other chips are near-identical):

- The chip's replies to bytes nobody uses are arbitrary, and addresses count modulo the chip's size; `FlashStore` and the block results of `BlockStore` stay inside it.
- `write_register`, device ids, pins, clocks, printing, and the inconsistent return codes of `write_cmd`, `erase_chip` and the sector erase.
- The chip's suspend, block erase and 24-bit address register beyond its 4 MiB.
- `PartitionsInit`, resource lookup, mounting and the littlefs library: running sums and library calls that are not shown.

Cortex-M3 port (the patch):

- The 64-bit atomics, which only mask interrupts, and the increment and decrement wrappers.
- One shared word; the monitor is the local one, cleared by every exception (section A3.4 of the ARMv7-M Architecture Reference Manual).
- Floating-point frames, signal delivery, the CONTROL register, fault handling; `CCR.STKALIGN` is taken as set, as `OsSysTickTimerInit` writes it.
- Stack pointers and addresses count words, and memory is a sequence; `g_losTask` and the control blocks are fields of the processor.
- The scheduler's choice and everything it does outside the tasks' stacks is arbitrary.
- `ArchMpuEnable` and `ArchMpuDisable`. The header that declares `MPU_CFG_PARA` is not part of this model: its enumerations are the names the code uses, with any word for the shifted ones. A unit that exists has eight regions.

OS glue (`gen_os_impl.c`):

- A failed platform assertion ends the run. Handlers follow last-in, first-out order; a task is not switched while a handler runs.
- UserDeepSleepSuspend: the counter is assumed to reload once before it is read, and the sleep's clocks to fit 32 bits. `RTC_CLK_FREQ` and the PLL clock are parameters.
- StartSleep: the same bound of 32 bits.
- SleepLedger: the last write of LOAD comes at the latest as the shortened tick ends.
- `UserLpTimeStart`, whose short path returns with interrupts masked, and `UserLpTimeGet`, a multiplication.
- Queue, timer, event and memory wrappers, heap status, watchdog stubs, and the rest of the repository.
