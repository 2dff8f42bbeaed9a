/** The W25Q serial flash as the driver sees it: a chip select line, one frame of
    bytes at a time, a write-enable latch, a busy time, and memory. */
module FlashChip {
  import opened Bits
  import opened Words

  type Byte = x: int | 0 <= x < 256

  const FLASH_BYTE := 0x40_0000
  const SECTOR_BYTE := 0x1000
  const PAGE_BYTE := 0x100

  const WRITE_ENABLE: Byte := 0x06
  const READ_DATA: Byte := 0x03
  const PAGE_PROGRAM: Byte := 0x02
  const SECTOR_ERASE_4KB: Byte := 0x20
  const CHIP_ERASE: Byte := 0xC7
  const ERASE_PROGRAM_RESUME: Byte := 0x7A
  const READ_STATUS_REGISTER_1: Byte := 0x05

  type Memory = m: seq<Byte> | |m| == FLASH_BYTE witness seq(FLASH_BYTE, _ => 0 as Byte)

  /** Programming can only clear bits: from an erased byte it gives the byte programmed. */
  lemma AndErased(b: Byte)
    ensures And(0xFF, b) == b && And(b, 0xFF) == b
  {
    hide And, Pow2;
    Pow2Values();
    AndMask(b, 8);
    UniqueResidue(b, 0, 256, b);
    AndCommutes(b, 0xFF);
  }

  /** A frame is the bytes sent while the chip is selected. The chip notes with it whether it was
      busy when the frame began, and enabled for writing when it ended. */
  datatype Frame = Frame(bytes: seq<Byte>, enabled: bool, busy: bool)

  /** The address in bytes 1 to 3 of a frame, most significant first. */
  function FrameAddress(f: seq<Byte>): (a: nat)
    requires |f| >= 4
  {
    f[1] as int * 0x1_0000 + f[2] as int * 0x100 + f[3] as int
  }

  /** The page buffer: data bytes go to successive places of the page, wrapping
      inside it, the last byte for a place winning; untouched places stay erased. */
  function PageBuffer(start: nat, data: seq<Byte>): (buffer: seq<Byte>)
    ensures |buffer| == PAGE_BYTE
  {
    if data == [] then seq(PAGE_BYTE, _ => 0xFF as Byte)
    else PageBuffer(start, data[..|data| - 1])[(start + |data| - 1) % PAGE_BYTE := data[|data| - 1]]
  }

  /** A page program: the page buffer is ANDed into the page that holds the address. */
  function ProgramPage(m: Memory, address: nat, data: seq<Byte>): Memory {
    var a := address % FLASH_BYTE;
    var page := a - a % PAGE_BYTE;
    var buffer := PageBuffer(a % PAGE_BYTE, data);
    seq(FLASH_BYTE, k requires 0 <= k < FLASH_BYTE =>
      if page <= k < page + PAGE_BYTE then And(m[k], buffer[k - page]) else m[k])
  }

  function EraseSector(m: Memory, address: nat): (m': Memory)
  {
    var a := address % FLASH_BYTE;
    var sector := a - a % SECTOR_BYTE;
    seq(FLASH_BYTE, k requires 0 <= k < FLASH_BYTE =>
      if sector <= k < sector + SECTOR_BYTE then 0xFF else m[k])
  }

  function EraseChip(): Memory { seq(FLASH_BYTE, _ => 0xFF as Byte) }

  /** The effect on memory of a frame that ends while the chip is enabled and idle. */
  function FrameEffect(m: Memory, f: seq<Byte>): Memory {
    if |f| >= 5 && f[0] == PAGE_PROGRAM then ProgramPage(m, FrameAddress(f), f[4..])
    else if |f| == 4 && f[0] == SECTOR_ERASE_4KB then EraseSector(m, FrameAddress(f))
    else if |f| == 1 && f[0] == CHIP_ERASE then EraseChip()
    else m
  }

  predicate StartsWork(f: seq<Byte>) {
    || (|f| >= 5 && f[0] == PAGE_PROGRAM)
    || (|f| == 4 && f[0] == SECTOR_ERASE_4KB)
    || (|f| == 1 && f[0] == CHIP_ERASE)
  }

  lemma NoEffect(m: Memory, f: seq<Byte>)
    requires !StartsWork(f)
    ensures FrameEffect(m, f) == m
  {
  }

  class Chip {
    var mem: Memory
    var selected: bool           // CS is low
    var frame: seq<Byte>         // bytes received since CS went low
    var enabled: bool            // write-enable latch
    var busyFor: nat             // time left of a program or erase
    var begunBusy: bool          // busy when CS went low
    var frames: seq<Frame>       // every closed frame, oldest first
    var strayBytes: nat          // bytes clocked while not selected
    var nestedSelects: nat       // CS lowered while already low

    constructor (image: Memory)
      ensures mem == image && Idle() && !enabled && frames == [] && Clean()
    {
      mem, selected, frame, enabled, busyFor, begunBusy := image, false, [], false, 0, false;
      frames, strayBytes, nestedSelects := [], 0, 0;
    }

    predicate Idle()
      reads this
    {
      !selected && busyFor == 0
    }

    /** No byte was ever sent outside a frame and no frame was left open. */
    predicate Clean()
      reads this
    {
      strayBytes == 0 && nestedSelects == 0
    }

    method CsLow()
      modifies this`selected, this`frame, this`begunBusy, this`nestedSelects
      ensures selected && (old(selected) ==> frame == old(frame)) && (!old(selected) ==> frame == [])
      ensures begunBusy == if old(selected) then old(begunBusy) else busyFor > 0
      ensures nestedSelects == if old(selected) then old(nestedSelects) + 1 else old(nestedSelects)
    {
      if selected {
        nestedSelects := nestedSelects + 1;
      } else {
        selected, frame, begunBusy := true, [], busyFor > 0;
      }
    }

    /** The end of a frame: the command takes effect if the chip accepts it. A program
        or erase then takes an arbitrary time. */
    method CsHigh()
      modifies this
      ensures !selected && strayBytes == old(strayBytes) && nestedSelects == old(nestedSelects)
      ensures frames == if old(selected) then old(frames) + [Frame(old(frame), old(enabled), old(begunBusy))]
                        else old(frames)
      ensures mem == if old(selected && busyFor == 0 && enabled) then FrameEffect(old(mem), old(frame)) else old(mem)
      ensures old(selected && busyFor == 0) && old(frame) == [WRITE_ENABLE] ==> enabled && busyFor == 0
      ensures !(old(selected && busyFor == 0 && enabled) && StartsWork(old(frame))) ==> busyFor == old(busyFor)
      ensures !(&& old(selected && busyFor == 0)
                && ((old(enabled) && StartsWork(old(frame))) || old(frame) == [WRITE_ENABLE]))
              ==> enabled == old(enabled)
    {
      if selected {
        frames := frames + [Frame(frame, enabled, begunBusy)];
        selected := false;
        if busyFor == 0 {
          if frame == [WRITE_ENABLE] {
            enabled := true;
          } else if enabled && StartsWork(frame) {
            mem := FrameEffect(mem, frame);
            var latency: nat :| true;
            busyFor := latency;
            if busyFor == 0 {
              enabled := false;
            }
          }
        }
      }
    }

    /** Status register 1: bit 0 busy, bit 1 write-enable latch. */
    function Status(): Byte
      reads this
    {
      (if busyFor > 0 then 1 else 0) + (if enabled then 2 else 0)
    }

    /** Exchanges one byte. What the chip sends back is defined for status and data reads
        only. An arbitrary time passes; when a program or erase ends in it, the latch drops. */
    method Exchange(out: Byte) returns (reply: Byte)
      modifies this`frame, this`enabled, this`busyFor, this`strayBytes
      ensures strayBytes == if old(selected) then old(strayBytes) else old(strayBytes) + 1
      ensures frame == if old(selected) then old(frame) + [out] else old(frame)
      ensures old(selected) && |old(frame)| >= 1 && old(frame)[0] == READ_STATUS_REGISTER_1 ==> reply == old(Status())
      ensures old(selected && busyFor == 0) && |old(frame)| >= 4 && old(frame)[0] == READ_DATA
              ==> reply == mem[(FrameAddress(old(frame)) + |old(frame)| - 4) % FLASH_BYTE]
      ensures old(busyFor) == 0 ==> busyFor == 0 && enabled == old(enabled)
      ensures old(busyFor) > 0 ==> busyFor < old(busyFor)
    {
      reply :| true;
      if selected {
        if |frame| >= 1 && frame[0] == READ_STATUS_REGISTER_1 {
          reply := Status();
        } else if |frame| >= 4 && frame[0] == READ_DATA && busyFor == 0 {
          reply := mem[(FrameAddress(frame) + |frame| - 4) % FLASH_BYTE];
        }
        frame := frame + [out];
      } else {
        strayBytes := strayBytes + 1;
      }
      if busyFor > 0 {
        var elapsed: nat :| elapsed >= 1;
        if elapsed >= busyFor {
          busyFor, enabled := 0, false;
        } else {
          busyFor := busyFor - elapsed;
        }
      }
    }
  }
}
