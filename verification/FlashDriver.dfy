/** The flash driver: every function as frames exchanged with the chip, proved to
    keep the protocol and to have the intended effect on memory. */
module FlashDriver {
  import opened FlashChip
  import opened Words

  const FLASH_OK := 0
  const FLASH_ERR_PARAM := 2

  // ---------- Protocol ----------

  /** A frame the protocol allows: programs and erases only with the latch set, and
      nothing but a status read issued while the chip is busy. */
  predicate LegalFrame(f: Frame) {
    && |f.bytes| > 0
    && (StartsWork(f.bytes) ==> f.enabled)
    && (f.busy ==> f.bytes[0] == 0x05)
  }

  predicate Legal(frames: seq<Frame>) {
    forall k :: 0 <= k < |frames| ==> LegalFrame(frames[k])
  }

  /** Everything but a read of the status. */
  predicate IsCommand(bytes: seq<Byte>) {
    bytes == [] || bytes[0] != 0x05
  }

  /** The frames that are not status reads, in order: how often the status is polled depends on the chip. */
  function Commands(frames: seq<Frame>): seq<seq<Byte>> {
    if frames == [] then []
    else
      var last := frames[|frames| - 1];
      Commands(frames[..|frames| - 1]) + (if IsCommand(last.bytes) then [last.bytes] else [])
  }

  lemma CommandsAppend(frames: seq<Frame>, f: Frame)
    ensures Commands(frames + [f]) == Commands(frames) + (if IsCommand(f.bytes) then [f.bytes] else [])
  {
    assert (frames + [f])[..|frames|] == frames;
  }

  lemma LegalAppend(frames: seq<Frame>, f: Frame)
    ensures Legal(frames + [f]) <==> Legal(frames) && LegalFrame(f)
  {
    assert (frames + [f])[|frames|] == f;
    forall k | 0 <= k < |frames| ensures (frames + [f])[k] == frames[k] { }
    if Legal(frames + [f]) {
      forall k | 0 <= k < |frames| ensures LegalFrame(frames[k]) {
        assert LegalFrame((frames + [f])[k]);
      }
    }
  }

  /** The state between two driver calls. */
  predicate Ready(chip: Chip)
    reads chip
  {
    chip.Idle() && chip.Clean() && Legal(chip.frames)
  }

  /** Ends a frame; the protocol is kept if it allows the frame. */
  method CloseFrame(chip: Chip)
    requires chip.selected && chip.Clean() && Legal(chip.frames)
    modifies chip
    ensures !chip.selected && chip.Clean()
    ensures Legal(chip.frames) <==> LegalFrame(old(Frame(chip.frame, chip.enabled, chip.begunBusy)))
    ensures chip.mem == if old(chip.busyFor == 0 && chip.enabled) then FrameEffect(old(chip.mem), old(chip.frame))
                        else old(chip.mem)
    ensures Commands(chip.frames)
         == Commands(old(chip.frames)) + (if IsCommand(old(chip.frame)) then [old(chip.frame)] else [])
    ensures !(old(chip.busyFor == 0 && chip.enabled) && StartsWork(old(chip.frame))) ==> chip.busyFor == old(chip.busyFor)
    ensures !StartsWork(old(chip.frame)) && old(chip.frame) != [WRITE_ENABLE] ==> chip.enabled == old(chip.enabled)
    ensures old(chip.busyFor) == 0 && old(chip.frame) == [WRITE_ENABLE] ==> chip.enabled
  {
    hide FrameEffect;
    ghost var before, f := chip.frames, Frame(chip.frame, chip.enabled, chip.begunBusy);
    CommandsAppend(before, f);
    chip.CsHigh();
    LegalAppend(before, f);
  }

  // ---------- Short frames ----------

  /** `write_cmd`, for any command. */
  method WriteCmd(chip: Chip, cmd: Byte)
    requires Ready(chip)
    modifies chip
    ensures !chip.selected && chip.Clean()
    ensures Legal(chip.frames) <==> (StartsWork([cmd]) ==> old(chip.enabled))
    ensures chip.mem == if old(chip.enabled) then FrameEffect(old(chip.mem), [cmd]) else old(chip.mem)
    ensures Commands(chip.frames) == Commands(old(chip.frames)) + (if IsCommand([cmd]) then [[cmd]] else [])
    ensures !(StartsWork([cmd]) && old(chip.enabled)) ==> chip.busyFor == 0
    ensures !StartsWork([cmd]) ==> chip.enabled == (old(chip.enabled) || cmd == WRITE_ENABLE)
  {
    hide FrameEffect;
    chip.CsLow();
    var status := chip.Exchange(cmd);
    assert chip.frame == [cmd];
    CloseFrame(chip);
  }

  function Zeros(n: nat): (z: seq<Byte>)
    ensures |z| == n
  {
    seq(n, _ => 0 as Byte)
  }

  /** `read_register`, for any command: the register read by the driver's loops is the status. */
  method ReadRegister(chip: Chip, cmd: Byte, regdata: array<Byte>, size: nat)
    requires Ready(chip) && size <= regdata.Length
    modifies chip, regdata
    ensures !chip.selected && chip.Clean()
    ensures Legal(chip.frames) <==> (StartsWork([cmd] + Zeros(size)) ==> old(chip.enabled))
    ensures chip.mem == if old(chip.enabled) then FrameEffect(old(chip.mem), [cmd] + Zeros(size)) else old(chip.mem)
    ensures Commands(chip.frames)
         == Commands(old(chip.frames)) + (if cmd != READ_STATUS_REGISTER_1 then [[cmd] + Zeros(size)] else [])
    ensures cmd == READ_STATUS_REGISTER_1 ==>
      && Ready(chip) && chip.mem == old(chip.mem) && chip.enabled == old(chip.enabled)
      && forall i :: 0 <= i < size ==> regdata[i] == old(chip.Status())
    ensures regdata[size..] == old(regdata[size..])
  {
    hide FrameEffect;
    chip.CsLow();
    var reply := chip.Exchange(cmd);
    for i := 0 to size
      invariant chip.selected && chip.busyFor == 0 && chip.enabled == old(chip.enabled) && !chip.begunBusy
      invariant chip.frame == [cmd] + Zeros(i)
      invariant chip.mem == old(chip.mem) && chip.frames == old(chip.frames) && chip.Clean()
      invariant cmd == READ_STATUS_REGISTER_1 ==> forall k :: 0 <= k < i ==> regdata[k] == old(chip.Status())
      invariant regdata[size..] == old(regdata[size..])
    {
      reply := chip.Exchange(0x00);
      regdata[i] := reply;
    }
    if cmd == READ_STATUS_REGISTER_1 {
      NoEffect(chip.mem, chip.frame);
    }
    CloseFrame(chip);
  }

  /** `write_enable`. */
  method WriteEnable(chip: Chip)
    requires Ready(chip)
    modifies chip
    ensures Ready(chip) && chip.enabled && chip.mem == old(chip.mem)
    ensures Commands(chip.frames) == Commands(old(chip.frames)) + [[0x06]]
  {
    WriteCmd(chip, WRITE_ENABLE);
    var reg1 := new Byte[1];
    var isEnabled := false;
    while !isEnabled
      invariant Ready(chip) && chip.enabled && chip.mem == old(chip.mem)
      invariant Commands(chip.frames) == Commands(old(chip.frames)) + [[WRITE_ENABLE]]
      decreases !isEnabled
    {
      ReadRegister(chip, READ_STATUS_REGISTER_1, reg1, 1);
      isEnabled := reg1[0] / 2 % 2 != 0;
    }
  }

  /** `wait_flash`: polls until the busy bit is clear. */
  method WaitFlash(chip: Chip)
    requires !chip.selected && chip.Clean() && Legal(chip.frames)
    modifies chip
    ensures Ready(chip) && chip.mem == old(chip.mem)
    ensures Commands(chip.frames) == Commands(old(chip.frames))
  {
    hide FrameEffect, Commands, Legal;
    var isBusy := true;
    while isBusy
      invariant !chip.selected && chip.Clean() && Legal(chip.frames)
      invariant chip.mem == old(chip.mem)
      invariant Commands(chip.frames) == Commands(old(chip.frames))
      invariant !isBusy ==> chip.busyFor == 0
      decreases isBusy, chip.busyFor
    {
      chip.CsLow();
      var reply := chip.Exchange(READ_STATUS_REGISTER_1);
      reply := chip.Exchange(0x00);
      isBusy := reply % 2 != 0;
      assert chip.frame == [READ_STATUS_REGISTER_1, 0x00];
      NoEffect(chip.mem, chip.frame);
      CloseFrame(chip);
    }
  }

  // ---------- Addressed frames ----------

  /** Three bytes, the most significant first. */
  function AddressBytes(address: nat): (b: seq<Byte>)
    ensures |b| == 3
    ensures b[0] as int * 0x1_0000 + b[1] as int * 0x100 + b[2] as int == address % 0x100_0000
  {
    SplitAddress(address);
    [address / 0x1_0000 % 0x100, address / 0x100 % 0x100, address % 0x100]
  }

  lemma SplitAddress(address: nat)
    ensures address / 0x1_0000 % 0x100 * 0x1_0000 + address / 0x100 % 0x100 * 0x100 + address % 0x100
         == address % 0x100_0000
  {
    var q1, r0 := address / 0x100, address % 0x100;
    var q2, r1 := q1 / 0x100, q1 % 0x100;
    var q3, r2 := q2 / 0x100, q2 % 0x100;
    UniqueResidue(address, q2, 0x1_0000, r1 * 0x100 + r0);
    UniqueResidue(address, q3, 0x100_0000, r2 * 0x1_0000 + r1 * 0x100 + r0);
  }

  function CommandFrame(cmd: Byte, address: nat, data: seq<Byte>): (f: seq<Byte>)
    ensures |f| == 4 + |data|
  {
    [cmd] + AddressBytes(address) + data
  }

  /** The chip reads back the low 24 bits of the address that was sent. */
  lemma AddressSurvives(cmd: Byte, address: nat, data: seq<Byte>)
    ensures FrameAddress(CommandFrame(cmd, address, data)) % FLASH_BYTE == address % FLASH_BYTE
    ensures CommandFrame(cmd, address, data)[4..] == data
  {
    hide AddressBytes;
    var low := address % 0x100_0000;
    var u, v := low / FLASH_BYTE, low % FLASH_BYTE;
    UniqueResidue(address, 4 * (address / 0x100_0000) + u, FLASH_BYTE, v);
  }

  /** `write_addr`, inside a frame. */
  method WriteAddr(chip: Chip, cmd: Byte, address: nat)
    requires chip.selected && chip.frame == [] && chip.busyFor == 0
    modifies chip`frame, chip`enabled, chip`busyFor, chip`strayBytes
    ensures chip.frame == CommandFrame(cmd, address, []) && chip.frame == [cmd] + AddressBytes(address)
    ensures chip.busyFor == 0 && chip.enabled == old(chip.enabled) && chip.strayBytes == old(chip.strayBytes)
  {
    var reply := chip.Exchange(cmd);
    reply := chip.Exchange(address / 0x1_0000 % 0x100);
    reply := chip.Exchange(address / 0x100 % 0x100);
    reply := chip.Exchange(address % 0x100);
  }

  // ---------- Chunked writing ----------

  /** How a write is cut: at most a page worth of data at a time, whatever the address. */
  function Chunks(address: nat, data: seq<Byte>): seq<Chunk>
    decreases |data|
  {
    if data == [] then []
    else
      var n := ChunkSize(|data|);
      [Chunk(address, data[..n])] + Chunks(address + n, data[n..])
  }

  datatype Chunk = Chunk(address: nat, data: seq<Byte>)

  function ChunkSize(remaining: nat): nat {
    if remaining > PAGE_BYTE then PAGE_BYTE else remaining
  }

  function ProgramFrames(cs: seq<Chunk>): seq<seq<Byte>> {
    if cs == [] then []
    else [[0x06], CommandFrame(0x02, cs[0].address, cs[0].data)] + ProgramFrames(cs[1..])
  }

  function ProgramChunks(m: Memory, cs: seq<Chunk>): Memory
    decreases |cs|
  {
    if cs == [] then m else ProgramChunks(ProgramPage(m, cs[0].address, cs[0].data), cs[1..])
  }

  lemma ProgramFrameEffect(m: Memory, address: nat, data: seq<Byte>)
    requires data != []
    ensures StartsWork(CommandFrame(PAGE_PROGRAM, address, data))
    ensures FrameEffect(m, CommandFrame(PAGE_PROGRAM, address, data)) == ProgramPage(m, address, data)
  {
    AddressSurvives(PAGE_PROGRAM, address, data);
  }

  /** One program frame: `write_enable`, command, address, data. */
  method ProgramChunk(chip: Chip, address: nat, data: seq<Byte>, offset: nat, chunkSize: nat)
    requires Ready(chip)
    requires offset + chunkSize <= |data| && chunkSize > 0
    modifies chip
    ensures !chip.selected && chip.Clean() && Legal(chip.frames)
    ensures chip.mem == ProgramPage(old(chip.mem), address, data[offset..][..chunkSize])
    ensures Commands(chip.frames)
         == Commands(old(chip.frames))
            + [[0x06], CommandFrame(0x02, address, data[offset..][..chunkSize])]
  {
    hide FrameEffect, Commands, ProgramPage;
    WriteEnable(chip);
    chip.CsLow();
    WriteAddr(chip, PAGE_PROGRAM, address);
    ghost var chunk := data[offset..][..chunkSize];
    label sending:
    for i := 0 to chunkSize
      invariant chip.selected && chip.busyFor == 0 && !chip.begunBusy && chip.enabled && chip.Clean()
      invariant chip.frame == CommandFrame(PAGE_PROGRAM, address, chunk[..i])
      invariant chip.mem == old@sending(chip.mem) && chip.frames == old@sending(chip.frames)
    {
      assert chunk[..i + 1] == chunk[..i] + [data[offset + i]];
      var status := chip.Exchange(data[offset + i]);
    }
    assert chunk[..chunkSize] == chunk;
    ProgramFrameEffect(chip.mem, address, chunk);
    CloseFrame(chip);
  }

  /** The memory and the frames once the rest of a write has been sent. */
  function Planned(m: Memory, address: nat, rest: seq<Byte>): Memory {
    ProgramChunks(m, Chunks(address, rest))
  }

  function PlannedFrames(frames: seq<Frame>, address: nat, rest: seq<Byte>): seq<seq<Byte>> {
    Commands(frames) + ProgramFrames(Chunks(address, rest))
  }

  /** One turn of the chunk loop, `rest` being the data still to be written. */
  method SendChunk(chip: Chip, at: nat, data: seq<Byte>, offset: nat, chunkSize: nat, ghost rest: seq<Byte>)
    requires Ready(chip)
    requires offset + |rest| <= |data| && rest == data[offset..offset + |rest|]
    requires rest != [] && chunkSize == ChunkSize(|rest|)
    modifies chip
    ensures Ready(chip)
    ensures Planned(chip.mem, at + chunkSize, rest[chunkSize..]) == Planned(old(chip.mem), at, rest)
    ensures PlannedFrames(chip.frames, at + chunkSize, rest[chunkSize..]) == PlannedFrames(old(chip.frames), at, rest)
  {
    hide ProgramPage, Commands, ProgramChunks, ProgramFrames, Chunks, CommandFrame, Legal;
    assert data[offset..][..chunkSize] == rest[..chunkSize];
    FirstChunk(chip.mem, at, rest);
    ProgramChunk(chip, at, data, offset, chunkSize);
    WaitFlash(chip);
  }

  /** `write_extend_flash`. */
  method WriteExtendFlash(chip: Chip, address: nat, data: seq<Byte>, size: nat) returns (status: nat)
    requires Ready(chip)
    requires address < 0x1_0000_0000 && size <= |data|
    modifies chip
    ensures Ready(chip)
    ensures status == if size > FLASH_BYTE then FLASH_ERR_PARAM else FLASH_OK
    ensures size > FLASH_BYTE ==> chip.mem == old(chip.mem) && chip.frames == old(chip.frames)
    ensures size <= FLASH_BYTE ==> chip.mem == ProgramChunks(old(chip.mem), Chunks(address, data[..size]))
    ensures size <= FLASH_BYTE ==>
      Commands(chip.frames) == Commands(old(chip.frames)) + ProgramFrames(Chunks(address, data[..size]))
  {
    if size > FLASH_BYTE {
      return FLASH_ERR_PARAM;
    }
    hide Chunks, ProgramChunks, ProgramFrames, Commands, Ready;
    var at: nat, remaining: nat, offset: nat := address, size, 0;
    ghost var rest := data[..size];
    ghost var mem', frames' := Planned(chip.mem, at, rest), PlannedFrames(chip.frames, at, rest);
    while remaining > 0
      invariant offset + remaining == size && rest == data[offset..size]
      invariant Ready(chip)
      invariant mem' == Planned(chip.mem, at, rest) && frames' == PlannedFrames(chip.frames, at, rest)
      decreases remaining
    {
      var chunkSize := if remaining > PAGE_BYTE then PAGE_BYTE else remaining;
      SendChunk(chip, at, data, offset, chunkSize, rest);
      Later(data, offset, chunkSize, size);
      at, offset, remaining := at + chunkSize, offset + chunkSize, remaining - chunkSize;
      rest := rest[chunkSize..];
    }
    NoChunk(chip.mem, at);
    return FLASH_OK;
  }

  lemma Later(data: seq<Byte>, offset: nat, n: nat, size: nat)
    requires offset + n <= size <= |data|
    ensures data[offset..size][n..] == data[offset + n..size]
  {
  }

  lemma FirstChunk(m: Memory, address: nat, data: seq<Byte>)
    requires data != []
    ensures var n, cs := ChunkSize(|data|), Chunks(address, data);
            && ProgramChunks(m, cs) == ProgramChunks(ProgramPage(m, address, data[..n]), Chunks(address + n, data[n..]))
            && ProgramFrames(cs)
               == [[WRITE_ENABLE], CommandFrame(PAGE_PROGRAM, address, data[..n])]
                  + ProgramFrames(Chunks(address + n, data[n..]))
  {
    hide ProgramPage;
  }

  lemma NoChunk(m: Memory, address: nat)
    ensures ProgramChunks(m, Chunks(address, [])) == m && ProgramFrames(Chunks(address, [])) == []
  {
  }

  // ---------- Reading and erasing ----------

  lemma ReadAddress(address: nat, sent: nat)
    ensures (FrameAddress(CommandFrame(READ_DATA, address, Zeros(sent))) + sent) % FLASH_BYTE
         == (address + sent) % FLASH_BYTE
  {
    AddressSurvives(READ_DATA, address, Zeros(sent));
    hide FrameAddress, CommandFrame;
    SameResidue(FrameAddress(CommandFrame(READ_DATA, address, Zeros(sent))), address, sent);
  }

  lemma SameResidue(a: nat, b: nat, n: nat)
    requires a % FLASH_BYTE == b % FLASH_BYTE
    ensures (a + n) % FLASH_BYTE == (b + n) % FLASH_BYTE
  {
    var qa, qb, rest := a / FLASH_BYTE, b / FLASH_BYTE, a % FLASH_BYTE + n;
    var q, r := rest / FLASH_BYTE, rest % FLASH_BYTE;
    UniqueResidue(a + n, qa + q, FLASH_BYTE, r);
    UniqueResidue(b + n, qb + q, FLASH_BYTE, r);
  }

  /** `read_extend_flash`. */
  method ReadExtendFlash(chip: Chip, address: nat, data: array<Byte>, size: nat) returns (status: nat)
    requires Ready(chip) && size <= data.Length
    modifies chip, data
    ensures Ready(chip) && status == FLASH_OK
    ensures chip.mem == old(chip.mem)
    ensures Commands(chip.frames)
         == Commands(old(chip.frames)) + [CommandFrame(0x03, address, Zeros(size))]
    ensures forall i :: 0 <= i < size ==> data[i] == chip.mem[(address + i) % FLASH_BYTE]
    ensures data[size..] == old(data[size..])
  {
    hide FrameEffect, Commands, AddressBytes, FrameAddress;
    chip.CsLow();
    WriteAddr(chip, READ_DATA, address);
    label reading:
    for i := 0 to size
      invariant chip.selected && chip.busyFor == 0 && !chip.begunBusy && chip.Clean()
      invariant chip.frame == CommandFrame(READ_DATA, address, Zeros(i))
      invariant chip.mem == old(chip.mem) && chip.frames == old(chip.frames)
      invariant forall k :: 0 <= k < i ==> data[k] == chip.mem[(address + k) % FLASH_BYTE]
      invariant data[size..] == old(data[size..])
    {
      ReadAddress(address, i);
      var reply := chip.Exchange(0x00);
      data[i] := reply;
    }
    NoEffect(chip.mem, chip.frame);
    CloseFrame(chip);
    return FLASH_OK;
  }

  /** `W25x_SectorErase`. The guard lets the address one past the end through, and
      the chip takes that one as address zero. */
  method SectorErase(chip: Chip, sectorAddr: nat)
    requires Ready(chip) && sectorAddr < 0x1_0000_0000
    modifies chip
    ensures Ready(chip)
    ensures sectorAddr > FLASH_BYTE ==> chip.mem == old(chip.mem) && chip.frames == old(chip.frames)
    ensures sectorAddr <= FLASH_BYTE ==> chip.mem == EraseSector(old(chip.mem), sectorAddr)
    ensures sectorAddr < FLASH_BYTE ==> forall k :: 0 <= k < FLASH_BYTE ==>
              chip.mem[k] == if k / 4096 == sectorAddr / 4096 then 0xFF else old(chip.mem)[k]
    ensures sectorAddr <= FLASH_BYTE ==>
      Commands(chip.frames) == Commands(old(chip.frames))
        + [[0x06], [0x7A], CommandFrame(0x20, sectorAddr, [])]
  {
    hide FrameEffect, Commands, EraseSector, ProgramPage, AddressBytes;
    if sectorAddr > FLASH_BYTE {
      return;
    }
    if sectorAddr < FLASH_BYTE {
      SectorErased(chip.mem, sectorAddr);
    }
    WriteEnable(chip);
    NoEffect(chip.mem, [ERASE_PROGRAM_RESUME]);
    WriteCmd(chip, ERASE_PROGRAM_RESUME);
    chip.CsLow();
    WriteAddr(chip, SECTOR_ERASE_4KB, sectorAddr);
    EraseFrameEffect(chip.mem, sectorAddr);
    CloseFrame(chip);
    WaitFlash(chip);
  }

  lemma SectorErased(m: Memory, address: nat)
    requires address < FLASH_BYTE
    ensures forall k :: 0 <= k < FLASH_BYTE ==>
              EraseSector(m, address)[k] == if k / 4096 == address / 4096 then 0xFF else m[k]
  {
    UniqueResidue(address, 0, FLASH_BYTE, address);
    forall k | 0 <= k < FLASH_BYTE
      ensures EraseSector(m, address)[k] == if k / 4096 == address / 4096 then 0xFF else m[k]
    {
      assert k == k / 4096 * 4096 + k % 4096 && address == address / 4096 * 4096 + address % 4096;
    }
  }

  lemma EraseFrameEffect(m: Memory, address: nat)
    ensures StartsWork(CommandFrame(SECTOR_ERASE_4KB, address, []))
    ensures FrameEffect(m, CommandFrame(SECTOR_ERASE_4KB, address, [])) == EraseSector(m, address)
  {
    AddressSurvives(SECTOR_ERASE_4KB, address, []);
  }

  /** `erase_chip`. */
  method EraseWholeChip(chip: Chip)
    requires Ready(chip)
    modifies chip
    ensures Ready(chip) && chip.mem == EraseChip() && forall k :: 0 <= k < FLASH_BYTE ==> chip.mem[k] == 0xFF
    ensures Commands(chip.frames) == Commands(old(chip.frames)) + [[0x06], [0xC7]]
  {
    WriteEnable(chip);
    WriteCmd(chip, CHIP_ERASE);
    WaitFlash(chip);
  }
}
