/** What the driver's frames amount to: when a chunked write is one ideal write, and
    any run of driver calls as operations on a plain byte map. */
module FlashStore {
  import opened Bits
  import opened FlashChip
  import opened FlashDriver
  import opened Words

  // ---------- Chunking ----------

  /** The write a caller has in mind: every byte ANDed into its own place. */
  function AndWrite(m: Memory, address: nat, data: seq<Byte>): Memory
    requires address + |data| <= FLASH_BYTE
  {
    seq(FLASH_BYTE, k requires 0 <= k < FLASH_BYTE =>
      if address <= k < address + |data| then And(m[k], data[k - address]) else m[k])
  }

  predicate FitsPage(c: Chunk) {
    c.address % PAGE_BYTE + |c.data| <= PAGE_BYTE
  }

  /** A write that starts on a page boundary or stays inside one page. */
  predicate Aligned(address: nat, size: nat) {
    address % 256 == 0 || address % 256 + size <= 256
  }

  function Joined(cs: seq<Chunk>): seq<Byte> {
    if cs == [] then [] else cs[0].data + Joined(cs[1..])
  }

  /** Each chunk is non-empty, at most a page long, and starts where the one before ended. */
  predicate Consecutive(cs: seq<Chunk>, address: nat)
    decreases |cs|
  {
    cs != [] ==>
      && cs[0].address == address
      && 0 < |cs[0].data| <= PAGE_BYTE
      && Consecutive(cs[1..], address + |cs[0].data|)
  }

  /** The chunks partition the range, in order. */
  lemma {:induction false} ChunksPartition(address: nat, data: seq<Byte>)
    ensures Consecutive(Chunks(address, data), address)
    ensures Joined(Chunks(address, data)) == data
    decreases |data|
  {
    if data != [] {
      var n := ChunkSize(|data|);
      var rest := Chunks(address + n, data[n..]);
      assert Chunks(address, data) == [Chunk(address, data[..n])] + rest;
      hide Chunks, ChunkSize;
      ChunksPartition(address + n, data[n..]);
      assert data[..n] + data[n..] == data;
      assert ([Chunk(address, data[..n])] + rest)[1..] == rest;
    }
  }

  /** No chunk crosses a page exactly when the write is aligned. */
  lemma {:induction false} ChunksFitPages(address: nat, data: seq<Byte>)
    requires data != []
    ensures (forall c :: c in Chunks(address, data) ==> FitsPage(c)) <==> Aligned(address, |data|)
    decreases |data|
  {
    var n := ChunkSize(|data|);
    var first, rest := Chunk(address, data[..n]), data[n..];
    assert Chunks(address, data) == [first] + Chunks(address + n, rest);
    assert first in Chunks(address, data);
    if rest == [] {
      assert forall c :: c in Chunks(address, data) ==> c == first;
    } else {
      ChunksFitPages(address + n, rest);
      assert (address + n) % PAGE_BYTE == address % PAGE_BYTE;
      assert FitsPage(first) <==> address % PAGE_BYTE == 0;
    }
  }

  /** What a place of the page buffer holds when the data does not wrap. */
  lemma {:induction false} PageBufferInPlace(start: nat, data: seq<Byte>, k: nat)
    requires start + |data| <= PAGE_BYTE && k < PAGE_BYTE
    ensures PageBuffer(start, data)[k] == if start <= k < start + |data| then data[k - start] else 0xFF
    decreases |data|
  {
    if data != [] {
      var front, last := data[..|data| - 1], start + |data| - 1;
      UniqueResidue(last, 0, PAGE_BYTE, last);
      assert PageBuffer(start, data) == PageBuffer(start, front)[last := data[|data| - 1]];
      hide PageBuffer;
      PageBufferInPlace(start, front, k);
    }
  }

  /** A chunk inside its page is programmed as the ideal write. */
  lemma ChunkIsIdeal(m: Memory, address: nat, data: seq<Byte>)
    requires FitsPage(Chunk(address, data)) && address + |data| <= FLASH_BYTE && address < FLASH_BYTE
    ensures ProgramPage(m, address, data) == AndWrite(m, address, data)
  {
    hide And, PageBuffer;
    var start := address % PAGE_BYTE;
    var page := address - start;
    forall k | 0 <= k < FLASH_BYTE
      ensures ProgramPage(m, address, data)[k] == AndWrite(m, address, data)[k]
    {
      if page <= k < page + PAGE_BYTE {
        PageBufferInPlace(start, data, k - page);
        AndErased(m[k]);
      }
    }
  }

  lemma AndWriteSplit(m: Memory, address: nat, data: seq<Byte>, n: nat)
    requires n <= |data| && address + |data| <= FLASH_BYTE
    ensures AndWrite(AndWrite(m, address, data[..n]), address + n, data[n..]) == AndWrite(m, address, data)
  {
  }

  /** An aligned write is one ideal write of the whole range. */
  lemma {:induction false} AlignedWriteIsIdeal(m: Memory, address: nat, data: seq<Byte>)
    requires Aligned(address, |data|) && address + |data| <= FLASH_BYTE
    ensures ProgramChunks(m, Chunks(address, data)) == AndWrite(m, address, data)
    decreases |data|
  {
    hide ProgramPage, ProgramChunks, Chunks, AndWrite, Aligned, ChunkSize;
    if data == [] {
      NoChunk(m, address);
      WritesNothing(m, address);
    } else {
      var n := ChunkSize(|data|);
      ChunkAligned(address, |data|);
      FirstChunk(m, address, data);
      ChunkIsIdeal(m, address, data[..n]);
      AlignedWriteIsIdeal(AndWrite(m, address, data[..n]), address + n, data[n..]);
      AndWriteSplit(m, address, data, n);
    }
  }

  lemma WritesNothing(m: Memory, address: nat)
    requires address <= FLASH_BYTE
    ensures AndWrite(m, address, []) == m
  {
  }

  /** The first chunk of an aligned write fits its page, and what is left is aligned. */
  lemma ChunkAligned(address: nat, size: nat)
    requires Aligned(address, size) && size > 0
    ensures var n := ChunkSize(size);
            0 < n <= size && address % PAGE_BYTE + n <= PAGE_BYTE && Aligned(address + n, size - n)
  {
  }

  lemma AndZero(b: Byte)
    ensures And(0, b) == 0 && And(b, 0) == 0
  {
  }

  /** A cleared byte stays clear, whatever is programmed. */
  lemma {:induction false} ClearedStaysClear(m: Memory, cs: seq<Chunk>, k: nat)
    requires k < FLASH_BYTE && m[k] == 0
    ensures ProgramChunks(m, cs)[k] == 0
    decreases |cs|
  {
    if cs != [] {
      PageKeepsClear(m, cs[0].address, cs[0].data, k);
      ClearedStaysClear(ProgramPage(m, cs[0].address, cs[0].data), cs[1..], k);
    }
  }

  lemma PageKeepsClear(m: Memory, address: nat, data: seq<Byte>, k: nat)
    requires k < FLASH_BYTE && m[k] == 0
    ensures ProgramPage(m, address, data)[k] == 0
  {
    hide And, PageBuffer;
    forall b: Byte ensures And(0, b) == 0 { AndZero(b); }
  }

  /** A place of the page buffer that any zero byte was sent to holds zero when only
      zeros are sent. */
  lemma {:induction false} PageBufferZeros(start: nat, n: nat, i: nat)
    requires i < n
    ensures PageBuffer(start, Zeros(n))[(start + i) % PAGE_BYTE] == 0
    decreases n
  {
    assert Zeros(n)[..n - 1] == Zeros(n - 1);
    if i < n - 1 {
      PageBufferZeros(start, n - 1, i);
    }
  }

  /** A chunk of zeros that runs over the end of its page clears the page's first byte. */
  lemma CrossingClearsPageStart(m: Memory, address: nat, n: nat)
    requires address < FLASH_BYTE && address % PAGE_BYTE + n > PAGE_BYTE
    ensures ProgramPage(m, address, Zeros(n))[address - address % PAGE_BYTE] == 0
  {
    hide And, PageBuffer;
    var start := address % PAGE_BYTE;
    UniqueResidue(address, 0, FLASH_BYTE, address);
    UniqueResidue(PAGE_BYTE, 1, PAGE_BYTE, 0);
    PageBufferZeros(start, n, PAGE_BYTE - start);
    AndZero(m[address - start]);
  }

  /** An unaligned write that crosses a page does not do what was meant: on erased
      memory, zeros also clear a byte below the range. */
  lemma UnalignedWriteStrays(address: nat, size: nat)
    requires !Aligned(address, size) && address + size <= FLASH_BYTE
    ensures ProgramChunks(EraseChip(), Chunks(address, Zeros(size))) != AndWrite(EraseChip(), address, Zeros(size))
  {
    hide ProgramPage, ProgramChunks, AndWrite, Chunks;
    var m, n, page := EraseChip(), ChunkSize(size), address - address % PAGE_BYTE;
    FirstChunk(m, address, Zeros(size));
    assert Zeros(size)[..n] == Zeros(n);
    assert m[page] == 0xFF;
    CrossingClearsPageStart(m, address, n);
    hide EraseChip, Zeros;
    ClearedStaysClear(ProgramPage(m, address, Zeros(n)), Chunks(address + n, Zeros(size)[n..]), page);
    BelowRange(m, address, Zeros(size), page);
  }

  lemma BelowRange(m: Memory, address: nat, data: seq<Byte>, k: nat)
    requires k < address && address + |data| <= FLASH_BYTE
    ensures AndWrite(m, address, data)[k] == m[k]
  {
  }

  predicate WritesIdeally(m: Memory, address: nat, data: seq<Byte>)
    requires address + |data| <= FLASH_BYTE
  {
    ProgramChunks(m, Chunks(address, data)) == AndWrite(m, address, data)
  }

  /** The driver's cut into chunks is right for every memory and data exactly when the
      write is aligned. */
  lemma ChunkingExact(address: nat, size: nat)
    requires address + size <= FLASH_BYTE
    ensures Aligned(address, size)
       <==> forall m: Memory, data: seq<Byte> :: |data| == size ==> WritesIdeally(m, address, data)
  {
    hide ProgramChunks, Chunks, AndWrite;
    if Aligned(address, size) {
      forall m: Memory, data: seq<Byte> | |data| == size
        ensures WritesIdeally(m, address, data)
      {
        AlignedWriteIsIdeal(m, address, data);
      }
    } else {
      UnalignedWriteStrays(address, size);
      assert !WritesIdeally(EraseChip(), address, Zeros(size));
    }
  }

  // ---------- Whole runs ----------

  datatype Op =
    | Write(address: nat, data: seq<Byte>)
    | Read(address: nat, size: nat)
    | EraseSectorAt(address: nat)
    | EraseAll

  /** The operations a caller may make: inside the chip. */
  predicate InRange(op: Op) {
    match op
    case Write(address, data) => address + |data| <= FLASH_BYTE
    case Read(address, size) => address + size <= FLASH_BYTE
    case EraseSectorAt(address) => address < FLASH_BYTE
    case EraseAll => true
  }

  /** What the driver's frames for an operation do to the chip. */
  function Effect(m: Memory, op: Op): Memory {
    match op
    case Write(address, data) => ProgramChunks(m, Chunks(address, data))
    case Read(_, _) => m
    case EraseSectorAt(address) => EraseSector(m, address)
    case EraseAll => EraseChip()
  }

  function EffectAll(m: Memory, ops: seq<Op>): Memory {
    if ops == [] then m else Effect(EffectAll(m, ops[..|ops| - 1]), ops[|ops| - 1])
  }

  /** The plain byte map: a range of erased bytes. */
  function Filled(m: Memory, from: nat, size: nat): Memory {
    seq(FLASH_BYTE, k requires 0 <= k < FLASH_BYTE => if from <= k < from + size then 0xFF else m[k])
  }

  /** The plain byte map: no pages, chunks or frames. */
  function MapApply(m: Memory, op: Op): Memory
    requires InRange(op)
  {
    match op
    case Write(address, data) => AndWrite(m, address, data)
    case Read(_, _) => m
    case EraseSectorAt(address) => Filled(m, address / 4096 * 4096, 4096)
    case EraseAll => Filled(m, 0, FLASH_BYTE)
  }

  function MapAll(m: Memory, ops: seq<Op>): Memory
    requires forall k :: 0 <= k < |ops| ==> InRange(ops[k])
  {
    if ops == [] then m else MapApply(MapAll(m, ops[..|ops| - 1]), ops[|ops| - 1])
  }

  /** Every write in the run is aligned. */
  predicate AllAligned(ops: seq<Op>) {
    forall k :: 0 <= k < |ops| && ops[k].Write? ==> Aligned(ops[k].address, |ops[k].data|)
  }

  lemma EffectIsMap(m: Memory, op: Op)
    requires InRange(op) && (op.Write? ==> Aligned(op.address, |op.data|))
    ensures Effect(m, op) == MapApply(m, op)
  {
    hide ProgramChunks, Chunks, AndWrite, Aligned;
    match op
    case Write(address, data) => AlignedWriteIsIdeal(m, address, data);
    case Read(_, _) =>
    case EraseSectorAt(address) =>
      UniqueResidue(address, 0, FLASH_BYTE, address);
      assert address / SECTOR_BYTE * SECTOR_BYTE == address - address % SECTOR_BYTE;
    case EraseAll =>
  }

  /** Over every run whose writes are aligned, the chip is the plain byte map. */
  lemma {:induction false} RunIsMap(m: Memory, ops: seq<Op>)
    requires forall k :: 0 <= k < |ops| ==> InRange(ops[k])
    requires AllAligned(ops)
    ensures EffectAll(m, ops) == MapAll(m, ops)
  {
    if ops != [] {
      hide Effect, MapApply, InRange, Aligned;
      RunIsMap(m, ops[..|ops| - 1]);
      EffectIsMap(MapAll(m, ops[..|ops| - 1]), ops[|ops| - 1]);
    }
  }

  function Reply(m: Memory, op: Op): seq<Byte>
    requires InRange(op)
  {
    match op
    case Read(address, size) => m[address..address + size]
    case _ => []
  }

  /** One driver call. */
  method Perform(chip: Chip, op: Op) returns (reply: seq<Byte>)
    requires Ready(chip) && InRange(op)
    modifies chip
    ensures Ready(chip)
    ensures chip.mem == Effect(old(chip.mem), op)
    ensures (op.Write? ==> Aligned(op.address, |op.data|)) ==> chip.mem == MapApply(old(chip.mem), op)
    ensures reply == Reply(old(chip.mem), op)
    ensures op.Read? ==> reply == old(chip.mem)[op.address..op.address + op.size]
  {
    hide ProgramChunks, Chunks, EraseSector, EraseChip, Commands, MapApply, Aligned;
    if op.Write? ==> Aligned(op.address, |op.data|) {
      EffectIsMap(chip.mem, op);
    }
    reply := [];
    match op {
      case Write(address, data) =>
        assert data[..|data|] == data;
        var status := WriteExtendFlash(chip, address, data, |data|);
      case Read(address, size) =>
        var buffer := new Byte[size];
        var status := ReadExtendFlash(chip, address, buffer, size);
        reply := buffer[..];
        forall i | 0 <= i < size ensures reply[i] == chip.mem[address + i] {
          UniqueResidue(address + i, 0, FLASH_BYTE, address + i);
        }
        assert reply == chip.mem[address..address + size];
      case EraseSectorAt(address) =>
        SectorErase(chip, address);
      case EraseAll =>
        EraseWholeChip(chip);
    }
  }

  /** Any run of driver calls keeps the protocol and ends idle. If its writes are aligned it is the
      same run on a plain byte map: each read returns what that map holds at its time. */
  method Run(chip: Chip, ops: seq<Op>) returns (replies: seq<seq<Byte>>)
    requires Ready(chip)
    requires forall k :: 0 <= k < |ops| ==> InRange(ops[k])
    modifies chip
    ensures Ready(chip) && |replies| == |ops|
    ensures chip.mem == EffectAll(old(chip.mem), ops)
    ensures forall k :: 0 <= k < |ops| ==> replies[k] == Reply(EffectAll(old(chip.mem), ops[..k]), ops[k])
    ensures AllAligned(ops) ==> chip.mem == MapAll(old(chip.mem), ops)
    ensures AllAligned(ops) ==>
      forall k :: 0 <= k < |ops| ==> replies[k] == Reply(MapAll(old(chip.mem), ops[..k]), ops[k])
  {
    hide Effect, EffectAll, Reply, AllAligned, MapAll, InRange;
    replies := [];
    ghost var m := chip.mem;
    NoEffects(m, ops);
    for i := 0 to |ops|
      invariant Ready(chip) && |replies| == i
      invariant chip.mem == EffectAll(m, ops[..i])
      invariant forall k :: 0 <= k < i ==> replies[k] == Reply(EffectAll(m, ops[..k]), ops[k])
    {
      EffectOne(m, ops, i);
      var reply := Perform(chip, ops[i]);
      replies := replies + [reply];
    }
    assert ops[..|ops|] == ops;
    if AllAligned(ops) {
      PrefixesOnMap(m, ops);
    }
  }

  lemma NoEffects(m: Memory, ops: seq<Op>)
    ensures EffectAll(m, ops[..0]) == m
  {
  }

  lemma EffectOne(m: Memory, ops: seq<Op>, n: nat)
    requires n < |ops|
    ensures EffectAll(m, ops[..n + 1]) == Effect(EffectAll(m, ops[..n]), ops[n])
  {
    assert ops[..n + 1][..n] == ops[..n];
  }

  lemma PrefixesOnMap(m: Memory, ops: seq<Op>)
    requires AllAligned(ops) && forall k :: 0 <= k < |ops| ==> InRange(ops[k])
    ensures EffectAll(m, ops) == MapAll(m, ops)
    ensures forall k :: 0 <= k < |ops| ==> EffectAll(m, ops[..k]) == MapAll(m, ops[..k])
  {
    hide EffectAll, MapAll, AllAligned, InRange;
    RunIsMap(m, ops);
    forall k | 0 <= k < |ops| ensures EffectAll(m, ops[..k]) == MapAll(m, ops[..k]) {
      AlignedPrefix(ops, k);
      RunIsMap(m, ops[..k]);
    }
  }

  lemma AlignedPrefix(ops: seq<Op>, k: nat)
    requires k <= |ops| && AllAligned(ops)
    ensures AllAligned(ops[..k])
  {
  }
}
