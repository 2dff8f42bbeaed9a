/** The littlefs callbacks over the flash driver: an erased block filled by small
    aligned writes, in any order, is the block the file system meant. */
module BlockStore {
  import opened Bits
  import opened FlashChip
  import opened FlashDriver
  import opened FlashStore
  import opened Words

  const LFS_CFG_PROG_SIZE := 16
  const LFS_ERR_OK := 0

  // ---------- The callbacks ----------

  /** `littlefs_block_read`. The partition number is not used. */
  method LittlefsBlockRead(chip: Chip, partition: int, offset: nat, buf: array<Byte>, size: nat) returns (err: int)
    requires Ready(chip) && size <= buf.Length
    modifies chip, buf
    ensures Ready(chip) && chip.mem == old(chip.mem) && err == LFS_ERR_OK
    ensures forall i :: 0 <= i < size ==> buf[i] == chip.mem[(offset + i) % FLASH_BYTE]
    ensures offset + size <= FLASH_BYTE ==> buf[..size] == chip.mem[offset..offset + size]
    ensures buf[size..] == old(buf[size..])
  {
    var status := ReadExtendFlash(chip, offset, buf, size);
    if offset + size <= FLASH_BYTE {
      forall i | 0 <= i < size ensures buf[i] == chip.mem[offset + i] {
        UniqueResidue(offset + i, 0, FLASH_BYTE, offset + i);
      }
    }
    return LFS_ERR_OK;
  }

  /** `littlefs_block_write`. The driver's refusal of a size beyond the chip is not passed on. */
  method LittlefsBlockWrite(chip: Chip, partition: int, offset: nat, buf: seq<Byte>, size: nat) returns (err: int)
    requires Ready(chip) && size <= |buf| && offset < TWO_32
    modifies chip
    ensures Ready(chip) && err == LFS_ERR_OK
    ensures chip.mem == if size > FLASH_BYTE then old(chip.mem)
                        else ProgramChunks(old(chip.mem), Chunks(offset, buf[..size]))
    ensures offset + size <= FLASH_BYTE && Aligned(offset, size) ==>
              chip.mem == AndWrite(old(chip.mem), offset, buf[..size])
  {
    var ret := WriteExtendFlash(chip, offset, buf, size);
    if offset + size <= FLASH_BYTE && Aligned(offset, size) {
      AlignedWriteIsIdeal(old(chip.mem), offset, buf[..size]);
    }
    return LFS_ERR_OK;
  }

  /** `littlefs_block_erase`. The size is not used: the sector that holds the offset is erased,
      and past the chip's end nothing, except that its end itself is taken for its start. */
  method LittlefsBlockErase(chip: Chip, partition: int, offset: nat, size: nat) returns (err: int)
    requires Ready(chip) && offset < TWO_32
    modifies chip
    ensures Ready(chip) && err == LFS_ERR_OK
    ensures chip.mem == if offset > FLASH_BYTE then old(chip.mem) else EraseSector(old(chip.mem), offset)
    ensures offset == FLASH_BYTE ==> chip.mem == EraseSector(old(chip.mem), 0)
  {
    SectorErase(chip, offset);
    return LFS_ERR_OK;
  }

  // ---------- Filling a block ----------

  datatype BlockWrite = BlockWrite(offset: nat, data: seq<Byte>)

  predicate IsBlock(base: nat) {
    base % 4096 == 0 && base + 4096 <= 4 * 1024 * 1024
  }

  /** A write of the geometry the file system is configured with, inside the block. */
  predicate InBlock(base: nat, w: BlockWrite) {
    && |w.data| == 16
    && w.offset % 16 == 0
    && base <= w.offset && w.offset + 16 <= base + 4096
  }

  /** Writes in the block, no two at the same offset. */
  predicate Distinct(base: nat, ws: seq<BlockWrite>) {
    && (forall i :: 0 <= i < |ws| ==> InBlock(base, ws[i]))
    && (forall i, j :: 0 <= i < j < |ws| ==> ws[i].offset != ws[j].offset)
  }

  predicate Covers(w: BlockWrite, k: nat) {
    w.offset <= k < w.offset + |w.data|
  }

  function WriteAll(m: Memory, ws: seq<BlockWrite>): Memory {
    if ws == [] then m
    else
      var last := ws[|ws| - 1];
      ProgramChunks(WriteAll(m, ws[..|ws| - 1]), Chunks(last.offset, last.data))
  }

  /** Every written byte is where it was written. */
  predicate Written(m': Memory, base: nat, ws: seq<BlockWrite>)
    requires IsBlock(base) && Distinct(base, ws)
  {
    forall i, k :: 0 <= i < |ws| && 0 <= k < 16 ==> m'[ws[i].offset + k] == ws[i].data[k]
  }

  predicate RestErased(m': Memory, base: nat, ws: seq<BlockWrite>)
    requires IsBlock(base)
  {
    forall k :: base <= k < base + 4096 && (forall i :: 0 <= i < |ws| ==> !Covers(ws[i], k)) ==> m'[k] == 0xFF
  }

  predicate OthersKept(m': Memory, m: Memory, base: nat) {
    forall k :: 0 <= k < FLASH_BYTE && !(base <= k < base + 4096) ==> m'[k] == m[k]
  }

  /** The memory a file system expects: the written bytes where something was written,
      erased bytes in the rest of the block, and every other block as it was. */
  predicate BlockHolds(m': Memory, m: Memory, base: nat, ws: seq<BlockWrite>)
    requires IsBlock(base) && Distinct(base, ws)
  {
    Written(m', base, ws) && RestErased(m', base, ws) && OthersKept(m', m, base)
  }

  /** The geometry makes each such write an ideal one. */
  lemma BlockWriteIsIdeal(m: Memory, base: nat, w: BlockWrite)
    requires IsBlock(base) && InBlock(base, w)
    ensures ProgramChunks(m, Chunks(w.offset, w.data)) == AndWrite(m, w.offset, w.data)
  {
    SmallWriteAligned(w.offset);
    AlignedWriteIsIdeal(m, w.offset, w.data);
  }

  lemma SmallWriteAligned(offset: nat)
    requires offset % LFS_CFG_PROG_SIZE == 0
    ensures Aligned(offset, LFS_CFG_PROG_SIZE)
  {
    var r := offset % PAGE_BYTE;
    assert offset == offset / PAGE_BYTE * PAGE_BYTE + r;
    assert r % LFS_CFG_PROG_SIZE == 0;
  }

  /** Two aligned writes at different offsets do not overlap. */
  lemma AlignedDisjoint(a: nat, b: nat, k: nat)
    requires a % LFS_CFG_PROG_SIZE == 0 && b % LFS_CFG_PROG_SIZE == 0 && a != b
    requires a <= k < a + LFS_CFG_PROG_SIZE
    ensures !(b <= k < b + LFS_CFG_PROG_SIZE)
  {
    assert a == a / LFS_CFG_PROG_SIZE * LFS_CFG_PROG_SIZE && b == b / LFS_CFG_PROG_SIZE * LFS_CFG_PROG_SIZE;
  }

  /** Writes at distinct offsets do not meet. */
  lemma Apart(base: nat, ws: seq<BlockWrite>, i: nat, j: nat, k: nat)
    requires Distinct(base, ws) && i < |ws| && j < |ws| && i != j && Covers(ws[i], k)
    ensures !Covers(ws[j], k)
  {
    assert InBlock(base, ws[i]) && InBlock(base, ws[j]);
    AlignedDisjoint(ws[i].offset, ws[j].offset, k);
  }

  /** Where a write goes inside the block. */
  lemma Inside(base: nat, ws: seq<BlockWrite>, i: nat)
    requires IsBlock(base) && Distinct(base, ws) && i < |ws|
    ensures |ws[i].data| == 16 && base <= ws[i].offset && ws[i].offset + 16 <= base + 4096 <= FLASH_BYTE
  {
    assert InBlock(base, ws[i]);
  }

  /** One more write finds erased bytes. */
  lemma FindsErased(m': Memory, base: nat, ws: seq<BlockWrite>, w: BlockWrite, k: nat)
    requires IsBlock(base) && Distinct(base, ws + [w]) && RestErased(m', base, ws) && Covers(w, k)
    ensures k < FLASH_BYTE && m'[k] == 0xFF
  {
    var all := ws + [w];
    hide Distinct, IsBlock, InBlock;
    assert all[|ws|] == w;
    Inside(base, all, |ws|);
    forall i | 0 <= i < |ws| ensures !Covers(ws[i], k) {
      assert all[i] == ws[i];
      Apart(base, all, |ws|, i, k);
    }
  }

  lemma AddWritten(m': Memory, base: nat, ws: seq<BlockWrite>, w: BlockWrite)
    requires IsBlock(base) && Distinct(base, ws + [w]) && Distinct(base, ws)
    requires Written(m', base, ws) && RestErased(m', base, ws) && w.offset + |w.data| <= FLASH_BYTE
    ensures Written(AndWrite(m', w.offset, w.data), base, ws + [w])
  {
    var all, m'' := ws + [w], AndWrite(m', w.offset, w.data);
    hide And, Distinct, IsBlock, InBlock, RestErased;
    forall i, k | 0 <= i < |all| && 0 <= k < 16
      ensures 0 <= all[i].offset + k < FLASH_BYTE && k < |all[i].data| && m''[all[i].offset + k] == all[i].data[k]
    {
      Inside(base, all, i);
      if i < |ws| {
        assert all[i] == ws[i] && all[|ws|] == w && Covers(all[i], all[i].offset + k);
        Apart(base, all, i, |ws|, all[i].offset + k);
      } else {
        FindsErased(m', base, ws, w, w.offset + k);
        AndErased(w.data[k]);
      }
    }
  }

  lemma AddErased(m': Memory, base: nat, ws: seq<BlockWrite>, w: BlockWrite)
    requires IsBlock(base) && RestErased(m', base, ws) && w.offset + |w.data| <= FLASH_BYTE
    ensures RestErased(AndWrite(m', w.offset, w.data), base, ws + [w])
  {
    var all := ws + [w];
    forall k | base <= k < base + 4096 && (forall i :: 0 <= i < |all| ==> !Covers(all[i], k))
      ensures AndWrite(m', w.offset, w.data)[k] == 0xFF
    {
      assert !Covers(all[|ws|], k);
      forall i | 0 <= i < |ws| ensures !Covers(ws[i], k) {
        assert !Covers(all[i], k);
      }
    }
  }

  /** One more write keeps what the block held and adds its own bytes. */
  lemma AddWrite(m': Memory, m: Memory, base: nat, ws: seq<BlockWrite>, w: BlockWrite)
    requires IsBlock(base) && Distinct(base, ws + [w]) && Distinct(base, ws)
    requires BlockHolds(m', m, base, ws)
    ensures BlockHolds(ProgramChunks(m', Chunks(w.offset, w.data)), m, base, ws + [w])
  {
    var all := ws + [w];
    assert all[|ws|] == w && InBlock(base, all[|ws|]);
    Inside(base, all, |ws|);
    BlockWriteIsIdeal(m', base, w);
    hide ProgramChunks, Chunks, And, IsBlock, Distinct, InBlock, Written, RestErased;
    AddWritten(m', base, ws, w);
    AddErased(m', base, ws, w);
  }

  /** After a block is erased, writes to distinct offsets read back exactly, in whatever
      order they came; the rest of the block is erased and no other block changes. */
  lemma {:induction false} BlockFilled(m: Memory, base: nat, ws: seq<BlockWrite>)
    requires IsBlock(base) && Distinct(base, ws)
    ensures BlockHolds(WriteAll(EraseSector(m, base), ws), m, base, ws)
    decreases |ws|
  {
    if ws != [] {
      var front := ws[..|ws| - 1];
      BlockFilled(m, base, front);
      assert front + [ws[|ws| - 1]] == ws;
      AddWrite(WriteAll(EraseSector(m, base), front), m, base, front, ws[|ws| - 1]);
    }
  }

  /** The order of the writes makes no difference to the block. */
  lemma OrderIndependent(m: Memory, base: nat, ws: seq<BlockWrite>, vs: seq<BlockWrite>)
    requires IsBlock(base) && Distinct(base, ws) && Distinct(base, vs)
    requires forall w :: w in ws <==> w in vs
    ensures WriteAll(EraseSector(m, base), ws) == WriteAll(EraseSector(m, base), vs)
  {
    hide EraseSector, WriteAll;
    var a, b := WriteAll(EraseSector(m, base), ws), WriteAll(EraseSector(m, base), vs);
    BlockFilled(m, base, ws);
    BlockFilled(m, base, vs);
    forall k | 0 <= k < FLASH_BYTE ensures a[k] == b[k] {
      if base <= k < base + SECTOR_BYTE {
        if i :| 0 <= i < |ws| && Covers(ws[i], k) {
          assert InBlock(base, ws[i]) && ws[i] in vs;
          var j :| 0 <= j < |vs| && vs[j] == ws[i];
          assert a[ws[i].offset + (k - ws[i].offset)] == ws[i].data[k - ws[i].offset];
          assert b[vs[j].offset + (k - vs[j].offset)] == vs[j].data[k - vs[j].offset];
        } else {
          forall j | 0 <= j < |vs| ensures !Covers(vs[j], k) {
            assert vs[j] in ws;
          }
        }
      }
    }
  }

  /** The same through the callbacks. */
  method FillBlock(chip: Chip, base: nat, ws: seq<BlockWrite>)
    requires Ready(chip) && IsBlock(base) && Distinct(base, ws)
    modifies chip
    ensures Ready(chip)
    ensures BlockHolds(chip.mem, old(chip.mem), base, ws)
  {
    hide ProgramChunks, Chunks, EraseSector, BlockHolds;
    var err := LittlefsBlockErase(chip, 0, base, SECTOR_BYTE);
    for i := 0 to |ws|
      invariant Ready(chip)
      invariant chip.mem == WriteAll(EraseSector(old(chip.mem), base), ws[..i])
    {
      assert InBlock(base, ws[i]);
      assert ws[i].data[..LFS_CFG_PROG_SIZE] == ws[i].data && ws[..i + 1][..i] == ws[..i];
      err := LittlefsBlockWrite(chip, 0, ws[i].offset, ws[i].data, LFS_CFG_PROG_SIZE);
    }
    assert ws[..|ws|] == ws;
    BlockFilled(old(chip.mem), base, ws);
  }
}
