/**
 * The ext2 superblock as the file-system kernel reads it: the raw on-disk
 * record (1024 bytes at byte 1024 of the device) and the decoded form the
 * file system keeps. All arithmetic is on `u32` and wraps.
 */
module Ext2SuperBlock {
  import opened Common

  /** The block device's sector size. */
  const SECTOR_SIZE: nat := 512

  const EXT2_FIRST_SUPERBLOCK_OFFSET: nat := 1024
  const EXT2_SUPERBLOCK_SIZE: nat := 1024

  /** The fields of `RawSuperBlock` the kernel uses; the times, state, OS,
      revision, feature, uuid and volume-name fields are never read. */
  datatype RawSuperBlock = RawSuperBlock(
    inodesCount: nat, blocksCount: nat, reservedBlocksCount: nat,
    freeBlocksCount: nat, freeInodesCount: nat, firstDataBlock: nat,
    logBlockSize: nat, logFragSize: nat, blocksPerGroup: nat,
    fragsPerGroup: nat, inodesPerGroup: nat, mntCount: nat, maxMntCount: nat,
    magic: nat, firstIno: nat, inodeSize: nat, blockGroupIdx: nat)

  datatype SuperBlock = SuperBlock(
    idx: nat, blockSize: nat, inodesCount: nat, blocksCount: nat,
    reservedBlocksCount: nat, freeBlocksCount: nat, freeInodesCount: nat,
    firstDataBlock: nat, logFragSize: nat, blocksPerGroup: nat,
    fragsPerGroup: nat, inodesPerGroup: nat, mntCount: nat, maxMntCount: nat,
    firstIno: nat, inodeSize: nat)

  function Pow2(n: nat): (p: nat)
    ensures p > 0
  {
    if n == 0 then 1 else 2 * Pow2(n - 1)
  }

  lemma {:induction false} Pow2Add(a: nat, b: nat)
    ensures Pow2(a + b) == Pow2(a) * Pow2(b)
    decreases a
  {
    if a > 0 {
      Pow2Add(a - 1, b);
    }
  }

  lemma {:induction false} Pow2Monotone(a: nat, b: nat)
    requires a < b
    ensures Pow2(a) < Pow2(b)
    decreases b
  {
    if a < b - 1 {
      Pow2Monotone(a, b - 1);
    }
  }

  /** `1024u32 << log`: the shift amount is taken modulo 32 and bits shifted
      past bit 31 are lost. */
  function BlockSizeOf(log: nat): (s: nat)
    ensures s < U32_MOD
  {
    (1024 * Pow2(log % 32)) % U32_MOD
  }

  /** A block size of 4096 comes from exactly the logs that are 2 modulo 32;
      shifts of 22 and more push the bit out and give 0. */
  /** The shift at which the bit reaches bit 32: `1024 * 2^22 == 2^32`. */
  lemma Pow2Constants()
    ensures Pow2(2) == 4 && Pow2(22) == 4194304 && 1024 * Pow2(22) == U32_MOD
  {
    assert Pow2(2) == 4;
    Pow2Add(2, 2);
    Pow2Add(4, 4);
    Pow2Add(8, 8);
    Pow2Add(16, 4);
    Pow2Add(20, 2);
  }

  lemma SmallModulo(x: nat)
    requires x < U32_MOD
    ensures x % U32_MOD == x
  {
  }

  /** Shifts below 22 keep the bit inside the word. */
  lemma BlockSizeSmallShift(k: nat)
    requires k < 22
    ensures BlockSizeOf(k) == 1024 * Pow2(k) < U32_MOD
  {
    assert k % 32 == k;
    var p := Pow2(k);
    Pow2Constants();
    Pow2Monotone(k, 22);
    assert p < 4194304;
    assert 1024 * p < U32_MOD;
    SmallModulo(1024 * p);
  }

  lemma {:induction false} MultipleModulo(c: nat)
    ensures (U32_MOD * c) % U32_MOD == 0
    decreases c
  {
    if c > 0 {
      MultipleModulo(c - 1);
      assert U32_MOD * c == U32_MOD * (c - 1) + U32_MOD;
    }
  }

  /** Shifts of 22 and more push the bit past bit 31. */
  lemma BlockSizeLargeShift(k: nat)
    requires 22 <= k < 32
    ensures BlockSizeOf(k) == 0
  {
    Pow2Constants();
    Pow2Add(22, k - 22);
    var c := Pow2(k - 22);
    assert Pow2(k) == 4194304 * c;
    assert 1024 * Pow2(k) == U32_MOD * c;
    MultipleModulo(c);
  }

  /** A block size of 4096 comes from exactly the logs that are 2 modulo 32;
      shifts of 22 and more push the bit out and give 0. */
  lemma BlockSize4096Iff(log: nat)
    ensures BlockSizeOf(log) == 4096 <==> log % 32 == 2
    ensures 22 <= log % 32 ==> BlockSizeOf(log) == 0
    ensures log % 32 < 22 ==> BlockSizeOf(log) == 1024 * Pow2(log % 32)
  {
    var k := log % 32;
    ShiftAmountWraps(log);
    if k < 22 {
      BlockSizeSmallShift(k);
      BlockSize4096Small(k);
    } else {
      BlockSizeLargeShift(k);
    }
  }

  lemma ShiftAmountWraps(log: nat)
    ensures BlockSizeOf(log) == BlockSizeOf(log % 32)
  {
    var k := log % 32;
    assert k % 32 == k;
  }

  lemma BlockSize4096Small(k: nat)
    requires k < 22
    ensures BlockSizeOf(k) == 4096 <==> k == 2
  {
    BlockSizeSmallShift(k);
    Pow2Constants();
    if k < 2 {
      Pow2Monotone(k, 2);
    } else if k > 2 {
      Pow2Monotone(2, k);
    }
  }

  /**
   * `From<RawSuperBlock> for SuperBlock`: the block size is decoded from
   * its logarithm, the group index is widened, and every other field the
   * file system uses is taken as it is on disk.
   */
  function FromRaw(raw: RawSuperBlock): (sb: SuperBlock)
    ensures sb.blockSize == BlockSizeOf(raw.logBlockSize)
    ensures sb.idx == raw.blockGroupIdx
    ensures sb.inodesCount == raw.inodesCount && sb.blocksCount == raw.blocksCount
    ensures sb.inodesPerGroup == raw.inodesPerGroup && sb.blocksPerGroup == raw.blocksPerGroup
    ensures sb.inodeSize == raw.inodeSize && sb.firstIno == raw.firstIno
    ensures sb.reservedBlocksCount == raw.reservedBlocksCount
    ensures sb.freeBlocksCount == raw.freeBlocksCount && sb.freeInodesCount == raw.freeInodesCount
    ensures sb.firstDataBlock == raw.firstDataBlock && sb.logFragSize == raw.logFragSize
    ensures sb.fragsPerGroup == raw.fragsPerGroup
    ensures sb.mntCount == raw.mntCount && sb.maxMntCount == raw.maxMntCount
  {
    SuperBlock(
      idx := raw.blockGroupIdx,
      blockSize := BlockSizeOf(raw.logBlockSize),
      inodesCount := raw.inodesCount,
      blocksCount := raw.blocksCount,
      reservedBlocksCount := raw.reservedBlocksCount,
      freeBlocksCount := raw.freeBlocksCount,
      freeInodesCount := raw.freeInodesCount,
      firstDataBlock := raw.firstDataBlock,
      logFragSize := raw.logFragSize,
      blocksPerGroup := raw.blocksPerGroup,
      fragsPerGroup := raw.fragsPerGroup,
      inodesPerGroup := raw.inodesPerGroup,
      mntCount := raw.mntCount,
      maxMntCount := raw.maxMntCount,
      firstIno := raw.firstIno,
      inodeSize := raw.inodeSize)
  }

  /**
   * The decoded superblock depends on the raw record only through the
   * fields it copies and the shift amount `log_block_size % 32`: the magic
   * and the shift's upper bits are dropped.
   */
  lemma FromRawDependsOnCopiedFields(a: RawSuperBlock, b: RawSuperBlock)
    requires a.(magic := b.magic, logBlockSize := b.logBlockSize) == b
    requires a.logBlockSize % 32 == b.logBlockSize % 32
    ensures FromRaw(a) == FromRaw(b)
  {
    ShiftAmountWraps(a.logBlockSize);
    ShiftAmountWraps(b.logBlockSize);
  }

  /** `u32` multiplication, wrapping. */
  function U32Mul(a: nat, b: nat): (c: nat)
    ensures c < U32_MOD
    ensures a * b < U32_MOD ==> c == a * b
  {
    (a * b) % U32_MOD
  }

  /** `y = q * 2^32 + r` with `r < 2^32` leaves `r` over. */
  lemma U32ModUnique(y: nat, q: nat, r: nat)
    requires y == q * U32_MOD + r && r < U32_MOD
    ensures y % U32_MOD == r
  {
  }

  /** Wrapping after the product and again after the sum gives the exact
      sum reduced once. */
  lemma WrapStepwise(x: nat)
    ensures (x % U32_MOD + 1) % U32_MOD == (x + 1) % U32_MOD
  {
    var q, r := x / U32_MOD, x % U32_MOD;
    assert x + 1 == q * U32_MOD + (r + 1);
    if r + 1 < U32_MOD {
      U32ModUnique(x + 1, q, r + 1);
      U32ModUnique(r + 1, 0, r + 1);
    } else {
      U32ModUnique(x + 1, q + 1, 0);
      U32ModUnique(r + 1, 1, 0);
    }
  }

  /**
   * `group_descriptor_table_bid`: `idx * blocks_per_group + 1` in `u32`
   * arithmetic, the product and the sum each wrapping. The result is the
   * exact value reduced modulo 2^32, so the block after the first block of
   * the superblock's group when that fits in 32 bits; group 0's table is
   * block 1.
   */
  function GroupDescriptorTableBid(sb: SuperBlock): (bid: nat)
    ensures bid < U32_MOD
    ensures bid == (sb.idx * sb.blocksPerGroup + 1) % U32_MOD
    ensures sb.idx * sb.blocksPerGroup + 1 < U32_MOD ==> bid == sb.idx * sb.blocksPerGroup + 1
    ensures sb.idx == 0 ==> bid == 1
  {
    WrapStepwise(sb.idx * sb.blocksPerGroup);
    (U32Mul(sb.idx, sb.blocksPerGroup) + 1) % U32_MOD
  }
}
