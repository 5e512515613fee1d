/**
 * The ext2 file system of the file-system kernel: mounting checks the
 * superblock and loads the one group descriptor, and `lookup_inode` turns
 * an inode number into the sector and byte offset of its on-disk record.
 * The device is not modelled; what mounting reads from it is given as
 * parameters.
 */
module Ext2 {
  import opened Common
  import opened Ext2SuperBlock

  const EXT2_MAGIC: nat := 0xEF53

  /** The root inode number. */
  const ROOT_INO: nat := 2

  /** A block group: the one field of its descriptor that lookups use. */
  datatype BlockGroup = BlockGroup(inodeTableStartBid: nat)

  datatype Ext2Fs = Ext2Fs(
    superBlock: SuperBlock, blockGroups: seq<BlockGroup>,
    inodesPerGroup: nat, blocksPerGroup: nat, inodeSize: nat, blockSize: nat)

  /** Where an inode's record is read from: what `lookup_inode` hands to
      `Inode::new` besides the file system. */
  datatype InodeLocation = InodeLocation(inodeNumber: nat, sector: nat, sectorOffset: nat, blockGroupIdx: nat)

  /** `Ext2Bid::add`: `u32` addition, wrapping. */
  function BidAdd(a: nat, b: nat): (c: nat)
    requires a < U32_MOD && b < U32_MOD
    ensures c < U32_MOD
    ensures a + b < U32_MOD ==> c == a + b
    ensures a + b >= U32_MOD ==> c == a + b - U32_MOD
  {
    (a + b) % U32_MOD
  }

  lemma DivAtLeastOne(a: nat, b: nat)
    requires 0 < b <= a
    ensures a / b >= 1
  {
  }

  lemma DivBelow(a: nat, b: nat)
    requires a < b
    ensures a / b == 0
  {
  }

  lemma {:induction false} MulAtLeast(b: nat, q: nat)
    requires b >= 1
    ensures b * q >= q
    decreases b
  {
    if b > 1 {
      MulAtLeast(b - 1, q);
      assert b * q == (b - 1) * q + q;
    }
  }

  lemma DivAtMost(a: nat, b: nat)
    requires b > 0
    ensures a / b <= a
  {
    var q, r := a / b, a % b;
    assert a == b * q + r;
    if q > a {
      MulAtLeast(b, q);
    }
  }

  /** `bid_to_sector`: the first sector of block `bid`. */
  function BidToSector(fs: Ext2Fs, bid: nat): (s: nat)
    ensures fs.blockSize == 4096 ==> s == bid * 8
  {
    bid * fs.blockSize / SECTOR_SIZE
  }

  /** What `new` asserts of a superblock with the right magic: one block
      group holding every inode and block, and 4 KiB blocks. */
  predicate Supported(sb: SuperBlock) {
    sb.inodesPerGroup == sb.inodesCount && sb.blocksPerGroup == sb.blocksCount && sb.blockSize == 4096
  }

  /** The sector `new` reads the group descriptor from. */
  function DescriptorSector(sb: SuperBlock): nat {
    GroupDescriptorTableBid(sb) * sb.blockSize / SECTOR_SIZE
  }

  /**
   * `Ext2Fs::new`, given the superblock read from sector 2 and, for each
   * sector, the inode-table start recorded in a group descriptor read from
   * there. A bad magic number is EACCES. Otherwise the decoded superblock
   * must be one the kernel supports (it asserts so), and the file system
   * has exactly one block group, whose descriptor comes from the block
   * after the superblock's group start.
   */
  function New(raw: RawSuperBlock, descriptorAt: nat -> nat): (r: Result<Ext2Fs>)
    requires raw.magic == EXT2_MAGIC ==> Supported(FromRaw(raw))
    ensures r.Err? <==> raw.magic != EXT2_MAGIC
    ensures r.Err? ==> r.errno == EACCES
    ensures r.Ok? ==>
      && r.value.superBlock == FromRaw(raw)
      && r.value.blockSize == 4096 && r.value.inodeSize == raw.inodeSize
      && r.value.inodesPerGroup == raw.inodesCount && r.value.blocksPerGroup == raw.blocksCount
      && r.value.blockGroups == [BlockGroup(descriptorAt(DescriptorSector(r.value.superBlock)))]
    ensures r.Ok? && raw.blockGroupIdx == 0 ==> r.value.blockGroups == [BlockGroup(descriptorAt(8))]
  {
    if raw.magic != EXT2_MAGIC then Err(EACCES)
    else
      var sb := FromRaw(raw);
      var group := BlockGroup(descriptorAt(GroupDescriptorTableBid(sb) * sb.blockSize / SECTOR_SIZE));
      Ok(Ext2Fs(sb, [group], sb.inodesPerGroup, sb.blocksPerGroup, sb.inodeSize, sb.blockSize))
  }

  /** A mounted file system: what `New` returns. */
  predicate Mounted(fs: Ext2Fs) {
    Supported(fs.superBlock) && |fs.blockGroups| == 1
    && fs.inodesPerGroup == fs.superBlock.inodesCount && fs.blockSize == fs.superBlock.blockSize
    && fs.inodeSize == fs.superBlock.inodeSize
    && fs.blockGroups[0].inodeTableStartBid < U32_MOD && fs.superBlock.inodesCount < U32_MOD
  }

  /** `inode_number - 1` in `u32`: inode 0 wraps to the largest index. */
  function InodeIndex(n: nat): (idx: nat)
    requires n < U32_MOD
    ensures n > 0 ==> idx == n - 1
    ensures n == 0 ==> idx == U32_MOD - 1
  {
    (n + U32_MOD - 1) % U32_MOD
  }

  /** The arithmetic `lookup_inode` divides by: a record size that is not 0
      and fits in a block (otherwise a division panics). */
  predicate InodeSizeUsable(fs: Ext2Fs) {
    0 < fs.inodeSize <= fs.blockSize
  }

  /**
   * `lookup_inode(n)`: the inode cache is never filled, so every lookup
   * computes the location. With index `n - 1` past the inode count the
   * result is ENOENT. Otherwise the record is in block
   * `table_start + idx / per_block` of the inode table, slot
   * `idx % per_block`, which is a sector and a byte offset within it.
   */
  function LookupInode(fs: Ext2Fs, n: nat): (r: Result<InodeLocation>)
    requires Mounted(fs) && n < U32_MOD
    requires InodeIndex(n) < fs.superBlock.inodesCount ==> InodeSizeUsable(fs)
    ensures r.Err? <==> InodeIndex(n) >= fs.superBlock.inodesCount
    ensures r.Err? ==> r.errno == ENOENT
    ensures n == 0 ==> r == Err(ENOENT)
    ensures r.Ok? ==> r.value.inodeNumber == n && r.value.blockGroupIdx == 0
    ensures r.Ok? ==> r.value.sectorOffset < SECTOR_SIZE
  {
    var idx := InodeIndex(n);
    if idx >= fs.superBlock.inodesCount then Err(ENOENT)
    else
      DivBelow(idx, fs.inodesPerGroup);
      DivAtLeastOne(fs.blockSize, fs.inodeSize);
      var group := idx / fs.inodesPerGroup;
      var tableBlock := fs.blockGroups[group].inodeTableStartBid;
      var perBlock := fs.blockSize / fs.inodeSize;
      var bidNum := BidAdd(tableBlock, idx / perBlock);
      var slot := idx % perBlock;
      Ok(InodeLocation(n, BidToSector(fs, bidNum) + slot * fs.inodeSize / SECTOR_SIZE,
                       (slot * fs.inodeSize) % SECTOR_SIZE, group))
  }

  /** The byte of the device where a location's record starts. */
  function ByteAddress(loc: InodeLocation): nat {
    loc.sector * SECTOR_SIZE + loc.sectorOffset
  }

  /** The inode table, at most one block per inode, ends before block 2^32. */
  predicate TableFits(fs: Ext2Fs)
    requires Mounted(fs)
  {
    fs.blockGroups[0].inodeTableStartBid + fs.superBlock.inodesCount < U32_MOD
  }

  /**
   * When the record size divides the block size and the inode table does
   * not run past block 2^32, inode `n`'s record starts `(n - 1)` records
   * after the start of the inode table: the lookup arithmetic is exact.
   */
  lemma LookupInodeAddress(fs: Ext2Fs, n: nat)
    requires Mounted(fs) && 0 < n < U32_MOD && n - 1 < fs.superBlock.inodesCount
    requires InodeSizeUsable(fs) && fs.blockSize % fs.inodeSize == 0
    requires TableFits(fs)
    ensures LookupInode(fs, n).Ok?
    ensures ByteAddress(LookupInode(fs, n).value)
         == fs.blockGroups[0].inodeTableStartBid * fs.blockSize + (n - 1) * fs.inodeSize
  {
    var idx := n - 1;
    var isz := fs.inodeSize;
    var perBlock := fs.blockSize / isz;
    ExactDivision(fs.blockSize, isz);
    LookupInodeFields(fs, n);
    var loc := LookupInode(fs, n).value;
    RecordByteAddress(fs.blockGroups[0].inodeTableStartBid, idx, perBlock, isz, loc.sector, loc.sectorOffset);
  }

  lemma ExactDivision(a: nat, b: nat)
    requires b > 0 && a % b == 0
    ensures (a / b) * b == a
  {
  }

  /** The sector and offset `lookup_inode` computes for record `idx`, put
      back together, are `idx` records past the start of the table. */
  lemma RecordByteAddress(start: nat, idx: nat, perBlock: nat, isz: nat, sector: nat, offset: nat)
    requires perBlock * isz == 4096
    requires sector == (start + idx / perBlock) * 8 + (idx % perBlock) * isz / SECTOR_SIZE
    requires offset == ((idx % perBlock) * isz) % SECTOR_SIZE
    ensures sector * SECTOR_SIZE + offset == start * 4096 + idx * isz
  {
    var q, slot := idx / perBlock, idx % perBlock;
    var x := slot * isz;
    assert sector * SECTOR_SIZE + offset == (start + q) * 4096 + (x / SECTOR_SIZE) * SECTOR_SIZE + x % SECTOR_SIZE;
    assert (x / SECTOR_SIZE) * SECTOR_SIZE + x % SECTOR_SIZE == x;
    RecordOffset(start, q, slot, perBlock, isz);
    assert idx == q * perBlock + slot;
  }

  /** The fields `LookupInode` computes when the table does not wrap. */
  lemma LookupInodeFields(fs: Ext2Fs, n: nat)
    requires Mounted(fs) && 0 < n < U32_MOD && n - 1 < fs.superBlock.inodesCount
    requires InodeSizeUsable(fs)
    requires TableFits(fs)
    ensures var perBlock := fs.blockSize / fs.inodeSize;
      var slot := (n - 1) % perBlock;
      && LookupInode(fs, n).Ok?
      && LookupInode(fs, n).value.sector
         == (fs.blockGroups[0].inodeTableStartBid + (n - 1) / perBlock) * 8 + slot * fs.inodeSize / SECTOR_SIZE
      && LookupInode(fs, n).value.sectorOffset == (slot * fs.inodeSize) % SECTOR_SIZE
  {
    var idx := n - 1;
    var perBlock := fs.blockSize / fs.inodeSize;
    DivBelow(idx, fs.inodesPerGroup);
    DivAtLeastOne(fs.blockSize, fs.inodeSize);
    DivAtMost(idx, perBlock);
  }

  /** Block `start + q` plus slot `slot` of `isz`-byte records, with
      `perBlock` records to a 4096-byte block, is record `q * perBlock + slot`
      from `start`. */
  lemma RecordOffset(start: nat, q: nat, slot: nat, perBlock: nat, isz: nat)
    requires perBlock * isz == 4096
    ensures (start + q) * 4096 + slot * isz == start * 4096 + (q * perBlock + slot) * isz
  {
    calc {
      (start + q) * 4096 + slot * isz;
      start * 4096 + q * (perBlock * isz) + slot * isz;
      { assert q * (perBlock * isz) == (q * perBlock) * isz; }
      start * 4096 + (q * perBlock + slot) * isz;
    }
  }

  /** Different inode numbers that both resolve under those conditions
      name different records that do not overlap. */
  lemma LookupInodeDisjoint(fs: Ext2Fs, n: nat, m: nat)
    requires Mounted(fs) && 0 < n < m < U32_MOD && m - 1 < fs.superBlock.inodesCount
    requires InodeSizeUsable(fs) && fs.blockSize % fs.inodeSize == 0
    requires TableFits(fs)
    ensures ByteAddress(LookupInode(fs, n).value) + fs.inodeSize <= ByteAddress(LookupInode(fs, m).value)
  {
    LookupInodeAddress(fs, n);
    LookupInodeAddress(fs, m);
    var isz := fs.inodeSize;
    assert (m - 1) * isz == (n - 1) * isz + (m - n) * isz;
    MulAtLeast(m - n, isz);
  }

  /** `root_inode`: inode 2, which the kernel unwraps, so the file system
      must hold at least two inodes. */
  function RootInode(fs: Ext2Fs): (loc: InodeLocation)
    requires Mounted(fs) && InodeSizeUsable(fs) && fs.superBlock.inodesCount >= 2
    ensures loc.inodeNumber == ROOT_INO && loc.blockGroupIdx == 0
  {
    LookupInode(fs, ROOT_INO).value
  }

  /** The root's record is the second slot of the inode table. */
  lemma RootInodeAddress(fs: Ext2Fs)
    requires Mounted(fs) && InodeSizeUsable(fs) && fs.superBlock.inodesCount >= 2
    requires fs.blockSize % fs.inodeSize == 0 && TableFits(fs)
    ensures ByteAddress(RootInode(fs)) == fs.blockGroups[0].inodeTableStartBid * fs.blockSize + fs.inodeSize
  {
    LookupInodeAddress(fs, ROOT_INO);
  }
}
