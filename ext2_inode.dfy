/**
 * ext2 inodes as the file-system kernel reads them: the type and size
 * decoded from the on-disk record, the directory entries collected from
 * the direct blocks, name lookup, and the block-by-block plan `read_at`
 * follows. The device is not modelled: a directory entry read from a
 * sector and offset is given as a function, and `read_at` yields the
 * sector reads it asks the device for.
 */
module Ext2Inode {
  import opened Common
  import opened FileData
  import opened Ext2SuperBlock
  import opened Ext2

  /** ext2 inodes have 12 direct block pointers; only those are followed. */
  const DIRECT_POINTERS: nat := 12

  /** The fields of `RawInode` the kernel uses. */
  datatype RawInode = RawInode(mode: bv16, sizeLow: bv32, sizeHigh: bv32, directPointers: seq<nat>)

  /** A decoded directory entry: the inode it names (0 ends a block), the
      record length to the next entry, and the name. */
  datatype DirEntry = DirEntry(inode: nat, recLen: nat, name: string)

  datatype Inner = FileInner | DirectoryInner(entries: seq<DirEntry>)

  datatype Inode = Inode(inodeId: nat, typ: InodeType, blockGroupIdx: nat, inner: Inner, raw: RawInode, size: nat)

  /** One read request to the block device: `count` sectors from `sector`. */
  datatype SectorRead = SectorRead(sector: nat, count: nat)

  /** One step of `read_at`'s block walk: `toRead` bytes of direct block
      `blockIndex`, from `offsetInBlock`. */
  datatype Chunk = Chunk(blockIndex: nat, offsetInBlock: nat, toRead: nat)

  predicate WellFormed(raw: RawInode) {
    |raw.directPointers| == DIRECT_POINTERS
  }

  /** The type field, bits 12-15 of the mode: directory, regular file or
      symbolic link; anything else is not supported. */
  function TypeOf(mode: bv16): (t: Option<InodeType>)
    ensures t == Some(Directory) <==> mode & 0xF000 == 0x4000
    ensures t == Some(File) <==> mode & 0xF000 == 0x8000
    ensures t == Some(SymbolLink) <==> mode & 0xF000 == 0xA000
    ensures t.None? <==> mode & 0xF000 !in {0x4000, 0x8000, 0xA000}
  {
    match mode & 0xF000
    case 0x4000 => Some(Directory)
    case 0x8000 => Some(File)
    case 0xA000 => Some(SymbolLink)
    case _ => None
  }

  /** `(size_high << 32) | size_low` in 64 bits: the low half fills the
      bits the shift leaves clear, so the two halves sit side by side and
      each can be read back. */
  function WideSize(high: bv32, low: bv32): (s: nat)
    ensures s < U64_MOD
    ensures s / U32_MOD == high as nat && s % U32_MOD == low as nat
  {
    high as nat * U32_MOD + low as nat
  }

  /** The size of an inode of type `t`: a regular file uses both halves, any
      other type only the low one. */
  function SizeOf(t: InodeType, raw: RawInode): (s: nat)
    ensures t == File ==> s == WideSize(raw.sizeHigh, raw.sizeLow)
    ensures t != File ==> s == raw.sizeLow as nat
    ensures s < U64_MOD
  {
    if t == File then WideSize(raw.sizeHigh, raw.sizeLow) else raw.sizeLow as nat
  }

  /** Every entry that names an inode points a positive distance on; the
      walk over a block would not end otherwise. */
  ghost predicate RecordsAdvance(entryAt: (nat, nat) -> DirEntry) {
    forall s: nat, o: nat :: entryAt(s, o).inode != 0 ==> entryAt(s, o).recLen > 0
  }

  /** The entries of one block from byte `offset`: read at the sector and
      offset of that byte, stopping at an entry naming inode 0 or at the end
      of the block. */
  function BlockEntries(entryAt: (nat, nat) -> DirEntry, sector: nat, blockSize: nat, offset: nat): seq<DirEntry>
    requires RecordsAdvance(entryAt)
    decreases blockSize - offset
  {
    if offset >= blockSize then []
    else
      var e := entryAt(sector + offset / SECTOR_SIZE, offset % SECTOR_SIZE);
      if e.inode == 0 then [] else [e] + BlockEntries(entryAt, sector, blockSize, offset + e.recLen)
  }

  /** The entries of the direct blocks from pointer `i` on, skipping zero
      pointers. */
  function DirectoryEntries(fs: Ext2Fs, ptrs: seq<nat>, entryAt: (nat, nat) -> DirEntry, i: nat): seq<DirEntry>
    requires RecordsAdvance(entryAt)
    decreases |ptrs| - i
  {
    if i >= |ptrs| then []
    else
      (if ptrs[i] == 0 then [] else BlockEntries(entryAt, BidToSector(fs, ptrs[i]), fs.blockSize, 0))
      + DirectoryEntries(fs, ptrs, entryAt, i + 1)
  }

  /** No collected entry names inode 0. */
  lemma {:induction false} BlockEntriesLive(entryAt: (nat, nat) -> DirEntry, sector: nat, blockSize: nat, offset: nat)
    requires RecordsAdvance(entryAt)
    ensures forall e :: e in BlockEntries(entryAt, sector, blockSize, offset) ==> e.inode != 0
    decreases blockSize - offset
  {
    if offset < blockSize {
      var e := entryAt(sector + offset / SECTOR_SIZE, offset % SECTOR_SIZE);
      if e.inode != 0 {
        BlockEntriesLive(entryAt, sector, blockSize, offset + e.recLen);
      }
    }
  }

  lemma {:induction false} DirectoryEntriesLive(fs: Ext2Fs, ptrs: seq<nat>, entryAt: (nat, nat) -> DirEntry, i: nat)
    requires RecordsAdvance(entryAt)
    ensures forall e :: e in DirectoryEntries(fs, ptrs, entryAt, i) ==> e.inode != 0
    decreases |ptrs| - i
  {
    if i < |ptrs| {
      if ptrs[i] != 0 {
        BlockEntriesLive(entryAt, BidToSector(fs, ptrs[i]), fs.blockSize, 0);
      }
      DirectoryEntriesLive(fs, ptrs, entryAt, i + 1);
    }
  }

  /** A directory whose direct pointers are all zero has no entries. */
  lemma {:induction false} NoBlocksNoEntries(fs: Ext2Fs, ptrs: seq<nat>, entryAt: (nat, nat) -> DirEntry, i: nat)
    requires RecordsAdvance(entryAt)
    requires forall j :: i <= j < |ptrs| ==> ptrs[j] == 0
    ensures DirectoryEntries(fs, ptrs, entryAt, i) == []
    decreases |ptrs| - i
  {
    if i < |ptrs| {
      NoBlocksNoEntries(fs, ptrs, entryAt, i + 1);
    }
  }

  /** The inner loop of `read_directory`: the entries of the block that
      starts at `sector`. */
  method ReadBlock(entryAt: (nat, nat) -> DirEntry, sector: nat, blockSize: nat) returns (entries: seq<DirEntry>)
    requires RecordsAdvance(entryAt)
    ensures entries == BlockEntries(entryAt, sector, blockSize, 0)
  {
    entries := [];
    var offset := 0;
    while offset < blockSize
      invariant entries + BlockEntries(entryAt, sector, blockSize, offset) == BlockEntries(entryAt, sector, blockSize, 0)
      decreases blockSize - offset
    {
      var dirEntry := entryAt(sector + offset / SECTOR_SIZE, offset % SECTOR_SIZE);
      if dirEntry.inode == 0 {
        break;
      }
      offset := offset + dirEntry.recLen;
      entries := entries + [dirEntry];
    }
  }

  /**
   * `read_directory`: nothing for an inode that is not a directory.
   * Otherwise every non-zero direct pointer's block is walked entry by
   * entry, each entry read at its byte's sector and offset, until an entry
   * naming inode 0 or the end of the block.
   */
  method ReadDirectory(t: InodeType, raw: RawInode, fs: Ext2Fs, entryAt: (nat, nat) -> DirEntry)
    returns (r: Option<seq<DirEntry>>)
    requires RecordsAdvance(entryAt)
    ensures t != Directory ==> r == None
    ensures t == Directory ==> r == Some(DirectoryEntries(fs, raw.directPointers, entryAt, 0))
  {
    if t != Directory {
      return None;
    }
    var ptrs := raw.directPointers;
    var entries: seq<DirEntry> := [];
    assert entries + DirectoryEntries(fs, ptrs, entryAt, 0) == DirectoryEntries(fs, ptrs, entryAt, 0);
    for i := 0 to |ptrs|
      invariant entries + DirectoryEntries(fs, ptrs, entryAt, i) == DirectoryEntries(fs, ptrs, entryAt, 0)
    {
      var blockPtr := ptrs[i];
      if blockPtr == 0 {
        assert DirectoryEntries(fs, ptrs, entryAt, i) == DirectoryEntries(fs, ptrs, entryAt, i + 1);
        continue;
      }
      var sector := BidToSector(fs, blockPtr);
      ghost var before := entries;
      var block := ReadBlock(entryAt, sector, fs.blockSize);
      entries := entries + block;
      assert DirectoryEntries(fs, ptrs, entryAt, i) == block + DirectoryEntries(fs, ptrs, entryAt, i + 1);
      assert entries + DirectoryEntries(fs, ptrs, entryAt, i + 1) == before + DirectoryEntries(fs, ptrs, entryAt, i);
    }
    assert DirectoryEntries(fs, ptrs, entryAt, |ptrs|) == [];
    assert entries == entries + DirectoryEntries(fs, ptrs, entryAt, |ptrs|);
    r := Some(entries);
  }

  /**
   * `Inode::new` on the record `raw` read at `loc`: the type comes from the
   * mode (an unsupported type panics, so callers must not pass one), a
   * directory's entries are read at once, and the size is decoded for the
   * type.
   */
  method NewInode(loc: InodeLocation, raw: RawInode, fs: Ext2Fs, entryAt: (nat, nat) -> DirEntry)
    returns (inode: Inode)
    requires TypeOf(raw.mode).Some?
    requires RecordsAdvance(entryAt)
    ensures inode.inodeId == loc.inodeNumber && inode.blockGroupIdx == loc.blockGroupIdx
    ensures inode.typ == TypeOf(raw.mode).value && inode.raw == raw
    ensures inode.size == SizeOf(inode.typ, raw)
    ensures inode.typ == Directory <==> inode.inner.DirectoryInner?
    ensures inode.typ == Directory ==>
      inode.inner.entries == DirectoryEntries(fs, raw.directPointers, entryAt, 0)
  {
    var t := TypeOf(raw.mode).value;
    var inner: Inner;
    if t == Directory {
      var entries := ReadDirectory(t, raw, fs, entryAt);
      inner := DirectoryInner(entries.value);
    } else {
      inner := FileInner;
    }
    inode := Inode(loc.inodeNumber, t, loc.blockGroupIdx, inner, raw, SizeOf(t, raw));
  }

  /** `size`: re-reads the record, which has not changed, and decodes it for
      the inode's type. */
  function Size(inode: Inode): (s: nat)
    ensures inode.typ == File ==> s == WideSize(inode.raw.sizeHigh, inode.raw.sizeLow)
    ensures inode.typ != File ==> s == inode.raw.sizeLow as nat
  {
    SizeOf(inode.typ, inode.raw)
  }

  /** The first entry carrying `name`, if any. */
  function FirstNamed(entries: seq<DirEntry>, name: string): (k: Option<nat>)
    ensures k.Some? ==>
      (k.value < |entries| && entries[k.value].name == name
       && forall j :: 0 <= j < k.value ==> entries[j].name != name)
    ensures k.None? <==> forall j :: 0 <= j < |entries| ==> entries[j].name != name
  {
    if entries == [] then None
    else if entries[0].name == name then Some(0)
    else
      match FirstNamed(entries[1..], name)
      case None => None
      case Some(k) => Some(k + 1)
  }

  /**
   * `lookup(name)`: ENOTDIR unless the inode is a directory. Otherwise the
   * first entry with that name is resolved with `lookup_inode`, whose
   * error is passed on; with no such entry the result is ENOENT.
   */
  method Lookup(inode: Inode, fs: Ext2Fs, name: string) returns (r: Result<InodeLocation>)
    requires Mounted(fs) && InodeSizeUsable(fs)
    requires inode.typ == Directory <==> inode.inner.DirectoryInner?
    requires inode.inner.DirectoryInner? ==> forall e :: e in inode.inner.entries ==> e.inode < U32_MOD
    ensures inode.typ != Directory ==> r == Err(ENOTDIR)
    ensures inode.typ == Directory ==>
      match FirstNamed(inode.inner.entries, name)
      case None => r == Err(ENOENT)
      case Some(k) => r == LookupInode(fs, inode.inner.entries[k].inode)
  {
    if inode.typ != Directory {
      return Err(ENOTDIR);
    }
    var entries := inode.inner.entries;
    var i := 0;
    while i < |entries|
      invariant 0 <= i <= |entries|
      invariant forall j :: 0 <= j < i ==> entries[j].name != name
    {
      var entry := entries[i];
      if entry.name == name {
        return LookupInode(fs, entry.inode);
      }
      i := i + 1;
    }
    r := Err(ENOENT);
  }

  /**
   * The block walk of `read_at` from direct block `blockIndex`, starting
   * `offsetInBlock` into it, for `remaining` bytes: each step takes what is
   * left of the block or of the request, whichever is less, and the walk
   * stops when nothing is left, past the last direct pointer, or at a zero
   * pointer.
   */
  function Plan(ptrs: seq<nat>, blockSize: nat, blockIndex: nat, offsetInBlock: nat, remaining: nat): seq<Chunk>
    requires |ptrs| == DIRECT_POINTERS && offsetInBlock < blockSize
    decreases remaining
  {
    if remaining == 0 || blockIndex >= DIRECT_POINTERS || ptrs[blockIndex] == 0 then []
    else
      var toRead := Min(blockSize - offsetInBlock, remaining);
      [Chunk(blockIndex, offsetInBlock, toRead)] + Plan(ptrs, blockSize, blockIndex + 1, 0, remaining - toRead)
  }

  /** The bytes a plan reads. */
  function Total(plan: seq<Chunk>): nat {
    if plan == [] then 0 else plan[0].toRead + Total(plan[1..])
  }

  /**
   * A plan reads no more than asked; every step reads at least one byte
   * and stays inside its block; the first starts where asked and the
   * others at the start of the next block.
   */
  lemma {:induction false} PlanShape(ptrs: seq<nat>, blockSize: nat, blockIndex: nat, offsetInBlock: nat, remaining: nat)
    requires |ptrs| == DIRECT_POINTERS && offsetInBlock < blockSize
    ensures Total(Plan(ptrs, blockSize, blockIndex, offsetInBlock, remaining)) <= remaining
    ensures forall k :: 0 <= k < |Plan(ptrs, blockSize, blockIndex, offsetInBlock, remaining)| ==>
      var c := Plan(ptrs, blockSize, blockIndex, offsetInBlock, remaining)[k];
      && c.blockIndex == blockIndex + k && c.blockIndex < DIRECT_POINTERS && ptrs[c.blockIndex] != 0
      && c.offsetInBlock == (if k == 0 then offsetInBlock else 0)
      && 0 < c.toRead && c.offsetInBlock + c.toRead <= blockSize
    decreases remaining
  {
    var plan := Plan(ptrs, blockSize, blockIndex, offsetInBlock, remaining);
    if plan != [] {
      var toRead := Min(blockSize - offsetInBlock, remaining);
      PlanShape(ptrs, blockSize, blockIndex + 1, 0, remaining - toRead);
    }
  }

  /** When every direct pointer from `blockIndex` on is set and the range
      ends inside them, the walk reads everything asked for. */
  lemma {:induction false} PlanComplete(ptrs: seq<nat>, blockSize: nat, blockIndex: nat, offsetInBlock: nat, remaining: nat)
    requires |ptrs| == DIRECT_POINTERS && offsetInBlock < blockSize
    requires forall j :: blockIndex <= j < DIRECT_POINTERS ==> ptrs[j] != 0
    requires blockIndex * blockSize + offsetInBlock + remaining <= DIRECT_POINTERS * blockSize
    ensures Total(Plan(ptrs, blockSize, blockIndex, offsetInBlock, remaining)) == remaining
    decreases remaining
  {
    if remaining > 0 {
      var toRead := Min(blockSize - offsetInBlock, remaining);
      if remaining > toRead {
        assert (blockIndex + 1) * blockSize == blockIndex * blockSize + blockSize;
        PlanComplete(ptrs, blockSize, blockIndex + 1, 0, remaining - toRead);
      }
    }
  }

  /** The walk ends past the last direct pointer and at a zero pointer. */
  lemma PlanStops(ptrs: seq<nat>, blockSize: nat, blockIndex: nat, offsetInBlock: nat, remaining: nat)
    requires |ptrs| == DIRECT_POINTERS && offsetInBlock < blockSize
    requires blockIndex >= DIRECT_POINTERS || ptrs[blockIndex] == 0
    ensures Plan(ptrs, blockSize, blockIndex, offsetInBlock, remaining) == []
  {
  }

  /** One step of the walk: what is left of the block or of the request,
      then the walk from the start of the next block. */
  lemma PlanStep(ptrs: seq<nat>, blockSize: nat, blockIndex: nat, offsetInBlock: nat, remaining: nat)
    requires |ptrs| == DIRECT_POINTERS && offsetInBlock < blockSize
    requires remaining > 0 && blockIndex < DIRECT_POINTERS && ptrs[blockIndex] != 0
    ensures var plan := Plan(ptrs, blockSize, blockIndex, offsetInBlock, remaining);
      var toRead := Min(blockSize - offsetInBlock, remaining);
      && plan != [] && plan[0] == Chunk(blockIndex, offsetInBlock, toRead)
      && plan[1..] == Plan(ptrs, blockSize, blockIndex + 1, 0, remaining - toRead)
      && Total(plan) == toRead + Total(plan[1..])
  {
  }

  /** The request `read_at` issues for a step, as written: from the sector
      holding the step's first byte, `ceil(toRead / 512)` sectors. */
  function RequestAsWritten(fs: Ext2Fs, ptrs: seq<nat>, c: Chunk): (q: SectorRead)
    requires c.blockIndex < |ptrs|
    ensures q.sector * SECTOR_SIZE <= BidToSector(fs, ptrs[c.blockIndex]) * SECTOR_SIZE + c.offsetInBlock
            < (q.sector + 1) * SECTOR_SIZE
    ensures q.count * SECTOR_SIZE >= c.toRead
    ensures q.count > 0 ==> (q.count - 1) * SECTOR_SIZE < c.toRead
  {
    SectorRead(BidToSector(fs, ptrs[c.blockIndex]) + c.offsetInBlock / SECTOR_SIZE,
               (c.toRead + SECTOR_SIZE - 1) / SECTOR_SIZE)
  }

  /** A request starting at its sector boundary covers the byte range
      `[start, start + len)` of the block it reads from. */
  predicate RequestCovers(fs: Ext2Fs, ptrs: seq<nat>, c: Chunk, q: SectorRead)
    requires c.blockIndex < |ptrs|
  {
    var first := BidToSector(fs, ptrs[c.blockIndex]) * SECTOR_SIZE;
    first + c.offsetInBlock >= q.sector * SECTOR_SIZE
    && first + c.offsetInBlock + c.toRead <= (q.sector + q.count) * SECTOR_SIZE
  }

  /** A step that does not start on a sector boundary and runs into the next
      sector is not covered by the request as written: byte 512 of a block
      read from offset 511 for two bytes is in no requested sector. */
  lemma UnalignedStepUncovered(fs: Ext2Fs, ptrs: seq<nat>)
    requires fs.blockSize == 4096 && |ptrs| == DIRECT_POINTERS
    ensures !RequestCovers(fs, ptrs, Chunk(0, 511, 2), RequestAsWritten(fs, ptrs, Chunk(0, 511, 2)))
  {
    var q := RequestAsWritten(fs, ptrs, Chunk(0, 511, 2));
    assert q.count == 1;
  }

  /** The request for a step, counting sectors from the one holding the
      step's first byte to the one holding its last. */
  function Request(fs: Ext2Fs, ptrs: seq<nat>, c: Chunk): (q: SectorRead)
    requires c.blockIndex < |ptrs|
    requires fs.blockSize == 4096
    ensures RequestCovers(fs, ptrs, c, q)
    ensures c.offsetInBlock % SECTOR_SIZE == 0 ==> q == RequestAsWritten(fs, ptrs, c)
  {
    var within := c.offsetInBlock % SECTOR_SIZE;
    SectorRead(BidToSector(fs, ptrs[c.blockIndex]) + c.offsetInBlock / SECTOR_SIZE,
               (within + c.toRead + SECTOR_SIZE - 1) / SECTOR_SIZE)
  }

  /**
   * Every step of a walk after the first starts at a block boundary, so
   * its request as written is the corrected one and covers the step; so is
   * the first step's when the walk starts on a sector boundary. Only an
   * unaligned first step can be short of its last sector.
   */
  lemma PlanRequestsAgree(fs: Ext2Fs, ptrs: seq<nat>, blockIndex: nat, offsetInBlock: nat, remaining: nat)
    requires |ptrs| == DIRECT_POINTERS && fs.blockSize == 4096 && offsetInBlock < fs.blockSize
    ensures var plan := Plan(ptrs, fs.blockSize, blockIndex, offsetInBlock, remaining);
      forall k :: 0 <= k < |plan| && (k > 0 || offsetInBlock % SECTOR_SIZE == 0) ==>
        && plan[k].blockIndex < DIRECT_POINTERS
        && RequestAsWritten(fs, ptrs, plan[k]) == Request(fs, ptrs, plan[k])
        && RequestCovers(fs, ptrs, plan[k], RequestAsWritten(fs, ptrs, plan[k]))
  {
    PlanShape(ptrs, fs.blockSize, blockIndex, offsetInBlock, remaining);
  }

  /** A block is a whole number of sectors, so an offset's place in its
      sector is the same counted from the block or from the file. */
  lemma SectorOffsetInBlock(offset: nat)
    ensures offset % 4096 % SECTOR_SIZE == offset % SECTOR_SIZE
  {
    var r := offset % 4096;
    var m := (offset / 4096) * 8 + r / SECTOR_SIZE;
    assert offset == m * SECTOR_SIZE + r % SECTOR_SIZE;
    ModuloOfDecomposition(offset, m, r % SECTOR_SIZE);
  }

  /** `x = m * 512 + b` with `b < 512` leaves `b` over. */
  lemma ModuloOfDecomposition(x: nat, m: nat, b: nat)
    requires x == m * SECTOR_SIZE + b && b < SECTOR_SIZE
    ensures x % SECTOR_SIZE == b
  {
  }

  /**
   * The loop of `read_at`: from direct block `blockIndex`, `offsetInBlock`
   * into it, for `maxToRead` bytes, one device request per step of the
   * walk; the bytes read are those the walk covers.
   */
  method WalkBlocks(fs: Ext2Fs, ptrs: seq<nat>, blockIndex: nat, offsetInBlock: nat, maxToRead: nat)
    returns (bytesRead: nat, requests: seq<SectorRead>)
    requires |ptrs| == DIRECT_POINTERS && fs.blockSize == 4096 && offsetInBlock < fs.blockSize
    ensures var plan := Plan(ptrs, fs.blockSize, blockIndex, offsetInBlock, maxToRead);
      && bytesRead == Total(plan)
      && |requests| == |plan|
      && forall k :: 0 <= k < |plan| ==>
           (plan[k].blockIndex < DIRECT_POINTERS && requests[k] == RequestAsWritten(fs, ptrs, plan[k]))
  {
    var blockSize := fs.blockSize;
    ghost var plan := Plan(ptrs, blockSize, blockIndex, offsetInBlock, maxToRead);
    PlanShape(ptrs, blockSize, blockIndex, offsetInBlock, maxToRead);
    ghost var rest := plan;
    var index: nat := blockIndex;
    var within: nat := offsetInBlock;
    bytesRead := 0;
    requests := [];
    while bytesRead < maxToRead
      invariant within < blockSize && bytesRead <= maxToRead
      invariant rest == Plan(ptrs, blockSize, index, within, maxToRead - bytesRead)
      invariant |requests| <= |plan| && rest == plan[|requests|..]
      invariant bytesRead + Total(rest) == Total(plan)
      invariant forall k :: 0 <= k < |requests| ==> requests[k] == RequestAsWritten(fs, ptrs, plan[k])
      decreases maxToRead - bytesRead
    {
      if index >= DIRECT_POINTERS {
        PlanStops(ptrs, blockSize, index, within, maxToRead - bytesRead);
        break;
      }
      var blockPtr := ptrs[index];
      if blockPtr == 0 {
        PlanStops(ptrs, blockSize, index, within, maxToRead - bytesRead);
        break;
      }
      var remainingInFile := maxToRead - bytesRead;
      var toRead := Min(blockSize - within, remainingInFile);
      var step := Chunk(index, within, toRead);
      PlanStep(ptrs, blockSize, index, within, remainingInFile);
      assert plan[|requests|] == step;
      requests := requests + [RequestAsWritten(fs, ptrs, step)];
      bytesRead := bytesRead + toRead;
      within := 0;
      index := index + 1;
      rest := rest[1..];
    }
    assert rest == [];
  }

  /**
   * `read_at(offset, writer)` with a writer of `avail` bytes: EISDIR unless
   * the inode is a regular file; nothing at or past the end. Otherwise the
   * direct blocks are walked from the one holding `offset` for
   * `min(avail, size - offset)` bytes, one device request per step, and the
   * bytes the walk covered are returned.
   */
  method ReadAt(inode: Inode, fs: Ext2Fs, offset: nat, avail: nat) returns (r: Result<nat>, requests: seq<SectorRead>)
    requires WellFormed(inode.raw) && fs.blockSize == 4096
    ensures inode.typ != File ==> r == Err(EISDIR) && requests == []
    ensures inode.typ == File && offset >= Size(inode) ==> r == Ok(0) && requests == []
    ensures inode.typ == File && offset < Size(inode) ==>
      var plan := Plan(inode.raw.directPointers, fs.blockSize, offset / fs.blockSize, offset % fs.blockSize,
                       Min(avail, Size(inode) - offset));
      && r == Ok(Total(plan))
      && |requests| == |plan|
      && (forall k :: 0 <= k < |plan| ==>
           (plan[k].blockIndex < DIRECT_POINTERS && requests[k] == RequestAsWritten(fs, inode.raw.directPointers, plan[k])))
      && (forall k :: 0 <= k < |plan| && (k > 0 || offset % SECTOR_SIZE == 0) ==>
           (plan[k].blockIndex < DIRECT_POINTERS && RequestCovers(fs, inode.raw.directPointers, plan[k], requests[k])))
  {
    if inode.typ != File {
      return Err(EISDIR), [];
    }
    var fileSize := Size(inode);
    if offset >= fileSize {
      return Ok(0), [];
    }
    var maxToRead := Min(avail, fileSize - offset);
    var bytesRead;
    bytesRead, requests := WalkBlocks(fs, inode.raw.directPointers, offset / fs.blockSize, offset % fs.blockSize, maxToRead);
    PlanRequestsAgree(fs, inode.raw.directPointers, offset / fs.blockSize, offset % fs.blockSize, maxToRead);
    SectorOffsetInBlock(offset);
    r := Ok(bytesRead);
  }
}
