/**
 * `sys_mmap`: check the arguments, choose the fault handler of a new lazy
 * area, and append that area to the address space. No page is mapped here;
 * the handler maps one page per fault. The process's file table is given
 * as a map from descriptor to what the descriptor's file is.
 */
module Mmap {
  import opened Common
  import opened PageFlags
  import opened Mapping
  import opened Fault
  import opened Area
  import opened Frames
  import opened MemorySpace

  const MAP_PRIVATE: bv32 := 0x02
  /** The mapping-type bits of the flags. */
  const MAP_TYPE: bv32 := 0x0f
  const MAP_ANONYMOUS: bv32 := 0x20

  /** What an open descriptor's file is, as far as `as_inode()` can tell. */
  datatype OpenFile = InodeFile(inode: InodeId) | NotAnInode

  type FileTable = map<nat, OpenFile>

  /** A nonzero address that is not page-aligned. */
  predicate Misaligned(vaddr: nat) { vaddr != 0 && !PageAligned(vaddr) }

  /** The mapping type is MAP_PRIVATE, the only one supported. */
  predicate PrivateMapping(flags: bv32) { flags & MAP_TYPE == MAP_PRIVATE }

  predicate Anonymous(flags: bv32) { flags & MAP_ANONYMOUS != 0 }

  /** Descriptor `fd` is open and its file is an inode. */
  predicate NamesInode(table: FileTable, fd: nat) { fd in table && table[fd].InodeFile? }

  /**
   * The area `sys_mmap` would add, or its error: EINVAL for a misaligned
   * nonzero address or a mapping that is not private, then EBADF when the
   * mapping is not anonymous and `fd` does not name an inode. An anonymous
   * area gets the zero-filling handler; a file area the inode handler based
   * at `vaddr`. `offset` is accepted and ignored.
   */
  function MmapArea(vaddr: nat, length: nat, perms: nat, flags: bv32, fd: nat, offset: nat, table: FileTable)
    : (r: Result<VmArea>)
    ensures r.Ok? <==> !Misaligned(vaddr) && PrivateMapping(flags) && (Anonymous(flags) || NamesInode(table, fd))
    ensures r.Err? ==> (r.errno == EINVAL <==> Misaligned(vaddr) || !PrivateMapping(flags))
    ensures r.Err? ==> r.errno == EINVAL || r.errno == EBADF
    ensures r.Ok? ==>
      && r.value.baseVaddr == vaddr && PageAligned(vaddr)
      && r.value.pages == PagesFor(length)
      && r.value.perms == FromBitsTruncate(perms)
      && r.value.mappings == []
      && r.value.handler == (if Anonymous(flags) then Allocation else InodeBacked(vaddr, table[fd].inode))
      && r.value.Wf()
  {
    if Misaligned(vaddr) then Err(EINVAL)
    else if !PrivateMapping(flags) then Err(EINVAL)
    else
      var handler :=
        if Anonymous(flags) then Ok(Allocation)
        else if fd !in table then Err(EBADF)
        else match table[fd]
          case NotAnInode => Err(EBADF)
          case InodeFile(ino) => Ok(InodeBacked(vaddr, ino));
      if handler.Err? then Err(handler.errno)
      else Ok(NewWithHandler(vaddr, AlignUp(length) / PAGE_SIZE, FromBitsTruncate(perms), handler.value))
  }

  /**
   * `sys_mmap`: on success exactly one area is appended and `vaddr` is
   * returned; on an error the address space is untouched. The page table
   * never changes.
   */
  method SysMmap(ms: MemorySpace, table: FileTable, vaddr: nat, length: nat, perms: nat, flags: bv32, fd: nat,
                 offset: nat) returns (r: Result<nat>)
    modifies ms
    ensures var area := MmapArea(vaddr, length, perms, flags, fd, offset, table);
      && (r.Ok? <==> area.Ok?)
      && (r.Ok? ==> r.value == vaddr && ms.areas == old(ms.areas) + [area.value])
      && (r.Err? ==> r.errno == area.errno && ms.areas == old(ms.areas))
    ensures ms.pageTable == old(ms.pageTable)
  {
    if vaddr != 0 && AlignDown(vaddr) != vaddr {
      return Err(EINVAL);
    }
    if flags & MAP_TYPE != MAP_PRIVATE {
      return Err(EINVAL);
    }
    var pageFlags := FromBitsTruncate(perms);
    var pages := AlignUp(length) / PAGE_SIZE;
    var handler: FaultHandler;
    if flags & MAP_ANONYMOUS != 0 {
      handler := Allocation;
    } else {
      if fd !in table || table[fd].NotAnInode? {
        return Err(EBADF);
      }
      handler := InodeBacked(vaddr, table[fd].inode);
    }
    ms.AddArea(NewWithHandler(vaddr, pages, pageFlags, handler));
    r := Ok(vaddr);
  }

  /**
   * The inode handler's page holds the file at the right offset: after a
   * fault at `v`, every address `a` on the same page shows the file's byte
   * at `a - base`, or 0 past the end of the file.
   */
  lemma InodeFaultMapsFileOffset(base: nat, ino: InodeId, files: map<InodeId, Bytes>, v: nat, a: nat)
    requires ino in files && base <= AlignDown(v) && AlignDown(a) == AlignDown(v)
    ensures Resolve(InodeBacked(base, ino), v, files).value.contents[a % PAGE_SIZE]
         == ByteOrZero(files[ino], a - base)
  {
    assert AlignDown(v) - base + a % PAGE_SIZE == a - base;
  }

  /**
   * A file-backed mmap at an aligned address with its base page in the
   * area, faulted in by a load at `v` of that page: the resolved fault reads
   * the file from offset `AlignDown(v) - vaddr`, and so, through the new
   * entry, the byte at each address of the page is the file's byte at its
   * distance from `vaddr`.
   */
  lemma MmapFileFaultReadsFile(vaddr: nat, length: nat, perms: nat, flags: bv32, fd: nat, offset: nat,
                               table: FileTable, files: map<InodeId, Bytes>, v: nat, a: nat, frame: FrameId)
    requires MmapArea(vaddr, length, perms, flags, fd, offset, table).Ok? && !Anonymous(flags)
    requires table[fd].inode in files
    requires MmapArea(vaddr, length, perms, flags, fd, offset, table).value.ContainsVaddr(v)
    requires AlignDown(a) == AlignDown(v)
    ensures var area := MmapArea(vaddr, length, perms, flags, fd, offset, table).value;
      && CanResolve(area.handler, v, files)
      && var (_, fill) := area.HandlePageFault(v, files, frame).value;
      && fill.page == AlignDown(v)
      && ByteAt(map[fill.page := Pte(frame, area.perms)], map[frame := fill.contents], a)
         == ByteOrZero(files[table[fd].inode], a - vaddr)
  {
    var area := MmapArea(vaddr, length, perms, flags, fd, offset, table).value;
    assert vaddr <= AlignDown(v) by {
      assert PageAligned(vaddr);
      assert (v - vaddr) % PAGE_SIZE == v % PAGE_SIZE;
    }
    InodeFaultMapsFileOffset(vaddr, table[fd].inode, files, v, a);
  }
}
