/**
 * Page-fault handlers: the policy an area uses to turn one fault into one
 * resident page. The kernel has three: the default handler, which refuses
 * every fault; the allocation handler, which maps a zero-filled frame; and
 * the inode handler of `sys_mmap`, which fills the frame with one page of a
 * file. mm/fault.rs is not part of this model: the first two follow the
 * design description of the subsystem.
 */
module Fault {
  import opened Common
  import opened FileData

  /** An inode as the address space sees it. */
  type InodeId = nat

  datatype FaultHandler =
    | Deny                                      // DefaultPageFaultHandler
    | Allocation                                // AllocationPageFaultHandler
    | InodeBacked(baseVaddr: nat, inode: InodeId)  // MMapInodeFaultHandler

  /** What a resolved fault installs: the page it maps and the bytes of the
      fresh frame behind it. */
  datatype Fill = Fill(page: nat, contents: Bytes)

  /** Byte `k` of the file `data`, or 0 past its end. */
  function ByteOrZero(data: Bytes, k: nat): byte {
    if k < |data| then data[k] else 0
  }

  /**
   * The inode handler reads from the inode at `align_down(vaddr) - base`, so
   * it needs the inode to be a readable file and the page not to lie below
   * its base (otherwise the `read_at(..).unwrap()` or the subtraction would
   * abort the kernel).
   */
  predicate CanResolve(h: FaultHandler, vaddr: nat, files: map<InodeId, Bytes>) {
    h.InodeBacked? ==> h.inode in files && h.baseVaddr <= AlignDown(vaddr)
  }

  /**
   * One fault at `vaddr` under handler `h`; `files` gives the current
   * contents of every regular file an inode handler can name. The default
   * handler fails; the others fill the page that contains `vaddr`: with
   * zeros, or with the file's bytes at offset `align_down(vaddr) - base`
   * followed by zeros where the file ends (a read at or past the end of the
   * file stores nothing and the frame stays zeroed).
   */
  function Resolve(h: FaultHandler, vaddr: nat, files: map<InodeId, Bytes>): (r: Option<Fill>)
    requires CanResolve(h, vaddr, files)
    ensures r.None? <==> h.Deny?
    ensures r.Some? ==> r.value.page == AlignDown(vaddr) && |r.value.contents| == PAGE_SIZE
    ensures h.Allocation? ==> r == Some(Fill(AlignDown(vaddr), Zeros(PAGE_SIZE)))
    ensures h.InodeBacked? ==>
      forall i :: 0 <= i < PAGE_SIZE ==>
        r.value.contents[i] == ByteOrZero(files[h.inode], AlignDown(vaddr) - h.baseVaddr + i)
  {
    match h
    case Deny => None
    case Allocation => Some(Fill(AlignDown(vaddr), Zeros(PAGE_SIZE)))
    case InodeBacked(base, ino) =>
      var got := ReadRange(files[ino], AlignDown(vaddr) - base, PAGE_SIZE);
      Some(Fill(AlignDown(vaddr), got + Zeros(PAGE_SIZE - |got|)))
  }
}
