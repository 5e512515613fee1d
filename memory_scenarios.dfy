/**
 * End-to-end runs of the address space on fresh objects: fork isolation,
 * demand faults and permission changes, each from an empty physical memory.
 * Each run is split into steps with exact contracts, so that every step is
 * checked on its own.
 */
module MemoryScenarios {
  import opened Common
  import opened PageFlags
  import opened Mapping
  import opened Fault
  import opened Area
  import opened Frames
  import opened MemorySpace
  import opened Mmap
  import opened Mprotect

  const RW: Flags := R | W | U | V
  const RO: Flags := R | U | V

  /** The two-page table at 0x1000 and 0x2000 over frames `f0` and `f1`. */
  function TwoPages(f0: FrameId, f1: FrameId, perms: Flags): PageTable {
    map[0x1000 := Pte(f0, perms), 0x2000 := Pte(f1, perms)]
  }

  /** Step: `map` a two-page area at 0x1000 into an empty space. */
  method MapTwoPages() returns (mem: PhysMemory, ms: MemorySpace)
    ensures fresh(mem) && fresh(ms) && mem.Valid()
    ensures ms.areas == [TWO_PAGE_AREA]
    ensures ms.pageTable == TwoPages(0, 1, RW)
    ensures mem.frames == map[0 := Zeros(PAGE_SIZE), 1 := Zeros(PAGE_SIZE)]
    ensures mem.next == 2 && mem.free == 6
  {
    mem := new PhysMemory(8);
    ms := new MemorySpace();
    var frames := ms.Map(New(0x1000, 2, RW), mem);
    TwoPageMapTable(ms.pageTable, map[], frames);
    TwoPageMappings(New(0x1000, 2, RW), frames);
    assert ms.areas == [TWO_PAGE_AREA];
    assert mem.frames.Keys == {0, 1};
  }

  /** The page table `map` builds for the two-page area in an empty space. */
  lemma TwoPageMapTable(pt: PageTable, pt0: PageTable, frames: seq<FrameId>)
    requires |frames| == 2 && frames[0] == 0 && frames[1] == 1
    requires forall v :: v in pt <==> v in pt0 || OnPage(0x1000, 2, v)
    requires forall v :: v in pt ==>
      pt[v] == if OnPage(0x1000, 2, v) then Pte(frames[(v - 0x1000) / PAGE_SIZE], RW) else pt0[v]
    requires pt0 == map[]
    ensures pt == TwoPages(0, 1, RW)
  {
    assert forall v :: OnPage(0x1000, 2, v) <==> v == 0x1000 || v == 0x2000;
    assert pt.Keys == {0x1000, 0x2000};
  }

  /** The mappings `map` records for the two-page area. */
  lemma TwoPageMappings(area: VmArea, frames: seq<FrameId>)
    requires area == New(0x1000, 2, RW)
    requires |frames| == 2 && frames[0] == 0 && frames[1] == 1
    ensures area.(mappings := area.mappings + seq(area.pages, k requires 0 <= k < area.pages => PageMapping(area, frames, k)))
         == TWO_PAGE_AREA
  {
    var ms := area.mappings + seq(area.pages, k requires 0 <= k < area.pages => PageMapping(area, frames, k));
    assert ms[0] == VmMapping(0x1000, 0, RW) && ms[1] == VmMapping(0x2000, 1, RW);
    assert ms == TWO_PAGE_AREA.mappings;
  }

  /** Step: one write of one byte at the start of each of the two pages. */
  method WriteBoth(ms: MemorySpace, mem: PhysMemory, f0: FrameId, f1: FrameId, b0: byte, b1: byte)
    requires mem.Valid() && ms.pageTable == TwoPages(f0, f1, RW)
    requires f0 != f1 && f0 in mem.frames && f1 in mem.frames
    modifies mem
    ensures mem.Valid() && mem.next == old(mem.next) && mem.free == old(mem.free)
    ensures mem.frames == old(mem.frames)[f0 := old(mem.frames)[f0][0 := b0]][f1 := old(mem.frames)[f1][0 := b1]]
  {
    var w := ms.Writer(mem, 0x1000, [b0]);
    assert Accessible(ms.pageTable, old(mem.frames), 0x1000, 1, W);
    ghost var mid := mem.frames;
    assert mid == old(mem.frames)[f0 := old(mem.frames)[f0][0 := b0]];
    w := ms.Writer(mem, 0x2000, [b1]);
    assert Accessible(ms.pageTable, mid, 0x2000, 1, W);
  }

  /** The two-page area `MapTwoPages` leaves. */
  const TWO_PAGE_AREA: VmArea := VmArea(0x1000, 2, RW, [VmMapping(0x1000, 0, RW), VmMapping(0x2000, 1, RW)], Deny)

  /** The page table `duplicate` builds for the two-page space: the same
      two pages, behind the copies' frames. */
  lemma TwoPageTable(dst: seq<VmArea>, pt: PageTable, owner: map<nat, (nat, nat)>, first: FrameId)
    requires |dst| == 1 && |dst[0].mappings| == 2
    requires dst[0].mappings[0].frame == first && dst[0].mappings[1].frame == first + 1
    requires OwnedTable([TWO_PAGE_AREA], dst, pt, owner, 1)
    ensures pt == TwoPages(first, first + 1, RW)
  {
    var src := [TWO_PAGE_AREA];
    assert src[0].mappings[0].baseVaddr == 0x1000 && src[0].mappings[1].baseVaddr == 0x2000;
    forall v | v in pt
      ensures v == 0x1000 || v == 0x2000
      ensures v == 0x1000 ==> pt[v] == Pte(first, RW)
      ensures v == 0x2000 ==> pt[v] == Pte(first + 1, RW)
    {
      var (j, k) := owner[v];
      assert j == 0 && k < 2;
    }
    assert 0x1000 in pt && 0x2000 in pt;
    assert pt.Keys == {0x1000, 0x2000};
  }

  /** The frames `duplicate` allocates for the two-page space: `first` and
      `first + 1`, holding copies of frames 0 and 1. */
  lemma TwoPageFrames(dst: seq<VmArea>, first: FrameId, frames: map<FrameId, Bytes>, oldFrames: map<FrameId, Bytes>)
    requires CopiedPrefix([TWO_PAGE_AREA], dst, first, frames, oldFrames, 1)
    ensures |dst| == 1 && |dst[0].mappings| == 2
    ensures dst[0].mappings[0].frame == first && dst[0].mappings[1].frame == first + 1
    ensures first in frames && first + 1 in frames && 0 in oldFrames && 1 in oldFrames
    ensures frames[first] == oldFrames[0] && frames[first + 1] == oldFrames[1]
  {
    var src := [TWO_PAGE_AREA];
    assert Offset(src, 0) == 0 by {
      assert src[..0] == [];
    }
    assert CopyFrameId(src, first, 0, 0) == first && CopyFrameId(src, first, 0, 1) == first + 1;
    assert src[0].mappings[0].frame == 0 && src[0].mappings[1].frame == 1;
  }

  /** Frames 0 and 1 kept, 2 and 3 added as their copies, and nothing else:
      the physical memory after duplicating the two-page space. */
  lemma TwoCopiesAdded(frames: map<FrameId, Bytes>, oldFrames: map<FrameId, Bytes>)
    requires oldFrames.Keys == {0, 1}
    requires forall id :: id in frames ==> id < 4
    requires forall id :: id in oldFrames ==> id in frames && frames[id] == oldFrames[id]
    requires 2 in frames && 3 in frames && frames[2] == oldFrames[0] && frames[3] == oldFrames[1]
    ensures frames == oldFrames[2 := oldFrames[0]][3 := oldFrames[1]]
  {
    assert frames.Keys == {0, 1, 2, 3};
  }

  /** Step: `duplicate` the two-page space; the child gets frames 2 and 3. */
  method DuplicateTwoPages(ms: MemorySpace, mem: PhysMemory) returns (child: MemorySpace)
    requires mem.Valid() && mem.next == 2 && mem.free == 6 && mem.frames.Keys == {0, 1}
    requires ms.areas == [TWO_PAGE_AREA]
    modifies mem
    ensures fresh(child) && mem.Valid()
    ensures child.pageTable == TwoPages(2, 3, RW)
    ensures mem.frames == old(mem.frames)[2 := old(mem.frames)[0]][3 := old(mem.frames)[1]]
    ensures mem.next == 4 && mem.free == 4
  {
    assert TotalMappings(ms.areas) == 2 by {
      assert ms.areas[..0] == [];
    }
    ghost var owner;
    child, owner := ms.Duplicate(mem);
    TwoPageFrames(child.areas, 2, mem.frames, old(mem.frames));
    TwoPageTable(child.areas, child.pageTable, owner, 2);
    TwoCopiesAdded(mem.frames, old(mem.frames));
  }

  /** A one-byte read at the start of a readable page yields the frame's
      first byte. */
  lemma ReadFirstByte(pt: PageTable, frames: map<FrameId, Bytes>, page: nat, f: FrameId, perms: Flags)
    requires page % PAGE_SIZE == 0 && page in pt && pt[page] == Pte(f, perms) && Has(perms, R)
    requires f in frames && |frames[f]| > 0
    ensures ReadUser(pt, frames, page, 1) == Ok([frames[f][0]])
  {
    assert AlignDown(page) == page;
    assert CanAccess(pt, frames, page, R);
    assert Accessible(pt, frames, page, 1, R);
    assert ByteAt(pt, frames, page + 0) == frames[f][0];
    var r := ReadUser(pt, frames, page, 1);
    assert |r.value| == 1 && r.value[0] == frames[f][0];
    assert r.value == [frames[f][0]];
  }

  /**
   * `duplicate` is an eager deep copy: a two-page area is mapped and given
   * one byte per page, the space is duplicated, and the child overwrites
   * both bytes. The parent still reads its own bytes; the child reads the
   * new ones.
   */
  method DuplicateIsolation() returns (parent0: Result<Bytes>, parent1: Result<Bytes>,
                                       child0: Result<Bytes>, child1: Result<Bytes>)
    ensures parent0 == Ok([0xA]) && parent1 == Ok([0xB])
    ensures child0 == Ok([0xC]) && child1 == Ok([0xD])
  {
    var mem, ms := MapTwoPages();
    WriteBoth(ms, mem, 0, 1, 0xA, 0xB);
    var child := DuplicateTwoPages(ms, mem);
    WriteBoth(child, mem, 2, 3, 0xC, 0xD);
    assert Has(RW, R);
    ReadFirstByte(ms.pageTable, mem.frames, 0x1000, 0, RW);
    ReadFirstByte(ms.pageTable, mem.frames, 0x2000, 1, RW);
    ReadFirstByte(child.pageTable, mem.frames, 0x1000, 2, RW);
    ReadFirstByte(child.pageTable, mem.frames, 0x2000, 3, RW);
    parent0 := ms.Reader(mem, 0x1000, 1);
    parent1 := ms.Reader(mem, 0x2000, 1);
    child0 := child.Reader(mem, 0x1000, 1);
    child1 := child.Reader(mem, 0x2000, 1);
  }

  /** Step: an address space holding one lazy anonymous page at 0x4000,
      faulted in by a store at 0x4008. */
  method FaultInAnonymousPage() returns (mem: PhysMemory, ms: MemorySpace, before: Result<Bytes>, ok: bool)
    ensures fresh(mem) && fresh(ms) && mem.Valid()
    ensures before == Err(EFAULT)
    ensures ok
    ensures ms.areas == [VmArea(0x4000, 1, RW, [VmMapping(0x4000, 0, RW)], Allocation)]
    ensures ms.pageTable == map[0x4000 := Pte(0, RW)]
    ensures mem.frames == map[0 := Zeros(PAGE_SIZE)] && mem.next == 1 && mem.free == 3
  {
    mem := new PhysMemory(4);
    ms := new MemorySpace();
    ms.AddArea(NewWithHandler(0x4000, 1, RW, Allocation));
    before := ms.Reader(mem, 0x4008, 1);
    assert !CanAccess(ms.pageTable, mem.frames, 0x4008, R);
    assert ms.areas[0].ContainsVaddr(0x4008);
    assert FirstCovering(ms.areas, 0x4008) == Some(0);
    assert AlignDown(0x4008) == 0x4000;
    ok := PageFaultHandler(ms, mem, StorePageFault, 0x4008, map[]);
  }

  /**
   * Demand paging of an anonymous area: before the fault no entry exists
   * and a read fails; the store fault maps a zeroed page, after which the
   * write succeeds and reads back. A non-page-fault exception, and a page
   * fault outside every area, both stay unresolved.
   */
  method AnonymousDemandFault() returns (before: Result<Bytes>, ok: bool, written: Result<()>,
                                         after: Result<Bytes>, notAFault: bool, outside: bool)
    ensures before == Err(EFAULT) && ok
    ensures written.Ok? && after == Ok([0x5A])
    ensures !notAFault && !outside
  {
    var mem, ms;
    mem, ms, before, ok := FaultInAnonymousPage();
    assert CanAccess(ms.pageTable, mem.frames, 0x4008, W);
    assert Accessible(ms.pageTable, mem.frames, 0x4008, 1, W);
    written := ms.Writer(mem, 0x4008, [0x5A]);
    assert mem.frames[0][8] == 0x5A;
    after := ms.Reader(mem, 0x4008, 1);
    assert CanAccess(ms.pageTable, mem.frames, 0x4008, R);
    assert after.value[0] == 0x5A;
    assert after.value == [0x5A];
    notAFault := PageFaultHandler(ms, mem, IllegalInstruction, 0x4008, map[]);
    assert FirstCovering(ms.areas, 0x9000) == None;
    outside := PageFaultHandler(ms, mem, LoadPageFault, 0x9000, map[]);
  }

  const HELLO: Bytes := [0x68, 0x65, 0x6c, 0x6c, 0x6f]

  /** Step: `mmap` five bytes of descriptor 3 (inode 7) at 0x10000 into an
      empty space; the area comes without mappings. */
  method MmapHelloArea() returns (mem: PhysMemory, ms: MemorySpace, r: Result<nat>)
    ensures fresh(mem) && fresh(ms) && mem.Valid()
    ensures r == Ok(0x10000)
    ensures ms.areas == [VmArea(0x10000, 1, R | W, [], InodeBacked(0x10000, 7))]
    ensures ms.pageTable == map[] && mem.frames == map[] && mem.next == 0 && mem.free == 4
  {
    mem := new PhysMemory(4);
    ms := new MemorySpace();
    r := SysMmap(ms, map[3 := InodeFile(7)], 0x10000, 5, 3, 0x02, 3, 0);
    assert PagesFor(5) == 1;
  }

  /** Step: a load fault at 0x10002 pulls the page of "hello" in. */
  method MmapHello() returns (mem: PhysMemory, ms: MemorySpace, r: Result<nat>, before: Result<Bytes>, ok: bool)
    ensures fresh(mem) && fresh(ms) && mem.Valid()
    ensures r == Ok(0x10000) && before == Err(EFAULT) && ok
    ensures ms.pageTable == map[0x10000 := Pte(0, R | W)]
    ensures 0 in mem.frames && |mem.frames[0]| == PAGE_SIZE
    ensures forall i :: 0 <= i < PAGE_SIZE ==> mem.frames[0][i] == ByteOrZero(HELLO, i)
  {
    mem, ms, r := MmapHelloArea();
    before := ms.Reader(mem, 0x10000, 5);
    assert !CanAccess(ms.pageTable, mem.frames, 0x10000, R);
    assert FirstCovering(ms.areas, 0x10002) == Some(0);
    assert AlignDown(0x10002) == 0x10000;
    ok := PageFaultHandler(ms, mem, LoadPageFault, 0x10002, map[7 := HELLO]);
  }

  /**
   * A private file mapping: the area is lazy (a read fails before the
   * fault), the load fault fills the page from the file, and the page then
   * reads back "hello" followed by zeros past the end of the file.
   */
  method FileBackedDemandFault() returns (r: Result<nat>, before: Result<Bytes>, ok: bool,
                                          hello: Result<Bytes>, past: Result<Bytes>)
    ensures r == Ok(0x10000) && before == Err(EFAULT) && ok
    ensures hello == Ok(HELLO) && past == Ok([0, 0])
  {
    var mem, ms;
    mem, ms, r, before, ok := MmapHello();
    assert Accessible(ms.pageTable, mem.frames, 0x10000, 5, R);
    hello := ms.Reader(mem, 0x10000, 5);
    assert forall i :: 0 <= i < 5 ==> hello.value[i] == mem.frames[0][i];
    assert hello.value == HELLO;
    assert Accessible(ms.pageTable, mem.frames, 0x10005, 2, R);
    past := ms.Reader(mem, 0x10005, 2);
    assert past.value[0] == mem.frames[0][5] && past.value[1] == mem.frames[0][6];
    assert past.value == [0, 0];
  }

  /**
   * `mprotect(PROT_READ)` over a written anonymous page: stores now fault,
   * loads still see the byte, and the area's mask (and its mapping's)
   * becomes read-only.
   */
  method MprotectReadOnly() returns (r: Result<nat>, written: Result<()>, read: Result<Bytes>,
                                     areaPerms: Flags, mappingPerms: Flags)
    ensures r == Ok(0) && written == Err(EFAULT) && read == Ok([0x5A])
    ensures areaPerms == RO && mappingPerms == RO
  {
    var mem, ms, before, ok := FaultInAnonymousPage();
    var w := ms.Writer(mem, 0x4008, [0x5A]);
    assert CanAccess(ms.pageTable, mem.frames, 0x4008, W);
    assert mem.frames[0][8] == 0x5A;
    r := SysMprotect(ms, 0x4000, PAGE_SIZE, PROT_READ);
    assert TranslateProtFlags(PROT_READ) == RO;
    assert ms.pageTable == map[0x4000 := Pte(0, RO)];
    assert !CanAccess(ms.pageTable, mem.frames, 0x4008, W);
    written := ms.Writer(mem, 0x4008, [0x11]);
    assert mem.frames[0][8] == 0x5A;
    read := ms.Reader(mem, 0x4008, 1);
    assert CanAccess(ms.pageTable, mem.frames, 0x4008, R);
    assert read.value[0] == 0x5A;
    assert read.value == [0x5A];
    areaPerms := ms.areas[0].perms;
    mappingPerms := ms.areas[0].mappings[0].perms;
  }
}
