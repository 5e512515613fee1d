/**
 * `MemorySpace`: one process's address space. It owns a page table, modelled
 * as a map from page address to page-table entry, and the list of its
 * areas in insertion order. Physical frames live in a shared `PhysMemory`.
 */
module MemorySpace {
  import opened Common
  import opened PageFlags
  import opened Mapping
  import opened Fault
  import opened Area
  import opened Frames

  /** One page-table entry: the frame it maps and its permissions
      (`PageProperty::new_user(perms, ..)`). */
  datatype Pte = Pte(frame: FrameId, perms: Flags)

  type PageTable = map<nat, Pte>

  /** ostd's bound for user addresses. */
  const MAX_USERSPACE_VADDR: nat := 0x0000_8000_0000_0000 - PAGE_SIZE

  /** A range a page-table cursor accepts: page-aligned at both ends and
      inside user space. Every cursor in this code is created with
      `.unwrap()`, so the operations below require it of their callers. */
  predicate CursorRange(start: nat, end: nat) {
    PageAligned(start) && PageAligned(end) && start <= end <= MAX_USERSPACE_VADDR
  }

  /** Address `a` is backed by an entry that grants `need` and whose frame exists. */
  predicate CanAccess(pt: PageTable, frames: map<FrameId, Bytes>, a: nat, need: Flags) {
    var page := AlignDown(a);
    page in pt && Has(pt[page].perms, need) && pt[page].frame in frames
  }

  /** Every address of `[vaddr, vaddr + len)` can be accessed with `need`. */
  predicate Accessible(pt: PageTable, frames: map<FrameId, Bytes>, vaddr: nat, len: nat, need: Flags) {
    forall a :: vaddr <= a < vaddr + len ==> CanAccess(pt, frames, a, need)
  }

  /** The frame behind address `a`. */
  function FrameOf(pt: PageTable, a: nat): FrameId
    requires AlignDown(a) in pt
  {
    pt[AlignDown(a)].frame
  }

  /** The byte behind address `a`: the byte at `a`'s page offset in the frame
      its page maps to, or 0 where there is none. */
  function ByteAt(pt: PageTable, frames: map<FrameId, Bytes>, a: nat): byte {
    var page := AlignDown(a);
    if page in pt && pt[page].frame in frames && a % PAGE_SIZE < |frames[pt[page].frame]|
    then frames[pt[page].frame][a % PAGE_SIZE]
    else 0
  }

  /**
   * What a reader over `[vaddr, vaddr + len)` delivers: the bytes behind
   * every address, or EFAULT when some address of the range is not mapped
   * readable.
   */
  function ReadUser(pt: PageTable, frames: map<FrameId, Bytes>, vaddr: nat, len: nat): (r: Result<Bytes>)
    ensures r.Ok? <==> Accessible(pt, frames, vaddr, len, R)
    ensures r.Err? ==> r.errno == EFAULT
    ensures r.Ok? ==> |r.value| == len && forall i :: 0 <= i < len ==> r.value[i] == ByteAt(pt, frames, vaddr + i)
  {
    if Accessible(pt, frames, vaddr, len, R) then
      Ok(seq(len, i requires 0 <= i < len => ByteAt(pt, frames, vaddr + i)))
    else
      Err(EFAULT)
  }

  /** No two pages touched by `[vaddr, vaddr + len)` share a frame. */
  predicate DistinctFramesOver(pt: PageTable, vaddr: nat, len: nat) {
    forall a, b :: vaddr <= a < vaddr + len && vaddr <= b < vaddr + len
      && AlignDown(a) in pt && AlignDown(b) in pt && AlignDown(a) != AlignDown(b)
      ==> FrameOf(pt, a) != FrameOf(pt, b)
  }

  /** The frames a page table refers to. */
  function FramesOf(pt: PageTable): set<FrameId> {
    set v | v in pt :: pt[v].frame
  }

  /** The frames behind the pages that `[vaddr, vaddr + len)` touches. */
  function FramesTouched(pt: PageTable, vaddr: nat, len: nat): set<FrameId> {
    set a | vaddr <= a < vaddr + len && AlignDown(a) in pt :: FrameOf(pt, a)
  }

  /** A range touches only frames its page table refers to. */
  lemma FramesTouchedInTable(pt: PageTable, vaddr: nat, len: nat)
    ensures FramesTouched(pt, vaddr, len) <= FramesOf(pt)
  {
    forall id | id in FramesTouched(pt, vaddr, len)
      ensures id in FramesOf(pt)
    {
      var a :| vaddr <= a < vaddr + len && AlignDown(a) in pt && FrameOf(pt, a) == id;
      assert pt[AlignDown(a)].frame == id;
    }
  }

  /** The frames every entry of `pt` refers to are the same in `f1` and `f2`. */
  predicate SameBehind(pt: PageTable, f1: map<FrameId, Bytes>, f2: map<FrameId, Bytes>) {
    forall v :: v in pt ==>
      (pt[v].frame in f1 <==> pt[v].frame in f2)
      && (pt[v].frame in f1 ==> f1[pt[v].frame] == f2[pt[v].frame])
  }

  /** What a reader sees depends only on the frames its page table refers to. */
  lemma ReadUserDependsOnlyOnMappedFrames(pt: PageTable, f1: map<FrameId, Bytes>, f2: map<FrameId, Bytes>, vaddr: nat, len: nat)
    requires SameBehind(pt, f1, f2)
    ensures ReadUser(pt, f1, vaddr, len) == ReadUser(pt, f2, vaddr, len)
  {
    forall a | vaddr <= a < vaddr + len
      ensures CanAccess(pt, f1, a, R) <==> CanAccess(pt, f2, a, R)
      ensures ByteAt(pt, f1, a) == ByteAt(pt, f2, a)
    {
    }
    var r1, r2 := ReadUser(pt, f1, vaddr, len), ReadUser(pt, f2, vaddr, len);
    if r1.Ok? {
      assert r1.value == r2.value;
    }
  }

  /** Address `a` is backed by an existing frame with room at its offset. */
  predicate Backed(pt: PageTable, frames: map<FrameId, Bytes>, a: nat) {
    var page := AlignDown(a);
    page in pt && pt[page].frame in frames && a % PAGE_SIZE < |frames[pt[page].frame]|
  }

  /** Addresses `a` and `c` are the same byte of the same frame. */
  predicate SameSlot(pt: PageTable, a: nat, c: nat) {
    AlignDown(a) in pt && AlignDown(c) in pt && FrameOf(pt, a) == FrameOf(pt, c) && a % PAGE_SIZE == c % PAGE_SIZE
  }

  /** One byte of a write through the page table. */
  function StoreByte(pt: PageTable, frames: map<FrameId, Bytes>, a: nat, b: byte): (r: map<FrameId, Bytes>)
    ensures r.Keys == frames.Keys
    ensures forall id :: id in frames ==> |r[id]| == |frames[id]|
  {
    if Backed(pt, frames, a) then
      var f := FrameOf(pt, a);
      frames[f := frames[f][a % PAGE_SIZE := b]]
    else frames
  }

  /** One more byte of a write: the frame behind `vaddr + i` exists and
      receives `data[i]` at its page offset. */
  lemma WriteUserStep(pt: PageTable, frames0: map<FrameId, Bytes>, frames: map<FrameId, Bytes>, vaddr: nat, data: Bytes, i: nat)
    requires i < |data| && CanAccess(pt, frames0, vaddr + i, W)
    requires forall id :: id in frames0 ==> |frames0[id]| == PAGE_SIZE
    requires frames == WriteUser(pt, frames0, vaddr, data[..i])
    ensures FrameOf(pt, vaddr + i) in frames
    ensures WriteUser(pt, frames0, vaddr, data[..i + 1])
      == frames[FrameOf(pt, vaddr + i) := frames[FrameOf(pt, vaddr + i)][(vaddr + i) % PAGE_SIZE := data[i]]]
  {
    assert data[..i + 1][..i] == data[..i];
    assert Backed(pt, frames, vaddr + i);
  }

  /** A stored byte is seen at its own slot and nowhere else. */
  lemma StoreByteEffect(pt: PageTable, frames: map<FrameId, Bytes>, a: nat, b: byte, c: nat)
    ensures Backed(pt, frames, a) && SameSlot(pt, a, c) ==> ByteAt(pt, StoreByte(pt, frames, a, b), c) == b
    ensures !SameSlot(pt, a, c) ==> ByteAt(pt, StoreByte(pt, frames, a, b), c) == ByteAt(pt, frames, c)
  {
  }

  /** What writing `data` at `vaddr` leaves in the frames: the bytes are
      stored one after another, so a later byte wins a shared slot. */
  function WriteUser(pt: PageTable, frames: map<FrameId, Bytes>, vaddr: nat, data: Bytes): (r: map<FrameId, Bytes>)
    ensures r.Keys == frames.Keys
    ensures forall id :: id in frames ==> |r[id]| == |frames[id]|
    decreases |data|
  {
    if data == [] then frames
    else StoreByte(pt, WriteUser(pt, frames, vaddr, data[..|data| - 1]), vaddr + |data| - 1, data[|data| - 1])
  }

  /** When the pages of the range have distinct frames, every address of the
      range reads back its byte of `data` after the write. */
  lemma {:induction false} WriteUserReadBack(pt: PageTable, frames: map<FrameId, Bytes>, vaddr: nat, data: Bytes, i: nat)
    requires forall id :: id in frames ==> |frames[id]| == PAGE_SIZE
    requires Accessible(pt, frames, vaddr, |data|, W)
    requires DistinctFramesOver(pt, vaddr, |data|)
    requires i < |data|
    ensures ByteAt(pt, WriteUser(pt, frames, vaddr, data), vaddr + i) == data[i]
    decreases |data|
  {
    var n := |data|;
    var prefix := data[..n - 1];
    var before := WriteUser(pt, frames, vaddr, prefix);
    var last := vaddr + n - 1;
    assert CanAccess(pt, frames, last, W);
    StoreByteEffect(pt, before, last, data[n - 1], vaddr + i);
    if i < n - 1 {
      WriteUserReadBack(pt, frames, vaddr, prefix, i);
      var c := vaddr + i;
      assert CanAccess(pt, frames, c, W);
      if AlignDown(c) == AlignDown(last) {
        assert c % PAGE_SIZE != last % PAGE_SIZE;
      } else {
        assert FrameOf(pt, c) != FrameOf(pt, last);
      }
    }
  }

  /** A frame behind no page of the range is left as it was. */
  lemma {:induction false} WriteUserUntouched(pt: PageTable, frames: map<FrameId, Bytes>, vaddr: nat, data: Bytes, id: FrameId)
    requires id in frames && id !in FramesTouched(pt, vaddr, |data|)
    ensures WriteUser(pt, frames, vaddr, data)[id] == frames[id]
    decreases |data|
  {
    if data != [] {
      var n := |data|;
      var last := vaddr + n - 1;
      assert FramesTouched(pt, vaddr, n - 1) <= FramesTouched(pt, vaddr, n);
      WriteUserUntouched(pt, frames, vaddr, data[..n - 1], id);
      if AlignDown(last) in pt {
        assert FrameOf(pt, last) in FramesTouched(pt, vaddr, n);
      }
    }
  }

  /** An address that shares no slot with any address of the range reads
      the same before and after the write. */
  lemma {:induction false} WriteUserElsewhere(pt: PageTable, frames: map<FrameId, Bytes>, vaddr: nat, data: Bytes, c: nat)
    requires forall a :: vaddr <= a < vaddr + |data| ==> !SameSlot(pt, a, c)
    ensures ByteAt(pt, WriteUser(pt, frames, vaddr, data), c) == ByteAt(pt, frames, c)
    decreases |data|
  {
    if data != [] {
      var n := |data|;
      assert !SameSlot(pt, vaddr + (n - 1), c);
      WriteUserElsewhere(pt, frames, vaddr, data[..n - 1], c);
      StoreByteEffect(pt, WriteUser(pt, frames, vaddr, data[..n - 1]), vaddr + n - 1, data[n - 1], c);
    }
  }

  /** The entries `protect` leaves: every entry whose page lies in
      `[vaddr, vaddr + len)` takes the new permissions, keeping its frame. */
  function ProtectedPtes(pt: PageTable, vaddr: nat, len: nat, perms: Flags): (r: PageTable)
    ensures r.Keys == pt.Keys
    ensures forall v :: v in pt && vaddr <= v < vaddr + len ==> r[v] == Pte(pt[v].frame, perms)
    ensures forall v :: v in pt && !(vaddr <= v < vaddr + len) ==> r[v] == pt[v]
  {
    map v | v in pt :: if vaddr <= v < vaddr + len then Pte(pt[v].frame, perms) else pt[v]
  }

  /** `protect`'s overlap test between an area and `[vaddr, vaddr + len)`. */
  predicate Overlaps(a: VmArea, vaddr: nat, len: nat) {
    a.baseVaddr < vaddr + len && a.End() > vaddr
  }

  /** The half-open overlap test is exact for a non-empty area and a
      non-empty range: it holds iff some address lies in both. An empty area,
      or an empty range at an address inside the area, passes the test
      without sharing an address. */
  lemma OverlapsIffSharedAddress(a: VmArea, vaddr: nat, len: nat)
    ensures (exists v: nat :: a.ContainsVaddr(v) && vaddr <= v < vaddr + len) ==> Overlaps(a, vaddr, len)
    ensures a.pages > 0 && len > 0 && Overlaps(a, vaddr, len) ==>
      exists v: nat :: a.ContainsVaddr(v) && vaddr <= v < vaddr + len
  {
    if a.pages > 0 && len > 0 && Overlaps(a, vaddr, len) {
      var v := if a.baseVaddr >= vaddr then a.baseVaddr else vaddr;
      assert a.ContainsVaddr(v) && vaddr <= v < vaddr + len;
    }
  }

  /** The index of the first area, in list order, that contains `v`. */
  function FirstCovering(areas: seq<VmArea>, v: nat): (r: Option<nat>)
    ensures r.Some? ==> r.value < |areas| && areas[r.value].ContainsVaddr(v)
    ensures r.Some? ==> forall j :: 0 <= j < r.value ==> !areas[j].ContainsVaddr(v)
    ensures r.None? <==> forall j :: 0 <= j < |areas| ==> !areas[j].ContainsVaddr(v)
  {
    if |areas| == 0 then None
    else if areas[0].ContainsVaddr(v) then Some(0)
    else match FirstCovering(areas[1..], v)
      case None => None
      case Some(j) => Some(j + 1)
  }

  /** The mapping `map` records for page `k` of `area`. */
  function PageMapping(area: VmArea, frames: seq<FrameId>, k: nat): VmMapping
    requires k < |frames|
  {
    VmMapping(area.baseVaddr + k * PAGE_SIZE, frames[k], area.perms)
  }

  /** `v` is the start of one of the first `n` pages from `base`. */
  predicate OnPage(base: nat, n: nat, v: nat) {
    base <= v < base + n * PAGE_SIZE && (v - base) % PAGE_SIZE == 0
  }

  /** Page starts below `base + (n + 1) * PAGE_SIZE` are those below
      `base + n * PAGE_SIZE` and the `n`-th page. */
  lemma OnPageStep(base: nat, n: nat, v: nat)
    ensures OnPage(base, n + 1, v) <==> OnPage(base, n, v) || v == base + n * PAGE_SIZE
  {
    if OnPage(base, n + 1, v) && v >= base + n * PAGE_SIZE {
      var q := (v - base) / PAGE_SIZE;
      assert v - base == q * PAGE_SIZE;
      assert q == n;
    }
  }

  /** Every mapping of every area is a page-aligned page inside user space. */
  predicate MappingsInUserSpace(areas: seq<VmArea>) {
    forall i, k :: 0 <= i < |areas| && 0 <= k < |areas[i].mappings| ==>
      CursorRange(areas[i].mappings[k].baseVaddr, areas[i].mappings[k].baseVaddr + PAGE_SIZE)
  }

  /** Every mapping's frame has been allocated. */
  predicate MappingsBacked(areas: seq<VmArea>, frames: map<FrameId, Bytes>) {
    forall i, k :: 0 <= i < |areas| && 0 <= k < |areas[i].mappings| ==>
      areas[i].mappings[k].frame in frames
  }

  /** The number of resident mappings over all of `areas`. */
  function TotalMappings(areas: seq<VmArea>): nat
  {
    if areas == [] then 0 else TotalMappings(areas[..|areas| - 1]) + |areas[|areas| - 1].mappings|
  }

  /** `Offset(areas, i)`: the mappings held by the areas before `i`. */
  function Offset(areas: seq<VmArea>, i: nat): nat
    requires i <= |areas|
  {
    TotalMappings(areas[..i])
  }

  lemma OffsetStep(areas: seq<VmArea>, i: nat)
    requires i < |areas|
    ensures Offset(areas, i + 1) == Offset(areas, i) + |areas[i].mappings|
  {
    assert areas[..i + 1][..i] == areas[..i];
  }

  /** Later areas start at larger offsets: the mappings of area `i` all come
      before those of any later area. */
  lemma {:induction false} OffsetMonotone(areas: seq<VmArea>, i: nat, j: nat)
    requires i < j <= |areas|
    ensures Offset(areas, i) + |areas[i].mappings| <= Offset(areas, j)
    decreases j - i
  {
    OffsetStep(areas, i);
    if i + 1 < j {
      OffsetMonotone(areas, i + 1, j);
      OffsetStep(areas, i + 1);
    }
  }

  /** The child of `duplicate` keeps each area's range, mask, handler and list
      of pages, and every copied mapping takes the area's mask. */
  predicate SameShape(a: VmArea, b: VmArea) {
    b.baseVaddr == a.baseVaddr && b.pages == a.pages && b.perms == a.perms && b.handler == a.handler
    && |b.mappings| == |a.mappings|
    && forall k :: 0 <= k < |a.mappings| ==>
      b.mappings[k].baseVaddr == a.mappings[k].baseVaddr && b.mappings[k].perms == a.perms
  }

  /** The frame `duplicate` allocates for mapping `k` of area `i`: frames
      are handed out in list order. */
  function CopyFrameId(areas: seq<VmArea>, first: FrameId, i: nat, k: nat): FrameId
    requires i < |areas|
  {
    first + Offset(areas, i) + k
  }

  /** Distinct mappings of the parent get distinct frames in the child. */
  lemma CopyFramesDistinct(areas: seq<VmArea>, first: FrameId, i: nat, k: nat, j: nat, l: nat)
    requires i < |areas| && k < |areas[i].mappings|
    requires j < |areas| && l < |areas[j].mappings|
    requires (i, k) != (j, l)
    ensures CopyFrameId(areas, first, i, k) != CopyFrameId(areas, first, j, l)
  {
    if i < j {
      OffsetMonotone(areas, i, j);
    } else if j < i {
      OffsetMonotone(areas, j, i);
    }
  }

  /** `copy` is `area` copied into fresh frames `next0`, `next0 + 1`, ...:
      same shape, and each new frame in `frames1` holds what the mapping's
      frame held in `frames0`. */
  ghost predicate AreaCopied(area: VmArea, copy: VmArea, next0: FrameId,
                             frames0: map<FrameId, Bytes>, frames1: map<FrameId, Bytes>)
  {
    SameShape(area, copy)
    && forall k :: 0 <= k < |area.mappings| ==>
      copy.mappings[k].frame == next0 + k && next0 + k in frames1
      && area.mappings[k].frame in frames0
      && frames1[next0 + k] == frames0[area.mappings[k].frame]
  }

  /** `pt1` is `pt0` with an entry for every page of `area`'s mappings;
      `last` names the mapping that installed each one, with frame
      `next0 + last[v]` and the area's mask. */
  ghost predicate TableExtended(area: VmArea, pt0: PageTable, pt1: PageTable, last: map<nat, nat>, next0: FrameId)
  {
    pt1.Keys == pt0.Keys + last.Keys
    && (forall v :: v in pt0 && v !in last ==> pt1[v] == pt0[v])
    && (forall k :: 0 <= k < |area.mappings| ==> area.mappings[k].baseVaddr in last)
    && (forall v :: v in last ==>
          last[v] < |area.mappings| && area.mappings[last[v]].baseVaddr == v
          && pt1[v] == Pte(next0 + last[v], area.perms))
  }

  /** After `k` turns of `duplicate`'s inner loop over `area`: `na` holds
      copies of the first `k` mappings in fresh frames `next0 + j`, and `pt1`
      extends `pt0` with their pages, `last` naming the installing mapping. */
  ghost predicate CopyProgress(area: VmArea, na: VmArea, next0: FrameId,
                               frames0: map<FrameId, Bytes>, frames1: map<FrameId, Bytes>,
                               pt0: PageTable, pt1: PageTable, last: map<nat, nat>, k: nat)
  {
    MappingsCopied(area, na, next0, frames0, frames1, k) && TableProgress(area, pt0, pt1, last, next0, k)
  }

  /** The frame half of `CopyProgress`. */
  ghost predicate MappingsCopied(area: VmArea, na: VmArea, next0: FrameId,
                                 frames0: map<FrameId, Bytes>, frames1: map<FrameId, Bytes>, k: nat)
  {
    k <= |area.mappings|
    && na.baseVaddr == area.baseVaddr && na.pages == area.pages && na.perms == area.perms
    && na.handler == area.handler && |na.mappings| == k
    && (forall j :: 0 <= j < k ==>
          na.mappings[j] == VmMapping(area.mappings[j].baseVaddr, next0 + j, area.perms)
          && next0 + j in frames1 && area.mappings[j].frame in frames0
          && frames1[next0 + j] == frames0[area.mappings[j].frame])
  }

  /** The page-table half of `CopyProgress`. */
  ghost predicate TableProgress(area: VmArea, pt0: PageTable, pt1: PageTable, last: map<nat, nat>, next0: FrameId, k: nat)
  {
    pt1.Keys == pt0.Keys + last.Keys
    && (forall v :: v in pt0 && v !in last ==> pt1[v] == pt0[v])
    && (forall j :: 0 <= j < k && j < |area.mappings| ==> area.mappings[j].baseVaddr in last)
    && (forall v :: v in last ==>
          last[v] < k && last[v] < |area.mappings| && area.mappings[last[v]].baseVaddr == v
          && pt1[v] == Pte(next0 + last[v], area.perms))
  }

  lemma CopyProgressStep(area: VmArea, na: VmArea, next0: FrameId, frames0: map<FrameId, Bytes>,
                         framesA: map<FrameId, Bytes>, framesB: map<FrameId, Bytes>,
                         pt0: PageTable, ptA: PageTable, last: map<nat, nat>, k: nat, f: FrameId)
    requires CopyProgress(area, na, next0, frames0, framesA, pt0, ptA, last, k) && k < |area.mappings|
    requires f == next0 + k && f !in framesA
    requires area.mappings[k].frame in frames0
    requires forall id :: id in frames0 ==> id in framesA && framesA[id] == frames0[id]
    requires framesB == framesA[f := framesA[area.mappings[k].frame]]
    ensures CopyProgress(area, na.AddMapping(VmMapping(area.mappings[k].baseVaddr, f, na.perms)), next0,
                         frames0, framesB, pt0, ptA[area.mappings[k].baseVaddr := Pte(f, area.perms)],
                         last[area.mappings[k].baseVaddr := k], k + 1)
  {
    MappingsCopiedStep(area, na, next0, frames0, framesA, framesB, k, f);
    TableProgressStep(area, pt0, ptA, last, next0, k, f);
  }

  lemma MappingsCopiedStep(area: VmArea, na: VmArea, next0: FrameId, frames0: map<FrameId, Bytes>,
                           framesA: map<FrameId, Bytes>, framesB: map<FrameId, Bytes>, k: nat, f: FrameId)
    requires MappingsCopied(area, na, next0, frames0, framesA, k) && k < |area.mappings|
    requires f == next0 + k && f !in framesA
    requires area.mappings[k].frame in frames0
    requires forall id :: id in frames0 ==> id in framesA && framesA[id] == frames0[id]
    requires framesB == framesA[f := framesA[area.mappings[k].frame]]
    ensures MappingsCopied(area, na.AddMapping(VmMapping(area.mappings[k].baseVaddr, f, na.perms)), next0,
                           frames0, framesB, k + 1)
  {
    var na1 := na.AddMapping(VmMapping(area.mappings[k].baseVaddr, f, na.perms));
    forall j | 0 <= j < k + 1
      ensures na1.mappings[j] == VmMapping(area.mappings[j].baseVaddr, next0 + j, area.perms)
      ensures next0 + j in framesB && area.mappings[j].frame in frames0
      ensures framesB[next0 + j] == frames0[area.mappings[j].frame]
    {
      if j < k {
        assert na1.mappings[j] == na.mappings[j];
      }
    }
  }

  lemma TableProgressStep(area: VmArea, pt0: PageTable, ptA: PageTable, last: map<nat, nat>, next0: FrameId, k: nat, f: FrameId)
    requires TableProgress(area, pt0, ptA, last, next0, k) && k < |area.mappings| && f == next0 + k
    ensures TableProgress(area, pt0, ptA[area.mappings[k].baseVaddr := Pte(f, area.perms)],
                          last[area.mappings[k].baseVaddr := k], next0, k + 1)
  {
    var v0 := area.mappings[k].baseVaddr;
    var pt1, last1 := ptA[v0 := Pte(f, area.perms)], last[v0 := k];
    forall v | v in last1
      ensures last1[v] < k + 1 && last1[v] < |area.mappings| && area.mappings[last1[v]].baseVaddr == v
      ensures pt1[v] == Pte(next0 + last1[v], area.perms)
    {
      if v != v0 {
        assert last1[v] == last[v] && pt1[v] == ptA[v];
      }
    }
  }

  lemma CopyProgressDone(area: VmArea, na: VmArea, next0: FrameId, frames0: map<FrameId, Bytes>,
                         frames1: map<FrameId, Bytes>, pt0: PageTable, pt1: PageTable, last: map<nat, nat>)
    requires CopyProgress(area, na, next0, frames0, frames1, pt0, pt1, last, |area.mappings|)
    ensures AreaCopied(area, na, next0, frames0, frames1)
    ensures TableExtended(area, pt0, pt1, last, next0)
  {
  }

  /** The first `i` areas of `src` have been copied, in order, into `dst`:
      same shape, and mapping `k` of area `j` now has the frame
      `CopyFrameId(src, first, j, k)`, holding what the original frame held
      in `oldFrames`. */
  ghost predicate CopiedPrefix(src: seq<VmArea>, dst: seq<VmArea>, first: FrameId,
                               frames: map<FrameId, Bytes>, oldFrames: map<FrameId, Bytes>, i: nat)
  {
    i <= |src| && |dst| == i
    && (forall j :: 0 <= j < i ==> SameShape(src[j], dst[j]))
    && (forall j, k :: 0 <= j < i && 0 <= k < |src[j].mappings| ==>
          k < |dst[j].mappings|
          && dst[j].mappings[k].frame == CopyFrameId(src, first, j, k)
          && dst[j].mappings[k].frame in frames
          && src[j].mappings[k].frame in oldFrames
          && frames[dst[j].mappings[k].frame] == oldFrames[src[j].mappings[k].frame])
  }

  /** The page table of the copy after `i` areas: every copied page has an
      entry, and `owner` names for each entry the mapping `(j, k)` of `src`
      it was installed for, mapping the copy's frame with area `j`'s mask. */
  ghost predicate OwnedTable(src: seq<VmArea>, dst: seq<VmArea>, pt: PageTable, owner: map<nat, (nat, nat)>, i: nat)
  {
    i <= |src| && |dst| == i
    && pt.Keys == owner.Keys
    && (forall j, k :: 0 <= j < i && 0 <= k < |src[j].mappings| ==> src[j].mappings[k].baseVaddr in pt)
    && (forall v :: v in owner ==>
          var (j, k) := owner[v];
          j < i && k < |src[j].mappings| && k < |dst[j].mappings|
          && src[j].mappings[k].baseVaddr == v
          && pt[v] == Pte(dst[j].mappings[k].frame, src[j].perms))
  }

  /** The owners after copying area `i`: the pages it installed are owned by
      its mappings, the others keep their owner. */
  function MergeOwners(owner: map<nat, (nat, nat)>, last: map<nat, nat>, i: nat): (r: map<nat, (nat, nat)>)
    ensures r.Keys == owner.Keys + last.Keys
    ensures forall v :: v in last ==> r[v] == (i, last[v])
    ensures forall v :: v in owner && v !in last ==> r[v] == owner[v]
  {
    map v | v in owner.Keys + last.Keys :: if v in last then (i, last[v]) else owner[v]
  }

  lemma CopiedPrefixStep(src: seq<VmArea>, dst0: seq<VmArea>, dst1: seq<VmArea>, first: FrameId, next0: FrameId,
                         frames0: map<FrameId, Bytes>, frames1: map<FrameId, Bytes>, oldFrames: map<FrameId, Bytes>, i: nat)
    requires CopiedPrefix(src, dst0, first, frames0, oldFrames, i) && i < |src|
    requires next0 == first + Offset(src, i)
    requires MappingsBacked(src, oldFrames)
    requires forall id :: id in oldFrames ==> id in frames0 && frames0[id] == oldFrames[id]
    requires forall id :: id in frames0 ==> id in frames1 && frames1[id] == frames0[id]
    requires |dst1| == i + 1 && dst1[..i] == dst0 && AreaCopied(src[i], dst1[i], next0, frames0, frames1)
    ensures CopiedPrefix(src, dst1, first, frames1, oldFrames, i + 1)
  {
    forall j, k | 0 <= j < i + 1 && 0 <= k < |src[j].mappings|
      ensures k < |dst1[j].mappings|
      ensures dst1[j].mappings[k].frame == CopyFrameId(src, first, j, k)
      ensures dst1[j].mappings[k].frame in frames1
      ensures src[j].mappings[k].frame in oldFrames
      ensures frames1[dst1[j].mappings[k].frame] == oldFrames[src[j].mappings[k].frame]
    {
      if j < i {
        assert dst1[j] == dst0[j];
      }
    }
  }

  lemma OwnedTableStep(src: seq<VmArea>, dst0: seq<VmArea>, dst1: seq<VmArea>, pt0: PageTable, pt1: PageTable,
                       owner: map<nat, (nat, nat)>, last: map<nat, nat>, next0: FrameId, i: nat)
    requires OwnedTable(src, dst0, pt0, owner, i) && i < |src|
    requires |dst1| == i + 1 && dst1[..i] == dst0
    requires SameShape(src[i], dst1[i])
    requires forall k :: 0 <= k < |src[i].mappings| ==> dst1[i].mappings[k].frame == next0 + k
    requires TableExtended(src[i], pt0, pt1, last, next0)
    ensures OwnedTable(src, dst1, pt1, MergeOwners(owner, last, i), i + 1)
  {
    var r := MergeOwners(owner, last, i);
    forall v | v in r
      ensures var (j, k) := r[v];
        j < i + 1 && k < |src[j].mappings| && k < |dst1[j].mappings|
        && src[j].mappings[k].baseVaddr == v
        && pt1[v] == Pte(dst1[j].mappings[k].frame, src[j].perms)
    {
      if v in last {
        var k := last[v];
        assert r[v] == (i, k);
        assert pt1[v] == Pte(next0 + k, src[i].perms);
      } else {
        var (j, k) := owner[v];
        assert r[v] == owner[v] && v in pt0;
        assert pt1[v] == pt0[v];
        assert dst1[j] == dst0[j];
      }
    }
    forall j, k | 0 <= j < i + 1 && 0 <= k < |src[j].mappings|
      ensures src[j].mappings[k].baseVaddr in pt1
    {
    }
  }

  /** Every entry of the copy's table maps a frame allocated by the copy. */
  lemma DuplicateTableFresh(src: seq<VmArea>, dst: seq<VmArea>, pt: PageTable, owner: map<nat, (nat, nat)>,
                            first: FrameId, frames: map<FrameId, Bytes>, oldFrames: map<FrameId, Bytes>)
    requires CopiedPrefix(src, dst, first, frames, oldFrames, |src|)
    requires OwnedTable(src, dst, pt, owner, |src|)
    ensures forall v :: v in pt ==> first <= pt[v].frame < first + TotalMappings(src) && pt[v].frame in frames
  {
    assert src[..|src|] == src;
    forall v | v in pt
      ensures first <= pt[v].frame < first + TotalMappings(src) && pt[v].frame in frames
    {
      var (j, k) := owner[v];
      if j + 1 < |src| {
        OffsetMonotone(src, j, |src|);
      } else {
        OffsetStep(src, j);
      }
    }
  }

  /** Before turn `i` of `duplicate`: area `i`'s mappings are backed and in
      user space, and enough frames remain for all of them. */
  lemma CopyAreaReady(src: seq<VmArea>, i: nat, oldFrames: map<FrameId, Bytes>, frames: map<FrameId, Bytes>,
                      first: FrameId, next: FrameId, free: nat, free0: nat)
    requires i < |src| && MappingsBacked(src, oldFrames) && MappingsInUserSpace(src)
    requires forall id :: id in oldFrames ==> id in frames
    requires free0 >= TotalMappings(src) && free == free0 - Offset(src, i)
    ensures free >= |src[i].mappings|
    ensures forall k :: 0 <= k < |src[i].mappings| ==>
      src[i].mappings[k].frame in frames
      && CursorRange(src[i].mappings[k].baseVaddr, src[i].mappings[k].baseVaddr + PAGE_SIZE)
  {
    OffsetMonotone(src, i, |src|);
    assert src[..|src|] == src;
  }

  class MemorySpace {
    var areas: seq<VmArea>
    var pageTable: PageTable

    /** `MemorySpace::new`: no areas, an empty page table. */
    constructor ()
      ensures areas == [] && pageTable == map[]
    {
      areas := [];
      pageTable := map[];
    }

    /** `add_area`: append the area; no page-table entry is installed. */
    method AddArea(area: VmArea)
      modifies this
      ensures areas == old(areas) + [area]
      ensures pageTable == old(pageTable)
    {
      areas := areas + [area];
    }

    /**
     * `map`: allocate one frame per page, install an entry with the area's
     * permissions for each page of the area, record one mapping per page in
     * order, and append the area. Returns the frames.
     */
    method Map(area: VmArea, mem: PhysMemory) returns (frames: seq<FrameId>)
      requires CursorRange(area.baseVaddr, area.End())
      requires mem.Valid() && mem.free >= area.pages
      modifies this, mem
      ensures mem.Valid()
      ensures |frames| == area.pages
      ensures forall k :: 0 <= k < area.pages ==> frames[k] == old(mem.next) + k && frames[k] !in old(mem.frames)
      ensures forall id :: id in mem.frames <==> id in old(mem.frames) || old(mem.next) <= id < mem.next
      ensures forall id :: id in mem.frames ==>
        mem.frames[id] == if id in old(mem.frames) then old(mem.frames)[id] else Zeros(PAGE_SIZE)
      ensures mem.next == old(mem.next) + area.pages && mem.free == old(mem.free) - area.pages
      ensures areas == old(areas) + [area.(mappings := area.mappings + seq(area.pages, k requires 0 <= k < area.pages => PageMapping(area, frames, k)))]
      ensures forall v :: v in pageTable <==> v in old(pageTable) || OnPage(area.baseVaddr, area.pages, v)
      ensures forall v :: v in pageTable ==>
        pageTable[v] == if OnPage(area.baseVaddr, area.pages, v)
                        then Pte(frames[(v - area.baseVaddr) / PAGE_SIZE], area.perms)
                        else old(pageTable)[v]
    {
      frames := mem.AllocSegment(area.pages);
      var a := area;
      var i := 0;
      while i < area.pages
        modifies this
        invariant 0 <= i <= area.pages
        invariant areas == old(areas)
        invariant a == area.(mappings := area.mappings + seq(i, k requires 0 <= k < i => PageMapping(area, frames, k)))
        invariant forall v :: v in pageTable <==> v in old(pageTable) || OnPage(area.baseVaddr, i, v)
        invariant forall v :: v in pageTable ==>
          pageTable[v] == if OnPage(area.baseVaddr, i, v)
                          then Pte(frames[(v - area.baseVaddr) / PAGE_SIZE], area.perms)
                          else old(pageTable)[v]
      {
        var page := area.baseVaddr + i * PAGE_SIZE;
        pageTable := pageTable[page := Pte(frames[i], area.perms)];
        a := a.AddMapping(VmMapping(page, frames[i], area.perms));
        forall v
          ensures OnPage(area.baseVaddr, i + 1, v) <==> OnPage(area.baseVaddr, i, v) || v == page
        {
          OnPageStep(area.baseVaddr, i, v);
        }
        assert (page - area.baseVaddr) / PAGE_SIZE == i;
        i := i + 1;
      }
      assert a.mappings == area.mappings + seq(area.pages, k requires 0 <= k < area.pages => PageMapping(area, frames, k));
      areas := areas + [a];
    }

    /** `reader(vaddr, len)`, with the read it is used for. */
    function Reader(mem: PhysMemory, vaddr: nat, len: nat): (r: Result<Bytes>)
      reads this, mem
      ensures r.Ok? <==> Accessible(pageTable, mem.frames, vaddr, len, R)
      ensures r.Err? ==> r.errno == EFAULT
      ensures r.Ok? ==> |r.value| == len && forall i :: 0 <= i < len ==> r.value[i] == ByteAt(pageTable, mem.frames, vaddr + i)
    {
      ReadUser(pageTable, mem.frames, vaddr, len)
    }

    /**
     * `writer(vaddr, len)` and the write of `data` through it. It fails with
     * EFAULT, writing nothing, unless every address is mapped writable;
     * otherwise it stores the bytes one by one, in order, into the frames
     * behind the range.
     */
    method Writer(mem: PhysMemory, vaddr: nat, data: Bytes) returns (r: Result<()>)
      requires mem.Valid()
      modifies mem
      ensures mem.Valid()
      ensures mem.next == old(mem.next) && mem.free == old(mem.free)
      ensures r.Ok? <==> Accessible(pageTable, old(mem.frames), vaddr, |data|, W)
      ensures r.Err? ==> r.errno == EFAULT && mem.frames == old(mem.frames)
      ensures r.Ok? ==> mem.frames == WriteUser(pageTable, old(mem.frames), vaddr, data)
    {
      if !Accessible(pageTable, mem.frames, vaddr, |data|, W) {
        return Err(EFAULT);
      }
      var i := 0;
      while i < |data|
        invariant 0 <= i <= |data|
        invariant mem.Valid()
        invariant mem.next == old(mem.next) && mem.free == old(mem.free)
        invariant mem.frames == WriteUser(pageTable, old(mem.frames), vaddr, data[..i])
      {
        var a := vaddr + i;
        assert CanAccess(pageTable, old(mem.frames), a, W);
        WriteUserStep(pageTable, old(mem.frames), mem.frames, vaddr, data, i);
        mem.WriteByte(FrameOf(pageTable, a), a % PAGE_SIZE, data[i]);
        i := i + 1;
      }
      assert data[..|data|] == data;
      r := Ok(());
    }

    /**
     * `protect`: rewrite the permissions of every entry in
     * `[vaddr, vaddr + len)`, then overwrite the whole mask of every area
     * that overlaps the range (and its mappings' masks), with no splitting.
     * Always succeeds.
     */
    method Protect(vaddr: nat, len: nat, perms: Flags) returns (r: Result<()>)
      requires CursorRange(vaddr, vaddr + len)
      modifies this
      ensures r == Ok(())
      ensures pageTable == ProtectedPtes(old(pageTable), vaddr, len, perms)
      ensures |areas| == |old(areas)|
      ensures forall i :: 0 <= i < |areas| ==>
        areas[i] == if Overlaps(old(areas)[i], vaddr, len) then old(areas)[i].WithPerms(perms) else old(areas)[i]
    {
      pageTable := ProtectedPtes(pageTable, vaddr, len, perms);
      var i := 0;
      while i < |areas|
        invariant 0 <= i <= |areas| == |old(areas)|
        invariant forall j :: 0 <= j < i ==>
          areas[j] == if Overlaps(old(areas)[j], vaddr, len) then old(areas)[j].WithPerms(perms) else old(areas)[j]
        invariant forall j :: i <= j < |areas| ==> areas[j] == old(areas)[j]
        invariant pageTable == ProtectedPtes(old(pageTable), vaddr, len, perms)
      {
        var area := areas[i];
        if area.baseVaddr < vaddr + len && area.End() > vaddr {
          var updated := SetPerms(area, perms);
          areas := areas[i := updated];
        }
        i := i + 1;
      }
      r := Ok(());
    }

    /** Every entry and every mapping refers to an allocated frame. */
    ghost predicate Backed(mem: PhysMemory)
      reads this, mem
    {
      (forall v :: v in pageTable ==> pageTable[v].frame in mem.frames)
      && MappingsBacked(areas, mem.frames)
    }

    /** One turn of `duplicate`'s inner loop: a fresh frame holding a copy of
        the mapping's frame, mapped at the mapping's page with `perms`. */
    method CopyMapping(m: VmMapping, perms: Flags, mem: PhysMemory) returns (f: FrameId)
      requires mem.Valid() && mem.free > 0 && m.frame in mem.frames
      requires CursorRange(m.baseVaddr, m.baseVaddr + PAGE_SIZE)
      modifies this, mem
      ensures mem.Valid()
      ensures f == old(mem.next) && f !in old(mem.frames)
      ensures mem.frames == old(mem.frames)[f := old(mem.frames)[m.frame]]
      ensures mem.next == old(mem.next) + 1 && mem.free == old(mem.free) - 1
      ensures pageTable == old(pageTable)[m.baseVaddr := Pte(f, perms)]
      ensures areas == old(areas)
    {
      f := mem.AllocFrame();
      mem.CopyFrame(m.frame, f);
      pageTable := pageTable[m.baseVaddr := Pte(f, perms)];
    }

    /**
     * One turn of `duplicate`'s outer loop, run on the new address space:
     * copy `area` with a fresh frame per mapping, install an entry for each
     * copied page, and append the copy. `last` names, for every page it
     * installs, the index of the mapping that installed it last.
     */
    method CopyArea(area: VmArea, mem: PhysMemory) returns (ghost last: map<nat, nat>)
      requires mem.Valid() && mem.free >= |area.mappings|
      requires forall k :: 0 <= k < |area.mappings| ==>
        area.mappings[k].frame in mem.frames
        && CursorRange(area.mappings[k].baseVaddr, area.mappings[k].baseVaddr + PAGE_SIZE)
      modifies this, mem
      ensures mem.Valid()
      ensures mem.next == old(mem.next) + |area.mappings| && mem.free == old(mem.free) - |area.mappings|
      ensures |areas| == |old(areas)| + 1 && areas[..|old(areas)|] == old(areas)
      ensures AreaCopied(area, areas[|old(areas)|], old(mem.next), old(mem.frames), mem.frames)
      ensures forall id :: id in old(mem.frames) ==> id in mem.frames && mem.frames[id] == old(mem.frames)[id]
      ensures TableExtended(area, old(pageTable), pageTable, last, old(mem.next))
    {
      var na := NewWithHandler(area.baseVaddr, area.pages, area.perms, area.handler);
      last := map[];
      var k := 0;
      while k < |area.mappings|
        invariant mem.Valid()
        invariant mem.next == old(mem.next) + k && mem.free == old(mem.free) - k
        invariant areas == old(areas)
        invariant forall id :: id in old(mem.frames) ==> id in mem.frames && mem.frames[id] == old(mem.frames)[id]
        invariant CopyProgress(area, na, old(mem.next), old(mem.frames), mem.frames, old(pageTable), pageTable, last, k)
      {
        var m := area.mappings[k];
        ghost var framesA, ptA := mem.frames, pageTable;
        var f := CopyMapping(m, area.perms, mem);
        CopyProgressStep(area, na, old(mem.next), old(mem.frames), framesA, mem.frames, old(pageTable), ptA, last, k, f);
        last := last[m.baseVaddr := k];
        na := na.AddMapping(VmMapping(m.baseVaddr, f, na.perms));
        k := k + 1;
      }
      CopyProgressDone(area, na, old(mem.next), old(mem.frames), mem.frames, old(pageTable), pageTable, last);
      areas := areas + [na];
    }

    /**
     * `duplicate`: a new address space with the same areas in the same
     * order, each with a fresh frame per mapping holding a copy of the old
     * frame's bytes. The new page table maps each copied mapping's page to
     * its new frame with the area's mask; `owner` names, for every entry,
     * the mapping it was installed for (the last one when two mappings
     * share a page). The parent and its frames are untouched.
     */
    method Duplicate(mem: PhysMemory) returns (d: MemorySpace, ghost owner: map<nat, (nat, nat)>)
      requires mem.Valid()
      requires MappingsBacked(areas, mem.frames) && MappingsInUserSpace(areas)
      requires mem.free >= TotalMappings(areas)
      modifies mem
      ensures fresh(d) && mem.Valid()
      ensures mem.next == old(mem.next) + TotalMappings(areas) && mem.free == old(mem.free) - TotalMappings(areas)
      ensures CopiedPrefix(areas, d.areas, old(mem.next), mem.frames, old(mem.frames), |areas|)
      ensures forall id :: id in old(mem.frames) ==> id in mem.frames && mem.frames[id] == old(mem.frames)[id]
      ensures OwnedTable(areas, d.areas, d.pageTable, owner, |areas|)
      ensures forall v :: v in d.pageTable ==> old(mem.next) <= d.pageTable[v].frame < mem.next
      ensures d.Backed(mem)
    {
      var src := areas;
      d := new MemorySpace();
      owner := map[];
      var i := 0;
      while i < |src|
        modifies mem, d
        invariant 0 <= i <= |src|
        invariant mem.Valid()
        invariant mem.next == old(mem.next) + Offset(src, i) && mem.free == old(mem.free) - Offset(src, i)
        invariant CopiedPrefix(src, d.areas, old(mem.next), mem.frames, old(mem.frames), i)
        invariant forall id :: id in old(mem.frames) ==> id in mem.frames && mem.frames[id] == old(mem.frames)[id]
        invariant OwnedTable(src, d.areas, d.pageTable, owner, i)
      {
        ghost var dAreas0, pt0, frames0, next0 := d.areas, d.pageTable, mem.frames, mem.next;
        CopyAreaReady(src, i, old(mem.frames), frames0, old(mem.next), next0, mem.free, old(mem.free));
        ghost var last := d.CopyArea(src[i], mem);
        CopiedPrefixStep(src, dAreas0, d.areas, old(mem.next), next0, frames0, mem.frames, old(mem.frames), i);
        OwnedTableStep(src, dAreas0, d.areas, pt0, d.pageTable, owner, last, next0, i);
        owner := MergeOwners(owner, last, i);
        OffsetStep(src, i);
        i := i + 1;
      }
      assert src[..|src|] == src;
      DuplicateTableFresh(src, d.areas, d.pageTable, owner, old(mem.next), mem.frames, old(mem.frames));
    }

    /** `areas[i].handle_page_fault(..)` with the mapping it installs. */
    method HandleAreaFault(i: nat, mem: PhysMemory, addr: nat, files: map<InodeId, Bytes>) returns (ok: bool)
      requires mem.Valid() && i < |areas| && areas[i].ContainsVaddr(addr)
      requires !areas[i].handler.Deny? ==>
        CanResolve(areas[i].handler, addr, files) && mem.free > 0
        && CursorRange(AlignDown(addr), AlignDown(addr) + PAGE_SIZE)
      modifies this, mem
      ensures mem.Valid()
      ensures ok <==> !old(areas)[i].handler.Deny?
      ensures !ok ==>
        areas == old(areas) && pageTable == old(pageTable)
        && mem.frames == old(mem.frames) && mem.next == old(mem.next) && mem.free == old(mem.free)
      ensures ok ==>
        var area := old(areas)[i];
        var (updated, fill) := area.HandlePageFault(addr, files, old(mem.next)).value;
        areas == old(areas)[i := updated]
        && pageTable == old(pageTable)[AlignDown(addr) := Pte(old(mem.next), area.perms)]
        && mem.frames == old(mem.frames)[old(mem.next) := fill.contents]
        && mem.next == old(mem.next) + 1 && mem.free == old(mem.free) - 1
    {
      var area := areas[i];
      if area.handler.Deny? {
        return false;
      }
      var f := mem.AllocFrame();
      var (updated, fill) := area.HandlePageFault(addr, files, f).value;
      mem.WriteFrame(f, fill.contents);
      pageTable := pageTable[fill.page := Pte(f, area.perms)];
      areas := areas[i := updated];
      ok := true;
    }

    /** `clear`: unmap all of user space and drop every area. */
    method Clear()
      modifies this
      ensures areas == []
      ensures forall v :: v in pageTable ==> v >= MAX_USERSPACE_VADDR
      ensures forall v :: v in old(pageTable) && v >= MAX_USERSPACE_VADDR ==> v in pageTable && pageTable[v] == old(pageTable)[v]
    {
      pageTable := map v | v in pageTable && v >= MAX_USERSPACE_VADDR :: pageTable[v];
      areas := [];
    }
  }

  /** A frame-disjointness fact for parent and child: the parent's entries
      use frames below `first` and the child's frames from `first` on. */
  lemma SplitFramesDisjoint(pt1: PageTable, pt2: PageTable, first: FrameId)
    requires forall v :: v in pt1 ==> pt1[v].frame < first
    requires forall v :: v in pt2 ==> pt2[v].frame >= first
    ensures FramesOf(pt1) !! FramesOf(pt2)
  {
    forall id | id in FramesOf(pt1)
      ensures id !in FramesOf(pt2)
    {
      var v :| v in pt1 && pt1[v].frame == id;
    }
  }

  /** A write through one page table (it changes only the frames behind the
      range it covers) is invisible through another page table that shares
      none of its frames. */
  lemma DisjointTablesIsolateWrites(pt1: PageTable, pt2: PageTable, f1: map<FrameId, Bytes>, f2: map<FrameId, Bytes>,
                                    wvaddr: nat, wlen: nat, vaddr: nat, len: nat)
    requires FramesOf(pt1) !! FramesOf(pt2)
    requires f2.Keys == f1.Keys
    requires forall id :: id in f1 && id !in FramesTouched(pt2, wvaddr, wlen) ==> f2[id] == f1[id]
    ensures ReadUser(pt1, f1, vaddr, len) == ReadUser(pt1, f2, vaddr, len)
  {
    FramesTouchedInTable(pt2, wvaddr, wlen);
    forall v | v in pt1
      ensures pt1[v].frame in f1 ==> f1[pt1[v].frame] == f2[pt1[v].frame]
    {
      assert pt1[v].frame in FramesOf(pt1);
    }
    ReadUserDependsOnlyOnMappedFrames(pt1, f1, f2, vaddr, len);
  }

  /** The exceptions a RISC-V hart reports in `scause`. */
  datatype Exception =
    | InstructionMisaligned | InstructionFault | IllegalInstruction | Breakpoint
    | LoadMisaligned | LoadFault | StoreMisaligned | StoreFault
    | UserEnvCall | SupervisorEnvCall | MachineEnvCall
    | InstructionPageFault | LoadPageFault | StorePageFault

  /** `is_page_fault`: the three page-fault causes; every other cause,
      the access faults included, is not one. */
  predicate IsPageFault(e: Exception): (b: bool)
    ensures b <==> !(e.InstructionMisaligned? || e.InstructionFault? || e.IllegalInstruction? || e.Breakpoint?
                     || e.LoadMisaligned? || e.LoadFault? || e.StoreMisaligned? || e.StoreFault?
                     || e.UserEnvCall? || e.SupervisorEnvCall? || e.MachineEnvCall?)
  {
    e.InstructionPageFault? || e.LoadPageFault? || e.StorePageFault?
  }

  /** The area that takes a fault at `addr`, when it is a serving one: the
      first area containing it, provided its handler is not the default. */
  predicate Serves(areas: seq<VmArea>, addr: nat) {
    var idx := FirstCovering(areas, addr);
    idx.Some? && !areas[idx.value].handler.Deny?
  }

  /** What a serving handler needs so that none of its `.unwrap()`s abort:
      a free frame, a readable file behind an inode handler, a page inside
      user space. */
  predicate FaultCanComplete(areas: seq<VmArea>, addr: nat, files: map<InodeId, Bytes>, free: nat) {
    Serves(areas, addr) ==>
      var a := areas[FirstCovering(areas, addr).value];
      CanResolve(a.handler, addr, files) && free > 0
      && CursorRange(AlignDown(addr), AlignDown(addr) + PAGE_SIZE)
  }

  /**
   * `page_fault_handler`: anything other than a page fault fails; otherwise
   * the first area, in list order, that contains the address handles it,
   * and an address in no area fails. A resolved fault allocates the next
   * frame, fills it, maps the faulting page to it with the area's mask
   * (replacing any entry already there) and appends the mapping to that
   * area. A failed one changes nothing.
   */
  method PageFaultHandler(ms: MemorySpace, mem: PhysMemory, code: Exception, addr: nat, files: map<InodeId, Bytes>)
    returns (ok: bool)
    requires mem.Valid()
    requires IsPageFault(code) ==> FaultCanComplete(ms.areas, addr, files, mem.free)
    modifies ms, mem
    ensures mem.Valid()
    ensures ok <==> IsPageFault(code) && Serves(old(ms.areas), addr)
    ensures !ok ==>
      ms.areas == old(ms.areas) && ms.pageTable == old(ms.pageTable)
      && mem.frames == old(mem.frames) && mem.next == old(mem.next) && mem.free == old(mem.free)
    ensures ok ==>
      var i := FirstCovering(old(ms.areas), addr).value;
      var area := old(ms.areas)[i];
      var (updated, fill) := area.HandlePageFault(addr, files, old(mem.next)).value;
      ms.areas == old(ms.areas)[i := updated]
      && ms.pageTable == old(ms.pageTable)[AlignDown(addr) := Pte(old(mem.next), area.perms)]
      && mem.frames == old(mem.frames)[old(mem.next) := fill.contents]
      && mem.next == old(mem.next) + 1 && mem.free == old(mem.free) - 1
  {
    if !IsPageFault(code) {
      return false;
    }
    var i := 0;
    while i < |ms.areas|
      invariant 0 <= i <= |ms.areas|
      invariant forall j :: 0 <= j < i ==> !ms.areas[j].ContainsVaddr(addr)
    {
      if ms.areas[i].ContainsVaddr(addr) {
        assert FirstCovering(ms.areas, addr) == Some(i);
        ok := ms.HandleAreaFault(i, mem, addr, files);
        return;
      }
      i := i + 1;
    }
    return false;
  }

}
