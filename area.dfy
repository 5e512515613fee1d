/**
 * `VmArea`: a half-open range of pages with one permission mask, one fault
 * handler and the list of its resident mappings, in the order they were
 * added. Areas are held by value in the address space's list, so the model
 * is a datatype; `set_perms` keeps its loop as a method.
 */
module Area {
  import opened Common
  import opened PageFlags
  import opened Mapping
  import opened Fault

  datatype VmArea = VmArea(
    baseVaddr: nat,
    pages: nat,
    perms: Flags,
    mappings: seq<VmMapping>,
    handler: FaultHandler)
  {
    /** One past the last byte of the area. */
    function End(): nat { baseVaddr + pages * PAGE_SIZE }

    /** `contains_vaddr`: the half-open range `[baseVaddr, End())`. For a
        page-aligned area, an address is inside it exactly when its page
        starts inside it. */
    predicate ContainsVaddr(v: nat): (b: bool)
      ensures PageAligned(baseVaddr) ==> (b <==> baseVaddr <= AlignDown(v) < End())
    {
      EndAligned(baseVaddr, pages);
      AlignedBounds(baseVaddr, v);
      AlignedBounds(End(), v);
      baseVaddr <= v < End()
    }

    /** The area invariant: every resident mapping is page-aligned and lies
        inside the area. */
    predicate Wf() {
      forall i :: 0 <= i < |mappings| ==>
        PageAligned(mappings[i].baseVaddr) && ContainsVaddr(mappings[i].baseVaddr)
    }

    /** `add_mapping`: push the mapping at the back, touch nothing else. */
    function AddMapping(m: VmMapping): (a: VmArea)
      ensures |a.mappings| == |mappings| + 1 && a.mappings[|mappings|] == m
      ensures a.mappings[..|mappings|] == mappings
      ensures a.baseVaddr == baseVaddr && a.pages == pages && a.perms == perms && a.handler == handler
    {
      this.(mappings := mappings + [m])
    }

    /** The value `set_perms(p)` leaves: the area's mask and every mapping's
        cached mask become `p`; nothing else moves. */
    function WithPerms(p: Flags): (a: VmArea)
      ensures a.perms == p
      ensures a.baseVaddr == baseVaddr && a.pages == pages && a.handler == handler
      ensures |a.mappings| == |mappings|
      ensures forall i :: 0 <= i < |mappings| ==>
        a.mappings[i].perms == p && a.mappings[i].baseVaddr == mappings[i].baseVaddr
        && a.mappings[i].frame == mappings[i].frame
    {
      this.(perms := p, mappings := seq(|mappings|, i requires 0 <= i < |mappings| => mappings[i].SetPerms(p)))
    }

    /**
     * `handle_page_fault`: the handler gets the area's own permissions and its
     * mapping list. A resolved fault maps its page to `frame` with the area's
     * permissions and appends that one mapping; an unresolved one changes
     * nothing.
     */
    function HandlePageFault(vaddr: nat, files: map<InodeId, Bytes>, frame: FrameId): (r: Option<(VmArea, Fill)>)
      requires ContainsVaddr(vaddr)
      requires CanResolve(handler, vaddr, files)
      ensures r.None? <==> handler.Deny?
      ensures r.Some? ==>
        r.value.1 == Resolve(handler, vaddr, files).value
        && r.value.0 == AddMapping(VmMapping(AlignDown(vaddr), frame, perms))
    {
      match Resolve(handler, vaddr, files)
      case None => None
      case Some(fill) => Some((AddMapping(VmMapping(fill.page, frame, perms)), fill))
    }
  }

  /** `VmArea::new`: no mappings yet, and the default handler, which refuses
      every fault. */
  function New(baseVaddr: nat, pages: nat, perms: Flags): (a: VmArea)
    ensures a.baseVaddr == baseVaddr && a.pages == pages && a.perms == perms
    ensures a.mappings == [] && a.handler == Deny
  {
    VmArea(baseVaddr, pages, perms, [], Deny)
  }

  /** `VmArea::new_with_handler`: as `new`, keeping the handler it is given. */
  function NewWithHandler(baseVaddr: nat, pages: nat, perms: Flags, handler: FaultHandler): (a: VmArea)
    ensures a.baseVaddr == baseVaddr && a.pages == pages && a.perms == perms
    ensures a.mappings == [] && a.handler == handler
  {
    VmArea(baseVaddr, pages, perms, [], handler)
  }

  /** `set_perms`: store the new mask, then walk the mapping list and
      overwrite each mapping's cached mask. */
  method SetPerms(area: VmArea, p: Flags) returns (r: VmArea)
    ensures r == area.WithPerms(p)
  {
    var ms := area.mappings;
    var i := 0;
    while i < |ms|
      invariant 0 <= i <= |ms| == |area.mappings|
      invariant ms[..i] == area.WithPerms(p).mappings[..i]
      invariant ms[i..] == area.mappings[i..]
    {
      ms := ms[i := ms[i].SetPerms(p)];
      i := i + 1;
    }
    r := area.(perms := p, mappings := ms);
  }

  /** An area that starts on a page boundary also ends on one. */
  lemma EndAligned(base: nat, pages: nat)
    ensures PageAligned(base) ==> PageAligned(base + pages * PAGE_SIZE)
  {
    if PageAligned(base) {
      var q := base / PAGE_SIZE;
      assert base + pages * PAGE_SIZE == (q + pages) * PAGE_SIZE;
    }
  }

  /** A new area is well formed: it has no mappings. */
  lemma NewIsWf(baseVaddr: nat, pages: nat, perms: Flags, handler: FaultHandler)
    ensures NewWithHandler(baseVaddr, pages, perms, handler).Wf()
    ensures New(baseVaddr, pages, perms).Wf()
  {
  }

  /** For a page-aligned area, an address is inside it exactly when it falls
      on one of its `pages` pages. */
  lemma {:induction false} ContainsIffOnSomePage(a: VmArea, v: nat)
    requires PageAligned(a.baseVaddr)
    ensures a.ContainsVaddr(v) <==> exists i :: 0 <= i < a.pages && AlignDown(v) == a.baseVaddr + i * PAGE_SIZE
  {
    if a.ContainsVaddr(v) {
      var i := (v - a.baseVaddr) / PAGE_SIZE;
      assert a.baseVaddr + i * PAGE_SIZE <= v < a.baseVaddr + i * PAGE_SIZE + PAGE_SIZE;
      AlignedPageOf(a.baseVaddr + i * PAGE_SIZE, v);
      assert i < a.pages;
    }
    if exists i :: 0 <= i < a.pages && AlignDown(v) == a.baseVaddr + i * PAGE_SIZE {
      var i :| 0 <= i < a.pages && AlignDown(v) == a.baseVaddr + i * PAGE_SIZE;
      assert (i + 1) * PAGE_SIZE <= a.pages * PAGE_SIZE;
    }
  }

  /** An address inside the aligned page at `p` rounds down to `p`. */
  lemma AlignedPageOf(p: nat, v: nat)
    requires PageAligned(p) && p <= v < p + PAGE_SIZE
    ensures AlignDown(v) == p
  {
    assert v % PAGE_SIZE == v - p;
  }

  /** The first and one-past-the-last addresses are the boundaries:
      `base` is inside a non-empty area, `base - 1` and `End()` are not. */
  lemma ContainsBoundaries(a: VmArea)
    requires a.pages > 0
    ensures a.ContainsVaddr(a.baseVaddr)
    ensures a.ContainsVaddr(a.End() - 1)
    ensures !a.ContainsVaddr(a.End())
    ensures a.baseVaddr > 0 ==> !a.ContainsVaddr(a.baseVaddr - 1)
  {
  }

  /** Appending a page-aligned mapping inside the area keeps it well formed. */
  lemma AddMappingKeepsWf(a: VmArea, m: VmMapping)
    requires a.Wf()
    requires PageAligned(m.baseVaddr) && a.ContainsVaddr(m.baseVaddr)
    ensures a.AddMapping(m).Wf()
  {
  }

  /** `set_perms` keeps the area well formed. */
  lemma WithPermsKeepsWf(a: VmArea, p: Flags)
    requires a.Wf()
    ensures a.WithPerms(p).Wf()
  {
  }

  /** A resolved fault keeps the area well formed: the page it maps is the
      aligned page of a covered address, so it lies in the area. */
  lemma HandlePageFaultKeepsWf(a: VmArea, vaddr: nat, files: map<InodeId, Bytes>, frame: FrameId)
    requires a.Wf() && PageAligned(a.baseVaddr)
    requires a.ContainsVaddr(vaddr) && CanResolve(a.handler, vaddr, files)
    requires a.HandlePageFault(vaddr, files, frame).Some?
    ensures a.HandlePageFault(vaddr, files, frame).value.0.Wf()
  {
    var page := AlignDown(vaddr);
    var i := (vaddr - a.baseVaddr) / PAGE_SIZE;
    AlignedPageOf(a.baseVaddr + i * PAGE_SIZE, vaddr);
    AddMappingKeepsWf(a, VmMapping(page, frame, a.perms));
  }
}
