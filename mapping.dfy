/**
 * `VmMapping`: one resident virtual page bound to one physical frame, with a
 * cached copy of its permissions. Mappings live by value inside an area's
 * list, so the model is a datatype and its two mutators return the updated
 * value.
 */
module Mapping {
  import opened Common
  import opened PageFlags

  /** Identity of a physical frame (its handle, `Frame<()>`). */
  type FrameId = nat

  /** `VmMapping::new(base_vaddr, perms, frame)` is the constructor. */
  datatype VmMapping = VmMapping(baseVaddr: nat, frame: FrameId, perms: Flags)
  {
    /** `contains_vaddr`: the one page starting at `baseVaddr`. For a
        page-aligned mapping, an address is inside it exactly when it rounds
        down to the mapping's base. */
    predicate ContainsVaddr(v: nat): (b: bool)
      ensures PageAligned(baseVaddr) ==> (b <==> AlignDown(v) == baseVaddr)
    {
      AlignedBounds(baseVaddr, v);
      AlignedBounds(baseVaddr + PAGE_SIZE, v);
      baseVaddr <= v < baseVaddr + PAGE_SIZE
    }

    /** `set_perms`: replace the cached permissions. */
    function SetPerms(p: Flags): (m: VmMapping)
      ensures m.perms == p
      ensures m.baseVaddr == baseVaddr && m.frame == frame
    {
      this.(perms := p)
    }

    /** `remove_perm`: clear the bits of `f`, keep every other bit. */
    function RemovePerm(f: Flags): (m: VmMapping)
      ensures m.baseVaddr == baseVaddr && m.frame == frame
      ensures forall g: Flags :: Has(m.perms, g) <==> Has(perms, g) && g & f == 0
    {
      this.(perms := perms & !f)
    }
  }
}
