/**
 * `sys_mprotect`: translate the `PROT_*` bits of the system call into page
 * flags, then hand them to the address space's `protect`.
 */
module Mprotect {
  import opened Common
  import opened PageFlags
  import opened Mapping
  import opened MemorySpace

  const PROT_NONE: bv64 := 0
  const PROT_READ: bv64 := 1
  const PROT_WRITE: bv64 := 2
  const PROT_EXEC: bv64 := 4

  /**
   * `translate_prot_flags`: a user page that is valid, plus R, W and X for
   * the PROT_READ, PROT_WRITE and PROT_EXEC bits of `prot`; no other bit of
   * `prot` has an effect.
   */
  function TranslateProtFlags(prot: bv64): (f: Flags)
    ensures Has(f, U) && Has(f, V)
    ensures Has(f, R) <==> prot & PROT_READ != 0
    ensures Has(f, W) <==> prot & PROT_WRITE != 0
    ensures Has(f, X) <==> prot & PROT_EXEC != 0
    ensures f & !ALL == 0
    ensures prot == PROT_NONE ==> f == U | V
  {
    var flags := U | V;
    var flags := if prot & PROT_READ != 0 then flags | R else flags;
    var flags := if prot & PROT_WRITE != 0 then flags | W else flags;
    if prot & PROT_EXEC != 0 then flags | X else flags
  }

  /** The translation reads only the three low bits of `prot`. */
  lemma TranslateIgnoresHighBits(p: bv64, q: bv64)
    requires p & 7 == q & 7
    ensures TranslateProtFlags(p) == TranslateProtFlags(q)
  {
    assert p & PROT_READ == (p & 7) & PROT_READ && q & PROT_READ == (q & 7) & PROT_READ;
    assert p & PROT_WRITE == (p & 7) & PROT_WRITE && q & PROT_WRITE == (q & 7) & PROT_WRITE;
    assert p & PROT_EXEC == (p & 7) & PROT_EXEC && q & PROT_EXEC == (q & 7) & PROT_EXEC;
  }

  /**
   * After `mprotect(vaddr, len, prot)`, an address of the range whose page
   * was mapped can be read, written or executed exactly when `prot` asks for
   * it; the mapping's frame stays the same.
   */
  lemma MprotectGrantsExactly(pt: PageTable, frames: map<FrameId, Bytes>, vaddr: nat, len: nat, prot: bv64, a: nat)
    requires PageAligned(vaddr) && vaddr <= a < vaddr + len
    requires AlignDown(a) in pt && pt[AlignDown(a)].frame in frames
    ensures var pt' := ProtectedPtes(pt, vaddr, len, TranslateProtFlags(prot));
      && (CanAccess(pt', frames, a, R) <==> prot & PROT_READ != 0)
      && (CanAccess(pt', frames, a, W) <==> prot & PROT_WRITE != 0)
      && (CanAccess(pt', frames, a, X) <==> prot & PROT_EXEC != 0)
      && pt'[AlignDown(a)].frame == pt[AlignDown(a)].frame
  {
    var page := AlignDown(a);
    assert vaddr <= page by {
      assert vaddr % PAGE_SIZE == 0;
      assert (a - vaddr) % PAGE_SIZE == a % PAGE_SIZE;
    }
  }

  /**
   * `sys_mprotect(addr, len, prot)`: `protect` with the translated flags,
   * then 0. `protect` cannot fail once its cursor is created, so neither can
   * the system call.
   */
  method SysMprotect(ms: MemorySpace, addr: nat, len: nat, prot: bv64) returns (r: Result<nat>)
    requires CursorRange(addr, addr + len)
    modifies ms
    ensures r == Ok(0)
    ensures ms.pageTable == ProtectedPtes(old(ms.pageTable), addr, len, TranslateProtFlags(prot))
    ensures |ms.areas| == |old(ms.areas)|
    ensures forall i :: 0 <= i < |ms.areas| ==>
      ms.areas[i] == if Overlaps(old(ms.areas)[i], addr, len)
                     then old(ms.areas)[i].WithPerms(TranslateProtFlags(prot)) else old(ms.areas)[i]
  {
    var newFlags := TranslateProtFlags(prot);
    var _ := ms.Protect(addr, len, newFlags);
    r := Ok(0);
  }
}
