/**
 * Page permission flags (ostd's `PageFlags`), as a bit set.
 *
 * The numeric layout of `PageFlags` belongs to the OS framework, which is
 * not part of this model. R, W and X sit on the bit values of PROT_READ,
 * PROT_WRITE and PROT_EXEC (so that `sys_mmap`'s `from_bits_truncate`
 * reads them as the same permissions); U and V take the next two bits.
 */
module PageFlags {

  type Flags = bv8

  const R: Flags := 0x01
  const W: Flags := 0x02
  const X: Flags := 0x04
  const U: Flags := 0x08
  const V: Flags := 0x10

  /** Every bit that names a defined flag. */
  const ALL: Flags := 0x1F

  /** True when every bit of `g` is set in `f` (`f.contains(g)`). */
  predicate Has(f: Flags, g: Flags) { f & g == g }

  /** `PageFlags::from_bits_truncate(bits as u8)`: the value is cut to its
      low byte, then every bit that names no flag is dropped. */
  function FromBitsTruncate(bits: nat): (f: Flags)
    ensures f & !ALL == 0
    ensures forall g: Flags :: g & !ALL == 0 ==> (Has(f, g) <==> Has((bits % 256) as Flags, g))
  {
    ((bits % 256) as Flags) & ALL
  }
}
