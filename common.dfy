/**
 * Shared vocabulary of the kernel model: bytes, the page size, the error
 * numbers that syscalls and inode operations report, and an Option/Result
 * pair for the error paths.
 */
module Common {

  /** One byte of memory or of a file. */
  newtype byte = x: int | 0 <= x < 256

  type Bytes = seq<byte>

  /** ostd's PAGE_SIZE on RISC-V. */
  const PAGE_SIZE: nat := 4096

  /** 2^32: modulus of the `u32` arithmetic the ext2 code does. */
  const U32_MOD: nat := 0x1_0000_0000

  /** 2^64: modulus of `u64`/`usize` arithmetic. */
  const U64_MOD: nat := 0x1_0000_0000_0000_0000

  datatype Option<+T> = None | Some(value: T)

  /** The error numbers the modelled code returns. */
  datatype Errno = EINVAL | EBADF | EFAULT | ENOMEM | EISDIR | ENOTDIR | ENOENT | EACCES | ECHILD | EAGAIN

  datatype Result<+T> = Ok(value: T) | Err(errno: Errno)

  /** `n` zero bytes: the contents of a freshly allocated (zeroed) frame. */
  function Zeros(n: nat): (z: Bytes)
    ensures |z| == n
    ensures forall i :: 0 <= i < n ==> z[i] == 0
  {
    seq(n, _ => 0)
  }

  function Min(a: int, b: int): int { if a <= b then a else b }

  function Max(a: int, b: int): int { if a >= b then a else b }

  /** `v.align_down(PAGE_SIZE)`. */
  function AlignDown(v: nat): (r: nat)
    ensures r <= v < r + PAGE_SIZE
    ensures r % PAGE_SIZE == 0
  {
    v - v % PAGE_SIZE
  }

  /** `v.align_up(PAGE_SIZE)`, over unbounded integers. */
  function AlignUp(v: nat): (r: nat)
    ensures v <= r < v + PAGE_SIZE
    ensures r % PAGE_SIZE == 0
  {
    if v % PAGE_SIZE == 0 then v else v - v % PAGE_SIZE + PAGE_SIZE
  }

  predicate PageAligned(v: nat) { v % PAGE_SIZE == 0 }

  /** Two different page-aligned addresses are at least a page apart. */
  lemma AlignedGap(a: nat, b: nat)
    requires PageAligned(a) && PageAligned(b) && a < b
    ensures a + PAGE_SIZE <= b
  {
    var qa, qb := a / PAGE_SIZE, b / PAGE_SIZE;
    assert a == qa * PAGE_SIZE && b == qb * PAGE_SIZE;
    assert qa < qb;
  }

  /** For a page-aligned `a`: `a <= v` iff `a <= align_down(v)`, and
      `v < a` iff `align_down(v) < a`. */
  lemma AlignedBounds(a: nat, v: nat)
    ensures PageAligned(a) ==> (a <= v <==> a <= AlignDown(v))
    ensures PageAligned(a) ==> (v < a <==> AlignDown(v) < a)
  {
    if PageAligned(a) && a <= v && AlignDown(v) < a {
      AlignedGap(AlignDown(v), a);
    }
  }

  /** The number of pages that hold `n` bytes: `n / PAGE_SIZE` rounded up. */
  function PagesFor(n: nat): (p: nat)
    ensures n <= p * PAGE_SIZE < n + PAGE_SIZE
  {
    (n + PAGE_SIZE - 1) / PAGE_SIZE
  }
}
