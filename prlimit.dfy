/**
 * `prlimit64` of the fork-capable kernel: it only reports limits. The
 * calling process (pid 0) gets an 8 MiB stack limit and no limit on
 * anything else; the record is written to user memory when the caller asks
 * for the old limit, and the new limit is ignored.
 */
module Prlimit {
  import opened Common
  import opened PageFlags
  import opened MemorySpace
  import opened Frames

  const RLIMIT_STACK: int := 3
  const RLIMIT_AS: int := 9

  /** `u64::MAX`. */
  const RLIM_INFINITY: nat := U64_MOD - 1

  const STACK_LIMIT: nat := 8 * 1024 * 1024

  /** `RLimit64`, two `u64`s laid out in this order. */
  datatype RLimit64 = RLimit64(cur: nat, max: nat)

  /** The limit reported for `resource`: the stack limit for the stack, no
      limit for everything else. Both fields agree and fit in 64 bits. */
  function LimitFor(resource: int): (l: RLimit64)
    ensures l.cur == l.max < U64_MOD
    ensures resource == RLIMIT_STACK ==> l.cur == 8 * 1024 * 1024
    ensures resource != RLIMIT_STACK ==> l.cur == U64_MOD - 1
  {
    var rlim := RLimit64(RLIM_INFINITY, RLIM_INFINITY);
    if resource == RLIMIT_STACK then rlim.(cur := STACK_LIMIT, max := STACK_LIMIT) else rlim
  }

  function Pow256(n: nat): (p: nat)
    ensures p > 0
  {
    if n == 0 then 1 else 256 * Pow256(n - 1)
  }

  /** The `n` little-endian bytes of `v` (RISC-V is little-endian). */
  function LeBytes(v: nat, n: nat): (r: Bytes)
    ensures |r| == n
  {
    if n == 0 then [] else [(v % 256) as byte] + LeBytes(v / 256, n - 1)
  }

  /** The number little-endian bytes `bs` spell. */
  function LeValue(bs: Bytes): (v: nat)
    ensures v < Pow256(|bs|)
  {
    if bs == [] then 0 else bs[0] as nat + 256 * LeValue(bs[1..])
  }

  /** Reading back the bytes of a value that fits gives the value. */
  lemma {:induction false} LeRoundTrip(v: nat, n: nat)
    requires v < Pow256(n)
    ensures LeValue(LeBytes(v, n)) == v
  {
    if n > 0 {
      LeRoundTrip(v / 256, n - 1);
      assert LeBytes(v, n)[1..] == LeBytes(v / 256, n - 1);
    }
  }

  /** The 16 bytes of an `RLimit64` in memory. */
  function Encode(l: RLimit64): (r: Bytes)
    ensures |r| == 16
  {
    LeBytes(l.cur, 8) + LeBytes(l.max, 8)
  }

  function Decode(bs: Bytes): RLimit64
    requires |bs| == 16
  {
    RLimit64(LeValue(bs[..8]), LeValue(bs[8..]))
  }

  /** A record whose fields fit in 64 bits survives the trip through memory. */
  lemma DecodeEncode(l: RLimit64)
    requires l.cur < U64_MOD && l.max < U64_MOD
    ensures Decode(Encode(l)) == l
  {
    var bs := Encode(l);
    assert bs[..8] == LeBytes(l.cur, 8);
    assert bs[8..] == LeBytes(l.max, 8);
    LeRoundTrip(l.cur, 8);
    LeRoundTrip(l.max, 8);
  }

  /** The limit `sys_prlimit64` reports, and it leaves user memory readable
      as that limit. */
  lemma ReportedLimitDecodes(resource: int)
    ensures Decode(Encode(LimitFor(resource))) == LimitFor(resource)
  {
    DecodeEncode(LimitFor(resource));
  }

  /**
   * `sys_prlimit64`: EINVAL and no effect for any pid but 0. Otherwise the
   * call returns 0, and when `oldLimit` is not 0 the reported limit is
   * written there through the caller's memory space; the write is
   * unwrapped, so a caller must have the 16 bytes mapped writable.
   */
  method SysPrlimit64(ms: MemorySpace, mem: PhysMemory, pid: int, resource: int, newLimit: nat, oldLimit: nat)
    returns (r: Result<nat>)
    requires mem.Valid()
    requires pid == 0 && oldLimit != 0 ==> Accessible(ms.pageTable, mem.frames, oldLimit, 16, W)
    modifies mem
    ensures mem.Valid() && mem.next == old(mem.next) && mem.free == old(mem.free)
    ensures pid != 0 ==> r == Err(EINVAL) && mem.frames == old(mem.frames)
    ensures pid == 0 ==> r == Ok(0)
    ensures pid == 0 && oldLimit == 0 ==> mem.frames == old(mem.frames)
    ensures pid == 0 && oldLimit != 0 ==>
      mem.frames == WriteUser(ms.pageTable, old(mem.frames), oldLimit, Encode(LimitFor(resource)))
  {
    if pid != 0 {
      return Err(EINVAL);
    }
    var rlim := LimitFor(resource);
    if oldLimit != 0 {
      var written := ms.Writer(mem, oldLimit, Encode(rlim));
    }
    r := Ok(0);
  }
}
