/**
 * The byte-level meaning of an in-memory file, shared by both RAM file
 * stores and by the inode-backed page-fault handler: what `read_at`
 * delivers and what `write_at` leaves, as functions of the file's bytes.
 */
module FileData {
  import opened Common

  /** The kinds of inode. */
  datatype InodeType = File | Directory | SymbolLink

  /**
   * What `read_at(offset, writer)` delivers from a file holding `c` into a
   * writer with room for `avail` bytes: nothing at or past the end, and
   * otherwise the `min(|c| - offset, avail)` bytes that start at `offset`.
   */
  function ReadRange(c: Bytes, offset: nat, avail: nat): (r: Bytes)
    ensures |r| == if offset >= |c| then 0 else Min(|c| - offset, avail)
    ensures |r| <= avail
    ensures forall i :: 0 <= i < |r| ==> r[i] == c[offset + i]
  {
    if offset >= |c| then [] else c[offset..offset + Min(|c| - offset, avail)]
  }

  /**
   * The file after `write_at(offset, d)` on a file holding `c`: byte `k`
   * is `d`'s byte where `d` was written, the old byte elsewhere below the
   * old end, and 0 in a gap between the old end and `offset`.
   */
  function WriteRange(c: Bytes, offset: nat, d: Bytes): (r: Bytes)
    ensures |r| == Max(|c|, offset + |d|)
    ensures r[offset..offset + |d|] == d
    ensures offset <= |c| ==> r[..offset] == c[..offset]
    ensures offset > |c| ==> r[..|c|] == c && r[|c|..offset] == Zeros(offset - |c|)
    ensures offset + |d| < |c| ==> r[offset + |d|..] == c[offset + |d|..]
  {
    seq(Max(|c|, offset + |d|), k requires 0 <= k < Max(|c|, offset + |d|) =>
      if offset <= k < offset + |d| then d[k - offset] else if k < |c| then c[k] else 0)
  }

  /** A write followed by a read of the same range returns the written
      bytes, whatever the file held before. */
  lemma ReadAfterWrite(c: Bytes, offset: nat, d: Bytes, avail: nat)
    requires avail >= |d|
    ensures |d| > 0 ==> ReadRange(WriteRange(c, offset, d), offset, avail)[..|d|] == d
    ensures ReadRange(WriteRange(c, offset, d), offset, |d|) == d
  {
    var w := WriteRange(c, offset, d);
    if |d| > 0 {
      assert ReadRange(w, offset, avail)[..|d|] == w[offset..offset + |d|];
    }
    assert ReadRange(w, offset, |d|) == w[offset..offset + |d|];
  }

  /** A read that lies outside the written range sees the old bytes. */
  lemma ReadElsewhere(c: Bytes, offset: nat, d: Bytes, k: nat)
    requires k < |c| && !(offset <= k < offset + |d|)
    ensures ReadRange(WriteRange(c, offset, d), k, 1) == [c[k]]
  {
    var w := WriteRange(c, offset, d);
    assert ReadRange(w, k, 1)[0] == w[k];
  }

  /** Writing the same bytes twice is the same as writing them once. */
  lemma WriteIdempotent(c: Bytes, offset: nat, d: Bytes)
    ensures WriteRange(WriteRange(c, offset, d), offset, d) == WriteRange(c, offset, d)
  {
  }
}
