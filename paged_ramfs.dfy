/**
 * The RAM file store of the demand-paging kernel: a file keeps its bytes
 * in a list of whole page frames plus a size; a directory keeps a map from
 * name to inode. Inodes are shared between directories (`Arc`), so an inode
 * is a class; its frames belong to it alone and are held by value.
 */
module PagedRamfs {
  import opened Common
  import opened FileData

  /** The size a directory reports. */
  const DIRECTORY_SIZE: nat := 12

  /** Byte `k` of a file stored in `pages`: byte `k % PAGE_SIZE` of frame
      `k / PAGE_SIZE`, or 0 where no frame holds it. */
  function ByteOf(pages: seq<Bytes>, k: nat): byte {
    var i := k / PAGE_SIZE;
    if i < |pages| && k % PAGE_SIZE < |pages[i]| then pages[i][k % PAGE_SIZE] else 0
  }

  /** Every frame holds exactly one page. */
  predicate WholeFrames(pages: seq<Bytes>) {
    forall i :: 0 <= i < |pages| ==> |pages[i]| == PAGE_SIZE
  }

  /** Every byte the frames hold from `size` on is 0. */
  predicate ZeroTail(pages: seq<Bytes>, size: nat) {
    forall k :: size <= k < |pages| * PAGE_SIZE ==> ByteOf(pages, k) == 0
  }

  /** The first `size` bytes held by `pages`: the file's contents. */
  function FileBytes(pages: seq<Bytes>, size: nat): (c: Bytes)
    ensures |c| == size && forall k :: 0 <= k < size ==> c[k] == ByteOf(pages, k)
  {
    seq(size, k requires 0 <= k < size => ByteOf(pages, k))
  }

  /** A zeroed frame appended at the end leaves every byte as it was below
      the old end and adds zeros above it. */
  lemma AppendZeroFrame(pages: seq<Bytes>, k: nat)
    requires WholeFrames(pages)
    ensures WholeFrames(pages + [Zeros(PAGE_SIZE)])
    ensures ByteOf(pages + [Zeros(PAGE_SIZE)], k) == if k < |pages| * PAGE_SIZE then ByteOf(pages, k) else 0
  {
    var q := pages + [Zeros(PAGE_SIZE)];
    if k < |pages| * PAGE_SIZE {
      assert k / PAGE_SIZE < |pages|;
      assert q[k / PAGE_SIZE] == pages[k / PAGE_SIZE];
    }
  }

  /** Overwriting bytes `[po, po + |chunk|)` of frame `pi` changes exactly the
      file bytes from `pi * PAGE_SIZE + po` on, to those of `chunk`. */
  lemma WriteChunkEffect(pages: seq<Bytes>, pi: nat, po: nat, chunk: Bytes, k: nat)
    requires WholeFrames(pages) && pi < |pages| && po + |chunk| <= PAGE_SIZE
    ensures var q := pages[pi := pages[pi][..po] + chunk + pages[pi][po + |chunk|..]];
      && WholeFrames(q) && |q| == |pages|
      && ByteOf(q, k) == if pi * PAGE_SIZE + po <= k < pi * PAGE_SIZE + po + |chunk|
                         then chunk[k - pi * PAGE_SIZE - po] else ByteOf(pages, k)
  {
    var q := pages[pi := pages[pi][..po] + chunk + pages[pi][po + |chunk|..]];
    if pi * PAGE_SIZE + po <= k < pi * PAGE_SIZE + po + |chunk| {
      assert k / PAGE_SIZE == pi && k % PAGE_SIZE == po + (k - pi * PAGE_SIZE - po);
    } else if k / PAGE_SIZE == pi {
      assert k % PAGE_SIZE == k - pi * PAGE_SIZE;
    }
  }

  /** One step of `CopyIn`: writing the next `n` bytes of `data` at `cur`
      inside one frame extends the copied prefix from `cur` to `cur + n`. */
  lemma CopyChunkStep(orig: seq<Bytes>, before: seq<Bytes>, offset: nat, cur: nat, data: Bytes, n: nat)
    requires WholeFrames(before) && |before| == |orig|
    requires cur / PAGE_SIZE < |before| && cur % PAGE_SIZE + n <= PAGE_SIZE
    requires offset <= cur && cur - offset + n <= |data|
    requires forall k: nat :: ByteOf(before, k) == if offset <= k < cur then data[k - offset] else ByteOf(orig, k)
    ensures var pi, po := cur / PAGE_SIZE, cur % PAGE_SIZE;
      var q := before[pi := before[pi][..po] + data[cur - offset..cur - offset + n] + before[pi][po + n..]];
      && WholeFrames(q) && |q| == |orig|
      && forall k: nat :: ByteOf(q, k) == if offset <= k < cur + n then data[k - offset] else ByteOf(orig, k)
  {
    var pi, po := cur / PAGE_SIZE, cur % PAGE_SIZE;
    var chunk := data[cur - offset..cur - offset + n];
    var frame := before[pi][..po] + chunk + before[pi][po + n..];
    assert |frame| == PAGE_SIZE;
    var q := before[pi := frame];
    assert forall i :: 0 <= i < |q| ==> q[i] == if i == pi then frame else before[i];
    forall k: nat
      ensures ByteOf(q, k) == if offset <= k < cur + n then data[k - offset] else ByteOf(orig, k)
    {
      CopyChunkByte(orig, before, offset, cur, data, n, k);
    }
  }

  /** `CopyChunkStep` at one address `k`. */
  lemma CopyChunkByte(orig: seq<Bytes>, before: seq<Bytes>, offset: nat, cur: nat, data: Bytes, n: nat, k: nat)
    requires WholeFrames(before)
    requires cur / PAGE_SIZE < |before| && cur % PAGE_SIZE + n <= PAGE_SIZE
    requires offset <= cur && cur - offset + n <= |data|
    requires ByteOf(before, k) == if offset <= k < cur then data[k - offset] else ByteOf(orig, k)
    ensures var pi, po := cur / PAGE_SIZE, cur % PAGE_SIZE;
      var q := before[pi := before[pi][..po] + data[cur - offset..cur - offset + n] + before[pi][po + n..]];
      ByteOf(q, k) == if offset <= k < cur + n then data[k - offset] else ByteOf(orig, k)
  {
    var pi, po := cur / PAGE_SIZE, cur % PAGE_SIZE;
    var chunk := data[cur - offset..cur - offset + n];
    assert pi * PAGE_SIZE + po == cur;
    WriteChunkEffect(before, pi, po, chunk, k);
    if cur <= k < cur + n {
      assert chunk[k - cur] == data[k - offset];
    }
  }

  /** Bytes `[po, po + n)` of frame `cur / PAGE_SIZE` are the file bytes
      from `cur` on, when they stay inside the frame. */
  lemma ReadChunk(pages: seq<Bytes>, cur: nat, n: nat, a: nat)
    requires WholeFrames(pages) && cur / PAGE_SIZE < |pages| && cur % PAGE_SIZE + n <= PAGE_SIZE
    requires cur <= a < cur + n
    ensures ByteOf(pages, a) == pages[cur / PAGE_SIZE][cur % PAGE_SIZE + (a - cur)]
  {
    assert a / PAGE_SIZE == cur / PAGE_SIZE && a % PAGE_SIZE == cur % PAGE_SIZE + (a - cur);
  }

  /** Every address below `|pages| * PAGE_SIZE` lies in one of the frames. */
  lemma InSomeFrame(pages: seq<Bytes>, k: nat)
    requires k < |pages| * PAGE_SIZE
    ensures k / PAGE_SIZE < |pages|
  {
  }

  class RamInode {
    /** Which of `Inner::File` and `Inner::Directory` this inode is. */
    const isDir: bool
    var pages: seq<Bytes>
    var size: nat
    var entries: map<string, RamInode>

    /** A file's bytes fit its frames, and the frames are zero past the size;
        a directory holds no bytes, a file no entries. */
    ghost predicate Valid()
      reads this
    {
      WholeFrames(pages) && size <= |pages| * PAGE_SIZE && ZeroTail(pages, size)
      && (isDir ==> pages == [] && size == 0)
      && (!isDir ==> entries == map[])
    }

    /** The bytes of the file. */
    function Contents(): Bytes
      reads this
    {
      FileBytes(pages, size)
    }

    /** `RamInode::new_file`: an empty file. */
    constructor NewFile()
      ensures Valid() && !isDir && pages == [] && Contents() == [] && entries == map[]
    {
      isDir := false;
      pages := [];
      size := 0;
      entries := map[];
    }

    /** `RamInode::new_directory`: an empty directory. */
    constructor NewDirectory()
      ensures Valid() && isDir && entries == map[]
    {
      isDir := true;
      pages := [];
      size := 0;
      entries := map[];
    }

    /** `size`: the number of bytes of a file; a directory reports 12. */
    function Size(): (n: nat)
      reads this
      ensures !isDir ==> n == |Contents()|
      ensures isDir ==> n == DIRECTORY_SIZE
    {
      if isDir then DIRECTORY_SIZE else size
    }

    /** `typ`. */
    function Typ(): (t: InodeType)
      reads this
      ensures t != SymbolLink
      ensures t == Directory <==> isDir
    {
      if isDir then Directory else File
    }

    /**
     * `read_at(offset, writer)` with a writer of `avail` bytes: EISDIR on a
     * directory; otherwise the bytes `ReadRange` gives, gathered frame by
     * frame.
     */
    method ReadAt(offset: nat, avail: nat) returns (r: Result<Bytes>)
      requires Valid()
      ensures isDir ==> r == Err(EISDIR)
      ensures !isDir ==> r == Ok(ReadRange(Contents(), offset, avail))
    {
      if isDir {
        return Err(EISDIR);
      }
      if offset >= size {
        return Ok([]);
      }
      var currentOffset := offset;
      var bytesRead := 0;
      var totalToRead := Min(size - offset, avail);
      var out: Bytes := [];
      while bytesRead < totalToRead
        invariant bytesRead <= totalToRead && |out| == bytesRead && currentOffset == offset + bytesRead
        invariant forall a :: offset <= a < currentOffset ==> out[a - offset] == ByteOf(pages, a)
      {
        var pageIdx := currentOffset / PAGE_SIZE;
        var pageOffset := currentOffset % PAGE_SIZE;
        InSomeFrame(pages, currentOffset);
        var toRead := Min(PAGE_SIZE - pageOffset, totalToRead - bytesRead);
        var chunk := pages[pageIdx][pageOffset..pageOffset + toRead];
        forall a | currentOffset <= a < currentOffset + toRead
          ensures ByteOf(pages, a) == chunk[a - currentOffset]
        {
          ReadChunk(pages, currentOffset, toRead, a);
        }
        out := out + chunk;
        bytesRead := bytesRead + toRead;
        currentOffset := currentOffset + toRead;
      }
      assert forall i :: 0 <= i < |out| ==> out[i] == ByteOf(pages, offset + i) by {
        forall i | 0 <= i < |out|
          ensures out[i] == ByteOf(pages, offset + i)
        {
          var a := offset + i;
          assert out[a - offset] == ByteOf(pages, a);
        }
      }
      assert out == ReadRange(Contents(), offset, avail);
      r := Ok(out);
    }

    /** Frames below `target` are appended, zeroed, in turn; the allocator
        can hand out `free` more. Stops with ENOMEM when it runs dry. */
    method GrowTo(target: nat, free: nat) returns (ok: bool, used: nat)
      requires Valid() && !isDir
      modifies this
      ensures Valid() && size == old(size) && entries == old(entries)
      ensures Contents() == old(Contents())
      ensures var missing := if target > |old(pages)| then target - |old(pages)| else 0;
        && (ok <==> missing <= free)
        && used == (if ok then missing else free)
        && |pages| == |old(pages)| + used
    {
      used := 0;
      while |pages| < target
        invariant Valid() && size == old(size) && entries == old(entries)
        invariant Contents() == old(Contents())
        invariant used <= free && |pages| == |old(pages)| + used
        invariant |pages| <= Max(target, |old(pages)|)
        decreases target - |pages|
      {
        if used == free {
          return false, used;
        }
        ghost var before := pages;
        forall k: nat
          ensures ByteOf(before + [Zeros(PAGE_SIZE)], k) == if k < |before| * PAGE_SIZE then ByteOf(before, k) else 0
        {
          AppendZeroFrame(before, k);
        }
        AppendZeroFrame(before, 0);
        pages := pages + [Zeros(PAGE_SIZE)];
        assert FileBytes(pages, size) == FileBytes(before, size);
        used := used + 1;
      }
      ok := true;
    }

    /** Overwrite the file bytes `[offset, offset + |data|)`, frame by frame;
        the frames must already cover them. */
    method CopyIn(offset: nat, data: Bytes)
      requires WholeFrames(pages) && offset + |data| <= |pages| * PAGE_SIZE
      modifies this
      ensures WholeFrames(pages) && |pages| == |old(pages)|
      ensures size == old(size) && entries == old(entries)
      ensures forall k: nat :: ByteOf(pages, k) == if offset <= k < offset + |data| then data[k - offset] else ByteOf(old(pages), k)
    {
      var currentOffset := offset;
      var bytesWritten := 0;
      var totalToWrite := |data|;
      while bytesWritten < totalToWrite
        invariant bytesWritten <= totalToWrite && currentOffset == offset + bytesWritten
        invariant WholeFrames(pages) && |pages| == |old(pages)|
        invariant size == old(size) && entries == old(entries)
        invariant forall k: nat ::
          ByteOf(pages, k) == if offset <= k < currentOffset then data[k - offset] else ByteOf(old(pages), k)
      {
        var pageIdx := currentOffset / PAGE_SIZE;
        var pageOffset := currentOffset % PAGE_SIZE;
        InSomeFrame(pages, currentOffset);
        var toWrite := Min(PAGE_SIZE - pageOffset, totalToWrite - bytesWritten);
        var chunk := data[bytesWritten..bytesWritten + toWrite];
        CopyChunkStep(old(pages), pages, offset, currentOffset, data, toWrite);
        pages := pages[pageIdx := pages[pageIdx][..pageOffset] + chunk + pages[pageIdx][pageOffset + toWrite..]];
        bytesWritten := bytesWritten + toWrite;
        currentOffset := currentOffset + toWrite;
      }
    }

    /**
     * `write_at(offset, reader)` with the reader's bytes `data`, when the
     * frame allocator can hand out `free` more frames: EISDIR on a
     * directory. Otherwise enough frames for `offset + |data|` bytes are
     * appended, or, when the allocator runs dry first, ENOMEM is returned
     * with the frames allocated so far kept and the contents untouched.
     * With the frames in place the file becomes `WriteRange` of its old
     * bytes, and the count written is `|data|`. `used` is the number of
     * frames taken from the allocator.
     */
    method WriteAt(offset: nat, data: Bytes, free: nat) returns (r: Result<nat>, used: nat)
      requires Valid()
      modifies this
      ensures Valid() && entries == old(entries)
      ensures isDir ==> r == Err(EISDIR) && used == 0 && pages == old(pages) && size == old(size)
      ensures !isDir ==>
        var needed := PagesFor(offset + |data|);
        var missing := if needed > |old(pages)| then needed - |old(pages)| else 0;
        && (r.Ok? <==> missing <= free)
        && (r.Ok? ==> r.value == |data| && used == missing && Contents() == WriteRange(old(Contents()), offset, data))
        && (r.Err? ==> r.errno == ENOMEM && used == free && Contents() == old(Contents()))
        && |pages| == |old(pages)| + used
    {
      if isDir {
        return Err(EISDIR), 0;
      }
      var writeEnd := offset + |data|;
      var neededFrames := (writeEnd + PAGE_SIZE - 1) / PAGE_SIZE;
      var ok;
      ok, used := GrowTo(neededFrames, free);
      if !ok {
        return Err(ENOMEM), used;
      }
      ghost var grown, c0 := pages, Contents();
      assert writeEnd <= |pages| * PAGE_SIZE;
      CopyIn(offset, data);
      if writeEnd > size {
        size := writeEnd;
      }
      WrittenContents(grown, pages, old(size), offset, data);
      r := Ok(|data|);
    }

    /** `lookup(name)`: ENOTDIR on a file, ENOENT for a name the directory
        does not hold, otherwise the inode the name is bound to. */
    function Lookup(name: string): (r: Result<RamInode>)
      reads this
      ensures r.Err? <==> !isDir || name !in entries
      ensures r.Err? ==> r.errno == (if isDir then ENOENT else ENOTDIR)
      ensures r.Ok? ==> r.value == entries[name]
    {
      if !isDir then Err(ENOTDIR)
      else if name !in entries then Err(ENOENT)
      else Ok(entries[name])
    }

    /**
     * `create(name, type)`: ENOTDIR on a file; otherwise a fresh empty inode
     * of the type, bound to `name` (replacing any inode bound to it) and
     * returned. A symbolic link aborts the kernel (`todo!()`), so it is not
     * asked for.
     */
    method Create(name: string, typ: InodeType) returns (r: Result<RamInode>)
      requires Valid() && (isDir ==> typ != SymbolLink)
      modifies this
      ensures Valid() && pages == old(pages) && size == old(size)
      ensures !isDir ==> r == Err(ENOTDIR) && entries == old(entries)
      ensures isDir ==>
        && r.Ok? && fresh(r.value) && r.value.Valid() && r.value.isDir == (typ == Directory)
        && r.value.Size() == (if typ == Directory then DIRECTORY_SIZE else 0)
        && entries == old(entries)[name := r.value]
        && Lookup(name) == Ok(r.value)
        && forall n :: n != name ==> Lookup(n) == old(Lookup(n))
    {
      if !isDir {
        return Err(ENOTDIR);
      }
      var inode: RamInode;
      if typ == File {
        inode := new RamInode.NewFile();
      } else {
        inode := new RamInode.NewDirectory();
      }
      entries := entries[name := inode];
      r := Ok(inode);
    }
  }

  /**
   * After the frames `grown` (zero past `size0`) have been overwritten at
   * `[offset, offset + |data|)` into `pages` and the size raised to cover the
   * write, the file holds `WriteRange` of its old bytes, and the frames are
   * still zero past the new size.
   */
  lemma WrittenContents(grown: seq<Bytes>, pages: seq<Bytes>, size0: nat, offset: nat, data: Bytes)
    requires |pages| == |grown| && size0 <= |grown| * PAGE_SIZE && ZeroTail(grown, size0)
    requires offset + |data| <= |grown| * PAGE_SIZE
    requires forall k: nat :: ByteOf(pages, k) == if offset <= k < offset + |data| then data[k - offset] else ByteOf(grown, k)
    ensures var size1 := Max(size0, offset + |data|);
      && FileBytes(pages, size1) == WriteRange(FileBytes(grown, size0), offset, data)
      && ZeroTail(pages, size1)
  {
    var size1 := Max(size0, offset + |data|);
    var c0 := FileBytes(grown, size0);
    var w := WriteRange(c0, offset, data);
    forall k | 0 <= k < size1
      ensures FileBytes(pages, size1)[k] == w[k]
    {
      assert ByteOf(pages, k) == if offset <= k < offset + |data| then data[k - offset] else ByteOf(grown, k);
    }
  }

  /**
   * A ten-byte write that straddles the first page boundary takes two
   * frames and reads back whole; the size becomes the end of the write. A
   * write that needs three frames when only one is free fails with ENOMEM,
   * keeping that frame and leaving the file empty.
   */
  method WriteAcrossPages() returns (w: Result<nat>, used: nat, read: Result<Bytes>, size: nat,
                                     failed: Result<nat>, taken: nat, emptyAfter: bool)
    ensures w == Ok(10) && used == 2 && size == 4100
    ensures read == Ok([1, 2, 3, 4, 5, 6, 7, 8, 9, 10])
    ensures failed == Err(ENOMEM) && taken == 1 && emptyAfter
  {
    var data: Bytes := [1, 2, 3, 4, 5, 6, 7, 8, 9, 10];
    var f := new RamInode.NewFile();
    assert PagesFor(4100) == 2;
    w, used := f.WriteAt(4090, data, 2);
    read := f.ReadAt(4090, 100);
    size := f.Size();
    ReadAfterWrite([], 4090, data, 100);
    assert ReadRange(f.Contents(), 4090, 100) == data;
    var g := new RamInode.NewFile();
    assert PagesFor(8193) == 3;
    failed, taken := g.WriteAt(8192, [1], 1);
    emptyAfter := g.Size() == 0;
  }

  /**
   * A directory binds created names: `lookup` finds the created inode, a
   * missing name gives ENOENT, `lookup` on a file gives ENOTDIR, a new file
   * has size 0 and a directory reports 12.
   */
  method CreateThenLookup() returns (found: bool, missing: Result<RamInode>, notDir: Result<RamInode>,
                                     fileSize: nat, dirSize: nat)
    ensures found && missing == Err(ENOENT) && notDir == Err(ENOTDIR)
    ensures fileSize == 0 && dirSize == DIRECTORY_SIZE
  {
    var root := new RamInode.NewDirectory();
    var created := root.Create("a.txt", File);
    var sub := root.Create("sub", Directory);
    found := root.Lookup("a.txt") == created;
    missing := root.Lookup("b.txt");
    notDir := created.value.Lookup("x");
    fileSize := created.value.Size();
    dirSize := sub.value.Size();
  }
}
