/**
 * The RAM file store of the file-descriptor kernel: a file keeps its bytes
 * in one growable vector; a directory keeps a map from name to inode, and
 * `open` on a directory creates a missing name as an empty file.
 */
module ByteRamfs {
  import opened Common
  import opened FileData

  /** The size a directory reports. */
  const DIRECTORY_SIZE: nat := 12

  class RamInode {
    /** Which of `Inner::File` and `Inner::Directory` this inode is. */
    const isDir: bool
    var data: Bytes
    var entries: map<string, RamInode>

    /** A directory holds no bytes, a file no entries. */
    ghost predicate Valid()
      reads this
    {
      (isDir ==> data == []) && (!isDir ==> entries == map[])
    }

    /** `RamInode::new_file`. */
    constructor NewFile()
      ensures Valid() && !isDir && data == [] && entries == map[]
    {
      isDir := false;
      data := [];
      entries := map[];
    }

    /** `RamInode::new_directory`. */
    constructor NewDirectory()
      ensures Valid() && isDir && data == [] && entries == map[]
    {
      isDir := true;
      data := [];
      entries := map[];
    }

    /**
     * `read_at(offset, writer)` with a writer of `avail` bytes: EISDIR on a
     * directory, nothing at or past the end, otherwise the slice of
     * `min(len - offset, avail)` bytes from `offset`; the same bytes the
     * frame-backed store delivers.
     */
    function ReadAt(offset: nat, avail: nat): (r: Result<Bytes>)
      reads this
      ensures isDir <==> r.Err?
      ensures r.Err? ==> r.errno == EISDIR
      ensures r.Ok? ==> |r.value| == (if offset >= |data| then 0 else Min(|data| - offset, avail))
      ensures r.Ok? ==> forall i :: 0 <= i < |r.value| ==> r.value[i] == data[offset + i]
      ensures r.Ok? ==> r.value == ReadRange(data, offset, avail)
    {
      if isDir then Err(EISDIR)
      else if offset >= |data| then Ok([])
      else
        var readLen := Min(|data| - offset, avail);
        Ok(data[offset..offset + readLen])
    }

    /**
     * `write_at(offset, reader)` with the reader's bytes `d`: EISDIR on a
     * directory. Otherwise a gap past the end is zero-filled, the vector is
     * grown to cover the write, and the bytes are copied in; every byte is
     * written, so the result is `|d|`.
     */
    method WriteAt(offset: nat, d: Bytes) returns (r: Result<nat>)
      requires Valid()
      modifies this
      ensures Valid() && entries == old(entries)
      ensures isDir ==> r == Err(EISDIR) && data == old(data)
      ensures !isDir ==> r == Ok(|d|) && data == WriteRange(old(data), offset, d)
    {
      if isDir {
        return Err(EISDIR);
      }
      if offset > |data| {
        data := data + Zeros(offset - |data|);
      }
      if offset + |d| > |data| {
        data := data + Zeros(offset + |d| - |data|);
      }
      var writeLen := Min(|data| - offset, |d|);
      data := data[..offset] + d[..writeLen] + data[offset + writeLen..];
      assert d[..writeLen] == d;
      assert forall k :: 0 <= k < |data| ==> data[k] == WriteRange(old(data), offset, d)[k];
      r := Ok(writeLen);
    }

    /** `size`: the length of a file's bytes; a directory reports 12. */
    function Size(): (n: nat)
      reads this
      ensures n == if isDir then DIRECTORY_SIZE else |data|
    {
      if isDir then DIRECTORY_SIZE else |data|
    }

    /**
     * `open(name)`: a file opens to itself. A directory returns the inode
     * bound to `name`, or binds `name` to a new empty file and returns that.
     * No other name changes.
     */
    method Open(name: string) returns (r: RamInode)
      requires Valid()
      modifies this
      ensures Valid() && data == old(data)
      ensures !isDir ==> r == this && entries == old(entries)
      ensures isDir && name in old(entries) ==> r == old(entries)[name] && entries == old(entries)
      ensures isDir && name !in old(entries) ==>
        && fresh(r) && r.Valid() && !r.isDir && r.data == []
        && entries == old(entries)[name := r]
      ensures isDir ==> name in entries && entries[name] == r
    {
      if !isDir {
        return this;
      }
      if name in entries {
        r := entries[name];
      } else {
        var newFile := new RamInode.NewFile();
        entries := entries[name := newFile];
        r := newFile;
      }
    }
  }

  /**
   * `open` twice on a directory: the first call creates the file, the
   * second returns that same inode; a write through the first is seen by a
   * read through the second, and `open` on the file returns the file.
   */
  method OpenTwice() returns (same: bool, self: bool, read: Result<Bytes>)
    ensures same && self
    ensures read == Ok([7, 8])
  {
    var root := new RamInode.NewDirectory();
    var first := root.Open("notes");
    var second := root.Open("notes");
    same := first == second;
    var w := first.WriteAt(0, [7, 8]);
    var again := first.Open("ignored");
    self := again == first;
    read := second.ReadAt(0, 16);
    assert first.data == [7, 8];
  }
}
