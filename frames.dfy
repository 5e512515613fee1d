/**
 * Physical memory as the frame allocator hands it out. ostd's allocator is
 * not part of this model; it becomes a map from frame identity to the
 * frame's bytes, a counter for the next identity and the number of frames
 * it can still hand out before an allocation fails. Frames are zeroed when
 * allocated, as `FrameAllocOptions::new()` does by default; freeing is not
 * modelled.
 */
module Frames {
  import opened Common
  import opened Mapping

  class PhysMemory {
    var frames: map<FrameId, Bytes>
    var next: FrameId
    var free: nat

    /** Every allocated frame has an identity below `next` and one page of bytes. */
    ghost predicate Valid()
      reads this
    {
      forall id :: id in frames ==> id < next && |frames[id]| == PAGE_SIZE
    }

    constructor (capacity: nat)
      ensures Valid()
      ensures frames == map[] && next == 0 && free == capacity
    {
      frames := map[];
      next := 0;
      free := capacity;
    }

    /** `alloc_frame()`: a fresh, zero-filled frame. */
    method AllocFrame() returns (id: FrameId)
      requires Valid() && free > 0
      modifies this
      ensures Valid()
      ensures id == old(next) && id !in old(frames)
      ensures frames == old(frames)[id := Zeros(PAGE_SIZE)]
      ensures next == old(next) + 1 && free == old(free) - 1
    {
      id := next;
      frames := frames[id := Zeros(PAGE_SIZE)];
      next := next + 1;
      free := free - 1;
    }

    /** `alloc_segment(n)`: `n` fresh, zero-filled frames with consecutive
        identities. */
    method AllocSegment(n: nat) returns (ids: seq<FrameId>)
      requires Valid() && free >= n
      modifies this
      ensures Valid()
      ensures |ids| == n
      ensures forall k :: 0 <= k < n ==> ids[k] == old(next) + k
      ensures next == old(next) + n && free == old(free) - n
      ensures forall id :: id in frames <==> id in old(frames) || old(next) <= id < next
      ensures forall id :: id in frames ==>
        frames[id] == if id in old(frames) then old(frames)[id] else Zeros(PAGE_SIZE)
    {
      ids := [];
      while |ids| < n
        invariant Valid()
        invariant |ids| <= n
        invariant forall k :: 0 <= k < |ids| ==> ids[k] == old(next) + k
        invariant next == old(next) + |ids| && free == old(free) - |ids|
        invariant forall id :: id in frames <==> id in old(frames) || old(next) <= id < next
        invariant forall id :: id in frames ==>
          frames[id] == if id in old(frames) then old(frames)[id] else Zeros(PAGE_SIZE)
      {
        var id := AllocFrame();
        ids := ids + [id];
      }
    }

    /** Overwrite one byte of an allocated frame. */
    method WriteByte(id: FrameId, offset: nat, b: byte)
      requires Valid() && id in frames && offset < PAGE_SIZE
      modifies this
      ensures Valid()
      ensures frames == old(frames)[id := old(frames)[id][offset := b]]
      ensures next == old(next) && free == old(free)
    {
      frames := frames[id := frames[id][offset := b]];
    }

    /** Overwrite a whole allocated frame, as a read into its writer does. */
    method WriteFrame(id: FrameId, contents: Bytes)
      requires Valid() && id in frames && |contents| == PAGE_SIZE
      modifies this
      ensures Valid()
      ensures frames == old(frames)[id := contents]
      ensures next == old(next) && free == old(free)
    {
      frames := frames[id := contents];
    }

    /** `dst.writer().write(&mut src.reader())`: copy a whole frame. */
    method CopyFrame(src: FrameId, dst: FrameId)
      requires Valid() && src in frames && dst in frames
      modifies this
      ensures Valid()
      ensures frames == old(frames)[dst := old(frames)[src]]
      ensures next == old(next) && free == old(free)
    {
      frames := frames[dst := frames[src]];
    }
  }
}
