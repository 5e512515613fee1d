# temposlab kernel cores in Dafny

This project models the sequential cores of the temposlab teaching kernel, written in Rust over the ostd framework, and proves properties of each.

The main core is lab11's demand-paging address space:
- `MemorySpace` owns a page table and a list of `VmArea`s.
- Each area is a half-open range of pages with one permission mask, one page-fault handler and the list of its resident `VmMapping`s.
- `sys_mmap` adds lazy areas, and `sys_mprotect` rewrites permissions.
- A page fault is dispatched to the first area that covers the faulting address.

Alongside it sit the smaller cores:
- the two RAM file stores: lab11's, backed by page frames, and lab9's, backed by a byte vector;
- lab14's ext2 read path: superblock decoding, the inode-number arithmetic, inode decoding, directory walk, lookup and the direct-block walk of `read_at`;
- lab7's round-robin run queue and the semaphore counter;
- lab11's process-tree `wait`, `try_wait`, `reparent_children_to_init` and `alloc_pid`;
- lab5's `sys_prlimit64`.

How the model is built:
- There is one module per source file.
- What the source mutates in place is a class with `modifies` clauses. This covers `MemorySpace`, physical memory, both RAM inodes, the run queue, the semaphore and its guard, and the process tree.
- What the source holds by value is a datatype: mappings, areas, time slices, ext2 records and locations.
- Every loop of the source is a method with a `while` loop, proved against a function that states what the loop computes.

Inputs from outside the core are parameters:
- The frame allocator is a `PhysMemory` object: a map from frame identity to bytes, the next identity, and a count of frames it can still hand out.
- The block device is a function from (sector, offset) to the directory entry read there, plus the raw superblock and group descriptor.
- The contents of files behind an inode fault handler are a map from inode to bytes.
- A file table maps descriptors to what they hold.
- `read_at` of ext2 returns the list of sector reads it issues, each computed as the source computes it.

Machine arithmetic:
- All integers are unbounded.
- Where the source's `u32` arithmetic wraps, the model writes the wrap out. Release-mode wrapping is assumed. This applies to `inode_number - 1`, `Ext2Bid` addition, `1024 << log_block_size` and `idx * blocks_per_group + 1`.
- Other arithmetic is assumed not to overflow.

## Model

| member | source | states |
|---|---|---|
| Common.AlignDown | lab11-pagefault/src/syscall/mmap.rs:105 | the result is aligned, at most `v`, and within one page below it |
| Common.PagesFor | lab11-pagefault/src/syscall/mmap.rs:58 | the page count is the least `p` with `p * PAGE_SIZE >= n` |
| PageFlags.FromBitsTruncate | lab11-pagefault/src/syscall/mmap.rs:56 | only defined flag bits survive, and a defined flag is set exactly when it is set in the low byte of the input |
| Mapping.VmMapping.SetPerms | lab11-pagefault/src/mm/mapping.rs:35-37 | the perms become the new value; base and frame are kept |
| Mapping.VmMapping.RemovePerm | lab11-pagefault/src/mm/mapping.rs:31-33 | a flag is set afterwards iff it was set before and shares no bit with the removed flags; base and frame are kept |
| Mapping.VmMapping.ContainsVaddr | lab11-pagefault/src/mm/mapping.rs:19-21 | for an aligned mapping, `contains_vaddr(v)` holds iff `v` rounds down to the mapping's base |
| Fault.Resolve | lab11-pagefault/src/syscall/mmap.rs:101-128 | default handler: the fault fails; allocation handler: a zeroed page at `align_down(vaddr)`; inode handler: byte `i` of the page is the file's byte at `align_down(vaddr) - base + i`, or 0 past the end |
| Area.VmArea.AddMapping | lab11-pagefault/src/mm/area.rs:78-80 | the mapping count grows by one, the new mapping is last, earlier mappings and all other fields are unchanged |
| Area.VmArea.WithPerms | lab11-pagefault/src/mm/area.rs:98-103 | the area's mask and every mapping's mask become `p`; count, vaddrs, frames, base, pages and handler are kept |
| Area.SetPerms | lab11-pagefault/src/mm/area.rs:98-103 | the loop over the mappings leaves exactly `WithPerms(p)` |
| Area.VmArea.HandlePageFault | lab11-pagefault/src/mm/area.rs:50-68 | only the default handler fails; otherwise the handler gets the area's own mask, and exactly one mapping for `align_down(vaddr)` with that mask is appended |
| Area.New | lab11-pagefault/src/mm/area.rs:25-33 | fields as given, no mappings, the default (deny) handler |
| Area.NewWithHandler | lab11-pagefault/src/mm/area.rs:35-48 | fields as given, no mappings, the handler it was given |
| Area.NewIsWf | lab11-pagefault/src/mm/area.rs:25-48 | a new area satisfies the area invariant |
| Area.VmArea.ContainsVaddr | lab11-pagefault/src/mm/area.rs:105-107 | for an aligned area, `contains_vaddr(v)` holds iff the page of `v` lies in `[base, end)` |
| Area.ContainsIffOnSomePage | lab11-pagefault/src/mm/area.rs:105-107 | for an aligned area, `contains_vaddr(v)` holds iff `v`'s page is one of the area's `pages` pages |
| Area.ContainsBoundaries | lab11-pagefault/src/mm/area.rs:105-107 | the range is half-open: `base` and `end - 1` are inside, `end` and `base - 1` are not |
| Area.AddMappingKeepsWf | lab11-pagefault/src/mm/area.rs:78-80 | appending an aligned mapping inside the area keeps every mapping aligned and inside |
| Area.WithPermsKeepsWf | lab11-pagefault/src/mm/area.rs:98-103 | `set_perms` keeps the area invariant |
| Area.HandlePageFaultKeepsWf | lab11-pagefault/src/mm/area.rs:50-68 | a resolved fault keeps the area invariant |
| Frames.PhysMemory.AllocFrame | lab11-pagefault/src/mm/mod.rs:116 | a fresh, zero-filled frame with the next identity; existing frames are kept |
| Frames.PhysMemory.AllocSegment | lab11-pagefault/src/mm/mod.rs:80-82 | `n` fresh zeroed frames with consecutive identities; existing frames are kept |
| Frames.PhysMemory.CopyFrame | lab11-pagefault/src/mm/mod.rs:119 | the destination frame becomes a copy of the source frame; nothing else changes |
| MemorySpace.IsPageFault | lab11-pagefault/src/mm/mod.rs:19-24 | an exception is a page fault iff it is none of the other eleven causes, i.e. exactly one of the instruction, load and store page faults |
| MemorySpace.MemorySpace.Reader | lab11-pagefault/src/mm/mod.rs:184-190 | Ok iff every address of the range is mapped readable, else EFAULT; on Ok, `len` bytes, byte `i` the one behind `vaddr + i` |
| MemorySpace.ReadUser | lab11-pagefault/src/mm/mod.rs:184-190 | EFAULT unless every address of the range is mapped readable; otherwise the bytes behind each address |
| MemorySpace.ReadUserDependsOnlyOnMappedFrames | lab11-pagefault/src/mm/mod.rs:184-190 | a read depends only on the frames its own page table refers to |
| MemorySpace.WriteUserReadBack | lab11-pagefault/src/mm/mod.rs:192-197 | when the range's pages have distinct frames, reading back any written address gives the written byte |
| MemorySpace.WriteUserUntouched | lab11-pagefault/src/mm/mod.rs:192-197 | a frame behind no page of the range is unchanged |
| MemorySpace.WriteUserElsewhere | lab11-pagefault/src/mm/mod.rs:192-197 | an address sharing no slot with the range reads as before |
| MemorySpace.ProtectedPtes | lab11-pagefault/src/mm/mod.rs:153-160 | entries of pages in `[vaddr, vaddr + len)` get the new perms and keep their frame; other entries and the key set are unchanged |
| MemorySpace.OverlapsIffSharedAddress | lab11-pagefault/src/mm/mod.rs:163-170 | a shared address always passes the half-open test; for a non-empty area and range, passing it means they share an address |
| MemorySpace.FirstCovering | lab11-pagefault/src/mm/mod.rs:37-48 | None iff no area contains `v`; otherwise the least index of an area that contains it |
| MemorySpace.CopyFramesDistinct | lab11-pagefault/src/mm/mod.rs:114-136 | distinct parent mappings get distinct child frames |
| MemorySpace.MemorySpace.constructor | lab11-pagefault/src/mm/mod.rs:57-62 | no areas and an empty page table |
| MemorySpace.MemorySpace.AddArea | lab11-pagefault/src/mm/mod.rs:64-67 | exactly the area is appended at the end; the page table is unchanged |
| MemorySpace.MemorySpace.Map | lab11-pagefault/src/mm/mod.rs:69-97 | one fresh zeroed frame per page; an entry with the area's perms at `base + i*PAGE_SIZE` for every `i < pages` and no other new entry; mapping `i` at that address appended in order; the area appended last; the frames returned |
| MemorySpace.MemorySpace.Writer | lab11-pagefault/src/mm/mod.rs:192-197 | EFAULT with nothing written unless every address is mapped writable; otherwise the frames are exactly `WriteUser` of the old frames |
| MemorySpace.MemorySpace.Protect | lab11-pagefault/src/mm/mod.rs:148-182 | returns Ok; the table becomes `ProtectedPtes`; each area that overlaps the range becomes `WithPerms(perms)` and the others are unchanged, in the same order |
| MemorySpace.MemorySpace.CopyMapping | lab11-pagefault/src/mm/mod.rs:116-132 | a fresh frame holds a copy of the mapping's frame and is mapped at the mapping's page with the area's perms |
| MemorySpace.MemorySpace.CopyArea | lab11-pagefault/src/mm/mod.rs:107-138 | the copy has the same base, pages, perms and handler, and one mapping per old mapping at the same vaddr with a fresh frame of identical bytes; old frames are kept |
| MemorySpace.MemorySpace.Duplicate | lab11-pagefault/src/mm/mod.rs:100-142 | a fresh space with the same areas in the same order, each deep-copied into fresh frames; every child entry maps a fresh frame; the parent's frames are unchanged |
| MemorySpace.MemorySpace.HandleAreaFault | lab11-pagefault/src/mm/area.rs:50-68 | the default handler changes nothing; otherwise the faulting page maps a new frame with the handler's bytes and the area's mask, and the area gains that mapping |
| MemorySpace.MemorySpace.Clear | lab11-pagefault/src/mm/mod.rs:199-207 | no areas, no entry below MAX_USERSPACE_VADDR, and entries above it kept |
| MemorySpace.SplitFramesDisjoint | lab11-pagefault/src/mm/mod.rs:114-119 | parent frames below the first copy and child frames from it on are disjoint |
| MemorySpace.DisjointTablesIsolateWrites | lab11-pagefault/src/mm/mod.rs:99-142 | a write through one table is invisible in a table that shares none of its frames |
| MemorySpace.PageFaultHandler | lab11-pagefault/src/mm/mod.rs:19-49 | succeeds iff the exception is one of the three page faults and the first covering area has a serving handler; then that area alone handles it; otherwise nothing changes |
| Mmap.MmapArea | lab11-pagefault/src/syscall/mmap.rs:36-85 | EINVAL iff the address is nonzero and misaligned or the type bits are not MAP_PRIVATE; otherwise EBADF iff the mapping is not anonymous and `fd` names no inode; otherwise an area at `vaddr` with `ceil(length/PAGE_SIZE)` pages, the truncated perms, no mappings and the allocation or inode handler |
| Mmap.SysMmap | lab11-pagefault/src/syscall/mmap.rs:36-85 | on success exactly that area is appended and `vaddr` returned; on error the areas are unchanged; the page table never changes |
| Mmap.InodeFaultMapsFileOffset | lab11-pagefault/src/syscall/mmap.rs:104-113 | every address on the faulted page shows the file's byte at its distance from the handler's base |
| Mmap.MmapFileFaultReadsFile | lab11-pagefault/src/syscall/mmap.rs:60-128 | after a file mmap and a fault inside it, each address of the page reads the file at `a - vaddr`, or 0 past its end |
| Mprotect.TranslateProtFlags | lab11-pagefault/src/syscall/mprotect.rs:26-38 | U and V are always set; R, W and X are set iff bits 1, 2 and 4 of `prot` are; no undefined bit is set; PROT_NONE gives exactly U\|V |
| Mprotect.TranslateIgnoresHighBits | lab11-pagefault/src/syscall/mprotect.rs:26-38 | values of `prot` that agree on the three low bits translate alike |
| Mprotect.MprotectGrantsExactly | lab11-pagefault/src/syscall/mprotect.rs:12-24 | after the rewrite, an address in the range is readable (writable) iff it was mapped and PROT_READ (PROT_WRITE) was asked for |
| Mprotect.SysMprotect | lab11-pagefault/src/syscall/mprotect.rs:12-24 | returns Ok(0), with the table and areas as `protect` leaves them under the translated flags |
| MemoryScenarios.MapTwoPages | lab11-pagefault/src/mm/mod.rs:69-97 | mapping two pages at 0x1000 gives entries at 0x1000 and 0x2000 over frames 0 and 1 |
| MemoryScenarios.DuplicateIsolation | lab11-pagefault/src/mm/mod.rs:99-142 | after `duplicate`, writes to the child and to the parent are invisible to each other |
| MemoryScenarios.AnonymousDemandFault | lab11-pagefault/src/mm/mod.rs:26-49 | an anonymous page is unreadable before its fault and readable and writable after; a non-fault exception and an address outside every area fail |
| MemoryScenarios.FileBackedDemandFault | lab11-pagefault/src/syscall/mmap.rs:36-128 | a file mmap faulted in shows the file's bytes, and zeros past its end |
| MemoryScenarios.MprotectReadOnly | lab11-pagefault/src/syscall/mprotect.rs:12-38 | after mprotect(PROT_READ) a write fails with EFAULT and a read still sees the data; area and mapping masks are read-only |
| FileData.ReadRange | lab9-fd-ipc-vfs/src/fs/ramfs.rs:53-63 | nothing at or past the end; otherwise `min(len - offset, avail)` bytes, each the file's byte at `offset + i` |
| FileData.WriteRange | lab9-fd-ipc-vfs/src/fs/ramfs.rs:72-88 | the length is `max(len, offset + n)`; the written range holds the data, the bytes before and after are kept, and a gap is zero-filled |
| FileData.ReadAfterWrite | lab11-pagefault/src/fs/ramfs.rs:60-130 | reading back the written range returns exactly the written bytes |
| FileData.ReadElsewhere | lab9-fd-ipc-vfs/src/fs/ramfs.rs:72-88 | a byte outside the written range is unchanged |
| FileData.WriteIdempotent | lab9-fd-ipc-vfs/src/fs/ramfs.rs:72-88 | writing the same bytes twice leaves what one write leaves |
| PagedRamfs.FileBytes | lab11-pagefault/src/fs/ramfs.rs:20-23 | the contents have length `size`, each byte taken from its frame |
| PagedRamfs.RamInode.NewFile | lab11-pagefault/src/fs/ramfs.rs:31-44 | an empty file with no frames |
| PagedRamfs.RamInode.NewDirectory | lab11-pagefault/src/fs/ramfs.rs:46-56 | an empty directory |
| PagedRamfs.RamInode.Size | lab11-pagefault/src/fs/ramfs.rs:133-138 | a file's length, or 12 for a directory |
| PagedRamfs.RamInode.Typ | lab11-pagefault/src/fs/ramfs.rs:179-184 | Directory iff a directory, never SymbolLink |
| PagedRamfs.RamInode.ReadAt | lab11-pagefault/src/fs/ramfs.rs:60-89 | EISDIR on a directory; otherwise the page-by-page loop returns exactly `ReadRange` of the contents |
| PagedRamfs.RamInode.GrowTo | lab11-pagefault/src/fs/ramfs.rs:99-106 | appends zeroed frames until there are `target`, or stops with ENOMEM when the allocator runs dry; the contents are kept |
| PagedRamfs.RamInode.CopyIn | lab11-pagefault/src/fs/ramfs.rs:108-124 | the written range holds the data and every other byte of the frames is kept |
| PagedRamfs.RamInode.WriteAt | lab11-pagefault/src/fs/ramfs.rs:91-131 | EISDIR on a directory; ENOMEM iff too few frames can be had, with the contents kept; otherwise returns `\|data\|` and the contents become `WriteRange`; `size <= frames*PAGE_SIZE` is kept |
| PagedRamfs.RamInode.Lookup | lab11-pagefault/src/fs/ramfs.rs:144-153 | ENOTDIR on a file, ENOENT for an absent name, otherwise the bound inode |
| PagedRamfs.RamInode.Create | lab11-pagefault/src/fs/ramfs.rs:155-169 | ENOTDIR on a file; otherwise a fresh empty inode of the type is bound to the name, replacing any old binding; no other name changes |
| PagedRamfs.WrittenContents | lab11-pagefault/src/fs/ramfs.rs:108-128 | the frame copy plus the size update give exactly `WriteRange` of the old contents, zero past the new size |
| PagedRamfs.WriteAcrossPages | lab11-pagefault/src/fs/ramfs.rs:91-131 | a 10-byte write across a page boundary takes two frames and reads back whole; a write the allocator cannot cover fails with ENOMEM and leaves an empty file |
| PagedRamfs.CreateThenLookup | lab11-pagefault/src/fs/ramfs.rs:133-169 | `lookup` finds a created name, a missing one gives ENOENT, a file gives ENOTDIR; sizes 0 and 12 |
| ByteRamfs.RamInode.NewFile | lab9-fd-ipc-vfs/src/fs/ramfs.rs:21-31 | an empty file |
| ByteRamfs.RamInode.NewDirectory | lab9-fd-ipc-vfs/src/fs/ramfs.rs:33-43 | an empty directory |
| ByteRamfs.RamInode.ReadAt | lab9-fd-ipc-vfs/src/fs/ramfs.rs:47-64 | Err iff a directory, and then EISDIR; otherwise `min(len - offset, avail)` bytes from `offset`, or none past the end |
| ByteRamfs.RamInode.WriteAt | lab9-fd-ipc-vfs/src/fs/ramfs.rs:66-89 | EISDIR on a directory; otherwise returns `\|d\|` and the data become `WriteRange` of the old data |
| ByteRamfs.RamInode.Size | lab9-fd-ipc-vfs/src/fs/ramfs.rs:91-96 | the data length for a file, 12 for a directory |
| ByteRamfs.RamInode.Open | lab9-fd-ipc-vfs/src/fs/ramfs.rs:102-116 | a file returns itself; a directory returns the bound inode, or binds the name to a fresh empty file and returns it; other names are unchanged |
| ByteRamfs.OpenTwice | lab9-fd-ipc-vfs/src/fs/ramfs.rs:102-116 | a second open of a name returns the inode the first created, and a write through one is read through the other |
| RoundRobin.NewTimeSlice | lab7-timer-sched/src/sched/rr.rs:104-109 | tick 0 and the given maximum |
| RoundRobin.Elapse | lab7-timer-sched/src/sched/rr.rs:111-118 | a zero maximum gives false and no change; otherwise the tick advances modulo the maximum, and the result is true iff it wrapped to 0 |
| RoundRobin.RunToWrap | lab7-timer-sched/src/sched/rr.rs:111-118 | from tick `t`, `max - t` elapses wrap exactly once and end at tick 0 |
| RoundRobin.ExpiresOncePerPeriod | lab7-timer-sched/src/sched/rr.rs:111-118 | from tick 0, `max` consecutive elapses return true exactly once |
| RoundRobin.SliceLength | lab7-timer-sched/src/sched/rr.rs:22-30 | `pid * 10` for a process, 10 for a kernel task (pid defaults to 1) |
| RoundRobin.PickKeepsHeld | lab7-timer-sched/src/sched/rr.rs:83-89 | picking the front and pushing the old current to the back permutes queue plus current |
| RoundRobin.RrRunQueue.constructor | lab7-timer-sched/src/sched/rr.rs:56-60 | no current task and an empty queue |
| RoundRobin.RrRunQueue.Current | lab7-timer-sched/src/sched/rr.rs:63-65 | the current entity's task, if any |
| RoundRobin.RrRunQueue.Enqueue | lab7-timer-sched/src/sched/rr.rs:18-33 | one entity with slice `SliceLength(pid)` at tick 0 is appended; current is unchanged |
| RoundRobin.RrRunQueue.UpdateCurrent | lab7-timer-sched/src/sched/rr.rs:67-77 | a non-Tick flag gives true with no change; Tick with no current gives false; otherwise the current slice elapses and its result is returned |
| RoundRobin.RrRunQueue.DequeueCurrent | lab7-timer-sched/src/sched/rr.rs:79-81 | returns the current task and leaves none; the queue is unchanged |
| RoundRobin.RrRunQueue.TryPickNext | lab7-timer-sched/src/sched/rr.rs:83-89 | an empty queue gives None with no change; otherwise the front becomes current, the old current goes to the back, and its task is returned |
| RoundRobin.Rotation | lab7-timer-sched/src/sched/rr.rs:18-89 | three enqueued tasks are picked in order and rotate to the back |
| RoundRobin.SliceExpiry | lab7-timer-sched/src/sched/rr.rs:67-118 | pid 1 runs nine ticks without rescheduling, the tenth reschedules, and a Yield always does |
| Semaphores.Semaphore.constructor | lab7-timer-sched/src/sem.rs:14-19 | the count is the given value and no guard is outstanding |
| Semaphores.Semaphore.TryAcquire | lab7-timer-sched/src/sem.rs:41-52 | a positive count is decremented and a fresh unreleased guard returned; a zero count gives None with no change; count plus outstanding guards is kept |
| Semaphores.Semaphore.Release | lab7-timer-sched/src/sem.rs:55-62 | the count grows by exactly one |
| Semaphores.SemaphoreGuard.constructor | lab7-timer-sched/src/sem.rs:45-48 | bound to its semaphore, not released |
| Semaphores.SemaphoreGuard.Drop | lab7-timer-sched/src/sem.rs:71-78 | the first drop releases exactly once; a later one changes nothing |
| Semaphores.Basic | lab7-timer-sched/src/sem.rs:86-105 | from `new(2)`: two acquires succeed, the third fails, and after one drop a fourth succeeds |
| Processes.SetMin | lab11-pagefault/src/process/mod.rs:227-237 | the least element of a non-empty set, which is the BTreeMap's first key |
| Processes.WaitTarget | lab11-pagefault/src/process/mod.rs:130-135 | -1 means any child; any other `p` means child `\|p\|` |
| Processes.ProcessTree.constructor | lab11-pagefault/src/process/mod.rs:321-324 | an empty tree whose pid counter starts at 1 |
| Processes.ProcessTree.AllocPid | lab11-pagefault/src/process/mod.rs:321-324 | returns the counter and increments it; nothing else changes |
| Processes.ProcessTree.TryWait | lab11-pagefault/src/process/mod.rs:211-249 | ECHILD with no children or a non-child pid; otherwise the chosen zombie (the given pid, or the least zombie pid) is removed from the children and the table, and its pid and exit code returned; EAGAIN with no change when none is eligible |
| Processes.ProcessTree.Wait | lab11-pagefault/src/process/mod.rs:130-148 | the pid is normalised; then a reaped child, ECHILD exactly in the `try_wait` cases, or Blocks where the caller would sleep |
| Processes.ProcessTree.ReparentChildrenToInit | lab11-pagefault/src/process/mod.rs:150-168 | no-op for init or no children; otherwise init gains every child, each child's parent becomes 1, and the caller's children become empty |
| Processes.FirstPids | lab11-pagefault/src/process/mod.rs:321-324 | the first three pids are 1, 2 and 3 |
| Processes.Adoption | lab11-pagefault/src/process/mod.rs:130-249 | an adopted zombie is reaped by init; the next wait blocks; waiting on a non-child fails with ECHILD |
| Prlimit.LimitFor | lab5-std-c-fork/src/syscall/prlimit.rs:37-45 | cur = max; 8 MiB for RLIMIT_STACK; u64::MAX for any other resource |
| Prlimit.LeRoundTrip | lab5-std-c-fork/src/syscall/prlimit.rs:11-16 | little-endian encoding of a value that fits reads back as the value |
| Prlimit.DecodeEncode | lab5-std-c-fork/src/syscall/prlimit.rs:11-16 | the 16-byte `RLimit64` record decodes to the limit it encodes |
| Prlimit.ReportedLimitDecodes | lab5-std-c-fork/src/syscall/prlimit.rs:37-54 | the record written for any resource decodes to `LimitFor(resource)` |
| Prlimit.SysPrlimit64 | lab5-std-c-fork/src/syscall/prlimit.rs:21-58 | EINVAL with nothing written for pid != 0; otherwise Ok(0); nothing written when `old_limit` is 0, else exactly the encoded limit at `old_limit`; `new_limit` is ignored |
| Ext2SuperBlock.BlockSizeOf | lab14-fs/src/fs/ext2/super_block.rs:81 | the result fits in 32 bits |
| Ext2SuperBlock.BlockSize4096Iff | lab14-fs/src/fs/ext2/super_block.rs:81 | `1024 << log` is 4096 iff `log % 32 == 2`; it is `1024 * 2^(log % 32)` below 22 and 0 from there on |
| Ext2SuperBlock.FromRaw | lab14-fs/src/fs/ext2/super_block.rs:78-98 | block size from the shift, `idx` widened from the group index, and every other field (the inode, block and free counts, first data block, fragment fields, blocks and inodes per group, mount counts, inode size) copied verbatim |
| Ext2SuperBlock.FromRawDependsOnCopiedFields | lab14-fs/src/fs/ext2/super_block.rs:78-98 | two raw superblocks that differ only in the magic and in shift bits above the low five decode alike |
| Ext2SuperBlock.GroupDescriptorTableBid | lab14-fs/src/fs/ext2/super_block.rs:35-37 | `(idx * blocks_per_group + 1) mod 2^32`, wrapping after the product and after the sum alike; exactly `idx * blocks_per_group + 1` when that fits in 32 bits; 1 for group 0 |
| Ext2SuperBlock.U32Mul | lab14-fs/src/fs/ext2/super_block.rs:36 | the product fits in 32 bits, and is the exact product when that does |
| Ext2SuperBlock.WrapStepwise | lab14-fs/src/fs/ext2/super_block.rs:36 | wrapping before adding 1 gives what wrapping the full sum gives |
| Ext2.BidAdd | lab14-fs/src/fs/ext2/mod.rs:172-177 | the 32-bit sum of the raw values, wrapping past 2^32 |
| Ext2.BidToSector | lab14-fs/src/fs/ext2/mod.rs:135-137 | with 4096-byte blocks, block `b` starts at sector `8b` |
| Ext2.New | lab14-fs/src/fs/ext2/mod.rs:54-93 | EACCES iff the magic is not 0xEF53; otherwise one block group, from the descriptor at `group_descriptor_table_bid * block_size / 512`, and fields copied from the decoded superblock |
| Ext2.InodeIndex | lab14-fs/src/fs/ext2/mod.rs:96 | `n - 1`, and 2^32 - 1 for inode 0 |
| Ext2.LookupInode | lab14-fs/src/fs/ext2/mod.rs:95-133 | ENOENT iff the index is not below `inodes_count`, so always for inode 0; otherwise the location of inode `n` in group 0 with a sector offset below 512 |
| Ext2.LookupInodeAddress | lab14-fs/src/fs/ext2/mod.rs:105-120 | the record of inode `n` starts at byte `table_start * block_size + (n - 1) * inode_size` |
| Ext2.LookupInodeDisjoint | lab14-fs/src/fs/ext2/mod.rs:105-120 | the records of two distinct inodes do not overlap |
| Ext2.RootInode | lab14-fs/src/fs/ext2/mod.rs:157-159 | the location of inode 2 |
| Ext2.RootInodeAddress | lab14-fs/src/fs/ext2/mod.rs:157-159 | the root record is the second record of the inode table |
| Ext2Inode.TypeOf | lab14-fs/src/fs/ext2/inode.rs:48-53 | 0x4000, 0x8000 and 0xA000 in `mode & 0xF000` give Directory, File and SymbolLink, and nothing else gives a type |
| Ext2Inode.WideSize | lab14-fs/src/fs/ext2/inode.rs:65-66 | the 64-bit value whose high and low halves are `size_high` and `size_low` |
| Ext2Inode.SizeOf | lab14-fs/src/fs/ext2/inode.rs:65-69 | both halves for a File, only `size_low` for other types |
| Ext2Inode.BlockEntriesLive | lab14-fs/src/fs/ext2/inode.rs:102-131 | no collected entry names inode 0 |
| Ext2Inode.DirectoryEntriesLive | lab14-fs/src/fs/ext2/inode.rs:102-131 | no entry of the directory names inode 0 |
| Ext2Inode.NoBlocksNoEntries | lab14-fs/src/fs/ext2/inode.rs:102-106 | a directory with only zero pointers has no entries |
| Ext2Inode.ReadBlock | lab14-fs/src/fs/ext2/inode.rs:108-129 | the inner loop collects exactly the block's entries up to an inode-0 entry or the block end |
| Ext2Inode.ReadDirectory | lab14-fs/src/fs/ext2/inode.rs:91-135 | None for a non-directory; otherwise exactly the entries of every non-zero direct block, in order |
| Ext2Inode.NewInode | lab14-fs/src/fs/ext2/inode.rs:39-88 | type from the mode; a directory's entries read at once; size decoded for the type; id and group as given |
| Ext2Inode.Size | lab14-fs/src/fs/ext2/inode.rs:241-248 | the same decoding as at construction |
| Ext2Inode.FirstNamed | lab14-fs/src/fs/ext2/inode.rs:145-148 | the least index with that name, or None iff no entry has it |
| Ext2Inode.Lookup | lab14-fs/src/fs/ext2/inode.rs:138-153 | ENOTDIR for a non-directory; ENOENT with no matching name; otherwise `lookup_inode` of the first match |
| Ext2Inode.PlanShape | lab14-fs/src/fs/ext2/inode.rs:195-227 | the walk reads at most what is asked; it uses consecutive direct blocks below 12 with non-zero pointers; only the first step starts inside a block; every step is non-empty and stays in its block |
| Ext2Inode.PlanComplete | lab14-fs/src/fs/ext2/inode.rs:195-227 | when every direct pointer from the start block on is set and the range ends inside them, the walk reads everything asked |
| Ext2Inode.RequestAsWritten | lab14-fs/src/fs/ext2/inode.rs:218-221 | the request as written starts at the sector holding the step's first byte and counts `ceil(to_read / 512)` sectors |
| Ext2Inode.UnalignedStepUncovered | lab14-fs/src/fs/ext2/inode.rs:218-221 | as written, 2 bytes from block offset 511 request one sector, which misses byte 512 |
| Ext2Inode.Request | lab14-fs/src/fs/ext2/inode.rs:218-221 | the corrected request covers the step's bytes, and equals the written one when the step starts on a sector boundary |
| Ext2Inode.PlanRequestsAgree | lab14-fs/src/fs/ext2/inode.rs:199-228 | on every step of a walk except an unaligned first one, the request as written equals the corrected one and covers the step |
| Ext2Inode.WalkBlocks | lab14-fs/src/fs/ext2/inode.rs:199-228 | the loop reads exactly the plan's total and issues, for each plan step in order, the request as written |
| Ext2Inode.ReadAt | lab14-fs/src/fs/ext2/inode.rs:171-231 | EISDIR for a non-file; 0 at or past the end; otherwise the total of the walk over `min(avail, size - offset)` bytes from `offset`, with each step's request as written; every request covers its step, except the first when `offset` is not a multiple of 512 |

## Left out

- Device I/O, DMA, interrupts, locks and wait queues: every operation is modelled as atomic and sequential.
- The virtio block driver, the syscall dispatch tables, ELF loading, user-mode entry, QEMU exit, logging, inode timestamps and the user C programs are left out.
- mm/fault.rs is not part of this model. The default and allocation handlers follow the subsystem's design: the default handler refuses every fault, and the allocation handler maps a zeroed frame.
- The numeric layout of ostd's `PageFlags` is not part of this model. R/W/X take the PROT bit values, and U and V take the next two bits.
- MAX_USERSPACE_VADDR is taken as 2^47 - 4096.
- Every `.unwrap()` on allocation or on a cursor becomes a precondition: enough free frames, and an aligned range inside user space. This applies to `map`, `duplicate`, `protect`, `clear`, the fault handlers and `sys_prlimit64`'s write. The lab11 ramfs `write_at` reports ENOMEM, so the model returns it.
- `reader`/`writer` are modelled by what a full read or write of the range does. EFAULT is returned unless every address is mapped with R (or W). Partial transfers are not modelled.
- `Frames.PhysMemory`: frames are never freed, and frame reference counts are not modelled.
- `sys_mmap`'s `offset` is ignored, as in the source. A zero `vaddr` becomes an area at address 0, because no address is chosen. The file table is a parameter.
- Process creation, exit, status transitions and the `PROCESS_TABLE` lock are left out. The scenarios set the tree's fields directly.
- Processes.ProcessTree.Wait: sleeping on the wait queue is modelled as the `Blocks` outcome, not as a repeated `try_wait`.
- Processes.WaitTarget: `i32::MIN` is excluded, because `abs()` overflows on it.
- Semaphores: the blocking `acquire` and `wake_one` are left out. The outstanding-guard count is ghost, and only the counter is modelled.
- RoundRobin: tasks are identified by number, and the `Arc<Task>` payload is not modelled.
- The ext2 files dir_entry.rs and block_group.rs, `SectorPtr` and `read_to_vm_writer` are not part of this model.
  - A directory entry is read through a function parameter, and the group descriptor's table start likewise.
  - `read_at` yields the sector requests instead of copying bytes into a writer.
  - The bytes `read_to_vm_writer` copies, including where they land in the writer for an unaligned step, are not modelled.
- The ext2 `assert!`s in `new` (one block group, 4096-byte blocks) and the `panic!` on an unsupported inode mode become preconditions.
- ext2 is assumed to have a non-zero inode size no larger than a block. `inodes_per_block == 0` would divide by zero, so it is excluded by precondition too.
- Ext2Inode.BlockEntries: a record length of 0 on a live entry would make the walk loop forever, so `RecordsAdvance` is required of the device.
- Ext2.LookupInode: it returns the inode's location. `Inode::new` on the record read there is `Ext2Inode.NewInode`, which takes the raw record as a parameter.
- The inode cache of `lookup_inode` is never filled, so every lookup computes the location.
- `read_link`, `write_link`, the ext2 `write_at` and the symbolic-link case of ramfs `create` are `todo!()` in the source and are left out.

## Findings

| source | as written | input that shows it | evidently intended | confidence | as-written member | corrected member |
|---|---|---|---|---|---|---|
| lab14-fs/src/fs/ext2/inode.rs:218-221 | the sector count of a step is `ceil(to_read / 512)`, regardless of where in its first sector the step starts | `read_at(511, ..)` of 2 bytes: the step starts at offset 511 of block 0; the count is 1, so byte 512 lies in no requested sector | count the sectors from the one holding the step's first byte to the one holding its last: `ceil((offset_in_block % 512 + to_read) / 512)` | medium, not executed | Ext2Inode.UnalignedStepUncovered | Ext2Inode.Request |

`Ext2Inode.WalkBlocks` and `Ext2Inode.ReadAt` issue the requests as written. `Ext2Inode.PlanRequestsAgree` shows that they differ from the corrected `Ext2Inode.Request` only on an unaligned first step.
