# Memory, storage, scheduling and shared memory of the kernel, modelled and proved in Dafny

The kernel keeps its frames, page tables, free list and heap headers in one flat memory, its files in
ext2 block maps under a write-through cache, its tasks in one circular list, and its shared regions in a
reference-counted registry. The bundled Limine installer writes to a device through a one-block cache
and keeps an undo log. Each of these is modelled in the form the C code has, as classes whose methods
update their fields in place and walk, probe and copy in loops, and each method is proved against a
specification on values; the lemmas are about those specifications.

`dafny verify dfyconfig.toml` checks the project.

| files | what they hold |
|---|---|
| `bytes.dfy`, `options.dfy` | byte strings, little-endian words, quotient and remainder |
| `paging.dfy`, `frame_ledger.dfy`, `address_spaces.dfy`, `teardown.dfy`, `frame_ownership.dfy` | free frames, four-level tables, regions, shared frames and process exit in one physical memory |
| `heap_spec.dfy`, `kernel_heap.dfy`, `heap_frames.dfy` | the kernel heap: a block list, the linked headers that implement it, and the frames its pages come from |
| `sched_spec.dfy`, `scheduler.dfy` | the ring of tasks: a function on sequences, and the linked list that implements it |
| `shared_memory.dfy` | the region registry and the handle tables |
| `block_cache.dfy` | the open-addressing block cache and the abstract most-recently-used list |
| `bitmaps.dfy`, `block_tree.dfy`, `block_map.dfy` | bitmap allocators and the direct to triple indirect block map |
| `file_bytes.dfy`, `files.dfy` | files as byte sequences; reading, writing, seeking |
| `directory.dfy`, `directory_files.dfy`, `explorer.dfy` | directory records, directories over a disk, the explicit-stack iterator |
| `paths.dfy` | path canonicalisation |
| `undo_log.dfy` | the installer's device layer and undo log |

## The main results

- Frames. `FrameOwnership.Machine.Valid` holds at boot and is kept by every memory operation. In it every
  frame has exactly one holder (`OneHolder`, `OnePlace`), page lookups are a finite map that mapping and
  unmapping change at one page (`MapPage`, `UnmapPage`), all four words of a walk, with their access bits,
  are known and kept (`PMalloc`, `MayWrite`), and `ProcessExit` returns exactly what the process alone held.
- Heap. `KMalloc`, `KFree` and `KernRealloc` on linked headers in memory compute an abstract allocator
  that tiles its range, grants first fit, never touches a live payload and merges all free neighbours;
  `MallocNullIff` says exactly when a request fails, the 64-bit wrap of the heap's end included, and
  `HeapFrames.NullIffFrames` says it in free frames, page tables included, with the exact condition under
  which the code does not notice that they ran out.
- Scheduler. `SchedRunNext` refines a function on rings, which `NextRing` describes task by task; `ChosenRunnable`, `IdlePassedOver` and
  `BoundedWait` are proved of that function over whole runs, `ReapCounted` and `ReapOnce` of processes.
  `Sched.Valid` also keeps thread numbers distinct, so thread 0 stays the boot thread alone.
- Shared memory. `Ipc.Valid` equates every reference count with the number of handles over all processes.
- Cache. Every read returns the disk's block, and the table is exact LRU (`Lru() == Touch(...)`) with
  unique keys, unbroken probe paths and a right use count.
- Files. `SetThenGet` makes the block map a map; `FsWrite` splices, `FsRead` returns the slice; where
  32-bit positions make them do otherwise is stated exactly (`WriteExact`, `ReadExact`), as is when a
  result of block 0 means that none is free (`ZeroMeansNone`).
- Directories. An append adds one entry at the end; `NewNameFound` and `FindAfter` say exactly which
  lookups answer as one expects afterwards; the iterator is the recursive walk and terminates, and `WalkIs`
  with `OwnItems` says entry by entry what that walk is.
- Paths. Resolution is a stack fold over the segments of directory and path (`RelativeIs`, `RootedIs`,
  `DriveIs`), in canonical form, and idempotent.
- Undo log. After any writes, reads and flushes, undoing restores the device byte for byte
  (`RunThenUndo`).

## Where the code is not what it seems

- The repository's own documentation calls the frame allocator a bitmap; the code keeps a last-in
  first-out list threaded through the free frames, and so does the model.
- `ext2_find_child` compares only as many bytes as the record's name has, so a record's name matches every
  name that it is a prefix of, and a live record with an empty name matches all. With "a" in a directory,
  "ab" is found as "a", even after "ab" was added (`Directory.PrefixInTheWay`); `NewNameFound` and
  `FindAfter` of `DirectoryFiles` give the exact conditions.
- `fs_read` clips its count with a 32-bit sum. When position plus count wraps around, it reads on to the
  end of the last block (`Files.ReadExact`, with the input of `Files.ReadTooMuch`).
- `fs_write` advances a 32-bit position. A write across 2^32 continues at the head of the file
  (`Files.WriteExact`, with the input of `Files.WriteWraps`).
- `pmalloc` of a size within a page of 2^64 makes an empty region (`FrameOwnership.PagesCover`).
- `kmalloc` fails with frames to spare when the heap's end would wrap (`HeapSpec.HugeRequestFails`), and
  a request within 16 bytes of 2^64 is rounded to 0 and granted a block that does not hold it
  (`KernelHeap.AllHanded`, `KernelHeap.TopRequestGranted`); `kern_realloc` to such a size then copies past
  the end of the new block (`KernelHeap.ReallocOverruns`).
- `heap_expand` looks at what the frame allocator returns for the page, but `vmm_map_page_in_pml4` does not
  for the page tables. When the frames run out between a page and its tables, frame 0 becomes a page table
  and `kmalloc` goes on. `HeapFrames.ExpandRunIs` and `HeapFrames.NullIffFrames` say exactly when
  (`RunsOutWhole` fails); `HeapFrames.OneFrameLeft` is an input.
- `ext2_alloc_block` can hand out block 0, which its callers read as "disk full"
  (`Bitmaps.ZeroMeansNone`, with the volume of `Bitmaps.BlockZeroGiven` and `Bitmaps.AllocZero`).
- A log entry of length 0 cannot be stored, since writing 0 bytes counts as a failure
  (`UndoLog.BlockDevice.StoreUninstallData`, with the write of `UndoLog.EmptyWriteNotStored`).

## Model

| member | source | states |
|---|---|---|
| `Paging.TableBits` | src/kernel/kern_vmm.c:158-175 | A pointer to a new table holds its address, is present and writable, and is open to the user exactly when bit 2 of the flags is set; its other bits are clear. |
| `Paging.LeafBits` | src/kernel/kern_vmm.c:177-179 | A last-level entry holds the frame, is present, and has bits 1 to 11 of the flags. |
| `Paging.WalkIsLookup` | src/kernel/kern_vmm.c:209-242 | The four-level walk through flat memory reads, for every page, exactly the four words that the tree of tables says. |
| `Paging.LeafWrite` | src/kernel/kern_vmm.c:177-179 | Writing one entry of a last-level table changes the walk to that one page in that one address space; every other walk in every space, all four words of it, is unchanged, and the trees stay well formed. |
| `Paging.NewTable` | src/kernel/kern_vmm.c:158-175 | Hanging a zeroed frame into an empty entry as a new table changes no translation anywhere, also in the middle of a walk, and the new table is distinct from all others. |
| `Paging.TreesFrame` | src/kernel/kern_vmm.c:153-185 | The trees and every translation depend on the table frames only: any write outside them leaves all lookups alone. |
| `Paging.UntrackedWrite` | src/kernel/kern_sched.c:380-388 | Writing the kernel half of a process's top table changes no user translation. |
| `Paging.Digits` | src/kernel/kern_vmm.c:153-160 | A page-aligned address below 2^47 is recovered from its four 9-bit indices, so distinct user pages never share an entry. |
| `AddressSpaces.CoreNewTable` | src/kernel/kern_vmm.c:158-163 | Turning a held, zeroed frame into a table keeps the whole memory invariant and every lookup. |
| `AddressSpaces.CoreLeaf` | src/kernel/kern_vmm.c:177-179 | Storing a leaf entry keeps the memory invariant and changes the finite map of user pages at that page only. |
| `FrameOwnership.WalkMapped` | src/kernel/kern_vmm.c:209-242 | For user pages the walk through memory is the finite map from (address space, page) to frame. |
| `FrameOwnership.Machine.PmmAlloc` | src/kernel/kern_vmm.c:122-137 | Hands out the most recently freed frame, zeroed, and relabels that frame alone; returns 0 exactly on an empty list; no translation changes. |
| `FrameOwnership.Machine.PmmFree` | src/kernel/kern_vmm.c:96-104 | Puts the frame at the front of the free list and changes nothing else anybody holds; freeing 0 does nothing. |
| `FrameOwnership.Machine.InitPmm` | src/kernel/kern_vmm.c:106-120 | After start-up the free frames are exactly the page-aligned frames other than frame 0 that lie wholly inside usable memory-map entries; all others keep their holder. |
| `FrameOwnership.Machine.Descend` | src/kernel/kern_vmm.c:158-163 | One level of the mapping walk: the table below is there afterwards, one frame is taken exactly when it was missing, no translation changes. |
| `FrameOwnership.Machine.Tables` | src/kernel/kern_vmm.c:157-177 | After three levels the last table exists; exactly the missing tables were allocated from the free list, and no translation changed. |
| `FrameOwnership.Machine.MapPage` | src/kernel/kern_vmm.c:153-207 | The page then translates to exactly the frame, present, with bits 1 to 11 of its entry as in the flags; the tables made on the way are writable and open to the user as bit 2 of the flags says; all words of every other walk and every earlier table pointer stay; only the missing tables were taken from the free list. |
| `FrameOwnership.Machine.GetPhys` | src/kernel/kern_vmm.c:209-242 | Returns what the hardware walk yields, which for a user page is the entry of the finite map, or 0. |
| `FrameOwnership.Machine.UnmapPage` | src/kernel/kern_vmm.c:244-275 | Removes exactly that page from the finite map; every other translation, and who holds which frame, stays. |
| `FrameOwnership.PagesCover` | src/kernel/kern_vmm.c:291-291 | The rounded-up page count covers the request if and only if adding PAGE_SIZE - 1 does not wrap around 64 bits; when it wraps the count is 0, otherwise it is the least that covers. |
| `FrameOwnership.Machine.AddPage` | src/kernel/kern_vmm.c:299-303 | One round of the allocation loop: a fresh frame becomes private to the page at the heap pointer; the free list shrinks by one plus the missing tables. |
| `FrameOwnership.Machine.FillRegion` | src/kernel/kern_vmm.c:299-303 | The loop fills [v, v + n pages): every page gets its own private frame, frames that change hands come from the free list, and the free list shrinks by exactly the frames used. |
| `FrameOwnership.Machine.PMalloc` | src/kernel/kern_vmm.c:285-310 | Adds one region at the heap pointer whose pages map distinct, formerly free frames, the recorded first frame being the one mapped at its start; every page is present, writable and open to the user, and so is every table made for it; all other walks stay, every frame taken is accounted for; size 0 changes nothing. |
| `FrameOwnership.StillOpen` | src/kernel/kern_vmm.c:153-185 | An address space whose table pointers are all open to the user stays so when pages are mapped with the user bit. |
| `FrameOwnership.MayWrite` | src/kernel/kern_vmm.c:299-303 | In such a space, all four words of the walk to a page of a region are present, writable and open to the user. |
| `FrameOwnership.Machine.ReleaseRegion` | src/kernel/kern_vmm.c:323-330 | Returns every frame of a region to the free list, each once, and unmaps exactly its pages. |
| `FrameOwnership.Machine.PFree` | src/kernel/kern_vmm.c:312-342 | Frees exactly the frames of the first region that starts at the pointer; a null or unknown pointer changes nothing at all. |
| `FrameLedger.LedgerAddPage` | src/kernel/kern_vmm.c:299-303 | Mapping a free frame at the heap pointer keeps the ledger: one private frame for each page of each region, one shared frame for each handle. |
| `FrameLedger.LedgerRemovePage` | src/kernel/kern_vmm.c:323-330 | A page of a region is always mapped to a frame private to it, and giving it back keeps the ledger. |
| `FrameLedger.LedgerAttach` | src/kernel/kern_ipc.c:103-132 | Attaching keeps the ledger and maps a frame that the region holds at an unused address. |
| `FrameLedger.LedgerDetach` | src/kernel/kern_ipc.c:150-180 | Detaching keeps the ledger; the frame becomes free if and only if the handle was the last. |
| `Teardown.TornStep` | src/kernel/kern_vmm.c:529-550 | Freeing one table of a dying address space leaves the tables still to be visited intact, although the free-list link overwrites the first word of the freed one. |
| `Teardown.TopLeft` | src/kernel/kern_vmm.c:529-550 | Everything the tear-down has to free is reachable from the top table, and nothing else is. |
| `FrameOwnership.Machine.FreePd` | src/kernel/kern_vmm.c:537-545 | Frees the page directory and exactly the last-level tables below it. |
| `FrameOwnership.Machine.FreePdpt` | src/kernel/kern_vmm.c:534-547 | Frees the directory-pointer table and exactly the tables below it. |
| `FrameOwnership.Machine.FreePml4` | src/kernel/kern_vmm.c:529-550 | Every table of the address space is free afterwards, each freed once; no other frame changes hands and no table is read after it was freed. |
| `FrameOwnership.Machine.CreateRegion` | src/kernel/kern_ipc.c:25-53 | A single-page shared region takes one zeroed frame, which the region alone holds; nothing changes when no frame is free. |
| `FrameOwnership.Machine.Attach` | src/kernel/kern_ipc.c:87-136 | Maps the region's frame at the heap pointer under a new handle and counts it; the page is open to the user, and writable exactly when the region's flags say so; attaching again, or an unknown id, changes nothing. |
| `FrameOwnership.Machine.Detach` | src/kernel/kern_ipc.c:138-182 | Unmaps exactly the handle's page; the frame goes to the free list exactly when the last handle goes. |
| `FrameOwnership.Machine.Cleanup` | src/kernel/kern_ipc.c:184-200 | The process gives up every handle; a shared frame becomes free if and only if no other process holds its region. |
| `FrameOwnership.LastHandle` | src/kernel/kern_ipc.c:167-177 | A region's reference count is 1 exactly when the handle at hand is its only one. |
| `FrameOwnership.OnlyWhen` | src/kernel/kern_ipc.c:184-200 | Half-way through the clean-up, a handle is the last one exactly when no other process held the region at its start. |
| `FrameOwnership.Machine.CopyKernelHalf` | src/kernel/kern_sched.c:380-388 | The process shares the kernel's upper half afterwards; no user translation changes. |
| `FrameOwnership.Machine.ProcessCreate` | src/kernel/kern_sched.c:79-136 | A new process has one top table, taken from the free list, the kernel's upper half, and no user page; nothing changes when no frame is free. |
| `FrameOwnership.Machine.HeapGrow` | src/kernel/kern_vmm.c:364-381 | One page of kernel-heap growth takes one frame for the heap and exactly one for each missing kernel table, maps it at that page alone, writable and closed to the user, and fails exactly when no frame is free. |
| `FrameOwnership.Machine.TearDown` | src/kernel/kern_sched.c:219-220 | The tables of a process without regions and handles all become free and nothing is left of it. |
| `FrameOwnership.Machine.ProcessExit` | src/kernel/kern_sched.c:138-222 | Exactly what the process alone held becomes free: its tables, its private pages and the shared frames no one else holds, each on the free list once; all other frames and translations stay; the kernel process never exits. |
| `FrameOwnership.ExitedAll` | src/kernel/kern_sched.c:161-219 | Handles, regions and tables, given up one after the other, together are exactly the frames the process alone held. |
| `FrameOwnership.Machine.constructor` | src/kernel/kern_vmm.c:106-120 | The boot state meets the invariant. |
| `FrameOwnership.OneHolder` | src/kernel/kern_vmm.c:96-137 | In every reachable state each frame is in exactly one place: on the free list, in one table tree, behind a page of a process region, behind a shared region, or with the kernel. |
| `FrameOwnership.OnePlace` | src/kernel/kern_vmm.c:153-185 | In every reachable state no frame serves as two tables, and no frame backs two pages of process regions, within a process or across processes. |
| `HeapSpec.AlignHolds` | src/kernel/kern_vmm.c:347-350 | 16-byte rounding in 64 bits yields at least the request if and only if the request is at most 2^64 - 16. |
| `HeapSpec.TopRequestWraps` | src/kernel/kern_vmm.c:347-350 | The largest request is rounded to 0. |
| `HeapSpec.TilesAligned` | src/kernel/kern_vmm.c:408-460 | Every header, and so every payload, is 16-byte aligned. |
| `HeapSpec.BlocksDisjoint` | src/kernel/kern_vmm.c:408-460 | No two blocks of the heap overlap. |
| `HeapSpec.FirstFitLowest` | src/kernel/kern_vmm.c:414-437 | If any free block fits, the block handed out is the one at the lowest address. |
| `HeapSpec.CarveLive` | src/kernel/kern_vmm.c:420-431 | Splitting makes exactly one more block live and touches no other live block. |
| `HeapSpec.CarvedIs` | src/kernel/kern_vmm.c:420-431 | A free block is split exactly when its size exceeds the request by at least 48 bytes; the rest lies behind the payload, with a header of 32 bytes. |
| `HeapSpec.MallocSound` | src/kernel/kern_vmm.c:408-460 | After any request, with any number of retries: the heap still tiles its range, and the live blocks are the old ones plus one that holds the request; or, on null, the old ones. |
| `HeapSpec.MallocNullIff` | src/kernel/kern_vmm.c:408-460 | Null for a non-zero size if and only if nothing fits and either the end address would wrap past 2^64 or too few pages can be backed with a frame and its missing page tables. |
| `HeapSpec.GrowthSuffices` | src/kernel/kern_vmm.c:352-372 | Growing obtains enough for the request exactly when the pages can be backed and the address range suffices, so the retry loop ends. |
| `HeapFrames.BackableIff` | src/kernel/kern_vmm.c:364-372 | So many pages can be backed if and only if the free frames cover the pages and every page table missing on the way to them. |
| `HeapFrames.ExpandRunIs` | src/kernel/kern_vmm.c:364-372 | The loop gains as many pages as it wants or as can be backed, each lowering the number still backed by one; its test for a missing frame catches every shortage if and only if the frames do not run out between a page and its tables, and otherwise the mapping is entered with more tables missing than frames left. |
| `HeapFrames.OnFrames` | src/kernel/kern_vmm.c:408-460 | On the machine's frames `kmalloc` does, retries included, what the abstract allocator does for the pages that can be backed, except exactly when nothing fits and the frames run out between one of the pages it asks for and that page's tables. |
| `HeapFrames.NullIffFrames` | src/kernel/kern_vmm.c:408-460 | When nothing fits, `kmalloc` goes on with frame 0 as a page table if and only if the frames run out between a page and its tables; and it returns null if and only if they do not and the end address would wrap, or the frames do not cover the needed pages and their missing tables. |
| `HeapFrames.TableShort` | src/kernel/kern_vmm.c:364-372 | A free frame for every page is not enough when a page table is missing: no block is granted, `kmalloc` returns null or goes on with frame 0 as a table, and for one page and one frame it does the latter. |
| `HeapFrames.OneFrameLeft` | src/kernel/kern_vmm.c:364-372 | A concrete heap, with one frame left and the last-level table missing, on which a request of 16 bytes makes the code go on with frame 0 as that table. |
| `HeapFrames.HeapExpand` | src/kernel/kern_vmm.c:352-372 | The loop over the machine's frames and page tables does exactly what the run on numbers of frames says, up to where the source would enter the mapping with too few frames for the tables; frames go from the free list to the heap and to tables only. |
| `HeapSpec.HugeRequestFails` | src/kernel/kern_vmm.c:352-372 | A concrete request that fails with more than enough frames, because the target address wraps. |
| `HeapSpec.CoalesceSeparates` | src/kernel/kern_vmm.c:509-525 | The merging pass leaves no two neighbouring free blocks. |
| `HeapSpec.CoalesceLive` | src/kernel/kern_vmm.c:509-525 | The merging pass changes no live block. |
| `HeapSpec.FreeSound` | src/kernel/kern_vmm.c:492-527 | Freeing removes exactly that block from the live ones, keeps the tiling and leaves no two free neighbours. |
| `KernelHeap.Relink` | src/kernel/kern_vmm.c:420-431 | Replacing a stretch of the linked headers in memory by others that tile the same stretch keeps the whole list linked and tiling. |
| `KernelHeap.StaysLive` | src/kernel/kern_vmm.c:408-460 | A block live before an allocation is live after it and is never the block handed out. |
| `KernelHeap.AllHanded` | src/kernel/kern_vmm.c:408-460 | The block that is handed out is at least as large as the request if and only if the request is at most 2^64 - 16. |
| `KernelHeap.TopRequestGranted` | src/kernel/kern_vmm.c:408-460 | On the initial heap the largest request is granted a block without payload; and a heap on which moving 16 bytes for that request overruns. |
| `KernelHeap.ReallocOverruns` | src/kernel/kern_vmm.c:484-488 | The copy of `kern_realloc` runs past the end of the new block if and only if the size is above 2^64 - 16 and the old payload is larger than what a request rounded to 0 is granted; then it runs over the next header. |
| `KernelHeap.Arena.constructor` | src/kernel/kern_vmm.c:394-400 | The initial heap is one free block that tiles the minimum size. |
| `KernelHeap.Arena.FindFit` | src/kernel/kern_vmm.c:414-437 | The search loop over the header list in memory stops at the first block that fits, or at the end with the last block in hand. |
| `KernelHeap.Arena.CarveAt` | src/kernel/kern_vmm.c:420-433 | Splitting in memory refines splitting in the block list, and alters no word of a live payload. |
| `KernelHeap.Arena.Expand` | src/kernel/kern_vmm.c:352-372 | Maps zeroed pages until the target is reached or no further page can be backed, and touches nothing below the old end. |
| `KernelHeap.Arena.GrowHeap` | src/kernel/kern_vmm.c:439-458 | The new pages become one free block linked behind the last; no live payload changes. |
| `KernelHeap.Arena.KMalloc` | src/kernel/kern_vmm.c:408-460 | The search, split and retry loop in memory computes exactly what the abstract allocator does; the block handed out holds the request if and only if rounding it up does not wrap; live payloads are untouched; size 0 gives null and no change. |
| `KernelHeap.Arena.KFree` | src/kernel/kern_vmm.c:492-527 | Freeing in memory refines the abstract free with its merging pass; every other live payload keeps its contents; pointers outside the heap are ignored. |
| `KernelHeap.Arena.CoalescePass` | src/kernel/kern_vmm.c:509-525 | The in-place merging loop computes the abstract merging of the block list and alters no live payload. |
| `KernelHeap.Arena.Move` | src/kernel/kern_vmm.c:481-489 | Reallocation by copying, for every size that does not overrun: the new block starts with the old contents, the old block is freed, and all other payloads stay. |
| `KernelHeap.Arena.KernRealloc` | src/kernel/kern_vmm.c:462-490 | In every case (null, zero size, outside the heap, fits in place, moves, fails) that does not overrun the resulting heap is determined, the old contents are preserved and no other live payload changes. |
| `SchedSpec.ChosenRunnable` | src/kernel/kern_sched.c:390-466 | If any task can run, the task that runs next can run. |
| `SchedSpec.IdlePassedOver` | src/kernel/kern_sched.c:428-434 | A runnable thread 0 that the scan reaches is passed over only when it was not flagged and the chosen task is runnable. |
| `SchedSpec.NextRing` | src/kernel/kern_sched.c:404-465 | The choice and the new ring, task by task: the first task behind the current one that can run, other than an unflagged thread 0, is next; without one the current task stays if it can run, and else yields to the last task that can; exactly the dead tasks other than thread 0 that were passed before the stop are gone, and the others keep their order. |
| `SchedSpec.ReapedAre` | src/kernel/kern_sched.c:405-423 | The tasks a scan unlinks are exactly the dead ones other than thread 0. |
| `SchedSpec.StepCloser` | src/kernel/kern_sched.c:404-439 | Each scheduling step brings every waiting runnable task other than thread 0 strictly closer to the front. |
| `SchedSpec.BoundedWait` | src/kernel/kern_sched.c:390-466 | Over any run of wake-ups, blocks, kills and scheduling steps without new tasks, a task other than thread 0 that stays runnable is chosen within its ring distance. |
| `SchedSpec.ReapCounted` | src/kernel/kern_sched.c:405-423 | Unlinking a dead task keeps every process's thread count equal to its tasks in the ring, and its process goes exactly with its last task. |
| `SchedSpec.ReapOnce` | src/kernel/kern_sched.c:138-144 | No process is released twice over a whole run. |
| `Scheduler.RingDrop` | src/kernel/kern_sched.c:406-423 | Unlinking in memory removes exactly that task from the single cycle. |
| `Scheduler.RingInsert` | src/kernel/kern_sched.c:267-273 | Linking in memory inserts exactly one task into the single cycle. |
| `Scheduler.Sched.constructor` | src/kernel/kern_sched.c:32-57 | At the start the boot thread is alone in its ring, in the kernel process. |
| `Scheduler.Sched.ProcessCreate` | src/kernel/kern_sched.c:79-136 | A new process has the next pid and no threads; the ring is unchanged. |
| `Scheduler.Sched.TaskCreate` | src/kernel/kern_sched.c:224-277 | The new task is READY right behind the list head under the next thread number, which no other task has or had; its process counts one thread more; without memory for task or stack the ring stays, though a failed stack uses up the number. |
| `Scheduler.Sched.ProcessExit` | src/kernel/kern_sched.c:138-222 | Removes the process and records its pid; the kernel process is never removed; called on a process without threads, all of the scheduler's promises stay. |
| `Scheduler.Sched.ReapNext` | src/kernel/kern_sched.c:405-423 | Unlinks exactly the dead task, repairs the head, counts its process down and releases it with its last thread. |
| `Scheduler.Sched.Scan` | src/kernel/kern_sched.c:404-439 | The scan ends at the first eligible task or back at the start, having reaped exactly the dead tasks it met; it terminates although it shortens the ring. |
| `Scheduler.Sched.Fallback` | src/kernel/kern_sched.c:444-448 | A task that cannot go on yields to the deferred idle thread or to a runnable task found around the ring, or to itself if there is none. |
| `Scheduler.Sched.SchedRunNext` | src/kernel/kern_sched.c:390-466 | The linked-list scheduler refines the ring function: same remaining tasks, same next task, same released processes; the ring stays one cycle holding head and current. |
| `Scheduler.Sched.BlockCurrent` | src/kernel/kern_sched.c:474-480 | Marks the current task BLOCKED and schedules. |
| `Scheduler.Sched.Unblock` | src/kernel/kern_sched.c:482-490 | Makes exactly a BLOCKED task READY; other states and null are left alone. |
| `Scheduler.Sched.ThreadExit` | src/kernel/kern_sched.c:69-77 | Marks the current task DEAD and schedules. |
| `Scheduler.Sched.KillProcess` | src/kernel/kern_sched.c:331-354 | Marks every task of the process DEAD, no other, and reports whether there was one. |
| `SharedMemory.CreateSound` | src/kernel/kern_ipc.c:37-47 | A new region with a fresh id and no references keeps the counts right. |
| `SharedMemory.RoomSound` | src/kernel/kern_ipc.c:57-85 | Doubling a handle table keeps every handle valid and every count right. |
| `SharedMemory.WithRoomIs` | src/kernel/kern_ipc.c:60-84 | A table grows only when every slot is taken, to 4 slots at first and then to twice as many; old slots keep their places and new ones are free. |
| `SharedMemory.AttachSound` | src/kernel/kern_ipc.c:107-130 | Attaching keeps the counts equal to the handles, at most one handle per process and region, and every handle resolving. |
| `SharedMemory.DetachSound` | src/kernel/kern_ipc.c:138-182 | Detaching keeps all of it, and the region leaves the registry if and only if this was its only handle. |
| `SharedMemory.DroppedOthers` | src/kernel/kern_ipc.c:160-177 | Unlinking one region leaves every other id resolving as before. |
| `SharedMemory.HandleResolves` | src/kernel/kern_ipc.c:14-21 | Every active handle names a region in the registry. |
| `SharedMemory.NoHandles` | src/kernel/kern_ipc.c:37-47 | No handle names an id that has not been given out yet. |
| `SharedMemory.OnlyHandle` | src/kernel/kern_ipc.c:167-177 | With one reference left, no other handle in any process names the region. |
| `SharedMemory.Ipc.Find` | src/kernel/kern_ipc.c:14-21 | Finds the position of the first region with the id, or none. |
| `SharedMemory.Ipc.CreateRegion` | src/kernel/kern_ipc.c:25-53 | Puts the region with the next id at the front of the registry, with no references; without a frame nothing changes. |
| `SharedMemory.Ipc.AllocSlot` | src/kernel/kern_ipc.c:57-85 | Gives the first inactive slot, doubling a full table (4 slots at first); the old slots keep their places. |
| `SharedMemory.Ipc.Attach` | src/kernel/kern_ipc.c:87-136 | An existing handle is returned as it is; otherwise one slot becomes active and one count goes up; bad ids change nothing. |
| `SharedMemory.Ipc.Detach` | src/kernel/kern_ipc.c:138-182 | Clears exactly that slot and counts down; hands back the region to release exactly when it was the last reference. |
| `SharedMemory.Ipc.DropTable` | src/kernel/kern_ipc.c:195-199 | An empty table is released without changing any count. |
| `BlockCache.PresentOnPath` | src/kernel/kern_ext2.c:187-212 | An empty slot on the probe path proves that the key is nowhere in the table. |
| `BlockCache.LeastStampIsLast` | src/kernel/kern_ext2.c:214-267 | In a full table the slot with the least stamp is the least recently used one, and it is unique. |
| `BlockCache.TouchEvict` | src/kernel/kern_ext2.c:243-264 | Overwriting the oldest slot is what an abstract most-recently-used list of the same capacity does on a miss. |
| `BlockCache.TouchIs` | src/kernel/kern_ext2.c:187-267 | Touching puts a key first and keeps the order of the others; a key that is new to a full list drives out the last. |
| `BlockCache.AfterRunIs` | src/kernel/kern_ext2.c:346-410 | After a multi-block read of at most as many blocks as the table has slots, the run comes first, its last block in front; after a longer one the keys are the same as before. |
| `BlockCache.ClampIs` | src/kernel/kern_ext2.c:150-151 | The table is asked for between 16 and 16384 entries, and for what is wanted in between. |
| `BlockCache.Cache.Find` | src/kernel/kern_ext2.c:190-206 | The probe loop finds the key's slot, or the key is in no slot. |
| `BlockCache.Cache.FindForInsert` | src/kernel/kern_ext2.c:217-245 | The insertion loop ends at the key's own slot, at the first empty slot of its path, or, in a full table, at the slot with the least stamp. |
| `BlockCache.Cache.Lookup` | src/kernel/kern_ext2.c:187-212 | Hits exactly on the cached keys, returns the disk block, and moves the key to the front of the list; a miss changes nothing. |
| `BlockCache.Cache.Insert` | src/kernel/kern_ext2.c:214-267 | Keeps every cached block equal to the disk block, keys unique, probe paths unbroken and the use count right, and touches the key in the abstract list, evicting the least recently used one when full. |
| `BlockCache.Cache.Update` | src/kernel/kern_ext2.c:269-291 | The same, for a block that was just written. |
| `BlockCache.Cache.Init` | src/kernel/kern_ext2.c:148-185 | The table has the largest power-of-two size the target asks for; a table of another size is dropped, one of the same size kept. |
| `BlockCache.Cache.SetCapacity` | src/kernel/kern_ext2.c:296-303 | Resizing empties the table or leaves it as it is; the cache stays consistent either way. |
| `BlockCache.Cache.ReadBlock` | src/kernel/kern_ext2.c:314-344 | Returns what is on the disk and touches the key, whatever the cache held. |
| `BlockCache.Cache.WriteBlock` | src/kernel/kern_ext2.c:412-430 | The disk changes at that block only, and the cache still agrees with it. |
| `BlockCache.Cache.ReadBlocks` | src/kernel/kern_ext2.c:346-410 | A run is returned exactly as it is on the disk, whether it was served, partly served or read; the abstract list afterwards is determined. |
| `UndoLog.ReplayForgetsCovered` | limine/limine.c:499-549 | A replay overwrites every logged byte, so devices that differ only there end up equal. |
| `UndoLog.WriteKeepsUndoable` | limine/limine.c:448-497 | A logged write, overlapping earlier ones or not and flushed to any extent, keeps the log sufficient to restore the original. |
| `UndoLog.UndoRestores` | limine/limine.c:499-549 | Whatever part of the cached data reached the device, replaying the reversed log restores the original byte for byte. |
| `UndoLog.RecordsRoundTrip` | limine/limine.c:341-424 | Parsing the concatenated records gives the entries back. |
| `UndoLog.FileLayout` | limine/limine.c:351-364 | The layout of a stored log: the count in 8 bytes, then for each entry its address and its length in 8 bytes each and its data. |
| `UndoLog.StoreThenLoad` | limine/limine.c:341-424 | Loading a stored log of non-empty entries is the identity. |
| `UndoLog.BlockDevice.constructor` | limine/limine.c:232-263 | After start-up the device is unchanged and the log is empty. |
| `UndoLog.BlockDevice.FlushCache` | limine/limine.c:265-284 | The device becomes what readers already saw; the view does not change and the log still undoes everything. |
| `UndoLog.BlockDevice.CacheBlock` | limine/limine.c:286-311 | Switching the cached block, with a flush if it was dirty, changes nothing a reader sees; fails exactly outside the device. |
| `UndoLog.BlockDevice.Read` | limine/limine.c:426-446 | Returns the logical bytes across block boundaries, and fails exactly when part of the range lies outside; the log still undoes everything. |
| `UndoLog.BlockDevice.Write` | limine/limine.c:448-497 | Splices the data into the logical contents and appends the old bytes to the log; fails, with no logical change, exactly when the log is full or the range lies outside. |
| `UndoLog.BlockDevice.ReverseUninstallData` | limine/limine.c:327-333 | The log is reversed in place. |
| `UndoLog.BlockDevice.Uninstall` | limine/limine.c:499-549 | The device is the replay of the log over what had reached it, the unwritten cache being dropped; of an entry that does not lie on the device, what does is replayed, and success is reported exactly when there is none. |
| `UndoLog.BlockDevice.UndoInstall` | limine/limine.c:1062-1067 | From every state that writes, reads and flushes keep to, reversing and replaying the log restores the original device and reports success. |
| `UndoLog.BlockDevice.RunThenUndo` | limine/limine.c:448-549 | Any sequence of writes, reads and flushes, in any order, followed by the undo, leaves the device byte for byte as it was. |
| `UndoLog.BlockDevice.StoreUninstallData` | limine/limine.c:341-379 | Writes exactly the encoding of the log; fails exactly when an entry is empty. |
| `UndoLog.EmptyWriteNotStored` | limine/limine.c:341-379 | A completed write of nothing leaves a log whose store fails. |
| `UndoLog.EmptyRecord` | limine/limine.c:381-424 | Nor would a record of length 0 be read back. |
| `UndoLog.BlockDevice.LoadUninstallData` | limine/limine.c:381-424 | Loads exactly the log the file encodes and fails exactly when it encodes none. |
| `Bitmaps.ByteBits` | src/kernel/kern_ext2.c:1042-1045 | Bit k of a bitmap byte is worth 2 to the k. |
| `Bitmaps.EligibleIs` | src/kernel/kern_ext2.c:1029-1041 | Which numbers may be handed out, in numbers: those of the first 256 groups the volume has, with a bitmap, within the group and the bitmap block, and for inodes past the reserved ones. |
| `Bitmaps.SearchFinds` | src/kernel/kern_ext2.c:1058-1091 | The search over groups and bits finds the first eligible clear bit; none means every eligible bit is set. |
| `Bitmaps.MarkedBit` | src/kernel/kern_ext2.c:1078-1082 | Setting or clearing a bit changes that bit and no other bit of any bitmap. |
| `Bitmaps.BalanceKept` | src/kernel/kern_ext2.c:1080-1083 | Free count plus set bits of every group stay the same, in 16-bit arithmetic. |
| `Bitmaps.PoolShrinks` | src/kernel/kern_ext2.c:1058-1091 | The handed-out number leaves the pool of free ones and nothing else does, so no number is handed out twice without a release. |
| `Bitmaps.ReleaseUndoes` | src/kernel/kern_ext2.c:1191-1207 | Releasing restores bitmap and descriptors to what they were before the allocation. |
| `Bitmaps.ReleasedIsAllocated` | src/kernel/kern_ext2.c:1191-1197 | The bit released for an inode number is the bit that was allocated for it. |
| `Bitmaps.NumberUnique` | src/kernel/kern_ext2.c:1085-1085 | Different bits stand for different numbers. |
| `Bitmaps.ZeroMeansNone` | src/kernel/kern_ext2.c:1058-1091 | A result of 0 means that no eligible block was free if and only if bit 0 of group 0 is set or its group has no bitmap. |
| `Bitmaps.BlockZeroGiven` | src/kernel/kern_ext2.c:1058-1091 | A concrete volume on which the search yields bit 0 of group 0, whose number is 0. |
| `Bitmaps.AllocZero` | src/kernel/kern_ext2.c:1058-1091 | On it the allocator returns 0, although it took the bit and counted its group down. |
| `Bitmaps.Volume.ScanBits` | src/kernel/kern_ext2.c:1077-1081 | The loop stops at the first clear bit from its start, or at the limit. |
| `Bitmaps.Volume.Alloc` | src/kernel/kern_ext2.c:1021-1091 | Hands out the number of the first eligible clear bit, sets that bit and counts its group down; or returns 0 and changes nothing. |
| `Bitmaps.Volume.ReleaseInode` | src/kernel/kern_ext2.c:1191-1207 | Clears exactly the inode's bit and counts its group up; number 0 changes nothing. |
| `BlockTree.PosOfPlace` | src/kernel/kern_ext2.c:548-591 | Every logical block in range has a place in the direct, single, double or triple part of the map. |
| `BlockTree.PosOfUnique` | src/kernel/kern_ext2.c:548-591 | Different logical blocks have different places. |
| `BlockTree.PutEntry` | src/kernel/kern_ext2.c:628-630 | Writing one entry of an indirect table changes that place of the map and no other, and no block is used twice afterwards. |
| `BlockTree.PutRoot` | src/kernel/kern_ext2.c:614-619 | The same for a pointer in the inode. |
| `BlockMap.BmapNear` | src/kernel/kern_ext2.c:552-564 | The direct pointers, and the entries of the single indirect table. |
| `BlockMap.BmapDouble` | src/kernel/kern_ext2.c:567-574 | The entries behind two tables, by the two digits of the block number. |
| `BlockMap.BmapTriple` | src/kernel/kern_ext2.c:577-588 | The entries behind three tables, by the three digits of the block number. |
| `BlockMap.TookCounted` | src/kernel/kern_ext2.c:611-616 | The blocks attached are counted in the inode in units of 512 bytes, in 32 bits. |
| `BlockMap.SetThenGet` | src/kernel/kern_ext2.c:548-692 | After setting logical block L to P, reading L gives P and reading any other block gives what it gave before. |
| `BlockMap.AllocBlock` | src/kernel/kern_ext2.c:1058-1091 | While space is left, the block handed out was free, belongs to no file or table, and only bitmaps change. |
| `BlockMap.AllocAndClear` | src/kernel/kern_ext2.c:601-612 | A formerly free block, now all zero and counted in the inode. |
| `BlockMap.FreshBlock` | src/kernel/kern_ext2.c:601-612 | A fresh block disturbs no place of the map, also while tables are still in memory buffers. |
| `BlockMap.GetBmap` | src/kernel/kern_ext2.c:548-591 | Reads the place of the logical block, through up to three tables; 0 for a hole on the way or out of range. |
| `BlockMap.EnsureRoot` | src/kernel/kern_ext2.c:624-624 | The root table of a part exists; a block is taken exactly when it was missing. |
| `BlockMap.EnsureEntry` | src/kernel/kern_ext2.c:643-645 | The next table exists, recorded in the buffered one; a block is taken exactly when it was missing; all other places stay. |
| `BlockMap.PutLeaf` | src/kernel/kern_ext2.c:646-653 | The data entry is set and counted exactly when it was empty. |
| `BlockMap.SetDirect` | src/kernel/kern_ext2.c:614-619 | The direct case. |
| `BlockMap.SetSingle` | src/kernel/kern_ext2.c:622-633 | The single indirect case, missing tables included. |
| `BlockMap.SetDouble` | src/kernel/kern_ext2.c:636-657 | The double indirect case, missing tables included. |
| `BlockMap.SetTriple` | src/kernel/kern_ext2.c:660-689 | The triple indirect case, missing tables included. |
| `BlockMap.SetBmap` | src/kernel/kern_ext2.c:597-692 | In all four cases: the place of the block is set, all others stay, blocks come from the free ones only, and the inode's count grows by exactly the newly attached data and table blocks. |
| `Bytes.QuoIsDiv` | src/kernel/kern_fs.c:56-57 | The block number and the offset in the block that the model computes by repeated subtraction are the quotient and the remainder of the source. |
| `Bytes.WordsAre` | src/kernel/kern_ext2.c:559-563 | The words on the disk, byte by byte, the least one first. |
| `Bytes.LittleEndianByte` | limine/limine.c:352-360 | Byte i of a stored number, the least one first. |
| `FileBytes.ByteAtIs` | src/kernel/kern_fs.c:56-58 | Byte i of the file lies in the block that the map gives for i divided by the block size, at the remainder. |
| `FileBytes.ChunkBytes` | src/kernel/kern_fs.c:55-90 | Writing one chunk changes exactly its bytes of the file and no other byte. |
| `FileBytes.NeedNext` | src/kernel/kern_fs.c:60-66 | Mapping one block uses up exactly its share of what the rest of the write still needs. |
| `Files.WriteStep` | src/kernel/kern_fs.c:55-90 | One round of the loop keeps everything written so far and leaves enough free blocks for the rest. |
| `Files.WriteSplices` | src/kernel/kern_fs.c:39-96 | Byte-wise agreement with the written data makes the file, as a sequence, the old one with the data spliced in. |
| `Files.FsWrite` | src/kernel/kern_fs.c:39-96 | The file becomes its old bytes with the data spliced in at the position, the size the larger of the old size and the end, the position the end; exactly the missing blocks are taken; the inode is stored; and a file as it is created has no block mapped past its end after the first non-empty write. |
| `Files.WriteExact` | src/kernel/kern_fs.c:55-90 | In 32-bit arithmetic, position and size end where a byte sequence would have them if and only if the write ends below 2^32. |
| `Files.WriteWraps` | src/kernel/kern_fs.c:55-90 | A concrete write across 2^32 that continues at the head of the file. |
| `Files.ReadExact` | src/kernel/kern_fs.c:189-191 | The read stops at the end of the request or of the file, whichever is first, if and only if the file ends on a block boundary or the sum of position and count does not wrap around 32 bits to something inside the file. |
| `Files.ReadTooMuch` | src/kernel/kern_fs.c:186-191 | A concrete read that runs past the end of the file. |
| `Files.RunBytes` | src/kernel/kern_fs.c:255-262 | A run of blocks that lie one after the other on the disk holds exactly the file's bytes. |
| `Files.RunLength` | src/kernel/kern_fs.c:241-250 | The run found is contiguous on the disk and no longer than allowed. |
| `Files.ReadMore` | src/kernel/kern_fs.c:236-265 | One round of the batched loop yields the next bytes of the file, cut to what is wanted. |
| `Files.ReadFirst` | src/kernel/kern_fs.c:200-217 | The partial first block yields the file's bytes up to the block's end or the end of the request. |
| `Files.ReadRange` | src/kernel/kern_fs.c:196-271 | Both phases together yield exactly the bytes from the position to the goal. |
| `Files.FsRead` | src/kernel/kern_fs.c:179-272 | Returns exactly the file's bytes from the position to where the read stops, and moves the position there. |
| `Files.FsSeek` | src/kernel/kern_fs.c:274-300 | The position is the target reduced to 32 bits, cut to the size; it is the target itself if and only if that lies in the file. |
| `Directory.StrEql` | src/util/util_str.c:125-135 | The loop decides whether the record's name is a prefix of the looked-up name, or, when the record's name has a NUL in it, whether both are the same C string. |
| `Directory.MatchesPrefix` | src/util/util_str.c:125-135 | Without NULs, a record's name matches exactly the names it is a prefix of; equal length is not asked for. |
| `Directory.FindFirst` | src/kernel/kern_ext2.c:700-718 | The lookup fails exactly when no live entry matches, and otherwise gives the inode of the first that does. |
| `Directory.NewLast` | src/kernel/kern_ext2.c:700-718 | The exact condition under which an entry at the end of a directory is found by its own name. |
| `Directory.PrefixInTheWay` | src/kernel/kern_ext2.c:694-722 | A concrete directory block: with "a" in it, "ab" is found as "a", before and after "ab" itself is added. |
| `Directory.ScanBlock` | src/kernel/kern_ext2.c:706-718 | Finds the inode of the first live record of the block whose name matches, or 0. |
| `Directory.FieldsAre` | src/kernel/kern_ext2.c:961-964 | A record's fields, byte by byte: four of inode, two of length, one of name length, one of type, then the name. |
| `Directory.MatchesNul` | src/util/util_str.c:125-135 | A record's name with a NUL in it matches exactly the name that ends there. |
| `Directory.PaddedIs` | src/kernel/kern_ext2.c:1104-1105 | An entry's size is rounded up to the next multiple of 4. |
| `Directory.RoomIff` | src/kernel/kern_ext2.c:1149-1166 | There is room for a name if and only if no entry is live, or the length of the last live record holds its own entry and the new one, each rounded up to a multiple of 4. |
| `Directory.LastLiveIs` | src/kernel/kern_ext2.c:1129-1143 | The record the search ends with is the last live one of a tiled block. |
| `Directory.ScanLast` | src/kernel/kern_ext2.c:1129-1143 | The search loop finds the last live record. |
| `Directory.Appended` | src/kernel/kern_ext2.c:1149-1179 | Splitting the last live record keeps the records tiling the block and yields the old live entries in order plus the new one at the end. |
| `Directory.OnlyEntry` | src/kernel/kern_ext2.c:1162-1179 | In a block without live records the new one becomes the only record. |
| `Directory.AppendEntry` | src/kernel/kern_ext2.c:1129-1179 | On a tiled block, succeeds if and only if no entry is live or the last live record's length holds both entries, each rounded up to a multiple of 4; the new record lies right behind the old entry, takes the rest of its length, and all other bytes stay. Otherwise the block is unchanged. |
| `DirectoryFiles.FindChild` | src/kernel/kern_ext2.c:694-722 | Finds the first live entry over all blocks of the directory whose name matches, which a proper prefix of the name does; 0 for anything that is no directory. |
| `DirectoryFiles.FindAfter` | src/kernel/kern_ext2.c:694-722 | After an append, any name is answered as before if and only if an earlier entry matches it or the new name does not (is no prefix of it); otherwise it is answered with the new inode where it was not found before. |
| `DirectoryFiles.NewNameFound` | src/kernel/kern_ext2.c:694-722 | After an append, looking up the new name gives the new inode if and only if the first earlier live entry whose name matches it, if any, carries that inode; when the inode is new to the directory, if and only if no earlier name matches (is a prefix of) it. |
| `DirectoryFiles.AddDirEntry` | src/kernel/kern_ext2.c:1096-1188 | Changes only the directory's last block, which gains the entry at its end; on a tiled block it succeeds if and only if the name has 1 to 250 bytes and the last live record's length holds both entries or no entry is live; a failure changes nothing. |
| `Explorer.DepthBounded` | src/kernel/kern_ext2.c:998-1005 | Nothing is reported below stack depth 15. |
| `Explorer.WalkIs` | src/kernel/kern_ext2.c:924-1013 | The walk of a directory of tiled blocks is its own items in order, each directory above stack depth 15 followed by the walk below it, and nothing else. |
| `Explorer.OwnItems` | src/kernel/kern_ext2.c:961-1005 | The items of a level are, in order, exactly the live entries that are neither "." nor ".." nor on the path, each with its inode, name, depth and type, the type being that of the inode's mode when the entry has none. |
| `Explorer.NotOnPath` | src/kernel/kern_ext2.c:967-981 | Nothing is ever reported with inode 0 or with an inode on the path to it, on any disk. |
| `Explorer.NoDots` | src/kernel/kern_ext2.c:969-971 | Neither "." nor ".." is reported anywhere in the walk over tiled directories. |
| `Explorer.BlocksAre` | src/kernel/kern_ext2.c:935-935 | A directory has as many blocks as hold its size. |
| `Explorer.BlockIdIs` | src/kernel/kern_ext2.c:937-937 | The blocks walked are the ones the block map names. |
| `Explorer.WalkOver` | src/kernel/kern_ext2.c:935-942 | Past its last block a directory has nothing left to report. |
| `Explorer.StepBad` | src/kernel/kern_ext2.c:955-959 | A record shorter than 8 bytes or past the end of its block ends its directory. |
| `Explorer.Iterator.constructor` | src/kernel/kern_ext2.c:905-915 | A new iterator has the whole recursive walk before it. |
| `Explorer.Iterator.OnPath` | src/kernel/kern_ext2.c:973-981 | The check finds an inode exactly when it is on the current path. |
| `Explorer.Iterator.Visit` | src/kernel/kern_ext2.c:955-1007 | One record: reported and, if it is a directory, descended into, or skipped, as the recursive walk does. |
| `Explorer.Iterator.Scan` | src/kernel/kern_ext2.c:936-1009 | The inner loop yields the first item of the remaining walk, or leaves what the frames below have to report. |
| `Explorer.Iterator.Next` | src/kernel/kern_ext2.c:924-1013 | Yields the next item of the recursive pre-order walk, which `WalkIs` and `OwnItems` describe entry by entry, and none exactly at its end. |
| `Explorer.Explore` | src/kernel/kern_ext2.c:924-1013 | A caller's loop sees exactly the recursive walk and ends on every disk, cyclic ones included. |
| `Paths.FoldClean` | src/kernel/kern_fs.c:466-492 | No empty, "." or ".." segment is left. |
| `Paths.FoldIsPlain` | src/kernel/kern_fs.c:466-492 | With at most 32 live segments at any time, the segment stack is the plain stack fold over the segments. |
| `Paths.SegmentsPlaced` | src/kernel/kern_fs.c:471-477 | The segments of a string are its longest stretches without a slash, in order, and every character other than a slash is in one. |
| `Paths.RelativeIs` | src/kernel/kern_fs.c:425-443 | A relative path resolves to the current directory's drive with the plain stack fold of the directory's segments followed by the path's. |
| `Paths.RootedIs` | src/kernel/kern_fs.c:401-424 | A path with one leading slash resolves to the current directory's drive with the plain stack fold of its own segments. |
| `Paths.DriveIs` | src/kernel/kern_fs.c:395-400 | A path with two leading slashes resolves to its own drive with the plain stack fold of the segments after it, whatever the current directory. |
| `Paths.AssembledIs` | src/kernel/kern_fs.c:494-512 | What is put out is the drive with a slash for the root, and otherwise each segment behind a slash. |
| `Paths.FoldJoin` | src/kernel/kern_fs.c:466-511 | Tokenizing an assembled path gives back the segments it was assembled from. |
| `Paths.CanonicalForm` | src/kernel/kern_fs.c:445-513 | Every result consists of a drive prefix and clean segments. |
| `Paths.AssembledFixed` | src/kernel/kern_fs.c:445-513 | A path of that form is its own canonical form. |
| `Paths.ResolveTwice` | src/kernel/kern_fs.c:377-513 | Resolving a resolved path again, from any directory, changes nothing while the path fits the 512-byte buffer. |
| `Paths.Tokenize` | src/kernel/kern_fs.c:466-492 | The loop computes the stack fold, segments past the 32nd being dropped. |
| `Paths.Assemble` | src/kernel/kern_fs.c:494-512 | Writing piece by piece into the buffer gives the assembled path cut to the buffer. |
| `Paths.Combine` | src/kernel/kern_fs.c:395-443 | The combined path for the three kinds of input, with the code's truncations. |
| `Paths.ResolvePath` | src/kernel/kern_fs.c:377-513 | The whole function: the canonical path, which `RelativeIs`, `RootedIs` and `DriveIs` give from path and directory, cut to the output buffer; an empty path gives the current directory. |

## Left out

- FrameOwnership.Machine.MapPage: requires enough free frames for the missing tables, because the code does not check `pmm_alloc_page` there; the same holds of PMalloc, Attach and HeapGrow.
- FrameOwnership.Machine.PMalloc: requires the region to end below 2^47; the code does not check that the heap pointer stays in the lower half. Region records and handle tables do not take frames from the machine's memory.
- FrameOwnership.Machine.constructor: every table the boot loader left in the kernel's address space is a frame of 512 entries; large pages in its upper half are not modelled.
- FrameOwnership.Machine.CreateRegion: one page only; for more pages the code takes one frame and later frees as many as it recorded, so frames would not be conserved. `SharedMemory.Ipc` has any page count.
- FrameOwnership.Machine.HeapGrow: at any address of the heap's entry of the top table, one page at a time; `HeapFrames.HeapExpand` is the loop. The header of the new block is the business of `KernelHeap`.
- HeapFrames.HeapExpand: stops where the code would go on with frame 0 as a page table; what happens to that frame's contents and to the heap then is not described. `HeapSpec` and `KernelHeap` count pages that can be backed, and say what `kmalloc` does up to there (`HeapFrames.OnFrames`).
- FrameOwnership.Machine.ProcessExit: the memory side only; file handles, arguments, the compositor, terminal sessions and clean-up hooks are not modelled.
- Scheduler.Sched.TaskCreate: stack contents are not modelled; thread and process ids do not wrap.
- Scheduler.Sched.KillProcess: `sched_kill_children` is the same loop with another test.
- KernelHeap.Arena.KFree: pointers inside the heap are those of a block, as the code assumes; its tests for links that leave the heap are decided by the tiling. The same holds of KernRealloc.
- KernelHeap.Arena.constructor: the initial heap with enough frames; the code does not check.
- KernelHeap.Arena.KernRealloc: every size that does not overrun (`Overruns`); what the heap looks like after a copy has run over the next header is not described.
- BlockCache.Cache.ReadBlock: IDE drives, with the clock below its limit; transfers succeed and are not split into pieces of 255 sectors; a cache buffer that cannot be allocated, hit counters and the other drive kinds are left out.
- Bitmaps.Volume.Alloc: bitmap buffers are always available, and every group the search looks at, at most 256, has its descriptor in the cached table; the code reads past that table otherwise.
- BlockMap.SetBmap: requires free blocks for the missing tables; a full disk in the middle of it is left out. Blocks are at most 4096 bytes and the first data block is 0. The disk is the one the cache presents.
- BlockMap.AllocBlock: with a free block other than block 0 to hand out.
- Files.FsWrite: requires the free blocks the write needs (`WriteNeed`, exact), an end below 2^32 and a file without holes; what a write across 2^32 (`WriteExact`) leaves in the file is not described, and a write of 2^32 bytes or more does not end. Handle-table lookup and two handles on one file are left out.
- Files.FsRead: on a dense file; in the wrapping case of `ReadExact` it requires that no block is mapped past the end and that the last block ends below 4 GiB. Holes inside the file and the fallback without a batch buffer are left out.
- Files.InodeTable.Write: the inode table holds decoded inodes; its byte layout is left out.
- DirectoryFiles.AddDirEntry: for a parent whose first block is allocated; growing an empty directory reads a block that was never cleared. Parent inodes that do not exist are left out.
- DirectoryFiles.FindChild: bytes past the end of a block, which a damaged record may point at, read as absent.
- Explorer.Iterator.Next: the zero padding of names, the iterator's buffers and its start without memory are left out; block and inode reads are those of a disk that does not change during the walk.
- Paths.ResolveTwice: while the whole path fits the 512-byte buffer; truncated output need not be stable.
- Paths.ResolvePath: strings without NUL; reading the current directory from process or session is a parameter.
- UndoLog.BlockDevice.LoadUninstallData: files whose header names at most the table's number of entries, since the code does not check it; stopping half-way on a read error is covered, leaving a partial table is not described.
- UndoLog.BlockDevice.Write: device and memory errors are left out, so that a write fails only for range or log space.
- UndoLog.BlockDevice.constructor: devices of whole blocks, their size probed already. On a short last block the failing read leaves its bytes in the cache of another block, which is not modelled.
- Interrupts: each section with interrupts disabled is one step. Port input and output, TLB and PAT handling, device mappings and serial output are left out.
- `shmem_read_bytes`, `shmem_write_bytes`, message rings and signals: bounds checks and copies that add only easy members; waiting for signals is not atomic in the code.
- `ext2_find_path` with symbolic links, and file and link creation: they combine modelled steps with buffers they may still be reading.
