# Kernel-Development bookkeeping, modelled in Dafny

This project models the in-memory bookkeeping of a small teaching kernel for 32-bit x86, machine problem by machine problem:

- **Frame allocator (mp2, module `FramePool`).** A contiguous frame pool keeps two bits per frame in a bitmap byte array: Free, Used, Head-of-sequence (HoS) or Inaccessible. It also keeps a free-frame counter. `get_frames` picks the first run of free frames that fits. `release_frames` finds the pool that owns a frame through the process-wide list of pools, then frees the run that starts at that frame.
- **Paging format (module `Paging`).** Directory and table entries, the split of an address into its indices, and the recursive `PDE_address`/`PTE_address` arithmetic. It also models the MMU walk, used to show what those recursive addresses reach.
- **Explicit page tables (mp3, module `ExplicitPaging`).** The page directory and its tables are reached by physical address. A page fault allocates a table from the kernel pool when it is missing, then a page from the process pool.
- **Recursive page tables and virtual-memory pools (mp4, module `VirtualMemory`).** Directory slot 1023 maps the directory itself. A fault is served only for an address that some registered pool accepts. Each pool keeps a 512-entry region array, allocates regions by bumping past the last one, and on release hands each page of the region to `free_page`. `free_page` returns the frame to its frame pool.
- **As-written region handling (module `VmPoolAsWritten`).** `release` and `allocate` exactly as the source writes them, for the findings below.
- **Thread queue (mp6, module `ThreadQueue`).** The FIFO of threads shared by every `thread_node`. It supports append, pop-front and delete of a given thread. The module also holds the node-and-pointer structure as the source manipulates it.
- **File system (mp7, modules `FileSystems` and `Files`).** Block 0 of the disk holds the inode table and block 1 the free-block map. Format, lookup, free-block search, create and delete work on these two blocks. An open `File` is a one-block cache with a cursor. `Consistent` is the invariant of those two blocks: every used inode has its own id and its own data block, in range and marked used. Format establishes it (`FormattedEmpty`). Create and delete keep it (`CreateConsistent`, `DeleteConsistent`, and the contracts of `CreateFile` and `DeleteFile`). `DeleteFile` requires it, because the source clears the free-map entry of the deleted file's block without a range check.

State the source changes in place is kept in classes with `modifies` frames:
- the frame pool and its bitmap array;
- the page tables;
- the region array;
- the queue;
- the disk's inode and free-map arrays;
- the file cache.

Each method is proved against a specification function on values (`FirstFit`, `Allocated`, `Released`, `ClearPages`, `Removed`, `Without`, `Create`, `Delete`, `Overlay`, …). Lemmas then prove the properties of those functions: round trips, preserved invariants and counter agreement.

Where the code does something its authors evidently did not intend, the model keeps that behaviour in an as-written member with a concrete counterexample. The operation the rest of the model uses is the corrected one (see "## Findings").

## Model

| member | source | states |
|---|---|---|
| FramePool.SetBitsSpec | mp2/cont_frame_pool.C:302-326 | set_state(Free) and set_state(Inaccessible) read back as written from any state; Used and HoS, written by flipping one bit, read back exactly when the frame was Free; the other three frames of the byte keep their state |
| FramePool.OthersKept | mp2/cont_frame_pool.C:302-326 | a byte changed only in one slot's two bits decodes to the same state in every other slot |
| FramePool.ViewAfterSet | mp2/cont_frame_pool.C:302-326 | after set_state on frame f the bitmap's view changes at f only, to the state written |
| FramePool.FirstFit | mp2/cont_frame_pool.C:195-212 | the result starts a run of n Free frames and no earlier frame does; None means no frame starts such a run |
| FramePool.FirstFitIsLeast | mp2/cont_frame_pool.C:195-212 | the lowest frame that starts a free run of length n is the one the search returns |
| FramePool.Allocated | mp2/cont_frame_pool.C:213-225 | taking a free run leaves every frame that was not Free as it was |
| FramePool.RunEnd | mp2/cont_frame_pool.C:264-270 | the release walk covers exactly the Used frames that follow, and stops at the first non-Used frame or at the pool's end |
| FramePool.Released | mp2/cont_frame_pool.C:262-270 | releasing at h makes h Free and keeps every frame that was not Used |
| FramePool.CountAllocated | mp2/cont_frame_pool.C:216-225 | taking a free run of n frames lowers the number of Free frames by exactly n |
| FramePool.CountReleased | mp2/cont_frame_pool.C:262-270 | releasing a run raises the number of Free frames by the run's length |
| FramePool.AllocatedWellFormed | mp2/cont_frame_pool.C:216-225 | allocation keeps the invariant that every Used frame follows a HoS or Used frame |
| FramePool.ReleasedWellFormed | mp2/cont_frame_pool.C:262-270 | release keeps the same invariant |
| FramePool.ReleaseUndoesAllocate | mp2/cont_frame_pool.C:191-270 | under the invariant, releasing the head of a freshly taken run restores the frame states from before get_frames |
| FramePool.SomeFreeFrame | mp2/cont_frame_pool.C:193-212 | when the count of Free frames is at least 1, get_frames(1) finds a frame |
| FramePool.FencedFramesNeverChosen | mp2/cont_frame_pool.C:233-239 | no run chosen by the first-fit search touches a frame mark_inaccessible fenced off |
| FramePool.FencedFramesNeverReleased | mp2/cont_frame_pool.C:233-239 | a release at a HoS frame leaves every fenced frame Inaccessible |
| FramePool.InitialFramesCounted | mp2/cont_frame_pool.C:152-159 | the frames a new pool starts with satisfy the invariant, and their Free count is n, or n - 1 when the pool keeps its bitmap in its own frame 0 |
| FramePool.NeededInfoFrames | mp2/cont_frame_pool.C:280-283 | the result is the ceiling of n / 16384: enough info frames, with no frame to spare |
| FramePool.NeededInfoFramesMonotone | mp2/cont_frame_pool.C:280-283 | more frames never need fewer info frames |
| FramePool.NeededInfoFramesSmall | mp2/cont_frame_pool.C:280-283 | 0 frames need 0 info frames, and 1 to 16384 frames need one |
| FramePool.ContFramePool.constructor | mp2/cont_frame_pool.C:132-170 | requires n * 2 <= FRAME_SIZE * 8 (and n >= 1 when the pool holds its own bitmap); all frames Free, except frame 0 is HoS when the pool holds its own bitmap; the counter is n or n - 1 and agrees with the bitmap; the pool is appended to the pool list |
| FramePool.ContFramePool.MarkAllFree | mp2/cont_frame_pool.C:152-154 | every frame of the pool becomes Free; the bitmap bits beyond the pool are kept |
| FramePool.ContFramePool.GetState | mp2/cont_frame_pool.C:285-300 | get_state answers the frame's state in the bitmap's view |
| FramePool.ContFramePool.SetState | mp2/cont_frame_pool.C:302-326 | slot f changes only, to the state written, whether it is a frame of the pool or a slot of the management frame past the pool (Used and HoS from a Free frame of the pool) |
| FramePool.ContFramePool.FindRun | mp2/cont_frame_pool.C:195-212 | the search loop's answer is the first fit |
| FramePool.ContFramePool.GetFrames | mp2/cont_frame_pool.C:191-231 | on a fit at f: returns base + f, the frames become HoS then Used, and the counter drops by n; without a fit: returns 0 and nothing changes; the counter and the invariant are kept |
| FramePool.ContFramePool.TakeRun | mp2/cont_frame_pool.C:213-227 | the run becomes HoS then Used frames, and the counter drops by n |
| FramePool.ContFramePool.MarkInaccessible | mp2/cont_frame_pool.C:233-239 | slots [b, b + n) become Inaccessible, both the pool's frames and, when the range runs past the pool, the slots of the management frame beyond it; every other slot is kept; the counter is not adjusted, and a counter that bounded the Free frames still does |
| FramePool.ContFramePool.FenceSlot | mp2/cont_frame_pool.C:236-238 | one turn of the fencing loop extends the fenced range by slot f, inside or past the pool, and never raises the number of Free frames |
| FramePool.FencingLowersFreeCount | mp2/cont_frame_pool.C:233-239 | fencing never raises the number of Free frames, and lowers it when a Free frame is fenced, so after mark_inaccessible the unchanged counter can exceed the Free frames |
| FramePool.ContFramePool.FreeFollowers | mp2/cont_frame_pool.C:264-270 | the Used frames after the head become Free, within the pool, and the counter rises by their number |
| FramePool.ContFramePool.ReleaseRun | mp2/cont_frame_pool.C:255-272 | a HoS frame and its Used followers are freed and the counter rises by the run's length; a frame that is not HoS changes nothing |
| FramePool.OwnerIndex | mp2/cont_frame_pool.C:247-253 | the first pool in the list whose frame range contains g, or None when no pool does |
| FramePool.FramePoolList.constructor | mp2/cont_frame_pool.C:124-125 | the pool list starts empty |
| FramePool.FramePoolList.FindOwner | mp2/cont_frame_pool.C:243-253 | the list scan finds the first pool that owns the frame |
| FramePool.FramePoolList.ReleaseFrames | mp2/cont_frame_pool.C:241-278 | with no owning pool, nothing changes; otherwise the owning pool releases the run headed by g exactly when g is HoS, only that pool changes, and a counter that agreed with or bounded its bitmap still does |
| FramePool.FramePoolList.ReleaseInOwner | mp2/cont_frame_pool.C:255-272 | once the owning pool is known, the release has the effect ReleasedAt states for that pool |
| FramePool.AsWrittenRunEnd | mp2/cont_frame_pool.C:266-270 | the unbounded walk ends at or after its start, within the bitmap frame |
| FramePool.AsWrittenReleaseOverruns | mp2/cont_frame_pool.C:266-270 | in a two-frame pool with stale bitmap bits, the walk as written frees three frames, where the bounded walk stops at the pool's end |
| Paging.FrameEntry | mp3/page_table.C:92 | a pool frame's entry is present, and its frame bits are the frame number truncated to 20 bits |
| Paging.DirIndex | mp3/page_table.C:72 | the directory index is below 1024 |
| Paging.TableIndex | mp3/page_table.C:71 | the table index is below 1024 |
| Paging.TableBaseAligned | mp3/page_table.C:82 | masking a directory entry gives a page-aligned address with the entry's frame |
| Paging.TableBaseOfEntry | mp3/page_table.C:82 | the table behind an entry written for a frame is at that frame's address |
| Paging.PDEAddress | mp4/page_table.C:64-69 | PDE_address lies in the self-map slot's page of the self-map window, at byte offset 4 * (a >> 22) |
| Paging.PDEAddressValue | mp4/page_table.C:64-69 | PDE_address(a) == 0xFFFFF000 + 4 * (a >> 22), and it is word-aligned |
| Paging.PDEAddressPerDirectorySlot | mp4/page_table.C:64-69 | PDE_address depends only on the directory index |
| Paging.PTEAddress | mp4/page_table.C:71-77 | PTE_address's top 10 bits are 1023, its middle 10 bits are a >> 22, and its offset is 4 * the table index |
| Paging.PTEAddressValue | mp4/page_table.C:71-77 | PTE_address(a) == 0xFFC00000 + 4 * (a >> 12), and it is word-aligned |
| Paging.PTEAddressPerPage | mp4/page_table.C:71-77 | addresses in the same 4 KiB page share their PTE address |
| Paging.RecursiveAddressesInSelfMapWindow | mp4/page_table.C:64-77 | both recursive addresses use directory slot 1023; PDE_address also uses table slot 1023, and PTE_address uses table slot a >> 22 |
| Paging.SelfMapReachesDirectoryEntry | mp4/page_table.C:64-69 | with slot 1023 mapping the directory, the MMU translates PDE_address(a) to a's directory entry |
| Paging.SelfMapReachesTableEntry | mp4/page_table.C:71-77 | with the self-map, PTE_address(a) translates to a's entry in its page table when the directory entry is present, and faults otherwise |
| Paging.IdentityTable | mp3/page_table.C:30-34 | entry i is present and maps frame i |
| Paging.IdentityMapped | mp4/page_table.C:31-35 | the constructors' loop fills a fresh table with the identity mapping |
| Paging.GetFrame | mp4/page_table.C:112 | get_frames(1) on a pool whose counter passes its assert and bounds the Free frames: returns the first Free frame, or 0 when none is Free; that frame becomes HoS, the counter drops by what was taken, and the rest of the management frame is kept; a counter that agreed with the bitmap guarantees a frame |
| Paging.FirstFrame | mp2/cont_frame_pool.C:191-231 | get_frames(1) returns a frame of the pool that is Free with no Free frame before it, or 0 when no frame is Free |
| Paging.TakeFirstEffect | mp2/cont_frame_pool.C:213-217 | get_frames(1) turns exactly the frame it returns from Free into HoS, keeps every other frame, and lowers the Free count by what it takes from the counter |
| Paging.TwoFramesDistinct | mp4/page_table.C:115-117 | on a pool with two Free frames, two get_frames(1) calls return two different frames of the pool, both Free before and HoS after |
| Paging.FencedPoolGivesFrameZero | mp2/cont_frame_pool.C:193-230 | a pool fenced entirely by mark_inaccessible keeps its counter at n with no Free frame: get_frames(1) passes its assert, returns 0 and changes nothing |
| ExplicitPaging.BlankTable | mp3/page_table.C:84-89 | a new table has 1024 entries, none present |
| ExplicitPaging.PageTable.constructor | mp3/page_table.C:25-43 | two get_frames(1) calls on the kernel pool give the directory frame and the identity table frame, which differ while the counter agrees with the bitmap; the pool changes as those calls change it; directory entry 0 maps the identity table and entries 1..1023 are 2 (not present) |
| ExplicitPaging.PageTable.HandleFault | mp3/page_table.C:60-95 | a protection fault changes nothing; any other fault is resolved as FaultResolved states: a's entry receives what get_frames(1) returns on the process pool, in a blank table whose frame get_frames(1) takes from the kernel pool when the directory entry was absent; the directory and the tables change only there, and each pool that is asked changes exactly as get_frames(1) changes it while the other is unchanged |
| ExplicitPaging.PageTable.Resolve | mp3/page_table.C:67-92 | the faulting entry of a's table receives the process pool's first Free frame; a missing table is created first |
| ExplicitPaging.PageTable.NewTableAndPage | mp3/page_table.C:78-92 | the directory entry gets what get_frames(1) returns on the kernel pool; the new table is blank except the faulting entry, which gets what get_frames(1) returns on the process pool; both pools change exactly as get_frames(1) changes them |
| ExplicitPaging.PageTable.MapPage | mp3/page_table.C:92 | only the faulting entry changes, to what get_frames(1) returns on the process pool, present and writable; the pool changes exactly as get_frames(1) changes it |
| ExplicitPaging.PageTable.NewTable | mp3/page_table.C:78-89 | the absent directory entry gets what get_frames(1) returns on the kernel pool, and its table is blank; the kernel pool changes exactly as get_frames(1) changes it (the frame becomes HoS, the rest is kept) |
| ExplicitPaging.Blank | mp3/page_table.C:84-89 | the loop writes 4 into all 1024 entries |
| ExplicitPaging.FirstDirectory | mp3/page_table.C:36-40 | entry 0 holds the given entry; entries 1..1023 are 2 |
| VirtualMemory.RoundUpToPage | mp4/vm_pool.C:78-80 | the size rounded up is a page multiple, at least the size and less than one page more |
| VirtualMemory.FindStart | mp4/vm_pool.C:94-99 | the first entry with the given start, or None when no entry has it |
| VirtualMemory.RemovedKeepsOthers | mp4/vm_pool.C:106-108 | removing entry k keeps the entries before it in place and moves each later entry down by one |
| VirtualMemory.RemovedOrdered | mp4/vm_pool.C:106-108 | removal keeps the regions disjoint and in address order |
| VirtualMemory.AppendedOrdered | mp4/vm_pool.C:82-86 | a region that starts where the last one ends keeps the regions disjoint and in order |
| VirtualMemory.LiveRegionLegitimate | mp4/vm_pool.C:121-127 | every address of a live region, its end included, is legitimate |
| VirtualMemory.ReleaseKeepsOtherRegions | mp4/vm_pool.C:121-127 | after a release, addresses of the other regions stay legitimate, and addresses strictly inside the released region are no longer legitimate (the base address aside) |
| VirtualMemory.Pages | mp4/vm_pool.C:111-115 | release hands free_page n page addresses |
| VirtualMemory.RegionPages | mp4/vm_pool.C:104-115 | a region yields size / PAGE_SIZE pages |
| VirtualMemory.ClearPage | mp4/page_table.C:157 | free_page's store keeps the table structure: the same tables, each with 1024 entries |
| VirtualMemory.ClearPages | mp4/vm_pool.C:111-115 | freeing a list of pages keeps the table structure, and every page stays reachable |
| VirtualMemory.ClearPagesClears | mp4/vm_pool.C:111-115 | after release, the table entry of every page of the region is 2 (not present) |
| VirtualMemory.ClearPagesKeeps | mp4/vm_pool.C:111-115 | table entries of pages outside the region keep their values |
| VirtualMemory.NewTableMapped | mp4/page_table.C:114-118 | installing a new table at an absent slot keeps the directory self-mapped and consistent with its tables |
| VirtualMemory.EntryMapped | mp4/page_table.C:111-117 | writing one table entry keeps the directory self-mapped and consistent with its tables |
| VirtualMemory.PageTable.constructor | mp4/page_table.C:26-47 | two get_frames(1) calls on the kernel pool give the directory frame and the first table frame, and the pool changes as those calls change it; directory entry 0 maps the identity table, entry 1023 maps the directory itself and the others are 2; the shared pool table is left as it is |
| VirtualMemory.PageTable.RegisterPool | mp4/page_table.C:141-150 | the pool is stored at the shared vm[pool_number] and the count rises by one (all 512 slots taken is fatal) |
| VirtualMemory.VmTable.constructor | mp4/page_table.C:12 | the static pool table starts with 512 empty slots and no pool registered |
| VirtualMemory.VmTable.CheckPools | mp4/page_table.C:89-106 | the scan admits the address exactly when no pool is registered or some registered pool accepts it, and changes nothing |
| VirtualMemory.PageTable.HandleFault | mp4/page_table.C:79-139 | the outcome is a protection fault when bit 0 of the error code is set, a rejected address when pools are registered and none accepts it (fatal), and a resolved fault otherwise; the first two change nothing; a resolved fault changes the directory, the tables and the process pool as FaultResolved states, and the free_page logs are kept |
| VirtualMemory.PageTable.Resolve | mp4/page_table.C:108-119 | with the directory entry present, a's entry gets what get_frames(1) returns on the process pool; otherwise the directory entry gets that frame and a's entry what a second call returns; the pool changes exactly as those calls change it, and a counter that agreed with the bitmap still does |
| VirtualMemory.PageTable.NewTableAndPage | mp4/page_table.C:114-119 | the directory entry gets what the first get_frames(1) returns and a's entry in the new table what the second returns; the pool's frames change exactly as those two calls change them and the counter drops by what they take |
| VirtualMemory.PageTable.FreePage | mp4/page_table.C:152-160 | a present entry's frame is released through the pool list with the effect ReleasedAt states; the entry becomes 2 in every case, the directory and every other entry are kept, and the logs gain the page and the frame handed to release_frames |
| VirtualMemory.PageTable.ClearEntry | mp4/page_table.C:157 | the page's entry becomes 2, everything else in the tables and the directory is kept, and the logs gain the page and its frame if the entry was present |
| VirtualMemory.EntryFrames | mp4/page_table.C:154-156 | free_page hands release_frames at most one frame: the frame of the page's entry when that entry is present |
| VirtualMemory.DistinctPagesReleaseTheirFrames | mp4/vm_pool.C:111-115 | when no two pages share a table entry, freeing them in turn hands release_frames exactly the frames their entries held before, in page order |
| VirtualMemory.GetTwoFrames | mp4/page_table.C:115-117 | the table frame is the pool's first Free frame and the page frame the first Free frame after that one is taken; the pool's frames change exactly as those two calls change them, the rest of the management frame is kept, and the counter drops by what they take; the two frames differ while the counter agrees with the bitmap |
| VirtualMemory.RecursiveDirectory | mp4/page_table.C:37-44 | entry 0 maps the first table, entry 1023 maps the directory, and the rest are 2 |
| VirtualMemory.ShiftedArranged | mp4/vm_pool.C:106-110 | the rearranged region array keeps its layout for one fewer region and holds the other regions in order |
| VirtualMemory.VMPool.constructor | mp4/vm_pool.C:47-70 | the pool registers in the shared pool table at the old pool_number, which rises by one; region 0 is {base, PAGE_SIZE}, the count is 1, and entries 1..511 are {0, 0} |
| VirtualMemory.VMPool.Allocate | mp4/vm_pool.C:72-90 | the new region starts at the end of the last one, covers the size rounded up to pages, and is appended to the live regions; it is returned |
| VirtualMemory.VMPool.IsLegitimate | mp4/vm_pool.C:121-131 | true exactly for the base address and for addresses within a live region, end included |
| VirtualMemory.VMPool.Release | mp4/vm_pool.C:92-119 | the live region starting at s is removed with the later ones moved down; its pages go to free_page in ascending order: their entries become 2 and the logs gain the pages and the frames handed to release_frames; the directory and the pool list are kept; without such a region nothing changes |
| VirtualMemory.VMPool.ReleaseEntry | mp4/vm_pool.C:104-116 | release once the region's entry is found: the entry is removed, then free_page runs on each of its pages in ascending order with the effect Release states; the directory and the pool list are kept |
| VirtualMemory.VMPool.FindRegion | mp4/vm_pool.C:93-99 | the search answers the first live entry with the start |
| VirtualMemory.VMPool.RemoveEntry | mp4/vm_pool.C:106-116 | the live regions lose entry k and the rest keep their order |
| VirtualMemory.FreeOnePage | mp4/vm_pool.C:112 | one free_page call: the page's entry becomes 2, the directory and the pool list are kept, and the logs gain the page and its frame if the entry was present |
| VirtualMemory.FreePages | mp4/vm_pool.C:111-115 | the loop calls free_page on exactly the n pages from the start address, in ascending order: their entries become 2, the logs gain the pages and the frames handed to release_frames, and the directory and the pool list are kept |
| VirtualMemory.FreeRegion | mp4/vm_pool.C:104-115 | the loop over a region's pages, from its start address and size / PAGE_SIZE of them, has the effect FreePages states |
| VirtualMemory.FreeNext | mp4/vm_pool.C:111-114 | one turn of the loop: free_page on the current page, then the next address and one page fewer; the freed prefix grows by that page |
| VirtualMemory.ShiftThenClear | mp4/vm_pool.C:106-110 | the shift followed by clearing the last live entry is the removal of entry k |
| VirtualMemory.ShiftDown | mp4/vm_pool.C:106-108 | entries k+1..count-1 move down one place and the rest are unchanged |
| VirtualMemory.FirstRegions | mp4/vm_pool.C:60-67 | entry 0 is one page at the base, and the other 511 entries are {0, 0} |
| VmPoolAsWritten.ReleaseAsWritten | mp4/vm_pool.C:92-119 | release as written finds nothing only when none of the 512 entries starts at s; otherwise the count drops by one and the freed region starts at s |
| VmPoolAsWritten.AllocateTargetAsWritten | mp4/vm_pool.C:74-86 | allocate as written proceeds whenever the count is at most 512, and writes entry count |
| VmPoolAsWritten.ReleaseTwiceAccepted | mp4/vm_pool.C:94-110 | releasing the last of three regions leaves its copy in entry 2; a second release finds that copy, frees the page again and drops the live region in entry 1, where the corrected search finds nothing |
| VmPoolAsWritten.ReleaseOfUnusedEntry | mp4/vm_pool.C:94-116 | release(0) with no live region at 0 matches the unused entry {0, 0} and drops the last live region; the corrected search finds nothing |
| VmPoolAsWritten.AllocatePastTheArray | mp4/vm_pool.C:74-86 | a well-formed region array with all 512 entries live: allocate as written does not refuse, and writes the entry whose index equals the array's length |
| ThreadQueue.FirstIndex | mp6/thread_node.h:45-57 | the walk stops at the first node holding t, or finds none exactly when t is not queued |
| ThreadQueue.Without | mp6/thread_node.h:41-60 | deleting a queued thread removes one occurrence and keeps the rest as a multiset; an absent thread leaves the queue unchanged; a thread queued once is gone afterwards |
| ThreadQueue.Served | mp6/thread_node.h:67-73 | n pops return n threads |
| ThreadQueue.ServedInOrder | mp6/thread_node.h:29-73 | FIFO: the threads queued first are popped first, in the order they were added, whatever is added after them |
| ThreadQueue.ThreadList.constructor | mp6/thread_node.h:17-18 | the shared queue starts empty |
| ThreadQueue.ThreadList.AddThreadNode | mp6/thread_node.h:29-39 | the thread is appended at the tail |
| ThreadQueue.ThreadList.Empty | mp6/thread_node.h:62-65 | true exactly when the queue is empty |
| ThreadQueue.ThreadList.GetFrontThread | mp6/thread_node.h:67-73 | the head's thread is returned and the queue loses it |
| ThreadQueue.ThreadList.DeleteThreadNode | mp6/thread_node.h:41-60 | the first node holding the thread is unlinked; with none, or on an empty queue, nothing changes |
| ThreadQueue.AddAsWritten | mp6/thread_node.h:29-39 | the new node becomes the tail and holds the thread with no successor |
| ThreadQueue.DeleteWalk | mp6/thread_node.h:45-58 | the walk never updates head_list or tail_list |
| ThreadQueue.DeleteAsWritten | mp6/thread_node.h:41-60 | delete as written never updates head_list or tail_list |
| ThreadQueue.DeleteHeadLeavesHeadDangling | mp6/thread_node.h:45-51 | deleting the only thread frees the head node while head_list still points at it |
| ThreadQueue.DeleteTailLosesNextAdd | mp6/thread_node.h:36-51 | after deleting the tail thread of [7, 8] and adding 9, the queue reachable from the head is [7], not [7, 9] |
| FileSystems.FindId | mp7/file_system.C:108-113 | the first inode with the id, or None when no inode has it |
| FileSystems.LastId | mp7/file_system.C:139-147 | the last inode with the id, or None when no inode has it |
| FileSystems.FirstZero | mp7/file_system.C:120-126 | the lowest free-map entry that is 0, or None when there is none |
| FileSystems.Create | mp7/file_system.C:130-155 | create succeeds exactly when no inode has the id and a free inode and a free block exist; on failure nothing changes |
| FileSystems.Delete | mp7/file_system.C:157-185 | delete succeeds exactly when the id is a real one and some inode has it; on failure nothing changes |
| FileSystems.FormattedEmpty | mp7/file_system.C:78-98 | a freshly formatted volume is consistent and holds no file |
| FileSystems.CreateConsistent | mp7/file_system.C:139-152 | create keeps ids unique, blocks unique and in range, and used blocks marked in the free map |
| FileSystems.DeleteConsistent | mp7/file_system.C:170-183 | delete keeps the volume consistent |
| FileSystems.CreateThenLookup | mp7/file_system.C:102-152 | after a successful create, lookup finds the new inode, {id, its block, BLOCK_SIZE}, at the last formerly free slot |
| FileSystems.DeleteThenLookup | mp7/file_system.C:157-185 | after a successful delete, lookup finds no inode with the id |
| FileSystems.OthersKept | mp7/file_system.C:130-185 | create and delete leave where lookup finds every other id unchanged |
| FileSystems.CreateAsWritten | mp7/file_system.C:130-155 | with no free inode and no existing inode with the id, create as written writes inode -1 |
| FileSystems.DeleteAsWritten | mp7/file_system.C:157-185 | delete as written reports success only when some inode has the id |
| FileSystems.CreateAgrees | mp7/file_system.C:139-152 | where a free inode and a free block exist, create as written is the corrected create |
| FileSystems.DeleteAgrees | mp7/file_system.C:170-183 | on a consistent volume and a real id, delete as written is the corrected delete |
| FileSystems.CreateWithoutFreeInode | mp7/file_system.C:139-148 | with every inode in use, create of a new id writes inode -1, while the corrected create refuses |
| FileSystems.CreateWithoutFreeBlock | mp7/file_system.C:148-150 | with every block in use, create as written succeeds with block -1, and a later delete clears free-map entry -1 |
| FileSystems.DeleteOfFreeMarker | mp7/file_system.C:170-178 | delete(-1) as written picks a free inode and clears free-map entry -1, while the corrected delete refuses |
| FileSystems.Format | mp7/file_system.C:73-100 | blocks 3..size/BLOCK_SIZE-1 are zeroed and other blocks are kept; block 0 gets all-free inodes; block 1 gets a free map with only blocks 0 and 1 in use |
| FileSystems.FreeInodes | mp7/file_system.C:86-90 | every inode becomes {-1, -1, 0} |
| FileSystems.FreshFreeMap | mp7/file_system.C:92-97 | the free map is all zero except entries 0 and 1 |
| FileSystems.FileSystem.constructor | mp7/file_system.C:59-61 | Mount records the disk |
| FileSystems.FileSystem.LookupFile | mp7/file_system.C:102-114 | the loop answers the first inode with the id, or none |
| FileSystems.FileSystem.GetFreeBlock | mp7/file_system.C:116-128 | the lowest unused block of the first MAX_INODES is marked used and returned; -1 with no change otherwise |
| FileSystems.FileSystem.CreateFile | mp7/file_system.C:130-155 | the disk's two blocks end as Create describes, the result is its success flag, and a consistent volume stays consistent |
| FileSystems.FileSystem.DeleteFile | mp7/file_system.C:157-185 | the disk's two blocks end as Delete describes, and stay consistent |
| Files.Span | mp7/file.C:53-54 | a read or write moves min(n, BLOCK_SIZE - 1 - position) bytes: never past the last-but-one byte |
| Files.Overlay | mp7/file.C:65-68 | written bytes replace the cache from the cursor on; the others are kept |
| Files.OverlayThenRead | mp7/file.C:62-72 | the overlaid range holds the written data |
| Files.File.constructor | mp7/file.C:29-36 | the cache holds the file's block and the cursor is 0 |
| Files.File.EoF | mp7/file.C:79-82 | true exactly when the cursor is at BLOCK_SIZE - 1 |
| Files.File.Reset | mp7/file.C:74-77 | the cursor returns to 0 and the cache is unchanged |
| Files.File.Read | mp7/file.C:50-60 | copies cache[p..p+k) to buf[0..k), with k = Span(n, p); returns k, advances the cursor by k, and leaves the cache and the rest of buf unchanged |
| Files.File.Write | mp7/file.C:62-72 | copies buf[0..k) into the cache from the cursor, with k = Span(n, p); returns k and advances the cursor by k |
| Files.WriteThenReadBack | mp7/file.C:50-77 | Reset, Write(n, data), Reset, Read(n, out) gives out[0..k) == data[0..k), with k = min(n, BLOCK_SIZE - 1) |

## Left out

- Console output, `print_bitmap`, and the port I/O of the disk drivers (mp6/blocking_disk.C, mp6/mirrored_disk.C) are output or device access.
- The schedulers (mp5/scheduler.C, mp6/scheduler.C) are context switches and interrupt control, which is concurrency.
- `init_paging`, `load`, `enable_paging`, every control-register access and the TLB reload in `free_page` are hardware. The faulting address is a parameter of `HandleFault`.
- The physical placement of the bitmap, the tables and the region array (casts of frame or base addresses to pointers) is not modelled. They are arrays and map/sequence fields. The MMU view of the recursive design is covered by `Paging.SelfMapReachesDirectoryEntry` and `Paging.SelfMapReachesTableEntry`.
- The frame-pool bitmap is one 4096-byte frame whose initial contents are a parameter of the constructor. Frames beyond the pool keep those bytes.
- FramePool.ContFramePool.MarkInaccessible: it requires b >= base and b + n <= base + 16384, the slots of the management frame. The source checks neither (mp2/cont_frame_pool.C:233-239). With b below the base, `frame_no - base_frame_no` wraps to a huge index and set_state writes far outside the bitmap. Past slot 16383 it writes beyond the management frame. Neither write to other memory is modelled.
- FramePool.ContFramePool.constructor: it requires n >= 1 when the pool keeps its bitmap in its own frame 0. With n = 0 the source passes its assert (mp2/cont_frame_pool.C:137), writes HoS into slot 0, which is then past the pool and holds stale bits, and `nFreeFrames--` (line 158) wraps the 32-bit counter to 2^32 - 1. That pool is not modelled.
- VirtualMemory.PageTable.HandleFault: faults at addresses in the self-map window (directory index 1023) are excluded by its requires. There the source would treat the directory itself as a page table.
- VirtualMemory.PageTable.HandleFault: the contents of the frame that becomes a new page table are a parameter (`stale`), because the source never initialises that frame.
- VirtualMemory.PageTable.HandleFault: it requires the process pool's counter to pass the assert at the head of each get_frames(1) call the fault makes (mp2/cont_frame_pool.C:193). That assert checks the counter only, and the halt when it fails is not modelled. A counter above the number of Free frames, as mark_inaccessible leaves it, is covered: get_frames(1) then returns 0 and the entry maps frame 0.
- ExplicitPaging.PageTable.HandleFault: it requires the counter of each pool the fault asks to pass the same assert (mp2/cont_frame_pool.C:193). The halt when it fails is not modelled. A get_frames(1) that returns 0 is covered as above.
- ExplicitPaging.PageTable.HandleFault and VirtualMemory.PageTable.HandleFault: when get_frames(1) returns 0, the new entry maps frame 0 whatever that frame holds. The model states the 0 but not what mapping frame 0 does to its other users.
- VirtualMemory.VmTable: the static `vm[]` array and `pool_number` are one object shared by every page table. `pool_number` is declared in page_table.H, which is not part of this model, so both start as static storage does: zeroed.
- VirtualMemory.VMPool.Allocate: region addresses are unbounded integers with a requires that the new region ends below 4 GiB, so the 32-bit wrap-around of `start + size` is not modelled.
- VirtualMemory.VMPool.Allocate: it also requires a live region. After region 0 has been released, the source reads entry -1.
- VirtualMemory.FreePages: the frame pools after the loop are not stated. The contract gives the frames handed to release_frames, in order, but not each call's outcome. `VirtualMemory.DistinctPagesReleaseTheirFrames` ties those frames to the entries before the loop.
- VirtualMemory.FreeOnePage: like FreePages, it keeps the frame handed to release_frames but not the outcome that `PageTable.FreePage` states.
- VirtualMemory.VMPool.ReleaseEntry: like FreePages, it does not state the frame pools after the loop.
- VirtualMemory.VMPool.Release: like FreePages, it does not state the frame pools after the loop.
- VirtualMemory.VMPool.Release: it requires the page-table entries of the region's pages to be reachable (their directory entries present). The source's access through `PTE_address` would otherwise fault recursively, which is not modelled.
- The VMPool constructor's frame-pool argument is unused by the source's operations and is not modelled.
- ThreadQueue.ThreadList.GetFrontThread: it requires a non-empty queue, because the source dereferences a null head.
- ThreadQueue: node allocation and `delete` are not modelled as memory. Threads are identified by number, as the source compares them by address.
- ThreadQueue.Walk: the walk of the as-written node structure is bounded by the number of nodes, so a cyclic list is not modelled.
- The file system's `MAX_INODES` is 32, because file_system.H is not part of this model. `BLOCK_SIZE` is 512.
- `FileSystem::Mount` keeps pointers into its own stack buffers, and the constructor and destructor allocate and free buffers; the model records the mounted disk and reads the two blocks directly.
- FileSystems.FileSystem.LookupFile: the source returns a pointer into its own stack buffer (mp7/file_system.C:106-111), and `File`'s constructor and destructor dereference it after the buffer is gone (mp7/file.C:33,42). The model returns the inode's value, so that dangling pointer is not modelled.
- FileSystems.FileSystem.DeleteFile: it requires the volume to be `Consistent`, which every volume made by Format, CreateFile and DeleteFile is. On a disk whose inode names a block outside the free map, the source writes outside its buffer (mp7/file_system.C:178). That write is not modelled.
- The inode table is a typed array, not a reinterpreted byte buffer.
- FileSystems.Format: like the source, it leaves block 2 (the first data block) unzeroed. Blocks 3.. are modelled as a map of written blocks.
- Files.File.constructor: it takes the file's block contents as a parameter, in place of the lookup and disk read. The cursor starts at 0 because file.H is not part of this model.
- The `File` destructor's write-back of the cache to disk is not modelled.
- Files.File.Read and Files.File.Write require the caller's buffer to be distinct from the cache and long enough for the bytes moved.

## Findings

| source | as written | input that shows it | evidently intended | confidence | as-written member | corrected member |
|---|---|---|---|---|---|---|
| mp2/cont_frame_pool.C:266-270 | the release walk frees frames while the next slot reads Used, with no bound at the pool's last frame | a two-frame pool whose bitmap byte held 0xE0; get_frames(2), then release_frames of its first frame: the walk frees slots 0, 1 and 2, one of them beyond the pool, and adds one to the counter for each, so the counter goes from 0 to 3 in a two-frame pool | stop the walk at the pool's last frame | high, not executed | FramePool.AsWrittenReleaseOverruns | FramePool.ContFramePool.ReleaseRun |
| mp4/vm_pool.C:109-110 | after the shift, entry `num_of_allocated_regions` is cleared instead of the last live entry, leaving a copy of that entry | regions [R0, A, B] with B last: release(B.start) leaves B in entry 2; a second release(B.start) succeeds, frees B's page again, and drops A | clear entry count - 1, so the second release finds nothing | high, not executed | VmPoolAsWritten.ReleaseTwiceAccepted | VirtualMemory.VMPool.RemoveEntry |
| mp4/vm_pool.C:94-99 | the search covers all 512 entries, including unused {0, 0} entries | regions [R0, A] with count 2: release(0) matches entry 2, frees nothing, and decrements the count, losing A | search the live entries only, so a missing start is the fatal case | high, not executed | VmPoolAsWritten.ReleaseOfUnusedEntry | VirtualMemory.VMPool.FindRegion |
| mp4/vm_pool.C:74-77 | allocation refuses only when more than 512 regions are live | 512 live regions: allocate writes entry 512, one past the array | refuse when 512 regions are live | high, not executed | VmPoolAsWritten.AllocatePastTheArray | VirtualMemory.VMPool.Allocate |
| mp6/thread_node.h:45-51 | deleting the head node frees it without moving `head_list` | the queue [7], then delete(7): head_list points at freed memory, and empty() answers false | move head_list (and tail_list) past the deleted node | high, not executed | ThreadQueue.DeleteHeadLeavesHeadDangling | ThreadQueue.ThreadList.DeleteThreadNode |
| mp6/thread_node.h:36-51 | deleting the tail node frees it without moving `tail_list`, and the next add links after the freed node | the queue [7, 8]: delete(8), then add(9): the queue reachable from the head is [7] | move tail_list to the predecessor | high, not executed | ThreadQueue.DeleteTailLosesNextAdd | ThreadQueue.ThreadList.DeleteThreadNode |
| mp7/file_system.C:139-148 | with no free inode, `free_inode` stays -1 and inode -1 is written | a table of 32 files, then CreateFile(100) | refuse when no inode is free | high, not executed | FileSystems.CreateWithoutFreeInode | FileSystems.FileSystem.CreateFile |
| mp7/file_system.C:148-150 | GetFreeBlock's -1 is stored as the file's block | a formatted table with every block in use: CreateFile(5) succeeds with block -1; then DeleteFile(5) clears free-map entry -1 | refuse when no block is free | high, not executed | FileSystems.CreateWithoutFreeBlock | FileSystems.FileSystem.CreateFile |
| mp7/file_system.C:170-178 | DeleteFile(-1) matches a free inode and clears the free-map entry of its block -1 | DeleteFile(-1) on a formatted disk | refuse the free-inode marker -1 as an id | medium, not executed | FileSystems.DeleteOfFreeMarker | FileSystems.FileSystem.DeleteFile |
