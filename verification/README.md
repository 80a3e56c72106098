# A verified model of the kernel's memory manager, scheduler and console

This project models the i386 kernel's memory management in Dafny and proves what it keeps over whole
runs: the physical frame allocator, the page tables behind the recursive directory slot, the virtual
memory manager on top of both, and the kernel heap. Beside it stand three smaller machines: the
round-robin thread table, the scrolling text terminal, and `printf` writing to that terminal.

Every part has two layers. The classes (`Space`, `Pmm`, `AddressSpace`, `Manager`, `List`, `Table`,
`Screen`) hold the arrays, cursors and links of the C code and change them in place with its loops and
branches. Each of their methods is proved to do what a function or relation on sequences says, and the
`...Spec` modules prove what those functions guarantee.

| file | contents |
|---|---|
| `Extents.dfy` | runs of pages, lists of runs, the normal form of a free list, and why the free pages determine it |
| `Memmove.dfy` | `memmove` on overlapping ranges, used for every array deletion and for scrolling |
| `FreeListSpec.dfy`, `FreeList.dfy` | one free list of the virtual memory manager |
| `FrameListSpec.dfy`, `Frames.dfy` | the frame allocator |
| `Coalescing.dfy` | when its coalescing leaves nothing to merge |
| `MemoryMap.dfy` | its set-up from the memory map |
| `Paging.dfy`, `PageTables.dfy` | 32-bit paging (section 4.3, "32-Bit Paging", of the Intel SDM, Volume 3A), the recursive window, the page-table operations |
| `VmmSpec.dfy`, `Vmm.dfy`, `VmmRuns.dfy` | the virtual memory manager: state, steps, in-place code, whole runs |
| `HeapSpec.dfy`, `Heap.dfy` | `kmalloc` and `kfree` on one linked list |
| `HeapRuns.dfy` | whole runs of them |
| `KernelHeap.dfy` | the heap on top of the virtual memory manager |
| `RingSpec.dfy`, `Threads.dfy` | the scheduler |
| `ScreenSpec.dfy`, `Terminal.dfy` | the terminal |
| `FormatSpec.dfy`, `FormatLaws.dfy`, `Printf.dfy` | `printf`: the formatter, what its formats mean, the code |
| `Machine.dfy` | machine words and the number of frames |
| `Markers.dfy` | markers that keep large definitions out of proofs that do not need them |

Addresses in the free lists and in the frame allocator are page numbers: byte address `a` of the code
is `4096 * addr`, and its NULL is page 0, which no list ever holds. Where 32-bit wrap-around can occur
(the memory map, the coalescing tests, the heap's growth, the checksum, the negation in `%d`) it is
written out; `FrameListSpec.WrapExact` and `VmmSpec.NothingWraps` show where it cannot.

The chain of results for the memory manager: `Manager.Valid` says that both free lists are in normal
form and hold exactly the window pages without a present page-table entry, that free frames, frames
under window pages and frames of page tables partition the frames `pmm_init` built, and that the words
in memory, read through the hardware's walk, are the flat map, with the boot mapping untouched.
`AllocBlock` and `FreeBlock` keep it and say exactly when they succeed and what they change.
`VmmRuns.Session` shows that any list of calls within the two contracts makes a run of that step
relation, and the other lemmas of `VmmRuns` are about all runs. `KernelHeap` puts the kernel heap on
top: its arenas are live pages of the kernel window that `AllocBlock` has given it.

## Where the code does not do what one would expect

* Coalescing of frames is not complete. Each merge moves the cursor past entries it has not looked at.
  `CoalesceSkips` gives the lists, and `LeaveUnmerged` gets there from `pmm_init` with calls of the
  allocator alone. `CoalesceExact` says for every list and cursor when a pass leaves nothing to merge:
  when each stretch of free frames in which runs touch holds one of the runs that the pass looks at.
  `CoalesceOneStretch` says the same of the list and the cursor alone when there is one such stretch.
* Freeing zero pages can leave an empty block in a free list; `ReleaseNothing` says exactly when, and
  `ReleaseNothingInside` shows it for every address inside the user window after boot.
* A heap request that fills its new arena but for less than a header makes a size underflow;
  `GrowthTiles` says exactly for which sizes, and `GrowthUnderflows` gives one and a heap in which it
  happens.
* Backspace does not undo the character that filled a row, nor a newline that scrolled, and going back
  to a full row puts the cursor at column 80; `BackUndoes` and `Backspace` say exactly when.
* A live thread can wait for ever when threads keep being created: `Starve` makes such runs of the table.
  `WaitExact` is the exact account of a wait.
* The memory map's high address halves are ignored; `EntryInside` says that an entry's runs lie inside
  it exactly when that half is zero.
* The return value of `printf` leaves out the two characters of each hexadecimal prefix
  (`RunRenders`).
* Comments call the free lists binary trees; they are sorted arrays. A comment on `new_thread` promises
  a new page directory for a NULL `cr3`; the code refuses such a call, and so does the model.

## Model

| member | source | states |
|---|---|---|
| Memmove.Move | libc/string/memmove.c:3-14 | for overlapping ranges too, the destination holds what the source range held before, and nothing else changes |
| Memmove.Delete | kernel/arch/i386/vmm.c:64 | deleting an array entry closes the gap and keeps the order of the rest |
| Extents.CanonicalUnique | kernel/arch/i386/vmm.c:299-345 | two free lists in normal form with the same free pages hold the same blocks |
| Extents.BlockIsMaximal | kernel/arch/i386/vmm.c:56-90 | a block of a list in normal form cannot be extended at either end by a free page |
| FreeListSpec.SinkDownShape | kernel/arch/i386/vmm.c:28-39 | check_lower moves a shrunk entry behind exactly the larger ones that follow it, and leaves the order of the others |
| FreeListSpec.BubbleUpShape | kernel/arch/i386/vmm.c:49-54 | the bubbling loop moves a grown entry before exactly the smaller ones in front of it |
| FreeListSpec.CheckUpperCorrect | kernel/arch/i386/vmm.c:41-93 | bubble, merge and recursion together turn a list with one run too many into normal form, with the same free pages |
| FreeListSpec.BestFitSmallest | kernel/arch/i386/vmm.c:187-195 | the scan finds a block exactly when one is large enough, and then a smallest one |
| FreeListSpec.TargetIsTop | kernel/arch/i386/vmm.c:187-195 | the pages handed out are the last ones of a smallest sufficient block |
| FreeListSpec.CommitCorrect | kernel/arch/i386/vmm.c:187-224 | a finished allocation takes exactly the target pages off the free set and keeps normal form; a block shrunk to zero is the last entry |
| FreeListSpec.RollbackRestores | kernel/arch/i386/vmm.c:208-209 | a failed allocation leaves the same free blocks in normal form |
| FreeListSpec.ReleaseCorrect | kernel/arch/i386/vmm.c:236-275 | freeing adds exactly the freed pages and keeps normal form; refused, with nothing changed, exactly when the array is full and no block touches the pages |
| FreeListSpec.ReleaseNothing | kernel/arch/i386/vmm.c:229-275 | for size 0 and any address, normal form is kept if and only if the array is full or the address touches a block |
| FreeListSpec.ReleaseNothingInside | kernel/arch/i386/vmm.c:18-26 | after boot it is lost for every address inside the user window |
| FreeListSpec.ChecksumOrderFree | kernel/arch/i386/vmm.c:299-310 | the 32-bit checksum depends on the blocks and not on their order |
| FreeListSpec.ChecksumOne | kernel/arch/i386/vmm.c:303-307 | one block multiplies the checksum by its address plus one and by its size, in 32 bits |
| FreeListSpec.ChecksumConcat | kernel/arch/i386/vmm.c:299-310 | a list multiplies it block by block |
| FreeList.Space.constructor | kernel/arch/i386/vmm.c:18-26 | one block with all pages of the window |
| FreeList.Space.CheckLower | kernel/arch/i386/vmm.c:28-39 | the swapping loop computes SinkDown |
| FreeList.Space.Rise | kernel/arch/i386/vmm.c:49-54 | the swapping loop computes BubbleUp |
| FreeList.Space.CheckUpper | kernel/arch/i386/vmm.c:41-93 | the in-place bubble, merge, memmove and recursion compute the specified list |
| FreeList.Space.Reserve | kernel/arch/i386/vmm.c:187-199 | the scan from the end, the shrinking and the sinking; the page returned is the top end of a best-fitting block, 0 exactly when none fits |
| FreeList.Space.Commit | kernel/arch/i386/vmm.c:218-224 | lowering the end index drops exactly the used-up block |
| FreeList.Space.Rollback | kernel/arch/i386/vmm.c:208-209 | the block gets its pages back and is put in order |
| FreeList.Space.Release | kernel/arch/i386/vmm.c:236-275 | the push, or the extension of an adjacent entry when all 512 slots are taken, or a refusal |
| FrameListSpec.AllocPageTakes | kernel/arch/i386/pmm.c:52-63 | alloc_page takes one free frame and no other, and returns NULL exactly when there is none |
| FrameListSpec.TopTaken | kernel/arch/i386/pmm.c:58-62 | the frame taken is the top one of the last run, which goes when it is used up |
| FrameListSpec.FreePageGives | kernel/arch/i386/pmm.c:65-73 | free_page adds exactly the given frame and keeps the runs disjoint |
| FrameListSpec.TakeThenGive | kernel/arch/i386/pmm.c:52-73 | giving back the frame just taken restores the list, if and only if that frame was not a run of its own behind a run that ends where it starts |
| FrameListSpec.GiveThenTake | kernel/arch/i386/pmm.c:52-73 | taking a frame after one was given yields that frame and the list |
| FrameListSpec.PageKeepsNoneFollows | kernel/arch/i386/pmm.c:65-73 | free_page never starts a run where the run before it ends |
| FrameListSpec.WrapExact | kernel/arch/i386/pmm.c:80-94 | on a valid list the 32-bit tests are true exactly for adjacent runs |
| FrameListSpec.CoalesceLoop | kernel/arch/i386/pmm.c:75-110 | each call terminates, never lengthens the list and leaves the cursor no lower than it found it, although it moves both ways inside |
| FrameListSpec.CoalesceFrom | kernel/arch/i386/pmm.c:112-121 | coalesce terminates with the cursor behind the last run |
| FrameListSpec.CoalesceLoopKeeps | kernel/arch/i386/pmm.c:75-110 | coalesce_loop keeps the set of free frames and the disjointness of the runs |
| FrameListSpec.CoalesceLoopSettles | kernel/arch/i386/pmm.c:75-110 | the run that ends up with the given run's frames touches no other run |
| Coalescing.CoalesceLoopRest | kernel/arch/i386/pmm.c:75-110 | every other run is left as it was or lies inside that one |
| FrameListSpec.CoalesceLoopApart | kernel/arch/i386/pmm.c:75-110 | if the other runs had gaps between them, afterwards all runs have |
| Coalescing.CoalesceLoopExact | kernel/arch/i386/pmm.c:75-110 | all runs have gaps afterwards if and only if every run that touches another belongs to the free frames around the given run |
| Coalescing.CursorEnds | kernel/arch/i386/pmm.c:81-106 | the cursor ends behind the slots before it that are left, and one further for every merge |
| FrameListSpec.CoalesceKeeps | kernel/arch/i386/pmm.c:112-121 | coalesce keeps the set of free frames, wherever its cursor stands |
| Coalescing.CoalesceExact | kernel/arch/i386/pmm.c:112-121 | for every list and cursor: coalesce leaves gaps everywhere if and only if every run that touches another is in one stretch of free frames with a run that coalesce looks at |
| Coalescing.CoalesceOneStretch | kernel/arch/i386/pmm.c:112-121 | when all touching runs are in one stretch of free frames: it does if and only if one of them is at or behind the cursor |
| Coalescing.CoalesceChained | kernel/arch/i386/pmm.c:112-121 | in particular it does when the run under the cursor belongs to that stretch |
| Coalescing.CoalesceTidies | kernel/arch/i386/pmm.c:112-121 | all that a call of coalesce does to list and cursor: the cursor ends behind the last run unless there is one run only |
| Coalescing.CoalesceSkips | kernel/arch/i386/pmm.c:91-119 | five frames given back, in the order in which free_block gives back two allocations, after which coalesce skips two runs that touch |
| Frames.LeaveUnmerged | kernel/arch/i386/pmm.c:17-121 | a run of pmm_init, alloc_page, free_page and coalesce that ends with runs left unmerged |
| MemoryMap.EntryPages | kernel/arch/i386/pmm.c:24-45 | a memory map entry contributes exactly the whole pages at or above 4 MiB of what its low halves say, and none if their sum wraps |
| MemoryMap.EntryInside | kernel/arch/i386/pmm.c:24-45 | the pages contributed lie inside the entry if and only if its address has no high half |
| MemoryMap.EntryComplete | kernel/arch/i386/pmm.c:24-45 | an entry below 4 GiB that does not wrap contributes all its whole pages from 4 MiB on |
| MemoryMap.MapRunsConcat | kernel/arch/i386/pmm.c:23-47 | the runs are in the order of the entries |
| MemoryMap.MapRunsValid | kernel/arch/i386/pmm.c:17-50 | for every memory map: the runs are disjoint, not empty, at or above 4 MiB and below 4 GiB if and only if no frame is contributed twice |
| MemoryMap.DisjointOnce | kernel/arch/i386/pmm.c:17-50 | none is for available entries that do not overlap and whose addresses have no high half |
| MemoryMap.MapRunsHold | kernel/arch/i386/pmm.c:23-47 | the free frames are exactly those the entries contribute |
| Frames.Pmm.constructor | kernel/arch/i386/pmm.c:17-50 | the loop over the map entries builds those runs, the cursor stands behind them, and the list is valid if and only if no frame is contributed twice |
| Frames.Pmm.AllocPage | kernel/arch/i386/pmm.c:52-63 | in place: the top frame of the last run is returned and leaves the free set, NULL exactly when no frame is free |
| Frames.Pmm.FreePage | kernel/arch/i386/pmm.c:65-73 | in place: the frame joins the free set, and the list grows exactly when the frame does not follow the last run |
| Frames.Pmm.Combine | kernel/arch/i386/pmm.c:80-108 | both merging branches, with memmove, the cursor's two moves and the recursion, compute the specified list and cursor |
| Frames.Pmm.CoalesceLoop | kernel/arch/i386/pmm.c:75-110 | list and cursor are those of the specification |
| Frames.Pmm.Coalesce | kernel/arch/i386/pmm.c:112-121 | list and cursor are those of the specification, and the free set is unchanged |
| Paging.WindowReachesTable | kernel/arch/i386/vmm.c:109-115 | the walk of 0xFFC00000 + 4096 * pdindex + 4 * ptindex ends at word ptindex of the table that directory entry pdindex names, and faults if there is none |
| Paging.WindowReachesDirectory | kernel/arch/i386/vmm.c:109 | the walk of 0xFFFFF000 + 4 * pdindex ends at directory entry pdindex |
| Paging.WalkIsEntry | kernel/arch/i386/vmm.c:105-122 | the hardware's translation of an address is given by its page's entry |
| Paging.WithTableKeeps | kernel/arch/i386/vmm.c:135-141 | a new cleared table changes no translation outside the window and keeps directory and tables on different frames |
| Paging.WithEntryKeeps | kernel/arch/i386/vmm.c:148-154 | writing one entry changes the entry of that page and of no other page outside the window |
| PageTables.MakeEntry | kernel/arch/i386/vmm.c:150 | the word written is present, names the frame and carries every flag bit passed in |
| PageTables.BootEntry | kernel/arch/i386/pd.c:12-19 | the boot tables map exactly the first 4 MiB, at address 0 and at 3 GiB |
| PageTables.AddressSpace.constructor | kernel/arch/i386/pd.c:11-20 | pd_init's loop and three directory writes give those tables and the recursive slot |
| PageTables.AddressSpace.GetPhysaddr | kernel/arch/i386/vmm.c:105-122 | read through the window: the translation of the address, NULL when it has none |
| PageTables.AddressSpace.ClearTable | kernel/arch/i386/vmm.c:139-141 | the clearing loop through the window clears the new table and no other frame |
| PageTables.AddressSpace.EnsureTable | kernel/arch/i386/vmm.c:135-146 | a missing table is made of the next free frame; fails exactly when there is none, with nothing changed |
| PageTables.AddressSpace.MapPage | kernel/arch/i386/vmm.c:124-156 | the memory differs by that entry and, if one was missing, the new table; or nothing changed |
| PageTables.AddressSpace.UnmapPage | kernel/arch/i386/vmm.c:158-179 | a present entry is cleared, and nothing else changes |
| VmmSpec.HardwareAgrees | kernel/arch/i386/vmm.c:105-156 | the hardware translates an address of a window exactly as the flat map says, and faults on pages that are not in it |
| VmmSpec.BootKept | kernel/arch/i386/pd.c:12-18 | in every reachable state the hardware still maps the first 4 MiB at address 0 and at 3 GiB |
| VmmSpec.NothingWraps | kernel/arch/i386/vmm.c:61-76 | no block's end wraps, and no block reaches directory slots 0, 768 or 1023 |
| VmmSpec.MapStep | kernel/arch/i386/vmm.c:124-156 | map_page refines an update of the flat map by one page, and takes a frame exactly when a table is missing |
| VmmSpec.LeavePage | kernel/arch/i386/vmm.c:278-279 | free_page and unmap_page refine the removal of one page, whose frame becomes free |
| VmmSpec.AllocReady | kernel/arch/i386/vmm.c:187-206 | the pages alloc_block maps lie in the window and have no entry yet, so no translation is overwritten |
| VmmSpec.AllocWords | kernel/arch/i386/vmm.c:204 | the entries of allocated pages are frame * 4096 + 3 in the kernel window and frame * 4096 + 7 in the user window |
| VmmSpec.AllocDone | kernel/arch/i386/vmm.c:202-226 | success keeps the invariant, and it means that the frames were enough |
| VmmSpec.AllocUndone | kernel/arch/i386/vmm.c:204-215 | after a rollback the free blocks and all translations are as before, and the free frames lack only the new page tables |
| VmmSpec.Unaffordable | kernel/arch/i386/vmm.c:204 | the loop gives up only when the pages and the missing tables need more frames than were free |
| VmmSpec.FreeDone | kernel/arch/i386/vmm.c:229-285 | free_block keeps the invariant and gives exactly the block's pages and frames back |
| Vmm.Manager.constructor | kernel/arch/i386/vmm.c:18-26 | after pd_init, pmm_init and vmm_init the invariant holds, with both windows free and unmapped |
| Vmm.Manager.MapOne | kernel/arch/i386/vmm.c:203-207 | one page is mapped, onto the frame on top of the list, if and only if there are frames for it and its table; if not, the frame goes back and nothing changes, the list included |
| Vmm.Manager.FreeOne | kernel/arch/i386/vmm.c:211-212 | the frame behind a page is given back and its entry cleared |
| Vmm.Manager.MapPages | kernel/arch/i386/vmm.c:202-217 | the mapping loop maps a prefix of the pages, makes exactly the missing tables, and stops early only for want of frames |
| Vmm.Manager.UndoAlloc | kernel/arch/i386/vmm.c:204-215 | the failure exit restores the free blocks and every translation |
| Vmm.Manager.AllocBlock | kernel/arch/i386/vmm.c:181-227 | succeeds if and only if a block fits and the frames suffice for its pages and missing tables; then it maps the last pages of a smallest such block onto the frames on top of the list, with the right flag bits, and otherwise restores everything but new page tables |
| Vmm.Manager.CheckMapped | kernel/arch/i386/vmm.c:230-234 | true exactly when every page is mapped |
| Vmm.Manager.FreeBlock | kernel/arch/i386/vmm.c:229-285 | succeeds if and only if all pages are mapped and the list has room or a neighbour; then exactly those pages and frames become free, in page order, and the frame list is coalesced; otherwise nothing changes |
| VmmRuns.RunPages | kernel/arch/i386/vmm.c:181-285 | over any run the mapped pages are those the successful calls account for |
| VmmRuns.SameMappedSameLists | kernel/arch/i386/vmm.c:299-345 | in reachable states the mapped pages determine both lists up to the order of equal sizes |
| VmmRuns.BalancedRun | kernel/arch/i386/vmm.c:312-346 | any run that ends with the pages mapped it started with restores the blocks and checksums of both lists |
| VmmRuns.AllocateThenFree | kernel/arch/i386/vmm.c:312-346 | allocating any blocks and freeing exactly those in any order restores the blocks and checksums of both lists |
| VmmRuns.AllocateThenFreeFrames | kernel/arch/i386/vmm.c:312-346 | it also restores every translation, and costs only the frames of page tables |
| VmmRuns.LivePageKept | kernel/arch/i386/vmm.c:181-285 | over any run the translation of a page that is not freed stays as it is |
| VmmRuns.NoFrameTwice | kernel/arch/i386/vmm.c:181-285 | in every state of every run no two live pages share a frame, no such frame is free or a page table, and the three kinds add up to the initial frames |
| VmmRuns.FramesSpentOnTables | kernel/arch/i386/vmm.c:202-217 | a run that ends with its initial translations has spent exactly the frames of page tables |
| VmmRuns.FreesTidy | kernel/arch/i386/vmm.c:277-282 | in every run each successful free leaves the cursor behind the last run, and gaps between all runs exactly when coalescing has looked at each touching stretch |
| VmmRuns.MayAllocate | kernel/arch/i386/vmm.c:204-215 | whether a rollback would be sure to find room, found out from the lists and the page directory |
| VmmRuns.MayFree | kernel/arch/i386/vmm.c:277-281 | whether the frames of a block fit into the frame allocator's array |
| VmmRuns.Session | kernel/arch/i386/vmm.c:181-285 | any list of calls, failing ones included, makes such a run; passed over are exactly those that the contracts of AllocBlock and FreeBlock exclude |
| HeapSpec.KmallocTiled | kernel/arch/i386/heap.c:79-134 | after kmalloc the segments still tile the arenas without gap or overlap, at multiples of 8 |
| HeapSpec.KmallocHandsOut | kernel/arch/i386/heap.c:98-110 | the segment returned has the aligned size, is used, and its payload is at a multiple of 8 |
| HeapSpec.KmallocFails | kernel/arch/i386/heap.c:102-133 | kmalloc fails if and only if no arena is to be had and no free segment has the size or 16 bytes more |
| HeapSpec.KmallocLive | kernel/arch/i386/heap.c:95-134 | exactly one segment comes to life, and no live segment moves or changes size |
| HeapSpec.KfreeTiled | kernel/arch/i386/heap.c:136-165 | after kfree the segments still tile the arenas |
| HeapSpec.KfreeLive | kernel/arch/i386/heap.c:136-165 | exactly the freed segment stops being live, whatever is merged |
| HeapSpec.PayloadsApart | kernel/arch/i386/heap.c:79-134 | no two payloads overlap, nor a payload and another header |
| HeapSpec.PayloadClear | kernel/arch/i386/heap.c:107-110 | the payload begins right behind the 16 bytes of its header, ends with its segment and shares no byte with any header |
| HeapSpec.KmallocOnTop | kernel/arch/i386/heap.c:79-110 | the payload ends where the first free segment that fits, or the new arena, ended |
| HeapSpec.FirstRequest | kernel/arch/i386/heap.c:79-110 | right after heap_init the payload is the top of the arena, with its header and the free rest below it |
| HeapSpec.KmallocOneArena | kernel/arch/i386/heap.c:79-134 | without a new arena, kmalloc never leaves two free neighbours |
| HeapSpec.KfreeOneArena | kernel/arch/i386/heap.c:136-165 | nor does kfree |
| HeapRuns.FirstArenaRun | kernel/arch/i386/heap.c:188-225 | over any run in the first arena, whenever nothing is live the list is again the single free segment of heap_init |
| HeapRuns.KmallocGuarded | kernel/arch/i386/heap.c:95-134 | with new arenas, two free list neighbours touch only in front of a live segment that touches them; kmalloc keeps this |
| HeapRuns.KfreeGuarded | kernel/arch/i386/heap.c:136-165 | and so does kfree |
| HeapRuns.GrowingRun | kernel/arch/i386/heap.c:95-165 | over any run with any number of arenas, whenever nothing is live no two list neighbours touch in memory |
| HeapSpec.GrowthTiles | kernel/arch/i386/heap.c:122-129 | in 32-bit arithmetic a new arena is tiled by its two segments if and only if the page round-up leaves at least 16 bytes |
| HeapSpec.RoomyExactly | kernel/arch/i386/heap.c:122-126 | which aligned sizes those are |
| HeapSpec.GrowthUnderflows | kernel/arch/i386/heap.c:79-134 | once the first arena is handed out whole, a request for 4080 bytes reaches the growth path, where the first size becomes 2^32 - 16 and the second header falls onto the first |
| Heap.List.constructor | kernel/arch/i386/heap.c:49-57 | one free header in an arena of 16 pages |
| Heap.List.SplitHeader | kernel/arch/i386/heap.c:79-94 | the header objects are relinked both ways, and the list is that of Split |
| Heap.List.Absorb | kernel/arch/i386/heap.c:147-151 | a header takes in its successor, with both links repaired |
| Heap.List.Walk | kernel/arch/i386/heap.c:100-119 | the walk stops at the first header that fits, or at the last one |
| Heap.List.Kmalloc | kernel/arch/i386/heap.c:95-134 | the linked list stays well formed and tiled; the payload returned lies right behind its header at the top of the first free segment that fits, clear of every header, is live, aligned and new; NULL is returned exactly when nothing fits and no arena is to be had |
| Heap.List.MergeWithBefore | kernel/arch/i386/heap.c:145-154 | the first merge loop computes MergeBack |
| Heap.List.MergeWithAfter | kernel/arch/i386/heap.c:156-164 | the second merge loop computes MergeAhead |
| Heap.List.Kfree | kernel/arch/i386/heap.c:136-165 | the linked list stays well formed and tiled, and exactly the freed segment stops being live |
| KernelHeap.HeapInit | kernel/arch/i386/heap.c:46-57 | on a running memory manager: the heap of one arena of 16 live kernel pages, and none exactly when alloc_block has no such block |
| KernelHeap.ArenaTaken | kernel/arch/i386/heap.c:122-126 | what alloc_block hands out shares no byte with the arenas there are, and all arenas lie in live kernel pages |
| KernelHeap.SegmentsMapped | kernel/arch/i386/heap.c:95-134 | every byte of every segment, live or free, is in a live page of the kernel window |
| KernelHeap.KernelHeap.Kmalloc | kernel/arch/i386/heap.c:95-134 | the same with arenas from alloc_block: NULL if and only if nothing fits and alloc_block has no block for a new arena, and then neither heap nor free blocks changed |
| KernelHeap.KernelHeap.Kfree | kernel/arch/i386/heap.c:136-165 | heap step and memory manager unchanged |
| KernelHeap.Session | kernel/arch/i386/heap.c:95-165 | any list of kmalloc and kfree calls on the two makes a run of the heap |
| RingSpec.ExactlyOnce | kernel/arch/i386/thread.c:32-114 | between two consecutive dispatches of a thread, every other thread alive throughout is dispatched exactly once, whatever happens in between |
| RingSpec.PhaseHolds | kernel/arch/i386/thread.c:32-114 | at any time since a thread ran, another live one has run once or not at all, and the ring order tells which |
| RingSpec.WaitExact | kernel/arch/i386/thread.c:32-114 | the place of a thread that has not run yet is where it stood, plus the new and less the killed threads that came before it, less the turns since |
| RingSpec.WaitIsShort | kernel/arch/i386/thread.c:32-114 | so a live thread has run once turns and killed threads make up for its place and the new threads before it |
| RingSpec.WaitWithoutSpawns | kernel/arch/i386/thread.c:32-47 | without new threads a live thread runs within fewer turns than there are threads |
| Threads.Starve | kernel/arch/i386/thread.c:50-114 | with new threads there is no bound: runs of the table of any length in which the live boot thread is not dispatched again |
| Threads.Table.constructor | kernel/arch/i386/thread.c:25-30 | the boot thread alone, with its stack and page directory |
| Threads.Table.SwitchThread | kernel/arch/i386/thread.c:32-47 | the ring turns by one and the stack pointer of the thread left behind is saved, or nothing happens with a single thread |
| Threads.Table.NewThread | kernel/arch/i386/thread.c:50-87 | the new thread, with its two stack addresses and its page directory, is appended to the table; refused exactly when the table is full, or there is no page directory or no stack |
| Threads.Table.Remove | kernel/arch/i386/thread.c:100-108 | memmove and the adjusted current pointer take exactly that thread out of the table and out of the ring |
| Threads.Table.KillThread | kernel/arch/i386/thread.c:90-114 | a step of the ring for another thread, for the running one, and for refused calls |
| Threads.Session | kernel/arch/i386/boot.S:236-248 | any list of calls, self-kills included, makes a run of the ring; passed over are kills of an index without a thread and stacks in use |
| ScreenSpec.ScreenIsWindow | kernel/arch/i386/tty.c:72-117 | for any text without backspace the screen is the last 25 rows of the text's layout |
| ScreenSpec.LayoutKeepsText | kernel/arch/i386/tty.c:72-93 | the layout loses no character and no row passes 80 |
| ScreenSpec.OneMore | kernel/arch/i386/tty.c:76-92 | newline and carriage return, and no other characters, start a row without leaving a trace |
| ScreenSpec.LongLine | kernel/arch/i386/tty.c:87-92 | text without line breaks is cut into rows of exactly 80 characters and a shorter rest |
| ScreenSpec.ShowConcat | kernel/arch/i386/tty.c:95-99 | writing in two pieces is writing at once |
| ScreenSpec.BackUndoes | kernel/arch/i386/tty.c:55-93 | backspace takes a character back if and only if it neither filled its row nor scrolled the screen |
| Terminal.Screen.constructor | kernel/arch/i386/tty.c:22-33 | all cells are blanks in colour 7, and the cursor is in the corner |
| Terminal.Screen.ScrollLengths | kernel/arch/i386/tty.c:103-108 | the swaps move every row length up and end with 0 |
| Terminal.Screen.ScrollUp | kernel/arch/i386/tty.c:101-115 | memmove, the swaps and the cleared row show the rows without the first |
| Terminal.Screen.PutChar | kernel/arch/i386/tty.c:72-93 | the rows gain one character; each of the 2000 cells has the character of its row in the low byte and colour 7 above it, or is blank; row lengths and cursor follow, and the cursor stays on the screen |
| Terminal.Screen.Write | kernel/arch/i386/tty.c:95-100 | the same for a whole text |
| Terminal.Screen.Backspace | kernel/arch/i386/tty.c:55-70 | the last character goes, from the cells as well, or the empty last row; the cursor leaves the screen if and only if the row before is full |
| FormatSpec.NumeralReadsBack | libc/stdio/printf.c:96-106 | a numeral in any base up to 16 reads back as its value and has no leading zero |
| FormatSpec.SignedReadsBack | libc/stdio/printf.c:63-88 | every 32-bit int printed with %d reads back, the least one included |
| FormatSpec.DigitCount | libc/stdio/printf.c:76-82 | a value has at most n digits if and only if it is below the n-th power of the base |
| FormatLaws.PrintsUnsigned | libc/stdio/printf.c:102-131 | %u prints decimal digits that read back as the argument, without a leading zero |
| FormatLaws.PrintsInt | libc/stdio/printf.c:61-101 | %d prints the same behind a minus sign exactly for negative arguments |
| FormatLaws.PrintsHex | libc/stdio/printf.c:132-163 | %x and %X print 0x and hexadecimal digits that read back as the argument, with letters in the case of the conversion; the prefix is not counted |
| FormatLaws.PrintsCharAndString | libc/stdio/printf.c:40-60 | %c prints the low byte of its argument, %s the string |
| FormatLaws.PrintsPlain | libc/stdio/printf.c:25-38 | text without percent signs stands for itself |
| FormatLaws.PrintsPercent | libc/stdio/printf.c:25-27 | two percent signs print one |
| FormatLaws.PrintsUnknown | libc/stdio/printf.c:164-174 | from an unknown conversion on the format is taken as it is |
| FormatLaws.Concatenated | libc/stdio/printf.c:22-174 | two formats one after the other print, and count, what each of them does |
| FormatSpec.PieceRenders | libc/stdio/printf.c:22-174 | one turn of the loop writes the rendering of the piece of the format that it consumes |
| FormatSpec.RunRenders | libc/stdio/printf.c:16-179 | the output is the character-by-character rendering and the result its length less 2 for each hexadecimal conversion, if and only if that count is an int; otherwise -1 after a prefix of it |
| Printf.PutDigits | libc/stdio/printf.c:76-82 | the digit loop yields the digits, least significant first, or reports a full buffer exactly when they do not fit |
| Printf.ReverseDigits | libc/stdio/printf.c:84-88 | the in-place swaps reverse exactly the digits |
| Printf.PutNumeral | libc/stdio/printf.c:93-112 | the numeral stands in the buffer; with the buffer sizes of the source the buffer-full exit is never taken |
| Printf.ConvertInt | libc/stdio/printf.c:63-88 | sign, negation without overflow and digits give the signed numeral |
| Printf.MeasureLiteral | libc/stdio/printf.c:28-30 | the literal piece ends at the next percent sign |
| Printf.Print | libc/stdio/printf.c:8-14 | the characters reach the screen one by one |
| Printf.Printf | libc/stdio/printf.c:16-179 | the screen shows the rendering and the result is its length less 2 for each hexadecimal conversion, if that is at most 0x7FFFFFFF, and -1 otherwise |
| Printf.PrintfOnce | libc/stdio/printf.c:16-179 | on a fresh screen, the last 25 rows of the rendering are shown |

## Left out

- TLB flushes, CR3 loads, interrupt flags, EOI and port I/O: hardware effects; every call is an atomic step. The hardware cursor goes with them.
- Multiboot tags: `pmm_init` is given the sequence of memory map entries.
- Physical memory beyond page tables: only the words of the directory and the tables are followed, not the contents of mapped pages or heap payloads. Large pages and write protection are off in the walk.
- Concurrent callers: `kmalloc_lock` and the other places that turn interrupts off are not modelled, since a call is one step.
- Frames.Pmm.FreePage: on an empty list the code reads the slot in front of the array; the model takes the push branch there. The array's capacity, which the code does not check, is a precondition.
- Frames.Pmm.constructor: the runs must fit into the array, which the code does not check. Maps that contribute a frame twice are accepted, but give no valid list.
- Vmm.Manager.AllocBlock: excludes a request for more than 1024 pages that fits into a block and of which at least 1024 pages can be mapped, but not all. Its rollback pushes frames without a capacity check.
- Vmm.Manager.UndoAlloc: the same exclusion, as a bound on the pages mapped. The frame list after a rollback is stated by its frames, not run by run.
- Vmm.Manager.constructor: memory maps that contribute a frame twice are excluded; the code hands such a frame out twice.
- Vmm.Manager.FreeBlock: takes at least one page of the matching window and room in the frame allocator's array, none of which the code checks; `FreeListSpec.ReleaseNothing` covers the lists for size 0. Addresses are page-aligned.
- Coalescing.CoalesceExact: which runs a pass looks at is given as the function `Given` of list and cursor; in terms of the list and the cursor alone only the case of one stretch is stated.
- Heap.List.Kmalloc: here the arena is a parameter that stands for the result of `alloc_block`; `KernelHeap.KernelHeap.Kmalloc` calls it. The arena's word for `next` reads as NULL, since the code never writes that word. Sizes whose rounding would wrap, and growth that underflows (`GrowthTiles`), are excluded.
- Heap.List.SplitHeader: growth that underflows is excluded in the same way.
- KernelHeap.KernelHeap.Kmalloc: the same exclusions, and that of `AllocBlock`. Other users of the memory manager, who could free the heap's pages, are not in this part.
- Heap.List.Kfree: takes the header object in front of the payload, which is in the list; the code trusts any pointer to a header with a valid status word.
- Threads.Table.KillThread: takes the index of a thread in use; the code checks against the size of the table only. Freeing the thread's stack, `dead_stacks`, saved registers and the stack of a new thread are not modelled, and `alloc_block`'s result is a parameter of `NewThread`, a stack that no thread in the table has.
- Terminal.Screen.PutChar: the colour stays at its initial value, and the check that the buffer is the VGA memory is taken to hold. A cursor that `Backspace` has put at column 80 is outside the invariant.
- Printf.Printf: arguments have the types that their conversions read, as C demands, and `putchar` does not fail.
- `test_vmm`, `test_heap` and `test_pmm` write patterns into their blocks; only the law on the free lists is proved, and for the frame allocator only that the free frames are kept.
- `device.c`, `isr.c`, `idt.c`, `gdt.c`, `keyboard.c`, `earlyinit.c`, the `read_*` printers and the other string functions: fixed tables, device handshakes or single loops.
