# A verified model of a small AArch64 kernel

The repository is a bare-metal kernel for the Raspberry Pi 3: a two-level memory
allocator, an in-memory file tree behind a small virtual file system, a round-robin
scheduler with signals, a format engine, and a devicetree walker. This project models
those parts in Dafny and proves what each of them is for. `dafny verify dfyconfig.toml`
checks everything.

Each part is modelled twice, but for three operations named below. A specification on
values says what an operation computes, and the laws are proved about it as lemmas over
every input, every run or every reachable state. Beside it stand the operations in the source's own form, classes and methods that
update arrays, fields and links in place, each proved to compute what the specification
says. Creating a file with `vfs_open`, `vfs_mount` and `sysc_chdir` are on values only
(`VfsProofs.OpenCreate`, `VfsProofs.MountAt`, `Paths.ChangedTo`).

| files | part |
|---|---|
| Powers, Buddy, BuddyProofs, BuddyTheorems | the buddy allocator on values, its invariants, exact undo, canonical coalescing, conservation, termination |
| FreeLists, Reserve, PageInit, BootMemory, PageAllocator | the intrusive free lists, boot-time reservation and `page_init`, the boot of this kernel's memory, and the allocator in place |
| Pool, PoolProofs, PoolPlaces, PoolAllocator | the size-class allocator on top, its runs, where it puts an object, and the allocator in place |
| Strings, CStrings, Strtok, Paths, AbsPath | pieces of strings, byte loops, `strtok` with its static state, path normalisation and `to_abs_path` |
| Vfs, VfsProofs, VfsTree, TmpfsFile | the directory tree, lookups and creation, and file contents with their handles |
| Scheduler, SchedulerRuns, SchedulerPlaces, SchedulerQueues | the scheduler as a state machine, its runs, where every thread is after every step, and its linked queues |
| Format, FormatProofs, FormatReading, Printf | the format engine as a function, what its output means and when it reads back as its argument, and the engine writing into a limited buffer |
| Directives, DirectiveProofs, PlainDirectives | printf directives as they are written and the text each stands for, apart from the engine; the engine writes exactly that |
| Endian, Dtb | `little2big` on bits, and the devicetree walker against the encoding of the structure block |
| Common, Sequences | what several parts share |

## Where the code and its intention part

Each of these is stated as an exact condition:

- `memory_reserve` compares with a strict `<`. When the last page of the range heads a block after the first
  splitting loop (`Reserve.EndInsideIff` in terms of the state before the call), it leaves the last two pages of the
  range as stubs of order -1. They are harmless when the page after the range is not free, as after the kernel when it
  ends in an even page (`BootMemory.EvenKernelStubs`). Otherwise the head of a free block is gone
  (`Reserve.ReserveTilesIff`) and the last loop of `page_init` lists the rest of it under order -1
  (`PageInit.LastLoopIff`, `BootMemory.OvershootSample`). On this kernel's memory that happens exactly when the kernel
  ends in page 31 of a group of 512 (`BootMemory.LinkedFitsIff`, and `BootMemory.BootFitsIff` for all of boot).
- `page_divide` searches upward only below order 5, and below it recurses for ever when no list up to 5 has a block
  (`BuddyTheorems.DivideTerminatesIff`); `page_allocate` then never ends, or reads a null item
  (`BuddyTheorems.AllocateOutcome`). Every state comes to that when pages are asked for one by one
  (`BuddyTheorems.EveryStateDrains`).
- `tmpfs_read` copies from the start of the file whatever the position is (`TmpfsFile.ReadRightIff`).
- `to_abs_path` reads the NULL behind the component array after a last component that is blank or "."
  (`AbsolutePath.NormaliseInPlace`), and keeps an absolute path as it stands (`Paths.ChdirAbsolute`).
- `lookup_path` goes on in the same directory after a component it could not make, and reports success
  (`VfsProofs.MkdirThenLookup` says when the path is there afterwards). `vfs_open` with O_CREAT then makes the node it
  ended at a file, which loses the paths through it (`VfsProofs.CreateThenLookup`, `VfsProofs.CreateLosesPaths`), and
  the contents when that node was a file already (`VfsProofs.CreateLosesFile`): O_CREAT of /f/x, with /f a file, empties
  /f but keeps its length (`TmpfsFile.Component.BecomeFile`), so that later reads follow a NULL pointer.
- The first/pop splitter sees blank components that the `strtok` splitter's user passes over (`Vfs.SplittersAgreeIff`).
- `remove_task` forgets a task that is parked already (`SchedulerRuns.SignalNeedsNoneParked`), a kill of pid 1 can take
  idle away (`SchedulerRuns.KillOfIdle`), and a parked task is lost once no handler task is left
  (`SchedulerRuns.ParkedReturnsIff`).
- `%b` shows only the low 32 bits, the alternative form can write over digits, and the buffer can cut off a sign or a
  mark (`FormatReading.IntTextExact`); zero padding stops at 32 characters (`FormatReading.FieldShortIff`); and a format
  that ends inside a directive is read past its end (`FormatProofs.OverrunIff`).

## Model

| member | source | states |
|---|---|---|
| `Powers.Power2` | lib/malloc.c:303-308 | 2^value, and 1 for value <= 0 |
| `Powers.Log2` | lib/malloc.c:294-301 | the rounded-down logarithm capped at 16, -1 below 1; its 32-bit `ans` does not overflow below 2^30 |
| `Powers.Log2Unique` | lib/malloc.c:294-301 | the capped logarithm is determined by its bounds |
| `Powers.Align8` | lib/malloc.c:334-338 | the least multiple of 8 not below the value |
| `Powers.BuddyFacts` | lib/malloc.c:181-184 | the page `merge` computes is the aligned neighbour of the block, each is the buddy of the other, and the lower one starts an aligned block of the next order |
| `Powers.Nested` | lib/malloc.c:181-184 | two aligned power-of-two blocks with a page in common are nested |
| `Buddy.BlocksApart` | lib/malloc.c:44-54 | in a tiling the next head lies at or past the end of the block |
| `Buddy.UniqueBlock` | lib/malloc.c:44-54 | every page lies in exactly one block of a tiling |
| `Buddy.Divide` | lib/malloc.c:205-221 | after dividing at order L the list of order L - 1 has a block |
| `BuddyProofs.SplitTiled` | lib/malloc.c:206-213 | cutting the front block of a list keeps the aligned tiling |
| `BuddyProofs.SplitLists` | lib/malloc.c:206-213 | and every list holds exactly the free heads of its order, once each |
| `BuddyProofs.DivideConsistent` | lib/malloc.c:205-221 | so do divisions through any number of orders |
| `BuddyProofs.DivideCoalesced` | lib/malloc.c:205-221 | after dividing, only the block about to be handed out may have a free buddy |
| `BuddyProofs.DivideSameUse` | lib/malloc.c:205-221 | dividing frees no page, uses none, and touches no page in use |
| `BuddyProofs.PrepareKeeps` | lib/malloc.c:150-160 | the block about to be handed out is free, aligned and of the order asked for |
| `BuddyProofs.TakeKeeps` | lib/malloc.c:160-165 | taking it into use restores the whole invariant |
| `BuddyProofs.ReleaseKeeps` | lib/malloc.c:168-174 | after marking and listing a block, only that block may have a free buddy |
| `BuddyProofs.MergeOnceTiled` | lib/malloc.c:185-197 | joining two free buddies keeps the aligned tiling |
| `BuddyProofs.MergeOnceLists` | lib/malloc.c:187-197 | it unlinks exactly the two blocks and lists the joined one, so every list is exact again |
| `BuddyProofs.MergeOnceCoalesced` | lib/malloc.c:185-198 | afterwards only the joined block may have a free buddy |
| `BuddyProofs.MergeKeeps` | lib/malloc.c:178-203 | the recursive merge restores full coalescing |
| `BuddyProofs.AllocateKeeps` | lib/malloc.c:150-166 | `page_allocate` keeps tiling, exact lists and full coalescing |
| `BuddyProofs.FreeKeeps` | lib/malloc.c:168-176 | `page_free` keeps them too |
| `BuddyTheorems.NoFragment` | lib/malloc.c:178-203 | no block lies strictly inside an aligned block of free pages |
| `BuddyTheorems.CoalescedIsCanonical` | lib/malloc.c:178-203 | full coalescing is canonical: the pages in use determine the whole frame array, orders included |
| `BuddyTheorems.AllocateUses` | lib/malloc.c:150-166 | an allocation hands out an aligned, wholly free block of its order and changes the use of no other page |
| `BuddyTheorems.FreeUses` | lib/malloc.c:168-203 | a release frees exactly the pages of its block |
| `BuddyTheorems.FreesCommute` | lib/malloc.c:168-203 | two releases in either order leave the same frame array |
| `BuddyTheorems.SplitUndone` | lib/malloc.c:178-213 | one merge undoes one split, down to the order of the lists |
| `BuddyTheorems.DivideUndone` | lib/malloc.c:178-221 | one cascade of merges undoes a division through any number of levels |
| `BuddyTheorems.TakeUndone` | lib/malloc.c:160-173 | marking a block free undoes taking it |
| `BuddyTheorems.ExactUndo` | lib/malloc.c:150-221 | exact undo: releasing the block just allocated restores every frame entry and every free list |
| `BuddyTheorems.RunKeeps` | lib/malloc.c:150-221 | in every state of every run the invariant holds, and exactly the live blocks went into use since its start |
| `BuddyTheorems.BalancedRunRestores` | lib/malloc.c:150-221 | once everything a run allocated is released, in whatever order, the frame array and every set of free blocks are as they were |
| `BuddyTheorems.CountBelow` | lib/malloc.c:150-176 | the free pages below any page differ by the pages of the block |
| `BuddyTheorems.PagesConserved` | lib/malloc.c:150-203 | an allocation of order k takes exactly 2^k pages from the free ones, a release gives exactly its block back |
| `BuddyTheorems.OrderForIsLeast` | lib/malloc.c:150-151 | the order chosen is the least whose block holds the size |
| `BuddyTheorems.DivideStuck` | lib/malloc.c:205-221 | below order 5, with no list up to 5 that has a block, the recursion never returns |
| `BuddyTheorems.DivideReturns` | lib/malloc.c:205-221 | with one, it returns the divided state within 17 nested calls |
| `BuddyTheorems.DivideTerminatesIff` | lib/malloc.c:205-221 | `page_divide` returns exactly when its order is at least 5 or a list from it to 5 has a block |
| `BuddyTheorems.DivideLeaves` | lib/malloc.c:205-221 | dividing at order 5 or below leaves the lists above order 5 alone |
| `BuddyTheorems.OnePagesEnd` | lib/malloc.c:150-166 | from every state, requests for one page can be met a number of times, no more than there are free pages, until no list up to order 5 has a block |
| `BuddyTheorems.EveryStateDrains` | lib/malloc.c:150-166 | so memory handed out page by page ends, from every state, with a request that never returns (it is never refused), and there a request for 16 pages reads a null item, with every free block of 64 pages and more still listed |
| `BuddyTheorems.AllocateHangs` | lib/malloc.c:150-156 | a request below order 4 that no list in reach can meet never ends |
| `BuddyTheorems.AllocateOutcome` | lib/malloc.c:150-166 | every request has one of four ends, told by the lists before the call: it is handed a block exactly when a list in reach has one, gets -1 exactly at order 16 with an empty list, reads a null item exactly from order 4 to 15 without one, and never ends exactly below |
| `BootMemory.FirstBlockLargest` | lib/malloc.c:44-54 | a memory of at least 2^16 pages, as this kernel has, begins with a free block of 2^16 |
| `BootMemory.OvershootSample` | lib/malloc.c:107-148 | on it, reserving pages 1 and 2 leaves no tiling, and the last loop then lists a page under order -1 |
| `BootMemory.EvenKernelStubs` | lib/malloc.c:57-57 | a kernel that ends in an even page, right before the frame array, is reserved up to two stubs, and the tiling stays |
| `BootMemory.EndDeepInside` | lib/malloc.c:107-148 | a range ends inside a block when it ends inside an aligned block of free pages and starts no later than that block |
| `BootMemory.ArrayFits` | lib/malloc.c:39-55 | the frame array, reserved first, ends inside a block exactly when the heap does not start in page 31 of a group of 512 |
| `BootMemory.LinkedFitsIff` | lib/malloc.c:39-58 | the four reservations that the linker fixes, and whatever comes after them, fit exactly when the kernel does not end in page 31 of a group of 512 and the rest fits in the tiling in which exactly their pages are in use |
| `BootMemory.BootFitsIff` | lib/malloc.c:39-61 | with the archive and the devicetree above the user programs, all seven reservations of `page_init` leave an aligned tiling exactly when the kernel does not end in page 31 of a group of 512 |
| `FreeLists.PushLinked` | lib/malloc.c:71-85 | adding an item in front keeps every list linked, with only the first `previous` unconstrained |
| `FreeLists.PopLinked` | lib/malloc.c:164-164 | popping keeps every list linked though the new head's `previous` is stale, and leaves the popped page on none |
| `FreeLists.RemoveAtIsWithout` | lib/malloc.c:87-105 | taking out one place of a list without repeats is taking out that page |
| `FreeLists.DeleteLinked` | lib/malloc.c:87-105 | deleting an item whose own links are not stale unlinks exactly it and leaves every other list alone |
| `Reserve.FindHeadFinds` | lib/malloc.c:112-113 | the downward walk stops at the head of the free block that holds the page |
| `Reserve.SplitToKeeps` | lib/malloc.c:115-124 | the first loop ends with a free block at the first page, and reserves nothing |
| `Reserve.ReserveRunKeeps` | lib/malloc.c:126-131 | the second loop reserves whole blocks and stops at the block that the last page is in or comes right after |
| `Reserve.SplitEndKeeps` | lib/malloc.c:133-144 | the third loop, begun inside the last page's block, reserves up to the block that ends at the last page |
| `Reserve.SplitEndOvershoots` | lib/malloc.c:133-144 | begun right before the last page, it reserves up to two pages before the end and leaves the last two pages of the range as stubs: used, of order -1 |
| `Reserve.ReserveTakes` | lib/malloc.c:107-148 | whatever the range ends on, exactly its pages go out of the free ones, every other page keeps its use, and no two free blocks are buddies |
| `Reserve.ReserveTilesIff` | lib/malloc.c:107-148 | the blocks and stubs are an aligned tiling again exactly when the range ends inside a block or right before a page that is not free |
| `Reserve.ReserveReserves` | lib/malloc.c:107-148 | under that condition exactly the range is reserved, every other page is as before, and the tiling is aligned and coalesced |
| `Reserve.ReserveOvershoots` | lib/malloc.c:126-148 | a range that does not end inside a block leaves two stubs at its end |
| `Reserve.OvershotTilesIff` | lib/malloc.c:133-148 | these make a tiling exactly when the page after the range is not free; else that page is inside a block whose head is gone |
| `Reserve.SplitToHeads` | lib/malloc.c:115-124 | where the first loop leaves block heads behind the first page |
| `Reserve.EndInsideIff` | lib/malloc.c:107-148 | whether the range ends inside a block, in terms of the frame array before the call |
| `Reserve.EndParity` | lib/malloc.c:107-148 | a range that ends at an odd page always ends inside a block |
| `Reserve.EndInsideByParity` | lib/malloc.c:107-148 | with the page after it not free, a range of two pages or more ends inside a block exactly when its last page is odd |
| `PageInit.FillCuts` | lib/malloc.c:44-54 | for any page count the greedy loop cuts well-formed blocks of falling orders |
| `PageInit.FillNoRepeat` | lib/malloc.c:44-54 | no order below the largest comes twice |
| `PageInit.InitTiled` | lib/malloc.c:44-54 | so the cut is an aligned tiling of free blocks with no two free buddies |
| `PageInit.VisitsBlocks` | lib/malloc.c:63-66 | the last loop gets to every page that starts a block |
| `PageInit.VisitsOnlyBlocks` | lib/malloc.c:63-66 | and, in a tiling, to no other page, stubs included |
| `PageInit.OrphanListed` | lib/malloc.c:62-68 | after a reservation whose end does not fit, it gets to the free page behind the range, which it lists under order -1 |
| `PageInit.LastLoopIff` | lib/malloc.c:62-68 | so it lists only pages of an order that there is a list for exactly when the end fits |
| `PageInit.PagesOfRange` | lib/malloc.c:108-109 | the pages of a range are those that its bytes lie in |
| `PageInit.ReserveAllReserves` | lib/malloc.c:55-61 | after all reservations, each of which ends inside a block or right before a page in use, a page is in use exactly if it is in some range |
| `PageAllocation.PageAllocator.constructor` | lib/malloc.c:36-69 | `page_init` on the arrays: the frame array is that of the greedy cut with the ranges reserved, and the lists hold its free blocks |
| `PageAllocation.PageAllocator.InitPages` | lib/malloc.c:44-68 | the three loops in order |
| `PageAllocation.PageAllocator.CutGreedily` | lib/malloc.c:44-54 | the first loop fills the frame array as specified |
| `PageAllocation.PageAllocator.CutNext` | lib/malloc.c:45-53 | one round of it |
| `PageAllocation.PageAllocator.StartBlock` | lib/malloc.c:46-52 | which writes one free block and nothing else |
| `PageAllocation.PageAllocator.ReserveRanges` | lib/malloc.c:55-61 | the reservations in order |
| `PageAllocation.PageAllocator.ListFreeBlocks` | lib/malloc.c:62-68 | the last loop puts every free block on the list of its order |
| `PageAllocation.PageAllocator.CutBlock` | lib/malloc.c:116-119 | cuts the block at `head` in two free ones |
| `PageAllocation.PageAllocator.ReserveBlock` | lib/malloc.c:145-147 | marks the block at `head` and its pages reserved |
| `PageAllocation.PageAllocator.OpenAt` | lib/malloc.c:108-124 | the walk and the first loop |
| `PageAllocation.PageAllocator.BlockOf` | lib/malloc.c:110-113 | the walk stops at the head of the block |
| `PageAllocation.PageAllocator.CutDown` | lib/malloc.c:115-124 | the first loop |
| `PageAllocation.PageAllocator.CutTowards` | lib/malloc.c:116-123 | one round of it, into the half that holds the first page |
| `PageAllocation.PageAllocator.ReserveUpTo` | lib/malloc.c:126-131 | the second loop |
| `PageAllocation.PageAllocator.CloseAt` | lib/malloc.c:133-144 | the third loop |
| `PageAllocation.PageAllocator.MemoryReserve` | lib/malloc.c:107-148 | `memory_reserve` in place leaves the frame array that is specified |
| `PageAllocation.PageAllocator.AddPageItem` | lib/malloc.c:71-85 | pushes the block on its list, with a `previous` that is not stale; every item that changed is logged |
| `PageAllocation.PageAllocator.DeletePageItem` | lib/malloc.c:87-105 | takes exactly that block off its list |
| `PageAllocation.PageAllocator.BypassItem` | lib/malloc.c:89-104 | the pointer surgery: which links and list heads change, and that every item that does is logged |
| `PageAllocation.PageAllocator.MarkInterior` | lib/malloc.c:162-163 | marks the pages of a block after its head |
| `PageAllocation.PageAllocator.PopFront` | lib/malloc.c:164-164 | the front block of a list leaves it |
| `PageAllocation.PageAllocator.CutFront` | lib/malloc.c:207-213 | the branch of `page_divide` that cuts a block |
| `PageAllocation.PageAllocator.LowerFront` | lib/malloc.c:207-211 | its first half: the front block becomes its own lower half |
| `PageAllocation.PageAllocator.PageDivide` | lib/malloc.c:205-221 | the recursion terminates and leaves the divided state; the items logged are those of free pages, and every item that changed is logged |
| `PageAllocation.PageAllocator.PageAllocate` | lib/malloc.c:150-166 | returns the specified block and state, or -1 without change when order 16 has none; no item changed but those logged, all of free pages |
| `PageAllocation.PageAllocator.FindBlock` | lib/malloc.c:152-159 | a block of the order comes to the front of its list, if one is to be had |
| `PageAllocation.PageAllocator.HandOut` | lib/malloc.c:160-165 | takes the front block into use |
| `PageAllocation.PageAllocator.Merge` | lib/malloc.c:178-203 | the recursion in place gives the merged state; the items logged are those of free pages, and every item that changed is logged |
| `PageAllocation.PageAllocator.MergeOn` | lib/malloc.c:186-199 | its branch for two free buddies, which joins them and goes on from the lower one |
| `PageAllocation.PageAllocator.Join` | lib/malloc.c:187-198 | one join: both blocks leave their list, the joined one is listed with fresh links |
| `PageAllocation.PageAllocator.UnlinkBoth` | lib/malloc.c:187-188 | both buddies leave their list |
| `PageAllocation.PageAllocator.RaiseLower` | lib/malloc.c:189-197 | which of the two is the lower, and that the result is the joined state |
| `PageAllocation.PageAllocator.Raise` | lib/malloc.c:195-197 | the lower one becomes a listed block of the next order |
| `PageAllocation.PageAllocator.ReturnBlock` | lib/malloc.c:168-174 | lists the block and marks its pages free |
| `PageAllocation.PageAllocator.PageFree` | lib/malloc.c:168-176 | gives the specified state; no item changed but those logged, all of free pages or of the block itself |
| `PoolProofs.ClassHolds` | lib/malloc.c:223-230 | a request of at most 0x20000 bytes is rounded to a class that holds it |
| `PoolProofs.ClassOrder` | lib/malloc.c:250-251 | a class up to 2048 gets one page, a larger one exactly its size in pages |
| `PoolProofs.SlotInPage` | lib/malloc.c:241-241 | slots are 8-aligned and lie between the map and the end of the page |
| `PoolProofs.SlotDecodes` | lib/malloc.c:265-269 | the division in `free` recovers exactly the page and the slot |
| `PoolProofs.MallocInPage` | lib/malloc.c:231-244 | in a suitable page the search finds a slot, and exactly that object is added |
| `PoolProofs.MallocNewPage` | lib/malloc.c:246-263 | a newly opened page was in no use, and holds exactly the object returned |
| `PoolProofs.LastOne` | lib/malloc.c:270-276 | `used` is 1 exactly when no other slot is in use |
| `PoolProofs.FreeRemoves` | lib/malloc.c:265-292 | `free` removes exactly its object, and the page returns to the page layer exactly when that was the last on it |
| `PoolProofs.MallocAdds` | lib/malloc.c:223-263 | `malloc_` adds exactly one object, 8-aligned and with room for the request |
| `PoolProofs.MallocUndone` | lib/malloc.c:223-292 | exact undo: freeing what was just allocated restores pages, pool list and maps |
| `PoolProofs.LiveDisjoint` | lib/malloc.c:223-263 | distinct live objects are disjoint |
| `PoolProofs.OutsideHarmless` | lib/malloc.c:71-105 | a `page_item` in a free page touches no live object |
| `PoolProofs.MetadataHarmless` | lib/malloc.c:236-240 | the header and map of a pool page touch no live object |
| `PoolProofs.BootHolds` | lib/malloc.c:23-23 | the pool starts empty with nothing held |
| `PoolProofs.RunHolds` | lib/malloc.c:223-292 | over every run the live objects are exactly those held, each with room for what was asked, and the pool-page invariant holds |
| `PoolProofs.RunDisjoint` | lib/malloc.c:223-292 | so in every state of every run the objects held are as large as asked and pairwise disjoint |
| `PoolProofs.OpenWritesHarmless` | lib/malloc.c:249-263 | items of free pages, and the header and map of the page about to be opened, touch no live object |
| `PoolProofs.RemoveWritesHarmless` | lib/malloc.c:279-292 | items of free pages or of the page given back, and headers of the other pool pages, touch no object that remains |
| `PoolPlaces.ClassLeast` | lib/malloc.c:223-230 | a request of up to 2048 bytes is rounded to the least power of two from 8 up that holds it, a larger one to the least that is at least twice as large |
| `PoolPlaces.NoSmallerClass` | lib/malloc.c:223-230 | no smaller class would do |
| `PoolPlaces.SlotsFill` | lib/malloc.c:253-253 | a page has as many slots as its 4048 bytes hold, with a map byte each |
| `PoolPlaces.SuitableIff` | lib/malloc.c:232-235 | the pages that the search does not pass over are those of the class with a free slot |
| `PoolPlaces.FoundIff` | lib/malloc.c:231-235 | the search finds a page exactly when there is one |
| `PoolPlaces.PlacedInRoom` | lib/malloc.c:231-244 | then the object goes to the first free slot of a page of the least class, at the address that follows from it, and the page layer does not change |
| `PoolPlaces.PlacedOnNewPage` | lib/malloc.c:246-263 | else to the first slot of a page taken from the free ones, with as many slots as fit |
| `PoolPlaces.PageTakenIff` | lib/malloc.c:231-263 | so the page layer changes exactly when every page of the least class is full |
| `PoolAllocation.PoolAllocator.constructor` | lib/malloc.c:23-23 | an empty pool over the page layer |
| `PoolAllocation.PoolAllocator.Malloc` | lib/malloc.c:223-247 | returns the specified address and heap; no header, map byte or item changed but those logged, and each of these is clear of every live object |
| `PoolAllocation.PoolAllocator.Round` | lib/malloc.c:224-230 | the size class of the request |
| `PoolAllocation.PoolAllocator.Search` | lib/malloc.c:231-234 | the walk finds the first suitable page of the list |
| `PoolAllocation.PoolAllocator.UseSlot` | lib/malloc.c:236-243 | in a suitable page the loop always finds a free slot; no header or map byte changed but those logged, clear of every live object |
| `PoolAllocation.PoolAllocator.FindFree` | lib/malloc.c:238-239 | the loop over the map stops at the first free slot |
| `PoolAllocation.PoolAllocator.SetUsedAndMap` | lib/malloc.c:237-241 | the two writes of an object that comes or goes, and that nothing else changed |
| `PoolAllocation.PoolAllocator.OpenPage` | lib/malloc.c:249-263 | allocates the page; no metadata changed but what is logged, clear of every live object |
| `PoolAllocation.PoolAllocator.EnterPage` | lib/malloc.c:252-262 | writes the header and joins the pool list in front |
| `PoolAllocation.PoolAllocator.InitMap` | lib/malloc.c:258-261 | the map of a new page: the first byte set, the others cleared |
| `PoolAllocation.PoolAllocator.FreeObject` | lib/malloc.c:265-277 | gives the specified heap; no metadata changed but what is logged, clear of every object that remains |
| `PoolAllocation.PoolAllocator.ClearSlot` | lib/malloc.c:270-273 | the branch for a page that keeps other objects |
| `PoolAllocation.PoolAllocator.RemovePage` | lib/malloc.c:279-292 | takes the page off the pool list and returns it |
| `PoolAllocation.PoolAllocator.ReturnPage` | lib/malloc.c:291-291 | the page goes back to the page layer |
| `PoolAllocation.PoolAllocator.Unchain` | lib/malloc.c:280-290 | the walk to the page and its unlinking leave the rest of the list |
| `PoolAllocation.PoolAllocator.Detach` | lib/malloc.c:287-290 | links past the page |
| `Strings.StrEndIs` | lib/string.c:27-33 | a string ends at its first NUL |
| `Strings.SplitCount` | lib/string.c:159-169 | there is one piece more than there are delimiters |
| `Strings.SplitPieces` | lib/string.c:122-149 | no piece contains a delimiter |
| `Strings.JoinSplit` | lib/string.c:159-169 | joining the pieces with the delimiter gives the string back |
| `Strings.SplitJoin` | lib/string.c:159-169 | splitting the join of delimiter-free pieces gives the pieces back |
| `Strings.SplitConcat` | lib/string.c:159-169 | splitting a + delimiter + b splits a and b |
| `CStrings.Strlen` | lib/string.c:27-33 | the distance to the NUL |
| `CStrings.Strcmp` | lib/string.c:61-70 | 0 exactly for equal strings |
| `CStrings.CopyTo` | lib/string.c:53-59 | copies a string with its NUL and leaves what is before |
| `CStrings.Strcpy` | lib/string.c:53-59 | the destination holds the source string |
| `CStrings.Strcat` | lib/string.c:4-10 | the destination holds both strings, one after the other |
| `Strtok.CutStored` | lib/string.c:138-147 | a NUL written over a delimiter leaves two strings |
| `Strtok.AfterToken` | lib/string.c:122-149 | one call stores the next piece and leaves the rest to be cut |
| `Strtok.Tokenizer.Strtok` | lib/string.c:87-157 | what one call does to the string and to the static state, in all cases |
| `Strtok.Tokenizer.NextToken` | lib/string.c:87-157 | each call returns the next piece, and NULL after the last |
| `Strtok.Tokenizer.CutRest` | lib/string.c:162-168 | the loop stores all the pieces and then NULL |
| `Strtok.Tokenizer.SpiltStrings` | lib/string.c:159-169 | the pointers stored lead to exactly the pieces, nothing outside the string changes, and the static state is back to its initial values |
| `Paths.NormaliseCanonical` | lib/vfs.c:264-286 | the normalised components are a run of ".." and then plain names |
| `Paths.CanonicalIsFixed` | lib/vfs.c:264-286 | canonical components are left as they are |
| `Paths.NormaliseIdempotent` | lib/vfs.c:264-286 | normalising is idempotent |
| `Paths.SplitRender` | lib/vfs.c:287-291 | splitting a joined path gives its components after an empty one |
| `Paths.RunsOffSample` | lib/vfs.c:246-293 | "." and "a/" make it read the NULL behind the array, from any proper cwd |
| `Paths.ParentUndoes` | lib/vfs.c:273-278 | ".." undoes the plain name in front of it |
| `Paths.ParentOfCwd` | lib/vfs.c:273-278 | so "../" leads to what is in the directory above |
| `Paths.ParentOfRoot` | lib/vfs.c:275-283 | but at the root ".." is kept |
| `Paths.CurrentSkipped` | lib/vfs.c:270-271 | "." adds nothing |
| `Paths.BlankSkipped` | lib/vfs.c:270-271 | and neither does a second slash |
| `Paths.NameAppended` | lib/vfs.c:258-291 | a plain name is appended to a canonical directory |
| `Paths.AbsPathCanonical` | lib/vfs.c:246-293 | a relative path gives canonical components and a path no longer than cwd and path together |
| `Paths.ChangedIsProper` | lib/exception.c:305-318 | entering a relative directory leaves a cwd that starts and ends with a slash |
| `Paths.ChdirComposes` | lib/exception.c:305-318 | changing directory by a relative a and resolving b there is resolving a/b here |
| `Paths.ChdirAbsolute` | lib/exception.c:305-318 | for an absolute a both have the same components, and are equal as text exactly when a/b was canonical |
| `AbsolutePath.PassOver` | lib/vfs.c:270-271 | a blank or "." leaves the stack |
| `AbsolutePath.StepUp` | lib/vfs.c:273-278 | ".." pops a plain name |
| `AbsolutePath.StepDown` | lib/vfs.c:275-283 | a plain name, or ".." on an empty stack or on "..", is pushed |
| `AbsolutePath.PassBlanks` | lib/vfs.c:270-271 | the inner loop, and when it runs on to the NULL after the last component |
| `AbsolutePath.EnterComponent` | lib/vfs.c:273-283 | one component in place |
| `AbsolutePath.NormaliseInPlace` | lib/vfs.c:266-286 | the write index never passes the read index, and the array comes to lead to the normalised components; NULL is read exactly when the last component is blank or "." |
| `AbsolutePath.JoinComponents` | lib/vfs.c:287-291 | the joining loop writes the rendered path within the buffer |
| `AbsolutePath.Untranslate` | lib/vfs.c:258-261 | the concatenation |
| `AbsolutePath.Resolve` | lib/vfs.c:258-292 | cutting, normalising and joining |
| `AbsolutePath.ToAbsPath` | lib/vfs.c:246-293 | the whole function against the stack fold, in all four cases |
| `Vfs.SplittersAgree` | lib/vfs.c:198-219 | on every path the first/pop splitter and the `strtok` splitter give the same names, blank ones apart |
| `Vfs.PoppedTidy` | lib/vfs.c:198-219 | no popped component is blank exactly when the path, past one leading slash, is not empty, does not begin with a slash, has no three slashes in a row and does not end in two |
| `Vfs.SplittersAgreeIff` | lib/vfs.c:198-219 | and exactly then both splitters agree entirely |
| `Vfs.PoppedRendered` | lib/vfs.c:198-219 | which is so for every canonical path below the root |
| `Vfs.Make` | lib/vfs.c:77-120 | a made or found node is a node of the new tree, whose links are all good |
| `VfsProofs.MakeAllGrows` | lib/vfs.c:104-118 | making only adds: nodes keep name, kind, mount and entries, and full directories gain none |
| `VfsProofs.WalkedKept` | lib/vfs.c:77-103 | in a tree that only grew, every walk that succeeded leads to the same node |
| `VfsProofs.MkdirKeepsPaths` | lib/vfs.c:180-195 | every path that resolved before `vfs_mkdir` resolves to the same node, through mounted roots too |
| `VfsProofs.MakeAllAgain` | lib/vfs.c:104-118 | in every later tree the making loop changes nothing and ends at the same node |
| `VfsProofs.MkdirTwice` | lib/vfs.c:180-195 | repeating a `vfs_mkdir` changes nothing, whether it succeeded or not and whatever was made in between |
| `VfsProofs.MadeIsFound` | lib/vfs.c:77-120 | what was made is what a lookup finds |
| `VfsProofs.NotMakeable` | lib/vfs.c:77-120 | what cannot be made is not found afterwards |
| `VfsProofs.BlankIsMissing` | lib/vfs.c:91-103 | a blank component is never found |
| `VfsProofs.MkdirKeepsNames` | lib/vfs.c:104-118 | sibling names stay unique and not blank |
| `VfsProofs.MkdirThenLookup` | lib/vfs.c:180-195 | after `vfs_mkdir(p)`, `vfs_lookup(p)` finds a node exactly when p is the root, or has tidy slashes, no file on the way and room for its first new name; and then it is the node just made |
| `VfsProofs.WalkedAsFile` | lib/vfs.c:131-145 | when a node becomes a file, exactly the walks through it are lost |
| `VfsProofs.CreateNullIff` | lib/vfs.c:131-145 | creating is refused exactly when the root is no directory, and follows a node that is not set exactly when the root has no room and none of the names |
| `VfsProofs.CreateThenLookup` | lib/vfs.c:131-145 | `vfs_open` with O_CREAT on a path that is not there leaves a file at it exactly when the path is tidy and can be made, and then it is a new one |
| `VfsProofs.CreateLosesPaths` | lib/vfs.c:131-145 | of the paths that resolved, exactly those through the node that the making loop ended at are lost |
| `VfsProofs.CreateKeepsPaths` | lib/vfs.c:131-145 | which are none when the path is tidy and can be made |
| `VfsProofs.CreateLosesFile` | lib/vfs.c:131-145 | it writes to one node, and that is a file that was there, whose contents are so lost, exactly when the making loop comes to a file on its way |
| `VfsProofs.CreateLosesSample` | lib/vfs.c:131-145 | opening "//a" so makes the directory a a file, and /a/b is lost |
| `VfsProofs.MountedHere` | lib/vfs.c:57-67 | after a mount, a path to the mount point leads to the new root and longer ones go on from there |
| `VfsProofs.MountedElsewhere` | lib/vfs.c:57-67 | every path that does not come by leads where it led |
| `VfsProofs.RunNamed` | lib/vfs.c:23-195 | in every tree that making, creating and mounting reach, links are good, mounts do not stack and siblings differ |
| `VfsProofs.BootNamed` | lib/vfs.c:24-30 | as in the tree of the first mount |
| `VfsProofs.RootNotFound` | lib/exception.c:305-318 | a relative path that leads to the root is never found, so that `chdir` fails |
| `VfsProofs.SyscMkdir` | lib/exception.c:286-294 | a directory made from a relative path is found at that path exactly when there was room for it |
| `VfsTree.FirstComponent` | lib/vfs.c:209-219 | copies out the first component |
| `VfsTree.PopFirstComponent` | lib/vfs.c:198-207 | the string after the first component |
| `VfsTree.SameName` | lib/vfs.c:77-103 | comparison of a component with a node's name |
| `VfsTree.FileTree.constructor` | lib/vfs.c:24-30 | the tree of one empty directory |
| `VfsTree.FileTree.LookupFirst` | lib/vfs.c:80-92 | one component looked up |
| `VfsTree.FileTree.LookupPath` | lib/vfs.c:77-103 | the recursion, mounts included, finds what one lookup for each popped component finds |
| `VfsTree.FileTree.LookupOn` | lib/vfs.c:92-99 | the rest of the path from the node of its first component |
| `VfsTree.FileTree.VfsLookupPath` | lib/vfs.c:122-128 | `vfs_lookup` |
| `VfsTree.FileTree.MakeNext` | lib/vfs.c:109-117 | one piece: passed over, entered, made or refused |
| `VfsTree.FileTree.MakeDirectories` | lib/vfs.c:109-117 | the making loop leaves the specified tree, and only new nodes are added |
| `VfsTree.FileTree.CopyAndMake` | lib/vfs.c:105-117 | the split and the loop |
| `VfsTree.FileTree.CopyAndCut` | lib/vfs.c:105-108 | the copy of the path and its components |
| `VfsTree.FileTree.CreatePath` | lib/vfs.c:104-119 | `lookup_path` with create 1 |
| `VfsTree.FileTree.VfsMkdirPath` | lib/vfs.c:180-195 | `vfs_mkdir` leaves the specified tree and returns -1 exactly when the root is no directory |
| `VfsTree.ReadString` | lib/tmpfs.c:159-159 | the name of a new node |
| `VfsTree.FileTree.TmpfsLookup` | lib/tmpfs.c:173-187 | finds the first entry of that name, crossing a mount |
| `VfsTree.FileTree.TmpfsMkdir` | lib/tmpfs.c:123-171 | finds, refuses or makes an entry, and makes nothing else |
| `VfsTree.FileTree.Enter` | lib/tmpfs.c:162-169 | the new node becomes the last entry |
| `TmpfsFile.Component.constructor` | lib/tmpfs.c:140-163 | an empty component |
| `TmpfsFile.Component.Grow` | lib/tmpfs.c:57-68 | the file grows to the length asked for, at most 4096, and keeps its bytes |
| `TmpfsFile.Handle.constructor` | lib/tmpfs.c:102-112 | a new handle stands at 0 |
| `TmpfsFile.Handle.Write` | lib/tmpfs.c:37-73 | the contents become the overlay of the clipped bytes at the position, which moves on by them |
| `TmpfsFile.Handle.Read` | lib/tmpfs.c:75-100 | copies as many bytes as are asked for, or as there are from the position to the end, from the start of the file, and moves the position on |
| `TmpfsFile.ReadRightIff` | lib/tmpfs.c:95-97 | a read is right for all contents exactly when the position is 0 or at the end, or no byte is asked for |
| `TmpfsFile.ReadWrongSample` | lib/tmpfs.c:95-97 | a read at position 1 of a file "ab" gives the wrong byte |
| `TmpfsFile.Stepped` | lib/tmpfs.c:37-100 | every handle keeps its position within the length, and that within 4096 |
| `TmpfsFile.LastWriterWins` | lib/tmpfs.c:37-73 | for any interleaving through any handles, each byte is that of the last write over it, and the length is where the furthest write ends |
| `TmpfsFile.WriterPosition` | lib/tmpfs.c:69-72 | a handle that only writes stands at the bytes asked of it, at most 4096, whatever the others do |
| `TmpfsFile.SingleWriter` | lib/tmpfs.c:37-73 | one writer leaves all its bytes in a row, as far as they fit |
| `TmpfsFile.FirstRead` | lib/tmpfs.c:75-112 | the first read of n bytes through a new handle gets every byte last written from the start on, up to n or to the end of the file |
| `TmpfsFile.Component.BecomeFile` | lib/vfs.c:139-140 | the data is dropped and the length kept, so the component stays one that the other operations can be given exactly when it was empty |
| `TmpfsFile.Memcpy` | lib/string.c:19-25 | copies n bytes and leaves the rest |
| `Scheduler.CreateKeeps` | lib/scheduler.c:34-68 | a new task is in one place, and new |
| `Scheduler.NeverNull` | lib/scheduler.c:70-84 | with idle current or queued, `schedule` never switches to NULL |
| `Scheduler.ScheduleKeeps` | lib/scheduler.c:70-85 | a switch keeps every task in one place and idle current or queued |
| `Scheduler.KillKeeps` | lib/scheduler.c:121-137 | so does a kill of any pid but 1 |
| `Scheduler.ShellKeeps` | lib/scheduler.c:74-79 | and the reset of `pid` with the first task after it |
| `Scheduler.AddBackKeeps` | lib/scheduler.c:167-176 | a parked task added back has a pid of its own, and the queue it is added to is not empty |
| `Scheduler.ForkKeeps` | lib/exception.c:163-165 | a fork keeps the invariant |
| `Scheduler.ExitKeeps` | lib/exception.c:209-217 | an exit never enters the shell nor switches to NULL, and keeps the invariant |
| `Scheduler.SignalKeeps` | lib/exception.c:234-243 | parking a task and creating its handler keeps the invariant |
| `SchedulerRuns.EnabledCanStep` | lib/scheduler.c:70-84 | in a state that keeps the invariants every call of `schedule` has a task to switch to |
| `SchedulerRuns.ReapKeeps` | lib/scheduler.c:87-95 | reaping a zombie keeps the invariant; which one goes is `SchedulerPlaces.StepPlaces` |
| `SchedulerRuns.BootHolds` | lib/scheduler.c:21-26 | it holds when idle starts |
| `SchedulerRuns.RunKeeps` | lib/scheduler.c:34-176 | it holds in every state of every run, and the pids of the runnable tasks differ |
| `SchedulerRuns.EveryRun` | lib/scheduler.c:34-176 | from boot: each created and unreaped task is in exactly one place, idle is current or queued, and runnable pids differ across any number of resets |
| `SchedulerRuns.OnePlace` | lib/scheduler.c:34-176 | every task is in exactly one place: current, run, zombie, parked, or none exactly when it is not live |
| `SchedulerRuns.StepMovesUp` | lib/scheduler.c:70-137 | what one step does to the place of a queued task |
| `SchedulerRuns.BoundedWaiting` | lib/scheduler.c:70-176 | a task at place k is current after at most k + 1 calls of `schedule`, whatever the others do meanwhile |
| `SchedulerRuns.ResetStrands` | lib/scheduler.c:74-79 | when idle enters the shell nothing is left that could bring a parked task back |
| `SchedulerRuns.StrandedForever` | lib/scheduler.c:151-176 | a parked task whose handler task is gone never runs again |
| `SchedulerRuns.HandlerComes` | lib/scheduler.c:70-85 | a runnable task that can call `add_to_queue` is current after exactly as many calls of `schedule` as it waits for |
| `SchedulerRuns.ParkedReturnsIff` | lib/scheduler.c:151-176 | a parked task can run again exactly while such a task is runnable |
| `SchedulerRuns.KillOfIdle` | lib/scheduler.c:121-137 | a kill of pid 1 leaves idle runnable exactly when idle is the current task |
| `SchedulerRuns.IdleKilledSample` | lib/scheduler.c:70-137 | where the first task that the shell creates kills pid 1, the next switch is to NULL |
| `SchedulerRuns.StepKeeps` | lib/exception.c:209-329 | every step keeps the invariant |
| `SchedulerRuns.SignalNeedsNoneParked` | lib/exception.c:234-243 | a signal keeps every task in its place exactly when none is parked |
| `SchedulerPlaces.StepPlaces` | lib/scheduler.c:34-176 | every step moves exactly the threads that it is about, each to its place: the exact place of every thread after every step |
| `SchedulerPlaces.ZombieReaped` | lib/scheduler.c:87-95 | a zombie at place k of the list is gone once more than k were reaped, whatever else happens, and until then moves to the front by one place a time |
| `SchedulerPlaces.GoneStays` | lib/scheduler.c:34-95 | a thread that is gone stays gone |
| `SchedulerPlaces.NextPid` | lib/scheduler.c:34-79 | pids are given in a row, from 2 on after each reset |
| `SchedulerPlaces.NewestPid` | lib/scheduler.c:34-79 | in every run from boot the next task created gets pid 2 + n after n creations since the last reset |
| `SchedulerPlaces.PendingKillDone` | lib/exception.c:209-217 | at an exit with a kill pending, a target that is queued and the task that exits both become zombies, and the kill is no longer pending |
| `SchedulerPlaces.SignalledDies` | lib/exception.c:209-243 | after a signal to a pid, a task of that pid that is queued again when the next exit comes becomes a zombie |
| `SchedulerPlaces.HandlersAre` | lib/exception.c:163-243 | the tasks that may bring a parked one back are those created for a signal and what they fork |
| `SchedulerPlaces.SignalCanReturn` | lib/exception.c:234-243 | the task that a signal parks can run again |
| `SchedulerQueues.LinkedAppend` | lib/scheduler.c:97-110 | linking a task behind the last one |
| `SchedulerQueues.LinkedRemoved` | lib/scheduler.c:125-129 | linking past a task |
| `SchedulerQueues.Enqueue` | lib/scheduler.c:97-110 | the list gets the task at its end |
| `SchedulerQueues.Dequeue` | lib/scheduler.c:112-119 | the first task leaves the list |
| `SchedulerQueues.Unlink` | lib/scheduler.c:125-129 | exactly that task leaves the list |
| `SchedulerQueues.Search` | lib/scheduler.c:121-137 | the search stops at the first task of that pid, with its predecessor, and at NULL exactly when there is none |
| `SchedulerQueues.Queues.constructor` | lib/scheduler.c:21-26 | the state in which idle starts |
| `SchedulerQueues.Queues.TaskCreate` | lib/scheduler.c:34-68 | a new task with the next pid at the end of the run queue |
| `SchedulerQueues.Queues.KillThread` | lib/scheduler.c:121-137 | the first queued task of that pid becomes the last zombie |
| `SchedulerQueues.Queues.Schedule` | lib/scheduler.c:70-85 | the specified switch, or the shell |
| `SchedulerQueues.Queues.SwitchTo` | lib/scheduler.c:80-84 | the outgoing task is queued or becomes a zombie |
| `SchedulerQueues.Queues.EnterShell` | lib/scheduler.c:74-79 | the reset and the `run` command |
| `SchedulerQueues.Queues.RemoveTask` | lib/scheduler.c:151-165 | parks the task and nothing else, and forgets one that was parked; without a task of that pid it changes nothing |
| `SchedulerQueues.Queues.AddToQueue` | lib/scheduler.c:167-176 | the parked task goes to the end of the queue |
| `SchedulerQueues.Queues.QueueParked` | lib/scheduler.c:170-175 | it is queued with the pid it was parked with, and nothing else changes |
| `SchedulerQueues.Queues.KillZombies` | lib/scheduler.c:87-95 | the first zombie leaves the list and is no longer live; without one nothing changes |
| `SchedulerQueues.Queues.PutAway` | lib/scheduler.c:80-83 | the outgoing task goes to the run queue or to the zombies |
| `SchedulerQueues.Queues.Fork` | lib/exception.c:163-165 | a child with the next pid, in the handler if its parent is |
| `SchedulerQueues.Queues.PendingKill` | lib/exception.c:211-214 | the kill that is pending is done |
| `SchedulerQueues.Queues.Exit` | lib/exception.c:209-217 | the pending kill, the state change and the switch |
| `SchedulerQueues.Queues.SignalKill` | lib/exception.c:234-243 | the target is parked, even if another was, and a handler task created |
| `SchedulerQueues.Queues.ClearSignalExit` | lib/exception.c:327-327 | the pending kill is dropped |
| `Format.Digits` | lib/printf.c:295-299 | at least one digit and no more than there is room for |
| `Format.SpecOf` | lib/printf.c:603-682 | a directive ends where its syntax says, whatever the arguments are |
| `FormatProofs.DigitsDecode` | lib/printf.c:295-299 | the digits decode to the value modulo base^room |
| `FormatProofs.DigitsExact` | lib/printf.c:282-300 | the digit loop converts every 64-bit value in full, but with base 2 exactly those below 2^32; what the text then shows is `FormatReading.IntTextExact` |
| `FormatProofs.NoLeadingZero` | lib/printf.c:295-299 | no leading zero but for zero itself |
| `FormatProofs.DigitsShort` | lib/printf.c:295-299 | a value below base^n has at most n digits |
| `FormatProofs.FieldWidth` | lib/printf.c:201-225 | padding with spaces makes a number exactly as wide as its field, or as it is itself; for zeros see `FormatReading.FieldShortIff` |
| `FormatProofs.SpacedWidth` | lib/printf.c:778-822 | and so are characters and strings |
| `FormatProofs.NumberFits` | lib/printf.c:229-279 | padding, alternative form and sign never fill more than the 32-byte buffer |
| `FormatProofs.PlainDecimal` | lib/printf.c:686-740 | %d shows the sign and the digits of the int that it is given |
| `FormatProofs.OverrunIff` | lib/printf.c:589-851 | with arguments that fit, the engine reads past the format exactly when its last directive has no conversion character |
| `FormatProofs.OverrunSample` | lib/printf.c:601-603 | "%" alone is read past its end |
| `FormatProofs.PlainText` | lib/printf.c:591-597 | text without directives is written as it stands |
| `FormatReading.ReadReversed` | lib/printf.c:217-219 | the characters put out backwards are read back as the number that the digits stand for |
| `FormatReading.ReadMarked` | lib/printf.c:245-264 | so is a number with its mark, unless the mark is cut short by the end of the buffer |
| `FormatReading.ZeroedIs` | lib/printf.c:236-241 | the zeros that a number is padded with |
| `FormatReading.KeptExact` | lib/printf.c:245-251 | of a padded number, the characters that the mark leaves stand for it exactly when it leaves all digits |
| `FormatReading.IntTextExact` | lib/printf.c:201-303 | over all flags, widths and precisions: the text of an integer directive, read back with its sign and mark, is the argument exactly when the low 32 bits of %b hold it, the sign finds room in the 32-byte buffer, and the mark neither writes over a digit nor is cut short |
| `FormatReading.FieldShortIff` | lib/printf.c:201-241 | the text is shorter than its field exactly when it pads with zeros to more than 32 characters |
| `FormatReading.LostDigits` | lib/printf.c:245-251 | %#4x of 0x1234 shows 0x34 |
| `DirectiveProofs.DigitsAre` | lib/printf.c:294-299 | the digit loop gives the lowest digits of the numeral in its base, backwards |
| `DirectiveProofs.NtoaText` | lib/printf.c:229-303 | a number is written as sign, mark, zeros, digits and spaces, in closed form over all flags, widths and precisions |
| `DirectiveProofs.FlagsRead` | lib/printf.c:603-614 | the flags, in any order and as often as they come, are read as what they are |
| `DirectiveProofs.NumeralRead` | lib/printf.c:190-197 | a decimal numeral is read as its number, modulo 2^32 |
| `DirectiveProofs.SizeRead` | lib/printf.c:616-646 | a width or precision, in digits or from an argument |
| `DirectiveProofs.LengthRead` | lib/printf.c:648-682 | and a length |
| `DirectiveProofs.DirectiveRead` | lib/printf.c:603-682 | so reading inverts writing: flags, width, precision and length are what the directive was written with |
| `DirectiveProofs.IntegerWritten` | lib/printf.c:684-758 | an integer directive writes the text of the value of its length and sign, whatever its flags, width and precision |
| `DirectiveProofs.PointerWritten` | lib/printf.c:824-840 | %p writes it as hexadecimal with zeros to 16 digits |
| `DirectiveProofs.CharWritten` | lib/printf.c:778-796 | %c writes the lowest byte of its argument, between spaces up to its width |
| `DirectiveProofs.StringWritten` | lib/printf.c:798-822 | %s writes the whole string, or as much of it as its precision says, between spaces up to its width |
| `DirectiveProofs.OtherWritten` | lib/printf.c:842-850 | any other character is written itself, and takes no argument |
| `PlainDirectives.NumeralReads` | lib/printf.c:294-299 | a numeral with its sign reads as its number |
| `PlainDirectives.StringShown` | lib/printf.c:798-822 | "%s" writes the string |
| `PlainDirectives.CharShown` | lib/printf.c:778-796 | "%c" writes the character |
| `PlainDirectives.PointerShown` | lib/printf.c:824-840 | "%p" writes the address in 16 hexadecimal digits |
| `PlainDirectives.SignedShown` | lib/printf.c:684-740 | "%d" and "%i", with each length, write the number in base 10 with its sign, which reads back as it; the word passed may have any higher bits |
| `PlainDirectives.UnsignedShown` | lib/printf.c:684-758 | "%u", "%x", "%X", "%o" and "%b", with each length, write it in base 10, 16, 16, 8 and 2, which reads back as it; of "%b" only the 32 lowest digits are shown |
| `PlainDirectives.FieldShown` | lib/printf.c:603-646 | a width in decimal digits makes a field of that many characters, and the flags '-', '0', '+' and the space each have their effect |
| `PlainDirectives.PrecisionShown` | lib/printf.c:632-646 | a precision in decimal digits puts zeros in front up to as many digits |
| `PlainDirectives.MarkShown` | lib/printf.c:245-264 | '#' puts 0x, 0X, 0 or 0b in front |
| `PlainDirectives.StringField` | lib/printf.c:798-822 | a string in a field |
| `PlainDirectives.StringCut` | lib/printf.c:798-822 | a string cut to its precision |
| `PlainDirectives.PercentShown` | lib/printf.c:842-845 | "%%" writes one percent sign |
| `Printf.OutBuffer` | lib/printf.c:134-139 | writes below maxlen, and nowhere else |
| `Printf.PutSpaces` | lib/printf.c:207-209 | padding |
| `Printf.OutRev` | lib/printf.c:201-225 | the buffer backwards between its padding |
| `Printf.PadZeros` | lib/printf.c:236-241 | zeros up to the width or the end of the buffer |
| `Printf.Hash` | lib/printf.c:245-264 | the alternative form |
| `Printf.Sign` | lib/printf.c:266-276 | the sign |
| `Printf.NtoaFormatTo` | lib/printf.c:229-279 | all of `_ntoa_format`, within its buffer |
| `Printf.DigitLoop` | lib/printf.c:294-300 | the digit loop, within its buffer |
| `Printf.NtoaTo` | lib/printf.c:283-303 | all of `_ntoa_long` |
| `Printf.PutInteger` | lib/printf.c:686-758 | the integer directives |
| `Printf.PutChar` | lib/printf.c:778-796 | %c |
| `Printf.PutString` | lib/printf.c:798-822 | %s, with precision and width |
| `Printf.Strnlen` | lib/printf.c:173-178 | the length of the string, limited |
| `Printf.Atoi` | lib/printf.c:190-197 | decimal digits in 32-bit arithmetic |
| `Printf.ParseFlags` | lib/printf.c:603-614 | the flag loop |
| `Printf.ParseField` | lib/printf.c:616-646 | a width or precision field, from the format or an argument |
| `Printf.ParseLength` | lib/printf.c:648-682 | the length field |
| `Printf.ParseSpec` | lib/printf.c:603-682 | a directive up to its conversion character |
| `Printf.PutConversion` | lib/printf.c:684-851 | the conversion switch |
| `Printf.WriteAll` | lib/printf.c:589-852 | the loop writes the output, whatever the size of the buffer, as far as there is room |
| `Printf.Snprintf` | lib/printf.c:885-892 | the buffer holds the first min(n, count - 1) characters of the output and then NUL, the rest is untouched, and n is the length of the whole output whatever count is |
| `Endian.SwapsBytes` | lib/dtb.c:58-63 | `little2big` turns a little-endian load into a big-endian one |
| `Endian.SwapTwice` | lib/dtb.c:58-63 | and undoes itself |
| `Endian.SwappedBytes` | lib/dtb.c:58-63 | as a number it gives the four bytes loaded, the first weighed highest |
| `Endian.LoadBig` | lib/dtb.c:28-28 | a load and `little2big` of it |
| `Dtb.ReadBig` | lib/dtb.c:28-28 | which is what the walker calculates with |
| `Dtb.AlignedIs` | lib/dtb.c:40-43 | the padding step goes to the next multiple of four |
| `Dtb.PastIs` | lib/dtb.c:33-33 | the one after a name to the next one past it |
| `Dtb.NodeToken` | lib/dtb.c:30-33 | the branch for a node |
| `Dtb.PropToken` | lib/dtb.c:34-43 | the branch for a property |
| `Dtb.PropValue` | lib/dtb.c:37-43 | its call of the callback, and the step past its value |
| `Dtb.NextToken` | lib/dtb.c:28-44 | one round of the loop |
| `Dtb.Loop` | lib/dtb.c:27-45 | the loop and its calls |
| `Dtb.FdtTraverse` | lib/dtb.c:11-46 | the calls are those of the walk |
| `Dtb.StepInverts` | lib/dtb.c:27-45 | a token encoded with its bytes 0 0 0 1, 2, 3, 4 or 9 makes the walk tell what it stands for and go on behind it |
| `Dtb.WalkInverts` | lib/dtb.c:27-45 | on every sequence of tokens, encoded from a 4-byte aligned place on, the walk ends at the end of the block and tells exactly the nodes begun and the properties, in order |
| `Dtb.TraverseInverts` | lib/dtb.c:11-46 | so `fdt_traverse` inverts the encoding of a whole blob |
| `Dtb.WrongMagic` | lib/dtb.c:14-17 | any magic number but the bytes d0 0d fe ed ends the walk before it begins |

## Left out

- Word sizes: integers are unbounded. The limits that keep the code inside its types are preconditions or enabling conditions: sizes up to 2^28 for `page_allocate` and 0x20000 for `malloc_`, fewer than 2^30 pages; pids, counters and lengths are assumed not to reach the limits of their types.
- `merge` at the last top-level block reads `frame[N]`: the model gives the frame array one entry past the end, with an order that is never legal. What the memory behind the array really holds is not modelled.
- `PageAllocation.PageAllocator.constructor`: boot with a range that is not free when it is reserved, or whose end does not fit; `PageInit.OrphanListed` says what the code does with the first such end, and nothing after it is modelled.
- `BootMemory.BootFitsIff`: where the linker and the boot loader put things is taken as `Image` and `Placed` say: the kernel's end and the heap's start in one page below 0x701000, the archive and the devicetree above page 0xFFF, each in one page or up to an odd one.
- `simple_malloc_`, which only moves a pointer, and the count that the last loop of `page_init` keeps and never reads.
- `PageAllocation.PageAllocator.PageAllocate`: a request for which no list in reach has a block is excluded below order 16, because the code then follows a null item or recurses for ever; `BuddyTheorems.AllocateOutcome` says which. What is read through the null item is not modelled.
- Pool memory: a pool page is a record of header and map at its page number. The bytes of objects are not modelled, only where they lie. On a page of one big object (`total` is 0) the one byte of the map lies inside the object; the model keeps it at 1, and that `used` is the number of ones in the map is then true of the model only. The code reads no map of such a page but to clear that byte in `free`, and it never gets there, as `used` is 1.
- `PoolAllocation.PoolAllocator.InitMap`: a page's map starts with arbitrary bytes, which the loop overwrites.
- `strtok` with a null delimiter, which only resets the static state.
- Const string parameters of the format engine and node names are values; the buffers that are written are arrays. Such a string stands for its characters before the NUL: one with a NUL inside it is none that the code can be given.
- `AbsolutePath.ToAbsPath`: paths that exceed the buffers (255 bytes, 64 components) are excluded.
- `sysc_chdir` to the root by its components: the absolute path is then empty and not found (`VfsProofs.RootNotFound`), and the code looks at the byte before its buffer.
- `VfsTree.FileTree.VfsMkdirPath`: names of more than 15 bytes, components of more than 31 and paths of more than 254 are excluded, as they overrun the code's buffers; the uninitialised loop counter is read as 0.
- `vfs_open` with O_CREAT where no component can be entered or made: the code follows a node that no lookup has set, and the model says no more than that. Mounts on a mounted directory, devfs, initramfs and cpio.
- Out-of-memory in tmpfs, and handles on null nodes.
- Tasks: registers, stacks, file tables and cwd of a task; `switch_to` is "current := next". Which of its two ends the signal handler wrapper takes is left open.
- `SchedulerQueues.Queues.KillZombies`: what freeing a task's memory does to the pool is not part of it.
- `SchedulerQueues.Queues.RemoveTask`: a target at the head of the run queue is excluded, for which the code follows a null predecessor.
- `SchedulerQueues.Queues.SignalKill`: so is a pid that is not queued, for which it follows the null that `find_task` returns.
- `SchedulerQueues.Queues.EnterShell`: the shell is one step that ends with its `run` command; its other commands do not touch the queues.
- Timer, UART, mailbox, reset, delays, exceptions and context switch: device registers and assembly.
- Floating-point conversions of the format engine, output other than into a buffer, and plain chars that are signed; they are unsigned on this machine.
- `Format.Digits`: the magnitude of the least negative value is taken as its absolute value, where the code relies on wrap-around.
- `Dtb.FdtTraverse`: `dtb_size` is not kept.
