# Bug: memory, memory maps, paging and scheduling, verified

Bug is a small x86 kernel. This project models the parts of it that carry real state and proves what
they keep: the heap behind `new` and `delete`, the boot memory map, the frame bitmap, 32-bit paging
through a recursive directory entry, the memory of user tasks, the program loader, the scheduler, and
the library code these rest on. `dafny verify dfyconfig.toml` checks all of it.

## How the model is laid out

* `HeapArena`, `Heap`: memory is an array of 16-byte headers, addresses are unit numbers. The ghost
  `Layout` lists the free headers in link order, the live headers and the owner of every unit. Nothing
  assumes that the free list is sorted: `expand` splices new pages out of address order.
* `FixedArray`, `Sorting`, `MemoryPieces`, `Sweep`, `E820`, `MemoryMap`, `MemoryHoles`: boot-time memory map,
  specified address by address (`TypeAt`, `AvailableAt`), with a canonical form that is unique. `Filled` is what
  the first loop makes of any sanitized list, with its 32-bit sums.
* `Bitset`, `PhysicalAllocator`, `Intervals`: packed words refine a set of frame numbers; a ghost set
  `live` holds the frames handed out.
* `PageTables`, `Paging`, `PagingBoot`, `VirtualAllocator`, `MappedPointer`: physical memory as a map from frames to 1024
  words, the processor's walk over it as a function that gives a page the rights of both levels, and the kernel's edits made through the window
  that the last directory entry opens, with a translation cache in between. The cache may be filled
  with any present translation between calls (`Paging.Fill`), and every read and write of a table goes
  through it.
* `TaskSpace`, `TaskLedger`, `TaskMemory`, `Loader`: what a user task holds. Every frame handed out
  has one owner, the kernel or a task; a task's segments and directory name exactly its frames; all its
  pages stay mapped as its segments say until the cleaner takes them away. The first slot of the table, the
  idle task's, stands for the kernel's own address space and holds the kernel's directory.
* `TaskTable`, `SchedulerRuns`, `SchedulerCalls`, `Scheduler`, `Cleaner`: the scheduler as a class, each operation
  against a function on the table, and safety and timing over whole runs of those functions. `Cleaner` is the pass that
  goes over the scheduler's table and the tasks' memory together.
* `KernelSteps`, `KernelKeeps`, `KernelRuns`, `KernelHistory`: the kernel as a whole. `Answered` says what each
  request makes of the task table, of memory and of what the tasks read; `Serve` runs any list of requests on the
  objects and returns every outcome and every state; the lemmas say what all runs keep. A request that nobody may make
  (a dead task that sleeps, a task created in an address space that must not be copied) is passed over.
* `Vector`, `Numerals`: in-place range insertion over cells that may be raw, moved from or built; the
  numeral pair of `String`.

A kernel panic or a failed assertion ends a run: an operation that meets one returns `Aborted` (or false,
where nothing else is returned), and what it promises then is only what it says for that case.

## What the proofs show of the code

Each of these is proved, with its exact condition or a concrete input where it is a shortfall.

* `Heap::allocate` serves a request exactly up to 2^32 - 4112 bytes; above that a 32-bit sum wraps
  (`Heap.RequestServed`, `Heap.WrappedRequest`).
* The frame bitmap is rounded up to whole words, and the search accepts runs that end before its last
  bit; all of them lie inside memory exactly when the page count is 0 or 31 modulo 32
  (`PhysicalAllocator.InsideMemory`).
* The memory map's fields are 32 bits wide. What it says of the addresses below 4 GiB is right if and only if the
  first piece to reach 4 GiB is not of type 1, or does not start above 4 GiB, or starts at a multiple of 4 GiB; when
  that piece is the first of the list, which is not cut, the condition is the second half of `KeepsAvailability`
  (`MemoryMap.FilledIsRight`, with a failing list in `MemoryMap.PieceAboveFourGiB`). Merging, whose lengths may
  wrap too, never does harm to that (`MemoryMap.Merge`).
* Page alignment rounds base and length one without the other: an available region stays inside itself, and a hole
  covers itself, exactly under the conditions of `MemoryHoles.AvailableShrinks` and `MemoryHoles.HoleGrows`.
* Memory that is available up to 4 GiB is taken to end at 0, as the value chosen for that case is overwritten
  (`MemoryHoles.EndIsZero`); the frame bitmap is then refused (`PhysicalAllocator.PhysicalAllocator.Init`).
* `reserve` jumps over one hole only: what it returns is clear of all holes exactly when the next hole leaves room
  (`MemoryHoles.Reserve`, `MemoryHoles.BehindHole`). A range or a hole that ends at 4 GiB is never found to meet
  (`MemoryHoles.FoundExactly`).
* The frames withheld for the kernel hold the whole bitmap if and only if what its pages leave over makes up for a
  start off a page boundary, which page-aligned holes never give it (`PhysicalAllocator.BitmapHeld`).
* `sleep(0)` ends after 2^32 ticks (`SchedulerRuns.SleepWakesOnTime`).
* After `Paging::init` the hint is right exactly when the kernel does not end one page before the
  framebuffer (`PagingBoot.Init`).
* `createPhysicalMapping` without a task drops the flags it is given: the pages carry them exactly when none were
  asked for. When a run of frames is found it reports success even if the pages were mapped already and nothing was
  done (`VirtualAllocator.CreatePhysicalMapping`).
* `mapKernel` shares the tables below 1 GiB of the current directory. The new task's address space is sound if and
  only if all of these are the kernel's (`TaskLedger.NewDirectory`, `TaskMemory.TaskMemory.MapKernel`). That always
  holds of the kernel's own directory (`TaskLedger.KernelIsDonor`), and of a task's exactly when none of them was
  made for the task itself (`TaskLedger.TaskIsDonor`). Otherwise the new directory names a frame of the other task
  and still does when that task has been cleaned and the frame is free (`TaskLedger.BorrowedTable`).
* A page table that the kernel makes while in a task's address space is recorded in no task's segments; the cleaner
  does not give it back (`TaskMemory.TaskMemory.KernelTable`).
* When no free kernel pages are found, `newUserTask` goes on without a kernel stack
  (`TaskMemory.TaskMemory.AddKernelStack`).
* The flush of a new table's window page is not needed: only present translations are cached, and that page
  had none (`Paging.FirstCoherent`).
* The load loop computes `virt - start` where it needs `start - virt`: the first byte lands in the frames
  mapped for the segment exactly when the segment is page-aligned (`Loader.PaddingInside`).
* `wait(CHILD_ALL)` begins exactly when there is any child at all and is then ended by no run of events that are not
  aimed at the waiting task itself
  (`SchedulerRuns.AllChildrenWaits`, `SchedulerRuns.AllChildrenNeverWakes`).
* `wait` accepts any task, but a kill wakes the parent of the killed task only. A wait for a task that is not one's
  child goes on after that task is killed, and ends with the next child that is killed while the other is dead
  (`SchedulerRuns.KillEndsWait`, `SchedulerRuns.ForeignWaitGoesOn`).
* `toInt` reads back an unsigned word exactly below 2^31 and a signed one exactly when it is not negative
  (`Numerals.UnsignedRoundTrip`, `Numerals.SignedRoundTrip`).

## Model

| member | source | states |
|---|---|---|
| HeapArena.Conservation | stdlib/heap.cpp:24-103 | in every valid heap free bytes and live bytes, headers included, sum to 4096 times the pages obtained, and the free blocks are the listed ones |
| HeapArena.BlocksDisjoint | stdlib/heap.cpp:38-103 | two blocks, free or live, never overlap |
| HeapArena.EdgeExists | stdlib/heap.cpp:77-84 | for every cyclic order of distinct free headers some edge stops the search of `free` |
| HeapArena.LinkValid | stdlib/heap.cpp:91-100 | linking a live header behind the first free one keeps one ring over the same tiling |
| HeapArena.MergeValid | stdlib/heap.cpp:88-97 | absorbing the list successor that starts where a block ends keeps one ring through `base` and the tiling |
| HeapArena.GrowValid | stdlib/heap.cpp:31-33 | pages spliced behind `head`, out of address order, keep the heap valid |
| HeapArena.NoneBetween | stdlib/heap.cpp:77-84 | in an address-ordered ring no free header lies between linked neighbours |
| HeapArena.LinkTouches | stdlib/heap.cpp:86-100 | in an ordered ring without touching free blocks a freed block can touch only the two it goes between |
| HeapArena.MergeTouches | stdlib/heap.cpp:88-97 | a merge removes the one contact it was made for and makes no other |
| HeapArena.FreeResult | stdlib/heap.cpp:86-102 | linking and merging at any accepting edge gives a valid heap in which the block is free and every unit of the live blocks is untouched; order and apartness are preserved |
| HeapArena.CarveTail | stdlib/heap.cpp:48-52 | a split keeps the front free and makes the tail live, preserving order and apartness |
| HeapArena.CarveWhole | stdlib/heap.cpp:46-47 | an exact fit is unlinked and becomes live, preserving order and apartness |
| HeapArena.ClientWrites | stdlib/heap.cpp:55 | whatever a client writes into a block it holds, the heap stays valid, as ordered and apart as it was |
| Heap.RequestServed | stdlib/heap.cpp:24-39 | the size arithmetic covers the request and the pages cover the block if and only if the request is at most 2^32 - 4112 bytes; up to there the block is less than two headers larger than the request, and the pages less than a page larger than the block |
| Heap.WrappedRequest | stdlib/heap.cpp:39 | 2^32 - 16 bytes round to a block of none |
| Heap.Heap.constructor | stdlib/heap.cpp:6-10 | the sentinel alone is a valid heap, ordered and apart |
| Heap.Heap.Expand | stdlib/heap.cpp:24-36 | a failed supply changes nothing; otherwise the new pages are one free block directly behind `head` |
| Heap.Heap.FindEdge | stdlib/heap.cpp:74-84 | the walk ends, and at the first listed header behind which the block belongs |
| Heap.Heap.Allocate | stdlib/heap.cpp:38-68 | the block is cut from the first free block with room behind `head`, and the search of the next call starts at its predecessor; pages are asked for only without one; failure changes nothing; no unit of a live block changes |
| Heap.Heap.Free | stdlib/heap.cpp:70-103 | the search ends for every ring, at the first edge that accepts the block; the block alone leaves the live set, is one with each neighbour in the list that it touches, no unit of another live block changes, and order and apartness are preserved; null changes nothing |
| FixedArray.FixedArray.Insert | stdlib/array.hpp:20-23 | appends, and fails exactly when full |
| FixedArray.FixedArray.Remove | stdlib/array.hpp:25-32 | removes the one element and keeps the order of the rest |
| FixedArray.FixedArray.Find | stdlib/array.hpp:43-49 | the first occurrence, or the size when there is none |
| Sorting.Sort | stdlib/utility.hpp:86-101 | sorts by any preorder the comparator agrees with off ties, as a permutation, leaving the rest of the array |
| Sweep.EarlierAgrees | kernel/boot/e820.cpp:56-61 | the comparator, symmetric on equal starts, agrees with the order by address with starts first |
| Sweep.OpenCovers | kernel/boot/e820.cpp:67-74 | between two change points the open entries are those covering the address |
| Sweep.OpenStep | kernel/boot/e820.cpp:68-74 | a change point opens or closes exactly its own entry |
| Sweep.StepKeeps | kernel/boot/e820.cpp:76-93 | each point keeps the pieces right for all addresses before the next one and canonical |
| MemoryPieces.CoveredExactly | kernel/boot/e820.cpp:81-93 | an address lies in a piece of type t exactly when t is the type there |
| MemoryPieces.CanonicalUnique | kernel/boot/e820.cpp:81-93 | lists of non-empty ordered disjoint pieces, touching ones of different type, are determined by the types they give |
| E820.SanitizeMap | kernel/boot/e820.cpp:40-95 | the pieces are canonical and give every address the greatest type of the ranges covering it, none when none does; at most 2n - 1 pieces; the call fails only when every correct list is too long for the array |
| E820.SanitizedUnique | kernel/boot/e820.cpp:40-95 | ranges that say the same of every address give the same pieces |
| E820.TakePoints | kernel/boot/e820.cpp:63-94 | over the sorted points, as SanitizeMap, with fewer pieces than points |
| E820.TopType | kernel/boot/e820.cpp:76-79 | the greatest type among the open entries, zero without any |
| E820.TooManyPieces | kernel/boot/e820.cpp:82-85 | when the sweep needs one more piece, so does every canonical list |
| MemoryMap.Fill | kernel/memorymap.cpp:18-39 | for every sanitized list the entries are those of Filled; 2n - 1 places suffice; fails on an empty list |
| MemoryMap.FilledIsRight | kernel/memorymap.cpp:18-39 | for every sanitized list: below 4 GiB exactly what a type-1 piece covers is available if and only if the first piece to reach 4 GiB does not fold, or, being the first, is what its fields say |
| MemoryMap.FilledDescribes | kernel/memorymap.cpp:18-39 | for the lists that 32-bit fields can describe the entries cover the map without gap or overlap, available exactly where a type-1 piece is |
| MemoryMap.FilledSeparate | kernel/memorymap.cpp:26-38 | no two neighbouring entries are both available |
| MemoryMap.Merge | kernel/memorymap.cpp:41-51 | the shrinking loop ends with entries of alternating availability that say the same of every address, whatever wraps; a description stays one |
| MemoryMap.MergeUnavailable | kernel/memorymap.cpp:46-49 | merging unavailable neighbours changes no address, whatever the length becomes |
| MemoryMap.Build | kernel/memorymap.cpp:18-51 | both loops together, for every sanitized list: alternating, right below 4 GiB exactly under KeepsAvailability, and contiguous where the fields suffice |
| MemoryMap.MergePair | kernel/memorymap.cpp:46-49 | merging two neighbours of one availability changes no address |
| MemoryMap.PairFits | kernel/memorymap.cpp:47 | the summed length never wraps to zero |
| MemoryMap.BelowFourGiB | kernel/memorymap.cpp:30-36 | every map that ends below 4 GiB is one that 32-bit fields can describe |
| MemoryMap.PieceAboveFourGiB | kernel/memorymap.cpp:27-33 | a list for which the loop makes an address available that no piece mentions |
| MemoryHoles.AvailableShrinks | kernel/memorymap.cpp:55-57 | an available region is aligned to a part of itself if and only if its length loses at least what its base gains, or nothing is left |
| MemoryHoles.HoleGrows | kernel/memorymap.cpp:58-61 | a hole is aligned to one that contains it if and only if its length gains at least what its base loses |
| MemoryHoles.AlignedNear | kernel/memorymap.cpp:53-62 | every region is left on page boundaries, each field moved by less than a page, base and length in opposite directions |
| MemoryHoles.AlignedStays | kernel/memorymap.cpp:53-62 | regions on page boundaries are left as they are |
| MemoryHoles.Finish | kernel/memorymap.cpp:53-80 | all regions are aligned, and the holes kept are the unavailable ones below the end |
| MemoryHoles.HolesAreExact | kernel/memorymap.cpp:64-80 | over contiguous regions an address below the end is in a hole if and only if it is not available |
| MemoryHoles.EndIsZero | kernel/memorymap.cpp:64-72 | the end is that of the last available region, except that memory available up to 4 GiB ends at 0, without holes |
| MemoryHoles.IsInHole | kernel/memorymap.cpp:91-103 | the first hole found to meet the range, with both ends in 32 bits; none exactly when none is found |
| MemoryHoles.FoundExactly | kernel/memorymap.cpp:93-98 | within 4 GiB a hole is found to meet a range if and only if it does and neither ends at 4 GiB |
| MemoryHoles.Reserve | kernel/physicalallocator.cpp:15-25 | the pages are taken where they are asked for exactly when that is clear of holes, else behind a hole they would meet |
| MemoryHoles.BehindHole | kernel/physicalallocator.cpp:19-20 | behind a hole the range is clear if and only if the next hole leaves that much room |
| Bitset.WriteBit | stdlib/bitset.hpp:34-36 | one masked write changes one number of the set and no other |
| Bitset.Bitset.Set | stdlib/bitset.hpp:31-37 | adds exactly the range, fails exactly when it does not fit |
| Bitset.Bitset.Clear | stdlib/bitset.hpp:45-51 | removes exactly the range, fails exactly when it does not fit |
| Bitset.Bitset.Test | stdlib/bitset.hpp:59-68 | whether the whole range is in the set, or out of it; fails at the last number |
| Bitset.Bitset.FindFree | stdlib/bitset.hpp:71-80 | the least start below size - n of n clear numbers, none exactly when there is no such start |
| PhysicalAllocator.InsideMemory | kernel/physicalallocator.cpp:31-34 | all runs the search accepts lie in memory if and only if the page count is 0 or 31 modulo 32 |
| PhysicalAllocator.BitmapFits | stdlib/bitset.hpp:19-20 | the bitmap has a bit for every page and fewer than a word to spare, and as many pages as its bytes need and no more |
| PhysicalAllocator.BitmapHeld | kernel/physicalallocator.cpp:22-38 | all bytes of the bitmap lie in frames that are withheld if and only if what its pages leave makes up for a start off a page boundary |
| PhysicalAllocator.PhysicalAllocator.constructor | kernel/physicalallocator.cpp:31-41 | exactly the kernel's pages and the holes are withheld, and nothing is live |
| PhysicalAllocator.PhysicalAllocator.Init | kernel/physicalallocator.cpp:15-41 | the bitmap goes behind the kernel or behind a hole it would meet; then as the constructor; behind a page-aligned kernel, between page-aligned holes, every frame with a byte of the kernel or of the bitmap is withheld; fails exactly without memory or when the kernel or a hole does not fit |
| PhysicalAllocator.PhysicalAllocator.SparesBitmap | kernel/physicalallocator.cpp:43-55 | no run that the search finds has a frame with a byte of the bitmap |
| PhysicalAllocator.PhysicalAllocator.Allocate | kernel/physicalallocator.cpp:43-55 | the first run of frames that are neither live, nor a hole, nor the kernel's becomes live; usedPages counts it; otherwise nothing changes |
| PhysicalAllocator.PhysicalAllocator.Free | kernel/physicalallocator.cpp:57-60 | exactly the given live frames stop being live, and usedPages counts them |
| PageTables.WindowArithmetic | kernel/paging.hpp:188-189 | the addresses computed for entries fall on the page of their table in the window and on their word in it |
| PageTables.WindowWalk | kernel/paging.cpp:24-27 | a window page is translated to the table of its number, mapped exactly when that table exists |
| PageTables.Restricted | kernel/paging.cpp:167-192 | a page has exactly the rights that both its entries give; a table named with WRITE and USER takes none away |
| PageTables.TableEntry | kernel/paging.cpp:119 | a new table is named present, by its frame and with all rights |
| PageTables.EntryAddressIsEntry | kernel/paging.cpp:104-128 | the address `get` computes is translated, through entry 1023, to the very word at which the processor's walk ends |
| PageTables.WriteEntry | kernel/paging.cpp:144-152 | writing an entry changes the translation of its page and of no other, window pages included |
| PageTables.NameTable | kernel/paging.cpp:119 | naming a frame as a table disturbs only the pages it maps and its window page, whatever it holds |
| PageTables.AddTable | kernel/paging.cpp:119-123 | a zeroed new table maps its window page and changes nothing else |
| Paging.FirstCoherent | kernel/paging.cpp:119-122 | nothing a new table maps, nor its window page, is cached when it is named |
| Paging.StillCoherent | kernel/paging.cpp:123 | while a table is zeroed through its window the cache stays right |
| Paging.HintStep | kernel/paging.cpp:154-155 | mapping a page keeps the hint sound and lets the next page move it |
| Paging.UnmapSound | kernel/paging.cpp:146-147 | unmapping a page keeps the hint sound once it falls back to it |
| Paging.Paging.Fill | kernel/paging.cpp:144-158 | any present translation may enter the cache between calls, and none that is not |
| Paging.Paging.Translate | kernel/paging.hpp:188-189 | an access through a cached or a walked translation reaches the frame the tables say |
| Paging.Paging.ZeroTable | kernel/paging.cpp:181-187 | all 1024 words of the new table are zero, and no other word of memory changed |
| Paging.Paging.CreateTable | kernel/paging.cpp:115-124 | the table comes from the frames left, is empty and named with WRITE and USER, and changes the translation of its window page alone; panics exactly without a frame |
| Paging.Paging.Get | kernel/paging.cpp:103-128 | the entry's address, for pages of the window too; none exactly for an unaligned address or a table missing and not wanted |
| Paging.Paging.Modify | kernel/paging.cpp:130-160 | maps or unmaps exactly the one page, which then has exactly the rights asked for, no other translation but a new table's window page changes, the hint moves as stated, every cached translation is right again, and no word of a frame handed out changes |
| Paging.Paging.IsMapped | kernel/paging.cpp:40-46 | whether the address is a page's and the processor's walk succeeds, for pages of the window too |
| Paging.Paging.AnyMapped | kernel/paging.cpp:48-55 | false exactly when the run is free, or does not start at a page |
| Paging.Paging.FindFree | kernel/paging.cpp:57-68 | the first free run from the start, or from the hint, to the end, none exactly when there is none |
| Paging.Paging.HintedIsFirstFit | kernel/paging.cpp:57-59 | with a sound hint no run starts below it, so the search from it finds what one from page 0 would |
| Paging.Paging.FirstFitMayMove | kernel/paging.cpp:154-155 | when the run found starts right behind the hint, first fit makes the hint's own page mapped |
| Paging.Paging.Map | kernel/paging.cpp:70-72 | one page is mapped with PRESENT added and nothing mapped is lost; an unaligned address is refused |
| Paging.Paging.Unmap | kernel/paging.cpp:86-88 | the page alone is unmapped, and a sound hint stays sound; an unaligned address is refused |
| Paging.Paging.MapRun | kernel/paging.cpp:74-84 | the run is mapped frame by frame exactly when it was free, else nothing is done; a sound hint stays sound |
| PagingBoot.MapPhysical | kernel/paging.cpp:130-160 | mapping by physical address, seen through the directory that is still to name itself: the one page, and only if it was free; fails only without a frame left |
| PagingBoot.IdentityMap | kernel/paging.cpp:162-165 | each page not mapped yet maps itself with the flags asked for, and all other translations are as they were; fails only without a frame left |
| PagingBoot.Init | kernel/paging.cpp:13-34 | exactly the kernel's pages, for writing, and the framebuffer are mapped, to themselves; the hint is sound if and only if the kernel does not end at page 0xb7; fails only without a frame left |
| PagingBoot.MappedToThemselves | kernel/paging.cpp:17-22 | each of these pages is the frame of its own number, none is open to user mode, only the kernel's are for writing, and no other page is mapped |
| VirtualAllocator.LaidIsBacked | kernel/virtualallocator.cpp:62-64 | a run of frames backs the pages one by one, with frames nobody held |
| VirtualAllocator.RollBack | kernel/virtualallocator.cpp:69-73 | the pages mapped so far are free again and no other translation differs from before |
| VirtualAllocator.MapScattered | kernel/virtualallocator.cpp:65-76 | each page gets a frame of its own; a mapped page rolls everything back |
| VirtualAllocator.CreatePhysicalMapping | kernel/virtualallocator.cpp:40-79 | free pages are all backed by frames newly held, with the flags asked for if and only if these are none; for others no translation changes and the answer is true exactly when a run of frames was found |
| VirtualAllocator.GetMappedKernelPages | kernel/virtualallocator.cpp:18-28 | the run is free, the first one from page 0 on when the hint is sound, backed by frames newly held, without the flags asked for; the hint stays sound; nothing else below the window changes |
| MappedPointer.Borrow | kernel/mappedpointer.hpp:19-31 | the frames appear in a row at the first free run from page 0 on, the hint stays sound, and nothing else below the window changes; null only without such a run, or when it is at page 0 |
| MappedPointer.GiveBack | kernel/mappedpointer.hpp:33-37 | the destructor undoes the constructor: every page below the window is translated as before, and the hint stays sound |
| TaskSpace.SpaceSame | kernel/paging.cpp:230-275 | edits outside a task's frames and the kernel's leave its address space exactly as it was |
| TaskSpace.OthersPoke | kernel/paging.cpp:257-272 | an entry changed in a table that is shared leaves every task good whose frame it did not map |
| TaskSpace.NewTable | kernel/paging.cpp:248-255 | a zeroed table, named and recorded, keeps the task good and maps nothing |
| TaskSpace.NewKernelTable | kernel/paging.cpp:115-124 | a zeroed table that the kernel makes in a task's address space keeps the task good and is not the task's |
| TaskSpace.OwnPoke | kernel/paging.cpp:257-272 | an entry changed for a page that no segment in question maps keeps all their pages mapped |
| TaskSpace.RecordRun | kernel/virtualallocator.cpp:43-47 | pushing a segment for frames nobody held keeps the record exact |
| TaskLedger.Partition | kernel/scheduler.cpp:446-470 | frames handed out are the disjoint union of the kernel's and those named by each task's directory and segments, none named twice |
| TaskLedger.HeldOnce | kernel/scheduler.cpp:454-461 | directory and segments name each frame of the task once and no other frame |
| TaskLedger.KernelEdit | kernel/paging.cpp:144-152 | an entry the kernel changes in a table of its own, shared or not, costs no task a page unless it mapped a frame of one |
| TaskLedger.KernelEntry | kernel/paging.cpp:130-160 | an entry the kernel changes in any address space, in a task's own table too, that mapped no frame of a task: all tasks stay as they should be, and in no address space is a page translated differently unless the old entry mapped it |
| TaskLedger.RecordsAreExact | kernel/scheduler.cpp:454-461 | a frame is held by some task if and only if the record of a task names it |
| TaskLedger.KernelTableDonor | kernel/paging.cpp:115-124 | a table that the kernel makes leaves a directory fit for copying |
| TaskLedger.PokeKeeps | kernel/paging.cpp:271 | filling an empty entry, even of a shared table, changes nothing that another task had mapped |
| TaskLedger.PokeLoses | kernel/paging.cpp:264 | clearing an entry for a frame of a task changes, for others, only translations to frames of that task |
| TaskLedger.NewDirectory | kernel/paging.cpp:215-228 | the new directory translates the kernel's part as the one it was copied from and nothing else below the window; it is sound for its task if and only if that one's kernel tables are all the kernel's |
| TaskLedger.KernelIsDonor | kernel/paging.cpp:221-224 | in every state the kernel's own directory has none but tables of the kernel's |
| TaskLedger.TaskIsDonor | kernel/paging.cpp:221-224 | a task's directory may be copied if and only if no table it has in the kernel's part was made for the task itself |
| TaskLedger.BorrowedTable | kernel/paging.cpp:221-224 | copied all the same, it leaves the new task with a table of the other one, which is nobody's once that one is cleaned |
| TaskLedger.GrowsAsDonor | kernel/scheduler.cpp:372-383 | a task that grows above the kernel's part keeps a directory that may be copied |
| TaskLedger.CleanUndoes | kernel/scheduler.cpp:85-158 | a task created, grown and cleaned leaves every holder and the allocator with exactly what it had before |
| TaskMemory.TaskMemory.constructor | kernel/scheduler.cpp:160-163 | with the three kernel tasks and nothing else every frame handed out has its one holder |
| TaskMemory.TaskMemory.MakeTable | kernel/paging.cpp:248-255 | the task gets and records an empty table, named with WRITE and USER; no page of any task is translated differently |
| TaskMemory.TaskMemory.MapPage | kernel/paging.cpp:230-275 | maps the one page with PRESENT added, refuses unaligned addresses, panics only when the page was mapped or for want of a frame; nothing another task had mapped changes, and through a table of its own no other task sees any difference |
| TaskMemory.TaskMemory.UnmapPage | kernel/paging.cpp:230-275 | clears the page's entry, panics only when the page is not mapped, refuses unaligned addresses |
| TaskMemory.TaskMemory.MapPages | kernel/paging.cpp:282-293 | maps the whole segment, or nothing when it is unaligned |
| TaskMemory.TaskMemory.PushRun | kernel/virtualallocator.cpp:42-48 | frames nobody held are recorded before they are mapped |
| TaskMemory.TaskMemory.CreatePhysicalMapping | kernel/virtualallocator.cpp:40-79 | the segments returned cover the pages, in one piece or page by page, hold frames nobody held, are recorded and mapped with the flags asked for and USER; no mapped page of any task moves; panics only when one of the pages was mapped or for want of frames |
| TaskMemory.TaskMemory.Increase | kernel/scheduler.cpp:372-383 | the memory grows by the pages at the old end, each with a frame of the task and open to user mode for reading and writing; no mapped page of any task moves and nobody else gets or loses a frame; panics only when one of the pages was mapped or for want of frames |
| TaskMemory.TaskMemory.MapKernel | kernel/paging.cpp:215-228 | called in any task's address space: the new task sees the kernel's part of it and nothing else, no other task sees a difference, and the new task is as it should be if and only if the current directory may be copied |
| TaskMemory.TaskMemory.KernelTable | kernel/paging.cpp:115-124 | a table the kernel makes in an address space is the kernel's, named with WRITE and USER, maps nothing, concerns no other and is recorded nowhere |
| TaskMemory.TaskMemory.KernelMap | kernel/paging.cpp:70-72 | in any address space the page is mapped with PRESENT added, through a table of the kernel's if there was none; no page mapped before moves anywhere, and the directory stays fit for copying; refused, with nothing changed, exactly for an unaligned address or a mapped page; panics only without a frame |
| TaskMemory.TaskMemory.KernelUnmap | kernel/paging.cpp:86-88 | the page is unmapped, and elsewhere only pages mapped by the same entry can be affected; refused exactly for an unaligned address or a page that is not mapped |
| TaskMemory.TaskMemory.NewKernelTask | kernel/scheduler.cpp:67-83 | the first slot not in use gets the kernel's own directory and holds nothing |
| TaskMemory.TaskMemory.UnmapPages | kernel/scheduler.cpp:455-456 | the cleaner meets no panic, the segment's pages are gone, and the segments still to come stay mapped |
| TaskMemory.TaskMemory.Clean | kernel/scheduler.cpp:450-464 | every frame of the task is given back, each once while it is live, and nobody else loses one; its pages are unmapped, and others lose only translations to its frames |
| TaskMemory.TaskMemory.KernelTake | kernel/physicalallocator.cpp:43-55 | the first run of frames nobody held becomes the kernel's, and every other holder keeps exactly its frames; 0 only without such a run; panics only for want of frames |
| TaskMemory.TaskMemory.NewSlot | kernel/scheduler.cpp:44-54 | the first slot not in use, or a new one, comes into use |
| TaskMemory.TaskMemory.NewDirectory | kernel/scheduler.cpp:90-91 | the first slot not in use gets a directory with the kernel's entries; no other slot, and nothing other tasks had mapped, changes |
| TaskMemory.TaskMemory.Prepare | kernel/scheduler.cpp:90-94 | the same, and a writable user stack of the task's own; panics only for want of frames |
| TaskMemory.TaskMemory.MapStack | kernel/scheduler.cpp:93 | the stack's pages are the task's, with USER and the flags asked for: user mode may read them, and write them exactly when these say so |
| TaskMemory.TaskMemory.LoadSegment | kernel/scheduler.cpp:114-151 | one more segment is readable at its address, by user mode too, and writable exactly when its flags say so; those before it still are, and no byte of a frame held before changes |
| TaskMemory.TaskMemory.LoadAll | kernel/scheduler.cpp:109-151 | all segments are readable, the end is the highest of theirs, and neither others' pages nor any byte held before changes; with segments that lie apart there is no panic but for want of frames |
| TaskMemory.TaskMemory.FreeKernelPages | kernel/virtualallocator.cpp:5-8 | the first free run of the current address space from the hint on; 0 only without one, or for page 0 |
| TaskMemory.TaskMemory.AddKernelStack | kernel/scheduler.cpp:153 | the first free pages of the current address space become pages of the task's own; only without any is nothing mapped |
| TaskMemory.TaskMemory.NewUserTask | kernel/scheduler.cpp:85-158 | in the first slot not in use the new task reads each segment's image at its address through its own tables, in pages of its own that user mode may read, and may write exactly when the segment's flags say so; it has both stacks, the kernel one at the first run free in the current address space, and ends where its last segment ends; no other slot, nothing other tasks had mapped and no byte held before changes; nobody else gets a frame; with no new table in the kernel's part its directory may be copied in turn; with segments that lie apart, above the kernel's part and off the stack, it panics only for want of frames |
| Loader.PaddingInside | kernel/scheduler.cpp:121-124 | the first byte is copied into the mapped frames if and only if the segment starts on a page boundary |
| Loader.PagesAreEnough | kernel/scheduler.cpp:122-123 | the pages of a segment hold its bytes with less than a page to spare |
| Loader.CoversBytes | kernel/scheduler.cpp:121-129 | the pages mapped for a segment are exactly those with a byte of it |
| Loader.EndIsTight | kernel/scheduler.cpp:126-127 | no segment has a byte or a page from the task's end on, and the page before the end is one of a segment's |
| Loader.FlagsOpen | kernel/virtualallocator.cpp:48 | pages mapped with USER added may be read by user mode, and written exactly when the flags asked for say so |
| Loader.Fill | kernel/scheduler.cpp:139-149 | the loop ends within the segments added, fills each with its part of the image and writes no other byte |
| Loader.FilledIsLoaded | kernel/scheduler.cpp:139-149 | scattered or not, the task reads byte i of the image at address start + i |
| Loader.StillLoaded | kernel/scheduler.cpp:129 | mapping more pages does not disturb what was loaded before |
| Loader.FillKeeps | kernel/scheduler.cpp:142-144 | copying into new frames does not disturb what was loaded before |
| Loader.FillKeepsBytes | kernel/scheduler.cpp:142-144 | copying into new frames changes no byte of a frame held before |
| Loader.ImageStays | kernel/scheduler.cpp:85-470 | a task reads its image as long as it keeps its frames, the pages mapped to them and their bytes, whatever becomes of everything else |
| Loader.Image | kernel/scheduler.cpp:131-137 | byte i is the file's below the file size and zero from there on |
| KernelRuns.Serve | kernel/scheduler.cpp:44-470 | any run of creating user and kernel tasks, growing, ticks, blocking, sleeping, waiting, killing, cleaning, taking frames and mapping and unmapping pages for the kernel: each outcome and each state is what its request asks for, every state is sound, and a run that stops early has met a panic, for one of the reasons there are |
| KernelRuns.Boot | kernel/scheduler.cpp:160-209 | when the idle task first runs the kernel is sound, with no user task |
| KernelSteps.CurrentSpace | kernel/scheduler.cpp:67-91 | the current task runs by the directory of its own slot or, if it is a kernel task, of the kernel's; its record tells exactly whether that directory may be copied |
| KernelKeeps.SpawnAgrees | kernel/scheduler.cpp:44-65 | the slot that memory gives a new task is the one the scheduler gives it, and both tables agree afterwards |
| KernelKeeps.CallAgrees | kernel/scheduler.cpp:211-370 | every call, a kill among them, leaves the two tables agreeing on which slots are empty, and never kills the idle task |
| KernelKeeps.StepSound | kernel/scheduler.cpp:85-470 | every request leaves one task RUNNING, the two tables in agreement and each living user task reading the image it was created with |
| KernelKeeps.StepSharing | kernel/paging.cpp:215-228 | every request leaves a directory that may be copied fit for it, unless its task is cleaned or grows in the kernel's part |
| KernelHistory.TablesAreARun | kernel/scheduler.cpp:44-370 | the task tables of a run of the whole kernel are a run of the scheduler, so that all its bounds and guarantees hold there |
| KernelHistory.ImagesHistory | kernel/scheduler.cpp:85-470 | at the end of a run each living user task reads the image of the request that created it, and has read it in every state since |
| KernelHistory.DonorHistory | kernel/paging.cpp:215-228 | along a run a directory stays fit for copying while its task lives and does not grow in the kernel's part |
| TaskTable.SlotIsModulo | kernel/scheduler.cpp:257 | the modular index is the slot i places on, going round |
| TaskTable.NextIsFirst | kernel/scheduler.cpp:255-265 | what is picked is the first candidate going round; the idle task exactly without one |
| SchedulerRuns.StepGood | kernel/scheduler.cpp:211-370 | every operation leaves exactly the current task RUNNING and waits well-formed |
| SchedulerRuns.OneRunning | kernel/scheduler.cpp:211-370 | in every state of every run exactly one task is RUNNING and it is the current one |
| SchedulerRuns.SleepIsExact | kernel/scheduler.cpp:218-222 | a sleeper wakes on exactly the tick that exhausts its timeout, over any run that leaves it alone |
| SchedulerRuns.SleepWakesOnTime | kernel/scheduler.cpp:299-306 | sleep(ms) ends on exactly the ms-th tick, sleep(0) on exactly the 2^32-th |
| SchedulerRuns.NextIsNearer | kernel/scheduler.cpp:255-265 | the search never passes over a ready task |
| SchedulerRuns.StepNearer | kernel/scheduler.cpp:211-274 | each operation dispatches a ready task or leaves it queued with less to wait for |
| SchedulerRuns.QueuedRun | kernel/scheduler.cpp:211-274 | a ready task that has not run has seen fewer switches than its distance and fewer ticks than its bound |
| SchedulerRuns.BoundedWaiting | kernel/scheduler.cpp:211-274 | in a table of N tasks a ready task runs after at most N - 1 switches and (TURNOVER + 1) * QUANTUM * (N - 1) ticks |
| SchedulerRuns.StintIsExact | kernel/scheduler.cpp:224-235 | over any run that leaves it alone the current task keeps the processor for exactly what is left of its (TURNOVER + 1) * QUANTUM ticks, and then gives way to a ready one |
| SchedulerRuns.KillWakesParent | kernel/scheduler.cpp:329-347 | killing the child a parent waits for makes the parent ready or running |
| SchedulerRuns.NoWaitForTheDead | kernel/scheduler.cpp:308-361 | over any run, while a parent waits for a child live when it began, the child is live |
| SchedulerRuns.AnyChildWakes | kernel/scheduler.cpp:314-315 | a wait for any child ends with the next child killed and learns its pid |
| SchedulerRuns.AllChildrenNeverWakes | kernel/scheduler.cpp:317-324 | over any run without a call aimed at it a task that waits for all children keeps waiting, however many die |
| SchedulerRuns.KillWakesNoneOfAll | kernel/scheduler.cpp:329-341 | a kill, even of the last child, leaves such a task exactly as it was |
| SchedulerRuns.AllChildrenWaits | kernel/scheduler.cpp:317-324 | such a wait begins if and only if some slot names the caller as parent |
| SchedulerRuns.KillEndsWait | kernel/scheduler.cpp:329-343 | a kill ends the wait for a pid if and only if it kills a child of the waiting task and the task waited for is dead then |
| SchedulerRuns.ForeignWaitGoesOn | kernel/scheduler.cpp:308-347 | over any run that is not aimed at the waiting task and kills no child of it, its wait for a pid goes on, even when that task is killed |
| SchedulerCalls.BlockHolds | kernel/scheduler.cpp:293-297 | the task is blocked and does not run |
| SchedulerCalls.BlockLasts | kernel/scheduler.cpp:293-297 | over any run without an unblock or another call aimed at it a blocked task stays so and is never current; the cleaner, over any run that kills nobody either |
| SchedulerCalls.UnblockReadies | kernel/scheduler.cpp:363-370 | a task that is blocked or waits becomes READY, an unblock of any other changes nothing, and no other task changes |
| SchedulerCalls.KillHolds | kernel/scheduler.cpp:329-347 | the task killed is dead and does not run |
| SchedulerCalls.KillWakesCleaner | kernel/scheduler.cpp:345 | every kill makes a blocked cleaner ready or running |
| SchedulerCalls.CleanerRuns | kernel/scheduler.cpp:329-347 | after a kill the cleaner is dispatched within N - 1 switches and N - 1 stints, in a table of N tasks |
| SchedulerCalls.WaitBegins | kernel/scheduler.cpp:308-361 | a wait for a task suspends the caller if and only if that task is not dead; otherwise the caller goes on |
| SchedulerCalls.WaitAnyBegins | kernel/scheduler.cpp:314-315 | a wait for any child always suspends the caller |
| SchedulerCalls.WaitUntilKilled | kernel/scheduler.cpp:308-361 | a caller that waits for a live child is suspended over any run that is not aimed at it and does not kill the child, and the kill of the child wakes it |
| SchedulerCalls.WaitUntilAnyKilled | kernel/scheduler.cpp:308-361 | a caller that waits for any child is suspended over any run that is not aimed at it and kills no child of it, and the next kill of one wakes it and tells which |
| SchedulerCalls.SpawnJoins | kernel/scheduler.cpp:44-65 | the first empty slot, or a new one, holds a READY child of the current task that has had no round; every other slot is as it was |
| Scheduler.Scheduler.NextTask | kernel/scheduler.cpp:255-265 | the first candidate going round from the current task |
| Scheduler.Scheduler.SwitchTo | kernel/scheduler.cpp:267-274 | from a table in which no task is RUNNING to one in which exactly the new current task is, with all waits sound; no other task changes |
| Scheduler.Scheduler.Reschedule | kernel/scheduler.cpp:242-253 | a current task that gave way is replaced by the next candidate |
| Scheduler.Scheduler.Tick | kernel/scheduler.cpp:211-236 | sleepers lose a tick; every QUANTUM ticks a round passes; after TURNOVER rounds the task gives way |
| Scheduler.Scheduler.Block | kernel/scheduler.cpp:293-297 | the table the block makes, in which the task is blocked (SchedulerCalls.BlockHolds), with one task RUNNING |
| Scheduler.Scheduler.Sleep | kernel/scheduler.cpp:299-306 | the table the sleep makes, with one task RUNNING |
| Scheduler.Scheduler.Unblock | kernel/scheduler.cpp:363-370 | only a blocked or waiting task becomes ready |
| Scheduler.Scheduler.ShouldWait | kernel/scheduler.cpp:308-327 | the decision for a pid, any child and all children; a panic exactly for what cannot be waited for |
| Scheduler.Scheduler.Kill | kernel/scheduler.cpp:329-347 | the table the kill makes: parent, cleaner and current task updated in order (SchedulerCalls.KillHolds, SchedulerCalls.KillWakesCleaner) |
| Scheduler.Scheduler.Wait | kernel/scheduler.cpp:349-361 | the table the wait makes (SchedulerCalls.WaitBegins, SchedulerCalls.WaitAnyBegins) and the answer when it does not begin; a panic exactly for what cannot be waited for |
| Scheduler.Scheduler.Spawn | kernel/scheduler.cpp:44-65 | the first empty slot, or a new one, becomes a ready child of the current task (SchedulerCalls.SpawnJoins), and its pid is returned |
| Scheduler.Scheduler.Empty | kernel/scheduler.cpp:463 | the slot of a killed task is empty, and the table is good as before |
| Cleaner.Pass | kernel/scheduler.cpp:446-470 | exactly the killed tasks lose their slots and all their frames; every other holder keeps its own, by the same directory, and its pages but those mapped to frames of the killed; both tables are sound again and agree |
| Cleaner.DirectoryTells | kernel/scheduler.cpp:460-461 | a task holds memory if and only if its directory is not the kernel's |
| Cleaner.Bury | kernel/scheduler.cpp:450-464 | one killed task: a kernel task loses only its slot, a user task all its frames too |
| Vector.ConstructMove | stdlib/vector.hpp:297 | elements move into raw cells and leave moved-from ones |
| Vector.MoveBackwards | stdlib/vector.hpp:298 | overlapping ranges move up with no element lost |
| Vector.OpenedValues | stdlib/vector.hpp:286-320 | cells opened at a position hold the old contents with the new values between |
| Vector.Vector.InsertLongTail | stdlib/vector.hpp:296-299 | in place, with the tail longer than the insertion: opened at the position, raw behind |
| Vector.Vector.InsertShortTail | stdlib/vector.hpp:300-305 | in place, with the tail no longer than the insertion: the same |
| Vector.Vector.InsertReallocating | stdlib/vector.hpp:306-317 | in new storage: the same, with every old cell destroyed |
| Vector.Vector.Insert | stdlib/vector.hpp:286-320 | contents s become s[..pos] + values + s[pos..], whichever branch is taken |
| Numerals.FromUnsigned | stdlib/string.hpp:94-105 | the loop builds the positional numeral |
| Numerals.FromSigned | stdlib/string.hpp:107-115 | a sign for negative words, also for -2^31 |
| Numerals.ToInt | stdlib/string.hpp:125-140 | the value of the digits in wrapping 32-bit arithmetic, 0 for anything else |
| Numerals.DigitsDenote | stdlib/string.hpp:94-105 | the numeral denotes the number, in every base from 2 to 36 |
| Numerals.NoLeadingZero | stdlib/string.hpp:94-105 | a numeral starts with 0 if and only if the number is 0 |
| Numerals.NumeralIsTheOne | stdlib/string.hpp:94-105 | the numeral is the only string of digits below the base, without a leading zero, that denotes the number |
| Numerals.SignedDenotes | stdlib/string.hpp:107-115 | a minus sign exactly for negative words, then the canonical numeral of the negation, also for -2^31 |
| Numerals.SignedWord | stdlib/string.hpp:128-139 | the 32-bit result is the one signed number with the same low bits |
| Numerals.UnsignedRoundTrip | stdlib/string.hpp:94-140 | reading back gives the unsigned word if and only if it is below 2^31, and its signed reading always |
| Numerals.SignedRoundTrip | stdlib/string.hpp:107-140 | reading back gives the signed word if and only if it is not negative, and 0 otherwise |

## Left out

- Heap.Heap.Allocate: asks for at most 2^32 - 4112 bytes, the exact range in which the size arithmetic holds; the page supplier is an argument, and the sentinel is assumed to lie below every page obtained.
- E820.SanitizeMap: assumes that base + length does not wrap; detectMemory and the ACPI attribute word are not part of this model.
- E820.TakePoints: assumes the same.
- MemoryHoles.HolesAreExact: is about contiguous regions, as the loops leave them for lists that 32-bit fields can describe; that these are still contiguous after alignment is claimed for regions on page boundaries only.
- PhysicalAllocator.PhysicalAllocator.Init: holes come in address order and, like the kernel, end far enough below 4 GiB for the bitmap; the heap's and the paging code's own calls of `reserve` are not modelled.
- Paging.Paging.FindFree: asks that the run is no longer than the range searched; for longer ones the source's subtraction wraps.
- Paging.Paging.Modify: accessed and dirty bits are not part of this model; nor is a write protection of the kernel itself, which the source leaves off; pages of the window itself are not edited.
- Paging.Paging.Map: pages of the window are not mapped.
- Paging.Paging.Unmap: pages of the window are not unmapped.
- Paging.Paging.MapRun: is for runs of whole pages below the window; from an unaligned address the single-page operation refuses each page.
- PagingBoot.MapPhysical: unmapping by physical address, which the source never asks for, is left out.
- VirtualAllocator.TakeFrames: any run of the frames left may be chosen here; that it is the first one is proved in PhysicalAllocator.
- TaskMemory.TaskMemory.MapPage: the MappedPointer through which tables are reached is assumed to succeed without taking a frame, as it does once its kernel table exists; tables it makes on first use count as the kernel's. The operation neither keeps the kernel's hint nor flushes the translation cache, as in the source.
- TaskMemory.TaskMemory.UnmapPage: the same holds of its temporary mappings.
- TaskMemory.TaskMemory.Prepare: asks that the current directory may be copied; what happens otherwise is said by MapKernel and BorrowedTable.
- TaskMemory.TaskMemory.NewDirectory: the same.
- TaskMemory.TaskMemory.LoadAll: is for page-aligned segments, as LoadSegment is.
- TaskMemory.TaskMemory.KernelMap: pages of the window are not mapped; the hint and the translation cache, which the kernel does keep here, are modelled in Paging, for one directory.
- TaskMemory.TaskMemory.KernelUnmap: the same; pages that map a frame of a task are excluded.
- TaskMemory.TaskMemory.CreatePhysicalMapping: is for pages below the window.
- TaskMemory.TaskMemory.LoadSegment: is for page-aligned segments, the only ones that the loop loads right (PaddingInside).
- Loader.Fill: the same.
- Loader.Image: the content vector's resize and insert are taken together as one concatenation; Vector.Insert is proved apart.
- TaskMemory.TaskMemory.NewUserTask: asks that the current directory may be copied, as Prepare does; the initial register frame on the user stack, names and terminals are left out; table words and data bytes are kept in two views of memory, which is sound because no frame is both (HeldOnce); segments must be page-aligned (PaddingInside) and no shorter in memory than in the file; the image of a segment at address 0 is not claimed, since a segment recorded at 0 is taken for a page table; how many segments a program has is not bounded.
- TaskMemory.TaskMemory.Increase: the new end is assumed to lie below the window; that the pages belong to the task is not claimed at an unaligned end or at address 0.
- MappedPointer.Borrow: the variant at a given virtual address is the MapRun it consists of.
- SchedulerRuns.BoundedWaiting: the table keeps its length, so new tasks take empty slots; the tick counter is an unbounded integer.
- SchedulerRuns.StepGood: killing an empty or killed slot, the idle task or the cleaner, and waiting on behalf of another task, are excluded; each call is one atomic step.
- Scheduler.Scheduler.Wait: what is returned when the task runs again is read later; waiting for a pid past the table is excluded.
- Cleaner.Pass: the table is not changed by others during the pass; clearing the terminal of a killed task is left out.
- KernelRuns.Serve: each request is one atomic step, and so is a pass of the cleaner; a user task is created only where the current directory may be copied; unmapping a page that maps a frame of a task, as the temporary mappings inside an operation do, is no request of its own; pages of the window are not mapped; for a program whose segments overlap, or reach into the kernel's part, the reason of a panic is not stated.
- Vector.Vector.Insert: the inserted range does not alias the vector; emplace, resize, assign and reserve are left out.
- Numerals.ToInt: a String is its characters; the small-buffer layout is left out.
- Interleavings within a call, interrupts, context switches, port I/O, descriptor tables, terminals, the keyboard, the shell, files and the sysfs are hardware plumbing or user interface and are left out.
