# Verification of the 0x3c0 microkernel's memory management

A Dafny 4.11 model of the kernel's memory management and of a few small algorithms around it,
with proofs. `dafny verify dfyconfig.toml` checks everything.

## What is modelled

* **The kernel heap** (the liballoc port). A heap is a list of page runs ("majors"), each with an
  address-ordered list of blocks ("minors"). `KernelHeap.Heap` has the source's fields and works on linked
  header records in memory, with the best-bet hint, the restart, the five placement cases, and bytes under
  everything. `HeapSpec` says on plain values what each call does; the class is proved against it, and
  `HeapTheorems`, `HeapSizes`, `HeapEffects`, `HeapRuns` and `HeapHistory` prove what callers rely on, for
  single calls and for every sequence of calls; `HeapSteps` shows the methods to be the steps of these
  sequences. `HeapLayout`, `HeapInvariants`, `HeapHeaders`, `HeapBytes`, `HeapRep` and `HeapSupport` hold
  the layers in between; `HeapClients` has a few short callers.
* **The page map** (`PageMap`): the directory and the window of page tables that the recursive mapping
  shows, written in place; over whole runs it agrees with a flat map from pages to entries. `HeapPages`
  and `HeapFrames` say what the heap's page loops do to it and to the frames.
* **The frame bitmap** (`FrameBitmap`), from which both take frames.
* **Message-thread ids** (`ThreadIds`), **number printing** (`Numerals`), and the
  **multiply-with-carry generator** (`Multiply`).

## How to read the model

* Machine: LP64, as `LinkScript.ld` has it, so both heap headers are 40 bytes. Addresses are integers and
  0 is NULL. 32-bit and 64-bit wrap-around is written out where it can happen.
* Heap memory has two views. Header records live in two maps keyed by address; bytes live in an array. A header
  write leaves the 40 bytes under it unspecified, so "keeps its bytes" is proved against any header
  encoding. A page that is mapped or unmapped loses the bytes and the header records it held. A freed header
  stays readable, marked dead, until its bytes are handed out again or its page goes.
* A heap is valid when its headers represent the list of runs and every page of every run is mapped; so in a valid
  heap every byte of every live block can be read. Heaps begin on a page boundary, as both callers have them
  (`Include/Multitasking/MemoryMap.h`).
* `avail` is the number of pages the page source can still map at a call: the heap's outside world. `HeapPages.MapRun`
  says what that number comes from, tables included.
* Where the code and its purpose differ, the code is kept, a lemma shows what goes wrong, and another says
  exactly when it does not: the unmapping loop of `liballoc_free` runs one page too high and takes the first
  page of a run right behind, header and all (`FreeBlockOkIff`, `DropOutcome`, `CutsNeighbourHappens`,
  `GrowthCutsIff`, `LastBlockGrowthBreaksIff`, `FreeCutsNeighbour`, `UnmapRun`), and past a heap's last run it
  gives frame 0 back (`FreeThenMap`, `FreeLeadsToRefusal`); `Reallocate` does not test the inner allocation
  (`GrowReplaces`); `allocate_new_page` takes a 32-bit size, and the run it gives is used without another look
  (`FreshFits`, `AllocateOkIff`, `OversizeHappens`); `MapMemory` does not clear a new table
  (`MapKeepsOthersIff`); `setBit` divides by 32 and the search passes over 0xFFFFFFFF (`WrittenRepeatsIff`,
  `WrittenFindsLowestIff`), and 1 << 31 is negative (`WrittenClearsOneIff`); `CreateNumeric` reverses from its
  last character and has a 12-byte buffer (`ReturnedDenotesIff`, `BufferSufficesIff`); `getNextMTID` reads the
  list after shrinking it (`NextKeepsPartitionIff`) and `preMain` leaves its first slot unset
  (`StartIsPartitionIff`).
* Repairs, each a parameter or a named member beside the code as written: `PageAllocator` with `written == false`
  uses one word width of 64 and passes over words of ones, and the page map builds on that;
  `CreateNumericWhole` reverses from the start of the buffer. The runs of `PageMap` give new tables zero-filled frames.
* The four cases that place a block end with the same lines in the source; those lines are one method here
  (`Finish`), and the two places that go on to the next run share `NextRun`.
* Masks and or-operations on page addresses are written as remainders and sums; `PageMap.MasksAreArithmetic`
  gives the bit-vector identities.

## Model

| member | source | states |
|---|---|---|
| `HeapRuns.EveryRun` | Source/MemoryAllocation/AllocateMemory.cpp:244-690 | along every sequence of Allocate, Free and Reallocate calls on a new heap, the heap is well formed, with all its runs mapped, at every point up to t if and only if no call until then gave up a run right in front of another or got pages for a request beyond 32 bits, each told from the heap before the call; until then the pointers callers hold are exactly those of the live blocks, and the bytes in runs fit in heapEnd - heapStart, which fits in the heap's range |
| `HeapRuns.EveryRunKeepsBlocksApart` | Source/MemoryAllocation/AllocateMemory.cpp:244-690 | at every point of every run until such a call, two callers' requested bytes never meet, lie inside the heap, and begin at a multiple of four |
| `HeapRuns.CallKeepsIff` | Source/MemoryAllocation/AllocateMemory.cpp:244-690 | one call, whichever it is and however it ends, keeps the heap well formed if and only if it is no such call, and keeps the held pointers equal to the live ones |
| `HeapRuns.CutsNeighbourHappens` | Source/MemoryAllocation/AllocateMemory.cpp:158-173 | two allocations and a free after which the heap is not well formed: the live run's first page is gone |
| `HeapRuns.LastBlockGrowthBreaksIff` | Source/MemoryAllocation/AllocateMemory.cpp:597-604 | growing the only block of a run that ends the heap breaks the heap, at the new block's own first page, if and only if the new block needs a new run and gets one |
| `HeapRuns.OversizeHappens` | Source/MemoryAllocation/AllocateMemory.cpp:175-199 | a first request of 2^32 - 1 bytes gets 16 pages and leaves the heap ill formed |
| `HeapHistory.ContentsSurvive` | Source/MemoryAllocation/AllocateMemory.cpp:244-690 | along every run of calls and of callers' writes, until a call breaks the heap: a byte of a block keeps its value until its caller writes it, frees the block, or shrinks it below that byte, through all else that happens and every reallocation of the block itself |
| `HeapHistory.EveryHistory` | Source/MemoryAllocation/AllocateMemory.cpp:244-690 | at every point of such a run the heap is well formed and the pointers callers hold are those of the live blocks |
| `HeapSteps.AllocateStep` | Source/MemoryAllocation/AllocateMemory.cpp:244-526 | Allocate on the headers and bytes in memory is an event of these runs |
| `HeapSteps.FreeStep` | Source/MemoryAllocation/AllocateMemory.cpp:607-690 | so is Free of a live block |
| `HeapSteps.FreeOtherStep` | Source/MemoryAllocation/AllocateMemory.cpp:607-646 | so is Free of a null pointer or of one whose header has lost the magic number |
| `HeapSteps.ReallocateStep` | Source/MemoryAllocation/AllocateMemory.cpp:542-605 | so is Reallocate of a live block, unless its inner allocation leaves the heap ill formed |
| `HeapSteps.WriteStep` | Source/MemoryAllocation/AllocateMemory.cpp:348-367 | so is a caller's write through the pointer of its live block |
| `HeapEffects.FreshPagesLeast` | Source/MemoryAllocation/AllocateMemory.cpp:175-193 | a new run gets the least number of 4096-byte pages, 16 at least, that hold the padded size and both 40-byte headers as 32 bits count them |
| `HeapEffects.AllocateEffect` | Source/MemoryAllocation/AllocateMemory.cpp:244-526 | what an allocation within 32 bits changes, field by field and in numbers: a block of req + 6 bytes right behind the block or run header before the first gap of req + 46 bytes on the walk; else nothing but a warning when the least number of pages goes beyond heapMax; else, with fewer frames than pages, those mapped, heapEnd behind them and a warning; else a run of that many pages at heapEnd with the block behind its header |
| `HeapEffects.BestBetAfterAllocate` | Source/MemoryAllocation/AllocateMemory.cpp:290-316 | the best bet after an allocation is the first with the most free bytes of the old one and the runs looked at, in the order of the walk; a run taken is looked at only when the last one had enough free bytes, or it is the heap's first |
| `HeapEffects.PointerIs` | Source/MemoryAllocation/AllocateMemory.cpp:57-71 | the pointer is the first multiple of four with two bytes between it and the 40-byte header |
| `HeapEffects.FreeEffect` | Source/MemoryAllocation/AllocateMemory.cpp:648-682 | what a free changes, field by field: the block, its bytes in use, and the best bet, by comparing free bytes as ints; or the whole run with its size, the end of the heap, the best bet when it was the run, and the pages from the second to the one past the end |
| `HeapEffects.BestBetAfterFree` | Source/MemoryAllocation/AllocateMemory.cpp:677-682 | in a heap of at most 2 GiB, the best bet after a free that leaves its run in use is the old one or that run, whichever has more free bytes, and the old one in a tie |
| `HeapEffects.ShrinkRecords` | Source/MemoryAllocation/AllocateMemory.cpp:588-595 | Reallocate to a size that is there keeps the pointer, records the size, and changes nothing else |
| `HeapEffects.ShrinkIsKept` | Source/MemoryAllocation/AllocateMemory.cpp:588-604 | after a shrink to s, a reallocation to more than s never comes back with the same pointer, whatever was asked for first |
| `HeapEffects.ZeroIsFree` | Source/MemoryAllocation/AllocateMemory.cpp:548-553 | a reallocation to nothing frees the block and answers NULL |
| `HeapEffects.RejectedCounts` | Source/MemoryAllocation/AllocateMemory.cpp:629-641 | a header without the magic number 0xc001c0de counts an error, and an overrun if and only if its lowest byte is 0xde |
| `HeapEffects.WrappedIsOneByte` | Source/MemoryAllocation/AllocateMemory.cpp:261-276 | the request of 2^64 - 6 bytes counts a warning and is served as one byte |
| `HeapEffects.OversizeEffect` | Source/MemoryAllocation/AllocateMemory.cpp:350-367 | a block beyond 32 bits that is placed is recorded with what is left of its sizes, and l_inuse is charged for all of it |
| `HeapSizes.AllocateOutcome` | Source/MemoryAllocation/AllocateMemory.cpp:244-526 | an allocation uses an existing gap whenever one fits, in the first such run on its way; else it is refused exactly when the page source refuses; else it heads a new last run at heapEnd; a request beyond 32 bits never finds a gap, and when not refused is placed in a new run it does not fit, in an ill-formed heap; nothing else changes but the best bet |
| `HeapSizes.AllocateAdds` | Source/MemoryAllocation/AllocateMemory.cpp:244-526 | success adds one live block at the pointer returned, apart from all others, and its padded size to l_inuse; NULL changes no live block and means nothing fits and the pages are refused, in a heap without runs perhaps the second time |
| `HeapTheorems.SearchFinds` | Source/MemoryAllocation/AllocateMemory.cpp:306-519 | the walk ends at the first run on its way with a large enough gap, and comes back empty only when no run it had to visit has one |
| `HeapTheorems.StartDoesNotMatter` | Source/MemoryAllocation/AllocateMemory.cpp:294-305 | starting at the best bet never changes whether a gap is found, and one is found exactly when some front, middle or tail gap of some run is large enough |
| `HeapTheorems.FreeRemoves` | Source/MemoryAllocation/AllocateMemory.cpp:607-690 | Free takes exactly its block out of the live blocks and its size out of l_inuse |
| `HeapSizes.FreeUndoesAllocate` | Source/MemoryAllocation/AllocateMemory.cpp:244-690 | freeing a block just allocated cuts off no run; it restores the runs, l_allocated and heapEnd if and only if the request is within 32 bits or the heap had a run, and l_inuse if and only if the padded size is within 32 bits |
| `HeapTheorems.LiveApart` | Source/MemoryAllocation/AllocateMemory.cpp:350-489 | two live blocks, headers included, share no byte |
| `HeapTheorems.ShrinkReplaces` | Source/MemoryAllocation/AllocateMemory.cpp:588-595 | shrinking keeps the pointer and every other block; only the recorded request changes |
| `HeapSizes.GrowReplaces` | Source/MemoryAllocation/AllocateMemory.cpp:597-604 | growing goes through a null pointer if and only if the inner allocation is refused and there is something to copy; else the old block goes, and within 32 bits a fresh one takes its place; the heap stays well formed if and only if the heap before is not one of those that break |
| `HeapTheorems.GrowthCutsIff` | Source/MemoryAllocation/AllocateMemory.cpp:597-604 | whether giving the old block back cuts off a run, told from the heap before: the block is alone in its run, the new one does not go beside it, the copy does not fail, and a run follows or the new block's own will |
| `HeapTheorems.AllocateOkIff` | Source/MemoryAllocation/AllocateMemory.cpp:175-199 | an allocation of any size up to the 64-bit wrap-around keeps the heap well formed if and only if the request fits 32 bits, or is the one served as one byte, or is refused the pages left of it in 32-bit arithmetic |
| `HeapTheorems.OversizeOutcome` | Source/MemoryAllocation/AllocateMemory.cpp:318-373 | a request beyond 32 bits finds no gap; refused, it changes no run; otherwise it is placed blindly in a new last run, or leaves an empty first run, in an ill-formed heap |
| `HeapSizes.OversizeGrowth` | Source/MemoryAllocation/AllocateMemory.cpp:597-604 | a growth beyond 32 bits that gets its pages leaves the heap ill formed, also once the old block is freed |
| `HeapInvariants.FreeBlockOkIff` | Source/MemoryAllocation/AllocateMemory.cpp:158-173 | a free leaves the heap well formed, every remaining run mapped, if and only if it does not give up a run right in front of another |
| `HeapSupport.DropOutcome` | Source/MemoryAllocation/AllocateMemory.cpp:158-173 | after a run is given up the headers represent the other runs if and only if none begins where it ended; one that does has lost its header and first page; no byte that can still be read has changed |
| `HeapRep.RunsReadable` | Source/MemoryAllocation/AllocateMemory.cpp:137-156 | in a well-formed heap every byte of every run lies in a mapped page |
| `HeapTheorems.FirstPageLeaks` | Source/MemoryAllocation/AllocateMemory.cpp:163 | the first page of a run that is given up stays mapped |
| `HeapLayout.FreeIsGapSum` | Source/MemoryAllocation/AllocateMemory.cpp:308-309 | size - usage of a run is the total of its gaps |
| `HeapLayout.SkipIsSound` | Source/MemoryAllocation/AllocateMemory.cpp:321-328 | no gap exceeds size - usage, so skipping a run for that reason loses no gap and no difference underflows |
| `HeapLayout.PointerFits` | Source/MemoryAllocation/AllocateMemory.cpp:57-71 | the pointer is a multiple of four, and offset and requested bytes fit in the padded size |
| `HeapBytes.OffsetRead` | Source/MemoryAllocation/AllocateMemory.cpp:73-81 | an offset word of up to five is taken back from the pointer, a larger one is not |
| `HeapBytes.UnalignFindsHeader` | Source/MemoryAllocation/AllocateMemory.cpp:73-81 | the stored offset leads from the pointer back to the block's header |
| `HeapInvariants.FreshFits` | Source/MemoryAllocation/AllocateMemory.cpp:175-193 | a new run has room for the request it was taken for if and only if size plus both headers stays below 2^32 |
| `HeapInvariants.TotalSizeFits` | Source/MemoryAllocation/AllocateMemory.cpp:202-208 | disjoint runs hold no more bytes than the range they lie in |
| `HeapHeaders.PlacedAgrees` | Source/MemoryAllocation/AllocateMemory.cpp:350-489 | after the header writes of a placement, the linked minors are the old ones with the block at its place, and only live blocks carry the magic number |
| `HeapHeaders.UnlinkedAgrees` | Source/MemoryAllocation/AllocateMemory.cpp:653-658 | after the header writes of a free, the linked minors are the old ones without the block |
| `HeapHeaders.UnlinkMajorAgrees` | Source/MemoryAllocation/AllocateMemory.cpp:669-670 | after unlinking a major, the linked majors are the old ones without it |
| `HeapHeaders.AppendAgrees` | Source/MemoryAllocation/AllocateMemory.cpp:339-341 | after linking a new major, the linked majors are the old ones with it at the end |
| `HeapBytes.NewBlockApart` | Source/MemoryAllocation/AllocateMemory.cpp:352-367 | everything written for a new block lies in the gap, away from every live block's bytes |
| `HeapRep.PayloadRep` | Source/MemoryAllocation/AllocateMemory.cpp:348-367 | bytes written through a live pointer disturb nothing the heap relies on and no other block |
| `HeapSpec.FirstGap` | Source/MemoryAllocation/AllocateMemory.cpp:374-492 | the gap taken inside a run is the first one, by address, that is large enough |
| `KernelHeap.Heap.constructor` | Source/MemoryAllocation/AllocateMemory.cpp:212-225 | a new heap is empty at its start address, with all counters zero |
| `KernelHeap.Heap.Align` | Source/MemoryAllocation/AllocateMemory.cpp:57-71 | returns the block's aligned pointer, stores the offset before it, and writes inside the block only |
| `KernelHeap.Heap.LiballocAlloc` | Source/MemoryAllocation/AllocateMemory.cpp:137-156 | maps exactly the n pages from heapEnd on, or as many as the page source gives, or none beyond heapMax; what was at those addresses is gone |
| `KernelHeap.Heap.LiballocFree` | Source/MemoryAllocation/AllocateMemory.cpp:158-173 | unmaps the pages (p, p + n pages], whose bytes and headers are gone, and moves heapEnd back exactly when the block was last |
| `KernelHeap.Heap.AllocateNewPage` | Source/MemoryAllocation/AllocateMemory.cpp:175-210 | takes a run as specified, writes its header, counts it, and leaves every live byte alone |
| `KernelHeap.Heap.NewNext` | Source/MemoryAllocation/AllocateMemory.cpp:338-342 | appends a new run to the list, or reports that there is none |
| `KernelHeap.Heap.PlaceFirst` | Source/MemoryAllocation/AllocateMemory.cpp:349-373 | puts the first block into an empty run without a look at the run's size, in 32-bit header fields; when it fits the heap is as for any other gap; every live block keeps its bytes |
| `KernelHeap.Heap.PlaceFront` | Source/MemoryAllocation/AllocateMemory.cpp:378-405 | puts a block before the first one; every live block keeps its bytes |
| `KernelHeap.Heap.PlaceTail` | Source/MemoryAllocation/AllocateMemory.cpp:418-451 | puts a block behind the last one; every live block keeps its bytes |
| `KernelHeap.Heap.PlaceBetween` | Source/MemoryAllocation/AllocateMemory.cpp:454-489 | puts a block between two others; every live block keeps its bytes |
| `KernelHeap.Heap.TryBehindBlocks` | Source/MemoryAllocation/AllocateMemory.cpp:412-492 | finds the first large enough gap behind a block, and answers 0, changing nothing, exactly when the run has none |
| `KernelHeap.Heap.TryRun` | Source/MemoryAllocation/AllocateMemory.cpp:349-492 | places the block in the run's first large enough gap, or answers 0 exactly when it has none |
| `KernelHeap.Heap.LookAt` | Source/MemoryAllocation/AllocateMemory.cpp:308-316 | the run becomes the best bet exactly when it has more free bytes than the best so far |
| `KernelHeap.Heap.StartWalk` | Source/MemoryAllocation/AllocateMemory.cpp:290-305 | starts at the best bet exactly when its free bytes exceed size plus a header |
| `KernelHeap.Heap.NextRun` | Source/MemoryAllocation/AllocateMemory.cpp:325-341 | the next run, else the root once more after a start at the best bet, else a new run; 0 when there is none |
| `KernelHeap.Heap.Walk` | Source/MemoryAllocation/AllocateMemory.cpp:306-519 | the loop over the runs terminates and comes to the specified heap and pointer, for every size |
| `KernelHeap.Heap.AllocateSized` | Source/MemoryAllocation/AllocateMemory.cpp:261-526 | the heap and the pointer are as specified; it stays valid if and only if the request fits 32 bits or is refused its pages; every live block keeps its bytes |
| `KernelHeap.Heap.Allocate` | Source/MemoryAllocation/AllocateMemory.cpp:244-276 | the same, with the request that wraps to size zero served as one byte |
| `KernelHeap.Heap.UnlinkBlock` | Source/MemoryAllocation/AllocateMemory.cpp:648-660 | takes the block out of its list and counters and marks its header dead |
| `KernelHeap.Heap.DropMajor` | Source/MemoryAllocation/AllocateMemory.cpp:665-672 | gives an empty run up: root, best bet, links, l_allocated, pages; the rest of its first page keeps its bytes; the headers represent the result if and only if no run begins where it ended, and one that does has lost its header |
| `KernelHeap.Heap.Rebet` | Source/MemoryAllocation/AllocateMemory.cpp:677-682 | the run becomes the best bet when, as signed 32-bit numbers, it has more free bytes |
| `KernelHeap.Heap.NotOurs` | Source/MemoryAllocation/AllocateMemory.cpp:629-641 | a header without the magic number counts an error, and an overrun when low bytes match |
| `KernelHeap.Heap.Free` | Source/MemoryAllocation/AllocateMemory.cpp:607-690 | null, dead and live pointers each change the heap exactly as specified; it stays valid if and only if the free gives up no run right in front of another, whose header would be gone; no byte of a remaining block that can still be read changes, and in a valid heap all can |
| `KernelHeap.Heap.Memcpy` | Source/MemoryAllocation/AllocateMemory.cpp:101-124 | copies the n bytes, words first, and writes nothing else |
| `KernelHeap.Heap.MoveBlock` | Source/MemoryAllocation/AllocateMemory.cpp:599-604 | allocate, copy, free: the heap stays valid if and only if the free cuts off no run, and then the new block holds the old contents and every other live block keeps its bytes |
| `KernelHeap.Heap.Shrink` | Source/MemoryAllocation/AllocateMemory.cpp:588-595 | only the recorded request changes |
| `KernelHeap.Heap.Reallocate` | Source/MemoryAllocation/AllocateMemory.cpp:542-605 | in every case the heap and the pointer are as specified; it stays valid if and only if no run is cut off, and then the contents are as specified and every other live block keeps its bytes |
| `HeapSupport.LargeNeverMoves` | Source/MemoryAllocation/AllocateMemory.cpp:546-603 | a block whose recorded request reads as a negative int is never copied: no heap has room for a second one of that size |
| `HeapClients.WriteThenGrow` | Source/MemoryAllocation/AllocateMemory.cpp:588-604 | a byte written through a pointer is found at the same place behind the pointer of the grown block, and all other blocks keep theirs, whenever the heap is still valid, which is told from the heap before |
| `HeapClients.FreeTwice` | Source/MemoryAllocation/AllocateMemory.cpp:629-646 | a second free of a block only counts an error when the block's run is still there, or when the block lay in the first page of a run given up, which stays mapped |
| `HeapClients.AllocateThenFree` | Source/MemoryAllocation/AllocateMemory.cpp:244-690 | on the headers themselves, an allocation undone at once leaves root, runs, counters, heapEnd and all live bytes as before, unless it is one beyond 32 bits that gets pages |
| `HeapClients.FreeCutsNeighbour` | Source/MemoryAllocation/AllocateMemory.cpp:607-672 | two allocations and a free after which l_memRoot points to a header that is gone, in a page that is not mapped, while the second caller still holds its pointer |
| `HeapPages.MapOne` | Source/MemoryAllocation/AllocateMemory.cpp:145-153 | one round maps exactly its page to the frame it took; it maps nothing if and only if no frame is left or frame 0 heads the zone and is clear, and halts if and only if the last frame went to the page and its table has none |
| `HeapPages.DemandIs` | Source/MemoryAllocation/AllocateMemory.cpp:145-153 | the frames that mapping k pages takes are one for each page and one for each table missing |
| `HeapPages.MapRun` | Source/MemoryAllocation/AllocateMemory.cpp:145-153 | the whole loop, over pages mapped before or not, maps its n pages if and only if frame 0 is not a clear frame at the head of the zone and there are frames for the pages and the tables they lack; with frame 0 clear there it is refused at once, whatever is left; otherwise it maps as many as there are frames for, and halts if and only if one is left over; pages and tables that had frames of their own, marked in use, still do |
| `HeapPages.FreeThenMap` | Source/MemoryAllocation/AllocateMemory.cpp:137-169 | a run freed and taken again: when the zone begins at frame 0 and the page past the run was not mapped, the free has given frame 0 back and the allocation is refused at once, with frames left; otherwise it is refused only when no frame is |
| `HeapPages.FreeLeadsToRefusal` | Source/MemoryAllocation/AllocateMemory.cpp:137-169 | such a refusal, reached from an empty directory by mapping a run and freeing it |
| `HeapPages.UnmapOne` | Source/MemoryAllocation/AllocateMemory.cpp:163-169 | one round unmaps exactly its page and gives back exactly its frame, that of its table when that goes, and frame 0 for a page not mapped |
| `HeapPages.UnmapRun` | Source/MemoryAllocation/AllocateMemory.cpp:158-169 | freeing n mapped pages faults if and only if the page past the end has no table; else it unmaps (first, first + n], and gives back exactly the frames behind the mapped ones, those of the tables that go, and reserved frame 0 if and only if the page past the end is not mapped; pages and tables keep frames of their own |
| `HeapFrames.RoundKeepsApart` | Source/MemoryAllocation/AllocateMemory.cpp:145-153 | a page mapped, anew or not, to the next free frame, with the one after it for a new table, shares no frame with any page or table |
| `HeapFrames.RemapLosesFrame` | Source/MemoryAllocation/AllocateMemory.cpp:145-163 | the frame that a page mapped anew had before, as a given-up run's first page has, is lost: marked in use, and no page's or table's |
| `HeapFrames.UnmapKeepsApart` | Source/MemoryAllocation/AllocateMemory.cpp:163-169 | a round of the freeing loop gives back no frame that another page or table has |
| `FrameBitmap.BitsOfWords` | Source/MemoryAllocation/PhysicalAllocator.cpp:22-27 | frame n is bit n % 64 of word n / 64 |
| `FrameBitmap.MarkSetsOne` | Source/MemoryAllocation/PhysicalAllocator.cpp:29-32 | with one word width, setBit sets its bit and no other |
| `FrameBitmap.UnmarkClearsOne` | Source/MemoryAllocation/PhysicalAllocator.cpp:34-37 | clearBit clears its bit and no other |
| `FrameBitmap.WrittenMarkSeenIff` | Source/MemoryAllocation/PhysicalAllocator.cpp:22-32 | as written, with the sign of 1 << 31, testBit sees what setBit set if and only if the frame number is below 32 |
| `FrameBitmap.WrittenMarkSets` | Source/MemoryAllocation/PhysicalAllocator.cpp:29-32 | as written, setBit sets bit n % 32 of word n / 32, with n % 32 of 31 all above it too, and no other |
| `FrameBitmap.WrittenClears` | Source/MemoryAllocation/PhysicalAllocator.cpp:34-37 | as written, clearBit clears bit n % 64 of word n / 64, with n % 64 of 31 all above it too, and no other |
| `FrameBitmap.WrittenTestSees` | Source/MemoryAllocation/PhysicalAllocator.cpp:22-27 | as written, testBit looks at bit n % 64 of word n / 64, with n % 64 of 31 at all above it too |
| `FrameBitmap.SearchIs` | Source/MemoryAllocation/PhysicalAllocator.cpp:39-52 | the search, as written or not, finds the lowest bit that testBit finds clear in a word not passed over |
| `FrameBitmap.WrittenClearsOneIff` | Source/MemoryAllocation/PhysicalAllocator.cpp:34-37 | as written, clearBit clears no other bit if and only if its bit is not the 31st of its word or the upper half is clear |
| `FrameBitmap.FindsLowest` | Source/MemoryAllocation/PhysicalAllocator.cpp:39-52 | with a word of ones passed over, the search finds the zone's lowest clear bit, or 0 when the zone is full |
| `FrameBitmap.WrittenFindsLowestIff` | Source/MemoryAllocation/PhysicalAllocator.cpp:39-52 | as written, it finds the lowest clear bit if and only if that bit's word is not 0xFFFFFFFF, and the bit is not the 31st of a word with bits above |
| `FrameBitmap.WrittenRepeatsIff` | Source/MemoryAllocation/PhysicalAllocator.cpp:152-160 | as written, a second allocation returns the first one's frame if and only if the zone does not begin at frame 0 or testBit finds its first 32 frames in use |
| `FrameBitmap.TakesOneFrame` | Source/MemoryAllocation/PhysicalAllocator.cpp:152-160 | unless the zone begins at frame 0 and that is clear, an allocation takes exactly one clear frame out of the zone, and none if and only if there is none |
| `FrameBitmap.ZeroMeansFullIff` | Source/MemoryAllocation/PhysicalAllocator.cpp:147-160 | answer 0 means a full zone, unless the zone begins at frame 0 and that frame is clear |
| `FrameBitmap.AllocateAccounts` | Source/MemoryAllocation/PhysicalAllocator.cpp:152-160 | an allocation hands out the lowest clear frame, which is neither reserved nor out, and answers 0 exactly for a full zone |
| `FrameBitmap.FreeAccounts` | Source/MemoryAllocation/PhysicalAllocator.cpp:172-181 | giving back a frame that is out clears exactly its bit |
| `FrameBitmap.FramesAlwaysAccounted` | Source/MemoryAllocation/PhysicalAllocator.cpp:152-181 | along every run the set bits are exactly the reserved and outstanding frames |
| `FrameBitmap.PageAllocator.TakeStep` | Source/MemoryAllocation/PhysicalAllocator.cpp:152-160 | AllocatePage, in the DMA zone or the other, is a step of these runs |
| `FrameBitmap.PageAllocator.GiveStep` | Source/MemoryAllocation/PhysicalAllocator.cpp:172-181 | so is FreePage of a frame that is out |
| `FrameBitmap.PageAllocator.SetBit` | Source/MemoryAllocation/PhysicalAllocator.cpp:29-32 | the bitmap after setBit, for the width as written, with the sign of 1 << 31, and for 64 |
| `FrameBitmap.PageAllocator.FirstFreeBit` | Source/MemoryAllocation/PhysicalAllocator.cpp:39-52 | the nested loops find what the specified search finds |
| `FrameBitmap.PageAllocator.AllocatePage` | Source/MemoryAllocation/PhysicalAllocator.cpp:152-160 | the address of the bit found, which is then set; bit 0 when none is found |
| `FrameBitmap.PageAllocator.FreePage` | Source/MemoryAllocation/PhysicalAllocator.cpp:172-181 | clears the frame's bit, for frame 31 of a word as written the upper half too, or refuses an unaligned address |
| `PageMap.PageBaseIs` | Source/Multitasking/Paging.cpp:140-141 | masking leaves bits 12 to 31 of an address |
| `PageMap.Entry` | Source/Multitasking/Paging.cpp:140-142 | the entry's upper part is the masked address, its lower twelve bits the flags with Present |
| `PageMap.MapReadsBack` | Source/Multitasking/Paging.cpp:155-170 | a mapped page reads back as the entry written |
| `PageMap.MapKeepsOthersIff` | Source/Multitasking/Paging.cpp:155-170 | mapping leaves all other pages as they were if and only if the table was there or its new frame is zero elsewhere |
| `PageMap.EraseClearsOne` | Source/Multitasking/Paging.cpp:178-201 | erasing unmaps its page and no other, whether or not the table goes |
| `PageMap.MapKeepsTight` | Source/Multitasking/Paging.cpp:155-170 | mapping keeps: a directory entry is in use exactly when its table has an entry |
| `PageMap.EraseKeepsTight` | Source/Multitasking/Paging.cpp:188-200 | erasing keeps the same |
| `PageMap.MapKeepsOwns` | Source/Multitasking/Paging.cpp:155-166 | a table created with a frame not handed out keeps every table's frame its own |
| `PageMap.EraseKeepsOwns` | Source/Multitasking/Paging.cpp:198-200 | a frame goes back exactly when its table goes, and it is that table's frame |
| `PageMap.TableFramesCounted` | Source/Multitasking/Paging.cpp:155-200 | as many frames are held for tables as directory entries are in use |
| `PageMap.StepKeeps` | Source/Multitasking/Paging.cpp:138-201 | one call keeps tables, directory entries, frames and bitmap in order and the page map in step with the flat map |
| `PageMap.EveryRunShowsFlatMap` | Source/Multitasking/Paging.cpp:138-228 | along every run from an empty directory, lookups agree with the flat map of the calls made, and table frames are the directory entries in use |
| `PageMap.NewTableEntry` | Source/Multitasking/Paging.cpp:155-166 | a new table's directory entry is its frame's address with present, writable and user bits, 7 together |
| `PageMap.EveryRunTranslates` | Source/Multitasking/Paging.cpp:138-228 | along every run, a processor that asks for the present bit at both levels finds exactly the pages of the flat map, and lets a write and a user process through as the page's own flags say |
| `PageMap.Virtual.MapMemory` | Source/Multitasking/Paging.cpp:138-171 | the mapping as specified, with the next free frame for a new table; halts exactly when there is none |
| `PageMap.Virtual.EraseMapping` | Source/Multitasking/Paging.cpp:178-201 | the erasing as specified, faulting exactly where no table is; the 1024-entry scan decides whether the table goes |
| `PageMap.Virtual.RetrieveMapping` | Source/Multitasking/Paging.cpp:204-228 | the mapped address with the offset, and the flags; 0 and 0 for a page not mapped |
| `PageMap.MapThenRetrieve` | Source/Multitasking/Paging.cpp:138-228 | after a mapping, any address in the page gives the masked frame address plus its offset, and the masked flags with Present |
| `PageMap.MapIsStep` | Source/Multitasking/Paging.cpp:138-171 | MapMemory with a zero-filled frame is a step of the runs |
| `PageMap.EraseIsStep` | Source/Multitasking/Paging.cpp:178-201 | EraseMapping is a step of the runs |
| `ThreadIds.NextKeepsPartitionIff` | C library stubs/SystemCalls.c:127-145 | whatever lies where the freed slot was, taking an id keeps free and outstanding ids a partition if and only if there is a free id and the list is not shrunk before it is read, or there is none and the count does not run over |
| `ThreadIds.RecycleKeepsPartitionIff` | C library stubs/MessageHandlers.c:3-18 | giving an id back keeps the partition if and only if it was the top id or the list could grow |
| `ThreadIds.StartIsPartitionIff` | C library stubs/preMain.c:16-21 | the start-up state is a partition if and only if the uninitialised slot holds 0 |
| `ThreadIds.NoIdTwice` | C library stubs/SystemCalls.c:127-145 | along every run, whatever realloc does, free and outstanding ids are a partition at every point if and only if every call finds the last free id where it looks, or a new one, and a place for the one given back; then no id is handed out while it is out, and free plus outstanding ids number _maxMThread |
| `ThreadIds.ReturnedIsNext` | C library stubs/MessageHandlers.c:8-17 | an id given back to a list that can grow is the next one taken, and the pool is as before |
| `ThreadIds.TopLowersBound` | C library stubs/MessageHandlers.c:6-7 | the top id given back lowers _maxMThread by one and is not listed |
| `ThreadIds.LastReturnedFirst` | C library stubs/SystemCalls.c:127-145 | ids come back in the reverse of the order they were given back in, and leave the pool as it was |
| `ThreadIds.MessageThreads.GetNextMTID` | C library stubs/SystemCalls.c:127-145 | the globals and the id as specified, whether the reallocation refuses, shrinks, or frees the block |
| `ThreadIds.MessageThreads.RecycleMTID` | C library stubs/MessageHandlers.c:3-18 | the globals as specified, whether or not memory is found; a freed block is reallocated if and only if the list's was freed and the id is not the top one |
| `Numerals.QuotientShrinks` | Source/Common/Strings.cpp:68-73 | towards-zero division keeps the sign and shrinks, and the product in the loop is no larger than the number |
| `Numerals.Table` | Source/Common/Strings.cpp:63-72 | the table gives each remainder, negative ones too, the digit of its absolute value |
| `Numerals.WholeDenotes` | Source/Common/Strings.cpp:57-78 | for every int and base 2 to 36, all that is emitted, reversed, denotes the number with its sign |
| `Numerals.ReturnedDenotesIff` | Source/Common/Strings.cpp:76-77 | as written, the result denotes the number if and only if it is a single digit |
| `Numerals.DigitCount` | Source/Common/Strings.cpp:68-73 | at most k digits are emitted if and only if the number is below the k-th power of the base |
| `Numerals.FitsIff` | Source/Common/Strings.cpp:59-76 | the buffer suffices if and only if there are at most eleven digits, ten with a minus sign |
| `Numerals.BufferSufficesIff` | Source/Common/Strings.cpp:59-60 | the buffer suffices for every 32-bit int if and only if the base is at least 9 |
| `Numerals.Reverse` | Source/Common/Strings.cpp:80-93 | the string is reversed in place and nothing else is touched |
| `Numerals.EmitDigits` | Source/Common/Strings.cpp:68-73 | the loop emits the specified digits, lowest first, and ends with a number of the same sign, unless there are more than the buffer holds |
| `Numerals.CreateNumeric` | Source/Common/Strings.cpp:57-78 | the buffer and the place returned, as written; it is overrun if and only if the number does not fit |
| `Numerals.CreateNumericWhole` | Source/Common/Strings.cpp:57-78 | with the reversal started at the buffer's head, the string denotes the number whenever it fits |
| `Multiply.StepFits` | Source/Common/RandomGenerator.cpp:10-11 | no state update overflows 32 bits |
| `Multiply.StepMultiplies` | Source/Common/RandomGenerator.cpp:10-11 | an update multiplies the state by its factor modulo factor * 2^16 - 1 |
| `Multiply.DegenerateIff` | Source/Common/RandomGenerator.cpp:10-11 | a state is a multiple of the modulus after an update if and only if it was one before |
| `Multiply.StepPermutes` | Source/Common/RandomGenerator.cpp:10-11 | below the modulus the update is one-to-one and stays below it |
| `Multiply.AfterSteps` | Source/Common/RandomGenerator.cpp:8-14 | after n updates the state times 2^(16n) is the first state modulo the modulus, still non-zero and 32-bit |
| `Multiply.SeedsNeverDegenerate` | Source/Common/RandomGenerator.cpp:4-14 | from the given seeds neither state ever becomes zero or a multiple of its modulus |
| `Multiply.RandomGenerator.MwcRandom` | Source/Common/RandomGenerator.cpp:8-14 | both states step, and the result is the two low halves side by side |

## Left out

- KernelHeap.Heap.Allocate: the 45 requests whose size, with the paddings and the header, wraps round in 64 bits are not modelled, except the one that wraps to size zero; the source then writes headers over whatever is there.
- KernelHeap.Heap.AllocateSized: the same requests are not modelled.
- HeapTheorems.AllocateOkIff: the same requests are not modelled.
- KernelHeap.Heap.Reallocate: the copy through a null pointer ends the model's run with a fault flag, and so does a growth beyond 32 bits that gets pages, whose copy would work on an ill-formed heap (`HeapSizes.OversizeGrowth`); the 46 sizes that wrap round are not modelled.
- KernelHeap.Heap.Free: a pointer that leads to no header, live or dead, is outside the model, since the source then reads whatever lies there; so are calls on a heap that is no longer valid.
- KernelHeap.Heap.LiballocFree: works on the heap's own pages and never faults; in the source it does when the page past the end has no page table, as `HeapPages.UnmapRun` says, which a user heap's last run can bring about at a 4 MiB boundary. The frames behind the pages are in `HeapPages`.
- KernelHeap.Heap.LiballocAlloc: the frames for page tables and the halt when there is none are in `HeapPages.MapRun`; a halted machine ends the heap's run.
- HeapRuns.EveryRun: sizes that wrap round in 64 bits are not among the calls, but for the request served as one byte.
- FrameBitmap.PageAllocator.TestBit: as written, `1 << n` for n of 32 and more shifts an int by more than its width, which C++ leaves undefined; testBit and clearBit are taken to reach the n-th bit there, and as written they are otherwise as the source has them, sign included.
- ThreadIds.MessageThreads.RecycleMTID: what a reallocation of a freed block does is not modelled; the flag ends the run.
- PageMap.Virtual.MapMemory: addresses are cut to 32 bits by PageMask; the recursive slot 1023 and the kernel-heap tables pre-filled at start-up are excluded.
- Multiply.RandomGenerator.MwcRandom: the scaling to a range in floating point is not modelled.
- CleanAllocate, the heap's destructor and the counters' 64-bit wrap-around: easy members.
- Page-directory switching, interrupt disabling and TLB flushes inside heap and paging: the heap is used by one thread in one address space.
- ClonePageDirectory and CopyToAddressSpace: their multi-page source and offset handling does not add up, so there is no clean statement to prove.
- AllocatePages and firstFreeBits: the caller passes the zone flag as the page count.
- CompleteInitialisation: the reserved frames are whatever bits are set at the start, bit 0 among them.
- Scheduler, IPC, ELF loading, descriptor tables, interrupts, system calls, and the POSIX stubs other than the id pool.
