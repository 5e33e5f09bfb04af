# Memory management of the kernel, modelled and proved in Dafny

The project models the memory-management stack of an x86-64 kernel and proves what its parts promise to each
other: the boot allocator, the buddy allocator for physical frames, the hand-over between them, 4-level page tables
with any number of memory maps, and the slab cache. `dafny verify dfyconfig.toml` checks all files.

## How the files fit together

| files | part |
|---|---|
| `Options`, `Bits`, `Sequences` | shared helpers: options, shifts and powers of two, sequences without repetition |
| `BuddyTree`, `BuddyForest`, `Forest`, `Buddy` | the buddy allocator: trees of summary bytes as values, several trees with the blocks handed out, the level-order buffer with its cursors, and the class that works in place on the buffer |
| `Memblock`, `BootMemory`, `AlignedSplit` | the boot allocator: the sorted list of extents, the bump allocator over it, and the split into powers of two |
| `AddrRange` | address ranges and hardware pages |
| `PhysicalMemory`, `PhysicalRuns`, `FreePieces`, `HandOver`, `KernelBoot` | frame records over the buddy allocator, runs of requests, the pieces that free frames are cut into, the construction from the boot allocator, and all of it from the memory map on |
| `MachineWord`, `Entry` | page table entries as 64-bit words (a word is the set of its one bits), and the bits of their flags |
| `PageTable`, `TableReach`, `TableLoss`, `WalkWords`, `MemoryMaps`, `PagingInit`, `MapRuns` | page tables as decoded tables with their places in the trees, tables below a table, tables that no map reaches any more, the words written on a walk, memory maps over words in memory, the first memory map, and runs over any number of maps |
| `Slab` | the slab cache |

The parts that work by changing things are classes whose methods are proved against functions of the old state:
`ArrayForest`, `BuddySystem`, `Memblocks`, `MemblockSystem`, `SplitIter`, `PhysicalMemoryRecord`, `EntryRef`,
`MemoryManager` and `Cache`. Numbers are unbounded; where a width matters (bytes of the buddy map, bits of an entry,
the 48-bit address, the 128-entry lists) it is written out.

Page tables carry a ghost map from each table frame to its place: the map it belongs to (or the shared kernel half),
its level, and the address bits above it. A table entry is in order only if the table it refers to owns exactly the
place below that entry. This says at once that no table is shared within a map, and that a write to one entry can
only affect the addresses that use that entry.

## What the code does differently from its comments

The model follows the code. Each difference is stated as a contract or a lemma.

- Freed buddies are never joined again: after a block was returned, of all blocks around it only the block itself can be
  handed out (`Buddy.FreedNotJoined`, carried by `Buddy.BuddySystem.Free`). Conservation of frames holds all the same, but a
  system that was one free block cannot hand out half of itself a second time (`Buddy.ReserveFreeReserve`).
- `free` does not notice a block that was never handed out if its byte is zero. A single frame of that kind becomes managed
  and free; a larger block breaks the invariant (`Buddy.FreedHole`, `Buddy.FreedUnheld`).
- `reserve` of the buddy system needs a free block strictly larger than the request, and fails exactly when no tree has
  one (`Buddy.BuddySystem.Reserve`).
- `free_forced` with a start that is not a multiple of the block size breaks the invariant as soon as some frame between
  the multiple below and the start is not free, in whatever state the system is (`Buddy.MisalignedFill`,
  `Buddy.OverclaimedBreaks`, carried by `Buddy.BuddySystem.FreeForced`). If all those frames are free it may break the
  invariant as well, because only the summaries above the block of the start are repaired; the only caller, the
  hand-over, never comes there, since the frame below an extent is never free (`HandOver.FrameBelow`,
  `HandOver.GiveAll`).
- The boot allocator returns an offset in its current extent where an address is meant. The offset is the address exactly if
  the extent starts at 0 (`BootMemory.OffsetAsAddress`), which is never so when a kernel lies below all memory
  (`BootMemory.NeverAnAddress`). `BootMemory.OffsetInside` says exactly when the offset at least lies in the extent, and
  `BootMemory.NumbersApartFromStart` when the numbers of a whole run do not collide, from the start state and the
  requests; `BootMemory.SameOffsetTwice` is a case where two do.
- The hand-over therefore puts its two tables at these offsets. They are apart from the frames that are handed over exactly
  under the conditions of `HandOver.TablesApartExactly` and, if nothing was reserved before, of `HandOver.FreshTablesApart`;
  `HandOver.TableInFreeFrame` is a boot state in which a table lies in a frame that is handed over.
- The hand-over forces the pieces of each extent free wherever the extent starts. The record is in order, with exactly the
  whole frames free, if and only if every extent starts at a multiple of its largest piece and rounding up its start does
  not push it out (`HandOver.GiveAll`, `HandOver.New`). What `freeze` leaves of the extent of the tables is often not like
  that: `HandOver.RestNotEligible` is a boot state of one extent, `HandOver.StartInsidePiece` the general case.
- `aligned_split` rounds the start up and does not shorten the range for it; `AlignedSplit.TrimmedInside` says exactly when
  the range stays inside its extent.
- `freeze` never marks the allocator as frozen; it may insert empty extents. No later reservation succeeds, because no
  extent is left (`BootMemory.MemblockSystem.Freeze`, `BootMemory.ReservingKeeps`).
- `allocate_pages` of large or huge pages panics exactly when the record does not start at such a page
  (`PhysicalMemory.PagesAtExact`).
- `range_sub` of an empty range returns the other range (`AddrRange.RangeSubIsDifference`); `overlapped_pages` of an empty
  range that is not aligned has one page (`AddrRange.OverlappedPagesExact`); `PageSize::fit` takes the next larger page for
  sizes that are exactly a page (`AddrRange.FitIsSmallest`). A frame for a page table is therefore a large page of 512
  frames, and the request panics exactly if the record does not start at a multiple of 2 MiB
  (`PhysicalMemory.TableTakesLargePage`).
- `reinit` with a misaligned address fails after it wrote the flags, and leaves an entry for address 0
  (`Entry.MisalignedLeavesZero`).
- `map` does not look at the result of `reinit`: it reports success for flags that are not valid at the level, although
  nothing was mapped. For a large page without the page-size flag it writes a reference to a table at the page
  (`MemoryMaps.FinalWord`, `MemoryMaps.MemoryManager.Map`).
- `down` relies on zero-filled frames: what is below a new table is unmapped exactly if no page entry can be reached from
  the frame (`MemoryMaps.NewFrameNeedsZeroes`).
- Mapping a page over a reference to a table loses that table and all tables below it, and nothing else is ever lost
  (`TableLoss.WriteLoses`, `MemoryMaps.MemoryManager.Map`). Dropping a map gives back all of its tables exactly if none of
  them was lost (`MemoryMaps.MemoryManager.Drop`). Over a whole run, frames are lost exactly if some `map` finds a
  reference to a table where it writes (`MapRuns.RunLoses`, `MapRuns.Run`); `MapRuns.LostFrame` is such a run, a small page
  and then a large page over it.
- `translate` returns the base of the page, without the offset of the address in it. That is the physical address exactly
  if the address is a multiple of the size of its page (`PageTable.TransDropsOffset`, `MemoryMaps.MemoryManager.Translate`);
  `PagingInit.SecondByte` is an address for which it is not.
- `init` has one table for the image, whose entries are written over for an image above 1 GiB
  (`PagingInit.ImageExact`, `PagingInit.ImageReaches`).
- `init` remaps physical memory up to the size of the managed range, counted from address 0, not up to its end
  (`PagingInit.RemapExact`).
- `fill_level` of a slab binds a new name where a constant is meant, so every non-zero free count reads as full. Every slab
  therefore has at most one live slot, and each live slot keeps a page of its own; the cache is a stack of pages of which
  only the first slot is used (`Slab.Run`, `Slab.OnePagePerSlot`).
  The wrong slice length would panic at exactly the states stated by `Slab.SlabReserve`; they are never reached.

## Model

| member | source | states |
|---|---|---|
| `Forest.ArrayForest.constructor` | src/common/array_forest.rs:113-134 | a forest whose every node has the given value, in a buffer of the computed size |
| `Forest.ArrayForest.InsideBuffer` | src/common/array_forest.rs:80-101 | every cursor that stands on its level indexes inside the buffer |
| `Forest.ArrayForest.MovesStayInside` | src/common/array_forest.rs:34-77 | moves down, up and to the sibling that report success stand on a level again |
| `Forest.ArrayForest.FillSlice` | src/common/array_forest.rs:208-213 | filling part of a level changes exactly those nodes |
| `Forest.ArrayForest.Set` | src/common/array_forest.rs:86-92 | writing through a cursor changes exactly that node |
| `Forest.TreeOfAt` | src/common/array_forest.rs:149-165 | the subtree of a block starts at the node that the cursor computes for it |
| `BuddyTree.ValueIsLargestFree` | src/mem/phy/buddy.rs:162-200 | a summary byte is one more than the order of the largest free block below it |
| `BuddyTree.FindsFirstAvailable` | src/mem/phy/buddy.rs:92-133 | the left-first search succeeds exactly if the summary byte exceeds the order, and finds the first available block, which is full |
| `BuddyTree.PutFree` | src/mem/phy/buddy.rs:162-177 | replacing a block and recomputing the summaries above it changes the free frames of that block and no others |
| `BuddyTree.PutClassified` | src/mem/phy/buddy.rs:162-177 | it also keeps every node full, taken, or the maximum of its children |
| `BuddyForest.HeldBlocksApart` | src/mem/phy/buddy.rs:92-154 | blocks handed out share no frame with each other and none with the free frames |
| `BuddyForest.ReserveKeepsConsistent` | src/mem/phy/buddy.rs:135-153 | handing out a full block keeps managed = free + held and takes only free frames |
| `BuddyForest.FreeKeepsConsistent` | src/mem/phy/buddy.rs:47-61 | returning a held block keeps managed = free + held and frees exactly its frames |
| `BuddyForest.ForceKeepsConsistent` | src/mem/phy/buddy.rs:70-89 | forcing a block that nobody holds free adds exactly its frames to the managed and to the free ones |
| `BuddyForest.PutBlockShifts` | src/mem/phy/buddy.rs:47-89 | after a block became free or was handed out as a whole, blocks apart from it can be handed out exactly if they could before; of the others none if it was handed out, and exactly the block and those inside it if it became free |
| `Buddy.EarlyExit` | src/mem/phy/buddy.rs:162-177 | stopping the repair at the first byte that does not change gives the same trees as repairing to the root |
| `Buddy.FreedBlock` | src/mem/phy/buddy.rs:47-61 | writing the order byte of a held node and repairing above it is the return of that block |
| `Buddy.ReservedBlock` | src/mem/phy/buddy.rs:135-153 | writing zero to a free node and repairing above it hands out exactly that block; afterwards a block can be handed out exactly if it could before and shares no frame with it |
| `Buddy.LeadsDown` | src/mem/phy/buddy.rs:107-133 | the node that leads to the goal has a child that does: the left one, or the right one after the left is found to be a dead end |
| `Buddy.NothingFound` | src/mem/phy/buddy.rs:95-104 | if no root byte exceeds the request, no tree has a larger free block |
| `Buddy.FoundBlock` | src/mem/phy/buddy.rs:92-133 | in the first tree whose root byte exceeds the request by two or more, the search ends at a full block that can be taken, the first available one |
| `Buddy.ZeroForest` | src/mem/phy/buddy.rs:25-41 | a forest of zero bytes has no free frame and no block handed out |
| `Buddy.ForcedBlock` | src/mem/phy/buddy.rs:70-89 | filling every level of an aligned block frees exactly its frames, as one block: it and the blocks inside it can be handed out, no block around it can, and blocks apart from it exactly as before |
| `Buddy.MisalignedFill` | src/mem/phy/buddy.rs:70-89 | in every state, filling a block that does not start at a multiple of its size, while a frame between that multiple and the start is not free, leaves a node that claims a frame which is not free |
| `Buddy.OverclaimedBreaks` | src/mem/phy/buddy.rs:70-89 | a forest with such a node is not well formed |
| `Buddy.ForcedLeavesBelow` | src/mem/phy/buddy.rs:70-89 | forcing a block free changes no byte of a block that ends at or before its start |
| `Buddy.FreedNotJoined` | src/mem/phy/buddy.rs:47-61 | after a held block was returned, of all blocks that contain it exactly the block itself can be handed out; the blocks inside it can, and blocks apart from it exactly as before |
| `Buddy.FreedHole` | src/mem/phy/buddy.rs:47-61 | returning a frame that is in no block handed out and not managed makes it managed and free, and blocks apart from it can be handed out exactly as before |
| `Buddy.FreedUnheld` | src/mem/phy/buddy.rs:47-61 | returning a larger block with a zero byte that was not handed out breaks the invariant |
| `Buddy.ReserveFreeReserve` | src/mem/phy/buddy.rs:47-154 | from one free block: half of it is reserved and returned, all frames are free again, and half of it cannot be reserved any more |
| `Buddy.TreesSuffice` | src/mem/phy/buddy.rs:25-41 | the trees of a new system cover all frames, and the last tree is needed |
| `Buddy.OrderIsSmallest` | src/mem/phy/buddy.rs:25-41 | no order below that of the trees of a new system holds all frames |
| `Buddy.BuddySystem.constructor` | src/mem/phy/buddy.rs:25-41 | a system of zero bytes: nothing free, nothing held, nothing managed |
| `Buddy.BuddySystem.FixupMap` | src/mem/phy/buddy.rs:162-177 | the loop with its early exit leaves the trees with the block replaced and every summary above it recomputed; nodes at or behind the start keep their bytes |
| `Buddy.BuddySystem.FixupParent` | src/mem/phy/buddy.rs:162-177 | one round of the loop: the parent becomes the larger of its children's bytes, never more, or the loop stops and nothing changes |
| `Buddy.BuddySystem.FirstRoot` | src/mem/phy/buddy.rs:98-105 | the first tree whose free order is strictly above the request, or none |
| `Buddy.BuddySystem.Search` | src/mem/phy/buddy.rs:95-133 | the loop with its stack stops at the block of the recursive search, in at most 2 * max_order + 1 steps; the stack never outgrows its capacity |
| `Buddy.BuddySystem.Take` | src/mem/phy/buddy.rs:135-153 | marking a free block as reserved hands out exactly its frames, and every other block can be handed out exactly if it could before and shares no frame with it |
| `Buddy.BuddySystem.Reserve` | src/mem/phy/buddy.rs:92-154 | nothing is returned exactly if no tree has a free block of a larger order; otherwise the block is the first available one of the first such tree, was free, was not held, and exactly its frames stop being free; afterwards a block can be handed out exactly if it could before and shares no frame with it |
| `Buddy.BuddySystem.Free` | src/mem/phy/buddy.rs:47-61 | the double-free assertion fires exactly if the node's byte is not zero, and then nothing changes; a held block passes it, exactly its frames become free, it can be handed out again as one block and is joined with nothing, and blocks apart from it can be handed out exactly as before; a frame that was not managed becomes managed and free; a larger block that was not handed out breaks the invariant |
| `Buddy.BuddySystem.FillBlock` | src/mem/phy/buddy.rs:70-88 | exactly the nodes of the slices of the block get the byte of their own level |
| `Buddy.BuddySystem.FreeForced` | src/mem/phy/buddy.rs:70-89 | an aligned block that nobody holds becomes managed and free as one block: it and the blocks inside it can be handed out, no block around it can, and blocks apart from it exactly if they could before; in every state every frame that was not free, between the multiple of the block size below the start and the start, is claimed wrongly afterwards; bytes of blocks that end at or before the start stay |
| `Memblock.InsertCanonical` | src/mem/phy/memblock.rs:126-168 | inserting an extent that overlaps none keeps the list sorted, disjoint and without touching neighbours, in all four merge cases |
| `Memblock.InsertCovers` | src/mem/phy/memblock.rs:126-168 | it adds exactly the bytes of the extent |
| `Memblock.InsertEmpty` | src/mem/phy/memblock.rs:126-168 | inserting an empty extent keeps the list sorted and adds no byte |
| `Memblock.Memblocks.Insert` | src/mem/phy/memblock.rs:126-168 | rejected exactly for a base that is there already; overflows exactly if the list would grow beyond its 128 entries; otherwise the list with the extent spliced in |
| `Memblock.Memblocks.BinarySearch` | src/mem/phy/memblock.rs:126-132 | whether an extent has the base, and the index of the first extent at or above it |
| `Memblock.Memblocks.Pop` | src/mem/phy/memblock.rs:176 | removes and returns the last extent |
| `BootMemory.RetireKeeps` | src/mem/phy/memblock.rs:269-284 | falling over to the next extent keeps every byte and needs no new list entry |
| `BootMemory.CutKeeps` | src/mem/phy/memblock.rs:289-314 | freezing keeps every byte: what was handed out is reserved and the rest is free |
| `BootMemory.ReservingKeeps` | src/mem/phy/memblock.rs:269-284 | a reservation keeps every byte, and fails exactly if no extent is left |
| `BootMemory.ReservingApart` | src/mem/phy/memblock.rs:269-284 | every reservation takes bytes that no earlier one took |
| `BootMemory.ReservingFits` | src/mem/phy/memblock.rs:269-284 | the offset is aligned, and the piece lies inside its extent |
| `BootMemory.ReservingChosen` | src/mem/phy/memblock.rs:269-284 | which extent a reservation uses, whether it succeeds, and which number it returns, from the state before: the current extent if the piece fits there, else the last free one that is large enough |
| `BootMemory.ReservingFallsOver` | src/mem/phy/memblock.rs:269-284 | after a piece that does not fit in the current extent: the free list is the old one up to the last extent that is large enough, which becomes the current one, and exactly the bytes of the old current extent and of the extents passed over are newly reserved; without such an extent nothing is free |
| `BootMemory.OffsetAsAddress` | src/mem/phy/memblock.rs:269-284 | the number returned is the address of the piece if and only if the extent that the reservation is going to use starts at 0 |
| `BootMemory.NeverAnAddress` | src/mem/phy/memblock.rs:269-284 | it never is the address if all memory lies above a kernel that ends above 0 |
| `BootMemory.OffsetInside` | src/mem/phy/memblock.rs:269-284 | the bytes at that number lie in the extent if and only if the piece fits behind the current offset, which is not below the base, or a later extent that starts at 0 is used |
| `BootMemory.ConsecutiveOffsets` | src/mem/phy/memblock.rs:269-284 | read as addresses, two consecutive reservations are apart if and only if the second still fits behind the first or ends before it |
| `BootMemory.NumbersApartFromStart` | src/mem/phy/memblock.rs:269-284 | from a fresh state and for any requests: read as addresses, all reservations are apart if and only if every request after the first that succeeds fits behind the offset of the state it meets |
| `BootMemory.SameOffsetTwice` | src/mem/phy/memblock.rs:269-284 | a state in which two different pieces are handed out under the same number |
| `BootMemory.MemblockSystem.Init` | src/mem/phy/memblock.rs:194-267 | with at most 128 disjoint areas and any usable byte it succeeds, and then owns exactly the available bytes above the kernel, and the managed range spans them |
| `BootMemory.MemblockSystem.AddArea` | src/mem/phy/memblock.rs:210-239 | one more area: the list covers exactly the usable bytes so far and the bounds span them; it fails only on a full list |
| `BootMemory.MemblockSystem.Reserve` | src/mem/phy/memblock.rs:269-284 | the loop ends, and its state, result and list of reservations are those of the recursive description; every byte stays, and nothing is returned once no extent is left; a piece that fits moves the offset alone, and otherwise the lists are those of the fall-over |
| `BootMemory.MemblockSystem.Bump` | src/mem/phy/memblock.rs:269-284 | bumping the offset, or retiring the extent and going on with the next one, is the recursive description |
| `BootMemory.MemblockSystem.CutPartial` | src/mem/phy/memblock.rs:289-314 | the inserts of `freeze`, of which one is rejected for an unused extent, leave the cut lists |
| `BootMemory.MemblockSystem.Freeze` | src/mem/phy/memblock.rs:289-314 | the current extent is cut at the offset into a free and a reserved part, every byte stays, and no extent is left to reserve from |
| `BootMemory.Run` | src/mem/phy/memblock.rs:194-314 | in every run of `init` and then any reservations and `freeze` calls the manager owns exactly the usable bytes, state and answers are those of the recursive description of the script, reservations share no byte, every number returned belongs to one, and nothing is handed out after `freeze` |
| `AlignedSplit.CapNeverBinds` | src/mem/phy/memblock.rs:332-351 | the cap by the trailing zeros of the offset never decides the size of a piece |
| `AlignedSplit.CutAdvances` | src/mem/phy/memblock.rs:332-351 | after each piece the offset is again a multiple of the piece that comes next |
| `AlignedSplit.OrdersTile` | src/mem/phy/memblock.rs:332-351 | the pieces fill the range without gaps, get no larger, and stay between the two orders |
| `AlignedSplit.OrdersCount` | src/mem/phy/memblock.rs:332-351 | there is one piece per largest block and then one per set bit of the remainder |
| `AlignedSplit.Drain` | src/mem/phy/memblock.rs:332-351 | the iterator, called until it ends, returns pieces that follow each other from the start to the end of the range, whose orders are that list and whose number is that count |
| `AlignedSplit.TrimmedSize` | src/mem/phy/memblock.rs:43-75 | the length is rounded down to the smallest piece, whatever the start is |
| `AlignedSplit.TrimmedInside` | src/mem/phy/memblock.rs:43-75 | the range that is split lies inside the extent if and only if the start moves no further than the length was cut |
| `AlignedSplit.SplitIter.Next` | src/mem/phy/memblock.rs:332-351 | the next piece is the largest that still fits, and its offset is a multiple of its own size |
| `AddrRange.RangeSubIsDifference` | src/mem/addr.rs:217-239 | the two pieces never overlap; they are the set difference if and only if the range is not empty or nothing is subtracted |
| `AddrRange.ContainedPagesExact` | src/mem/addr.rs:242-257 | in an aligned space a page is among the contained pages if and only if it lies inside the range |
| `AddrRange.OverlappedPagesExact` | src/mem/addr.rs:260-271 | in an aligned space it never panics; for a non-empty range a page is among the overlapped pages if and only if it meets the range |
| `AddrRange.CeilExact` | src/mem/addr.rs:123-133 | rounding up gives the least multiple at or above the address, and none exactly if no such multiple lies below the end of the space |
| `AddrRange.FloorInSpace` | src/mem/addr.rs:140-148 | rounding down stays inside a space whose bounds are multiples of the largest page |
| `AddrRange.Fit` | src/mem/addr.rs:460-472 | the loop over the page sizes picks the smallest page strictly larger than the size |
| `AddrRange.FitIsSmallest` | src/mem/addr.rs:460-472 | this is the smallest page that holds the size if and only if the size is not exactly a page |
| `PhysicalMemory.EnoughPages` | src/mem/phy.rs:136-155 | the pages reported cover the whole block and are at least as many as requested |
| `PhysicalMemory.AllocIsSmallest` | src/mem/phy.rs:136-155 | no order below the one reserved holds the pages |
| `PhysicalMemory.AlignedLikeBase` | src/mem/phy.rs:136-155 | a block starts at a page boundary if and only if the record does |
| `PhysicalMemory.PagesAtExact` | src/mem/phy.rs:136-155 | for one page or more, a panic happens if and only if the record does not start at such a page or the block starts outside the address space; otherwise the whole block is reported |
| `PhysicalMemory.PagesAtBytes` | src/mem/phy.rs:136-155 | apart from a panic, for one page or more of any size, the pages have the requested size and their bytes are exactly those of the frames of the block, counted from the base of the record |
| `PhysicalMemory.TableTakesLargePage` | src/mem/phy.rs:210-217 | the layout of a small page is answered with a large page of 512 frames, although a small page holds it; it panics if and only if the record does not start at a multiple of 2 MiB |
| `PhysicalMemory.PhysicalMemoryRecord.AllocatePages` | src/mem/phy.rs:136-155 | the first block that fits, of the computed order, inside the address space and apart from all others; the pages have the requested size, their bytes are exactly those of the frames of the block, and none of them belongs to a block held before; exactly the first frame of the block records the order; a panic if and only if the record does not start at such a page; without memory nothing changes and no larger block was free |
| `PhysicalMemory.PhysicalMemoryRecord.Allocate` | src/mem/phy.rs:210-217 | the first block that fits one page of the smallest size strictly larger than the layout; the page is of that size, its bytes are exactly those of the frames of the block, and none of them belongs to a block held before; a panic if and only if the record does not start at such a page; without memory there is no such size, or no larger block was free |
| `PhysicalMemory.PhysicalMemoryRecord.DeallocatePages` | src/mem/phy.rs:157-167 | the address of a live block takes back exactly that block, as one block that can be handed out again; an address that was returned already is a panic that changes nothing; no other order is touched |
| `PhysicalMemory.ReturnedByte` | src/mem/phy/buddy.rs:53-57 | the leaf of a free frame has a non-zero byte, which is what the double-free assertion sees |
| `PhysicalMemory.PhysicalMemoryRecord.FrameOfAddress` | src/mem/phy.rs:177-181 | the frame index of any address is the frame that holds it, and there is none exactly if no frame of the record does |
| `PhysicalRuns.Run` | src/mem/phy.rs:136-181 | in any sequence of small-page requests and returns of live ranges nothing panics; each request gets the first block that fits, or nothing exactly if none fits, and each return frees exactly its block; which other blocks can be handed out changes only for those that share a frame with it; live ranges never overlap, each is at least as long as requested, and free = managed - held |
| `HandOver.TrimmedFrames` | src/mem/phy.rs:110-116 | the range that is cut up starts at the next frame and has as many frames as fit into the length, and lies in the managed frames |
| `HandOver.WholeIsSpan` | src/mem/phy.rs:110-126 | if rounding up the start does not push the range out of the extent, its frames are exactly the whole frames of the extent |
| `HandOver.LastSticksOut` | src/mem/phy.rs:110-126 | otherwise its last frame lies partly outside the extent |
| `HandOver.FrameBelow` | src/mem/phy.rs:110-126 | the frame below the first frame of an extent lies whole in no extent before it |
| `FreePieces.LargePiece` | src/mem/phy/memblock.rs:332-351 | some piece of a run of frames is larger than an order exactly if the run has room for twice that order and the cap allows it |
| `FreePieces.OffersMore` | src/mem/phy.rs:117-125 | if exactly the blocks inside the pieces so far can be handed out and one more piece apart from them became free, exactly the blocks inside the old and the new pieces can be handed out |
| `FreePieces.OffersFit` | src/mem/phy/buddy.rs:92-133 | then no request of an order is served exactly if no piece is larger |
| `HandOver.PieceIsCut` | src/mem/phy/memblock.rs:332-351 | the iterator's next piece is the largest block that the frames left have room for, capped at the largest order |
| `HandOver.GiveExtent` | src/mem/phy.rs:110-126 | any extent: its frames become managed and free if the first is a multiple of the largest piece, and exactly what lies inside its pieces or could be handed out before can be handed out; if not, the system is no longer well formed, the frame below being not free; nothing that ends before the extent changes |
| `HandOver.MarredBreaks` | src/mem/phy.rs:110-126 | a system with a wrong claim or with a free frame that lies whole in no extent is not in order with the whole frames free |
| `HandOver.GiveAll` | src/mem/phy.rs:110-126 | for any sorted list of extents with gaps: the system is in order with exactly the whole frames of the list free if and only if every extent is eligible; then a block can be handed out exactly if it lies inside one of the pieces that the extents are cut into, each the largest that fits |
| `HandOver.FirstReserve` | src/mem/phy/buddy.rs:92-154 | after that, a first request of an order is served exactly if some extent has room for twice as many frames, and blocks of twice the size exist |
| `HandOver.NextPiece` | src/mem/phy.rs:117-125 | the piece is frame-aligned, as asserted; the index and order computed for it are its place in frames and the logarithm of its size, and the buddy system accepts them |
| `HandOver.GivePiece` | src/mem/phy.rs:117-125 | forcing the piece free adds exactly its frames, or keeps the system spoiled; no block before the piece changes |
| `HandOver.HandedFramesUnused` | src/mem/phy.rs:93-134 | no byte of a frame that is handed over lies, counted from the base of its extent, in a piece that the boot allocator handed out |
| `HandOver.FrozenInManaged` | src/mem/phy.rs:93-134 | the frozen free list is sorted with gaps and lies in the managed frames |
| `HandOver.TablesAtOffsets` | src/mem/phy.rs:97-109 | the addresses used for the two tables, from the state before: the offset of the current extent or 0, and the end of the first table or 0 |
| `HandOver.TablesApartExactly` | src/mem/phy.rs:93-134 | for every boot state, the bytes written as tables belong to no frame that is handed over if and only if every such frame lies below or above each of the two ranges, which are given from the state before |
| `HandOver.FreshTablesApart` | src/mem/phy.rs:93-134 | if nothing was reserved before, this is so if and only if every frame that is handed over starts at or above the end of the tables |
| `HandOver.TableInFreeFrame` | src/mem/phy.rs:93-134 | a boot state that is handed over in order, and in which the table of frames lies in a frame that is handed over |
| `HandOver.StartInsidePiece` | src/mem/phy.rs:110-126 | an extent whose first frame is above 0 and below the size of its largest piece is not eligible |
| `HandOver.RestNotEligible` | src/mem/phy.rs:93-134 | a boot state of one extent whose rest after the tables is not eligible |
| `HandOver.ReserveTables` | src/mem/phy.rs:97-109 | succeeds exactly if both tables fit; their addresses are the numbers that the boot allocator returns, and it is frozen then |
| `HandOver.New` | src/mem/phy.rs:93-134 | succeeds exactly if both tables fit for the frames of the managed range, which stays; the record is then in order with exactly the whole frames of the frozen free list free if and only if every extent of that list is eligible, and then exactly what lies inside the pieces of these extents can be handed out; the forest has the size that was allocated for it |
| `KernelBoot.InitIsReady` | src/mem/phy.rs:93-134 | what `init` leaves is a state that the hand-over starts from |
| `KernelBoot.ManagedOnce` | src/mem/phy/memblock.rs:246-260 | the managed range is determined by the memory map |
| `KernelBoot.Start` | src/mem/phy.rs:93-134 | from the memory map to the record: `init` succeeds for at most 128 areas with a usable byte; then there is a record exactly if both tables fit, for the frames of the managed range, and it is in order with exactly the whole frames free if and only if every extent is eligible; then exactly what lies inside the pieces of the extents can be handed out |
| `KernelBoot.HeldIsUsable` | src/mem/phy.rs:136-155 | every byte of a block of managed frames is available memory above the kernel, lies in no piece that the boot allocator handed out, and in no table if these are apart from the frames |
| `KernelBoot.BootAndRun` | src/mem/phy.rs:93-181 | from the memory map through any script of requests: it gets there if and only if the tables fit and every extent is eligible; then nothing panics, every request is served as described from exactly the whole frames in the pieces of the extents, live ranges are as long as requested, never overlap, and every byte of them is available memory above the kernel; they miss the tables if all frames handed over lie above these |
| `KernelBoot.FirstRequest` | src/mem/phy.rs:93-155 | of such a run the first request is served exactly if some extent of the frozen free list is twice as large as the block reserved for it, and blocks twice as large exist |
| `MachineWord.MaskedReadsBack` | src/mem/paging/entry.rs:52-59 | a number of at most hi bits and a multiple of 2^lo is read back from a word through the mask of bits lo to hi |
| `Entry.TargetOf` | src/mem/paging/entry.rs:42-76 | a page is at its own level, a table at the next one; the last case is unreachable |
| `Entry.ReinitAccepts` | src/mem/paging/entry.rs:187-213 | succeeds if and only if the flags are valid at the level and the address has the alignment of what they make |
| `Entry.ReinitRoundTrip` | src/mem/paging/entry.rs:187-213 | after success the word is the address plus the numbers of the listed flags, `target` reads the kind, next level and address, and `flag` reads every flag that such an entry has as it was listed |
| `Entry.ReinitNumber` | src/mem/paging/entry.rs:187-323 | for every level, flag list and address: the lists and alignments that are accepted, written out; after success the word is the address plus 1 for present, 2 for read-write, 4 for user, 0x80 for page-size and 0x100 for global, each if listed, and after a refused address the same without the address |
| `Entry.FlagsInFormat` | src/mem/paging/entry.rs:247-323 | which flags an entry has at each level, and that they are read from bits 0, 1, 2, 7 and 8 |
| `Entry.AllowedExactly` | src/mem/paging/entry.rs:187-323 | the accepted flag lists and alignments are exactly the ones written out by level |
| `Entry.MisalignedLeavesZero` | src/mem/paging/entry.rs:187-213 | valid flags with a misaligned address fail and leave an entry of that kind for address 0 |
| `Entry.SetAddrMoves` | src/mem/paging/entry.rs:78-101 | an accepted address changes no flag, and the target keeps its kind and moves to the address if and only if the bits between the address mask and the alignment were clear |
| `Entry.EntryRef.SetAddress` | src/mem/paging/entry.rs:78-101 | all or nothing: the word stays, or only the address changes |
| `Entry.EntryRef.SetFlags` | src/mem/paging/entry.rs:129-157 | all or nothing: accepted exactly if neither present nor page-size is listed and the entry has all flags, which is written out by level; then exactly bits 1, 2 and 8 of the listed flags get the value, the flags read so, and the target does not change |
| `Entry.EntryRef.Reinit` | src/mem/paging/entry.rs:187-213 | succeeds exactly on the accepted flag lists with an aligned address; the number in the word is then the address plus 1, 2, 4, 0x80 and 0x100 for the listed flags, and it reads back; a refused address leaves the flags alone, a refused list leaves the word |
| `PageTable.IdxIsField` | src/mem/paging.rs:473-483 | the index at each level is the bit field of the address that the level names |
| `PageTable.PutTrans` | src/mem/paging.rs:395-448 | one write to an entry changes the translation of exactly the addresses that use it, through every root, to what the entry answers |
| `PageTable.SameTable` | src/mem/paging.rs:436-448 | walks that need the same place reach the same table, through whatever root |
| `MemoryMaps.NewFrameNeedsZeroes` | src/mem/paging.rs:410-430 | for a linked frame of any contents, all addresses below the link are unmapped if and only if no page entry can be reached from the frame |
| `MemoryMaps.RawIsWalk` | src/mem/paging.rs:395-448 | the walk over the words of memory is the walk over the decoded tables |
| `PageTable.PhysInPage` | src/mem/paging.rs:312-327 | the physical addresses of one page are as far apart as the virtual ones |
| `PageTable.TransDropsOffset` | src/mem/paging.rs:312-327 | the translation is the physical address of the start of the page, and is that of the address itself if and only if the address is a multiple of the size of the page or is not mapped |
| `PageTable.StepSplit` | src/mem/paging.rs:410-430 | making a table where there is none keeps all trees in order and unmaps only what a larger page mapped there |
| `PageTable.MapRefines` | src/mem/paging.rs:282-307 | the last write of `map` gives, for all roots and addresses: the mapped page answers with the new page, the rest of a larger page in the way is lost, all else is unchanged |
| `PageTable.KernelAgrees` | src/mem/paging.rs:254-306 | all memory maps translate every kernel address alike |
| `TableReach.ReachIsOnWalk` | src/mem/paging.rs:436-448 | a table that hangs below a table of a walk, at a place of the walk, is the table of that walk |
| `TableReach.ReachFollowsWalk` | src/mem/paging.rs:436-448 | a table is reached only through the tables of the walk for its place |
| `TableReach.OverwrittenTableLeaks` | src/mem/paging.rs:282-307 | a table whose entry is overwritten by a page, and every table below it, can no longer be reached through any root |
| `TableLoss.WriteLoses` | src/mem/paging.rs:305-306 | writing an entry that is no table loses exactly the tables below the old entry, of all tables and all maps |
| `TableLoss.LinkLoses` | src/mem/paging.rs:410-430 | making a table where there was none loses nothing |
| `TableLoss.NewLoses` | src/mem/paging.rs:254-279 | a new map loses nothing |
| `TableLoss.DropLoses` | src/mem/paging.rs:329-361 | dropping a map changes nothing about the tables of others: what is lost is what was lost before, except tables of that map |
| `TableLoss.GivesReached` | src/mem/paging.rs:329-361 | given back are exactly the tables of the map that were not lost; all of them if and only if every table of the map could be reached |
| `TableLoss.HitIsBelow` | src/mem/paging.rs:282-307 | the tables that the last write of `map` finds are those that hung below the entry before the call |
| `TableLoss.MapAttached` | src/mem/paging.rs:282-307 | a map all of whose tables can be reached stays like that if and only if no reference to a table is written over in its lower half |
| `MemoryMaps.FinalWord` | src/mem/paging.rs:305-306 | what the last `reinit` of `map` leaves, for all flags: the old word for flags without a place, nothing for flags without present, a table reference for a large page without page-size, else the page |
| `MemoryMaps.MemoryManager.ReadEntry` | src/mem/paging/table.rs:32-41 | reading a word of a table gives the decoded entry |
| `MemoryMaps.MemoryManager.WriteEntry` | src/mem/paging/entry.rs:187-213 | rewriting a word of a table changes exactly that decoded entry |
| `MemoryMaps.MemoryManager.Translate` | src/mem/paging.rs:312-327 | the loop ends and answers with the page at the end of the walk; it never ends at a table; the answer is the physical address if and only if the address is a multiple of the size of its page or is not mapped |
| `MemoryMaps.MemoryManager.Down` | src/mem/paging.rs:410-430 | one step towards the address, through an existing table or a new one; fails only if no frame is left; no word is written but the reference to a new table |
| `WalkWords.TrailStep` | src/mem/paging.rs:410-430 | the words written on the way down: a reference to a table that was there is kept, a new one is the address of its table plus 3, and no other word of memory differs |
| `WalkWords.TrailEnd` | src/mem/paging.rs:282-307 | with the last write, no word of memory differs but such references and the entry of the page, which is the address plus the numbers of the flags |
| `MemoryMaps.MemoryManager.MakeTable` | src/mem/paging.rs:417-426 | a zero-filled frame becomes the table below the entry, whose word is the address of the frame plus 3, present and writable and not open to user mode, and no other word changes |
| `MemoryMaps.LinkingWalks` | src/mem/paging.rs:282-307 | after the last write made a reference to a table at the page: walks for addresses of the page go on in the frame at the page, and all others are answered as expected |
| `TableLoss.StepMissing` | src/mem/paging.rs:410-430 | a step down makes a table if and only if the walk lacked one before the call |
| `TableLoss.StoppedTrans` | src/mem/paging.rs:299-303 | if the frames run out on the way down, only the rest of a larger page in the way is unmapped, and only if a table was made |
| `MemoryMaps.MemoryManager.Descend` | src/mem/paging.rs:299-303 | the loop comes to the table of the target level if and only if there are frames for all tables that the walk lacks, takes exactly these, and loses no table |
| `MemoryMaps.MemoryManager.Map` | src/mem/paging.rs:282-307 | succeeds if and only if there are frames for the tables that the walk lacks, of which there are at most three, and takes exactly these; the translations of all maps and addresses afterwards are the expected ones, all trees stay in order, and the entry carries exactly the given flags; for flags of a table, walks through the page go on in the frame at the page and all others are as expected; without enough frames only the rest of a larger page in the way is unmapped; lost are exactly the tables below an entry that is written over, and a map keeps all its tables in reach if and only if there are none; for all flags, no word of memory changes but the entry of the page, which is then the address plus the numbers of the flags, and the entries of missing tables, each the address of its table plus 3 |
| `MemoryMaps.MemoryManager.New` | src/mem/paging.rs:254-279 | the new map translates nothing in the lower half and what the current map translates in the upper half; the words of its lower half are zero and those of its upper half are the words of the current map, flags and all; no other word and no other map changes; the CR3 word is the address of its root |
| `MemoryMaps.MemoryManager.RootWord` | src/mem/paging.rs:276-277 | the CR3 word refers to the root and is its address |
| `MemoryMaps.MemoryManager.DropTable` | src/mem/paging.rs:332-352 | gives back the table and every table below it, each once, children before parents |
| `MemoryMaps.MemoryManager.Drop` | src/mem/paging.rs:329-361 | gives back exactly the tables below the lower half, each once, children before parents, then the root; none of them belongs to the upper half or to another map; no other map changes; all tables made for the map are given back if and only if all of them could be reached |
| `MemoryMaps.MemoryManager.Scrub` | src/mem/paging.rs:256-258 | frames that were given back can be allocated again once they are filled with zeroes, and no map changes |
| `MapRuns.RunLoses` | src/mem/paging.rs:254-361 | in any run of creating, mapping and dropping, the frames that are in reach or in the allocator are those of the start without the tables written over; they are all of them if and only if no `map` writes over a reference to a table, and then no frame is missing at all |
| `MapRuns.LostFrame` | src/mem/paging.rs:254-361 | a run that makes a map, maps a small page and a large page over it, and drops the map: exactly one frame is lost |
| `MapRuns.LoseFrame` | src/mem/paging.rs:254-361 | this run on any memory manager with any four frames: one frame is lost, and the maps are as before |
| `MapRuns.Run` | src/mem/paging.rs:254-361 | in any run of creating, mapping and dropping over any number of maps, in which frames of dropped maps are used again, the trees stay in order, the upper halves stay shared and all maps agree on the kernel half; every operation changes the translations as described, a kernel page being seen through every map and a user page through no other; it changes the words of memory as described, so that no entry of another page loses a flag; frames are lost if and only if a reference to a table is written over |
| `PagingInit.InitKernelPdpt` | src/mem/paging.rs:103-136 | the table for the image and its 2 MiB pages are as described, and no other table changes |
| `PagingInit.InitRemapPdpt` | src/mem/paging.rs:138-148 | 512 pages of 1 GiB in order, and no other table changes |
| `PagingInit.InitImagePd` | src/mem/paging.rs:122-135 | the loop over the image sets the 2 MiB page of every piece that starts below its end, the entries of the first GiB being written over by those of the second, and no other entry |
| `PagingInit.InitUpperEntry` | src/mem/paging.rs:157-194 | one more entry of the upper half and its table are set up, and nothing else changes |
| `PagingInit.BuiltInv` | src/mem/paging.rs:157-194 | the finished tables form a tree in order whose upper half is all tables |
| `PagingInit.Init` | src/mem/paging.rs:98-213 | the first memory map is in order; the remapped address of physical address p leads to p exactly if the 512 GiB unit of p starts below the managed size and else nowhere, bytes of the image range lead where the one image table takes them, and nothing else is mapped; every page entry is its address plus 0x183, every table entry its address plus 3, all others are zero, and no other frame is written; the CR3 word is the address of the root |
| `PagingInit.BuiltWalk` | src/mem/paging.rs:157-194 | where every walk of the first memory map ends; nothing else is mapped |
| `PagingInit.RemapExact` | src/mem/paging.rs:163-178 | for every managed size and every p of the remapped range: the remapped address of p leads to exactly p if and only if p / 512 GiB * 512 GiB is below the managed size, and else nowhere |
| `PagingInit.RemapReaches` | src/mem/virt.rs:42-44 | the remapped address of any physical address below the managed size leads to exactly that address |
| `PagingInit.ImageExact` | src/mem/virt.rs:25-28 | an address of the image leads to its physical address if and only if it lies in the first GiB and its entry is not written over |
| `PagingInit.ImageReaches` | src/mem/virt.rs:25-28 | every address of the image leads to its physical address if and only if the image is no larger than 1 GiB |
| `PagingInit.SecondByte` | src/mem/paging.rs:312-327 | the second byte of the image is translated to the address of the first |
| `Slab.LayoutValues` | src/mem/alloc/slab.rs:332-344 | for every slot size there are at least two slots, they fit into the bitmap and behind the metadata, and the first is aligned |
| `Slab.SlotInPage` | src/mem/alloc/slab.rs:439-444 | a slot lies inside its page behind the metadata, and `from_elem_ptr` finds the page again |
| `Slab.SlotAligned` | src/mem/alloc/slab.rs:336-343 | every slot is aligned to its size |
| `Slab.SlotsApart` | src/mem/alloc/slab.rs:332-344 | different slots never overlap, on one page or on two |
| `Slab.FirstOne` | src/mem/alloc/slab.rs:406 | the lowest one bit, or none if there is none |
| `Slab.SlabReserve` | src/mem/alloc/slab.rs:397-414 | takes the lowest free slot and keeps the count right; the slice access panics if and only if slots are left but none below the slot size |
| `Slab.SlabFree` | src/mem/alloc/slab.rs:416-433 | the assertion that a slot is free already fires if and only if the count is zero; otherwise the bit of the slot is set again and the count stays right |
| `Slab.BitmapsExact` | src/mem/alloc/slab.rs:374-433 | in a cache the free counts are right, and a bit is clear if and only if its slot is live |
| `Slab.LiveSlots` | src/mem/alloc/slab.rs:177-262 | live slots are aligned, inside the page of a slab of the cache that `from_elem_ptr` finds, and apart from each other |
| `Slab.OnePagePerSlot` | src/mem/alloc/slab.rs:374-380 | there are as many slabs on the full list as live slots |
| `Slab.Cache.TakeSlot` | src/mem/alloc/slab.rs:194-225 | the slab at the front of the partial list, or else of the empty list, has a free slot, which becomes live, and the slab moves to the full list; the access to the slot does not panic |
| `Slab.Cache.AddSlab` | src/mem/alloc/slab.rs:186-197 | a new page becomes a slab with all slots free, alone on the empty list |
| `Slab.Cache.Reserve` | src/mem/alloc/slab.rs:177-226 | a slot that was not live becomes live, from a slab that has a free one; a page is needed only if there is no such slab, and it fails exactly if there is none then; every slab stays on exactly one list |
| `Slab.Cache.Free` | src/mem/alloc/slab.rs:228-262 | a live slot is given back, and no assertion fires; its slab is found and taken off the list it is on |
| `Slab.Run` | src/mem/alloc/slab.rs:177-262 | in any run of requests and returns the held slots are aligned, on pages of the cache and apart, and each keeps a page of its own; slots and spare pages are those of a stack of pages, of each of which only the first slot is ever used |

## Left out

- Boot assembly, linker script and multiboot parsing: memory areas are a sequence of base, size and availability.
- CR3 loads, TLB flushes and `swap`: hardware effects; a memory map is its root.
- Locks, `Once`, `Pin` and interior mutability: exclusive access is assumed.
- Console, keyboard, interrupts and segmentation: flat tables and I/O with only easy properties.
- `GlobalAllocator`, `PageAllocator` and the choice of a cache by layout: routing around the modelled parts. What they return is a parameter.
- `unmap`: not implemented in the source.
- The intrusive list: each slab list is a sequence of pages. Page size, link and bitmap sizes fix the offset 82 of the slot buffer.
- Overflow of machine integers in sizes and counts: numbers are unbounded apart from the widths named above.
- `MemoryMaps.MemoryManager.Map`: the frames that the allocator will return are given as a list, zero-filled and not in use.
- `MapRuns.Run`: covers flags that do not make `map` write a table reference, and never drops the static first map, which the allocator does not own.
- `Buddy.BuddySystem.FreeForced`: a start that is not a multiple of the block size, above frames that are all free, is not described; the hand-over never comes there.
- `Slab.Cache.Free`: covers pointers that are live in the cache, as its caller has to guarantee.
