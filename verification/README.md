# Octiron kernel: verified model

A Dafny model of the stateful core of Octiron, a small RISC-V kernel, and proofs about it. It covers four connected parts and what lies between them.

- **Physical memory** (`Extents`, `PmmSpec`, `Pmm`, `NodeLists`, `Slab`, `Memory`). The physical memory manager is a first-fit aligned allocator over an array of regions. Every region has a linked free list that is split, trimmed or unlinked in place; its nodes live in blocks of a slab allocator. `PmmSpec` is the manager as a state machine over sequences of extents, with what every run of it keeps; class `Pmm` does the same on linked nodes and refines it step by step.
- **Sv39 page tables** (`Pte`, `Sv39Spec`, `PagingSpec`, `RangeSpec`, `MapLists`, `Paging`, `Boot`, `KernelInit`, `PagingExamples`). `sv39_map`, `sv39_unmap` and `sv39_virt_to_phys` work on a three-level radix tree in physical memory whose tables are obtained on demand. Class `PageTables` reads and writes the 64-bit entries and refines a partial map from 27-bit page number to frame and flags. `Boot` has the identity mappings of `kinit` and the temporary mapping of the device tree blob.
- **Device tree** (`Endian`, `DtbModel`, `DtbTree`, `DtbLayout`, `Dtb`, `DtbDecode`, `DtbMeaning`, `DtbCells`, `DtbRewrite`, `DtbWalk`, `Bump`, `DtbReg`). A token loop with one `curr` pointer builds linked nodes and properties from a flattened device tree (Devicetree Specification v0.4, section 5.4). A recursive pass then decodes the properties in place, passing cell sizes down. `Bump` is the arena that names, values and decoded arrays are taken from, with a record of every piece ever made in it, and `DtbReg` decodes `reg` and `compatible` into arrays of that arena, byte by byte.
- **Integer printing** (`Print`). A 67-byte static buffer is filled from the right.

`Words` has the 64-bit arithmetic all of this rests on: machine words are natural numbers below 2^64, additions and shifts wrap explicitly, and the bitwise operators are defined bit by bit and related to division and remainder.

How to read it. For every part that the source updates in place there is a class whose methods follow the source statement by statement, and a state machine or function on values. The `ensures` of a method equates the new state with one step of that machine; the theorems are about the machine, for all states and all runs. Addresses are numbers, 0 is NULL. Errors are datatypes. A failed `ASSERT`, a `PANIC_LOOP` and the endless loop behind a `TODO` are outcomes of their own (`Stopped`, `Stuck`, `CheckFailed`, ...), and a read through NULL or beyond its block is the outcome `Strayed`, of which nothing is claimed.

## Where the code departs from its intent

The model follows the code. Each departure is stated with its exact condition and an input that shows it, or corrected in one declared place.

- The page walk masks the offset with `0x1000` (src/octiron/paging.c:183). `Ptes.AnswerExactIff` says for which addresses the answer is still the mapped byte, `PagingExamples.WrongFrame` has a run after which a page-aligned address translates to the wrong frame, and `Boot.IdMapMeaning` says what identity mappings answer at every byte.
- `pmm_add_region` can underflow for a tiny unaligned region (src/octiron/pmm.c:82) and compares only upper ends, with a sum that can wrap, with the regions it has (:95). `PmmSpec.AddInsideIff` and `PmmSpec.AddDisjointIff` give the exact conditions; `PmmSpec.AddUnderflows`, `PmmSpec.AddAfterUnderflow` and `PmmSpec.AddOverlaps` are calls that go wrong.
- A request for no bytes, or one that wraps to none when rounded up, succeeds, and can leave two touching free blocks, after which first fit misses windows (src/octiron/pmm.c:224, 268-287). `PmmSpec.RoundedCovers` and `PmmSpec.EmptyAllocGapped` give the exact conditions, `PmmSpec.EmptyAllocHidesWindow` a run, and `PmmSpec.FirstFitBlocks` says what first fit still does then.
- `slab_grow` subtracts the length from the buffer's address instead of adding the header size, and links one block more than it counts (src/kzadhbat/slab.c:37, 45-51). `Slabs.LinkAsWritten` models it as written. `Slabs.GrowAsWrittenInsideIff` says exactly when the blocks it counts nevertheless lie behind the header and inside the buffer, which takes a buffer of nearly the whole address space, and `Slabs.GrowAsWrittenOutside` that for a buffer of at most half the address space none of them does; `Slabs.GrowAsWrittenMisplaced` says when they all lie in front of it. The rest of the model uses the evident correction, in `Slabs.SlabAllocator.Link`.
- Unmapping an empty blob that starts on a page boundary leaves its first page mapped (src/octiron/devices/device_tree/device_tree.c:721-724, 834): `Boot.BlobRestoredIff` and `PagingExamples.BlobLeavesPage`. So does a blob without the magic number (:734-736): `Boot.BlobMagicLeaves`.
- Cell sizes come from the nearest ancestor that declares them (src/octiron/devices/device_tree/device_tree.c:443-444, 497-498), while section 2.3.5 of the Devicetree Specification takes what the parent declares, or 2 and 1. The model has the code's rule. `DtbCells.ConformsIff` says at which nodes the two agree, `DtbCells.TreeConformsIff` on which trees they agree everywhere, and `DtbCells.CellsDiffer` has a tree on which they do not. If a node declares a cell size twice, the first declaration in the blob counts: `DtbCells.DeclaredLeast`.

## Model

| member | source | states |
|---|---|---|
| Words.AlignUpMeaning | include/kzadhbat/bitmacros.h:6 | `ALIGN_UP` to a power of two that does not wrap gives a multiple, no lower than the argument and less than one alignment above it |
| Words.AlignUpLeast | include/kzadhbat/bitmacros.h:6 | and no multiple lies in between |
| Words.AlignDownMeaning | include/kzadhbat/bitmacros.h:5 | `ALIGN_DOWN` to a power of two gives the multiple at most one alignment below |
| Words.PowerOfTwoTest | src/octiron/pmm.c:218 | `a & (a - 1)` is zero exactly for powers of two, for positive `a` |
| Endian.Flip32Load | include/kzadhbat/bitmacros.h:21-25 | a little-endian load of four bytes, byte-swapped by the macro's shifts and masks, is their big-endian value |
| Endian.Flip64Load | include/kzadhbat/bitmacros.h:28-36 | the same for eight bytes |
| Slabs.SlabAllocator.Init | src/kzadhbat/slab.c:8-20 | an allocator without regions whose block size has room for a link |
| Slabs.SlabAllocator.Link | src/kzadhbat/slab.c:44-51 | corrected: exactly the counted blocks behind the header, each once, form one list that ends in NULL; no other block changes |
| Slabs.SlabAllocator.Grow | src/kzadhbat/slab.c:22-57 | corrected: which error when; otherwise both counters rise by the number of blocks that fit, the new blocks are free and lie inside the buffer, old blocks keep their contents, and the allocator stays valid |
| Slabs.SlabAllocator.FindFree | src/kzadhbat/slab.c:65-71 | with a free count above zero the search ends at a region that has a free block, so the NULL return behind it is never taken |
| Slabs.SlabAllocator.Alloc | src/kzadhbat/slab.c:59-84 | NULL exactly when every block is in use, which is when the counter is zero; otherwise an unused block becomes used, all others keep their contents, and the counter falls by one |
| Slabs.SlabAllocator.FindRegion | src/kzadhbat/slab.c:94-104 | the search by address finds a region whose bounds hold the block, and none only if there is none |
| Slabs.SlabAllocator.Free | src/kzadhbat/slab.c:86-114 | a block in use becomes free and the counter rises by one, NULL and a foreign address are refused and change nothing |
| Slabs.WithinOwner | src/kzadhbat/slab.c:98-103 | the address test of `slab_free` holds for a block's owner and for no other region |
| Slabs.PopKeeps | src/kzadhbat/slab.c:73-77 | taking the first block off a list keeps all free lists acyclic, disjoint, of the counted length, made of blocks of their own region, and a block unused exactly when listed |
| Slabs.PushKeeps | src/kzadhbat/slab.c:109-112 | so does putting a used block back |
| Slabs.GrowKeeps | src/kzadhbat/slab.c:53-55 | so does linking in a region beside the others |
| Slabs.NoneFree | src/kzadhbat/slab.c:61-71 | the free count, which is the sum over the regions, is zero exactly when every block is in use |
| Slabs.LinkAsWritten | src/kzadhbat/slab.c:36-55 | as written, in 64-bit arithmetic: the blocks start at the buffer minus the reduced length, each counted one is linked to the next, none overwriting another's link; the block after the last counted one ends the list, unless the blocks leave no rest: then it is the region header, and its link is overwritten with the list of regions |
| Slabs.GrowAsWrittenMisplaced | src/kzadhbat/slab.c:36-51 | as written, for every accepted buffer: all counted blocks end before the buffer begins, and none of the linked blocks passes the lower test of `slab_free`, exactly when the buffer's address is at least the length behind its header |
| Slabs.GrowAsWrittenInsideIff | src/kzadhbat/slab.c:36-51 | as written, for every accepted buffer that ends in the address space: the counted blocks lie behind the header and inside the buffer exactly when the buffer's length and what its last block leaves over reach 2^64 |
| Slabs.GrowAsWrittenOutside | src/kzadhbat/slab.c:36-51 | as written, for a buffer of at most half the address space, wherever it lies: no counted block is inside |
| NodeLists.Split | src/octiron/pmm.c:274-282 | the pointer updates of a split replace one extent by two, with the new node behind the old one |
| NodeLists.Shrink | src/octiron/pmm.c:283-287 | those of a trim replace an extent in place |
| NodeLists.Unlink | src/octiron/pmm.c:288-295 | those of a removal, at the head or behind a predecessor, drop the extent and its node |
| Extents.TakeConserves | src/octiron/pmm.c:262-307 | what first fit takes from a list and what it leaves are together, byte for byte, what was there |
| Extents.TakeSorted | src/octiron/pmm.c:262-307 | first fit keeps a list ascending, non-empty, page-aligned and inside its region |
| Extents.TakeLeast | src/octiron/pmm.c:262-311 | in a list without touching blocks first fit finds any aligned free window there is, and takes none higher |
| Extents.TakePageLength | src/octiron/pmm.c:271-295 | at page alignment a block is never split |
| PmmSpec.RoundedCovers | src/octiron/pmm.c:224 | the rounded size covers the request exactly when rounding does not carry out of 64 bits, and is zero otherwise |
| PmmSpec.AllocSound | src/octiron/pmm.c:209-317 | an allocation keeps lists sorted and aligned, `region.free` the sum of its blocks, `pmm.free` the sum over regions, and list nodes plus free slab blocks constant; at page alignment it takes no node |
| PmmSpec.AllocConserves | src/octiron/pmm.c:251-307 | the bytes handed out are exactly the bytes that stop being free |
| PmmSpec.FirstFitLeast | src/octiron/pmm.c:224-317 | for non-empty requests OUT_OF_MEMORY is reported exactly when no region has an aligned free window of the rounded size; otherwise the result is the least such window by region index, then address |
| PmmSpec.FirstFitBlocks | src/octiron/pmm.c:224-317 | in every sound state, touching free blocks or not, and for any size: OUT_OF_MEMORY is reported exactly when no single free block holds an aligned window of the rounded size; otherwise the result is the least such window by region index, then address |
| PmmSpec.AllocOutcomes | src/octiron/pmm.c:217-250 | which request is refused before the search, and with what: the alignment is no power of two or below 4096, too little is free, fewer than 16 list nodes are left, or the policy is not first fit |
| PmmSpec.AllocGapped | src/octiron/pmm.c:271-295 | non-empty requests never leave touching free blocks |
| PmmSpec.EmptyAllocGapped | src/octiron/pmm.c:268-287 | an empty request is granted exactly when some block has room at an aligned address, and leaves no touching blocks exactly when, in the first such block, that address is the block's base or its end |
| PmmSpec.EmptyPageAllocGapped | src/octiron/pmm.c:268-322 | at page alignment an empty request never leaves touching blocks |
| PmmSpec.EmptyAllocHidesWindow | src/octiron/pmm.c:224-317 | a run in which an empty request makes a later request fail although a window is free |
| PmmSpec.AllocRefused | src/octiron/pmm.c:217-316 | a refused request changes nothing |
| PmmSpec.AddInsideIff | src/octiron/pmm.c:81-87 | an added region lies inside the bytes given exactly when their start does not round up past their end |
| PmmSpec.AddUnderflows | src/octiron/pmm.c:82-87 | one byte at address 1 is accepted as a region of all but a page of the address space |
| PmmSpec.AddAfterUnderflow | src/octiron/pmm.c:92-99 | after that a page inside the region is accepted again, because the region's end has wrapped to 0 |
| PmmSpec.AddSound | src/octiron/pmm.c:74-117 | adding a region that does not underflow keeps lists and counters in order and the nodes accounted for |
| PmmSpec.AddOutcomes | src/octiron/pmm.c:74-104 | with which error a region is refused: a NULL base, no whole page among the bytes given, sixteen regions already, a region that reaches up to the last of these pages, or no list node; and then nothing changes |
| PmmSpec.AddedRegion | src/octiron/pmm.c:81-116 | what is added otherwise: one free region of exactly the whole pages among the bytes given |
| PmmSpec.AddDisjointIff | src/octiron/pmm.c:92-99 | an added region is disjoint from the others exactly when it starts at or behind the end of each |
| PmmSpec.AddOverlaps | src/octiron/pmm.c:92-99 | a region around an already managed page is accepted |
| PmmSpec.RunKeepsInv | src/octiron/pmm.c:74-317 | over any run of additions and allocations with disjoint regions: sound lists and counters at all three levels, list nodes accounted for, and free blocks together with every extent ever returned partition the managed bytes |
| PmmSpec.InitialInv | src/octiron/pmm.c:66-70 | the initial state has these invariants |
| PmmSpec.NoDoubleAllocation | src/octiron/pmm.c:209-317 | from initialisation, over any such run, a byte handed out is in no other extent handed out, in no free block, and in exactly one region |
| PmmSpec.RunKeepsGapped | src/octiron/pmm.c:209-317 | as long as no request rounds to nothing, no free blocks touch in any state reached, so first fit stays complete |
| PhysicalMemoryManager.Pmm.Initialize | src/octiron/pmm.c:55-72 | no regions, no memory, and 64 list nodes |
| PhysicalMemoryManager.Pmm.AlreadyReached | src/octiron/pmm.c:92-99 | the loop finds out whether some region reaches at least as high |
| PhysicalMemoryManager.Pmm.AddRegion | src/octiron/pmm.c:74-117 | on the region array and slab nodes, exactly the step of the state machine, error by error |
| PhysicalMemoryManager.Pmm.CutBlock | src/octiron/pmm.c:269-298 | the four cases leave exactly the pieces of the block around the request in its place, and adjust both counters and the nodes |
| PhysicalMemoryManager.Pmm.FindBlock | src/octiron/pmm.c:260-311 | the walk along the linked list stops at the first block with room, without wrapping, or at the end if there is none |
| PhysicalMemoryManager.Pmm.Find | src/octiron/pmm.c:251-268 | the loop over the regions finds what the search of the state machine finds |
| PhysicalMemoryManager.Pmm.AllocAligned | src/octiron/pmm.c:209-317 | exactly the step of the state machine; the bytes returned are zero, and no other word of memory changes |
| PhysicalMemoryManager.Pmm.AllocPages | src/octiron/pmm.c:319-322 | the same at page alignment |
| PhysicalMemoryManager.FitsInWords | src/octiron/pmm.c:266-267 | the 64-bit sums of the size test never wrap for blocks in physical memory, whatever the alignment |
| Ptes.VpnMeaning | src/octiron/paging.c:66-70 | the three indices are the base-512 digits of the page number |
| Ptes.SameVpn | src/octiron/paging.c:66-70 | two addresses have the same indices exactly when bits 12 to 38 agree |
| Ptes.TableRoundTrip | src/octiron/paging.c:86-99 | for every page below 2^56, the entry `page >> 2 OR 1` is valid, no leaf, and decodes to the page with and without the mask |
| Ptes.LeafRoundTrip | src/octiron/paging.c:71-104 | for every page below 2^56, the three-part entry decodes to the page with and without the mask, keeps its flags, is valid, and is a leaf exactly when one of read, write, execute is set |
| Ptes.PageOffsetMeaning | src/octiron/paging.c:183 | the offset mask yields bit 12 of the address |
| Ptes.AnswerMeaning | src/octiron/paging.c:204-207 | what the walk answers for a mapped page, in arithmetic |
| Ptes.AnswerExactIff | src/octiron/paging.c:183-207 | the answer is the mapped byte exactly when the address is page-aligned and its page is even or its frame is odd |
| Ptes.AnswerIdentity | src/octiron/paging.c:183-207 | page-aligned identity mappings are answered exactly |
| Sv39Spec.ReadRoot | src/octiron/paging.c:79-88 | a level-2 entry is valid exactly when its table is installed, and then no leaf, and names that table |
| Sv39Spec.ReadMid | src/octiron/paging.c:90-99 | so is a level-1 entry |
| Sv39Spec.ReadLow | src/octiron/paging.c:101-104 | a level-0 entry is valid exactly when the page number is mapped, and then a leaf that names the frame |
| Sv39Spec.InstallKeepsHolds | src/octiron/paging.c:80-98 | one store of a fresh zeroed page's entry turns the tables in memory into those of the same map with one table more |
| Sv39Spec.LeafKeepsHolds | src/octiron/paging.c:101-104 | one store of a level-0 entry changes the map at one page number and nowhere else |
| PagingSpec.PageFresh | src/octiron/paging.c:81-86 | a page from the manager is aligned, below 2^56, and the page of no table |
| PagingSpec.MapKeeps | src/octiron/paging.c:59-106 | mapping keeps the tree strict on pages of its own that the manager handed out; the map changes only on success, by one insertion at an absent page number; free memory plus 4096 times the tables stays constant, and list nodes never fall |
| PagingSpec.UnmapKeeps | src/octiron/paging.c:126-174 | unmapping succeeds exactly for a mapped aligned address, removes just that page number, returns its frame, and touches neither tables nor memory |
| PagingSpec.UnmapOutcomes | src/octiron/paging.c:126-174 | with which error unmapping fails, and that it then changes nothing |
| PagingSpec.PageAllocIff | src/octiron/pmm.c:226-317 | a page is handed out exactly when a page is free and 16 list nodes are left |
| PagingSpec.MapSucceedsIff | src/octiron/paging.c:59-106 | mapping succeeds exactly when both addresses are aligned, the page number is unmapped, and there is memory (and nodes, if any is needed) for the tables it lacks |
| PagingSpec.MapOutcomes | src/octiron/paging.c:59-106 | with which error mapping fails: an unaligned address, no memory or too few list nodes for a table it lacks, or a page number that is mapped |
| PagingSpec.MapFrames | src/octiron/paging.c:59-214 | a successful map makes its page translate and changes no other address; a failing one, also one that fails at its second table, changes no translation |
| PagingSpec.UnmapFrames | src/octiron/paging.c:126-214 | unmapping undoes the translation of its page and of no other address |
| PagingSpec.KRunKeeps | src/octiron/paging.c:59-174 | the invariant holds after every run of mapping, unmapping, adding regions and allocating |
| PagingSpec.BootedInv | src/octiron/paging.c:27-33 | the zeroed root outside the managed regions has it |
| PagingSpec.TablesSeparate | src/octiron/paging.c:80-98 | from boot, over any run, no table's page overlaps another table's or a free block |
| PagingSpec.RunTablesIff | src/octiron/paging.c:80-98 | over any run of mapping and unmapping, the tables become those before it plus one for every distinct level-2 prefix and every distinct pair of indices in it, whatever is unmapped, exactly when the tables lacking at the start fit into the memory free then |
| PagingSpec.RunAccounts | src/octiron/paging.c:80-98 | over any run of mapping and unmapping, free memory plus table pages is constant and list nodes never fall |
| Paging.PageTables.constructor | src/octiron/paging.c:27-33 | the zeroed root page is the empty map |
| Paging.PageTables.InstallTable | src/octiron/paging.c:79-87 | one level: the table is there already, or a zeroed page from the manager is linked in, or the state is unchanged |
| Paging.PageTables.MapSmallPage | src/octiron/paging.c:59-106 | on entries in memory, exactly the mapping step on the map, outcome by outcome |
| Paging.PageTables.Map | src/octiron/paging.c:40-57 | the dispatch on page size, with its errors |
| Paging.PageTables.Unmap | src/octiron/paging.c:126-174 | exactly the unmapping step; the leaf branches at levels 2 and 1 are never taken |
| Paging.PageTables.FindLeaf | src/octiron/paging.c:142-171 | its three reads end at the level-0 entry that names the mapped frame, or find an invalid entry, exactly as the page number is mapped or not |
| Paging.PageTables.VirtToPhys | src/octiron/paging.c:176-214 | the walk answers None exactly when the page number is unmapped, and otherwise the frame with the code's page offset; it never falls off the loop |
| Paging.EntryAtLevel | src/octiron/paging.c:187-211 | in every state, level-2 and level-1 entries are never leaves and valid level-0 entries always are |
| MapLists.MapPagesSucceedsIff | src/octiron/entry.c:32-37 | a range becomes mapped exactly when none of its pages is, it is no longer than 2^39 bytes, and the tables it lacks fit into free memory; then every page is mapped to itself with the given flags, and no other page changes |
| MapLists.MapListIff | src/octiron/entry.c:32-37 | any sequence of pages is mapped completely exactly when their page numbers are unmapped and pairwise distinct and the tables they lack fit into free memory |
| MapLists.PagesApartIff | src/octiron/paging.c:66-70 | the page numbers of a range are distinct exactly when it is no longer than 2^39 bytes |
| RangeSpec.MapPagesGrows | src/octiron/entry.c:32-37 | mapping a range, even one that fails half-way, changes no page that is mapped already |
| RangeSpec.UnmapPagesMeaning | src/octiron/devices/device_tree/device_tree.c:833-839 | unmapping a mapped range succeeds and removes exactly its pages |
| RangeSpec.MapUnmapRestores | src/octiron/devices/device_tree/device_tree.c:740-839 | mapping a range and unmapping it restores every translation although the tables have grown, and mapping it once more allocates nothing |
| Boot.IdMapRange | src/octiron/entry.c:25-38 | rounds the range out and maps it, or stops at the assertion |
| Boot.IdMapMeaning | src/octiron/entry.c:25-38 | gets through exactly when the rounded-out range is not empty, none of its pages is mapped, it is no longer than 2^39 bytes and the tables it lacks fit; then every byte of it comes to translate to the start of its own page, and no address outside its pages changes its translation |
| Boot.IdentityKept | src/octiron/entry.c:101-107 | mapping a further range, whether or not that succeeds, keeps earlier identity ranges |
| Boot.BootStepsIff | src/octiron/entry.c:101-107 | a sequence of ranges gets mapped exactly when none rounds to nothing and all their pages together are unmapped, have page numbers of their own, and lack no more tables than fit into free memory |
| Boot.LowRangesApart | src/octiron/entry.c:101-107 | for ranges below 2^39, their pages have page numbers of their own exactly when no two rounded-out ranges overlap |
| Boot.CheckRange | src/octiron/entry.c:111-115 | the assertions of one range hold exactly when every page of the walk from its start translates to itself |
| Boot.AllSelfIff | src/octiron/entry.c:110-140 | for a range that is mapped to itself that is so exactly when it starts on a page, or is empty |
| Boot.MapKernel | src/octiron/entry.c:98-140 | for all sections: boot gets past the mapping exactly when the six ranges are not empty, unmapped, page-disjoint, and the tables they lack fit; then every page of text is mapped to itself with flags 10, of read-only data with 2, of data, bss, stack and UART with 6, and no other page was added; and it gets past the assertions exactly when every section starts on a page |
| Boot.KernelRangesAre | src/octiron/entry.c:101-107 | which ranges are mapped, in which order and with which flags, in numbers |
| KernelInit.Start | src/octiron/entry.c:86-140 | from the initialisation of the physical memory manager over the early heap of 128 pages to the last assertion: mapping gets through exactly when the rounded-out ranges are not empty, their pages have page numbers of their own, and they go through at most 128 tables, a condition on the addresses of the image alone; then exactly the pages of the image and the UART are mapped, to themselves and with their flags, and the assertions hold exactly when every section starts on a page |
| Boot.MapBlob | src/octiron/devices/device_tree/device_tree.c:721-745 | the first page, then the magic number and the size from the first eight bytes of the header, big-endian, the return if the first four are not d0 0d fe ed, then the other pages, as steps on the map |
| Boot.UnmapBlob | src/octiron/devices/device_tree/device_tree.c:833-839 | the unmapping loop as steps on the map |
| Boot.BlobRestoredIff | src/octiron/devices/device_tree/device_tree.c:721-839 | after any allocations in between, unmapping the blob succeeds and restores the map exactly when the blob reaches past the start of its first page |
| Boot.BlobMagicLeaves | src/octiron/devices/device_tree/device_tree.c:721-736 | a blob without the magic number stays mapped with its first page, and nothing else changes |
| PagingExamples.WrongFrame | src/octiron/paging.c:183-207 | a run from boot that maps page 1 to frame 2, after which address 0x1000 translates to frame 3 |
| PagingExamples.BlobLeavesPage | src/octiron/devices/device_tree/device_tree.c:721-839 | a run from boot with an empty blob on a page boundary, whose page is still mapped at the end |
| DtbModel.TurnMoves | src/octiron/devices/device_tree/device_tree.c:779-813 | the token loop moves forward, and its alignment assertion never fails |
| DtbModel.TurnEnds | src/octiron/devices/device_tree/device_tree.c:779-813 | the loop ends at FDT_END, well only without a current node, stops at a token that is none, and passes FDT_NOP over |
| DtbTree.TokenBytes | src/octiron/devices/device_tree/device_tree.c:196-202 | the flattened form has the token words of the standard, 1, 2, 3, 4 and 9, big-endian |
| DtbTree.TurnOnToken | src/octiron/devices/device_tree/device_tree.c:778-813 | one turn on the bytes of an encoded token is the step of that token, behind its padding |
| DtbTree.NopsDontMatter | src/octiron/devices/device_tree/device_tree.c:802-803 | FDT_NOPs anywhere make no difference |
| DtbLayout.BuildTree | src/octiron/devices/device_tree/device_tree.c:209-258 | from any state, the tokens of a subtree append it, link it in as the last child of the current node, and come back to that node and depth |
| DtbLayout.ParserRoundTrip | src/octiron/devices/device_tree/device_tree.c:773-814 | for every tree whose copies fit the arena, with FDT_NOPs inserted anywhere, the loop ends at FDT_END with no current node and depth 0, having built exactly the arrays that lay the tree out |
| DtbLayout.ParsedIsTree | src/octiron/devices/device_tree/device_tree.c:773-814 | and these read back, pointer by pointer, as the tree: names, an unnamed root as "/", values, parents, children in blob order, properties in reverse blob order |
| DeviceTreeParser.DeviceTree.FindLast | src/octiron/devices/device_tree/device_tree.c:250-253 | the last node of a sibling list |
| DeviceTreeParser.DeviceTree.ParseNode | src/octiron/devices/device_tree/device_tree.c:232-258 | a new node becomes the current one, linked in behind its siblings; it fails exactly when the name does not fit the arena |
| DeviceTreeParser.DeviceTree.ParseProperty | src/octiron/devices/device_tree/device_tree.c:209-230 | a raw property in front of the current node's list, with copies that fit or NULL |
| DeviceTreeParser.DeviceTree.Parse | src/octiron/devices/device_tree/device_tree.c:773-814 | the token loop on any bytes, well-formed or not: the outcome and the arrays are those of the specification |
| DtbDecode.SplitJoin | src/octiron/devices/device_tree/device_tree.c:265-278 | for a value that ends in NUL the counting loop and the stepping loop agree: as many strings as NULs, none holding a NUL, and joining them gives back the value |
| DtbDecode.EntryStart | src/octiron/devices/device_tree/device_tree.c:275-278 | entry i is the string that starts where the first i strings end |
| DtbDecode.DecodedCompatibleJoins | src/octiron/devices/device_tree/device_tree.c:260-281 | whenever a `compatible` value is decoded, its strings hold no NUL and joined in order, each with its NUL, are the value |
| DtbDecode.FirstU32Meaning | src/octiron/devices/device_tree/device_tree.c:457-472 | a number read from a value is the big-endian value of its first four bytes, writing it gives these back, and a shorter value has none |
| DtbDecode.CellsRoundTrip | src/octiron/devices/device_tree/device_tree.c:328-343 | reading 0, 1 or 2 cells yields their big-endian value, and writing it big-endian gives back the bytes |
| DtbDecode.RegRoundTrip | src/octiron/devices/device_tree/device_tree.c:307-367 | for up to 2 address and 2 size cells, decoding a value into pairs and encoding them big-endian gives back the value |
| DtbDecode.RangesRoundTrip | src/octiron/devices/device_tree/device_tree.c:369-437 | the same for the triples of `ranges`: children, parents and lengths together are the value again |
| DtbDecode.DecodedRangesEncode | src/octiron/devices/device_tree/device_tree.c:369-437 | whenever `ranges` or `dma-ranges` is decoded, the three arrays encode to the whole records of the value, and a part of a record at its end is dropped |
| DtbDecode.StatusMeaning | src/octiron/devices/device_tree/device_tree.c:283-305 | a status is decoded to a value exactly when its text is the text of that value, the reason behind `fail-` included |
| DtbMeaning.DecodedHolds | src/octiron/devices/device_tree/device_tree.c:448-493 | whenever a property is decoded it holds what its name says, told by name and value alone: `reg` pairs and `ranges` and `dma-ranges` triples that encode to the value under the node's cell sizes, `compatible` strings that join to it, `phandle` and cell sizes whose four bytes begin it, `status` whose text begins it, `model` and `device_type` the text, `dma-coherent` and `dma-noncoherent` true and false, and anything else the raw value |
| DtbMeaning.CellsTooLargeIff | src/octiron/devices/device_tree/device_tree.c:460-473 | the pass is ended by a cell size exactly at an address cell size above 3 or a size cell size above 2 |
| DtbMeaning.NullStrays | src/octiron/devices/device_tree/device_tree.c:449-489 | for a value that did not fit the arena, reading it over its length is a read through NULL |
| DtbCells.CellsAreInherited | src/octiron/devices/device_tree/device_tree.c:443-498 | in every tree and at every node, the cell sizes are those of the nearest proper ancestor that declares them, or the initial ones |
| DtbCells.DeclaredLeast | src/octiron/devices/device_tree/device_tree.c:448-493 | of several declarations of a cell size in a node the first in the blob counts, wherever it stands among the properties, and its four bytes are the number; without one there is none |
| DtbCells.InheritsNearest | src/octiron/devices/device_tree/device_tree.c:443-498 | where a proper ancestor is the nearest with such a property, the four bytes of its first one are what the node inherits |
| DtbCells.InheritsDefault | src/octiron/devices/device_tree/device_tree.c:443-498 | and where there is none it inherits the default |
| DtbCells.ConformsIff | src/octiron/devices/device_tree/device_tree.c:443-498 | a node gets what section 2.3.5 of the Devicetree Specification says exactly when its parent declares a value or itself was given the default |
| DtbCells.TreeConformsIff | src/octiron/devices/device_tree/device_tree.c:443-498 | all nodes of a tree do exactly when every node with children declares a value or was given the default, which one walk down the tree finds out |
| DtbCells.CellsDiffer | src/octiron/devices/device_tree/device_tree.c:443-498 | a tree of three nodes in which the code gives the grandchild one address cell and the standard two |
| DtbCells.PropertyDecoded | src/octiron/devices/device_tree/device_tree.c:439-505 | after a successful pass every property of every node is decoded, and holds what its name says under the cell sizes its node inherits |
| DtbRewrite.RewriteProps | src/octiron/devices/device_tree/device_tree.c:443-493 | the loop along a node's property list decodes exactly that node's properties, each still raw when it is met, finds the cells for the children, and touches no other property, also when it ends early |
| DtbRewrite.RewriteNode | src/octiron/devices/device_tree/device_tree.c:439-505 | the recursive pass changes exactly the data of the subtree's properties and the cells of its nodes, to those of the pass on the tree; when it ends early it ends with that pass's failure, and has changed nothing but data and cells inside the subtree |
| DtbRewrite.RewriteChildren | src/octiron/devices/device_tree/device_tree.c:495-502 | the same for the loop along a child list by sibling pointers |
| DtbRewrite.RewriteTree | src/octiron/devices/device_tree/device_tree.c:816-828 | no nodes is an error; otherwise the pass over what the parser built, with 2 and 1 cells at the root |
| DtbWalk.RewrittenCells | src/octiron/devices/device_tree/device_tree.c:439-505 | after a successful pass, following child and sibling pointers down any path leads to a node whose cell sizes are those its nearest declaring proper ancestor declares, or 2 and 1 |
| DtbWalk.NearestAddressCells | src/octiron/devices/device_tree/device_tree.c:439-505 | in terms of bytes: where an ancestor is the nearest with a property `#address-cells`, the four bytes of its first one are the node's address cells |
| DtbWalk.NearestSizeCells | src/octiron/devices/device_tree/device_tree.c:439-505 | and those of `#size-cells` its size cells |
| DtbWalk.DefaultCells | src/octiron/devices/device_tree/device_tree.c:824-826 | and where there is none they are 2 and 1 |
| DtbWalk.RewrittenData | src/octiron/devices/device_tree/device_tree.c:439-505 | following that node's property list leads to each of its properties, the last in the blob first, holding what its name says for its value and the cell sizes the node holds |
| DtbWalk.Initialize | src/octiron/devices/device_tree/device_tree.c:773-828 | from bytes to the decoded tree: the blob of any tree whose copies fit the arena, with FDT_NOPs anywhere, is parsed and rewritten to exactly the laid-out tree with the data and cells of the pass, or fails as the pass does |
| Bumps.Bump.Alloc | src/kzadhbat/collections/bump_allocator.c:28-37 | NULL exactly for no bytes or too many; otherwise the next bytes |
| Bumps.Bump.Copy | src/kzadhbat/collections/bump_allocator.c:39-52 | fails exactly when the parser's copy does; otherwise the bytes stand at the old index and no other byte changes; they join the pieces that stay as they are and apart from each other |
| Bumps.Bump.CopyString | src/kzadhbat/collections/bump_allocator.c:54-69 | the copy with its NUL reads back as the string, and joins the pieces that stay |
| Bumps.Bump.AllocAligned | src/kzadhbat/collections/bump_allocator.c:71-82 | aligned and not below the old index, or NULL and no change; no piece made earlier is touched |
| Bumps.StoreLoad | include/kzadhbat/bitmacros.h:62-65 | a number stored little-endian in enough bytes loads as itself |
| ArenaDecoding.FillPairs | src/octiron/devices/device_tree/device_tree.c:326-359 | the decoding loop fills both arrays with the fields of all records, one array never disturbing the other, the value, or anything else |
| ArenaDecoding.RewriteReg | src/octiron/devices/device_tree/device_tree.c:307-367 | which assertion stops it when; otherwise two arrays of the arena, aligned, disjoint from each other and from everything allocated before, hold the decoded numbers, and the value is untouched; the arrays join the pieces that stay, so over any sequence of copies and decodings all copies, arrays and tables made so far still hold and none overlaps another |
| ArenaDecoding.RegSucceedsIff | src/octiron/devices/device_tree/device_tree.c:314-324 | for up to 2 cells each, a `reg` value is decoded exactly when it is whole records, at least one, and the aligned arrays fit; and what they take |
| ArenaDecoding.RangesSucceedsIff | src/octiron/devices/device_tree/device_tree.c:376-383 | a `ranges` value with a record is decoded exactly when its three arrays fit; and what they take |
| ArenaDecoding.CompatibleSucceedsIff | src/octiron/devices/device_tree/device_tree.c:265-274 | a `compatible` value is decoded exactly when it ends in NUL, or is empty, and the table fits; and what it takes |
| DtbDecode.DecodedRegEncodes | src/octiron/devices/device_tree/device_tree.c:307-367 | whenever decoding succeeds, writing the pairs back big-endian gives the value |
| ArenaDecoding.FillTable | src/octiron/devices/device_tree/device_tree.c:275-279 | for a value that ends in NUL the table receives one pointer per string and a NULL, filling it exactly; for any other it stops inside the table |
| ArenaDecoding.PointersMeaning | src/octiron/devices/device_tree/device_tree.c:275-278 | pointer i points into the value, at the start of the i-th string |
| ArenaDecoding.RewriteCompatible | src/octiron/devices/device_tree/device_tree.c:260-281 | which assertion stops it when; otherwise the words of a new aligned table are the addresses, in the arena as it is afterwards, of the decoded strings in order, and NULL; the value is untouched, and the table joins the pieces that stay |
| Printing.NumeralRoundTrip | src/kzadhbat/fmtprint.c:32-40 | the digits read back as the number, with no superfluous leading zero |
| Printing.PrintInjective | src/kzadhbat/fmtprint.c:27-59 | different numbers print differently |
| Printing.LiteralRoundTrip | src/kzadhbat/fmtprint.c:27-59 | for bases 2, 8, 10 and 16, reading the output as a literal with "0x", "0o" or "0b" gives back base and value |
| Printing.Printer.FillDigits | src/kzadhbat/fmtprint.c:31-40 | the digit loop leaves exactly the numeral at the right end of the buffer, whatever was there before; the guard on `i` cuts nothing short |
| Printing.Printer.PrintInt | src/kzadhbat/fmtprint.c:27-59 | for every 64-bit value the output, read as a literal, gives back base and value for bases 2, 8, 10 and 16, and is the prefix and the numeral for every base; all writes are inside the buffer, and the final NUL survives |
| Printing.Printer.PrintStr | src/kzadhbat/fmtprint.c:18-25 | prints up to the NUL and not beyond |

## Left out

- Slabs.SlabAllocator.Grow: models `slab_grow` with the two slips of src/kzadhbat/slab.c:37 and :45-51 corrected, because as written no counted block lies in its buffer unless that is longer than half the address space; it also requires the buffer to lie beside the regions there are.
- Slabs.SlabAllocator.Free: requires that a block is not returned twice and that an address inside a region is a block; the source has no test for either.
- PmmSpec.RunKeepsInv: only for additions that do not underflow and start behind the regions there are, since the source accepts others; `PmmSpec.AddInsideIff` and `PmmSpec.AddDisjointIff` say exactly which.
- PmmSpec.FirstFitLeast: only in states without touching free blocks, which `PmmSpec.RunKeepsGapped` and `PmmSpec.EmptyAllocGapped` characterise; `PmmSpec.FirstFitBlocks` says what holds in all sound states.
- Paging.PageTables.Map: requires frames below 2^56 and flags of bits 0 to 7 with read, write or execute set, as every caller passes; other flags would make entries that decode as tables. There is one root table, `kernel_root`.
- DtbLayout.ParserRoundTrip: for blobs whose names and values fit the arena; what happens otherwise is in the specification of `DeviceTreeParser.DeviceTree.Parse`, but no tree is claimed.
- DeviceTreeParser.DeviceTree.Parse: names and values are modelled as the byte strings copied, and `Bumps` says separately that a copy in the arena reads back; nodes and properties are array elements that keep their index, so the relocation done by `ARRAY_PUSH`, after which older pointers dangle, is not modelled.
- DtbRewrite.RewriteNode: decoded data are values here; `ArenaDecoding` has the arrays in the arena for `reg` and `compatible`, and for `ranges` and `dma-ranges` only the values are modelled. When the pass fails, the failure and what it has not touched are stated, not which properties it had decoded by then.
- DtbRewrite.RewriteProps: decodes a property by the function of `DtbDecode`; the loops inside `dtb_rewrite_property_compatible` and `dtb_rewrite_property_reg` are methods of `ArenaDecoding`, proved to have that function's outcome.
- ArenaDecoding.RewriteReg: three address cells read 16 bytes at a stride of 12 and count as straying, so nothing is claimed for them; so does a division by zero when there are no cells at all.
- `pmm_remove_region`: reads block fields after overwriting them and keeps a stale region count, so it has no carve-out to state.
- `pmm_free`, mega and giga pages, best and worst fit, `dt_lookup_node`: not implemented in the source beyond an error or NULL.
- A NULL `ret` in `pmm_alloc_aligned`, which the source writes through before reporting it.
- The loop over the memory reservation block, which never advances, and the header offsets: the token loop starts from the structure and strings blocks.
- `err_push`, `err_pop` and the shift they use: errors are datatypes, and only the first error is kept.
- Format-string dispatch, printing of the tree, UART, CSR access, boot assembly, traps and the reboot driver.
- Translation caches and fences, and more than one hart.
