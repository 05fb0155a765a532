# The memory manager of ChCore, verified

ChCore is a teaching microkernel for AArch64.  This project models its memory manager
and two smaller pieces of its kernel library in Dafny, and proves what they are for.

* **Buddy allocator** (`Rings`, `BuddySpec`, `BuddyTheory`, `BuddyCount`, `BuddyAllocator`, `PageAlloc`).
  `PhysMemPool` is the allocator in place: metadata arrays, fourteen pointer rings, counters.
  `BuddySpec.Pool` is the same on values: which chunks tile the pool, and the free lists.
  Chunks are named by their first page; the pool starts on any page and has any number of
  pages.  Only the metadata of a chunk's first page is claimed to be accurate; the rest is stale.
* **Page table** (`Fields`, `Descriptors`, `DescriptorWords`, `PageTableSpec`, `PageTableRanges`, `PageTableSteps`,
  `PageTableOwnership`, `PageTableRuns`, `PageTables`).  `AddressSpace` is a four-level table of 64-bit words in
  physical frames taken from a `PhysMemPool`.  `PageTableSpec.Find` is its meaning: what each
  virtual address translates to.
* **Slabs, kmalloc and kfree** (`SlabSpec`, `SlabSteps`, `SlabBlocks`, `SlabCount`, `KmallocSpec`,
  `SlabFrames`, `SlabInit`, `KmallocRuns`, `Kmalloc`).  `KernelHeap` keeps headers, chains and free lists in the words of
  the memory it hands out, over a `PhysMemPool`.  A user's write into a block in use is a step.
* **memcpy and memmove** (`MemCopy`), with the loads and stores of the assembly.
* **Number printing** (`Printk`), with its buffer, padding and signs.

`Bits` holds powers of two, alignment and XOR; `Options` an option type.

A `BUG_ON` is a precondition of a call or an assertion that verifies, so none of those in the
modelled functions can fire, except where memory runs out: there the result is
`Stuck`, `None` or `false`, and the contract says that the buddy allocator had no chunk.

## Main results

* **Buddy.**  In every state that calls can reach, chunks tile the pool, are aligned in absolute
  addresses, and no two free buddies coexist.  Hence `BuddyTheory.GetComplete`: NULL exactly when
  no aligned, entirely free run of that size exists.  `BuddyTheory.RunReturnsToStart`: whatever the
  calls were and in whatever order chunks came back, the pool ends as it began.
  `BuddySpec.BuddyIsHead`: whenever the buddy's position lies in the pool, it is the first page of a chunk, so
  `merge_page` never reads stale metadata, although chunks at the edge of the pool have no whole buddy.
* **Page table.**  `PageTableRanges.HugeRefinesPages`: mapping with 1GB and 2MB blocks and mapping
  with 4KB pages give the same translation for every address; `PageTableRuns.RunsAgree` extends this to
  whole runs of map and unmap calls, and `PageTableRuns.RunMeaning` says what that translation is.  Mapping then unmapping restores
  every translation, with the variable stride never landing inside a block.
  `PageTableRanges.MappedWord` and `PageTableSpec.WalkInNumbers` say it in numbers: the words written and the bits read.
  `PageTableOwnership.HugeMapCost` bounds the tables that one huge map allocates.
  `free_page_table` frees each reachable table exactly once.  A run gives all of its pages back if and only if
  no call wrote a block over a table entry (`PageTableRuns.RunLosesNone`).
* **kmalloc.**  Over every run of calls and user writes: the blocks in use are those taken and not given back
  (`KmallocRuns.BlocksInUse`); none shares a byte with another block, a slab header, a free slot or a free chunk
  (`HeldBlocksApart`); a block keeps its place and holds the requested bytes as long as it is in use
  (`HeldBlockStays`, `RequestHolds`); and it reads back what its holder wrote last (`HeldBlockReadsBack`).
* **memmove** is the simple copy for every overlap; **memcpy** for every overlap up to 96 bytes and downwards beyond.
* **Printing** reads back as the value, with the exact condition under which it does not.

## Where the code does not do what one would expect

* `kmalloc` of more than 2^64 - 4096 bytes: the rounding up to pages wraps to zero and a single page is
  returned.  `KmallocSpec.ChunkLargeEnough` proves that the chunk is large enough if and only if the
  size is at most 2^64 - 4096.
* The `l1_block` and `l2_block` layouts place PXN and UXN one bit above where `l3_page` has them, and
  `set_pte_flags` always writes through `l3_page`.  Seen as a block, PXN is the UXN bit that
  was written (`Descriptors.BlockViewShifted`).  The hardware's positions are those of `l3_page`.
* `map_range_in_pgtbl` and `unmap_range_in_pgtbl` are documented to return `-EINVAL` and `-ENOMAPPING`; the code
  always returns 0.  The note that `query_in_pgtbl` supports 4KB pages only is out of date: it handles blocks.
* Writing a block over a table entry leaks the tables below it: `PageTableRuns.LeakHappens` is a concrete run,
  and `PageTableRuns.RunLosesNone` the exact condition.
* With PAD_ZERO and PAD_RIGHT together zeros are appended to the number, which changes what it reads as
  (`Printk.ReadsBack`).  A negative number in base 2 needs one byte more than the buffer has (`Printk.FitsBuffer`).

## Model

| member | source | states |
|---|---|---|
| Rings.ListRings.constructor | kernel/include/common/list.h:23-27 | every list starts as a ring of its own head alone |
| Rings.ListRings.Add | kernel/include/common/list.h:29-35 | the node becomes the first of that list; every other list keeps its nodes and order |
| Rings.ListRings.Delete | kernel/include/common/list.h:43-47 | a node at any position leaves its list; the rest keeps its order, and the other lists are untouched |
| Rings.ListRings.First | kernel/mm/buddy.c:161-162 | head->next is the first node of a non-empty list |
| Rings.RingInsert | kernel/include/common/list.h:29-35 | the four pointer writes keep next and prev inverse of one another on one closed ring |
| Rings.RingDelete | kernel/include/common/list.h:43-47 | the two pointer writes close the ring around the node, wherever it is |
| Rings.OtherRing | kernel/include/common/list.h:29-47 | pointer writes at nodes of one ring leave every other ring as it was |
| Bits.XorOfScaled | kernel/mm/buddy.c:79-81 | XOR on byte addresses is XOR on page numbers |
| Bits.FlipAligned | kernel/mm/buddy.c:79-81 | on an aligned chunk the XOR is plus or minus 2^k pages: the other half of the enclosing block |
| Bits.FlipTwice | kernel/mm/buddy.c:79-81 | the XOR is an involution |
| BuddySpec.BuddyIsHead | kernel/mm/buddy.c:202-214 | if a chunk's buddy position is in the pool, it is the first page of a chunk of no larger order, so its metadata is accurate and the BUG_ONs hold |
| BuddySpec.SplitBuddy | kernel/mm/buddy.c:122-124 | after the order is lowered the buddy is the upper half, inside the pool and not yet the first page of a chunk |
| BuddySpec.SplitHeld | kernel/mm/buddy.c:121-128 | one level of split_page keeps tiling, alignment, lists and canonical form, with the chunk still in hand |
| BuddySpec.MergeHeld | kernel/mm/buddy.c:216-224 | one level of merge_page keeps them too, whichever of the two halves is the lower |
| BuddySpec.PutBack | kernel/mm/buddy.c:252-257 | when no merge is possible, listing the chunk gives a state in which no two free buddies coexist |
| BuddyTheory.GetCorrect | kernel/mm/buddy.c:142-179 | NULL changes nothing; else exactly one chunk of that order comes into use, cut from a smallest sufficient free chunk, and the invariant holds |
| BuddyTheory.GetTakes | kernel/mm/buddy.c:142-179 | exactly the 2^order pages from the result stop being free, and all of them were free |
| BuddyTheory.GetComplete | kernel/mm/buddy.c:139-179 | NULL if and only if the order is 14 or more or no aligned, entirely free run of 2^order pages exists |
| BuddyTheory.NoFreeBuddies | kernel/mm/buddy.c:187-229 | in every state no two free chunks of one order below 13 are the two halves of a block, and no order exceeds 13 |
| BuddyTheory.RunInOneChunk | kernel/mm/buddy.c:187-229 | coalescing is complete: every aligned free run lies inside a single free chunk |
| BuddyTheory.FreeCorrect | kernel/mm/buddy.c:234-258 | exactly the freed chunk leaves the chunks in use, and the invariant holds |
| BuddyTheory.FreeIffNotInUse | kernel/mm/buddy.c:23-61 | a page of the pool is free if and only if no chunk in use covers it |
| BuddyTheory.FreePagesDecide | kernel/mm/buddy.c:187-258 | the free chunks depend only on which pages are free |
| BuddyTheory.OutstandingDecides | kernel/mm/buddy.c:187-258 | two states with the same chunks in use have the same chunks and, as sets, the same free lists |
| BuddyTheory.GetThenFree | kernel/mm/buddy.c:142-258 | freeing a chunk just allocated undoes the allocation |
| BuddyTheory.RunReturnsToStart | kernel/mm/buddy.c:56-60 | after any legal run that gives everything back, in any order, chunks and free lists are those of init_buddy |
| BuddyCount.Conservation | kernel/mm/buddy.c:295-315 | in every state the counted free memory is 4096 times the pages not in chunks in use |
| BuddyCount.GetCosts | kernel/mm/buddy.c:142-179 | an allocation lowers the free memory by exactly 4096 * 2^order, and NULL not at all |
| BuddyCount.FreeCosts | kernel/mm/buddy.c:234-258 | a free raises it by exactly what the chunk took |
| BuddyCount.InUseHead | kernel/mm/buddy.c:142-179 | a chunk in use lies inside the pool and is aligned to its size in absolute addresses |
| BuddyCount.InUseApart | kernel/mm/buddy.c:142-179 | chunks in use are pairwise disjoint |
| BuddyAllocator.PhysMemPool.GetBuddyChunk | kernel/mm/buddy.c:65-91 | the page of the buddy of the chunk in hand, and NULL exactly when it is outside the pool |
| BuddyAllocator.PhysMemPool.BuddyAddress | kernel/mm/buddy.c:72-88 | the address computed by XOR is that of the buddy page, and the bounds test is exact |
| BuddyAllocator.PhysMemPool.VirtToPageInverts | kernel/mm/buddy.c:260-293 | virt_to_page of any byte of a page gives that page, and page_to_virt inverts it |
| BuddyAllocator.PhysMemPool.SplitPage | kernel/mm/buddy.c:100-137 | refines the split on values, every BUG_ON held |
| BuddyAllocator.PhysMemPool.BuddyGetPages | kernel/mm/buddy.c:142-179 | result and new state are those of the specification GetPages |
| BuddyAllocator.PhysMemPool.BuddyMetadata | kernel/mm/buddy.c:204-214 | the metadata read at the buddy decides the merge, although metadata inside chunks is stale |
| BuddyAllocator.PhysMemPool.MergePage | kernel/mm/buddy.c:187-229 | refines the merge on values, every BUG_ON held |
| BuddyAllocator.PhysMemPool.BuddyFreePages | kernel/mm/buddy.c:234-258 | the new state is that of the specification FreePages |
| BuddyAllocator.PhysMemPool.GetFreeMemSize | kernel/mm/buddy.c:295-315 | the counters add up to the pages on the free lists |
| BuddyAllocator.PhysMemPool.Blank | kernel/mm/buddy.c:32-54 | empty lists, and every page a chunk of order 0 that is marked allocated |
| BuddyAllocator.PhysMemPool.FreeAll | kernel/mm/buddy.c:56-60 | freeing every page in turn reaches the coalesced initial state |
| BuddyAllocator.InitBuddy | kernel/mm/buddy.c:25-61 | a valid pool with nothing in use, for any page-aligned start and any number of pages whose end is below 2^64 |
| PageAlloc.GetPagesAt | kernel/mm/kmalloc.c:89-106 | the address of the chunk that the specification gives, or NULL |
| PageAlloc.FreePagesAt | kernel/mm/kmalloc.c:108-113 | an address of a chunk in use gives that chunk back |
| Fields.GetSet | kernel/include/arch/aarch64/arch/mm/page_table.h:78-157 | a bit field reads as what was written to it, cut to its width |
| Fields.GetOther | kernel/include/arch/aarch64/arch/mm/page_table.h:78-157 | writing a bit field leaves every field that shares no bit with it |
| Descriptors.FlagsKeep | kernel/arch/aarch64/mm/page_table.c:36-76 | for all flags, set_pte_flags keeps valid, table and frame fields of every layout |
| Descriptors.FlagsTake | kernel/arch/aarch64/mm/page_table.c:47-73 | afterwards the attributes are those of the flag bits 1 to 4, in numbers, whatever the entry held |
| Descriptors.BlockViewShifted | kernel/include/arch/aarch64/arch/mm/page_table.h:99-113 | set_pte_flags writes bits 53 and 54; a block layout reads its PXN from bit 54 and its UXN from bit 55, which is never written |
| Descriptors.TableDescReads | kernel/arch/aarch64/mm/page_table.c:149-160 | a table entry is valid, is a table, and decodes to the frame it was made for |
| DescriptorWords.TableWord | kernel/arch/aarch64/mm/page_table.c:149-156 | the entry for the table in frame p is the number p * 0x1000 + 3 |
| DescriptorWords.LeafWord | kernel/arch/aarch64/mm/page_table.c:36-76 | the entry for an aligned block or page is this number: the address plus 3 or 1, memory type, permissions, shareability, AF, nG, PXN and UXN, each written out from the bits of the flags |
| DescriptorWords.EntryReads | kernel/include/arch/aarch64/arch/mm/page_table.h:37-41 | bit 0 is valid, bit 1 table, and the next table's frame is bits 12 to 47 |
| DescriptorWords.TargetReads | kernel/arch/aarch64/mm/page_table.c:263-296 | the address read from any 1GB, 2MB or 4KB entry, in numbers |
| DescriptorWords.AttrReads | kernel/include/arch/aarch64/arch/mm/page_table.h:137-155 | which bits of an entry are its attributes |
| Descriptors.LeafDescReads | kernel/arch/aarch64/mm/page_table.c:342-347 | a block or page entry is valid, has the right table bit, and decodes to its frame and attributes |
| Descriptors.DescriptorsFit | kernel/arch/aarch64/mm/page_table.c:149-156 | every entry that the code builds is a 64-bit word, and by the invariant every entry in memory is one |
| Descriptors.TargetOfLeaf | kernel/arch/aarch64/mm/page_table.c:263-296 | decoding an entry made for an aligned block gives its physical address plus the offset, at each block size |
| PageTableSpec.IndicesRebuild | kernel/include/arch/aarch64/arch/mm/page_table.h:49-74 | the four indices are bits 39-47, 30-38, 21-29 and 12-20, and with the offset rebuild any 48-bit address |
| PageTableSpec.WalkInNumbers | kernel/arch/aarch64/mm/page_table.c:233-301 | what a walk finds, written out over the four levels in numbers: index bits, valid and table bits, and next frames |
| PageTableSpec.WriteFind | kernel/arch/aarch64/mm/page_table.c:342-347 | writing an entry changes the translation of exactly the addresses of that entry |
| PageTableSpec.WriteTables | kernel/arch/aarch64/mm/page_table.c:342-347 | it changes the tables only below that entry |
| PageTableSpec.InsertFind | kernel/arch/aarch64/mm/page_table.c:137-156 | linking a fresh zeroed table changes no translation |
| PageTableSpec.InsertTables | kernel/arch/aarch64/mm/page_table.c:137-156 | it adds exactly one table to the paths |
| PageTableSpec.TableFromFor | kernel/arch/aarch64/mm/page_table.c:97-166 | tables form a tree without aliasing: a walk ends at the one table for its addresses |
| PageTableRanges.TestsChooseLevel | kernel/arch/aarch64/mm/page_table.c:415-449 | at every loop position the two tests, in numbers, pick the largest block that fits |
| PageTableRanges.NextBoundary | kernel/arch/aarch64/mm/page_table.c:425-462 | the mapping loop never lands inside a block that fits |
| PageTableRanges.MappedMeaning | kernel/arch/aarch64/mm/page_table.c:313-466 | an address of the range means pa + (a - va) with the attributes asked for, whatever block size was chosen |
| PageTableRanges.MappedWord | kernel/arch/aarch64/mm/page_table.c:313-466 | after a map the entry found for an address of the range is the number made of its block's physical address and the flag bits |
| PageTableRanges.HugeRefinesPages | kernel/arch/aarch64/mm/page_table.c:313-466 | after a huge map and after a 4KB map of the same range every address, inside or outside, has the same meaning |
| PageTableRanges.MappedIsInside | kernel/arch/aarch64/mm/page_table.c:400-466 | after a map every block that meets the range lies inside it |
| PageTableRanges.MapThenUnmap | kernel/arch/aarch64/mm/page_table.c:400-508 | mapping an unmapped range and unmapping it restores every translation |
| PageTableRanges.MapTwice | kernel/arch/aarch64/mm/page_table.c:400-466 | mapping over an earlier mapping of the same range leaves only the later one |
| PageTableSteps.InsertKeeps | kernel/arch/aarch64/mm/page_table.c:97-166 | a table allocated on the way keeps what the loop has mapped and every other translation |
| PageTableSteps.PutKeeps | kernel/arch/aarch64/mm/page_table.c:415-462 | writing a block or page extends the mapped part by exactly that block |
| PageTableSteps.ClearKeeps | kernel/arch/aarch64/mm/page_table.c:483-504 | clearing the entry found unmaps exactly its block |
| PageTableSteps.NextEdge | kernel/arch/aarch64/mm/page_table.c:477-505 | the variable stride of the unmapping loop never lands inside a block |
| PageTableOwnership.SurvivesIff | kernel/arch/aarch64/mm/page_table.c:415-447 | a table stays reachable over a map if and only if no block was written over an entry on its path |
| PageTableOwnership.MapLosesNone | kernel/arch/aarch64/mm/page_table.c:313-466 | a call loses no table if and only if it writes no block over an entry on the path of one; every new table is reachable |
| PageTableOwnership.MapFindsNone | kernel/arch/aarch64/mm/page_table.c:313-466 | a table that was lost stays lost |
| PageTableOwnership.UnmapLosesNone | kernel/arch/aarch64/mm/page_table.c:364-508 | unmapping neither loses a table nor finds a lost one again |
| PageTableOwnership.BelowRoot | kernel/arch/aarch64/mm/page_table.c:168-217 | the tables that free_page_table visits are exactly the reachable ones |
| PageTableOwnership.HugeMapCost | kernel/arch/aarch64/mm/page_table.c:410-463 | with va and pa equal modulo 1GB, one call adds at most two level-3 tables, two level-2 tables and one level-1 table for each 512GB slot |
| PageTableRuns.RunMeaning | kernel/arch/aarch64/mm/page_table.c:313-508 | after any run of map and unmap calls every address means what the last call that touched it says |
| PageTableRuns.RunsAgree | kernel/arch/aarch64/mm/page_table.c:313-508 | two runs that differ only in the use of blocks give every address the same meaning |
| PageTableRuns.RunLosesNone | kernel/arch/aarch64/mm/page_table.c:168-508 | a run ends with every table below the root, so that freeing returns all of them, if and only if no call of it wrote a block over a table entry |
| PageTableRuns.LeakHappens | kernel/arch/aarch64/mm/page_table.c:415-428 | mapping one 4KB page at 0x4000_0000 and then the 1GB from there leaves the page's level-2 and level-3 table allocated but out of reach |
| PageTables.AddressSpace.constructor | kernel/arch/aarch64/mm/page_table.c:233-252 | a cleared level-0 table translates nothing |
| PageTables.AddressSpace.NewPtp | kernel/arch/aarch64/mm/page_table.c:137-157 | a page from the buddy allocator becomes an empty table; the word linking it is its frame times 0x1000 plus 3, and its frame is the page's address less 0xFFFFFF0000000000; other owners' chunks are untouched |
| PageTables.AddressSpace.TablesLinked | kernel/arch/aarch64/mm/page_table.c:78-80 | every table's frame is the physical frame of a page that is in use for it |
| PageTables.AddressSpace.PeekNextPtp | kernel/arch/aarch64/mm/page_table.c:97-166 | without allocation: the kind of entry, and the next table on the path |
| PageTables.AddressSpace.GetNextPtp | kernel/arch/aarch64/mm/page_table.c:97-166 | with allocation: the next table on the path exists afterwards, and the mapping so far is kept |
| PageTables.AddressSpace.QueryInPgtbl | kernel/arch/aarch64/mm/page_table.c:233-301 | physical address and entry as the translation says, or -ENOMAPPING exactly for unmapped addresses |
| PageTables.AddressSpace.MapRangeInPgtbl | kernel/arch/aarch64/mm/page_table.c:313-354 | exactly the range is mapped, everything else translates as before, tables are kept and new ones needed |
| PageTables.AddressSpace.MapRangeInPgtblHuge | kernel/arch/aarch64/mm/page_table.c:400-466 | the same with the largest blocks that fit |
| PageTables.AddressSpace.UnmapRangeInPgtbl | kernel/arch/aarch64/mm/page_table.c:364-398 | exactly the range is unmapped, and no table changes |
| PageTables.AddressSpace.UnmapRangeInPgtblHuge | kernel/arch/aarch64/mm/page_table.c:468-508 | the same with blocks, each inside the range |
| PageTables.AddressSpace.FreeTable | kernel/arch/aarch64/mm/page_table.c:204-216 | free_pages is called only on a table that is still in use, so never twice |
| PageTables.AddressSpace.FreeBelow | kernel/arch/aarch64/mm/page_table.c:183-214 | the loops free everything below a table, bottom up, and nothing else |
| PageTables.AddressSpace.FreePageTable | kernel/arch/aarch64/mm/page_table.c:168-217 | every reachable table is freed exactly once, and nothing else; the chunks in use afterwards are those of the other owners if and only if no table was lost |
| PageTables.AddressSpace.MemoryCost | kernel/mm/buddy.c:295-315 | while the page table lives, free memory is the pool less the other owners' pages less one page per table |
| SlabSpec.PartsApart | kernel/mm/slab.c:71-183 | no two of: slots in use, free slots, slab headers, larger blocks, free chunks share a byte |
| SlabSteps.PopInv | kernel/mm/slab.c:108-113 | taking the first free slot keeps the heap invariant |
| SlabSteps.PopThreaded | kernel/mm/slab.c:108-113 | free_list_head names the first free slot, and after the write memory spells out the shorter list and everything else |
| SlabSteps.PushThreaded | kernel/mm/slab.c:179-182 | the two writes of free_in_slab put the slot in front and disturb no other list, chain or header |
| SlabSteps.PushWords | kernel/mm/slab.c:170-183 | the two writes of free_in_slab change no word inside a block that stays in use |
| SlabSteps.UserWriteThreaded | kernel/mm/slab.c:170-183 | whatever a user writes inside its own block, all free lists, chains and headers survive |
| SlabSteps.AddThreaded | kernel/mm/slab.c:82-96 | threading a new slab and linking it disturbs nothing outside it and makes it the head of its chain |
| SlabFrames.NewSlabWords | kernel/mm/slab.c:71-99 | building a new slab changes no word inside a block in use |
| SlabBlocks.AllSlotsOk | kernel/mm/slab.c:82-96 | the new free list holds every slot but the header's, each once |
| SlabBlocks.PopGains | kernel/mm/slab.c:108-113 | exactly that slot comes into use |
| SlabBlocks.PushGives | kernel/mm/slab.c:179-182 | exactly that slot goes out of use |
| SlabBlocks.AddKeepsBlocks | kernel/mm/slab.c:126-129 | a new slab alone changes no block in use |
| SlabBlocks.SlotMarked | kernel/mm/kmalloc.c:81-82 | the page of a slot has page->slab set to its slab |
| SlabBlocks.LargeUnmarked | kernel/mm/kmalloc.c:81-85 | the first page of a larger block has page->slab NULL |
| SlabCount.TookFree | kernel/mm/slab.c:101-132 | an allocation lowers the free bytes by the slot size, or, with a new slab, first adds 2MB less one slot |
| SlabCount.PushFree | kernel/mm/slab.c:170-183 | freeing a slot raises the free bytes by its size |
| SlabCount.NewSlabFree | kernel/mm/slab.c:82-96 | a new slab adds all its bytes but those of the header's slot |
| KmallocSpec.ChunkLargeEnough | kernel/mm/kmalloc.c:26-61 | the chunk holds the requested bytes if and only if the size is at most 2^64 - 4096, and then it is less than twice the size, from half a page on |
| KmallocSpec.ChunkOrderExact | kernel/mm/kmalloc.c:26-61 | the order is the least whose chunk holds the size in bytes; 0 up to a page, and 0 where rounding up wraps |
| KmallocSpec.NewSlabNotFull | kernel/mm/slab.c:126-131 | after a new slab its order is not full, so the recursive call ends |
| KmallocSpec.TookAfterNew | kernel/mm/slab.c:126-131 | the recursive call always succeeds, with a slot of the fresh slab |
| KmallocRuns.StepKeeps | kernel/mm/kmalloc.c:47-87 | every call keeps the heap invariant and changes the blocks in use by exactly the block it takes or gives |
| KmallocRuns.BlocksInUse | kernel/mm/kmalloc.c:47-87 | over every run the blocks in use are those taken and not given back since |
| KmallocRuns.HeldBlocksApart | kernel/mm/kmalloc.c:47-87 | at every moment of every run a held block shares no byte with another block, header, free slot or free chunk |
| KmallocRuns.HeldBlockStays | kernel/mm/kmalloc.c:47-87 | over every run a block keeps its place and size from the call that took it until it is given back |
| KmallocRuns.RequestHolds | kernel/mm/kmalloc.c:47-87 | over every run a block holds at least the requested bytes as long as it is in use, for sizes up to 2^64 - 4096 |
| KmallocRuns.HeldBlockReadsBack | kernel/mm/kmalloc.c:47-87 | over every run a word of a held block reads back what its holder wrote last: no call and no other user touches it |
| Kmalloc.SizeToOrder | kernel/mm/slab.c:24-37 | the least order whose power of two is at least the size |
| Kmalloc.SizeToPageOrder | kernel/mm/kmalloc.c:26-45 | the least order whose chunk holds the size in bytes; 0 where rounding up wraps |
| Kmalloc.KernelHeap.constructor | kernel/mm/slab.c:21 | before init_slab there is no slab |
| Kmalloc.KernelHeap.InitSlabCache | kernel/mm/slab.c:82-96 | memory spells out a header and a free list of all other slots; nothing outside the slab is written |
| Kmalloc.KernelHeap.HeaderLayout | kernel/include/mm/slab.h:24-33 | a header holds its free list at byte 0, the next slab at byte 8 and its order at byte 16 |
| Kmalloc.KernelHeap.AllocSlabMemory | kernel/mm/slab.c:44-69 | a 2MB chunk, with page->slab set on exactly its pages |
| Kmalloc.KernelHeap.NewSlab | kernel/mm/slab.c:71-129 | a new slab at the head of its chain, and no word of a block in use changed; without a chunk nothing changes |
| Kmalloc.KernelHeap.InitSlab | kernel/mm/slab.c:146-155 | exactly one slab of each of the seven orders with all slots free, exactly seven more 2MB chunks in use, the exact number of free bytes, no block in use, and no word of an earlier block changed |
| Kmalloc.KernelHeap.AllocInSlabNoLock | kernel/mm/slab.c:101-132 | the first slot of the first slab in the chain that has one; a new slab only when all of that order are full; no word of another block changed |
| Kmalloc.KernelHeap.AllocInSlab | kernel/mm/slab.c:157-168 | the slot order is the least that is at least 5 and holds the size |
| Kmalloc.KernelHeap.TakeSlot | kernel/mm/slab.c:108-113 | the first free slot leaves the free list, in memory and in the model, and no word of a block in use changes |
| Kmalloc.KernelHeap.GiveSlot | kernel/mm/slab.c:170-183 | the slot comes to the front of the free list, and no word of another block in use changes |
| Kmalloc.KernelHeap.UserWrite | kernel/mm/slab.c:170-183 | a user's write inside a block in use keeps the heap valid and is the only kind of step that changes such a word |
| Kmalloc.KernelHeap.Kmalloc | kernel/mm/kmalloc.c:47-61 | exactly one block comes into use, at least as large as asked for and less than twice, or 32 bytes, for sizes up to 2^64 - 4096; otherwise nothing changes and the order that serves the size had no room; no word of another block changes |
| Kmalloc.KernelHeap.Kfree | kernel/mm/kmalloc.c:77-87 | any block in use goes back to the allocator it came from, exactly that block, and no word of another block changes |
| Kmalloc.KernelHeap.GetFreeMemSizeFromSlab | kernel/mm/slab.c:186-217 | the walk over chains and free lists counts every free slot of every slab |
| MemCopy.Memcpy | kernel/arch/aarch64/mm/memcpy.S:55-176 | equals the simple copy, for any overlap up to 96 bytes and for more bytes when moving downwards or apart |
| MemCopy.CopySmall | kernel/arch/aarch64/mm/memcpy.S:79-109 | 0 to 16 bytes, any overlap |
| MemCopy.CopyMedium | kernel/arch/aarch64/mm/memcpy.S:64-77 | 17 to 96 bytes, any overlap |
| MemCopy.Copy96 | kernel/arch/aarch64/mm/memcpy.S:111-126 | 65 to 96 bytes: 64 from the start and 32 from the end |
| MemCopy.CopyLong | kernel/arch/aarch64/mm/memcpy.S:128-157 | the aligned read-ahead loop never reads a byte it has overwritten, nor outside the source |
| MemCopy.CopyRound | kernel/arch/aarch64/mm/memcpy.S:147-157 | one round of that loop writes 64 bytes and reads the next 64 unharmed |
| MemCopy.CopyTail | kernel/arch/aarch64/mm/memcpy.S:159-175 | the overlapping tail of 64 bytes from the end completes the copy |
| MemCopy.Memmove | kernel/arch/aarch64/mm/memmove.S:44-101 | equals the simple copy for every count and every overlap; the unsigned comparison picks the safe direction |
| MemCopy.CopiedBytes | kernel/arch/aarch64/mm/memmove.S:38-42 | the simple copy byte by byte: the source's old bytes in the destination, everything else as before |
| MemCopy.MoveUp | kernel/arch/aarch64/mm/memmove.S:50-82 | the loop from the end downwards never reads a byte it has overwritten |
| MemCopy.MoveRound | kernel/arch/aarch64/mm/memmove.S:72-82 | one round of that loop writes 64 bytes and reads the 64 below them unharmed |
| MemCopy.MoveTail | kernel/arch/aarch64/mm/memmove.S:84-99 | the overlapping tail of 64 bytes from the start completes the move |
| Printk.Output.Prints | kernel/lib/printk.c:57-89 | the string is emitted with spaces or zeros before or behind it, for each value of the flags, and the result counts the characters |
| Printk.Output.WriteDigits | kernel/lib/printk.c:110-119 | the digits end up in order at the end of the buffer, closed by NUL |
| Printk.Output.OutputI | kernel/lib/printk.c:91-132 | emits exactly the specified text and returns its length |
| Printk.TextLength | kernel/lib/printk.c:57-132 | the text is as long as the larger of the width and the number's own length |
| Printk.FitsBuffer | kernel/lib/printk.c:94-128 | sign, digits and NUL fit the 64 bytes if and only if the number is not a negative one in base 2 |
| Printk.FlagTexts | kernel/lib/printk.c:55-86 | for flags 0 spaces go before the number, for 1 zeros between its sign and its digits, for 2 spaces and for 3 zeros behind it |
| Printk.LettersInCase | kernel/lib/printk.c:113-119 | digits above nine are letters of the case asked for |
| Printk.DigitCharacters | kernel/lib/printk.c:113-117 | the characters of the sixteen digits, in either case |
| Printk.ReadsBack | kernel/lib/printk.c:57-132 | the text parses back to i under sign in base 10, and else to i modulo 2^64, if and only if zeros were not appended to a number other than zero |
| Printk.FirstDigit | kernel/lib/printk.c:99-119 | no number but zero starts with a zero, and the only sign is in front |
| Printk.Examples | kernel/lib/printk.c:91-132 | eight texts, character by character |

## Left out

- A pool that ends at 2^64 exactly: there the code's end address wraps to 0, so `InitBuddy` asks for an end below 2^64.
- Several pools: `mm_init` sets up exactly one, so the loops over `global_mem` run once.
- `mm_init`, `parse_mem_map` and where the metadata array lies: their result is the precondition of `InitBuddy`.
- `init_boot_pt`, TLB and cache maintenance, TTBR writes, the UART and boot code.
- Running out of memory in `alloc_slab_memory` and `get_next_ptp`: the kernel stops; the model returns `Stuck`, `None` or `false`.
- MapRangeInPgtbl: when no page is left for a table, nothing is claimed about the part already mapped, because the kernel stops there.
- MapRangeInPgtblHuge: the same.
- GetNextPtp: stated for the walks of the mapping loops, on which every valid entry above the level to be written is a table.
- Unmapping part of a block, and mapping or unmapping 4KB pages below an existing larger block: the code walks into the block as if it were a table, and its documentation excludes it.
- `set_pte_flags` is a function of the entry's value (`Descriptors.SetPteFlags`), written back by the caller in one store.
- `FreeBelow`: the three nested loops of `free_page_table` are one method with the level as parameter, called for each entry.
- `InitSlabCache`: the write of NULL to `next_slab` and the caller's write that follows it are one write.
- SizeToOrder: the source copies the size into an int, which truncates from 2^31 on; its callers pass at most 2048.
- SizeToPageOrder: `1 << order` is an int in C and undefined for orders of 31 and more; the buddy allocator refuses all those orders alike.
- `kzalloc`: clearing the block after `kmalloc`.
- `list_append` and the other list helpers and `hlist`, which the allocators do not use.
- `memset`, `simple_vsprintf` and the debug output of the allocators.
- `MemCopy.Memcpy`: registers that share a name with another in the assembly are separate variables; each is read for the last time before its other name is written.
- The prefetch hint of memcpy; addresses of one copy do not wrap around 2^64.
- `Printk.Output.OutputI`: -LLONG_MIN in base 10 is undefined in C and excluded.
- `Printk.Output`: the string of `snprintf` is assumed long enough, as the code assumes.
- Locks and concurrent calls: the code takes none.
