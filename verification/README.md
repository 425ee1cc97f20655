# Verified models of the allocators

The repository builds a small persistent-memory allocation library from three allocators,
each with a real algorithm, and a `realloc` on top of one of them. This project models all
of them in Dafny and proves what they are for.

**Buddy tree** (`inc/buddy/buddy.c`). An arena of 2^level pages is cut into power-of-two
blocks. One array holds an implicit binary tree of nodes that are UNUSED, USED, SPLIT or
FULL. `Buddy.Buddy` keeps that array and updates it in place, loop by loop, as the C code does. A
value, `BuddyTree.Tree`, gives it its meaning: `BuddyArray.Repr` ties the array to the tree
and says nothing about the stale nodes below UNUSED and USED ones; `BuddyCursor` describes the
positions the loops walk through. The results are about the map of live blocks: first fit
succeeds exactly when an aligned free run exists and takes the lowest one, release removes
exactly one block, and the reachable array is a function of the live blocks alone.

**realloc** (`src/zalloc.c`). `Zalloc.Arena.Realloc` allocates, copies and frees over the buddy
contracts.

**Slab chain** (`inc/slab/slab.c`). Pages are cut into slabs of up to 64 items of one size.
Each slab's header holds a 64-bit mask of free slots and links for one of three lists; the
first header of a page counts the slabs in use. `Slab.SlabChain` works on a memory of headers,
pointer write by pointer write. `SlabInv.Inv` is the invariant behind it: three disjoint,
correctly back-linked lists that together hold every slab of every mapped page, sorted by their
masks, with exact counts.

**nvmalloc** (`inc/nvmalloc/nvmalloc.c`). A wear-aware heap: a bitmap of 64-byte cells, size words
kept inside the managed memory, a frontier, 65 lists of hints that may be stale, and a queue of
freed blocks, threaded through the blocks themselves, that may not be handed out before a wait
has passed. `NvMalloc.Allocator` holds the statics of the C file. Its `Valid` says that the
bitmap marks exactly the live and waiting blocks, that every maximal clear run below the
frontier is tiled by negative size words, that the cell below the frontier is in use, and that
the queue is intact; it says nothing about the hints, whose effect on each answer `NvHints` states. `Short` says that every clear run below the
frontier is shorter than 4 GiB, which the 32-bit sizes of later calls need. `NvRuns` is about whole
runs of calls, each made on a heap that is `Valid` and `Short`.

`Powers` and `Words` hold the arithmetic shared by the three. `Sizing`, `SlotMask`,
`SlabSizing`, `NvHeader` and `NvBitmap` are about sizes and bits; `SlabList` to `SlabWalk` and `NvHeap` to
`NvReturn` and `NvHints` about the steps of the operations.

Where C code and prose disagree, the code is followed. The comment above `getMoreMemory`
names a default of 4 KB; the code takes 1024 pages. Five places do not do what they are
meant to, and the exact conditions are proved:

- the single-precision page count of `buddy_alloc` (`Sizing.BlockCoversRequest`, `Sizing.RoundingWitness`);
- the copy `realloc` makes into such a block (`Zalloc.CopyKeepsBlocks`, `Zalloc.NeighbourOverwritten`);
- the unsigned index of the search in `buddy_alloc` (`BuddyWrap.CompiledAnswer`, `BuddyWrap.CompiledEnds`);
- the unsigned index in `_combine`, which reaches the level byte (`BuddyUnderrun.CompiledFree`,
  `BuddyUnderrun.ArenaHalved`);
- the 32-bit size of a free run in nvmalloc (`NvReturn.Returned`, `NvReturn.LongRunBreaks`, `NvReturn.LongRunHeals`).

## Model

| member | source | states |
|---|---|---|
| `Sizing.NextPow2Correct` | inc/buddy/buddy.c:91-101 | the bit smearing yields the least power of two >= x for every 0 < x <= 2^32, 0 for 0, and never less than x |
| `Sizing.SmearFills` | inc/buddy/buddy.c:95-99 | the five shifts set every bit below the highest one |
| `Sizing.BlockPagesExact` | inc/buddy/buddy.c:121-125 | up to 2^44 bytes the block is the least sufficient power of two of pages, except that a request the float conversion rounds onto a power of two gets half of it |
| `Sizing.BlockCoversRequest` | inc/buddy/buddy.c:121-125 | the block holds the request if and only if the request is not rounded onto a power of two; it has under twice the needed pages |
| `Sizing.HugeRequest` | inc/buddy/buddy.c:123-129 | above 2^44 bytes the block exceeds every arena, so the request is refused |
| `Sizing.RoundingWitness` | inc/buddy/buddy.c:123 | 2^24 + 1 bytes are given a block of 2^24 bytes |
| `Sizing.FloatIsNearest` | inc/buddy/buddy.c:123 | the conversion to float gives the nearest number with 24 significant bits, of two that are as near the one with even significand |
| `Buddy.Buddy.constructor` | inc/buddy/buddy.c:48-82 | a new arena is valid and holds no block |
| `Buddy.Buddy.Alloc` | inc/buddy/buddy.c:121-179 | fails exactly when no size-aligned run of pages is wholly free, and then changes nothing; otherwise returns the lowest such offset and adds exactly that block |
| `Buddy.Buddy.Search` | inc/buddy/buddy.c:131-176 | the loop terminates and finds the first fit of the tree, with index, level and length in step and in bounds throughout |
| `Buddy.Buddy.Backtrack` | inc/buddy/buddy.c:160-175 | backtracking reaches the next subtree in preorder, strictly forward, or shows that nothing fits anywhere |
| `Buddy.Buddy.Narrow` | inc/buddy/buddy.c:150-157 | going down splits a free node at most on the way to the first fit; once a node has been split the search never leaves it |
| `Buddy.Buddy.Claim` | inc/buddy/buddy.c:136-141 | the node found is marked, its ancestors too, and the offset returned is that of the new block |
| `Buddy.Buddy.MarkParent` | inc/buddy/buddy.c:108-119 | exactly the ancestors that have filled up become FULL, restoring the whole array |
| `Buddy.Buddy.Combine` | inc/buddy/buddy.c:181-194 | freeing coalesces with free siblings as far up as possible |
| `Buddy.Buddy.Reopen` | inc/buddy/buddy.c:186-190 | exactly the FULL ancestors of an open node become SPLIT |
| `Buddy.Buddy.Free` | inc/buddy/buddy.c:196-224 | removes exactly the block at the offset; the descent reaches its node and the failing asserts are dead |
| `Buddy.Buddy.PageSize` | inc/buddy/buddy.c:226-252 | returns the pages of the block at a page offset |
| `Buddy.Buddy.UsedSize` | inc/buddy/buddy.c:254-282 | returns exactly the byte count given to Alloc for that block |
| `BuddyTree.AllocCorrect` | inc/buddy/buddy.c:131-176 | first fit in a tree succeeds iff a slot is free, takes the lowest, keeps the tree coalesced, adds one block |
| `BuddyTree.CanonicalIsUnique` | inc/buddy/buddy.c:181-194 | two coalesced trees with the same live blocks are equal |
| `BuddyTree.SlotIsAligned` | inc/buddy/buddy.c:103-106 | the places the search can return are exactly the size-aligned offsets inside the arena |
| `BuddyTree.BlocksDisjoint` | inc/buddy/buddy.c:121-224 | live blocks are pairwise disjoint |
| `BuddyTree.BlocksAligned` | inc/buddy/buddy.c:121-224 | each block's size is a power of two that divides its offset |
| `BuddyCursor.AllocAtFocus` | inc/buddy/buddy.c:131-176 | when everything before a subtree has failed, the first fit of the tree is that of the subtree |
| `BuddyCursor.ClosedHasNoRoom` | inc/buddy/buddy.c:145-148 | skipping USED and FULL nodes loses nothing |
| `BuddyCursor.ReleaseCorrect` | inc/buddy/buddy.c:181-194 | freeing with coalescing removes one entry from the live blocks and keeps the tree coalesced; putting it back restores them |
| `BuddyArray.Position` | inc/buddy/buddy.c:103-106 | _index_offset gives the page offset of every node reachable in the array |
| `BuddyArray.ReprDeterminesReachable` | inc/buddy/buddy.c:149-153 | two arrays for one tree agree on every reachable node, whatever is stale below |
| `BuddySearch.FirstFit` | inc/buddy/buddy.c:121-179 | what first fit in the tree means for the map of live blocks |
| `BuddyRelease.DescentState` | inc/buddy/buddy.c:204-223 | a descent by offset never meets an UNUSED node and ends at the block's own node with left == offset |
| `BuddyHistory.LiveBlocksPlaced` | inc/buddy/buddy.c:121-224 | in every valid state live blocks are disjoint, inside the arena and aligned to their size |
| `BuddyHistory.HistoryIndependent` | inc/buddy/buddy.c:121-224 | two buddies have the same live blocks if and only if their reachable nodes agree |
| `BuddyHistory.AllFree` | inc/buddy/buddy.c:181-224 | nothing is live if and only if the root is UNUSED |
| `BuddyHistory.AllocThenFree` | inc/buddy/buddy.c:121-224 | an allocation undone by its free restores the reachable tree despite stale states |
| `BuddyHistory.ReachableStates` | inc/buddy/buddy.c:108-119 | FULL exactly when both children are USED or FULL, no SPLIT node with two UNUSED children, bottom nodes never split |
| `BuddyWrap.CompiledAsIntended` | inc/buddy/buddy.c:131-178 | with the index unsigned as declared, the search gives the intended answer if and only if some aligned run of pages is free |
| `BuddyWrap.CompiledAnswer` | inc/buddy/buddy.c:131-178 | as soon as a page is free, the unsigned search for 2^k pages ends at the lowest aligned free run of the largest free size 2^m up to 2^k; the offset it computes is that of the run if m = k, and beyond the arena if m < k |
| `BuddyWrap.CompiledEnds` | inc/buddy/buddy.c:131-178 | the unsigned search runs for ever if and only if no page is free |
| `BuddyWrap.PassFails` | inc/buddy/buddy.c:145-175 | a pass that finds nothing leaves the nodes alone and comes back to the root a level lower and with twice the length, which looks for half the size |
| `BuddyWrap.FindsFirstFit` | inc/buddy/buddy.c:131-176 | each pass of the unsigned search that has a place to find ends at the first fit; in the first pass that is the intended one |
| `BuddyWrap.NeverFails` | inc/buddy/buddy.c:168-170 | the failure exits inside the unsigned search are never taken |
| `BuddyWrap.FullArenaHangs` | inc/buddy/buddy.c:134-175 | when the root is USED or FULL the unsigned search never ends |
| `BuddyWrap.WrongPlace` | inc/buddy/buddy.c:134-175 | with one of two pages free, a request for two is given the free one at an offset beyond the arena |
| `BuddyUnderrun.CompiledFree` | inc/buddy/buddy.c:181-224 | with the index unsigned, a release leaves the intended nodes and level if and only if the arena has not exactly 8 pages, or it was not full and other blocks remain; otherwise the level byte drops to 2 |
| `BuddyUnderrun.CombinedAll` | inc/buddy/buddy.c:181-194 | the nodes come out as intended in every case, and the level byte changes exactly when it is 3 and the climb passes the root |
| `BuddyUnderrun.PassesWhen` | inc/buddy/buddy.c:185-192 | the climb passes the root exactly when the arena was full or is now free |
| `BuddyUnderrun.ArenaHalved` | inc/buddy/buddy.c:181-194 | releasing one block of all 8 pages leaves a level of 2 |
| `Zalloc.Arena.Realloc` | src/zalloc.c:173-188 | on success every byte that both the request and the old content have moves to a block in free pages, unless source and target overlap, which they cannot when each block holds what it was asked for, and no other byte is written; only the old block is retired, and no other block's bytes change unless the copy runs over the end of the new block into one; on failure nothing changes |
| `Zalloc.CopyStaysInside` | src/zalloc.c:179-181 | the copy runs over no live block, however disjoint blocks fill the arena around the new one, if and only if the request was not rounded down, the old content fits all the same, or the new block is the last of the arena |
| `Zalloc.CopyKeepsBlocks` | src/zalloc.c:179-181 | for all contents of memory and all memcpy may do, the copy keeps every live block if and only if none has a byte where it runs over the end of the new block |
| `Zalloc.CopyIsApart` | src/zalloc.c:181 | source and target of the copy do not overlap when each of the two blocks holds what it was asked for |
| `Zalloc.NeighbourOverwritten` | src/zalloc.c:173-188 | a request of 2^24 + 1 bytes whose copy changes the first byte of a live neighbour, whatever the memory holds elsewhere |
| `SlotMask.TakeSlot` | inc/slab/slab.c:160-161 | xor with the lowest free bit uses that slot and no other |
| `SlotMask.GiveSlot` | inc/slab/slab.c:351 | or with the slot's bit frees that slot and no other |
| `SlotMask.OneUsedSlotExact` | inc/slab/slab.c:30-36 | the macro holds exactly for masks whose only used slot is the one being freed |
| `SlotMask.MaskExtremes` | inc/slab/slab.c:61-89 | the zero mask is the full slab, the empty mask the empty one |
| `SlotMask.InitialMaskUsed` | inc/slab/slab.c:145-146 | the initial mask has slot 0 in use and no other |
| `SlotMask.AlignmentMask` | inc/slab/slab.c:147 | and with ~(size - 1) rounds down to a multiple of the slab size |
| `Slab.MaskedSlab` | inc/slab/slab.c:262-263 | the alignment mask leads from every live item to its slab |
| `SlabSizing.InitFits` | inc/slab/slab.c:114-151 | every item size gets the largest power-of-two slab that does not hold a header and 64 items, 2 to 63 items, as many as fit behind the header, and an allocation unit that is the larger of slab and page; the shrink is always taken |
| `SlabSizing.ChosenIsUnique` | inc/slab/slab.c:122-143 | that leaves one geometry for each item size and page size |
| `SlabSizing.LeastIsNotPow2` | inc/slab/slab.c:126-130 | the 64-item size is never a power of two |
| `SlabInv.AddressRoundTrip` | inc/slab/slab.c:262-266 | masking and dividing an item's address recover its slab and slot |
| `SlabInv.AlignmentNeeded` | inc/slab/slab.c:262-266 | masking recovers the slab from every item of it if and only if the slab lies at a multiple of the slab size |
| `SlabInv.PageAlignment` | inc/slab/slab.c:194-213 | the 4096-byte alignment of mmap is enough for that if and only if the slab size is at most 4096 |
| `SlabInv.ItemsDisjoint` | inc/slab/slab.c:160-177 | different items occupy disjoint ranges |
| `SlabInv.ItemsMissHeaders` | inc/slab/slab.h:13-19 | no item has a byte in the prev, next, slots, refcount or page word of any slab, and the first item of a slab lies right behind the last of them |
| `SlabInv.LiveMissHeaders` | inc/slab/slab.c:160-251 | so a write into a live item leaves every slab header as it was |
| `SlabInv.PassesSlabIsValid` | inc/slab/slab.c:46-112 | the invariant implies everything slab_is_valid asserts, sizes, masks, links and alignments |
| `SlabInv.LoneSlab` | inc/slab/slab.c:289-290 | a page's count is 1 exactly when the slab is its only one in use |
| `SlabInv.CountsUp` | inc/slab/slab.c:186-188 | a slab that comes into use raises its page's count by one and keeps the counts exact |
| `SlabInv.CountsDown` | inc/slab/slab.c:346-347 | a slab that empties lowers it by one and keeps the counts exact |
| `SlabList.UnlinkList` | inc/slab/slab.c:273-274 | unlinking from the middle gives the list without that member |
| `SlabList.MoveToFront` | inc/slab/slab.c:163-175 | moving a header between lists changes those two lists by it and leaves the third alone |
| `SlabSteps.PartialToFull` | inc/slab/slab.c:163-175 | taking the last free slot keeps the whole invariant |
| `SlabSteps.FullToPartial` | inc/slab/slab.c:268-286 | giving back a slot of a full slab keeps the whole invariant |
| `SlabSteps.EmptyToPartial` | inc/slab/slab.c:179-191 | opening an empty slab keeps the whole invariant, counts included |
| `SlabSteps.PartialToEmpty` | inc/slab/slab.c:328-347 | emptying a slab of a page in use keeps the whole invariant, counts included |
| `SlabPages.NewPageInv` | inc/slab/slab.c:215-248 | a laid-out page keeps the whole invariant |
| `SlabRelease.CountDecides` | inc/slab/slab.c:287-290 | the refcount test holds exactly when no other item of the page is live |
| `SlabRelease.SweepUnlink` | inc/slab/slab.c:309-316 | each round unlinks exactly one slab of the page from the empty list |
| `SlabRelease.SweepEnd` | inc/slab/slab.c:309-319 | after the sweep and the pop no slab of the page is on a list and every other slab still is, also when the head of the empty list was on the page |
| `SlabRelease.FinishRelease` | inc/slab/slab.c:287-326 | unmapping the swept page keeps the invariant and loses exactly the freed item |
| `SlabWalk.TraversalExact` | inc/slab/slab.c:355-384 | the two lists offer each live item exactly once, at distinct addresses, and nothing else |
| `SlabWalk.AllPagesFound` | inc/slab/slab.c:394-412 | the non-zero refcounts on the three lists are exactly the mapped pages, once each |
| `Slab.SlabChain.constructor` | inc/slab/slab.c:114-151 | a new chain is valid and empty, its sizes those slab_init is for: largest slab short of 64 items, as many items as fit, the larger of slab and page as allocation unit |
| `Slab.SlabChain.Alloc` | inc/slab/slab.c:153-254 | fails exactly when every slot is taken and the system refuses, changing nothing; otherwise hands out the lowest free item of the first partial slab, else of the first empty one, else of a new page, and maps a page only if every slot was taken; the item meets no slab header, and the place of every slab on the lists is determined |
| `Slab.SlabChain.AllocPartial` | inc/slab/slab.c:158-178 | the first branch hands out the lowest free item of the first partial slab, which becomes the first full one exactly if it fills up, and keeps the invariant |
| `Slab.SlabChain.AllocEmpty` | inc/slab/slab.c:179-191 | the second branch does so from the first empty slab, which becomes the only partial one |
| `Slab.SlabChain.AllocPage` | inc/slab/slab.c:192-251 | the third branch does so from a new page, whose other slabs join the empty list in order of address |
| `Slab.SlabChain.LayOut` | inc/slab/slab.c:215-248 | the loop gives every slab of a page its header and links, and touches nothing else |
| `Slab.SlabChain.Free` | inc/slab/slab.c:256-353 | removes exactly the item at the address, unmaps its page exactly when no other item of the page is live, and puts the slab first on the partial list if it was full and first on the empty list if it has emptied; all other slabs keep their order |
| `Slab.SlabChain.FreeIntoFull` | inc/slab/slab.c:268-286 | the full slab becomes the first partial one |
| `Slab.SlabChain.FreeLastItem` | inc/slab/slab.c:327-348 | the slab becomes the first empty one, its page stays |
| `Slab.SlabChain.ReleasePage` | inc/slab/slab.c:289-326 | exactly the page's slabs leave the lists, the others keep their order, and the page is unmapped |
| `Slab.SlabChain.Traverse` | inc/slab/slab.c:355-384 | func is called exactly once on each live item and on nothing else |
| `Slab.SlabChain.Destroy` | inc/slab/slab.c:386-434 | each mapped page is released exactly once although the walk rethreads next |
| `Slab.SlabChain.CollectPages` | inc/slab/slab.c:397-411 | the walk over one list strings its page headers behind those found before |
| `Slab.SlabChain.UnmapPages` | inc/slab/slab.c:414-433 | the final loop unmaps the collected pages in order and never reads an unmapped one |
| `NvHeader.EncodeRoundTrip` | inc/nvmalloc/nvmalloc.c:119-130 | the size survives encoding whatever the checksum bits, and the word is positive |
| `NvHeader.WordsThatPass` | inc/nvmalloc/nvmalloc.c:119-130 | a word passes the checksum test if and only if bits 48 to 55 are bits 16 to 23 of the checksum of offset and size, and the other bits above the 32 of the size are zero |
| `NvHeader.BestFitBounds` | inc/nvmalloc/nvmalloc.c:134-145 | the index is that of the only list whose size range holds the request |
| `NvHeader.ActualSizeExact` | inc/nvmalloc/nvmalloc.c:293-305 | the 32-bit rounding covers the request if and only if it is at most 2^32 - 64, and is then the least number of cells |
| `NvHeap.RunsAfterTake` | inc/nvmalloc/nvmalloc.c:333-411 | which maximal runs remain after the start of one is taken |
| `NvHeap.RunsAfterClear` | inc/nvmalloc/nvmalloc.c:477-490 | which maximal runs there are after a block is cleared |
| `NvHeap.BitsAdd` | inc/nvmalloc/nvmalloc.c:411 | marking a block's cells keeps the bitmap exact |
| `NvHeap.BitsRemove` | inc/nvmalloc/nvmalloc.c:482 | clearing a block's cells keeps the bitmap exact |
| `NvBitmap.WriteCell` | inc/nvmalloc/nvmalloc.c:202-232 | or with a mask sets, and with its complement clears, exactly one cell of the bitmap |
| `NvBitmap.StepDown` | inc/nvmalloc/nvmalloc.c:177-198 | the index and mask of the cell below, with the end of the walk exactly at cell 0 |
| `NvBitmap.BitsGrow` | inc/nvmalloc/nvmalloc.c:274-282 | a longer bitmap keeps the old marks and adds clear cells |
| `NvInv.TakeFromRun` | inc/nvmalloc/nvmalloc.c:333-411 | taking the start of a run keeps bitmap, tiling and frontier consistent and touches no block |
| `NvInv.TakeFromFrontier` | inc/nvmalloc/nvmalloc.c:401-411 | so does raising the frontier |
| `NvInv.ReturnBlock` | inc/nvmalloc/nvmalloc.c:435-473 | so does returning a block below the frontier, whose header covers all free cells from it on |
| `NvInv.MergeBlock` | inc/nvmalloc/nvmalloc.c:426-433 | so does lowering the frontier to the start of the run that reaches it |
| `NvInv.GrowSpace` | inc/nvmalloc/nvmalloc.c:260-284 | so does memory added at the end, whatever it contains, up to the 2^40 bytes the bitmap index reaches |
| `NvQueue.JoinQueue` | inc/nvmalloc/nvmalloc.c:509-530 | the stamp and link writes append the block to the chain in memory |
| `NvQueue.LeaveQueue` | inc/nvmalloc/nvmalloc.c:540-556 | dropping the head leaves the chain of the others |
| `NvQueue.TickLive` | inc/nvmalloc/nvmalloc.c:536-577 | a release changes nothing the client holds |
| `NvQueue.ClientWrite` | inc/nvmalloc/nvmalloc.c:618-642 | arbitrary payload writes of the client keep the invariant |
| `NvQueue.KeptCells` | inc/nvmalloc/nvmalloc.c:618-677 | what the calls promise of a block's contents, cell by cell |
| `NvMalloc.PageLoopEnds` | inc/nvmalloc/nvmalloc.c:243-245 | the page loop can end if and only if the request is at most 2^32 - 4096 |
| `NvMalloc.PagesForLeast` | inc/nvmalloc/nvmalloc.c:239-245 | the page count asked for is the least from 1024 on whose pages hold the size |
| `NvMalloc.Allocator.constructor` | inc/nvmalloc/nvmalloc.c:581-609 | a new heap is valid, holds no block and no hint and has its frontier at the start, for every page count, whose byte count is taken modulo 2^32 |
| `NvMalloc.Allocator.IsFreeForward` | inc/nvmalloc/nvmalloc.c:147-166 | the free cells from a location up to the first block or the frontier |
| `NvMalloc.Allocator.IsFreeBackward` | inc/nvmalloc/nvmalloc.c:168-200 | the free cells below a location down to the last block or the start |
| `NvBitmap.IndexFits` | inc/nvmalloc/nvmalloc.c:171 | the int32_t byte index of that walk is right exactly for locations below 2^40 bytes |
| `NvMalloc.Allocator.MakeOne` | inc/nvmalloc/nvmalloc.c:202-216 | sets exactly the cells of the interval |
| `NvMalloc.Allocator.MakeZero` | inc/nvmalloc/nvmalloc.c:218-232 | clears exactly the cells of the interval |
| `NvMalloc.Allocator.NewPages` | inc/nvmalloc/nvmalloc.c:239-245 | the loop ends at 1024 pages, or at the first count above whose bytes hold the request |
| `NvMalloc.Allocator.GetMoreMemory` | inc/nvmalloc/nvmalloc.c:237-285 | adds the page count asked for when the system grants it, keeping every block, and changes nothing otherwise |
| `NvMalloc.Allocator.PopHint` | inc/nvmalloc/nvmalloc.c:322-330 | drops the first hint and measures the maximal free run around it, be it stale, mid-block or past the frontier; start and length come out right if and only if the run is shorter than 4 GiB |
| `NvMalloc.Allocator.WalkRun` | inc/nvmalloc/nvmalloc.c:333-371 | the header walk meets only negative words with the right checksum, ends exactly at the end of the run, and exactFit says whether a header starts at the cut |
| `NvMalloc.Allocator.Carve` | inc/nvmalloc/nvmalloc.c:333-393 | the rest of the run stays tiled, a hint at it is appended to the list of its length, and it gets a new header only when the cut falls inside a tile |
| `NvMalloc.Allocator.SearchLists` | inc/nvmalloc/nvmalloc.c:309-398 | taking the lists from that of the request on, each first in first out, the loops end at the first hint whose free run has room and drop it and exactly those before it; they give up only when no hint has room, and have dropped all of those lists then |
| `NvMalloc.Allocator.GetFreeLocation` | inc/nvmalloc/nvmalloc.c:291-414 | the block is the start of the free run around the first hint with room, or lies at the frontier if there is none; its cells are marked, what is left of the run is hinted at, memory grows only when no hint has room and the frontier has none, and nothing else changes |
| `NvMalloc.Allocator.ExtendFreeLocation` | inc/nvmalloc/nvmalloc.c:477-490 | clears the block and measures the maximal run around it, modulo 2^32 bytes |
| `NvHints.ListsBySize` | inc/nvmalloc/nvmalloc.c:134-145 | there is one list for each size up to 64 cells and one for all larger ones |
| `NvHints.BestFitList` | inc/nvmalloc/nvmalloc.c:134-145 | a request starts at the list of the cells it is rounded up to |
| `NvHints.SearchFound` | inc/nvmalloc/nvmalloc.c:309-398 | what the search leaves of the lists when it follows a hint |
| `NvHints.InsertSettles` | inc/nvmalloc/nvmalloc.c:418-473 | for a run below 4 GiB, the hints insertFreeLocation appends are those of the whole run and of its part from the block on |
| `NvHints.ReleasedIsReused` | inc/nvmalloc/nvmalloc.c:309-490 | a released run is handed out again, from its start, to the first request that it has room for and no older hint has |
| `NvReturn.Returned` | inc/nvmalloc/nvmalloc.c:418-490 | after a block is cleared and inserted, with sizes as 32-bit byte counts, bitmap, tiling and frontier agree again if and only if the free run around it reaches the frontier and is shorter than 4 GiB, or ends below it and is tiled already where the block's new size word, taken modulo 4 GiB, leads; from a heap with all runs below 4 GiB they agree with all runs below 4 GiB again if and only if this run is; other blocks keep their contents in any case |
| `NvReturn.LongRunBreaks` | inc/nvmalloc/nvmalloc.c:418-490 | a concrete sound heap in which releasing a block makes a run of exactly 4 GiB whose size words do not tile it |
| `NvReturn.LongRunHeals` | inc/nvmalloc/nvmalloc.c:418-490 | its mirror image, in which the run of exactly 4 GiB is tiled afterwards, so that only the length bound is lost |
| `NvReturn.BelowFrontier` | inc/nvmalloc/nvmalloc.c:435-473 | the exact condition for a run that ends below the frontier |
| `NvReturn.FitsBefore` | inc/nvmalloc/nvmalloc.c:618-642 | handing cells out cannot make the run of the release longer, so the bound of 4 GiB can be checked before the call |
| `NvReturn.SmallHeapFits` | inc/nvmalloc/nvmalloc.c:536-577 | with a frontier below 4 GiB every release keeps to the bound |
| `NvMalloc.Allocator.Release` | inc/nvmalloc/nvmalloc.c:545-576 | the head of the queue, and only it, leaves; every other block keeps its contents; the space is sound again if and only if the run it makes heals (Returned), and sound with all runs below 4 GiB if and only if that run is; such a run lowers the frontier if it reaches it, and otherwise is hinted at in the list of its length, its part from the block on, if shorter, in the list of that length |
| `NvMalloc.Allocator.IncrementTime` | inc/nvmalloc/nvmalloc.c:536-577 | releases the head, with the effect on hints and frontier stated for Release, exactly when its time plus the wait has come; the heap stays valid if and only if the run so made, if any, heals, and valid with all runs below 4 GiB if and only if that run is |
| `NvMalloc.Allocator.PutInDNAList` | inc/nvmalloc/nvmalloc.c:494-531 | appends the block to the queue without touching what the client holds |
| `NvMalloc.Allocator.Malloc` | inc/nvmalloc/nvmalloc.c:618-642 | with all free runs below 4 GiB: a new block apart from all live and waiting ones, at the first hint with room or else at the frontier, holds size bytes behind an 8-byte size word, clear of all other size words, and the client's blocks keep their contents; without one nothing but the used-up hints changes, no hint has room, neither has the memory, and the system refused or the page loop cannot end; the heap stays valid with all runs below 4 GiB if and only if a run released on the way is |
| `NvMalloc.Allocator.Free` | inc/nvmalloc/nvmalloc.c:644-677 | the block leaves the client and enters the queue, at most one block is released, with the effect on hints and frontier stated for Release, and the error exits are dead; the heap stays valid if and only if the run released heals, and keeps to 4 GiB if and only if that run does |
| `NvMalloc.Allocator.Write` | inc/nvmalloc/nvmalloc.c:618-642 | a client write into a held block, its size word apart, keeps every invariant |
| `NvRuns.NextSound` | inc/nvmalloc/nvmalloc.c:536-677 | every call on a valid heap with all runs below 4 GiB keeps blocks disjoint and the queue distinct and in order of time |
| `NvRuns.HeldUntilFreed` | inc/nvmalloc/nvmalloc.c:618-677 | in every run whose releases fit a block handed out stays with the client, at its size, until it is freed |
| `NvRuns.NoOverlap` | inc/nvmalloc/nvmalloc.c:618-677 | two blocks handed out in one such run share no cell unless the first was freed in between |
| `NvRuns.NoEarlyReuse` | inc/nvmalloc/nvmalloc.c:494-577 | in every such run, no cell of a freed block is handed out before some call in between has read a clock of at least the free time plus the wait |
| `NvRuns.FirstInFirstOut` | inc/nvmalloc/nvmalloc.c:494-577 | in every such run the queue is what entered less a prefix that left |
| `NvRuns.LeavesInTurn` | inc/nvmalloc/nvmalloc.c:536-577 | in every such run, with k blocks ahead, a ripe block leaves within k + 1 clock-reading calls |

## Left out

- Buddy.Buddy.Alloc: the index is signed, as the test at inc/buddy/buddy.c:169 means it; failure is `None` because the test `pos < 0` at inc/buddy_alloc.c:49 is on an unsigned value. What the search does with the unsigned index, in every state, is stated in BuddyWrap; what the caller makes of a wrong offset is not modelled.
- Buddy.Buddy.Search: the index is signed, as for Alloc.
- Buddy.Buddy.Backtrack: the index is signed, so that the failure exit is live.
- Buddy.Buddy.Free: the index is signed, as the test at inc/buddy/buddy.c:187 means it. With the unsigned index the loop goes on from the root to the node before the array, whose state is the level byte, reads it, and stores 2 there if it is 3; BuddyUnderrun.CompiledFree says exactly when the result differs from this contract.
- Buddy.Buddy.Combine: the index is signed, as for Free.
- Buddy.Buddy.Reopen: the index is signed, as for Free.
- Buddy.Buddy.constructor: takes the page level directly and is limited to level 29, because inc/buddy/buddy.c:65 shifts an int by one more than the level; the static array bound MAX_NODE and the printing are left out.
- Buddy.Buddy.PageSize: takes a page offset, as the code does, although its siblings take byte offsets and inc/buddy_alloc.c passes it one.
- Sizing.BlockCoversRequest: the conversion to float is modelled as rounding to a 24-bit significand, ties to even (IEEE 754-2008, section 3.6); the division by 4096 is exact in that format.
- Zalloc.Arena.Realloc: nothing is said of the bytes moved when source and target overlap, where memcpy is undefined (Zalloc.CopyIsApart); a copy past the end of the arena is a change outside all blocks; NULL is `None` and the lock is left out, since it serialises all calls; it stands on the contracts of Buddy.Buddy.Alloc and Buddy.Buddy.Free as above.
- SlabSizing.InitFits: the ceiling of log2 is exact, and sizes are unbounded, so the overflow of 40 + 64 * itemsize for item sizes near 2^58 is not modelled.
- Slab.SlabChain.Alloc: regions handed out by the system are assumed aligned to the larger of slab size and page size, which the asserts at inc/slab/slab.c:93-105 expect and mmap alone does not promise for slabs above 4096 bytes (SlabInv.AlignmentNeeded and SlabInv.PageAlignment); whether the system refuses, and what a new region contains, are parameters.
- Slab.SlabChain.AllocPage: the new region is assumed aligned, as for Alloc.
- Slab.SlabChain.Free: freeing an address that is not a live item is excluded.
- Slab.SlabChain.Destroy: a failing munmap is left out, as the code only reports it.
- NvMalloc.Allocator.Malloc: requests above 2^32 - 64 - 8 bytes are excluded, because the rounding is done in 32 bits (NvHeader.ActualSizeExact says exactly when it covers the request). Heaps with a free run of 4 GiB or more are excluded, because a hint into such a run is measured wrongly (NvMalloc.Allocator.PopHint says exactly when). When the page loop cannot end the answer is `Endless`.
- NvMalloc.Allocator.SearchLists: free runs of 4 GiB or more are excluded, as for Malloc.
- NvRuns.Run: the calls after one whose release does not fit are not modelled.
- NvMalloc.Allocator.GetMoreMemory: the branch without _GNU_SOURCE is modelled, since only inc/foot.c defines it; the branch that relocates is left out. The system is assumed not to grant a heap of 2^40 bytes, from where on the int32_t index of isFreeBackward is wrong (NvBitmap.IndexFits).
- NvMalloc.Allocator.InsertFreeLocation: for a size of 0, which only a run of 4 GiB or more can give, the code writes a hint before the array of lists; that write is not modelled.
- NvMalloc.Allocator.Free: double frees, wild pointers and overwritten size words are excluded; the clock does not run backwards, and free time plus wait stays below 2^64.
- NvMalloc.Allocator.GetFreeLocation: a free run that no list from the request's on hints at goes unused, as in the code, which drops hints for runs that are too small. Free runs of 4 GiB or more are excluded, as for Malloc.
- NvMalloc.Allocator.Release: where the hints of a run of 4 GiB or more come to lie is stated for NvMalloc.Allocator.InsertFreeLocation only.
- NvHeader.EncodeRoundTrip: the CRC instruction is an arbitrary function of offset and size, of which the code keeps eight bits; the D_XOR variant is left out.
- NvRuns.Next: positions and sizes count 64-byte cells; the words kept in memory hold bytes as in the code.
- The heap memory of nvmalloc, its bitmap and its hint lists are sequences held in fields, and the slab headers a map from addresses, rather than raw bytes; reading one header through two types is not modelled.
- mmap, munmap, mremap, posix_memalign, constructors, destructors, file handling and printing.
- inc/buddy_alloc.c beyond the offset translation, inc/slab_alloc.c, inc/nv_alloc.c, inc/ram_alloc.c, inc/foot.c and src/handler.c: thin wrappers and a registry.
- inc/mmap_alloc.c: a bump pointer that never frees.
- calloc, memalign, posix_memalign and aligned_alloc in src/zalloc.c: stubs and one-line wrappers.
- clflush, mfence and flushRange, which return at once.
- slab_dump, slab_stats, slab_dump_properties, buddy_dump, nvmalloc_print and the demos: diagnostics.
