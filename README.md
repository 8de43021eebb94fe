# Memory allocators of memoryman.py, modelled and verified in Dafny

`memoryman.py` implements five classic memory-management schemes as Python classes, each
with an `allocate` and a `deallocate` operation:

- `FixedSizedPartitioning`: memory cut into equal partitions. A request takes the
  lowest-starting run of free partitions large enough for it.
- `UnequalSizedPartitioning`: partitions of caller-given sizes. A request takes one free
  partition chosen by first fit, best fit or worst fit.
- `DynamicMemoryAllocation`: a list of blocks `(start, size, owner)`. Allocation splits a
  chosen free block. Deallocation frees the process's blocks and coalesces adjacent free
  blocks.
- `BuddySystem`: a binary buddy allocator. Requests are rounded up to a power of two,
  larger blocks are split in halves, and freed blocks merge with their buddy.
- `Paging`: a page table from `(process, page)` to frame numbers. A request takes the
  lowest-numbered free frames.

There is one Dafny module per class, plus two shared modules:

- `Common` holds `Option`, process ids, strategy names, ceiling division and the "free
  every slot of a process" operation shared by the two partition schemes.
- `Fit` holds the first/best/worst-fit selector shared by `_find_partition` and
  `_find_block`.

Each Python class is a Dafny `class`:

- The two partition schemes keep their occupancy list as an `array`, updated in place.
- The block list, the buddy free lists and the page table are `seq`/`map` fields that the
  methods reassign.

Every method's new state is tied to a specification function of the old state. The
properties are proved about those functions:

- the selector makes the first/best/worst choice;
- the dynamic block list keeps tiling memory, with no two adjacent free blocks after
  deallocation and free space conserved;
- the buddy free lists stay aligned, inside memory and pairwise disjoint, cover exactly
  the free addresses and never hold two free buddies;
- the page table never maps two pages to one frame;
- deallocation undoes allocation in all five schemes. The four schemes that track
  processes need a process that held nothing before, and the dynamic block list must have
  had no two adjacent free blocks. In the buddy lists the reused address moves to the back
  of its bucket.

## Model

| member | source | states |
|---|---|---|
| Common.ParseStrategy | memoryman.py:51-74 | the strategy argument selects first, best or worst fit exactly for the three literal names; any other name selects nothing |
| Common.CeilDiv | memoryman.py:8 | `(size + unit - 1) // unit` is the least number of units that holds `size` |
| Common.ClearOwner | memoryman.py:16-19 | freeing a process frees exactly its slots and leaves every other slot as it was |
| Common.ClearOwnerAbsentAndIdempotent | memoryman.py:16-19 | freeing a process that holds nothing changes nothing; freeing twice is freeing once |
| Common.ClearOwnerRestores | memoryman.py:16-19 | freeing a process undoes any set of allocations that gave it previously free slots |
| Fit.Fits | memoryman.py:54 | a region fits a request when it is free and at least as large; ChooseIsChoice states the choice in these terms |
| Fit.Displaces | memoryman.py:61-70 | a fitting candidate replaces the current best-fit choice only when strictly smaller and the worst-fit choice only when strictly larger, never under first fit; ChooseIsChoice states the resulting tie-breaking |
| Fit.Choose | memoryman.py:51-74 | the left-to-right scan returns an index inside the list or nothing |
| Fit.ChooseByName | memoryman.py:51-74 | an unknown strategy name chooses nothing; a known one makes a correct choice |
| Fit.ChooseIsChoice | memoryman.py:51-74 | the scan's choice is nothing exactly when no free region fits; otherwise the lowest fitting index (first fit), or the fitting index of least size (best fit) or of greatest size (worst fit), ties going to the lowest index |
| Fit.ChoiceIsUnique | memoryman.py:51-74 | two correct choices are equal, so that description determines the selector |
| Fit.FindFit | memoryman.py:51-74 | the loops of `_find_partition` and `_find_block` compute the correct choice for the named strategy |
| FixedPartitions.FirstFreeWindowFrom | memoryman.py:9-10 | a window found from `i` starts at or after `i` and is all free |
| FixedPartitions.FirstFreeWindow | memoryman.py:9-10 | a window found is all free |
| FixedPartitions.FirstFreeWindowFromIsLowest | memoryman.py:9-10 | the search from `i` returns the lowest free window at or after `i`, and nothing only when there is none |
| FixedPartitions.FirstFreeWindowIsLowest | memoryman.py:9-14 | `allocate` fails exactly when no run of free partitions of the needed length exists (always when more are needed than exist); otherwise it takes the lowest-starting one |
| FixedPartitions.Fill | memoryman.py:11-12 | tagging a run sets exactly those partitions to the process and keeps the rest |
| FixedPartitions.WindowFree | memoryman.py:10 | the run of `n` partitions from `i` lies inside the list and is all `None`; FirstFreeWindowFromIsLowest states the search in these terms |
| FixedPartitions.FillThenClear | memoryman.py:7-19 | freeing a process that held nothing before its allocation restores the partitions |
| FixedPartitions.FixedSizedPartitioning.constructor | memoryman.py:2-5 | `memory_size // partition_size` free partitions |
| FixedPartitions.FixedSizedPartitioning.Allocate | memoryman.py:7-14 | succeeds exactly when a free run of `ceil(size / partition_size)` partitions exists, and then tags the lowest-starting one; otherwise changes nothing |
| FixedPartitions.FixedSizedPartitioning.Deallocate | memoryman.py:16-19 | frees exactly the partitions of the process |
| UnequalPartitions.PartitionRegions | memoryman.py:51-74 | the selector sees each partition's size and whether it is unoccupied |
| UnequalPartitions.TakeThenClear | memoryman.py:33-43 | freeing a process that held nothing before it took a partition restores the occupancy list |
| UnequalPartitions.UnequalSizedPartitioning.constructor | memoryman.py:29-31 | the given sizes, all partitions free |
| UnequalPartitions.UnequalSizedPartitioning.FindPartition | memoryman.py:51-74 | returns the strategy's choice: a free partition at least as large as the request |
| UnequalPartitions.UnequalSizedPartitioning.Allocate | memoryman.py:33-38 | succeeds exactly when the strategy chooses a partition, which then holds the process; otherwise nothing changes |
| UnequalPartitions.UnequalSizedPartitioning.Deallocate | memoryman.py:40-43 | frees exactly the partitions of the process |
| DynamicAllocation.BlockRegions | memoryman.py:118-141 | the selector sees each block's size and whether it is free |
| DynamicAllocation.ContiguousSum | memoryman.py:78-93 | contiguous blocks span from the first start to the last end |
| DynamicAllocation.TilesSumToTotal | memoryman.py:78-80 | the block sizes of a tiling add up to the memory size |
| DynamicAllocation.ContiguousOrdered | memoryman.py:91 | in a contiguous list each block ends before any later block starts |
| DynamicAllocation.TilesSortedByStart | memoryman.py:91-102 | a tiling with non-empty blocks, such as Split's list, is strictly sorted by start, so it is the list `sort()` at :91 produces, and `sorted` at :102 leaves it unchanged |
| DynamicAllocation.FreeSpaceAppend | memoryman.py:82-108 | free space adds up over concatenation |
| DynamicAllocation.Split | memoryman.py:86-91 | the allocated block and the free remainder in place of the chosen block; SplitShape, SplitKeepsTiling and SplitTakesFreeSpace state what it yields |
| DynamicAllocation.SplitShape | memoryman.py:86-91 | after a split the allocated block replaces the chosen one and the remainder, if any, follows it; every other block keeps its place |
| DynamicAllocation.SplitKeepsTiling | memoryman.py:82-93 | splitting a free block keeps the tiling and keeps every block non-empty |
| DynamicAllocation.SplitKeepsNoAdjacentFree | memoryman.py:86-91 | splitting a free block of a list with no two adjacent free blocks creates no such pair, because the allocated block separates the remainder from whatever preceded the split block |
| DynamicAllocation.SplitTakesFreeSpace | memoryman.py:82-93 | splitting takes exactly the requested size out of free space |
| DynamicAllocation.Release | memoryman.py:96-97 | freeing keeps the number of blocks |
| DynamicAllocation.ReleaseFacts | memoryman.py:96-97 | freeing keeps every start and size, frees exactly the blocks of the process, and grows free space by what it held |
| DynamicAllocation.ReleaseKeepsTiling | memoryman.py:95-97 | freeing keeps the tiling |
| DynamicAllocation.MergeStep | memoryman.py:103-107 | one iteration of the coalescing loop; MergeStepKeepsTiling and MergeFreeAppend state what it yields |
| DynamicAllocation.MergeFree | memoryman.py:100-108 | the coalescing loop over the sorted list; MergeFreeLeavesNoAdjacentFree, MergeFreeKeepsFreeSpace, MergeFreeKeepsOwned and MergeFreeIdentity state what it yields |
| DynamicAllocation.MergeFreeAppend | memoryman.py:103-107 | a block that cannot fuse with the last coalesced block is appended to the coalesced list |
| DynamicAllocation.MergeFreeKeepsTiling | memoryman.py:100-108 | coalescing keeps the first start, the last end, contiguity and non-empty blocks |
| DynamicAllocation.ContiguousInit | memoryman.py:103-105 | the blocks before the last of a contiguous list are contiguous and end where the last block starts |
| DynamicAllocation.MergeStepKeepsTiling | memoryman.py:103-107 | one step of the coalescing loop keeps the merged list contiguous, starting where it started and ending where the new block ends, with non-empty blocks |
| DynamicAllocation.MergeFreeLeavesNoAdjacentFree | memoryman.py:100-108 | after coalescing no free block is followed by another free block |
| DynamicAllocation.MergeFreeKeepsFreeSpace | memoryman.py:100-108 | coalescing keeps the total free space |
| DynamicAllocation.MergeFreeKeepsOwned | memoryman.py:100-108 | coalescing keeps the owned blocks, in order |
| DynamicAllocation.MergeFreeIdentity | memoryman.py:100-108 | a list without adjacent free blocks is left unchanged |
| DynamicAllocation.MergeFreeIdempotent | memoryman.py:100-108 | coalescing twice is coalescing once |
| DynamicAllocation.MergeRejoinsBlock | memoryman.py:86-108 | after a list without adjacent free blocks, the freed allocated part and the free remainder of a split block fuse back into that block |
| DynamicAllocation.MergeRejoinsSplit | memoryman.py:86-108 | coalescing fuses the two freed parts of a split block back into it and leaves the blocks around it as they were |
| DynamicAllocation.DeallocateUndoesAllocate | memoryman.py:82-108 | freeing a process that held no block before it was given part of a free block restores the block list, when that list had no two adjacent free blocks |
| DynamicAllocation.OwnedBlocksFromList | memoryman.py:100-108 | every listed owned block is an owned block of the list |
| DynamicAllocation.OwnedBlocksHaveOwners | memoryman.py:100-108 | every owned block of the list is listed |
| DynamicAllocation.NoBlockOfReleased | memoryman.py:95-98 | a list whose owned blocks are those of a freed list has no block of the freed process |
| DynamicAllocation.FirstFitAt | memoryman.py:119-122 | first fit picks the first free block that is large enough |
| DynamicAllocation.DynamicMemoryAllocation.constructor | memoryman.py:78-80 | one free block spanning the memory |
| DynamicAllocation.DynamicMemoryAllocation.FindBlock | memoryman.py:118-141 | returns the strategy's choice: a free block at least as large as the request |
| DynamicAllocation.DynamicMemoryAllocation.Allocate | memoryman.py:82-93 | succeeds exactly when the strategy chooses a block, which is then split into the allocated block and the free remainder; free space drops by the size, and the tiling and the absence of adjacent free blocks are kept |
| DynamicAllocation.DynamicMemoryAllocation.Deallocate | memoryman.py:95-98 | afterwards no block belongs to the process, no two free blocks are adjacent, the other owned blocks are unchanged and in order, and free space grows by exactly what the process held |
| DynamicAllocation.DynamicMemoryAllocation.MergeFreeBlocks | memoryman.py:100-108 | from any tiling, the loop fuses every run of adjacent free blocks: same owned blocks, same free space, tiling kept, no two adjacent free blocks left |
| BuddyAllocator.Pow2 | memoryman.py:175 | `1 << k` is positive |
| BuddyAllocator.BitLength | memoryman.py:175 | `int.bit_length` on a non-negative number; BitLengthBounds states that it counts the binary digits |
| BuddyAllocator.RoundedOrder | memoryman.py:150 | the order of the rounded request, `(x - 1).bit_length()`; NextPowerOfTwoIsLeast states what it rounds to |
| BuddyAllocator.NextPowerOfTwo | memoryman.py:174-175 | `1 << (x - 1).bit_length()`; NextPowerOfTwoIsLeast states that it is the least power of two at least `x` for `x >= 1` |
| BuddyAllocator.Pow2Order | memoryman.py:151-152 | comparing two powers of two compares their exponents |
| BuddyAllocator.BitLengthBounds | memoryman.py:175 | `n` has exactly `bit_length(n)` binary digits |
| BuddyAllocator.NextPowerOfTwoIsLeast | memoryman.py:174-175 | for `x >= 1`, `_next_power_of_two(x)` is the least power of two at least `x` |
| BuddyAllocator.NextPowerOfTwoExamples | memoryman.py:174-175 | 1, 5, 8 and 9 round to 1, 8, 8 and 16; 0 rounds to 2 |
| BuddyAllocator.Xor | memoryman.py:165 | Python's `^` on non-negative integers; XorBuddy states that `address ^ size` is the buddy address |
| BuddyAllocator.XorBuddy | memoryman.py:165 | `address ^ size` is the other half of the enclosing block of twice the size |
| BuddyAllocator.BuddyOfBuddy | memoryman.py:165 | the buddy of the buddy is the block itself |
| BuddyAllocator.BuddyPair | memoryman.py:165-168 | a block and its buddy make up the next larger block, which starts at the lower address |
| BuddyAllocator.Remove | memoryman.py:167 | `list.remove` drops one occurrence of a present address and keeps every other address |
| BuddyAllocator.RemoveNoDup | memoryman.py:167 | on a list without repeats, `remove` leaves no occurrence and creates no repeat |
| BuddyAllocator.RemoveAppended | memoryman.py:167-171 | removing an address just appended gives the list back |
| BuddyAllocator.AddBlockKeepsValid | memoryman.py:171 | appending a releasable block keeps the free lists valid |
| BuddyAllocator.PopBlockKeepsValid | memoryman.py:153 | taking a bucket's front address keeps the free lists valid |
| BuddyAllocator.RemoveBlockKeepsValid | memoryman.py:167 | removing a buddy from its bucket keeps the free lists valid |
| BuddyAllocator.FirstBucket | memoryman.py:151-152 | the bucket found is non-empty and its blocks are large enough |
| BuddyAllocator.FirstBucketIsLowest | memoryman.py:151-152 | the scan skips only empty buckets and finds nothing only when every sufficient bucket is empty |
| BuddyAllocator.AllocatedAddress | memoryman.py:151-159 | the front address of the first non-empty sufficient bucket, or nothing; AllocateKeepsFreeLists states where that block lies and what it covers |
| BuddyAllocator.SplitDown | memoryman.py:156-158 | splitting keeps the number of buckets |
| BuddyAllocator.AfterAllocate | memoryman.py:149-160 | allocation keeps the number of buckets |
| BuddyAllocator.Coalesce | memoryman.py:162-172 | deallocation keeps the number of buckets |
| BuddyAllocator.SplitDownKeepsFreeLists | memoryman.py:156-158 | splitting keeps the free lists valid; the allocated half is clear of them; together they cover what the lists and the split block covered |
| BuddyAllocator.SplitStep | memoryman.py:156-158 | one halving keeps the free lists valid and leaves the lower half releasable |
| BuddyAllocator.SplitStepBuddy | memoryman.py:157-158 | the half appended by one halving is a new aligned free block whose buddy is the lower half |
| BuddyAllocator.SplitStepCells | memoryman.py:156-158 | one halving covers, with the lower half, exactly what the lists and the whole block covered |
| BuddyAllocator.HalvesApart | memoryman.py:157-158 | blocks disjoint from a block are disjoint from both of its halves |
| BuddyAllocator.AddUpperHalf | memoryman.py:158 | appending the upper half keeps the free lists valid and the lower half releasable |
| BuddyAllocator.SplitDownKeepsValid | memoryman.py:156-158 | the whole halving loop keeps the free lists valid and leaves the allocated block releasable |
| BuddyAllocator.SplitDownCells | memoryman.py:156-158 | the whole halving loop covers, with the allocated block, exactly what the lists and the split block covered |
| BuddyAllocator.AllocateKeepsFreeLists | memoryman.py:149-160 | allocation keeps the free lists valid. It fails exactly when every bucket of the rounded size or above is empty, and then changes nothing. Otherwise the block returned is aligned, inside memory and disjoint from the remaining free blocks, and with them covers exactly what was free |
| BuddyAllocator.CoalesceKeepsFreeLists | memoryman.py:162-172 | releasing a block clear of the free lists keeps them valid and adds exactly its addresses |
| BuddyAllocator.MergeWithBuddy | memoryman.py:165-168 | one merge step yields a releasable block of the next size covering the same addresses |
| BuddyAllocator.MergeBlocks | memoryman.py:166-168 | taking a free buddy out of its bucket keeps the free lists valid and makes the merged block releasable |
| BuddyAllocator.MergeApart | memoryman.py:166-168 | blocks disjoint from a block and from its buddy are disjoint from the merged block |
| BuddyAllocator.MergeCells | memoryman.py:166-168 | the lists without the buddy, plus the merged block, cover what the lists and the released block covered |
| BuddyAllocator.AddKeepsNoFreeBuddies | memoryman.py:171 | adding a block whose buddy is not free keeps no free block paired with a free buddy |
| BuddyAllocator.SplitDownKeepsNoFreeBuddies | memoryman.py:156-158 | splitting leaves no two buddies free |
| BuddyAllocator.SplitStepNoFreeBuddies | memoryman.py:157-158 | one halving leaves no two buddies free: the buddy of the new half is the block still being split |
| BuddyAllocator.AllocateKeepsNoFreeBuddies | memoryman.py:149-160 | allocation leaves no two buddies free |
| BuddyAllocator.AllocateKeepsInvariants | memoryman.py:149-160 | allocation keeps both free-list invariants and hands out a block that can be released |
| BuddyAllocator.CoalesceKeepsNoFreeBuddies | memoryman.py:162-172 | deallocation leaves no two buddies free: merging stops only at a buddy that is not free |
| BuddyAllocator.CoalesceKeepsInvariants | memoryman.py:162-172 | releasing a block clear of the free lists keeps both invariants and adds exactly its addresses |
| BuddyAllocator.SplitDownLast | memoryman.py:156-158 | the last halving appends the half of the requested size to its bucket |
| BuddyAllocator.CoalesceMergesWithUpperHalf | memoryman.py:158-169 | releasing a lower half whose upper half was just appended merges the two and goes on one order up |
| BuddyAllocator.CoalesceUndoesHalving | memoryman.py:156-169 | releasing at the order where a split stopped equals releasing at the order above, had the split stopped there |
| BuddyAllocator.CoalesceUndoesSplit | memoryman.py:156-172 | merging back up through the halves a split left behind equals releasing the whole block |
| BuddyAllocator.AllocateThenDeallocate | memoryman.py:149-172 | allocating and then releasing the same block restores the free lists, except that the reused address moves from the front to the back of its bucket |
| BuddyAllocator.InitialFreeLists | memoryman.py:145-147 | a fresh memory has valid free lists whose only block is the whole memory at 0 |
| BuddyAllocator.BuddySystem.constructor | memoryman.py:145-147 | for a power-of-two size the only free block is the whole memory at address 0 |
| BuddyAllocator.BuddySystem.Allocate | memoryman.py:149-160 | returns the front address of the smallest sufficient non-empty bucket and splits that block down to the rounded size, or returns nothing and changes nothing. Valid free lists stay valid, and the returned block can be released |
| BuddyAllocator.BuddySystem.SplitBlock | memoryman.py:156-158 | the halving loop puts the upper halves down to the rounded size at the back of their buckets |
| BuddyAllocator.BuddySystem.Deallocate | memoryman.py:162-172 | merges the released block with its free buddy for as long as there is one. The block is dropped when its rounded size exceeds the memory. A block clear of valid free lists keeps them valid and adds exactly its addresses |
| PagingAllocator.FreeFramesBelow | memoryman.py:193-195 | the unused frames below a bound, in the order the scan meets them; FreeFramesBelowSpec states which frames and in what order |
| PagingAllocator.FreeFramesBelowSpec | memoryman.py:193-195 | the scan finds the unused frames in strictly ascending order, and each unused frame below the bound |
| PagingAllocator.FreeFramesBelowMembers | memoryman.py:193-195 | a frame is found by the scan exactly when it is below the bound and unused |
| PagingAllocator.FreeFramesBelowAscending | memoryman.py:193-195 | the scan finds frames in strictly ascending order |
| PagingAllocator.FreeFramesPrefix | memoryman.py:193-198 | stopping the scan early yields a prefix of the full scan |
| PagingAllocator.LowestFreeFrames | memoryman.py:192-202 | the frames taken are the lowest-numbered unused ones, in ascending order |
| PagingAllocator.PageEntries | memoryman.py:201-202 | the new entries are exactly pages `0 .. n - 1` of the process, mapped to the chosen frames in order |
| PagingAllocator.WithoutProcess | memoryman.py:204-207 | deallocation keeps exactly the entries of other processes, unchanged |
| PagingAllocator.CommitKeepsValid | memoryman.py:201-202 | adding entries for distinct unused frames keeps every frame in range and no frame shared |
| PagingAllocator.CommitStep | memoryman.py:201-202 | committing one more page adds exactly that entry |
| PagingAllocator.AllocateThenDeallocate | memoryman.py:190-207 | freeing a process that held no page before its allocation restores the table |
| PagingAllocator.Paging.constructor | memoryman.py:184-188 | `memory_size // page_size` frames and an empty table |
| PagingAllocator.Paging.CollectFrames | memoryman.py:192-198 | the scan collects the free frames in order, stopping once enough are found |
| PagingAllocator.Paging.Allocate | memoryman.py:190-202 | succeeds exactly when at least `ceil(size / page_size)` frames are free. It then maps the process's pages to the lowest free frames in order. On failure the table is unchanged. Every frame stays in range and none is shared |
| PagingAllocator.Paging.Commit | memoryman.py:201-202 | the commit loop adds the entries for pages `0 .. n - 1` |
| PagingAllocator.Paging.Deallocate | memoryman.py:204-207 | removes exactly the entries of the process |

## Left out

- `display` on every class, and `main`: console output and input only.
- Sizes, process sizes and addresses are `nat` where the Python code would accept a negative
  int. Negative requests make no allocation sense. These stay an `int`: the partition
  sizes of `UnequalSizedPartitioning`, the request to its `Allocate`, the request to the
  selectors, and the request to `BuddySystem.Allocate` and `BuddySystem.Deallocate`.
- DynamicAllocation.DynamicMemoryAllocation.Allocate: requires `size > 0`. A zero-size request
  creates an empty owned block, and a later `sorted` can then compare `None` with an int.
  The ordering and that failure are not modelled.
- DynamicAllocation.DynamicMemoryAllocation.Allocate: places the allocated block and the free
  remainder directly where `sort()` puts them (TilesSortedByStart). The sort itself is not
  modelled.
- DynamicAllocation.DynamicMemoryAllocation.MergeFreeBlocks: scans the list in its own order
  rather than `sorted(self.memory)`. TilesSortedByStart shows that the two orders are the same.
- BuddyAllocator.BuddySystem.constructor: requires the memory size to be a power of two. For
  other sizes the Python splitting produces blocks that are not powers of two, and that
  behaviour is not modelled.
- The buddy free lists are keyed by order `k` (block size `2^k`) rather than by size. An
  absent dictionary key is modelled as an empty bucket, and the two differ only in `display`.
  The order of `sorted(self.free_blocks)` is therefore the bucket index order.
- `BuddySystem.allocate` ignores its `process_id`; the model keeps the parameter unused.
- The validity and coverage guarantees of `BuddySystem.Deallocate` hold only for a block that
  is clear of the free blocks (`Releasable`). A double free or a wrong address is modelled as
  the code runs, but the model proves nothing about the result.
- Python's `^` is modelled by a bitwise `Xor` on non-negative integers.
- The page table is a `map`. Python dictionary insertion order matters only to `display`.
- The cost of `frame not in self.page_table.values()` inside the scan is not modelled.
- `ZeroDivisionError` for a zero partition or page size: the constructors require a positive
  size.
