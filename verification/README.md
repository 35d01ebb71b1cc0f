# Verified models of four in-place allocators

This project models the memory allocators of the repository in Dafny and proves what
they keep, when they fail, and that nothing a client does to its own memory can break
them.  Each allocator works in place on one caller-supplied buffer: its bookkeeping lies
inside the memory it manages.

* **mplite** (`Buddy`, `FreeLists`, `BuddyLayout`, `Mplite`, `MpliteRuns`): a binary buddy
  allocator.  The central result is canonicity: the free lists hold exactly the maximal
  aligned power-of-two ranges that meet no outstanding allocation.  The exact failure
  condition, independence of history and the return to the initial layout follow from it.
* **tiny** (`TinyCodec`, `TinyPlacement`, `Tiling`, `TinyHeap`, `TinyCache`, `TinyCoalesce`,
  `Tiny`, `TinyCheck`, `TinyRuns`): blocks with variable-length headers that can be read from both ends,
  lazy coalescing and a lossy array of free blocks that is trusted without a second look.
* **memmgr** (`Tiling`, `MemLists`, `Memmgr`, `MemmgrRuns`): a circular, address-sorted free list over a
  pool that is handed out bit by bit.
* **the page allocator** (`SizeClasses`, `PageSizes`, `PageAddresses`, `Bitmaps`,
  `PageLists`, `PageLayout`, `PageSteps`, `PageMoves`, `PageElements`, `Pages`, `PageExhaustion`,
  `PageCheck`, `PagePool`, `PageRuns`): small and large pages, buckets, bitmaps, recombination.
* **the bit arithmetic below them** (`Powers`, `Bits`, `Logs`, `IlogForms`, `BitOps`);
  `Shared` and `Wrappers` hold what several modules use.

The objects that the code updates in place are classes over arrays.  Each keeps ghost
fields for what is outstanding; `Valid()` ties them to the bytes and words in the arrays, and
the methods state the new ghost value from the old one.  The sets of free ranges, the tilings and the
list theories are ordinary functions and lemmas on values.  The contracts of the allocating and
freeing calls determine which block a request is served from and the order of every list afterwards.

Where the code and its comments differ, the model follows the code:

* `mplite_unlink_first` is described as taking the first entry; it looks for the lowest, and finds it
  exactly when block 0 comes first on the list or is not on it, because the walk stops at index 0.
* `tiny_alloc_size` reports one byte more than the payload has when an allocation absorbed a byte
  that could not be split off and that its header did not need.
* `alloc_get` promises alignment, but a request for zero bytes is served from bucket 0 without any.
* `check_bucket` has a test without a body on the full list: a page of the wrong size there is
  noticed only if it is misplaced as well.  `PageCheck` keeps the code's meaning.
* memmgr starts its pool behind the buffer header but bounds it by the size of the whole buffer, so the
  last blocks of a pool can lie outside the buffer.
* the assert in `alloc_init` that page numbers stay small fails for the pool sizes 0x101000 to
  0x101FFF and no others.
* `alloc_check` rejects every pool with small pages behind its last whole large page, although the
  allocator works on such pools.

## Model

| member | source | states |
|---|---|---|
| Buddy.Release | mplite/mplite.c:438-463 | giving back an aligned range whose parent stays busy adds exactly that range to the maximal free ranges and changes no other; taking a free block is the same fact read backwards |
| Buddy.Ancestor | mplite/mplite.c:364-387 | every free aligned range lies in a maximal one, so looking at lists of larger order finds room whenever there is room |
| Buddy.SiblingHead | mplite/mplite.c:439-461 | what can start at the buddy's first atom: the buddy free as a whole, a smaller free block, or an allocation of at most the same order; never the inside of a block |
| BuddyLayout.BuddyTest | mplite/mplite.c:448-449 | the one control byte the coalescing test reads equals free-with-this-order exactly when the buddy is free as a whole, and it is read at a block start, so stale bytes inside blocks never matter |
| BuddyLayout.Take | mplite/mplite.c:378-388 | removing a free block from its list turns canonical lists into the canonical lists of the enlarged used set |
| BuddyLayout.Give | mplite/mplite.c:463 | adding a block whose parent is busy keeps the lists canonical |
| BuddyLayout.SplitCanonical | mplite/mplite.c:379-386 | one splitting round keeps every list equal to the set of maximal free ranges of its order |
| BuddyLayout.MergeCanonical | mplite/mplite.c:450-461 | one coalescing round keeps every list equal to the set of maximal free ranges of its order |
| FreeLists.LinkThreads | mplite/mplite.c:266-281 | linking into an acyclic list with consistent links in both directions gives one with the new block in front |
| FreeLists.UnlinkThreads | mplite/mplite.c:287-306 | unlinking a member leaves the list without it, consistent in both directions |
| FreeLists.LowestChosen | mplite/mplite.c:315-326 | the walk of mplite_unlink_first ends with a member of the list, at most as high as the first; with the lowest when block 0 is not listed |
| FreeLists.LowestExactly | mplite/mplite.c:319-324 | the walk finds the lowest member exactly when the list starts with block 0 or does not hold it |
| FreeLists.LowestMissed | mplite/mplite.c:319-324 | a list for which it does not: 2 before 0 |
| Mplite.Pool.constructor | mplite/mplite.c:97-117 | over memory with arbitrary contents: a pool with nothing outstanding whose lists hold exactly the maximal free ranges of the whole pool |
| Mplite.Pool.FormatPool | mplite/mplite.c:102-115 | the initial blocks are canonical, and the assert in the loop never fires |
| Mplite.Init | mplite/mplite.c:60-118 | the error code for bad parameters, the least power of two of at least 8 bytes that holds min_alloc as atom size, and the largest number of atoms that fits with one control byte each |
| Mplite.AtomSize | mplite/mplite.c:92-96 | least power of two that is at least min_alloc and at least the link size |
| Mplite.Logarithm | mplite/mplite.c:238-243 | the ceiling of the binary logarithm |
| Mplite.Pool.Link | mplite/mplite.c:266-281 | pushes a block on the list of its order; no atom off that list changes |
| Mplite.Pool.Unlink | mplite/mplite.c:287-306 | removes exactly this block from its list; no atom off that list changes |
| Mplite.Pool.UnlinkFirst | mplite/mplite.c:312-327 | removes the member that the walk chooses, the lowest of the members up to the first at index 0; it is the lowest of the list exactly when index 0 comes first or is not listed |
| Mplite.Pool.SplitOff | mplite/mplite.c:379-386 | the upper half goes on the list of the next lower order and the layout invariant holds again |
| Mplite.OrderForLeast | mplite/mplite.c:364-366 | the rounding loop finds the least order whose blocks hold the request |
| Mplite.Pool.FindBin | mplite/mplite.c:372-377 | the search runs past the last order exactly when no aligned free range of the wanted order exists in the pool |
| Mplite.Pool.MallocUnsafe | mplite/mplite.c:339-404 | returns NULL exactly when the request is too large or no aligned free range of its order exists; otherwise a range that was free, carved from the smallest sufficient free block at the index the walk of its list chooses; every counter is updated, the 64-bit ones with wrap-around, and no byte of an allocation changes; every list is as it was but for this block and the halves split off it, which come in front |
| Mplite.Pool.Malloc | mplite/mplite.c:120-134 | the same for the public entry, counters and lists included, with NULL and nothing changed for sizes that are not positive |
| Mplite.Pool.CountFree | mplite/mplite.c:431-436 | the four asserts on the counters hold; bytes and number outstanding go down by exactly this block |
| Mplite.Pool.MergeStep | mplite/mplite.c:439-461 | one turn of the coalescing loop: stops exactly when the parent range is busy or outside the pool, and otherwise continues with the parent block |
| Mplite.Pool.FreeUnsafe | mplite/mplite.c:409-464 | exactly this allocation goes; the invariant and with it canonicity hold; other allocations keep their bytes; the freed range lies in the block at the front of a list, and every list keeps the order of what it held |
| Mplite.Pool.Free | mplite/mplite.c:136-146 | the same for the public entry, lists included; NULL does nothing |
| Mplite.Pool.Size | mplite/mplite.c:250-260 | atom size times two to the allocation's order, 0 for NULL |
| Mplite.Pool.Roundup | mplite/mplite.c:175-187 | the least allocation size that holds n bytes, 0 above the limit |
| Mplite.Pool.Realloc | mplite/mplite.c:148-173 | exact results for NULL, for sizes that are not a positive power of two, for shrinking, for failure (old block and lists untouched) and for moving: the first old-size bytes are copied and no byte of another allocation changes; the new block is the one malloc would have chosen, the lists are those of one malloc and one free, and the counters change as for one request, or not at all when nothing is requested |
| Mplite.Pool.ClientWrite | mplite/mplite.c:403 | a client may write anything into its allocations; the invariant stays |
| Mplite.Pool.StaleControl | mplite/mplite.c:438-460 | a control byte that does not start a block may hold anything; the invariant stays |
| MpliteRuns.HistoryIndependent | mplite/mplite.c:438-463 | two pools of equal size with the same allocations have the same free blocks, the same headers and the same counters, whatever calls led there |
| MpliteRuns.IdleLayout | mplite/mplite.c:106-115 | with nothing outstanding the free blocks are the ones mplite_init builds, one for each binary digit of the number of atoms |
| MpliteRuns.NothingOutstanding | mplite/mplite.c:106-115 | a pool with nothing outstanding has the initial layout and zero counters |
| MpliteRuns.FreeAll | mplite/mplite.c:409-464 | freeing everything, in any order, restores the initial layout |
| MpliteRuns.Tiles | mplite/mplite.c:266-327 | every atom lies in exactly one block, outstanding or on a list |
| MpliteRuns.PointersApart | mplite/mplite.c:403 | byte ranges of two outstanding pointers do not meet and stay inside the pool |
| MpliteRuns.LowestMissedRun | mplite/mplite.c:312-327 | in a pool of four atoms, after four requests and giving back atoms 0 and 2, the next atom granted is 2 although 0 is free |
| MpliteRuns.Step | mplite/mplite.c:120-173 | any lawful call or client write in any reachable state keeps the invariant, and every allocation it is not about stays outstanding with its size and all its bytes |
| TinyCodec.DecodeEncode | buffer/ccan/antithread/alloc/tiny.c:45-99 | decode inverts encode for every length from 2 up and both flags, whatever bytes follow |
| TinyCodec.EncodedLength | buffer/ccan/antithread/alloc/tiny.c:20-29 | encode writes exactly encode_length(len - 2) bytes |
| TinyCodec.HeaderBytes | buffer/ccan/antithread/alloc/tiny.c:282-294 | which header bytes carry the terminator and single-byte marks, so that a header can be read from its end |
| TinyCodec.LenWithHeaderLeast | buffer/ccan/antithread/alloc/tiny.c:32-41 | the loop of encode_len_with_header ends, with the least fixpoint |
| TinyCodec.LenWithHeaderMono | buffer/ccan/antithread/alloc/tiny.c:32-41 | a longer payload never needs a shorter header |
| TinyPlacement.PayloadFits | buffer/ccan/antithread/alloc/tiny.c:166-174 | long_enough implies that the far-end aligned payload holds the request and starts behind the least header for what follows it; no aligned payload lies further on |
| TinyPlacement.LongEnoughExactly | buffer/ccan/antithread/alloc/tiny.c:166-174 | long_enough holds exactly when some aligned payload of the asked size fits behind a header for the whole block |
| TinyPlacement.HeaderExact | buffer/ccan/antithread/alloc/tiny.c:258-262 | a split block's header ends exactly at the payload |
| TinyPlacement.HeaderFits | buffer/ccan/antithread/alloc/tiny.c:258-277 | the header starts at or after the block and, even when one byte that cannot be split off is absorbed, ends at most one byte before the payload |
| TinyPlacement.PaddingExactly | buffer/ccan/antithread/alloc/tiny.c:265-270 | a block used whole keeps a byte of padding exactly when the computed header starts one byte behind it and a header for one byte less is no shorter |
| TinyRuns.OverstatedSize | buffer/ccan/antithread/alloc/tiny.c:318-326 | in a fresh pool of ten bytes a request for eight returns offset 2, and tiny_alloc_size reports nine, one more than the pool has there |
| Tiny.DecodeAt | buffer/ccan/antithread/alloc/tiny.c:76-99 | the in-place reader computes Decode of the bytes at its offset |
| Tiny.EncodeAt | buffer/ccan/antithread/alloc/tiny.c:45-73 | the in-place writer puts the encoding at its offset and changes nothing else |
| Tiny.TinyPool.EncodeLenWithHeader | buffer/ccan/antithread/alloc/tiny.c:32-41 | the loop computes the least fixpoint |
| TinyCache.FreeArrayOffBounds | buffer/ccan/antithread/alloc/tiny.c:110-123 | bucket offsets are multiples of 3 and stay below the span exactly for sizes below 256 |
| TinyCache.FreeArrayOffSteps | buffer/ccan/antithread/alloc/tiny.c:107-123 | bucket offsets start at 0 and go on by one slot exactly at the sizes 2, 3, 4, the even ones from 6 to 16 and the multiples of 4 from 20 |
| TinyCache.PutKeepsCache | buffer/ccan/antithread/alloc/tiny.c:186-195 | storing an unlisted free block in an empty slot of its bucket keeps all slots distinct, free and in the right bucket |
| TinyCache.UnusedSlotFirst | buffer/ccan/antithread/alloc/tiny.c:186-195 | the slot that is written is the first unused one of the bucket, and there is none only when all are in use |
| TinyCache.FiledLists | buffer/ccan/antithread/alloc/tiny.c:176-196 | handing a free block to the array lists it unless it is too large or its bucket is full, and what was listed stays listed |
| TinyCache.AddedSlot | buffer/ccan/antithread/alloc/tiny.c:186-195 | the same as the code writes it: the array agrees with the heap and names one block more |
| TinyCache.EmptiedSlot | buffer/ccan/antithread/alloc/tiny.c:229-232 | emptying a slot keeps the agreement, and its block is no longer named, so that carving it up is safe |
| TinyCache.CacheFrame | buffer/ccan/antithread/alloc/tiny.c:258-277 | changes behind the array, and to blocks it does not name, keep the agreement |
| Tiny.TinyPool.constructor | buffer/ccan/antithread/alloc/tiny.c:125-136 | over arbitrary memory: one free block from the end of the free array to the end of the pool; pools of one byte are left alone |
| Tiny.TinyPool.AddToFreeArray | buffer/ccan/antithread/alloc/tiny.c:176-196 | the array stays in agreement with the heap; nothing but the given block becomes listed; byte for byte the array has the block in the first unused slot of its bucket, or is as it was |
| Tiny.TinyPool.SearchCache | buffer/ccan/antithread/alloc/tiny.c:215-235 | finds the first slot, bucket by bucket, whose block is free and serves the request, or none of the listed blocks does |
| Tiny.TinyPool.Scan | buffer/ccan/antithread/alloc/tiny.c:238-256 | finds the lowest free block that serves the request, which no slot names, or there is none; refilling hands exactly the free blocks passed to the array, in their order |
| Tiny.TinyPool.TryCoalesce | buffer/ccan/antithread/alloc/tiny.c:139-164 | merges every maximal run of free blocks, leaves no two adjacent, keeps allocated blocks and their bytes, and returns true exactly when two free blocks were adjacent |
| Tiling.RunsAreBlocks | buffer/ccan/antithread/alloc/tiny.c:139-164 | after coalescing the free blocks are exactly the maximal free runs from before |
| Tiling.CondensedFreeBytes | buffer/ccan/antithread/alloc/tiny.c:139-164 | coalescing leaves the set of free bytes unchanged |
| Tiling.Cover | buffer/ccan/antithread/alloc/tiny.c:374-393 | blocks that tile the pool cover every offset of it |
| Tiny.RunsFit | buffer/ccan/antithread/alloc/tiny.c:237-256 | some block serves the request after coalescing exactly when some maximal free run from before does |
| Tiny.TinyPool.Place | buffer/ccan/antithread/alloc/tiny.c:258-279 | puts the allocation at the far end, splits or absorbs, zeroes up to the payload; the invariant holds, no other allocation's bytes change, and there is padding exactly in the case of PaddingExactly, never after a split; a front part that is split off is handed to the free array |
| Tiny.TinyPool.Get | buffer/ccan/antithread/alloc/tiny.c:198-280 | returns NULL exactly when no free block and no maximal free run passes long_enough; otherwise an aligned payload of the asked size inside the pool, with padding exactly in the case of PaddingExactly; which block it is cut from and every byte of the free array afterwards are determined |
| Tiny.SoughtOnce | buffer/ccan/antithread/alloc/tiny.c:215-256 | the search has one outcome: the first slot that serves, else the lowest block that does, else the lowest after coalescing, with the array that this search leaves |
| Tiny.BeforePayload | buffer/ccan/antithread/alloc/tiny.c:282-295 | in front of every outstanding payload lie zeros back to a header whose marks end the two walks |
| Tiny.TinyPool.ToHdr | buffer/ccan/antithread/alloc/tiny.c:282-295 | finds the header of an outstanding pointer whatever clients wrote in their payloads |
| Tiny.SetFreeBit | buffer/ccan/antithread/alloc/tiny.c:310-312 | setting the free bit turns the header of an allocated block into the header of a free block of the same length |
| Tiny.TinyPool.Free | buffer/ccan/antithread/alloc/tiny.c:297-316 | exactly this block becomes free and is handed to the free array; other allocations keep their bytes |
| Tiny.TinyPool.Size | buffer/ccan/antithread/alloc/tiny.c:318-326 | at least the request; the payload room, and one byte more exactly when the block has a byte of padding, which the allocating call decides |
| Tiny.TinyPool.ClientWrite | buffer/ccan/antithread/alloc/tiny.c:279 | a client may write anything into its payload; the invariant stays |
| TinyCheck.Check | buffer/ccan/antithread/alloc/tiny.c:351-426 | for arbitrary memory: returns true exactly when some tiling of the pool by well-headed blocks agrees with the free array |
| TinyCheck.SoundConsistent | buffer/ccan/antithread/alloc/tiny.c:351-426 | every reachable state is accepted |
| TinyCheck.CheckPool | buffer/ccan/antithread/alloc/tiny.c:351-426 | tiny_alloc_check returns true in every reachable state |
| TinyRuns.IdleRunFits | buffer/ccan/antithread/alloc/tiny.c:237-256 | when every block is free, some maximal free run passes long_enough exactly when the whole pool behind the free array does |
| TinyRuns.FreeAll | buffer/ccan/antithread/alloc/tiny.c:297-316 | once everything has been freed, in any order, coalescing can serve a request exactly when the whole pool is long enough for it |
| TinyRuns.Step | buffer/ccan/antithread/alloc/tiny.c:198-316 | any lawful call or client write in any reachable state keeps the invariant, and every allocated block it is not about stays in place with all its bytes |
| MemLists.SlotExists | buffer_simple/memmgr.c:228-240 | on an ascending cycle every address off it has a place, including the wrap-around link |
| MemLists.StopsAtSlot | buffer_simple/memmgr.c:231-240 | the stopping test of the search in memmgr_free holds at that place and nowhere else |
| MemLists.FreeLinked | buffer_simple/memmgr.c:242-264 | the two merges keep one ascending cycle through base holding exactly the free blocks, and the blocks tile the pool |
| MemLists.AfterFreeCondenses | buffer_simple/memmgr.c:242-264 | what the two merges build is the heap with the block freed and adjacent free blocks merged |
| MemLists.AfterFreeApart | buffer_simple/memmgr.c:242-264 | no two free blocks are adjacent afterwards |
| MemLists.TakenTiled | buffer_simple/memmgr.c:173-188 | taking quanta from the end of a free block, or all of it, keeps the tiling and the separation of free blocks |
| MemLists.TakeWhole | buffer_simple/memmgr.c:176-182 | an exact fit leaves the cycle |
| MemLists.TakeTail | buffer_simple/memmgr.c:183-188 | a split keeps the block on the cycle |
| MemLists.FullCircle | buffer_simple/memmgr.c:170-210 | once round the cycle every free block has been looked at |
| MemLists.FoundNext | buffer_simple/memmgr.c:170-190 | where the walk finds a block that is large enough, every free block passed since the start was too small, and the walk came from the member just before it |
| Memmgr.Quantas | buffer_simple/memmgr.c:155-159 | the least number of quanta that holds the request and one header |
| Memmgr.Buffer.constructor | buffer_simple/memmgr.c:55-63 | no free list, nothing outstanding, the whole pool unused |
| Memmgr.Buffer.FindPlace | buffer_simple/memmgr.c:228-240 | the circular search ends at the place of the block |
| Memmgr.Buffer.FreeAt | buffer_simple/memmgr.c:219-267 | the block is freed and merged with what it touches on both sides; other blocks keep their data; the next search starts behind the member that preceded it |
| Memmgr.Buffer.GetMemFromPool | buffer_simple/memmgr.c:113-138 | fails exactly when the pool counter cannot advance by max(n, the least pool share); otherwise the free list has a block that holds n quanta |
| Memmgr.Buffer.AddBlock | buffer_simple/memmgr.c:127-130 | the new block joins the free list, possibly by growing the last free block |
| Memmgr.GrownRoom | buffer_simple/memmgr.c:193-202 | the grown block holds the request also when it merged into a neighbour |
| Memmgr.GrownOneFit | buffer_simple/memmgr.c:200-202 | after the pool has grown only the block around the new quanta is large enough, so the search ends there wherever it starts |
| Memmgr.Buffer.Alloc | buffer_simple/memmgr.c:149-211 | the search ends; NULL exactly when every free block is too small and the pool cannot grow; at most one growth a call, and only when every free block was too small; the returned block is cut from the end of a sufficient free block, the first one behind the place where the last search ended, and the next search starts behind the member that precedes it |
| Memmgr.Buffer.Free | buffer_simple/memmgr.c:219-267 | the public entry: exactly the given block is freed, and the free blocks are then exactly the maximal runs of quanta that nobody owns; the next search starts behind the member that preceded the block |
| Memmgr.SameFreeList | buffer_simple/memmgr.c:219-267 | buffers with the same outstanding blocks and the same pool position have the same free list, link by link and size by size: history does not matter |
| MemmgrRuns.InsideExactly | buffer_simple/memmgr.c:113-138 | in every reachable state with a block, all blocks lie inside the caller's buffer exactly when the header and the used part of the pool fit it together |
| MemmgrRuns.PastTheEnd | buffer_simple/memmgr.c:53-61 | on any fresh buffer of at least 128 bytes the request for the whole pool is granted and reaches behind the buffer; on a smaller buffer it fails |
| Logs.IlogBounds | buffer/ccan/ilog/ilog.c:31-135 | Ilog is floor(log2 v) + 1 for positive v and 0 for 0 |
| IlogForms.Ilog32Branchless | buffer/ccan/ilog/ilog.c:35-52 | equals Ilog on every 32-bit value |
| IlogForms.Ilog32Debruijn | buffer/ccan/ilog/ilog.c:54-65 | equals Ilog on every 32-bit value |
| IlogForms.Ilog64Branchless | buffer/ccan/ilog/ilog.c:74-95 | equals Ilog on every 64-bit value |
| IlogForms.Ilog64Halves | buffer/ccan/ilog/ilog.c:98-113 | equals Ilog on every 64-bit value, through one round and the 32-bit table |
| IlogForms.Ilog64Debruijn | buffer/ccan/ilog/ilog.c:115-132 | equals Ilog on every 64-bit value |
| IlogForms.Smear32 | buffer/ccan/ilog/ilog.c:57-61 | or-ing shifted copies turns v into a row of Ilog(v) ones |
| IlogForms.Smear64 | buffer/ccan/ilog/ilog.c:124-129 | the same for 64 bits |
| IlogForms.Index32 | buffer/ccan/ilog/ilog.c:63 | the product with the de Bruijn constant indexes the table at the exponent, for every power of two |
| IlogForms.Index64 | buffer/ccan/ilog/ilog.c:131 | the same for 64 bits |
| IlogForms.Static5 | buffer/ccan/ilog/ilog.h:139-147 | the recursive halving macro equals Ilog on every 32-bit value |
| IlogForms.Static6 | buffer/ccan/ilog/ilog.h:139-149 | the recursive halving macro equals Ilog on every 64-bit value |
| BitOps.Afls | buffer/ccan/antithread/alloc/bitops.c:9-16 | the position of the last set bit |
| BitOps.Affsl | buffer/ccan/antithread/alloc/bitops.c:19-61 | the position of the first set bit, 0 for 0 |
| BitOps.FfsFirst | buffer/ccan/antithread/alloc/bitops.c:19-61 | that bit is set and none below it is |
| BitOps.PairFields | buffer/ccan/antithread/alloc/bitops.c:69-80 | one line of apopcount turns fields that hold the number of set bits of w-bit fields into fields for twice the width |
| BitOps.Apopcount | buffer/ccan/antithread/alloc/bitops.c:63-91 | the number of set bits of every 64-bit value |
| Bits.AlignUpLeast | buffer/ccan/antithread/alloc/bitops.c:93-96 | for a power of two, align_up is the least multiple of it that is at least x |
| SizeClasses.BucketGalois | buffer/ccan/antithread/alloc/alloc.c:112-136 | size_to_bucket(s) is at most b exactly when s is at most bucket_to_size(b) |
| SizeClasses.BucketSeries | buffer/ccan/antithread/alloc/alloc.c:102-117 | the element sizes between two powers of two are a quarter of the smaller one apart, fractions cut off |
| SizeClasses.BucketWaste | buffer/ccan/antithread/alloc/alloc.c:119-136 | rounding up to a bucket wastes less than a quarter of the request |
| SizeClasses.BucketMono | buffer/ccan/antithread/alloc/alloc.c:112-117 | larger buckets hold larger elements |
| SizeClasses.BucketAligned | buffer/ccan/antithread/alloc/alloc.c:160-174 | the bucket of an aligned size keeps the alignment, for its element size and for its page header |
| PageSizes.ElementsPerPage | buffer/ccan/antithread/alloc/alloc.c:323-336 | the loop ends with the maximum number of elements that fits with header and bitmap |
| PageSizes.CapacityTest | buffer/ccan/antithread/alloc/alloc.c:908-918 | the two tests of check_bucket say exactly that a number is that maximum |
| PageSizes.SixFit | buffer/ccan/antithread/alloc/alloc.c:81-82 | a page of any bucket below max_bucket holds at least six elements |
| PageSizes.EighthOfPage | buffer/ccan/antithread/alloc/alloc.c:338-351 | an element takes at most an eighth of its page |
| PageSizes.SmallPageExactly | buffer/ccan/antithread/alloc/alloc.c:338-346 | a bucket has small pages exactly when eight of its elements, headers aside, fit a small page; otherwise its pages are 32 times as large |
| PageSizes.MaxBucketExactly | buffer/ccan/antithread/alloc/alloc.c:348-351 | the buckets below max_bucket are exactly those of which more than eight elements, headers aside, fit a large page |
| PageSizes.PageLimitExact | buffer/ccan/antithread/alloc/alloc.c:407-416 | for every pool size: the assert on the page number fails exactly from 0x101000 up to 0x101FFF |
| PageSizes.HeaderPagesBounds | buffer/ccan/antithread/alloc/alloc.c:377-398 | the pool's header takes between one and four small pages, the ones alloc_check marks |
| PageSizes.FieldsExactly | buffer/ccan/antithread/alloc/alloc.c:90-97 | every bucket's element count fits the 25 bits of elements_used exactly for small pages of at most 2^25 bytes, and bucket numbers fit their 7 bits exactly up to 2^30 |
| PageSizes.FieldLimit | buffer/ccan/antithread/alloc/alloc.c:138-141 | the pool size from which that field is too narrow, 2^38 + 2^13 |
| PageAddresses.InsidePage | buffer/ccan/antithread/alloc/alloc.c:763-765 | an element lies after its page's header and bitmap and ends inside its page |
| PageAddresses.Recover | buffer/ccan/antithread/alloc/alloc.c:783-813 | page number and element number are recovered from the offset, which is never a page start, so the huge branch is not taken |
| PageAddresses.ElementAligned | buffer/ccan/antithread/alloc/alloc.c:763-765 | elements for an aligned positive size lie at multiples of the alignment |
| PageAddresses.ZeroSizeNotAligned | buffer/ccan/antithread/alloc/alloc.c:718-721 | a request for no bytes is served from bucket 0, where of two neighbouring elements one has an odd offset |
| Pages.AlignmentExactly | buffer/ccan/antithread/alloc/alloc.c:718-765 | the elements a request can be served from are all aligned exactly when it has at least one byte or asks for no alignment |
| PageRuns.ZeroSizeRun | buffer/ccan/antithread/alloc/alloc.c:718-765 | two requests for no bytes on any fresh pool return neighbouring offsets, which are not both multiples of an alignment above 1 |
| Bitmaps.SetBitOnly | buffer/ccan/antithread/alloc/alloc.c:308-311 | set_bit sets one bit and no other |
| Bitmaps.ClearBitOnly | buffer/ccan/antithread/alloc/alloc.c:298-301 | clear_bit clears one bit and no other |
| Bitmaps.FindFreeBit | buffer/ccan/antithread/alloc/alloc.c:313-320 | the first clear bit, given that there is one |
| Bitmaps.CountBits | buffer/ccan/antithread/alloc/alloc.c:857-872 | the number of set bits below a limit |
| PageLists.PushChained | buffer/ccan/antithread/alloc/alloc.c:176-189 | add_to_list keeps all lists linked both ways and disjoint; only the page and the old first page change |
| PageLists.DeleteChained | buffer/ccan/antithread/alloc/alloc.c:191-205 | del_from_list keeps all lists linked both ways and disjoint; only the neighbours' links change |
| Pages.Heap.AddToList | buffer/ccan/antithread/alloc/alloc.c:176-189 | the in-place form, with the assert that the old first page has no predecessor; the page comes in front and the rest of the list keeps its order |
| Pages.Heap.DelFromList | buffer/ccan/antithread/alloc/alloc.c:191-205 | the in-place form; the rest of the list keeps its order |
| Pages.Heap.PopFromList | buffer/ccan/antithread/alloc/alloc.c:207-220 | takes the first page, or returns 0 exactly when the list is empty |
| Pages.Heap.constructor | buffer/ccan/antithread/alloc/alloc.c:353-417 | over arbitrary memory: every page is in its initial place, the free lists hold their pages in descending order, and nothing is outstanding |
| Pages.BucketCaps | buffer/ccan/antithread/alloc/alloc.c:378-391 | elements_per_page of every bucket is the maximum |
| PageSteps.EmptyMeansFree | buffer/ccan/antithread/alloc/alloc.c:434-445 | in a group of small pages exactly the pages on the small free list have no elements in use |
| PageSteps.GroupTest | buffer/ccan/antithread/alloc/alloc.c:459-461 | all_empty holds exactly when all 32 pages of the group are on the small free list |
| Pages.Heap.AllEmpty | buffer/ccan/antithread/alloc/alloc.c:434-445 | whether none of the 32 headers counts an element |
| Pages.Heap.DelLargeFromSmallFreeList | buffer/ccan/antithread/alloc/alloc.c:420-431 | the 32 pages leave the small free list; nothing else moves and pages in use are untouched |
| Pages.Heap.RecombineSmallPages | buffer/ccan/antithread/alloc/alloc.c:448-468 | exactly the groups of 32 free small pages past the first group become free large pages; every other page keeps its place and pages in use are untouched; the groups come in front of the large free list in ascending order |
| Pages.Heap.GetLargePage | buffer/ccan/antithread/alloc/alloc.c:471-482 | returns 0 exactly when no large page is free and no group can be recombined; otherwise the first free large page, or the first after recombining when there was none |
| Pages.Heap.BreakUpLargePage | buffer/ccan/antithread/alloc/alloc.c:486-501 | 31 of the small pages come in front of the small free list in ascending order and the first is returned; pages in use are untouched |
| Pages.Heap.GetSmallPage | buffer/ccan/antithread/alloc/alloc.c:504-515 | returns 0 exactly when no page at all is free; otherwise the first free small page, or the first part of a large page when there was none |
| PageSteps.MatchesKept | buffer/ccan/antithread/alloc/alloc.c:420-515 | moving free pages between sizes changes no outstanding element |
| PageElements.MatchesGain | buffer/ccan/antithread/alloc/alloc.c:750-765 | setting a bit adds exactly one outstanding pointer, one that was not outstanding |
| PageElements.MatchesLoss | buffer/ccan/antithread/alloc/alloc.c:811-813 | clearing a bit removes exactly one outstanding pointer |
| Pages.Heap.TakeElement | buffer/ccan/antithread/alloc/alloc.c:750-760 | sets the first free bit, counts it, and files the page as partial or full |
| Pages.Heap.ReleaseElement | buffer/ccan/antithread/alloc/alloc.c:799-822 | clears the bit, counts it, and files the page as partial or as free of its size |
| Pages.Heap.Get | buffer/ccan/antithread/alloc/alloc.c:705-766 | for requests below the huge sizes: NULL exactly when the bucket has no partial page and no page can be had for it, which for elements of at most an eighth of a small page means that no page at all is free; otherwise the first free element of the bucket's first partial page, or of the page that get_small_page or get_large_page gives: a new pointer whose element holds the request, aligned when the request has at least one byte; all lists afterwards are determined |
| Pages.Heap.Free | buffer/ccan/antithread/alloc/alloc.c:768-823 | page and element are recovered from the pointer, and exactly this pointer stops being outstanding; a full page comes in front of its partial list, and a page without elements in front of the free list of its size |
| Pages.Heap.Size | buffer/ccan/antithread/alloc/alloc.c:825-849 | the size of the bucket the pointer came from |
| Pages.Heap.ClientWrite | buffer/ccan/antithread/alloc/alloc.c:763-765 | clients may leave anything in the later small pages of a large page whose elements they own, where header slots would be; the invariant stays |
| PageLayout.OutApart | buffer/ccan/antithread/alloc/alloc.c:763-765 | distinct outstanding pointers own disjoint byte ranges |
| PageElements.OutInside | buffer/ccan/antithread/alloc/alloc.c:763-765 | an outstanding element lies inside the pool, past its header, and clear of its page's header and bitmap |
| PageExhaustion.ExhaustedExactly | buffer/ccan/antithread/alloc/alloc.c:729-741 | alloc_get fails exactly when every page of the bucket is full and, for elements of at most an eighth of a small page, every page holds an outstanding element; for larger ones every large page and every group of small ones |
| PageExhaustion.FreedPoolServes | buffer/ccan/antithread/alloc/alloc.c:448-515 | once everything has been freed, in any order, no request below the huge sizes fails and no bucket holds a page |
| PageCheck.CheckList | buffer/ccan/antithread/alloc/alloc.c:1009-1050 | one list walk: ends on arbitrary memory, and succeeds exactly when a well linked list of fresh pages that pass the tests starts at the head |
| PageCheck.CheckBucketPage | buffer/ccan/antithread/alloc/alloc.c:920-986 | the tests on one page of a partial or a full list |
| PageCheck.CheckAccounted | buffer/ccan/antithread/alloc/alloc.c:1103-1112 | the last loop succeeds exactly when every page is in the header, on a list, or inside a large page |
| PageCheck.AllocCheck | buffer/ccan/antithread/alloc/alloc.c:990-1115 | for arbitrary contents: returns true exactly when the lists and the headers are consistent |
| PageCheck.InvariantExactly | buffer/ccan/antithread/alloc/alloc.c:990-1115 | the allocator's invariant is what alloc_check accepts together with three things it does not look at |
| PageRuns.MisfiledPage | buffer/ccan/antithread/alloc/alloc.c:957-966 | a pool on which alloc_check returns true although a large page stands on the full list of a bucket for small pages |
| PageCheck.TailUnaccounted | buffer/ccan/antithread/alloc/alloc.c:1103-1112 | small pages behind the last whole large page are on no list, so the last loop rejects the pool |
| PagePool.CheckPool | buffer/ccan/antithread/alloc/alloc.c:990-1115 | alloc_check on a pool |
| PagePool.ReachableExactly | buffer/ccan/antithread/alloc/alloc.c:990-1115 | in every reachable state alloc_check returns true exactly when the pool's small pages make up whole large pages |

## Left out

- Mplite.Pool.FindBin: the bound is tested before the list head is read; the code reads one entry past the table first (mplite/mplite.c:372).
- Mplite.Pool.constructor: the control bytes are an array of their own, not the tail of the caller's buffer, and a pool cell is a record of two links and the remaining bytes, so reading a link out of four bytes is not modelled.
- Mplite.Pool.Realloc: pointers are byte offsets from the start of the pool; copying is by whole atoms, which the sizes allow.
- Tiny.TinyPool.Get: lengths and offsets are unbounded numbers; pools are below 2^20 bytes, so none of them wraps.
- Tiny.TinyPool.Free: the block that a pointer belongs to is also given as a ghost argument, which the code finds again by itself in ToHdr.
- Memmgr.Buffer.constructor: memory is counted in quanta of one header, and the base header is cell 0 in front of the pool.
- Memmgr.Buffer.Alloc: the wrap-around of the rounding sum for requests near the largest machine word is not modelled.
- Pages.Heap.Get: requests whose bucket is at or above max_bucket, which the code passes to huge_alloc, are excluded; so is the rest of the huge path (huge_alloc, huge_free, huge_size, the huge list in alloc_check).
- Pages.Heap.constructor: pool sizes for which the assert on page numbers fails, and sizes from 2^38 + 2^13 up, where a page can hold more elements than elements_used can count, are excluded.
- PagePool.ReachableExactly: pools with more than 8192 small pages, the tail included, are excluded; alloc_check would read behind its local bitmap.
- Pages.Heap.ClientWrite: of the bytes of a page only the words that can be read as a page header are kept; the bytes of the elements themselves are not part of the model, their addresses are.
- PageCheck.CheckList: the four list walks of the code are one method with the tests of each list in CheckPage.
- PageCheck.CheckBucketPage: a header whose bitmap record is too short for the bucket fails the check, where the code would read on in memory.
- BitOps.Apopcount: the versions for a 32-bit long and the compiler built-ins are left out; so they are for affsl.
- IlogForms.Index32: the two tables are functions by cases, and 32-bit products are written with a remainder.
- The choice between the tiny allocator and the page allocator by pool size at the top of each alloc function; each is modelled for its own pools.
- Locks, statistics printing, visualizing and the print functions of all allocators.
- shalloc and its interfaces, which pass calls through; the slab and nofree allocators, whose properties are easy.
- The bound on fragmentation quoted in the mplite header, a result about an ideal policy.
- Overflow in machine arithmetic for absurd sizes, except in ilog and bitops where the width is the point.
