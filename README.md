# Limit order book engine — a Dafny model

This project models the core of a C++ limit-order-book engine and the small
Python script that turns a `perf stat` CSV capture into a report. The engine
pieces modelled are:

- **The order book** (`OrderBook`). Orders queue in FIFO rings per price level;
  bid levels are kept in descending and ask levels in ascending price order;
  two direct-mapped tables (`order_id % 65536`, `abs(price) % 2048`) locate
  orders and levels; a cached best bid/offer (BBO) is refreshed after every
  change. Each side is a sequence of levels and each level a sequence of order
  slots (modules `BookState`, `BookLemmas`, `BookOps`, `BookTotals`, `BookBBO`,
  `BookEffects`, `BookQueries`); the class `OrderBooks.OrderBook` keeps those
  values in fields and its methods are proved equal to the specification
  functions. `BookNodes` models the `Order` and `PriceLevel` nodes themselves,
  with `updateQty`'s do-while walk over the order ring.
- **Three pool allocators**: the linear-scan `MemoryPool` of `order_book.hpp`
  (`LinearPool`), the free-list `MemoryPool` of `memory_pool.hpp`
  (`FreeListPool`) and the `TieredMemoryPool` with a hot tier and lazily
  activated cold tiers (`TieredPool`). Pointers are slot offsets, or
  (tier, slot) pairs.
- **`PriceLevelTree`**, a B+ tree keyed by price with a doubly linked leaf
  chain, bulk rebuild and automatic rebuild after many erases. The tree is a
  datatype of internal nodes and leaves (`TreeNodes`); insertion with leaf and
  internal splits (`TreeInsert`, `TreeMinKey`), erasure (`TreeErase`), the
  leaf-chain queries (`TreeChain`) and the bulk build (`TreeBuild`) are proved
  against the sorted sequence of entries, and the class
  `PriceLevelTree.PriceLevelTree` holds the root and counters.
- **Sliding-window trade statistics in three variants**: the one defined in
  `order_book.cpp` (`BookWindow`), the indexed-heap one of `sliding_window.cpp`
  (`HeapOps`, `HeapWindow`) and the ring with a cached min/max of
  `sliding_window_ring.*` (`RingWindow`). All share a 65536-entry ring with
  `head`/`count`, 64-bit running sums, a median and a VWAP-level query
  (`WindowCommon`).
- **The engine** (`Engine`): the 100-entry symbol → book table with its
  polynomial hash, preferred-entry-then-first-free assignment, the
  `processMessage` dispatch and the `run` loop over the reader's ticks.
- **The perf report helper** (`PerfReport`): CSV line filtering, the event map
  in which the last line wins, `get_value`, `ratio`, `mpki` and the four
  conclusion rules.

C++ fixed-width arithmetic is written out: `uint32_t` level totals and
`uint64_t` sums wrap modulo 2^32 and 2^64, `int32_t` results are truncated
explicitly, and C division truncates toward zero (`Common`). Python floats
are modelled as exact `real` numbers.

## Model

| member | source | states |
|---|---|---|
| LinearPool.LinearScanPool.constructor | impl/include/impl/order_book.hpp:105-107 | every slot starts free and the cursor starts at slot 0 |
| LinearPool.LinearScanPool.Allocate | impl/include/impl/order_book.hpp:111-127 | null exactly when every slot is used, and then nothing changes; otherwise the claimed slot is the first free one met scanning circularly from the cursor, only its flag is set, the cursor moves one past it and the used count grows by one |
| LinearPool.LinearScanPool.Deallocate | impl/include/impl/order_book.hpp:130-136 | the signed pointer offset, converted to an unsigned index, clears a flag only when it lies inside the storage; every other flag is unchanged and the used count drops by one when a used slot is released |
| LinearPool.LinearScanPool.Contains | impl/include/impl/order_book.hpp:139-141 | a pointer belongs to the pool exactly when its signed offset passes the unsigned-index test `index < N` that `deallocate` applies |
| LinearPool.CountUsedFull | impl/include/impl/order_book.hpp:111-127 | the used count equals the capacity exactly when every flag is set (the condition under which `allocate` returns null) |
| FreeListPool.FreeListPool.constructor | impl/include/impl/memory_pool.hpp:24-28 | the free stack is `0 .. N-1` in order with nothing outstanding |
| FreeListPool.FreeListPool.Allocate | impl/include/impl/memory_pool.hpp:31-47 | null exactly when the free count is 0; otherwise the top entry `free_[free_count_-1]` is handed out, the count drops by one, and the slot is inside the pool and outstanding afterwards |
| FreeListPool.FreeListPool.Deallocate | impl/include/impl/memory_pool.hpp:49-53 | the returned slot index is pushed and the count grows by one; the stack stays duplicate-free |
| FreeListPool.FreeListPool.Contains | impl/include/impl/memory_pool.hpp:55-57 | a pointer belongs to the pool exactly when it is one of the slots the constructor puts on the free stack |
| FreeListPool.FreeListPool.FreeCount | impl/include/impl/memory_pool.hpp:59 | the free count plus the outstanding slots is always the capacity |
| FreeListPool.FullStack | impl/include/impl/memory_pool.hpp:25-27 | the initial stack holds slot `i` at position `i` |
| FreeListPool.Pop | impl/include/impl/memory_pool.hpp:32-36 | empty stack yields null and is unchanged; otherwise the stack loses exactly its top, which is returned |
| FreeListPool.Push | impl/include/impl/memory_pool.hpp:52 | the slot goes on top and the rest is unchanged |
| FreeListPool.PopAfterPush | impl/include/impl/memory_pool.hpp:31-53 | the free list is LIFO: allocating right after freeing a slot returns that slot and the earlier stack |
| FreeListPool.Accounting | impl/include/impl/memory_pool.hpp:20-21 | free and outstanding slots partition the capacity |
| FreeListPool.PushOutstanding | impl/include/impl/memory_pool.hpp:49-53 | returning an outstanding slot keeps the stack duplicate-free and cannot overflow it |
| FreeListPool.PopOutstanding | impl/include/impl/memory_pool.hpp:24-47 | allocation keeps the stack duplicate-free and hands out a slot that is then outstanding; the initial stack is well formed with nothing outstanding |
| TieredPool.Activate | impl/include/impl/tiered_memory_pool.hpp:35-41 | `Tier::get` leaves an active tier as it is and gives an inactive one a freshly built pool; either way the tier ends up active |
| TieredPool.ScanCold | impl/include/impl/tiered_memory_pool.hpp:73-83 | the cold-tier scan keeps the tier count; a null result leaves the cursor alone; a hit comes from a tier at or after the start, which becomes the cursor |
| TieredPool.AllocOf | impl/include/impl/tiered_memory_pool.hpp:65-84 | a non-empty hot tier serves the request and nothing else changes; otherwise the hot tier is untouched, and the cursor never moves back |
| TieredPool.AllocFacts | impl/include/impl/tiered_memory_pool.hpp:65-84 | allocation keeps every tier's free stack well formed, never deactivates a tier, never moves the cursor back, never touches a cold tier below the cursor, and hands out a pointer the pool contains that is no longer free |
| TieredPool.AllocPacked | impl/include/impl/tiered_memory_pool.hpp:65-84 | from any state reached by allocations alone, `allocate` succeeds exactly while slots remain and each success uses up exactly one |
| TieredPool.AllocManyPacked | impl/include/impl/tiered_memory_pool.hpp:65-84 | a run of `m` allocations keeps that shape and uses up exactly `m` slots |
| TieredPool.ExactCapacity | impl/include/impl/tiered_memory_pool.hpp:57-84 | on a fresh pool with `k` cold tiers, the first `(1 + k) * N` allocations succeed and the next one returns null |
| TieredPool.DeallocOf | impl/include/impl/tiered_memory_pool.hpp:87-105 | null and foreign pointers leave the state unchanged |
| TieredPool.DeallocFacts | impl/include/impl/tiered_memory_pool.hpp:87-105 | returning a contained slot raises the free count by exactly one, activates nothing, and keeps the stacks well formed |
| TieredPool.AllocThenFree | impl/include/impl/tiered_memory_pool.hpp:65-105 | allocating and immediately returning the pointer restores the free count, up to `N` for each tier the allocation activated |
| TieredPool.FreeWithinCapacity | impl/include/impl/tiered_memory_pool.hpp:121-134 | `freeCount` never exceeds `capacity` |
| TieredPool.ScanTiers | impl/include/impl/tiered_memory_pool.hpp:73-83 | the cold-tier loop computes exactly the scan `ScanCold` specifies |
| TieredPool.TieredMemoryPool.constructor | impl/include/impl/tiered_memory_pool.hpp:57-60 | a full hot tier, every cold tier inactive, the cursor at 0 |
| TieredPool.TieredMemoryPool.Allocate | impl/include/impl/tiered_memory_pool.hpp:65-84 | the new state and result are those of `AllocOf`, and the pool stays valid |
| TieredPool.TieredMemoryPool.Deallocate | impl/include/impl/tiered_memory_pool.hpp:87-105 | the new state is that of `DeallocOf`: hot tier first, then the first active cold tier that contains the pointer |
| TieredPool.TieredMemoryPool.Contains | impl/include/impl/tiered_memory_pool.hpp:108-118 | true exactly when the hot tier or an active cold tier contains the pointer |
| TieredPool.TieredMemoryPool.FreeCount | impl/include/impl/tiered_memory_pool.hpp:121-129 | the hot tier's free slots plus those of every active cold tier, never more than the capacity |
| TieredPool.TieredMemoryPool.Capacity | impl/include/impl/tiered_memory_pool.hpp:132-134 | `(1 + number of cold tiers) * N` |
| TieredPool.TieredMemoryPool.ActiveTierCount | impl/include/impl/tiered_memory_pool.hpp:137-145 | one for the hot tier plus the active cold tiers, between 1 and `1 + number of cold tiers` |
| Common.CDiv | impl/src/order_book.cpp:697 | C++ signed division truncates toward zero: the remainder `a - q * b` lies in `[0, b)` for a non-negative dividend and in `(-b, 0]` for a negative one, so it takes the dividend's sign |
| Common.CDivHalfBetween | impl/src/order_book.cpp:690-697 | the truncating average `(a + b) / 2` of two values lies between them |
| WindowCommon.AmountExact | impl/src/order_book.cpp:595 | `static_cast<uint64_t>(price) * qty` is the exact product whenever the price is non-negative and the product fits in 64 bits |
| WindowCommon.Appended | impl/src/order_book.cpp:597-626 | recording into the ring grows the live sequence by one until it holds 65536 trades, and the new trade is always the newest |
| WindowCommon.LiveAfterRecord | impl/src/order_book.cpp:597-626 | writing slot `head`, advancing `head` modulo 65536 and saturating `count` at 65536 appends the trade to the live trades (dropping the oldest one when full) |
| WindowCommon.LiveAfterEvict | impl/src/order_book.cpp:633-635 | the slot `(head + (MAX_TRADES - count)) % MAX_TRADES` holds the oldest live trade, and decrementing `count` drops exactly that trade |
| WindowCommon.LiveDropPrefix | impl/src/sliding_window.cpp:296-298 | after `j` decrements the live trades are the old ones minus their first `j`, and the tail slot then holds live trade `j` |
| WindowCommon.SuffixKeeps | impl/src/order_book.cpp:629-672 | eviction keeps every live trade within its C++ field widths and keeps a min/max that bounded the window bounding it |
| WindowCommon.AppendedKeeps | impl/src/order_book.cpp:604-608 | recording keeps the live trades well typed, and `std::min`/`std::max` with the new price keep every live price within the bounds |
| WindowCommon.SumsAfterDrop | impl/src/order_book.cpp:646-647 | subtracting the evicted quantities and amounts (modulo 2^64) leaves sums that match the remaining trades |
| WindowCommon.SumsDropOne | impl/src/sliding_window.cpp:311-312 | one eviction step keeps the running sums equal to the old ones minus everything dropped so far |
| WindowCommon.SumsAfterAppend | impl/src/order_book.cpp:605-606 | adding the quantity and amount (modulo 2^64) keeps the sums matching the live trades |
| WindowCommon.ExpiredAtOrBefore | impl/src/order_book.cpp:633-639 | the eviction loop stops at the first live trade stamped after the cutoff, and every trade before it is stamped at or before the cutoff |
| WindowCommon.ExpiredOutside | impl/src/sliding_window.cpp:296-304 | the eviction loop stops at the first live trade inside `[cutoff, current)` and every trade before it lies outside that window |
| WindowCommon.SortInts | impl/src/order_book.cpp:684-696 | the order `std::nth_element` establishes is taken as a full sort: sorted and a permutation of the prices |
| WindowCommon.MedianOf | impl/src/order_book.cpp:674-675 | an empty window has median 0 |
| WindowCommon.MedianOdd | impl/src/order_book.cpp:698-701 | with an odd number of prices the median is the middle element of the sorted prices and is one of the prices |
| WindowCommon.MedianEven | impl/src/order_book.cpp:690-697 | with an even number of prices the median is the int32 sum of the two middle sorted prices divided by 2 with truncation, and lies between them when the sum does not overflow |
| WindowCommon.RingMedian | impl/src/order_book.cpp:674-702 | copying the live prices out of the ring in age order and selecting the middle computes `MedianOf` of the live prices |
| WindowCommon.MaxFrom | impl/src/sliding_window_ring.cpp:26-35 | the scan's maximum is at least the seed, bounds every element, and is the seed or one of the elements |
| WindowCommon.MinFrom | impl/src/sliding_window_ring.cpp:26-35 | the scan's minimum is at most the seed, bounds every element, and is the seed or one of the elements |
| WindowCommon.ScanFindsExtremes | impl/src/sliding_window_ring.cpp:20-38 | over int32 prices the scans seeded with INT32_MIN/INT32_MAX return the true maximum and minimum, and any true maximum or minimum equals them |
| WindowCommon.Vwap | impl/include/impl/sliding_window_ring.hpp:76-79 | 0 for an empty window or zero volume; otherwise the floor of amount over volume |
| WindowCommon.FirstBidAtOrBelow | impl/src/order_book.cpp:712-718 | finds the first bid level from `start` whose price is at or below the VWAP price, and none earlier qualifies |
| WindowCommon.FirstAskAtOrAbove | impl/src/order_book.cpp:720-727 | finds the first ask level from `start` whose price is at or above the VWAP price, and none earlier qualifies |
| WindowCommon.VwapLevelBidFirst | impl/src/order_book.cpp:704-730 | 0 without a VWAP or a book; a positive result names a bid level at or below the VWAP price |
| WindowCommon.VwapLevelAskFirst | impl/src/sliding_window_ring.cpp:151-187 | 0 without a VWAP or a book; a negative result `-i` names an ask level at or above the VWAP price, entered only when the VWAP price is at or above the best ask; a positive result names a bid level at or below the VWAP price, entered only when it is at or below the best bid |
| WindowCommon.AskFirstLevel | impl/src/sliding_window_ring.cpp:151-187 | the two loops compute exactly `VwapLevelAskFirst` |
| BookWindow.Evicted | impl/src/order_book.cpp:629-665 | eviction only ever shortens the window |
| BookWindow.SlidingWindowStats.constructor | impl/src/order_book.cpp:588-591 | an empty window with zero sums and min/max at INT32_MAX/INT32_MIN |
| BookWindow.SlidingWindowStats.RecordTrade | impl/src/order_book.cpp:593-627 | the live trades gain the new trade (its amount computed as uint64_t), `head` advances modulo 65536, the sums grow modulo 2^64, and min/max widen to the price |
| BookWindow.SlidingWindowStats.EvictExpired | impl/src/order_book.cpp:629-672 | drops exactly the oldest trades stamped at or before `now - 600` (uint64_t arithmetic), subtracts their quantities and amounts from the sums, and resets min/max when the window empties |
| BookWindow.SlidingWindowStats.DropAtOrBefore | impl/src/order_book.cpp:633-665 | the eviction loop drops the prefix `ExpiredAtOrBefore` names and keeps the sums equal to the old ones minus that prefix |
| BookWindow.SlidingWindowStats.GetMedianPrice | impl/src/order_book.cpp:674-702 | the median of the live prices |
| BookWindow.SlidingWindowStats.GetVWAP | impl/src/order_book.cpp:749-751 | 0 for an empty window or zero volume, otherwise the floor of amount over volume |
| BookWindow.SlidingWindowStats.GetVWAPLevel | impl/src/order_book.cpp:704-730 | the bid-first level search `VwapLevelBidFirst` on the VWAP |
| RingWindow.MinFromAppend | impl/src/sliding_window_ring.cpp:40-64 | the minimum of the window after an append is the old minimum widened by the new price |
| RingWindow.MaxFromAppend | impl/src/sliding_window_ring.cpp:40-64 | the maximum of the window after an append is the old maximum widened by the new price |
| RingWindow.ScanMinMax | impl/src/sliding_window_ring.cpp:26-35 | the rebuild loop over the ring computes the scanned minimum and maximum of the live prices |
| RingWindow.ScanBounds | impl/src/sliding_window_ring.cpp:20-38 | the rebuilt cache is int32 and bounds every live price |
| RingWindow.ScanIsExtremes | impl/src/sliding_window_ring.cpp:20-38 | over a non-empty window the rebuilt cache is the true minimum and maximum of the live prices |
| RingWindow.RangesAgree | impl/include/impl/sliding_window_ring.hpp:67-71 | two caches that both hold the exact extremes of the live prices report the same range |
| RingWindow.RecordKeeps | impl/src/sliding_window_ring.cpp:40-64 | recording keeps the trades well typed and a valid cache bounding them; into a ring that is not full it also keeps exact sums and an exact cache exact |
| RingWindow.CacheAfterAppend | impl/src/sliding_window_ring.cpp:53-57 | widening a valid exact cache by the new price gives the exact cache of the appended window |
| RingWindow.RingWindowStats.constructor | impl/src/sliding_window_ring.cpp:13-18 | an empty window, zero sums, a valid cache holding INT32_MAX/INT32_MIN |
| RingWindow.RingWindowStats.RebuildCacheIfNeeded | impl/src/sliding_window_ring.cpp:20-38 | a valid cache is left alone; an invalid one is rebuilt to the exact extremes; either way the cache ends valid |
| RingWindow.RingWindowStats.RecordTrade | impl/src/sliding_window_ring.cpp:40-64 | the live trades gain the new trade in slot `head`, `head` advances, the sums grow modulo 2^64, and the cache widens to the price |
| RingWindow.RingWindowStats.EvictExpired | impl/src/sliding_window_ring.cpp:66-119 | a time that does not convert leaves everything unchanged; otherwise exactly the oldest trades outside `[now - 600, now)` go, their volume and amount leave the sums, and the cache is settled by the one-quarter rule |
| RingWindow.RingWindowStats.Evict | impl/src/sliding_window_ring.cpp:94-118 | eviction after conversion yields `EvictedFrom` of the old state and keeps exact sums exact and the cache exact |
| RingWindow.RingWindowStats.DropExpired | impl/src/sliding_window_ring.cpp:94-109 | the loop drops exactly the prefix `ExpiredOutside` names and subtracts its sums, returning the count before eviction |
| RingWindow.RingWindowStats.SettleCache | impl/src/sliding_window_ring.cpp:111-118 | the cache becomes valid and exact when more than a quarter of the old count was evicted, otherwise it is marked stale with the old bounds kept |
| RingWindow.RingWindowStats.DropOutside | impl/src/sliding_window_ring.cpp:96-109 | the eviction loop removes the prefix of trades outside the window and keeps the sums equal to the old ones minus that prefix |
| RingWindow.RingWindowStats.GetPriceRange | impl/include/impl/sliding_window_ring.hpp:67-71 | 0 for an empty window; otherwise the cache is rebuilt if needed and the int32 difference of its bounds is returned, which are then the exact minimum and maximum of the live prices |
| RingWindow.RingWindowStats.GetTotalVolume | impl/include/impl/sliding_window_ring.hpp:73 | the running volume, equal to the live quantities' sum modulo 2^64 |
| RingWindow.RingWindowStats.GetTotalAmount | impl/include/impl/sliding_window_ring.hpp:74 | the running amount, equal to the live amounts' sum modulo 2^64 |
| RingWindow.RingWindowStats.GetVWAP | impl/include/impl/sliding_window_ring.hpp:76-79 | 0 for an empty window or zero volume, otherwise the floor of amount over volume |
| RingWindow.RingWindowStats.GetCount | impl/include/impl/sliding_window_ring.hpp:88 | the number of live trades, at most 65536 |
| RingWindow.RingWindowStats.IsCacheValid | impl/include/impl/sliding_window_ring.hpp:89 | a valid cache bounds every live price |
| RingWindow.RingWindowStats.GetMedianPrice | impl/src/sliding_window_ring.cpp:121-149 | the median of the live prices |
| RingWindow.RingWindowStats.GetVWAPLevel | impl/src/sliding_window_ring.cpp:151-187 | the ask-first level search `VwapLevelAskFirst` on the VWAP |
| HeapOps.Swap | impl/src/sliding_window.cpp:57 | `std::swap` of two heap entries exchanges them and leaves the others |
| HeapOps.SwapContents | impl/src/sliding_window.cpp:57 | a swap keeps the heap's multiset of trade slots |
| HeapOps.Larger | impl/src/sliding_window.cpp:109-120 | the chosen child is the entry or one of its children and is above all of them in heap order |
| HeapOps.Refilled | impl/src/sliding_window.cpp:100-104 | moving the last entry into the vacated position shortens the heap by one and changes only that position |
| HeapOps.SiftUpContents | impl/src/sliding_window.cpp:50-61 | the bubble-up keeps the multiset of slots |
| HeapOps.SiftDownContents | impl/src/sliding_window.cpp:106-130 | the sift-down keeps the multiset of slots |
| HeapOps.PushedContents | impl/src/sliding_window.cpp:43-62 | a push adds exactly the new slot |
| HeapOps.RefilledContents | impl/src/sliding_window.cpp:100-104 | the refill removes exactly the vacated slot |
| HeapOps.RemovedContents | impl/src/sliding_window.cpp:85-131 | removal takes out exactly the slot at the given position |
| HeapOps.RemovedAsWrittenContents | impl/src/sliding_window.cpp:85-131 | removal as written also takes out exactly that slot |
| HeapOps.SiftUpOrders | impl/src/sliding_window.cpp:50-61 | bubbling up from an entry that is out of order only with its parent (whose parent bounds its children) restores heap order |
| HeapOps.SiftDownOrders | impl/src/sliding_window.cpp:106-130 | sifting down from an entry that is out of order only with its children (whose parent bounds them) restores heap order |
| HeapOps.PushedOrdered | impl/src/sliding_window.cpp:43-83 | pushing onto an ordered heap keeps it ordered (max-heap by `>=`, min-heap by `<=`) |
| HeapOps.RemovedOrdered | impl/src/sliding_window.cpp:85-179 | removing any position from an ordered heap, sifting the refill up or down as it needs, keeps it ordered |
| HeapOps.TopAbove | impl/src/sliding_window.cpp:209-219 | the top of an ordered heap is above every entry, so it holds the extreme price |
| HeapOps.OrderedFrame | impl/src/sliding_window.cpp:252-255 | heap order depends only on the prices of slots in the heap |
| HeapOps.InHeapIff | impl/src/sliding_window.cpp:86-89 | a slot's position entry is not SIZE_MAX exactly when the slot is in the heap |
| HeapOps.PosAfterSwap | impl/src/sliding_window.cpp:57-59 | the two position writes after a swap keep the position index exact |
| HeapOps.PosAfterAppend | impl/src/sliding_window.cpp:45-48 | writing the new slot's position keeps the index exact |
| HeapOps.PosAfterRefill | impl/src/sliding_window.cpp:92-104 | clearing the removed slot and repointing the moved one keeps the index exact |
| HeapOps.PosAfterDropLast | impl/src/sliding_window.cpp:92-97 | removing the last entry and clearing its position keeps the index exact |
| HeapOps.IndexedHeap.constructor | impl/src/sliding_window.cpp:231-232 | an empty heap whose position entries are all SIZE_MAX |
| HeapOps.IndexedHeap.SwapAt | impl/src/sliding_window.cpp:57-59 | the heap becomes `Swap` of the old one with the index kept exact |
| HeapOps.IndexedHeap.SiftUpFrom | impl/src/sliding_window.cpp:50-61 | the loop computes `SiftUp` of the old heap |
| HeapOps.IndexedHeap.SiftDownFrom | impl/src/sliding_window.cpp:106-130 | the loop computes `SiftDown` of the old heap |
| HeapOps.IndexedHeap.Push | impl/src/sliding_window.cpp:43-83 | the heap becomes `Pushed` of the old one |
| HeapOps.IndexedHeap.Unplace | impl/src/sliding_window.cpp:86-104 | an absent slot changes nothing; the last entry is just dropped; otherwise the last entry refills the vacated position; the slot's position becomes SIZE_MAX |
| HeapOps.IndexedHeap.RemoveAsWritten | impl/src/sliding_window.cpp:85-131 | the code's removal: an absent slot changes nothing, otherwise the heap becomes `RemovedAsWritten` (refill then sift down only) |
| HeapOps.IndexedHeap.Remove | impl/src/sliding_window.cpp:85-179 | the corrected removal: an absent slot changes nothing, otherwise the heap becomes `Removed`, which stays ordered |
| HeapOps.SevenPushed | impl/src/sliding_window.cpp:43-62 | pushing slots 0..6 with prices 1,3,3,2,1,1,3 builds the max-heap `[1, 3, 2, 0, 4, 5, 6]` |
| HeapOps.WrittenRemovalLosesMax | impl/src/sliding_window.cpp:85-131 | evicting slots 0, 1, 2 from that heap with sift-down-only removal leaves slot 3 (price 2) on top while slot 6 (price 3) is live: the heap is no longer ordered |
| HeapWindow.Offset | impl/src/sliding_window.cpp:297 | every slot has a unique age offset from `head` modulo 65536 |
| HeapWindow.LiveAtPos | impl/src/sliding_window.cpp:297 | the tail slot of a window of `count` trades plus `i` is live and sits `MAX_TRADES - count + i` after `head` |
| HeapWindow.LiveAfterRecordSlot | impl/src/sliding_window.cpp:244-282 | after recording, the live slots are the old ones plus the old `head` |
| HeapWindow.LiveAfterDropSlot | impl/src/sliding_window.cpp:297-332 | after one eviction the live slots are the old ones minus the tail slot |
| HeapWindow.FlagsAfterRecord | impl/src/sliding_window.cpp:258 | setting `valid_[head]` keeps `valid_` equal to liveness |
| HeapWindow.FlagsAfterDrop | impl/src/sliding_window.cpp:315-318 | clearing `valid_` of the tail slot keeps `valid_` equal to liveness |
| HeapWindow.HoldsAfterRemove | impl/src/sliding_window.cpp:315-318 | a heap that held exactly the valid slots, minus one slot, holds exactly the valid slots once that slot's flag is cleared |
| HeapWindow.HoldsAfterPush | impl/src/sliding_window.cpp:258-260 | pushing a slot whose flag is then set keeps the heap holding exactly the valid slots |
| HeapWindow.TopExtreme | impl/src/sliding_window.cpp:189-220 | when the heaps hold exactly the live slots, a heap is empty exactly when the window is, its top is valid at position 0, and its price is the live maximum (max-heap) or minimum (min-heap) |
| HeapWindow.HeadLiveWhenFull | impl/src/sliding_window.cpp:247-250 | the slot about to be overwritten is still live exactly when the ring is full |
| HeapWindow.HeapWindowStats.constructor | impl/src/sliding_window.cpp:226-234 | empty window and heaps, zero sums, min/max at INT32_MAX/INT32_MIN |
| HeapWindow.HeapWindowStats.TopsClean | impl/src/sliding_window.cpp:191-206 | with the corrected heap removal of the Findings table, the top-cleaning loops never fire: each heap top is valid at position 0 and holds the live maximum or minimum |
| HeapWindow.HeapWindowStats.RecordTrade | impl/src/sliding_window.cpp:236-283 | the live trades gain the trade stamped `timestampNs / 10^9` seconds, the overwritten slot leaves both heaps (by the corrected removal) and the new one enters them, `head` advances and the sums grow modulo 2^64 |
| HeapWindow.HeapWindowStats.EvictExpired | impl/src/sliding_window.cpp:285-336 | exactly the oldest trades outside `[currentSeconds - 600, currentSeconds)` go, leaving both heaps by the corrected removal, and their volume and amount leave the sums |
| HeapWindow.HeapWindowStats.UpdateMinMaxFromHeaps | impl/src/sliding_window.cpp:189-220 | min/max become the heap tops' prices, or INT32_MAX/INT32_MIN when empty; with the corrected heap removal they are the exact extremes of the live prices |
| HeapWindow.HeapWindowStats.GetMedianPrice | impl/src/sliding_window.cpp:338-366 | the median of the live prices |
| HeapWindow.HeapWindowStats.GetVWAP | impl/src/sliding_window.cpp:369 | 0 for an empty window or zero volume, otherwise the floor of amount over volume |
| HeapWindow.HeapWindowStats.GetVWAPLevel | impl/src/sliding_window.cpp:368-407 | the ask-first level search `VwapLevelAskFirst` on the VWAP |
| BookState.IndexOf | impl/src/order_book.cpp:81-98 | finds the first level of a side with the price, and none exactly when the side has no level at that price |
| BookState.Locate | impl/src/order_book.cpp:39-48 | names a side and position holding a level at the price, and none exactly when neither side has one |
| BookState.UpdateBBOSide | impl/src/order_book.cpp:151-171 | each flagged side's cached best price and total become that side's head level (zeros when empty); unflagged sides and everything else stay |
| BookState.AfterHead | impl/src/order_book.cpp:67-98 | the insertion walk passes exactly the levels strictly better than the new price and stops at the first that is not |
| BookState.InsertAt | impl/src/order_book.cpp:101-105 | linking a level after `current` inserts it at that position and shifts the rest |
| BookState.RemoveAt | impl/src/order_book.cpp:117-126 | unlinking a level removes exactly that position |
| BookState.SlotIndex | impl/src/order_book.cpp:339-351 | finds the order's position in its level's FIFO, none exactly when it is not queued there |
| BookState.Spread | impl/src/order_book.cpp:472-477 | ask minus bid when both cached prices are positive, otherwise 0 |
| BookLemmas.FoundIsLevel | impl/src/order_book.cpp:39-48 | on a valid book the hash lookup `findPriceLevel` succeeds exactly when some level has the price |
| BookLemmas.OrderQueued | impl/src/order_book.cpp:317-352 | on a valid book a live order is queued exactly once, at the level of its own price |
| BookLemmas.OrderedInsert | impl/src/order_book.cpp:51-106 | inserting at the insertion point keeps bids strictly descending and asks strictly ascending |
| BookLemmas.OrderedRemove | impl/src/order_book.cpp:109-129 | removing a level keeps the side sorted |
| BookOps.EmptyValid | impl/src/order_book.cpp:9-19 | a new book satisfies the book invariant, has exact level totals and a current BBO |
| BookOps.SideInsert | impl/src/order_book.cpp:51-106 | adding a level keeps the side valid, adds its price to the side's prices and its queue to the side's orders |
| BookOps.SideReplace | impl/src/order_book.cpp:258-267 | rewriting one level keeps the side valid and its prices, and swaps that level's queue in the side's orders |
| BookOps.SideRemove | impl/src/order_book.cpp:109-129 | removing a level keeps the side valid and takes away exactly its price and its queue |
| BookOps.IndexInsert | impl/src/order_book.cpp:55-57 | writing the new level into its hash slot keeps the table exact for the prices plus the new one |
| BookOps.IndexRemove | impl/src/order_book.cpp:113-115 | clearing the level's hash slot keeps the table exact for the prices minus that one |
| BookOps.AddOrderValid | impl/src/order_book.cpp:223-270 | `addOrder` keeps the book invariant when the id, price and quantity have their C++ widths and no other price holds the price's hash slot |
| BookOps.DeleteOrderValid | impl/src/order_book.cpp:317-359 | `deleteOrder` keeps the book invariant |
| BookOps.DeleteShrinksIndex | impl/src/order_book.cpp:109-115 | deleting never puts another price into a free hash slot |
| BookOps.ModifyOrderValid | impl/src/order_book.cpp:273-314 | `modifyOrder` keeps the book invariant under the same width and hash-slot conditions as `addOrder` |
| BookOps.ModifyInPlaceShape | impl/src/order_book.cpp:296-311 | a same-price modify overwrites the order's `qty` and moves the level total by the int32_t difference |
| BookOps.ProcessTradeValid | impl/src/order_book.cpp:362-397 | the book part of `processTrade` keeps the book invariant |
| BookTotals.AddOrderTotals | impl/src/order_book.cpp:223-270 | after `addOrder` every level total is still the uint32_t sum of its orders' quantities |
| BookTotals.DeleteOrderTotals | impl/src/order_book.cpp:317-359 | after `deleteOrder` every level total is still the uint32_t sum of its orders' quantities |
| BookTotals.ModifyOrderTotals | impl/src/order_book.cpp:273-314 | after `modifyOrder` every level total is still the uint32_t sum of its orders' quantities |
| BookTotals.ProcessTradeTotals | impl/src/order_book.cpp:362-397 | after a fill every level total is still the uint32_t sum of its orders' quantities |
| BookBBO.AddOrderBBO | impl/src/order_book.cpp:238-269 | the cached BBO stays equal to the two heads after `addOrder`, when the level at the price (if any) is on the caller's side |
| BookBBO.DeleteOrderBBO | impl/src/order_book.cpp:325-358 | the cached BBO stays equal to the heads after `deleteOrder`, when the order's level is on the caller's side |
| BookBBO.ModifyOrderBBO | impl/src/order_book.cpp:281-313 | the cached BBO stays equal to the heads after `modifyOrder`, when the old and new levels are on the caller's side |
| BookBBO.ProcessTradeBBO | impl/src/order_book.cpp:375-396 | the cached BBO stays equal to the heads after a fill, when the order's and the trade price's levels are on the caller's side |
| BookEffects.LevelAt | impl/src/order_book.cpp:39-48 | the level with this price on either side, none exactly when there is none |
| BookEffects.AddOrderEffect | impl/src/order_book.cpp:223-270 | an occupied slot, or a price with no level while the 2048-level pool is full, leaves the book unchanged; otherwise the order is stored, every other price's level is unchanged, and the price's level is a new one-order level or the old one with the order appended and its total raised |
| BookEffects.DeleteOrderEffect | impl/src/order_book.cpp:317-359 | an unknown id leaves the book unchanged; otherwise the order leaves the map, every other price's level is unchanged, and its level loses exactly that order and its quantity, or disappears if it held only that order |
| BookEffects.ModifyInPlaceEffect | impl/src/order_book.cpp:296-311 | a same-price modify changes only that order's quantity and that level's total, to `total - old qty + new qty` modulo 2^32 |
| BookEffects.ModifyMovesEffect | impl/src/order_book.cpp:285-295 | a price change removes the order from the old level and appends it to the new one, replacing it in the order table; when the new price needs a level and the level pool is full once the order has left, the order is gone and the new price still has no level; every other level is unchanged |
| BookEffects.FullFillEffect | impl/src/order_book.cpp:385-386 | a trade of at least the order's quantity deletes the order as `deleteOrder` does |
| BookEffects.PartialFillEffect | impl/src/order_book.cpp:387-394 | a smaller trade lowers the order's quantity and takes the traded quantity off the level at the trade price, if one exists; nothing else changes |
| BookEffects.ProcessTradeUnknown | impl/src/order_book.cpp:364-369 | a trade on an unknown id leaves the book unchanged |
| BookQueries.Position | impl/src/order_book.cpp:550-556 | a known order's level and place in that level's FIFO |
| BookQueries.PositionOfFound | impl/src/order_book.cpp:550-556 | every known order has a position, and it occurs once in its level's queue |
| BookQueries.WalkedAll | impl/src/order_book.cpp:577-582 | walking `prev` from the order all the way round sums every other order of the level |
| BookQueries.RankAsWritten | impl/src/order_book.cpp:558-565 | the code's rank never falls below the intended one and equals it exactly for the order at the back of its queue |
| BookQueries.QtyAheadAsWritten | impl/src/order_book.cpp:577-584 | the code's quantity ahead adds the orders behind this one as well as those in front |
| BookQueries.RankKeptByAdd | impl/src/order_book.cpp:223-270 | adding an order never changes the intended rank or quantity ahead of an order already queued |
| BookQueries.TwoOrdersReached | impl/src/order_book.cpp:223-270 | adding buy orders 1 (qty 5) and 2 (qty 7) at 100 to an empty book gives a valid book with both at one level |
| BookQueries.WrittenRankWrong | impl/src/order_book.cpp:550-585 | in that book order 1, at the front of the queue, is ranked 2 with 7 ahead by the code, where the intended answer is rank 1 with 0 ahead |
| BookNodes.OrderNode.constructor | impl/include/impl/order_book.hpp:48-49 | an order node holds its fields and links to itself |
| BookNodes.SingleRing | impl/include/impl/order_book.hpp:48-49 | a new order node is a one-element ring whose quantity is its own |
| BookNodes.LevelNode.constructor | impl/include/impl/order_book.hpp:70-75 | a level node's total and count are the uint32_t sum and the length of the order ring it is given (zero for none), and it links to itself |
| BookNodes.LevelNode.UpdateQty | impl/include/impl/order_book.hpp:82-93 | the do-while walk sets the total to the ring's quantity sum modulo 2^32 and the count to the ring's length, or both to 0 without a first order |
| OrderBooks.WalkLevels | impl/src/order_book.cpp:424-431 | `k` steps from the head reach level `k`, or stop (price 0) once the walk is back at the head |
| OrderBooks.LinkPoint | impl/src/order_book.cpp:67-99 | the pointer walk of `addPriceLevel` finds the insertion point of the price |
| OrderBooks.WalkAround | impl/src/order_book.cpp:577-582 | the `prev` walk sums, modulo 2^32, the quantities of every other order of the level |
| OrderBooks.WalkToHead | impl/src/order_book.cpp:569-585 | the corrected walk sums, modulo 2^32, the quantities of the orders in front |
| OrderBooks.OrderBook.constructor | impl/include/impl/order_book.hpp:190-198 | an empty, valid book with a current BBO and an empty trade window |
| OrderBooks.OrderBook.UpdateBBOSide | impl/src/order_book.cpp:151-171 | the new state is `BookState.UpdateBBOSide` of the old |
| OrderBooks.OrderBook.UpdateBBO | impl/src/order_book.cpp:132-148 | both sides refreshed, after which the BBO is current |
| OrderBooks.OrderBook.AddPriceLevel | impl/src/order_book.cpp:51-106 | the new state is `BookState.AddPriceLevel` of the old |
| OrderBooks.OrderBook.RemovePriceLevel | impl/src/order_book.cpp:109-129 | the new state is `BookState.RemovePriceLevel` of the old |
| OrderBooks.OrderBook.AddOrder | impl/src/order_book.cpp:223-270 | the new state is `BookState.AddOrder` of the old, and the invariant is kept under the C++ widths and a free hash slot |
| OrderBooks.OrderBook.PlaceOrder | impl/src/order_book.cpp:232-270 | for an id whose slot is free, the new state is `BookState.AddOrder` of the old: the order is stored and then given back when a new level is needed and the level pool is full |
| OrderBooks.OrderBook.DeleteOrder | impl/src/order_book.cpp:317-359 | the new state is `BookState.DeleteOrder` of the old, and the invariant is kept |
| OrderBooks.OrderBook.ModifyOrder | impl/src/order_book.cpp:273-314 | the new state is `BookState.ModifyOrder` of the old, and the invariant is kept under the C++ widths and a free hash slot |
| OrderBooks.OrderBook.ProcessTrade | impl/src/order_book.cpp:362-397 | the book becomes `BookState.ProcessTrade` of the old and keeps its invariant; an unknown id leaves the window alone, otherwise the window records the trade and evicts what is then expired |
| OrderBooks.OrderBook.Clear | impl/src/order_book.cpp:174-220 | the book is empty and valid with a current BBO, and the window is a fresh empty one |
| OrderBooks.OrderBook.GetLevels | impl/src/order_book.cpp:400-421 | the number of levels on the side |
| OrderBooks.OrderBook.GetPrice | impl/src/order_book.cpp:424-451 | the `k`-th best level's price, 0 past the last level |
| OrderBooks.OrderBook.GetQty | impl/src/order_book.cpp:434-461 | the `k`-th best level's total, 0 past the last level |
| OrderBooks.OrderBook.GetOrderRankAsWritten | impl/src/order_book.cpp:550-566 | the code's loop computes `WrittenRank` |
| OrderBooks.OrderBook.GetQtyAheadAsWritten | impl/src/order_book.cpp:569-585 | the code's loop computes `WrittenQtyAhead` |
| OrderBooks.OrderBook.GetOrderRank | impl/src/order_book.cpp:550-566 | the corrected loop computes the 1-based FIFO rank `Rank` |
| OrderBooks.OrderBook.GetQtyAhead | impl/src/order_book.cpp:569-585 | the corrected loop computes the quantity in front `QtyAhead` |
| TreeNodes.ChainIsEntries | impl/include/impl/price_level_tree.hpp:231-245 | the leaf chain, read leaf by leaf, lists exactly the tree's entries in order |
| TreeNodes.EntriesWF | impl/include/impl/price_level_tree.hpp:225-256 | a well-formed subtree lists strictly increasing prices, all inside the bounds its parent's keys give it |
| TreeNodes.UpperBound | impl/include/impl/price_level_tree.hpp:309-312 | `std::upper_bound` over the keys: every key before the result is at most the price and the key at it is above |
| TreeNodes.LowerBound | impl/include/impl/price_level_tree.hpp:314-317 | `std::lower_bound` over a leaf: every price before the result is below and the one at it is at least the price |
| TreeNodes.RouteAround | impl/include/impl/price_level_tree.hpp:299-307 | the leaf `findLeaf` reaches splits the entries into those before it, its own and those after it |
| TreeNodes.RouteSeparates | impl/include/impl/price_level_tree.hpp:299-307 | every entry before the routed leaf is below the price and every entry after it is above |
| TreeNodes.RouteFinds | impl/include/impl/price_level_tree.hpp:70-83 | the price is in the tree exactly when it is in the routed leaf at its lower bound, and what is found there is an entry of the tree |
| TreeBuild.FirstKey | impl/include/impl/price_level_tree.hpp:478-485 | descending the leftmost children reaches the smallest price of the subtree |
| TreeBuild.BuildLeaves | impl/include/impl/price_level_tree.hpp:487-520 | the leaf loop cuts the sorted entries into consecutive chunks of at most `kLeafMax`, one leaf per chunk, each well formed and ordered after the last |
| TreeBuild.BuildLevel | impl/include/impl/price_level_tree.hpp:521-552 | each pass groups up to `kInternalMax + 1` children under a node keyed by the first price of each later child, keeping the entries and the leaves |
| TreeBuild.BuildFromSorted | impl/include/impl/price_level_tree.hpp:487-553 | the bulk build yields a well-formed tree whose entries are the input and whose leaves are its chunks of `kLeafMax` |
| TreeChain.NextNonEmpty | impl/include/impl/price_level_tree.hpp:462-468 | the `next` walk skips exactly the empty leaves and stops at the next non-empty one or the end |
| TreeChain.PrevNonEmpty | impl/include/impl/price_level_tree.hpp:470-476 | the `prev` walk skips exactly the empty leaves and stops at the previous non-empty one or the start |
| TreeChain.FirstOfChain | impl/include/impl/price_level_tree.hpp:148-154 | the first entry of the first non-empty leaf is the smallest entry, none for an empty chain |
| TreeChain.LastOfChain | impl/include/impl/price_level_tree.hpp:156-162 | the last entry of the last non-empty leaf is the largest entry, none for an empty chain |
| TreeChain.NthOfChain | impl/include/impl/price_level_tree.hpp:164-176 | walking the chain from the left finds the `n`-th entry, none past the end |
| TreeChain.NthFromEndOfChain | impl/include/impl/price_level_tree.hpp:178-191 | walking from the right finds the `n`-th entry from the end, none past the start |
| TreeChain.PrefixOfChain | impl/include/impl/price_level_tree.hpp:194-204 | the callback sees the first `k` entries in increasing order, or all if fewer |
| TreeChain.SuffixOfChain | impl/include/impl/price_level_tree.hpp:207-217 | the callback sees the last `k` entries in decreasing order, or all if fewer |
| TreeChain.CollectChain | impl/include/impl/price_level_tree.hpp:46-68 | the rebuild's collection loop gathers every entry in increasing order |
| TreeErase.RemoveFromLeaf | impl/include/impl/price_level_tree.hpp:331-339 | shifting the leaf's tail left removes exactly the entry at the position |
| TreeErase.RemoveKeyFacts | impl/include/impl/price_level_tree.hpp:130-146 | removing a price keeps the entries increasing and in bounds, shortens them by one exactly when the price was present, and leaves every other price |
| TreeErase.EraseRecSpec | impl/include/impl/price_level_tree.hpp:130-146 | erasing inside a subtree removes the price from the routed leaf only, keeps the subtree well formed and keeps every leaf (no merging) |
| TreeErase.EraseTop | impl/include/impl/price_level_tree.hpp:130-146 | erasing from the root removes exactly that price from the tree's entries and keeps the leaf count |
| TreeInsert.InsertSortedFacts | impl/include/impl/price_level_tree.hpp:319-329 | inserting a new price at its lower bound keeps the leaf increasing and in bounds and grows it by one |
| TreeInsert.InsertSortedKeys | impl/include/impl/price_level_tree.hpp:319-329 | after insertion the prices are the old ones plus the new one, and the new entry is present |
| TreeInsert.SplitLeaf | impl/include/impl/price_level_tree.hpp:341-370 | an overfull leaf splits into a left half of `count / 2` entries and a right half, with the right half's first price as separator |
| TreeInsert.SplitInternal | impl/include/impl/price_level_tree.hpp:409-432 | an overfull node splits around its middle key, which moves up, with children divided to match |
| TreeInsert.InsertRecSpec | impl/include/impl/price_level_tree.hpp:85-128 | inserting inside a subtree puts the entry in the routed leaf in order, keeps every node well formed after splits, and adds a leaf exactly when that leaf was full |
| TreeInsert.GrowSpec | impl/include/impl/price_level_tree.hpp:372-407 | a split root gets a new root over the two halves; the tree stays well formed with the same entries and leaves |
| TreeInsert.InsertTop | impl/include/impl/price_level_tree.hpp:85-128 | inserting from the root puts the entry into the sorted entries and adds a leaf exactly when the routed leaf was full |
| TreeInsert.InsertRoute | impl/include/impl/price_level_tree.hpp:113-125 | after insertion the price routes to the leaf that now holds it, where `updateMinKeyAfterInsert` starts |
| TreeMinKey.SetMinSpec | impl/include/impl/price_level_tree.hpp:442-452 | setting the one separator to the left of the lowest non-first child on the route to a leaf whose first price is new (a key the route already had at or below that price, so it rises or stays) keeps the tree well formed with the same entries and leaves |
| TreeMinKey.InsertedPosSpec | impl/include/impl/price_level_tree.hpp:113-121 | the recomputed position is where the new entry sits in its target leaf after any split |
| PriceLevelTree.FindLeaf | impl/include/impl/price_level_tree.hpp:299-307 | the descent loop reaches the leaf the price routes to |
| PriceLevelTree.InsertInto | impl/include/impl/price_level_tree.hpp:85-128 | insertion succeeds exactly when the price is absent, and then adds the entry in order and one to the size, and one leaf for an empty tree or a full routed leaf; otherwise nothing changes |
| PriceLevelTree.EraseFrom | impl/include/impl/price_level_tree.hpp:130-146 | erasure succeeds exactly when the price is present, and the entries lose exactly that price and the size one; otherwise nothing changes |
| PriceLevelTree.PriceLevelTree.constructor | impl/include/impl/price_level_tree.hpp:566-572 | an empty tree with zero counters and automatic rebuild on |
| PriceLevelTree.PriceLevelTree.Clear | impl/include/impl/price_level_tree.hpp:31-40 | the tree is empty with zero counters and the rebuild setting kept |
| PriceLevelTree.PriceLevelTree.Size | impl/include/impl/price_level_tree.hpp:42 | the number of entries |
| PriceLevelTree.PriceLevelTree.SetAutoRebuild | impl/include/impl/price_level_tree.hpp:44 | only the rebuild flag changes |
| PriceLevelTree.PriceLevelTree.Find | impl/include/impl/price_level_tree.hpp:70-83 | true exactly when the price is present, and then the level returned is the one stored with it |
| PriceLevelTree.PriceLevelTree.Insert | impl/include/impl/price_level_tree.hpp:85-128 | true exactly when the price was absent; then the entry is added in order, the size and the insert counter grow by one |
| PriceLevelTree.PriceLevelTree.Erase | impl/include/impl/price_level_tree.hpp:130-146 | true exactly when the price was present; the entries lose exactly that price, the size drops by one, and when the rebuild rule fires the leaves are the fresh chunks and the counters are reset |
| PriceLevelTree.PriceLevelTree.Rebuild | impl/include/impl/price_level_tree.hpp:46-68 | the entries are kept, the leaves become consecutive chunks of `kLeafMax`, and both counters reset |
| PriceLevelTree.PriceLevelTree.MaybeRebuild | impl/include/impl/price_level_tree.hpp:555-564 | with auto-rebuild on, at least 8 leaves, `size * 3 < capacity` and more erases than half the capacity the tree is rebuilt; otherwise nothing changes |
| PriceLevelTree.PriceLevelTree.Min | impl/include/impl/price_level_tree.hpp:148-154 | none exactly for an empty tree; otherwise an entry whose price is at most every other |
| PriceLevelTree.PriceLevelTree.Max | impl/include/impl/price_level_tree.hpp:156-162 | none exactly for an empty tree; otherwise an entry whose price is at least every other |
| PriceLevelTree.PriceLevelTree.NthFromMin | impl/include/impl/price_level_tree.hpp:164-176 | the `n`-th smallest entry, none past the end |
| PriceLevelTree.PriceLevelTree.NthFromMax | impl/include/impl/price_level_tree.hpp:178-191 | the `n`-th largest entry, none past the end |
| PriceLevelTree.PriceLevelTree.ForEachFromMin | impl/include/impl/price_level_tree.hpp:194-204 | visits the `k` smallest entries in increasing order |
| PriceLevelTree.PriceLevelTree.ForEachFromMax | impl/include/impl/price_level_tree.hpp:207-217 | visits the `k` largest entries in decreasing order |
| Engine.StrnLen | impl/include/impl/impl.hpp:59 | the length is at most the bound and the string, every character before it is non-NUL, and the character at it is NUL when the bound was not reached |
| Engine.StrnEqIff | impl/include/impl/impl.hpp:59 | `strncmp(a, b, n) == 0` holds exactly when `b` agrees with `a` on the characters before `a`'s first NUL and, when that NUL lies within `n`, has a NUL there too |
| Engine.Copied | impl/include/impl/impl.hpp:94-95 | the copied field holds the source's characters before its first NUL (at most `n`) and NULs everywhere after |
| Engine.StoredAsWritten | impl/include/impl/impl.hpp:94-95 | the kept symbol is 16 characters long and always ends in a NUL |
| Engine.CopiedLen | impl/include/impl/impl.hpp:94-95 | the copy's own length equals the number of characters copied, and those characters are the source's |
| Engine.StoredMatches | impl/include/impl/impl.hpp:94-95 | a 16-character copy of the symbol always compares equal to the symbol under `strncmp` over 16 |
| Engine.StoredAsWrittenMatches | impl/include/impl/impl.hpp:94-95 | the 15-character copy compares equal to the symbol exactly when the symbol is shorter than 16 characters |
| Engine.TerminatedNeverMatchesFull | impl/include/impl/impl.hpp:59 | no entry ending in a NUL compares equal to a symbol that fills all 16 characters |
| Engine.HornerIsSum | impl/include/impl/impl.hpp:43-49 | the loop's running value is the polynomial in 31 over the characters, reduced modulo 2^64 |
| Engine.HashSymbol | impl/include/impl/impl.hpp:43-49 | the loop computes the hash of the characters before the first NUL (at most 16), which is their polynomial in 31 modulo 2^64 |
| Engine.UsedCountClaim | impl/include/impl/impl.hpp:96-98 | marking one unused entry used raises the number of used entries by exactly one |
| Engine.FirstFree | impl/include/impl/impl.hpp:103-113 | the scan finds an unused index with every earlier index used, or reports that every index from the start is used |
| Engine.FindMatch | impl/include/impl/impl.hpp:71-82 | the scan finds the lowest index whose entry is used, has the hash and compares equal to the symbol, or reports that no entry does |
| Engine.AssignKeeps | impl/include/impl/impl.hpp:85-116 | assignment succeeds exactly when fewer than 100 books are used; it takes the preferred entry if unused, else the lowest unused one, raises the counter by one and keeps it equal to the number of used entries; a failed assignment changes nothing |
| Engine.LookupKeeps | impl/include/impl/impl.hpp:52-68 | a lookup keeps the table invariant and either leaves the table as it was or assigns exactly one new book, which it hands out; the book handed out is always a used entry; a full table never changes |
| Engine.PreferredFoundAgain | impl/include/impl/impl.hpp:57-64 | a symbol shorter than 16 characters that sits in its preferred entry is handed the same book by the next lookup, which changes nothing |
| Engine.HashCollisionNeverAssigns | impl/include/impl/impl.hpp:57-64 | when the preferred entry has the same hash but another symbol, the lookup only searches: the table is unchanged, a book handed out matches the symbol, and null means no entry matches |
| Engine.ProbedSymbolReassigned | impl/include/impl/impl.hpp:52-68 | as written, while the preferred entry holds another hash, each lookup of the symbol that gets a book gets a previously unused one |
| Engine.FullSymbolNeverFound | impl/include/impl/impl.hpp:52-68 | as written, a symbol filling all 16 characters is never found again: a lookup of it that gets a book at all gets a previously unused one |
| Engine.FullSymbolDropped | impl/include/impl/impl.hpp:52-68 | as written, once a symbol filling all 16 characters has taken its preferred entry, the next lookup gets null and leaves the table as it is, so every later lookup gets null too |
| Engine.EmptyTableValid | impl/include/impl/impl.hpp:38-39 | the fresh mapping is valid: its count of used books is 0, matching its entries, and every kept symbol ends in a NUL |
| Engine.FullSymbolSecondLookupNull | impl/include/impl/impl.hpp:52-68 | as written, on a fresh engine a symbol filling all 16 characters gets the book at its preferred entry, and its second lookup gets null and changes nothing |
| Engine.HashesOfExamples | impl/include/impl/impl.hpp:43-49 | the symbol "0" hashes to 48 and "A!" to 2048, so both prefer entry 48 |
| Engine.ProbeCounterexample | impl/include/impl/impl.hpp:52-116 | as written, on a fresh table "0" gets book 48, then "A!" gets book 0 and, looked up again, book 1: three books used for two symbols |
| Engine.FixedLookupStable | impl/include/impl/impl.hpp:52-68 | the corrected lookup keeps the table invariant, and a symbol once handed a book is handed the same book by the next lookup, which changes nothing |
| Engine.StepsKeepTable | impl/include/impl/impl.hpp:119-205 | over any message sequence the table invariant holds, at most 100 books are used, and the number of assigned books never goes down |
| Engine.FirstFinished | impl/include/impl/impl.hpp:330-333 | the index returned is the first FINISHED tick, or the length when no tick is FINISHED |
| Engine.Impl.constructor | impl/include/impl/impl.hpp:278-304 | the new engine is valid, with an empty mapping, 100 empty books and 100 empty windows |
| Engine.Impl.FindOrderBookForSymbol | impl/include/impl/impl.hpp:71-82 | the loop returns the index `FindMatch` specifies, whose entry matches the symbol |
| Engine.Impl.AssignOrderBookToSymbol | impl/include/impl/impl.hpp:85-116 | the mapping and counter afterwards, and the index returned, are those the assignment specification gives for the 15-character copy, and the engine stays valid |
| Engine.Impl.ClaimEntry | impl/include/impl/impl.hpp:92-98 | the entry takes the hash and the kept symbol, is marked used, and the counter rises by one; nothing else changes |
| Engine.Impl.GetOrderBook | impl/include/impl/impl.hpp:52-68 | the mapping, counter and index returned are those of the lookup specification |
| Engine.Impl.Apply | impl/include/impl/impl.hpp:124-196 | only book `k` and its window change, to what `ApplyToBook` gives; the mapping is unchanged |
| Engine.Impl.UpdateBook | impl/include/impl/impl.hpp:124-196 | book `k` and its window take the message; every other book and window is unchanged |
| Engine.Impl.ProcessMessage | impl/include/impl/impl.hpp:119-205 | the engine's new state is one `Step` of the old state on the message |
| Engine.Impl.Run | impl/include/impl/impl.hpp:324-344 | the engine's final state is the old state stepped through the messages of the ticks with status OK, non-null data and positive size, up to the first FINISHED tick |
| Engine.Impl.HandleTick | impl/include/impl/impl.hpp:335-337 | a tick is processed exactly when its status is OK, its data non-null and its size positive; otherwise nothing changes |
| Engine.AllocateBooks | impl/include/impl/impl.hpp:298-302 | 100 fresh, pairwise distinct, empty books, each with its own empty window |
| Engine.NewBook | impl/include/impl/impl.hpp:299-300 | a fresh empty book whose objects are not among those allocated before |
| Engine.CallBook | impl/include/impl/impl.hpp:124-196 | the book and its window change as the message says, with side byte 0 decoded as buy and any other byte as sell; only `clear` replaces the window |
| PerfReport.LStrip | scripts/parse_perf_orderbook.py:10 | the result is a suffix of the input, all dropped characters are whitespace, and it does not start with whitespace |
| PerfReport.RStrip | scripts/parse_perf_orderbook.py:10 | the result is a prefix of the input, all dropped characters are whitespace, and it does not end with whitespace |
| PerfReport.StripBlank | scripts/parse_perf_orderbook.py:10-11 | a stripped line is empty exactly when every character is whitespace |
| PerfReport.Split | scripts/parse_perf_orderbook.py:15 | `split(',')` gives one more part than there are commas, and no part contains a comma |
| PerfReport.JoinSplit | scripts/parse_perf_orderbook.py:15 | joining the parts with the separator gives back the line |
| PerfReport.StripAll | scripts/parse_perf_orderbook.py:15 | the loop strips every part, keeping their number and order |
| PerfReport.Entries | scripts/parse_perf_orderbook.py:9-27 | one registration outcome per line, in order, each the one the line gives |
| PerfReport.EventsFold | scripts/parse_perf_orderbook.py:7-28 | the event map is the lines' registrations applied in order |
| PerfReport.ParsePerfCsv | scripts/parse_perf_orderbook.py:7-28 | the loop builds exactly the event map the lines specify |
| PerfReport.LineRegisters | scripts/parse_perf_orderbook.py:10-17 | a line registers an event exactly when, stripped, it starts with a digit or `<` and has at least two commas; a blank line never does |
| PerfReport.LineReading | scripts/parse_perf_orderbook.py:18-27 | a registering line names the stripped third field, and records no reading exactly when the value is `<not supported>`, `<not counted>` or does not parse as a number |
| PerfReport.FoldDomain | scripts/parse_perf_orderbook.py:7-28 | an event is in the map exactly when some registration names it |
| PerfReport.FoldLast | scripts/parse_perf_orderbook.py:20-27 | an event's value is the reading of the last registration that names it |
| PerfReport.EventsDomain | scripts/parse_perf_orderbook.py:7-28 | an event is in the map exactly when some line registers it |
| PerfReport.LastLineWins | scripts/parse_perf_orderbook.py:20-27 | when several lines register an event, the map keeps the last one's reading |
| PerfReport.GetValue | scripts/parse_perf_orderbook.py:31-35 | a value is returned exactly when the event is present with a reading, and it is that reading's number |
| PerfReport.ValueOfLastLine | scripts/parse_perf_orderbook.py:20-35 | the value looked up for an event is the number on the last line that registers it, or none when that line has no reading |
| PerfReport.Ratio | scripts/parse_perf_orderbook.py:38-41 | a ratio exists exactly when both values do and the denominator is non-zero, and it times the denominator gives the numerator |
| PerfReport.Mpki | scripts/parse_perf_orderbook.py:44-47 | misses per thousand instructions exist exactly when both values do and instructions are non-zero, and the result times instructions is 1000 times the misses |
| PerfReport.MpkiExample | scripts/parse_perf_orderbook.py:44-47 | 5 misses in 1000 instructions is 5 per thousand; zero or missing inputs give none |
| PerfReport.Conclude | scripts/parse_perf_orderbook.py:106-120 | the conclusions are never empty, hold exactly the rules that fire (IPC below 1, branch-miss rate above 3%, L1D MPKI above 5, LLC MPKI above 1) or the fallback when none does, and come in rule order without repeats |

## Left out

- `getMidPrice`, `getMacroPrice`, `getImbalance` and `getBookPressure` (impl/src/order_book.cpp:464-547) compute in `double`; floating point is not modelled.
- `signalMetrics` (impl/include/impl/impl.hpp:208-275) computes doubles and writes to the gateway; it is output only.
- The calendar conversions `yyyymmddhhmmssToUnixSeconds` (impl/src/sliding_window.cpp:14-37, impl/src/sliding_window_ring.cpp:68-90) call `mktime`, which depends on the time zone. The converted time is a parameter instead: `Option<nat>` seconds for the ring variant (`None` when `mktime` fails) and plain seconds for the heap variant (0 on failure).
- `std::nth_element` in the median queries is specified by the sorted sequence of the live prices; the partial-sort algorithm itself is not modelled.
- The prefetch hints of the free-list pool (impl/include/impl/memory_pool.hpp:39-43) have no effect on the result.
- The tree's `NodePool` chunk allocator and the early returns on allocation failure (impl/include/impl/price_level_tree.hpp:257-297, 116, 376, 415) are not modelled; node allocation always succeeds.
- The book's own order and level pools (impl/include/impl/order_book.hpp:154-155) are not modelled as allocators. Every live order holds its own one of the 65536 order-table slots, so the 65536-order pool never runs out, and `addOrder`'s order-allocation failure (impl/src/order_book.cpp:233) cannot happen. The 2048-level pool is represented only by how many levels it has handed out, which is the number of live levels (`BookState.LevelPoolFull`). Its failure branch (impl/src/order_book.cpp:250-256) is modelled: a new price with 2048 levels live leaves the book as it was.
- `posix_memalign`, its `abort` on failure, placement-new and the destructor of `Impl` (impl/include/impl/impl.hpp:288-322) are memory management. `Engine.Impl.constructor` models only the 100 default-constructed books and the zeroed mapping.
- `OrderBook::setSymbol` and the book's symbol field (impl/include/impl/impl.hpp:97, 109) are not modelled; nothing in the core reads the symbol back.
- The reader, the gateway, the logger and the wire structs of the framework are not part of this model. The reader is the sequence of its ticks, and a message is the datatype `Engine.Message`.
- Engine.Impl.Run: requires the tick sequence to contain a FINISHED tick, because the source's loop runs for as long as the reader does; a reader that never finishes is not modelled.
- `processMessage` calls `processTrade` with five arguments (impl/include/impl/impl.hpp:191-192), while its definition takes a sixth, the timestamp (impl/src/order_book.cpp:362-363). The model passes the message's trade time as that timestamp.
- The heap variant's secondary index (`sec_index_`, `sec_count_`, `base_timestamp_`) is written but never read by any modelled query, and `rebuildHeapsIfNeeded` does nothing; neither is modelled.
- The header that defines the heap and book variants' `getVWAP`, `getPriceRange`, `getTotalVolume` and `getTotalAmount` (`sliding_window.hpp`) is not part of this model. `HeapWindow.HeapWindowStats.GetVWAP` and `BookWindow.SlidingWindowStats.GetVWAP` follow the ring variant's definition (impl/include/impl/sliding_window_ring.hpp:76-79), and those variants' price range and total getters are not modelled.
- FreeListPool.FreeListPool.Deallocate: requires the slot to be one the pool handed out and has not taken back. The source does not check this, and a double free would corrupt the free stack.
- TieredPool.TieredMemoryPool.Deallocate: requires that the pointer is not already free in its tier. The source does not check this either.
- The level hash table: a new level overwrites its slot `abs(price) % 2048` (impl/src/order_book.cpp:56-57), and removal clears the slot whatever it holds (impl/src/order_book.cpp:115). So two live prices sharing a slot break lookup. The model writes and clears the slot as the code does, but it finds a level by its price (`BookState.Locate`: the first level with that price, bids first) rather than through the pointer the slot holds. The two agree while no two levels share a price, which the book invariant guarantees and every add under `CollisionFree` keeps. After an add that overwrote another price's slot, a later delete can clear the slot and a later add can then create a second level with the same price; from there the code appends to the level the slot points at and the model to the first one it finds. For example, buy orders 1 (100, qty 10) and 2 (2148, qty 10), delete 2, then buy orders 3 (100, qty 5) and 4 (100, qty 7): the code puts order 4 with order 3 and reports a best bid quantity of 10, the model puts it with order 1 and reports 17. The lemmas below exclude this with the precondition `CollisionFree`: no level of another price holds the new price's slot.
- BookState.AddOrder: joins the first level with the order's price, not the level the price's hash slot points at; the two differ only once two levels share a price, after a `CollisionFree` violation (see above).
- BookState.DeleteOrder: unlinks the order from the first level with its price, not the level the slot points at; same condition.
- BookState.ModifyOrder: adjusts or moves through the first level with the price, not the level the slot points at; same condition.
- BookState.ProcessTrade: fills through the first level with the price, not the level the slot points at; same condition.
- OrderBooks.OrderBook.DeleteOrder: its new state is `BookState.DeleteOrder` of the old, so it shares that function's level choice once two levels share a price.
- OrderBooks.OrderBook.ProcessTrade: its new book is `BookState.ProcessTrade` of the old, so its fills share that function's level choice once two levels share a price.
- BookOps.AddOrderValid: requires `CollisionFree` for the new price.
- BookOps.ModifyOrderValid: requires `CollisionFree` for the new price.
- BookTotals.ModifyOrderTotals: requires `CollisionFree` for the new price.
- BookEffects.AddOrderEffect: requires `CollisionFree` for the new price.
- BookEffects.ModifyMovesEffect: requires `CollisionFree` for the new price.
- BookQueries.RankKeptByAdd: requires `CollisionFree` for the added order's price.
- OrderBooks.OrderBook.AddOrder: keeps the book invariant only under `CollisionFree` and the C++ field widths; its new state is stated unconditionally, and is `BookState.AddOrder` of the old, with that function's level choice once two levels share a price.
- OrderBooks.OrderBook.ModifyOrder: keeps the book invariant only under `CollisionFree` and the C++ field widths; its new state is stated unconditionally, and is `BookState.ModifyOrder` of the old, with that function's level choice once two levels share a price.
- The BBO refresh uses the caller's `side` argument, not the order's own side. With a mismatched side the cached BBO can go stale, which is what the code does. The BBO lemmas below therefore require the levels involved to be on the caller's side (`OnSide`).
- BookBBO.AddOrderBBO: requires the level at the price, if any, to be on the caller's side.
- BookBBO.DeleteOrderBBO: requires the order's level to be on the caller's side.
- BookBBO.ModifyOrderBBO: requires the old and new levels to be on the caller's side, and `CollisionFree` for the new price.
- BookBBO.ProcessTradeBBO: requires the order's level and the trade price's level to be on the caller's side.
- BookTotals.ProcessTradeTotals: a partial fill takes the traded quantity off the level at the trade price (impl/src/order_book.cpp:387-394), not the order's own level. Exact level totals are proved only for a partial fill at the order's own price.
- The heap variant's `HeapWindowStats` uses the corrected heap removal of the Findings table (`HeapOps.IndexedHeap.Remove`, which sifts the moved entry up or down), not the code's sift-down-only removal (`HeapOps.IndexedHeap.RemoveAsWritten`). With the code's removal a heap can lose its order, and then a top can be a live price that is not the extreme.
- HeapWindow.HeapWindowStats.TopsClean: proved for the corrected removal; for the code as written a heap top can be a live non-extreme price.
- HeapWindow.HeapWindowStats.RecordTrade: the overwritten slot leaves the heaps by the corrected removal, so the heaps stay ordered; the code's removal may not keep them ordered.
- HeapWindow.HeapWindowStats.EvictExpired: expired slots leave the heaps by the corrected removal, so the heaps stay ordered; the code's removal may not keep them ordered.
- HeapWindow.HeapWindowStats.UpdateMinMaxFromHeaps: min and max are the exact extremes only with the corrected removal; as written they are the tops' prices, which can miss the extreme.
- In all three windows, recording into a full ring overwrites the oldest slot without taking its quantity and amount off the running sums (for example impl/src/sliding_window.cpp:246-263). The sums are therefore proved equal to the live trades' sums only while the ring has never been full; after that, only their modulo-2^64 update is stated.
- PerfReport: reading the file, `splitlines`, the argument parser, `fmt` and the markdown template (scripts/parse_perf_orderbook.py:50-172) are I/O and formatting. The lines are a parameter; Python's `float()` is the parameter `parse`, a partial function from strings to reals; floats are exact reals, so rounding is not modelled.
- The `tests/` and `benchmarks/` programs are not modelled; they only drive the code.

## Findings

| source | as written | input that shows it | evidently intended | confidence | as-written member | corrected member |
|---|---|---|---|---|---|---|
| impl/src/order_book.cpp:550-585 | `getOrderRank` counts every order of the level's ring and `getQtyAhead` sums every other order of the ring, walking all the way round | buy order 1 (qty 5), then buy order 2 (qty 7), both at 100, on an empty book: order 1 gets rank 2 with 7 ahead | rank = 1-based place in the FIFO (1 for order 1) and quantity ahead = orders in front (0) | not executed | BookQueries.WrittenRankWrong | OrderBooks.OrderBook.GetOrderRank |
| impl/include/impl/impl.hpp:52-68 | when the preferred entry `hash % 100` holds a symbol of another hash, `getOrderBook` assigns a new book without searching the table | fresh engine: "0" (hash 48) takes entry 48; "A!" (hash 2048, also preferring 48) gets book 0, and looked up again gets book 1 | search the whole table before assigning, so a symbol keeps its book | not executed | Engine.ProbeCounterexample | Engine.FixedLookupStable |
| impl/include/impl/impl.hpp:94-95 | the symbol is kept as 15 characters plus a NUL but compared over 16 characters | any 16-character symbol on a fresh engine: the first lookup gives it the book at its preferred entry; the second meets its own hash there, compares unequal, finds no match elsewhere and gets null, so its messages are dropped from then on | keep all 16 characters, so the symbol is found again | not executed | Engine.FullSymbolSecondLookupNull | Engine.StoredMatches |
| impl/src/sliding_window.cpp:85-179 | `removeFromMaxHeap`/`removeFromMinHeap` move the last entry into the hole and only sift it down | prices 1, 3, 3, 2, 1, 1, 3 recorded into slots 0-6, then slots 0, 1, 2 evicted: the max heap's top is slot 3 (price 2) while slot 6 (price 3) is live | sift the moved entry up or down, so the top stays the window's extreme | not executed | HeapOps.WrittenRemovalLosesMax | HeapOps.RemovedOrdered |
