# Verified model of the HiCR tasking stack and its containers

The tasking example of HiCR runs a dependency graph of tasks on any number of workers. Workers share a
lock-free ring queue of waiting tasks, a hash set of finished labels, and a counter of active tasks. This
project models these parts, and the B-tree that ships beside the hash table, and proves what they promise:

* **Swiss-table hash set** (`Probe`, `Group`, `GroupWords`, `Capacity`, `Table`, `TableInv`, `TableRehash`,
  `RawHashSet`, `HashSetRuns`). The class `RawHashSet` updates control bytes and slots in place; at width 8 it
  reads and converts groups with the portable word operations. For every hash function, group width 8 or 16,
  and sequence of operations it answers as a mathematical set does, with one exception stated below. Lookups
  depend on one global fact: no probe window before the one that holds a stored key contains an empty byte.
  Insertion, erasure, growth and the in-place rehash each keep it for a different reason.
* **Lock-free ring queue** (`RingIndex`, `AtomicQueue`, `QueueLedger`, `QueueFifo`, `QueueRefinement`,
  `QueueCalls`, `QueueOverlap`). A transition system with one step per atomic operation and any number of
  threads. Counters are unbounded; the steps look at their low 32 bits only. Conservation, the per-slot ledger
  and progress hold in every reachable state, and runs without overlap on a slot are linearizable to a bounded first-in first-out
  queue, for blocking and try calls alike. `QueueCalls` says this call by call: what a call is given, when it
  takes effect, and with what it returns.
* **B-tree** (`BTreeNode` to `BTreeRuns`). Nodes are values and node pointers are paths. Every restructuring
  keeps the in-order sequence and the rank of the position it tracks; the container keeps keys strictly
  sorted, leaves at one depth, nodes within bounds, and answers every run as an ordered list does.
  `BTreeSlots` carries out the node operations in place on slot and child arrays and proves that they
  compute the node functions the tree proofs use. `BTreeSpace` counts nodes: when restructuring allocates one
  and when it gives one back.
* **Task runtime** (`TaskGraph`, `TaskRuntime`, `TaskOrder`, `TaskPolls`, `RuntimeQueue`, `TaskWorker`). A
  transition system over all worker interleavings with its safety properties, the life of a task and the rounds
  of a worker, and a class for the single-worker case with its poll bound. `RuntimeQueue` is the product of the runtime and the ring: workers push and pop tasks by running
  the atomic steps of the ring, and the ring is proved to implement the runtime's queue.

`Arith` and `Options` hold shared arithmetic and the option type.

Assumptions made explicit in the model: atomics are sequentially consistent; no thread sleeps through 2^32
counter increments between a load and its compare-exchange, and compared counters differ by less than 2^31
(`AtomicQueue.Calm`); ring sizes are at most 2^30; task labels are unique; the runtime's counter starts at
zero; a key's hash depends on the key only; the comparator of the B-tree is a strict weak order.

Places where the code does less than one might expect:

* `rehash(0)` and `reserve(0)` size the new table from `size()` without the 7/8 slack. The elements are all
  kept, but the table stays in order if and only if the size is not in the top eighth of its power of two
  (`RawHashSet.RawHashSet.Rehash`). `RawHashSet.RehashZeroTrap` is the failing case: with seven elements in
  8-wide groups the new table has no empty byte, so a lookup of an absent key never stops.
* A pop need not return the element of its own ticket. It does if no slot ever has two pushes or two pops in
  flight (`QueueRefinement.RefinesBoundedFifo`); neither half of this can be dropped, in any ring with BITS of
  at least 1 (`QueueOverlap.PushesReorder`, `QueueOverlap.PopsReorder`). For threads that only push or only pop
  the condition is exact: ticket order in every run if and only if there is one producer and one consumer
  (`QueueOverlap.OrderedExactly`).
* A task that adds a dependency to itself while running and finishes without suspending is not ordered after
  it (`TaskOrder.LateDependencyEscapes`); without such late dependencies all come first
  (`TaskOrder.AllDependenciesFirst`).
* A finishing task is counted down before its label is inserted. In between, the only active task may be
  queued and not ready (`TaskOrder.FinishWindow`); it never waits for more than labels about to be inserted
  (`TaskOrder.SomeQueuedUnblocked`).

`dafny verify dfyconfig.toml` checks the whole project.

## Model

| member | source | states |
|---|---|---|
| `Probe.TriComplete` | extern/parallel_hashmap/phmap.h:826-835 | triangular numbers form a complete residue system modulo 2^m: every residue is hit by exactly one of the first 2^m |
| `Probe.OffsetNext` | extern/parallel_hashmap/phmap.h:155-159 | one `next()` takes the k-th probe offset to the (k+1)-th of the closed form |
| `Probe.WindowsPartition` | extern/parallel_hashmap/phmap.h:143-167 | the first n/W probe windows cover every position of the circle exactly once |
| `Probe.SameGroup` | extern/parallel_hashmap/phmap.h:2069-2071 | positions with equal `probe_index` lie in the same probe window |
| `Group.MatchEmptyExact` | extern/parallel_hashmap/phmap.h:496-499 | the word trick flags a byte if and only if it is empty, and sets no other bit |
| `Group.MatchEmptyOrDeletedExact` | extern/parallel_hashmap/phmap.h:501-504 | the word trick flags a byte if and only if it is empty or deleted |
| `Group.MatchSound` | extern/parallel_hashmap/phmap.h:476-494 | every byte with the hash is flagged, and flagged bytes belong to full slots |
| `Group.FlagNeedsMatch` | extern/parallel_hashmap/phmap.h:481-489 | a flagged byte has a true match at its position or below: false positives need a real match |
| `Group.Match` | extern/parallel_hashmap/phmap.h:476-494 | the candidate mask contains every true match and only full bytes, for both widths |
| `Group.ConvertExact` | extern/parallel_hashmap/phmap.h:511-517 | the conversion word maps special bytes to empty and full bytes to deleted, byte by byte |
| `Group.CountTrailingZeros64` | extern/parallel_hashmap/phmap_bits.h:351-361 | the masked search returns the index of the lowest set bit |
| `Group.LowestBitSet` | extern/parallel_hashmap/phmap.h:251-253 | the byte index of the first flag of a group mask |
| `Group.CountLeadingEmptyOrDeleted` | extern/parallel_hashmap/phmap.h:506-509 | the number of leading holes of the group |
| `GroupWords.FindFirstHole` | extern/parallel_hashmap/phmap.h:501-504 | the first flag of MatchEmptyOrDeleted is the first hole of the group, or there is none |
| `GroupWords.CountBeforeEmpty` | extern/parallel_hashmap/phmap.h:262-265 | the trailing zeros of MatchEmpty count the bytes before the first empty one |
| `GroupWords.CountAfterEmpty` | extern/parallel_hashmap/phmap.h:267-271 | the leading zeros of MatchEmpty count the bytes after the last empty one |
| `GroupWords.CountLeadingZerosWord` | extern/parallel_hashmap/phmap_bits.h:273-280 | the search leaves exactly the top set bit, on the bit-vector word of a group mask |
| `GroupWords.ConvertGroup` | extern/parallel_hashmap/phmap.h:511-517 | loading, converting and storing a group converts each of its bytes |
| `Capacity.CountLeadingZeros64` | extern/parallel_hashmap/phmap_bits.h:273-280 | the binary search and nibble table count the leading zeros of a 64-bit word |
| `Capacity.NormalizeCapacity64` | extern/parallel_hashmap/phmap.h:564-567 | the shifted all-ones word is the normalized capacity |
| `Capacity.NormalizeLeast` | extern/parallel_hashmap/phmap.h:564-567 | normalizing gives the least valid capacity that is at least n |
| `Capacity.GrowthLeavesRoom` | extern/parallel_hashmap/phmap.h:573-585 | a large table's growth limit leaves a free slot, a small table may use all |
| `Capacity.GrowthDoubles` | extern/parallel_hashmap/phmap.h:2099-2109 | growing to 2c+1 makes room for at least one more element |
| `Capacity.GrowthGalois` | extern/parallel_hashmap/phmap.h:573-602 | the two sizing functions are adjoint on valid capacities, for widths 8 and 16 |
| `Capacity.ReserveLeast` | extern/parallel_hashmap/phmap.h:1692-1692 | reserve picks the least valid capacity whose growth limit is at least n |
| `Capacity.RehashZeroFits` | extern/parallel_hashmap/phmap.h:1685-1688 | the capacity chosen by rehash(0) can hold the elements if and only if the size is not in the top eighth of its power of two |
| `Capacity.RehashZeroCounterexample` | extern/parallel_hashmap/phmap.h:1685-1688 | seven elements in 8-wide groups, and fifteen in 16-wide ones, get a table with as many slots and a smaller growth limit |
| `Table.SetCtrlShape` | extern/parallel_hashmap/phmap.h:2252-2264 | set_ctrl keeps the clones right and changes exactly one of the table's bytes |
| `Table.CircularRead` | extern/parallel_hashmap/phmap.h:2252-2264 | an unaligned group read in a large table equals the circular read |
| `Table.ProbeSeesEmpty` | extern/parallel_hashmap/phmap.h:1838-1851 | a probe meets an empty byte within the first n/W windows, so searches end |
| `Table.ProbeSeesHole` | extern/parallel_hashmap/phmap.h:2146-2157 | a probe meets an empty or deleted byte within the first n/W windows |
| `TableInv.InsertInv` | extern/parallel_hashmap/phmap.h:2194-2206 | filling the first hole on the new key's probe path keeps all keys reachable |
| `TableInv.EraseInv` | extern/parallel_hashmap/phmap.h:1953-1972 | freeing a slot keeps all other keys reachable |
| `TableInv.WasNeverFullExact` | extern/parallel_hashmap/phmap.h:1957-1969 | in a large table the counting test holds if and only if every circular window over the slot has another empty byte |
| `TableInv.WasNeverFullSmall` | extern/parallel_hashmap/phmap.h:1957-1969 | in a small table the test always holds, and an empty byte is always safe |
| `TableRehash.ConvertStartsDrop` | extern/parallel_hashmap/phmap.h:548-559 | the conversion pass marks exactly the stored elements as still to be placed |
| `TableRehash.SameGroupSolid` | extern/parallel_hashmap/phmap.h:2066-2077 | an element that stays because its group equals its target's group is reachable past no hole |
| `TableRehash.DropStay` | extern/parallel_hashmap/phmap.h:2073-2077 | marking an element full in place keeps the rehash invariant |
| `TableRehash.DropMove` | extern/parallel_hashmap/phmap.h:2078-2084 | moving an element to an empty slot keeps the rehash invariant and the elements |
| `TableRehash.DropSwap` | extern/parallel_hashmap/phmap.h:2085-2093 | swapping with an unplaced element keeps the rehash invariant and the elements |
| `TableRehash.DropDone` | extern/parallel_hashmap/phmap.h:2096-2096 | when nothing is unplaced, every key is reachable and no tombstone is left |
| `TableRehash.RehashDone` | extern/parallel_hashmap/phmap.h:2096-2097 | after the rehash the accounting is exact with all growth restored |
| `TableRehash.EraseTable` | extern/parallel_hashmap/phmap.h:1953-1972 | erasing a slot removes exactly its element and keeps size + tombstones + growth_left |
| `TableRehash.InsertTable` | extern/parallel_hashmap/phmap.h:2201-2204 | filling a target adds exactly the element and keeps size + tombstones + growth_left |
| `TableRehash.HasEmptySlot` | extern/parallel_hashmap/phmap.h:2292-2292 | a large table within its growth limit has an empty slot |
| `TableRehash.GrowChoice` | extern/parallel_hashmap/phmap.h:2099-2109 | out of growth, a small table is full, so the in-place rehash only runs on large tables |
| `TableRehash.SizeIsCardinality` | extern/parallel_hashmap/phmap.h:1953-1955 | size equals the number of elements of the set |
| `RawHashSet.StopIsSound` | extern/parallel_hashmap/phmap.h:1848-1849 | a search that stops at a window with an empty byte may conclude absence |
| `RawHashSet.FirstHoleTarget` | extern/parallel_hashmap/phmap.h:2146-2157 | the slot found by the probe is the first hole on the path |
| `RawHashSet.RawHashSet.FindImpl` | extern/parallel_hashmap/phmap.h:1837-1852 | lookup succeeds exactly on the members and returns their slot |
| `RawHashSet.RawHashSet.FindFirstNonFull` | extern/parallel_hashmap/phmap.h:2146-2157 | returns the first hole, within the probe bound |
| `RawHashSet.RawHashSet.TestNeverFull` | extern/parallel_hashmap/phmap.h:1957-1969 | the word counts on both sides of the slot compute the counting test |
| `RawHashSet.RawHashSet.EraseMetaOnly` | extern/parallel_hashmap/phmap.h:1953-1972 | the byte becomes empty if and only if every window over the slot has another empty byte, no other slot changes, and the table is in order without the element |
| `RawHashSet.RawHashSet.Erase` | extern/parallel_hashmap/phmap.h:1568-1573 | the set loses exactly the key; the result says whether it was there |
| `RawHashSet.RawHashSet.Resize` | extern/parallel_hashmap/phmap.h:2009-2034 | same elements in new storage, all reachable, no tombstone; the accounting is right if and only if the growth limit covers the size, else growth_left wraps |
| `RawHashSet.RawHashSet.ConvertBytes` | extern/parallel_hashmap/phmap.h:548-559 | the group-wise pass converts every byte, restores clones and sentinel |
| `RawHashSet.RawHashSet.PlaceAll` | extern/parallel_hashmap/phmap.h:2057-2095 | the loop with its repeat step ends, keeps the elements and leaves none unplaced |
| `RawHashSet.RawHashSet.DropDeletesWithoutResize` | extern/parallel_hashmap/phmap.h:2036-2097 | terminates, keeps exactly the elements, leaves no tombstone, restores all growth |
| `RawHashSet.RawHashSet.RehashAndGrowIfNecessary` | extern/parallel_hashmap/phmap.h:2099-2109 | afterwards there is growth left, no tombstone and the same elements: in the same storage when at most half of the growth limit is used, else at capacity 2c+1 |
| `RawHashSet.RawHashSet.PrepareInsert` | extern/parallel_hashmap/phmap.h:2194-2206 | reserves a reachable slot for a new key: the first hole of the path, without touching the table, if growth is left or that hole is a tombstone |
| `RawHashSet.RawHashSet.Insert` | extern/parallel_hashmap/phmap.h:2173-2206 | the set gains exactly the key; the result says whether it was new; capacity changes only when no growth is left, nothing changes when the key is present |
| `RawHashSet.RawHashSet.Clear` | extern/parallel_hashmap/phmap.h:1264-1288 | the set becomes empty, the table stays valid, and gives its storage back exactly above capacity 127 |
| `RawHashSet.RawHashSet.Rehash` | extern/parallel_hashmap/phmap.h:1676-1690 | same elements; the capacity is the one the request and the size call for, and unless it grows nothing changes; valid if and only if n is positive or the size is not in the top eighth of its power of two |
| `RawHashSet.RawHashSet.Reserve` | extern/parallel_hashmap/phmap.h:1692-1692 | same elements, and the capacity is the least valid one from the old upwards whose growth limit is at least n; valid under the same condition as rehash |
| `RawHashSet.ReserveCapacity` | extern/parallel_hashmap/phmap.h:1685-1692 | what rehash makes of the lower bound for n is the least such capacity |
| `RawHashSet.RawHashSet.Contains` | extern/parallel_hashmap/phmap.h:1771-1773 | true exactly on the members |
| `RawHashSet.RehashZeroTrap` | extern/parallel_hashmap/phmap.h:1676-1690 | rehash(0) on seven elements in 8-wide groups: no window of any probe has an empty byte, although no element is lost |
| `TableRehash.FullTableNeverStops` | extern/parallel_hashmap/phmap.h:1838-1851 | in a large table with all slots full no probe window has an empty byte |
| `HashSetRuns.Run` | extern/parallel_hashmap/phmap.h:1837-2206 | over every sequence of operations from the empty table each answer is that of a mathematical set, up to and including the first rehash(0) or reserve(0) at an overfull size, if there is one |
| `RingIndex.RemapSwaps` | extern/atomic_queue/atomic_queue.h:59-67 | the two xors exchange the element bits with the cache line bits |
| `RingIndex.RemapInvolution` | extern/atomic_queue/atomic_queue.h:59-72 | remap_index is its own inverse |
| `RingIndex.RemapInRange` | extern/atomic_queue/atomic_queue.h:59-77 | it maps a ring of 2^m slots, m at least 2 BITS, into itself |
| `RingIndex.SlotEqual` | extern/atomic_queue/atomic_queue.h:448-456 | tickets share a slot if and only if they are congruent modulo the ring size |
| `RingIndex.SlotAcrossWrap` | extern/atomic_queue/atomic_queue.h:448-456 | the slot of a ticket is the slot of its low 32 bits |
| `RingIndex.DistinctCacheLines` | extern/atomic_queue/atomic_queue.h:55-77 | 2^BITS consecutive tickets fall on distinct cache lines |
| `RingIndex.RoundUpLeast` | extern/atomic_queue/atomic_queue.h:113-115 | for requests in 1..2^31 the result is the power of two in [a, 2a) |
| `RingIndex.RoundUpWraps` | extern/atomic_queue/atomic_queue.h:113-115 | outside that range the result is zero |
| `RingIndex.RingSizeLeast` | extern/atomic_queue/atomic_queue.h:463-464 | the ring size is the least power of two at least the request and the minimum |
| `AtomicQueue.DiffExact` | extern/atomic_queue/atomic_queue.h:274-277 | the signed 32-bit difference is the true difference while that is below 2^31 |
| `AtomicQueue.CasExact` | extern/atomic_queue/atomic_queue.h:277-277 | a compare-exchange on low 32 bits compares the true counters |
| `AtomicQueue.SlotOfTicket` | extern/atomic_queue/atomic_queue.h:448-456 | the slot computed from the masked 32-bit counter is that of the unbounded ticket |
| `AtomicQueue.InvStep` | extern/atomic_queue/atomic_queue.h:167-328 | every atomic step keeps tickets unique and counters and history in line |
| `AtomicQueue.InvRun` | extern/atomic_queue/atomic_queue.h:167-328 | the same in every state of every run |
| `AtomicQueue.AlwaysEnabled` | extern/atomic_queue/atomic_queue.h:167-328 | in every state of a run each thread has a next step, and its ticket refers to a slot of the ring |
| `QueueLedger.Conservation` | extern/atomic_queue/atomic_queue.h:167-209 | in every interleaving the pushed elements are those delivered, stored or in a producer's hands |
| `QueueLedger.BalancedStep` | extern/atomic_queue/atomic_queue.h:167-209 | push minus pop tickets of a slot = occupied + waiting pushes - waiting pops |
| `QueueLedger.SlotProgress` | extern/atomic_queue/atomic_queue.h:167-209 | a slot with an operation in flight has one whose next step completes it |
| `QueueLedger.TryCallsSafe` | extern/atomic_queue/atomic_queue.h:265-301 | with try_push and try_pop, 0 <= head - tail <= size, ledgers balance and no slot is stuck, in every run |
| `QueueLedger.PushNeverStuck` | examples/tasking/queue.hpp:67-83 | with blocking push and try_pop and no more elements than slots, head stays within a ring and every waiting push has an empty slot or a pop that empties it |
| `QueueFifo.FifoRun` | extern/atomic_queue/atomic_queue.h:167-328 | without overlap on a slot, slots and history stay paired by ticket |
| `QueueFifo.PopReturnsOwnTicket` | extern/atomic_queue/atomic_queue.h:167-328 | without overlap, the pop with ticket t returns the element pushed with ticket t |
| `QueueRefinement.SingleProducerSingleConsumer` | extern/atomic_queue/atomic_queue.h:265-328 | in every run in which one thread pushes and one pops, by any calls, the pop with ticket t delivers the element pushed with ticket t |
| `QueueRefinement.RefinesBoundedFifo` | extern/atomic_queue/atomic_queue.h:265-328 | in a run without overlap, for blocking and try calls alike, every step is one of a bounded queue: it executes what takes effect, pops deliver the element that went out, threads keep their element, and a call returns with its ticket done or, without one, on a full or empty queue |
| `QueueRefinement.Linearizes` | extern/atomic_queue/atomic_queue.h:265-328 | in a run without overlap the operations that have taken effect are an execution of the bounded queue that contains every ticket that is done, with its result, and only tickets taken so far; later steps append to it |
| `QueueRefinement.TryCallsRefineBoundedFifo` | extern/atomic_queue/atomic_queue.h:265-301 | with try_push and try_pop each step is one operation of the bounded queue or none, with the element of its thread, at the point where the ticket is taken |
| `QueueRefinement.SpscRefinesBoundedFifo` | extern/atomic_queue/atomic_queue.h:265-328 | the same, and linearizability, for every run with one producer and one consumer, whatever calls they make |
| `QueueCalls.RunHasTrace` | extern/atomic_queue/atomic_queue.h:265-328 | every run has a sequence of calls and atomic steps that makes it, so the laws below are about all runs |
| `QueueCalls.ServesRun` | extern/atomic_queue/atomic_queue.h:265-328 | from a call until it returns its thread works on that call, with the argument of the call |
| `QueueCalls.CallsKeepTheirWord` | extern/atomic_queue/atomic_queue.h:265-328 | a blocking call takes its ticket at once; a push returns with its element stored, a pop with its ticket filled; a try call returns otherwise only on a full or an empty queue, and goes round only when another thread has taken the ticket |
| `QueueCalls.CallReturns` | extern/atomic_queue/atomic_queue.h:265-328 | a call returns once, in a step of its own, with what it promises; until then it stores and delivers nothing, and its ticket was taken since it was made |
| `QueueCalls.CallsLinearize` | extern/atomic_queue/atomic_queue.h:265-328 | without overlap a push takes effect between call and return with its argument, and a pop likewise with the element it returns |
| `QueueCalls.ArgumentsConserved` | extern/atomic_queue/atomic_queue.h:265-315 | each value is the argument of as many push calls as there are tickets with it, refusals of it and try calls with it without a ticket |
| `QueueCalls.EnqueuedAreArguments` | extern/atomic_queue/atomic_queue.h:265-315 | the operations that explain a run enqueue arguments of calls made, each at most once |
| `QueueCalls.PopCallsAccounted` | extern/atomic_queue/atomic_queue.h:285-328 | every pop or try_pop call has delivered one element, was refused, or is in flight |
| `QueueCalls.FinishReturns` | extern/atomic_queue/atomic_queue.h:167-209 | an operation whose slot allows it returns with its next step |
| `QueueOverlap.PushesReorder` | extern/atomic_queue/atomic_queue.h:265-315 | in every ring with BITS at least 1 and for each way to use the queue, a run of two producers and one consumer in which pop ticket 0 returns the element of push ticket `size` |
| `QueueOverlap.PopsReorder` | extern/atomic_queue/atomic_queue.h:265-328 | likewise a run of one producer and two consumers in which pop ticket `size` returns the element of push ticket 0 |
| `QueueOverlap.OrderedExactly` | extern/atomic_queue/atomic_queue.h:265-328 | dedicated producers and consumers see ticket order in every run if and only if there is one of each |
| `BTreeOps.MergeContents` | extern/parallel_hashmap/btree.h:2342-2369 | merge keeps left ++ delimiter ++ right |
| `BTreeOps.RightToLeftContents` | extern/parallel_hashmap/btree.h:2176-2217 | rebalance_right_to_left keeps the in-order sequence and child order |
| `BTreeOps.LeftToRightContents` | extern/parallel_hashmap/btree.h:2220-2298 | rebalance_left_to_right keeps the in-order sequence and child order |
| `BTreeOps.SplitContents` | extern/parallel_hashmap/btree.h:2301-2339 | split keeps the in-order sequence, for every bias |
| `BTreePairs.RecutGap` | extern/parallel_hashmap/btree.h:2176-2298 | every gap of two rebalanced siblings keeps its rank and its child |
| `BTreeSlots.RightToLeft` | extern/parallel_hashmap/btree.h:2176-2217 | the in-place slot and child moves compute the rebalance |
| `BTreeSlots.ShiftIntoRight` | extern/parallel_hashmap/btree.h:2236-2276 | both branches of the slot moves give the same right node |
| `BTreeSlots.LeftToRight` | extern/parallel_hashmap/btree.h:2220-2298 | the in-place slot and child moves compute the rebalance |
| `BTreeSlots.EmplaceSlots` | extern/parallel_hashmap/btree.h:2131-2152 | the shift inserts one value and keeps the others in order |
| `BTreeSlots.RemoveSlots` | extern/parallel_hashmap/btree.h:2155-2173 | the shift removes one value and keeps the others in order |
| `BTreeSlots.Split` | extern/parallel_hashmap/btree.h:2301-2339 | node, new sibling and parent become what split specifies |
| `BTreeSlots.MergeNodes` | extern/parallel_hashmap/btree.h:2342-2369 | left node and parent become what merge specifies, the right node is empty |
| `BTreeInsert.MoveToLeftOk` | extern/parallel_hashmap/btree.h:2909-2936 | after moving values to the left sibling the adjusted position is the same gap in a node with room |
| `BTreeInsert.MoveToRightOk` | extern/parallel_hashmap/btree.h:2938-2964 | after moving values to the right sibling the adjusted position is the same gap in a node with room |
| `BTreeInsert.SplitKidOk` | extern/parallel_hashmap/btree.h:2984-2997 | after the split the adjusted position is the same gap in a node with room |
| `BTreeInsert.RebalanceOrSplit` | extern/parallel_hashmap/btree.h:2900-2998 | on every full node: same contents, same gap, room at the gap, tree in order, through all levels |
| `BTreeInsert.EmplaceOk` | extern/parallel_hashmap/btree.h:3127-3129 | emplacing inserts the key at the rank of the gap |
| `BTreeInsert.ToMoveLeft` | extern/parallel_hashmap/btree.h:2916-2919 | the left sibling gets half of its free slots filled, all of them for an insertion at the end |
| `BTreeInsert.ToMoveRight` | extern/parallel_hashmap/btree.h:2946-2948 | the right sibling gets half of its free slots filled, all of them for an insertion at the front |
| `BTreeSpace.RebalanceAllocates` | extern/parallel_hashmap/btree.h:2900-2998 | nodes are allocated only where neither sibling has room: one per split, and one for a new root |
| `BTreeSpace.SplitBias` | extern/parallel_hashmap/btree.h:2301-2319 | a split at either end leaves everything to the other node, otherwise the halves differ by at most one key |
| `BTreeErase.MergedGap` | extern/parallel_hashmap/btree.h:3001-3009 | merging keeps every gap of the two siblings |
| `BTreeErase.TryMergeOrRebalance` | extern/parallel_hashmap/btree.h:3012-3063 | contents and gap stay, the node is not empty, and unless nodes merged the whole tree is in order |
| `BTreeErase.Surplus` | extern/parallel_hashmap/btree.h:3039-3040 | a sibling gives so many values that the two then differ by at most one |
| `BTreeSpace.RepairGivesBack` | extern/parallel_hashmap/btree.h:3012-3063 | nodes merge if and only if the node and a sibling fit into one, which gives back one node; otherwise the number stays |
| `BTreeSpace.RepairTakes` | extern/parallel_hashmap/btree.h:3034-3060 | without a merge the node gains keys whenever a sibling has more than half a node and the deletion was not at the far end; otherwise nothing changes |
| `BTreeDelete.ClimbEnd` | extern/parallel_hashmap/btree.h:3066-3082 | shrinking a root without keys keeps contents, order and the tracked gap |
| `BTreeDelete.RebalanceAfterDelete` | extern/parallel_hashmap/btree.h:2717-2746 | the climb restores the tree and tracks the gap through every merge and rebalance; a leaf at least half full is left alone, and a leaf that can be merged is |
| `BTreeDelete.Settle` | extern/parallel_hashmap/btree.h:2748-2753 | a gap at the end of a leaf is advanced to the key that follows |
| `BTreeDelete.RemoveFromLeaf` | extern/parallel_hashmap/btree.h:2681-2698 | exactly the key goes, also from an internal node via its predecessor |
| `BTreeDelete.Erase` | extern/parallel_hashmap/btree.h:2681-2714 | contents lose exactly the key, the tree is in order, the result denotes the successor or end |
| `BTreeIter.Climb` | extern/parallel_hashmap/btree.h:2424-2431 | walking up keeps the index in the sequence |
| `BTreeIter.Increment` | extern/parallel_hashmap/btree.h:2420-2440 | ++ goes from index r to index r + 1 or end |
| `BTreeIter.DecrementInternal` | extern/parallel_hashmap/btree.h:2455-2462 | -- on an internal node goes to the largest key before it |
| `BTreeSearch.LinearSearch` | extern/parallel_hashmap/btree.h:1260-1271 | the lower bound of the key in a node |
| `BTreeSearch.BinarySearch` | extern/parallel_hashmap/btree.h:1293-1306 | the lower bound of the key in a node |
| `BTreeSearch.InternalLocate` | extern/parallel_hashmap/btree.h:3141-3157 | the leaf position whose rank is the lower bound in the whole sequence |
| `BTreeSearch.InternalLast` | extern/parallel_hashmap/btree.h:3086-3097 | the key at that rank, if there is one |
| `BTreeSearch.InternalFind` | extern/parallel_hashmap/btree.h:3209-3222 | finds a key if and only if an equivalent one is present |
| `BTree.BTree.MakeRoom` | extern/parallel_hashmap/btree.h:3109-3126 | grows the root leaf or rebalances; the position stays the same gap |
| `BTree.BTree.InternalEmplace` | extern/parallel_hashmap/btree.h:3101-3130 | the key is spliced in front of what the position denotes, in a leaf or in an internal node |
| `BTree.BTree.InsertUnique` | extern/parallel_hashmap/btree.h:2530-2552 | inserts exactly when no equivalent key is present, in order, and keeps the container valid |
| `BTree.BTree.EraseAt` | extern/parallel_hashmap/btree.h:2681-2714 | removes exactly the key, returns its successor, keeps the container valid |
| `BTree.BTree.EraseUnique` | extern/parallel_hashmap/btree.h:2837-2845 | removes the equivalent key if there is one |
| `BTree.BTree.Find` | extern/parallel_hashmap/btree.h:3209-3222 | finds a key if and only if an equivalent one is present |
| `BTreeRuns.InsertIsSplice` | extern/parallel_hashmap/btree.h:2530-2552 | inserting at the lower bound is insertion into an ordered list |
| `BTreeRuns.EraseIsDrop` | extern/parallel_hashmap/btree.h:2837-2845 | erasing at the lower bound is deletion from an ordered list |
| `BTreeRuns.Run` | extern/parallel_hashmap/btree.h:2530-3222 | every run from the empty tree answers as an ordered list does and ends with its length |
| `TaskGraph.TrappedIsCyclic` | examples/tasking/runtime.hpp:124-135 | tasks that each wait for one of them contain a dependency cycle |
| `TaskGraph.ReadyExists` | examples/tasking/runtime.hpp:124-135 | in a closed acyclic graph some pending task is ready |
| `TaskRuntime.PlacesStep` | examples/tasking/runtime.hpp:162-262 | every step keeps each task in exactly one place and the counter exact |
| `TaskOrder.DispatchAfterDependencies` | examples/tasking/runtime.hpp:124-135 | a task is dispatched only when all its dependencies were inserted by finished tasks, and put back only when one was not |
| `TaskOrder.FinishOrderTopological` | examples/tasking/runtime.hpp:201-212 | each finished task comes after all dependencies it had at its last dispatch |
| `TaskOrder.LateDependencyEscapes` | examples/tasking/runtime.hpp:201-212 | a run of two tasks in which one depends on the other when it ends, and yet finishes first |
| `TaskOrder.AllDependenciesFirst` | examples/tasking/runtime.hpp:201-212 | a finished task whose dependencies were all known at its last dispatch comes after every one of them |
| `TaskOrder.OnePlace` | examples/tasking/runtime.hpp:185-262 | no task is lost or duplicated: queued, suspended, held, finishing and finished exclude each other |
| `TaskOrder.ZeroMeansDone` | examples/tasking/runtime.hpp:224-235 | count zero means that nothing is queued, suspended, held, being added or running, and a worker that tests it then stops |
| `TaskOrder.QueueWithinCount` | examples/tasking/runtime.hpp:185-192 | the queue never holds more elements than the counter says |
| `TaskOrder.SomeQueuedUnblocked` | examples/tasking/runtime.hpp:201-262 | with acyclic closed dependencies, whenever all active tasks are queued some queued task depends only on tasks that have finished or whose worker is about to insert the label |
| `TaskOrder.SomeQueuedReady` | examples/tasking/runtime.hpp:237-262 | if moreover no worker is between the counter decrement and the label insertion, some queued task is ready |
| `TaskOrder.FinishWindow` | examples/tasking/runtime.hpp:201-212 | a run to a state with one active task, queued and not ready, while its dependency is between decrement and insertion |
| `TaskOrder.BlockedForever` | examples/tasking/runtime.hpp:124-135 | tasks that wait for each other are never dispatched, in any interleaving |
| `TaskPolls.LifeCycle` | examples/tasking/runtime.hpp:162-262 | each step moves the task it is about to its next stage and no other task: added, queued, in hand, suspended, awakened into the queue, ending, done |
| `TaskPolls.DependencyStep` | examples/tasking/task.hpp:63 | dependencies are those a task is added with and those it adds while running, in order |
| `TaskPolls.WorkerCycle` | examples/tasking/runtime.hpp:222-262 | a worker polls, checks and runs or puts back, and nothing else: it stops only on count zero, puts back only an unready task and runs only a ready one |
| `TaskPolls.StopsWhenDone` | examples/tasking/runtime.hpp:224-235 | when a worker stops nothing is queued, suspended, held, being added or running |
| `TaskPolls.PollDecides` | examples/tasking/runtime.hpp:224-235 | the termination test stops the worker at zero and sends it to the queue otherwise |
| `TaskPolls.StoppedForGood` | examples/tasking/runtime.hpp:224-235 | a worker that has stopped polls no more |
| `TaskPolls.ReadyIsDispatched` | examples/tasking/runtime.hpp:124-135 | a popped task whose dependencies have all finished starts after one lookup per dependency, whatever other threads do |
| `TaskPolls.SomePollDispatches` | examples/tasking/runtime.hpp:237-262 | with acyclic closed dependencies and all active tasks queued, some queued task starts if it is popped |
| `RuntimeQueue.Projects` | examples/tasking/runtime.hpp:185-262 | every run of the runtime on the ring projects to a run of the ring and to a run of the runtime |
| `RuntimeQueue.RingHoldsQueue` | examples/tasking/runtime.hpp:185-262 | in every reachable state the tasks in the ring and in the hands of pushing threads are exactly the queued ones |
| `RuntimeQueue.RingNeverWaits` | examples/tasking/runtime.hpp:185-262 | a queue call in flight can always take its next atomic step |
| `RuntimeQueue.PollAnswered` | examples/tasking/queue.hpp:76-83 | a worker whose try_pop returns goes on with the task the ring delivered, which was queued, or with nothing when every push ticket was matched |
| `RuntimeQueue.TaskPushNeverStuck` | examples/tasking/runtime.hpp:185-258 | in every reachable state with at most as many active tasks as ring slots, the ring is within its size and every waiting push has an empty slot or a pop that empties it |
| `TaskWorker.Runtime.CheckTaskReady` | examples/tasking/runtime.hpp:124-135 | true exactly when every dependency has finished |
| `TaskWorker.Runtime.CheckWaitingTasks` | examples/tasking/runtime.hpp:222-262 | terminates on zero, returns a ready front task, rotates one that is not |
| `TaskWorker.Runtime.OnTaskFinish` | examples/tasking/runtime.hpp:201-212 | one task fewer, its label finished |
| `TaskWorker.RunAll` | examples/tasking/runtime.hpp:222-262 | one worker runs every task once, in dependency order, and stops within n(n+1)/2 + 1 polls |
| `TaskWorker.CompletionNeedsAcyclic` | examples/tasking/runtime.hpp:124-135 | only closed acyclic graphs can be run to the end, so the condition is exact |

## Left out

- C++ memory orders, `spin_loop_pause`, alignment, allocators and sanitizer poisoning: atomics are sequentially consistent steps and memory is arrays or sequences.
- The SSE2 group: the 16-wide group operations follow their specification; only the portable 8-wide word tricks are proved.
- `key_equal` is equality and the hash is a total function of the key; heterogeneous lookup, node handles and iterators of the hash table are not modelled.
- `HashSetRuns.Run`: nothing is promised after a rehash(0) or reserve(0) at an overfull size, because the table is then out of order (`RawHashSet.RawHashSet.Rehash`).
- `parallel_hash_set` partitioning and locking, copy, move, swap and archives (`phmap_dump.h`) of the hash table.
- `AtomicQueue`, `AtomicQueue2`, `AtomicQueueB2` and the single-producer single-consumer shortcuts: sizes that are not a power of two do not survive counter wrap-around, and the state-flag variants repeat the slot protocol.
- B-tree nodes in the tree proofs are values addressed by paths: parent pointers, the cached `rightmost_` and aliasing are not captured there. `BTreeSlots` covers update in place within a node and its parent; a child pointer stands for the subtree it leads to.
- Range erase, hints, multi-containers, three-way comparators and `internal_upper_bound` of the B-tree.
- `TaskWorker.RunAll`: task bodies neither add tasks nor suspend; these are covered by the transition system.
- `TaskOrder.FinishOrderTopological`: dependencies added while a task runs count only from its next dispatch; `TaskOrder.LateDependencyEscapes` shows why.
- Fairness: progress is stated as "some step completes", not as an eventual completion under a scheduler.
- HiCR workers, managers, backends, channels and the other examples.
