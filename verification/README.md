# Verified models of the code in the study notes

The notes quote the hard parts of several real systems: the Zend memory manager and its
deferred signals, an open-addressing hash table, condition-variable protocols, a fixed memory
pool, line-oriented socket input and output, the Internet checksum, a non-blocking connection
scheduler and the memory of Zend's syntax trees. This project states what that code is for and
proves it. `dafny verify dfyconfig.toml` checks everything.

Code that changes state is modelled by classes and loops in the form the notes give it, each
method proved against a specification on plain values; what the code promises over many calls is
proved about those specifications. Threads are modelled as transition systems in which any
enabled step of any thread may come next.

| files | what they model |
|---|---|
| `Words`, `PageMap`, `PageAllocator` | page allocation in one chunk: bit tricks on words, best fit over the 512-page bitmap |
| `HeapSpec`, `PageHeap` | page allocation in the whole heap, on values and over the ring of chunks |
| `SizeClasses`, `SmallSlots` | size classes, and free lists threaded through the slots of runs that page allocation grants |
| `Primes`, `HashTable` | quadratic probing over a prime table, rehashing, the next prime |
| `Signals` | signals deferred while the depth is positive, and signals that arrive while a handler runs |
| `BlockingQueue`, `CountDownLatch` | monitors with spurious wakeups, for any number of threads |
| `FixedPool` | the pool that keeps free slices before used ones, and where in memory its `free` looks for a slice |
| `Bytes`, `LineIO` | buffered and unbuffered `readline`, `writen` |
| `Checksum` | the one's-complement checksum of sections 1 and 2 of RFC 1071 |
| `ConnectionScheduler` | the select loop of the web client |
| `AstMemory` | the arena allocator and the growing list of children |
| `Sequences`, `Totals` | distinct elements and sums, for several of the above |

## What turned out not to hold

- The search of the hash table leaves the table when too many cells are occupied: for every odd
  prime size there are size / 2 + 1 keys that all go into an empty table, after which a search
  leaves it (`HashTable.HalfFullIsTight`). It stays inside exactly when one of its first
  size / 2 + 1 probes stops it, and with at most size / 2 occupied cells one always does.
- `zend_mm_small_size_to_bit` is right exactly for 1 .. 65535, and `zend_mm_small_size_to_bin`,
  which uses it, exactly up to 0x12000; the size classes need 3072.
- `zend_signal_activate` resets the depth without emptying the queue; that keeps the invariant
  exactly when nothing is pending (`SignalSpec.ActivateKeepsInvIff`), and otherwise the next
  signal overtakes the waiting ones (`SignalSpec.ActivateReorders`).
- A signal is lost when it has to wait and the pool is exhausted, and also when it arrives at
  depth 0 while a handler is running, however much room the pool has. A run loses no signal
  exactly when every blocked section fits the pool and nothing arrives during a handler
  (`SignalSpec.LosslessIff`). The second kind of loss is open at an outermost unblock, whose
  drain runs outside any delivery by the kernel; during a delivery the kernel itself holds back
  the signals of `global_sigmask` (lines 96-114 and 301) until the handler returns.
- The 32-bit sum of `in_cksum` cannot overflow exactly for packets of at most 65537 words
  (`Checksum.NoOverflowIff`).
- A word of a packet that checks can change unnoticed, exactly between 0x0000 and 0xffff
  (`Checksum.OneWordChange`).
- With `maxconn` below 1 the scheduler calls `select` on empty sets; that is the only case
  (`ConnectionScheduler.Scheduler.SelectHasWorkIff`).
- The pool's `free` as written frees no slice at all, as long as slices have memory behind their
  headers. `data` is the first member of the slice, so the pointer handed out is the slice's own
  address. For the first slice that is the start of the pool, and the assertion of line 109
  fails; for every other slice line 110 subtracts the header's size from it and gets the address
  of no slice (`PoolLayout.DataFirst`), so that a pool runs dry however much is freed
  (`PoolLayout.DataFirstLeaks`). The slice handed out is freed exactly when the offset of `data`
  is the size of the header and the slice is not one without memory at the end of the pool
  (`PoolLayout.FreesItsSliceIff`). The class `Pool` takes the offset as a parameter.
- Both `readline` functions return `maxlen` when the buffer is full without a newline, although
  they stored one byte less (`LineSpec.OneTooMany`). They return the number of bytes stored
  exactly when there is a newline within the room, or the stream ends before the room is used up,
  and not by an error (`LineSpec.CountsStored`).

## Model

| member | source | states |
|---|---|---|
| `Words.CountTrailingOnes` | php-core-study/zend内存分析第二部分.md:57-93 | the halving steps count the trailing set bits of every 32- or 64-bit word, and give the width for the all-ones word |
| `Words.ClearTrailingOnes` | php-core-study/zend内存分配.md:525-526 | `tmp & (tmp + 1)` clears exactly the trailing ones, bit by bit |
| `Words.FillTrailingZeros` | php-core-study/zend内存分配.md:558-559 | `tmp \| (tmp - 1)` sets exactly the trailing zeros, bit by bit |
| `PageMap.NoFitMeansNoWindow` | php-core-study/zend内存分配.md:516-519 | no maximal run of k pages exactly when no window of k free pages exists anywhere |
| `PageMap.BestFitUnique` | php-core-study/zend内存分配.md:501-561 | the best fit is one definite run: the leftmost of the shortest that fit |
| `PageMap.BestFitPlain` | php-core-study/zend内存分配.md:501-561 | page by page: the run is bounded on both sides, and every other run that is long enough is longer, or as long and further right |
| `PageMap.TooFewFreeNoFit` | php-core-study/zend内存分配.md:450-451 | skipping a chunk with too few free pages never skips a fit |
| `PageMap.FreeCountAllocate` | php-core-study/zend内存分配.md:639-640 | marking a free window lowers the number of free pages by its length |
| `ChunkPages.FindZero` | php-core-study/zend内存分配.md:523-526 | the word step lands on the first free page from pos on, and clears the word up to it |
| `ChunkPages.FindOne` | php-core-study/zend内存分配.md:548-559 | the word step lands on the end of a maximal free run, and fills the word up to it |
| `ChunkPages.SkipAllocated` | php-core-study/zend内存分配.md:510-522 | only allocated pages are skipped, and the map ends with an allocated page when the loop leaves it |
| `ChunkPages.SkipFree` | php-core-study/zend内存分配.md:527-547 | only free pages are skipped; the `free_tail` exit is taken only when no allocated page follows |
| `ChunkPages.NextRun` | php-core-study/zend内存分配.md:509-549 | one round finds the first maximal free run from the current page on |
| `ChunkPages.BestFitSearch` | php-core-study/zend内存分配.md:500-561 | the word-by-word search returns the leftmost best fit, says not found exactly when there is none, and leaves a correct `free_tail` hint |
| `ChunkPages.SetPage` | php-core-study/zend内存分配.md:640 | setting one bit allocates that page and changes no other |
| `ChunkPages.Chunk.SetRange` | php-core-study/zend内存分配.md:640 | the range is allocated, every other page stays as it was |
| `ChunkPages.Chunk.BestFit` | php-core-study/zend内存分配.md:500-561 | on a chunk the search changes nothing but the hint, and keeps the chunk's invariant |
| `ChunkPages.Chunk.Take` | php-core-study/zend内存分配.md:638-645 | marking a free run keeps: page 0 taken, `free_pages` the number of zero bits, everything from `free_tail` on free |
| `ChunkPages.Chunk.MarkSmall` | php-core-study/zend内存分配.md:395-403 | the first page of a small run gets SRUN, the others NRUN with their index, and every other entry stays |
| `ChunkPages.LeadsBack` | php-core-study/zend内存分配.md:395-403 | every entry of a small run tells the bin and leads back to the first page |
| `ChunkPages.Chunk.constructor` | php-core-study/zend内存分配.md:664-676 | a fresh chunk has one page taken, 511 free, and the tail at 1 |
| `ChunkPages.Chunk.Reset` | php-core-study/zend内存分配.md:618-620 | a chunk initialised again is a fresh chunk, whatever it held |
| `HeapSpec.MovedToFrontSame` | php-core-study/zend内存分配.md:629-637 | the move to the front keeps the same chunks, with the main chunk first |
| `HeapSpec.ServesUnique` | php-core-study/zend内存分配.md:442-646 | whether a request is refused, which page of which chunk it gets and what the heap is afterwards are determined, up to the address of a chunk the system gives |
| `HeapSpec.RefusedIff` | php-core-study/zend内存分配.md:563-596 | a request is refused exactly when no chunk has a run for it, none is cached, and the system has none to give or one more would exceed the limit |
| `HeapSpec.LimitKept` | php-core-study/zend内存分配.md:569-613 | `real_size` counts 2 MB for every chunk, and without overflow never exceeds the limit |
| `HeapSpec.RunLimit` | php-core-study/zend内存分配.md:569-613 | so over any run of requests |
| `HeapSpec.ServedPlain` | php-core-study/zend内存分配.md:445-645 | the first chunk with a run for the request gives its best fit; exactly these pages and one map entry change; the chunk comes second in the ring exactly for more than two steps and fewer than eight pages |
| `HeapSpec.GrownPlain` | php-core-study/zend内存分配.md:563-645 | with no such chunk a cached chunk, or else one from the system, gives its pages from page 1 on, under the same condition for its place |
| `HeapSpec.NotedPlain` | php-core-study/zend内存分配.md:393-403 | the map of the chunk says SRUN for the first page and NRUN with the distance for the others, and nothing else changes |
| `HeapSpec.ServesKeepsInv` | php-core-study/zend内存分配.md:442-646 | no request brings a chunk into the heap twice, and page 0 of every chunk stays taken |
| `HeapSpec.ServesApart` | php-core-study/zend内存分配.md:442-646 | a request is granted pages apart from any earlier grant, in the same chunk or another, and both stay marked |
| `HeapSpec.RunApart` | php-core-study/zend内存分配.md:442-646 | over any run of requests, the heap growing as it must, no page is granted twice, and every granted page is still marked at the end |
| `PageHeap.WithoutRing` | php-core-study/zend内存分配.md:631-632 | the two link writes leave a doubly linked ring of all chunks but one |
| `PageHeap.Splice` | php-core-study/zend内存分配.md:629-637 | the six link writes leave a doubly linked ring with the chunk just behind the main chunk |
| `PageHeap.LinkLast` | php-core-study/zend内存分配.md:618 | a new chunk goes last, just before the main chunk |
| `PageHeap.Heap.FindFit` | php-core-study/zend内存分配.md:445-626 | the walk visits each chunk of the ring at most once, stops at the first with a fit, and gives up exactly at the last chunk, when none has one |
| `PageHeap.Heap.NewChunk` | php-core-study/zend内存分配.md:565-617 | a cached chunk is preferred; otherwise limit and system decide; null exactly when none can be had; sizes, counts and peaks are accounted for |
| `PageHeap.Heap.Finish` | php-core-study/zend内存分配.md:628-645 | the chunk moves to the front exactly for more than two steps and fewer than eight pages; the granted pages and their entry in the page map are marked, and nothing else changes in any chunk |
| `PageHeap.Heap.Grow` | php-core-study/zend内存分配.md:563-645 | from `get_chunk` on: the heap with one more chunk gives the pages from page 1 on, or stays as it was |
| `PageHeap.PointerParts` | php-core-study/zend内存分配.md:393-394 | base and offset of a pointer into a chunk are the chunk's address and the page |
| `PageHeap.Heap.NoteSmall` | php-core-study/zend内存分配.md:393-403 | the pages of a small run get their entries in the map of the chunk the pointer lies in, and nothing else changes |
| `PageHeap.Heap.AllocPages` | php-core-study/zend内存分配.md:442-646 | the first chunk of the ring with a fit gives its best fit, with its map entry; the ring grows only when no chunk has one; null exactly when no chunk has a run, none is cached, and the system has none to give or the limit forbids it; the limit is never exceeded; the whole new heap is stated |
| `PageHeap.AllocRun` | php-core-study/zend内存分配.md:442-646 | over any run of requests every pointer and every state of the heap is the one the specification of its request allows |
| `PageHeap.AllocAll` | php-core-study/zend内存分配.md:442-646 | any run of requests gets one reply for each, as specified; no page is granted twice, and every granted page is still marked at the end |
| `SizeClasses.SmallSizeToBit` | php-core-study/zend内存分配.md:228-249 | the result is the bit length exactly for sizes from 1 to 0xffff |
| `SizeClasses.SmallSizeToBin` | php-core-study/zend内存分配.md:195-221 | the shift arithmetic computes the bin that the lemmas below are about, exactly for sizes up to 0x12000 |
| `SizeClasses.BeyondBits` | php-core-study/zend内存分配.md:213-249 | above 65536 the bit count is stuck at 16, and the bin is still right exactly in the first size class |
| `SizeClasses.BinIsLeast` | php-core-study/zend内存分配.md:207-219 | a request goes to bin b or below exactly when b's elements hold it, for sizes without bound |
| `SizeClasses.BinMonotone` | php-core-study/zend内存分配.md:207-219 | a larger request never goes to a smaller bin |
| `SizeClasses.BinOfClass` | php-core-study/zend内存分配.md:207-219 | every class is the bin of its own size |
| `SizeClasses.LargeClass` | php-core-study/zend内存分配.md:213-218 | above 64 the class is ((t1 >> t2) + 1) << t2, the class before it is (t1 >> t2) << t2, and the request lies between the two |
| `SizeClasses.WasteBound` | php-core-study/zend内存分配.md:213-218 | above 64 less than a quarter of the request is wasted |
| `SizeClasses.TableAgrees` | php-core-study/zend内存分析第二部分.md:149-179 | the size column of the table is the formula's class, for all 30 bins |
| `SizeClasses.TableFillsPages` | php-core-study/zend内存分析第二部分.md:149-179 | the elements of a bin fit in its pages, and one more would not |
| `SizeClasses.SmallRequestFits` | php-core-study/zend内存分配.md:195-221 | every request up to 3072 bytes goes to the first bin of the table that holds it |
| `SmallSlots.SmallHeap.Thread` | php-core-study/zend内存分配.md:405-420 | the do-while loop links elements 1 to the last in address order, ends with NULL, and writes nowhere else |
| `SmallSlots.SmallHeap.GetRun` | php-core-study/zend内存分配.md:376-403 | pages for the run as page allocation grants them, apart from the pages of every earlier run, with their entries in the page map |
| `SmallSlots.SmallHeap.CutRun` | php-core-study/zend内存分配.md:405-429 | element 0 is handed out, the others become the bin's free list, and all other bins stay as they are |
| `SmallSlots.SmallHeap.AllocSmallSlow` | php-core-study/zend内存分配.md:376-430 | grant, page map entries, first slot and free list as specified; NULL, and no page, slot or list changed, exactly when page allocation refuses |
| `SmallSlots.SmallHeap.AllocSmall` | php-core-study/zend内存分配.md:139-157 | the slot handed out is the bin's first free one, or the first of a new run; nobody held it; NULL exactly when the list is empty and page allocation must refuse; every slot stays either handed out or in the free list, never both |
| `SmallSlots.FastPlain` | php-core-study/zend内存分配.md:139-157 | the fast path takes the first slot of the list and touches neither the heap nor another bin |
| `SmallSlots.SlowPlain` | php-core-study/zend内存分配.md:376-430 | the slow path asks for the pages of the bin, hands out the address of the first, lists the others in steps of the element size, and fills the page map |
| `SlotRuns.SlotAt` | php-core-study/zend内存分配.md:405-420 | slot i of a run is i elements behind its start, and there are as many as the table says |
| `SmallSlots.SmallHeap.UserWrites` | php-core-study/zend内存分配.md:150-153 | a user who writes any byte of a slot handed out, and so changes every word that overlaps it, leaves every free list intact |
| `SmallSlots.SmallHeap.UsedApart` | php-core-study/zend内存分配.md:139-157 | two slots that are handed out share no byte, and each lies inside a run of its bin |
| `SmallSlots.RunsDisjoint` | php-core-study/zend内存分配.md:382-386 | runs on pages that were granted apart share no byte |
| `SmallSlots.AllocSlots` | php-core-study/zend内存分配.md:139-157 | over any run of small allocations, fast and slow, from any bins, every result and state is the specified one, and no slot is handed out twice |
| `SmallSlots.AllocSlotsApart` | php-core-study/zend内存分配.md:139-157 | so in any such run no byte is handed out twice |
| `SlotRuns.SlotsShareNothing` | php-core-study/zend内存分配.md:405-429 | two different slots, of the same or of different bins, share no byte |
| `SlotRuns.SlotInside` | php-core-study/zend内存分配.md:405-417 | every slot lies inside its run of pages |
| `SlotRuns.BinSlotsDistinct` | php-core-study/zend内存分配.md:405-429 | no address is a slot twice |
| `Primes.PrimeDividesFactor` | algorithm-study/散列.md:192-200 | a prime that divides a product and not the smaller factor divides the other one |
| `Primes.PrimeAbove` | algorithm-study/散列.md:134-141 | above every number there is a prime, so the search for the next one ends |
| `Primes.TrialDivision` | algorithm-study/散列.md:136-139 | odd divisors up to the root decide primality of odd numbers |
| `Primes.HasOddDivisor` | algorithm-study/散列.md:136-138 | the inner loop stops early exactly for composite numbers |
| `Primes.NextPrime` | algorithm-study/散列.md:127-142 | the result is prime, at least N, and no number from N up to it is prime |
| `HashTable.NextProbe` | algorithm-study/散列.md:196-198 | adding 2i - 1 and subtracting the size at most once goes from probe i - 1 to probe i, (h + i * i) mod size, whenever it stays inside the table, and up to probe size / 2 it always does |
| `HashTable.ProbeIs` | algorithm-study/散列.md:146-198 | probe i of any key is cell (key + i * i) mod size, and the first one key mod size |
| `HashTable.ProbesDistinct` | algorithm-study/散列.md:192-199 | for an odd prime size the first size / 2 + 1 probes are pairwise distinct |
| `HashTable.OverrunIff` | algorithm-study/散列.md:192-199 | the search leaves the table exactly when none of these probes stops it |
| `HashTable.LookupIs` | algorithm-study/散列.md:184-201 | the search ends at the first of these probes whose cell is empty or holds the key, deleted or not |
| `HashTable.OverrunIs` | algorithm-study/散列.md:184-201 | it leaves the table exactly when none of their cells is empty or holds the key |
| `HashTable.EmptyLookup` | algorithm-study/散列.md:184-201 | in an empty table every search ends at key mod size |
| `HashTable.HalfEmptyFinds` | algorithm-study/散列.md:184-201 | with at most half the cells occupied every search ends inside the table |
| `HashTable.HalfFullIsTight` | algorithm-study/散列.md:184-201 | for every odd prime size there are size / 2 + 1 keys that all go into an empty table, after which a search leaves the table |
| `HashTable.Membership` | algorithm-study/散列.md:184-201 | a key is an element exactly when its search ends at a legitimate cell |
| `HashTable.InsertAdds` | algorithm-study/散列.md:205-218 | an insertion adds exactly its key, and every other element is still where its search ends |
| `HashTable.HalfFullIsSafe` | algorithm-study/散列.md:205-218 | insertions in any order into any well-formed table all succeed while at most half of it gets occupied, and add exactly their keys |
| `HashTable.EmptyIsSafe` | algorithm-study/散列.md:205-218 | size / 2 insertions into an empty table all succeed, and the table then holds exactly these keys |
| `HashTable.Table.Find` | algorithm-study/散列.md:184-201 | on every table the loop ends, and computes the specified search, the way it leaves the table included |
| `HashTable.Table.Insert` | algorithm-study/散列.md:205-218 | the cell where the search ends holds the key afterwards, no other cell changes, and a search that left the table is reported and changes nothing |
| `HashTable.Table.Rehash` | algorithm-study/散列.md:222-242 | for every table, well formed or not and however full, no search leaves the new table, which has exactly the old elements, is at most half full, and has the least prime size from twice the old one on |
| `HashTable.Table.InitializeTable` | algorithm-study/散列.md:152-180 | null exactly below 10 cells; otherwise an empty table of the least prime size that is large enough |
| `SignalQueue.Globals.constructor` | php-core-study/cgi部分php源代码剖析.md:126-138 | the whole pool is on the free list and nothing is pending |
| `SignalQueue.Globals.BlockInterruptions` | php-core-study/cgi部分php源代码剖析.md:158 | a step of the specified queue that runs no handler |
| `SignalQueue.Globals.UnblockInterruptions` | php-core-study/cgi部分php源代码剖析.md:159 | a step of the specified queue; the test on the old depth decides whether the queue is drained |
| `SignalQueue.Globals.HandlerDefer` | php-core-study/cgi部分php源代码剖析.md:340-405 | delays, drains or runs as the specified queue does, signals that arrive meanwhile included, and forgets a signal that arrives at depth 0 while a handler runs |
| `SignalQueue.Globals.Drain` | php-core-study/cgi部分php源代码剖析.md:363-373 | every pending signal is handled once, in order, and its node goes back to the free list, with `ptail` left stale, whatever arrives meanwhile |
| `SignalQueue.Globals.CallHandler` | php-core-study/cgi部分php源代码剖析.md:359-361 | what arrives during a handler is forgotten when the queue is active, and handled at once when it is not; the queue itself stays as it is |
| `SignalQueue.Globals.Delay` | php-core-study/cgi部分php源代码剖析.md:376-392 | the signal goes to the end of the queue, or is forgotten when no node is free |
| `SignalQueue.Globals.Activate` | php-core-study/cgi部分php源代码剖析.md:264-277 | activation sets `active`, resets the depth and leaves the queue alone |
| `SignalSpec.UnblockTest` | php-core-study/cgi部分php源代码剖析.md:159 | `depth-- == blocked` fires exactly at the outermost unblock with something pending |
| `SignalSpec.BalancedIsLegal` | php-core-study/cgi部分php源代码剖析.md:158-159 | when nothing arrives during a handler, a run is possible exactly when its sections are balanced: the drain is never called with nothing pending |
| `SignalSpec.InOrder` | php-core-study/cgi部分php源代码剖析.md:340-405 | in every run the handled signals followed by the waiting ones are the accepted arrivals, in arrival order |
| `SignalSpec.AllDelivered` | php-core-study/cgi部分php源代码剖析.md:675 | when all sections are closed every accepted signal has been handled |
| `SignalSpec.NoHandlerWhileBlocked` | php-core-study/cgi部分php源代码剖析.md:675 | no handler runs while the depth stays positive |
| `SignalSpec.LosslessIff` | php-core-study/cgi部分php源代码剖析.md:379-392 | no signal of a run is lost exactly when every blocked section fits the pool and none arrives while a handler is running |
| `SignalSpec.InactiveHandlesAll` | php-core-study/cgi部分php源代码剖析.md:398-401 | before activation every signal is handled at once, in order, however deep the sections are nested |
| `SignalSpec.ActivateWorks` | php-core-study/cgi部分php源代码剖析.md:264-277 | after activation with nothing pending a signal is handled at once, and in a section waits until its end |
| `SignalSpec.ActivateKeepsInvIff` | php-core-study/cgi部分php源代码剖析.md:264-277 | activation keeps the invariant exactly when nothing is pending |
| `SignalSpec.ActivateReorders` | php-core-study/cgi部分php源代码剖析.md:264-277 | otherwise the next signal is handled before those that were waiting |
| `BlockingQueue.InvStep` | mutli-thread-study/doc/2/queue.cc:126-145 | every step of every thread, spurious wakeups included, keeps mutual exclusion, the contents and the wakeup count |
| `BlockingQueue.RunSafety` | mutli-thread-study/doc/2/queue.cc:126-145 | in every run what was pushed is what was popped followed by what is queued, `front` and `pop_front` see a non-empty queue, and one thread at most is inside |
| `BlockingQueue.RunHistories` | mutli-thread-study/doc/2/queue.cc:126-145 | what was pushed are the arguments of the calls of `enqueue`, and what was popped are the results of the calls of `dequeue`, but for a call still inside |
| `BlockingQueue.FirstInFirstOut` | mutli-thread-study/doc/2/queue.cc:126-145 | in every run consumers get what producers gave, in order, from the first on; once nobody is inside the rest is what is queued |
| `BlockingQueue.StepMoves` | mutli-thread-study/doc/2/queue.cc:126-145 | a step moves its own thread only, and a notification the sleepers it wakes |
| `BlockingQueue.NoLostWakeup` | mutli-thread-study/doc/2/queue.cc:126-145 | in every run a sleeper beside a queued item means that a consumer is under way or a notification is coming |
| `BlockingQueue.Progress` | mutli-thread-study/doc/2/queue.cc:126-145 | unless all threads are outside or asleep some call can go on |
| `BlockingQueue.StepsDecrease` | mutli-thread-study/doc/2/queue.cc:126-145 | every step of a call in progress lowers a measure, so such steps cannot go on for ever |
| `BlockingQueue.Settle` | mutli-thread-study/doc/2/queue.cc:126-145 | from every reachable state the calls in progress can finish, and then nobody sleeps beside a queued item |
| `CountDownLatch.InvStep` | mutli-thread-study/doc/2/countDownLatch.cc:126-162 | every step of every thread keeps the latch's invariant |
| `CountDownLatch.PassesOnlyWhenDown` | mutli-thread-study/doc/2/countDownLatch.cc:131-138 | in every run a thread passes only after as many calls of `countDOwn` lowered the count as the latch was created with |
| `CountDownLatch.RunLowered` | mutli-thread-study/doc/2/countDownLatch.cc:140-150 | the count is the initial one less the number of times it was lowered in the run |
| `CountDownLatch.RunCalls` | mutli-thread-study/doc/2/countDownLatch.cc:140-150 | every call of `countDOwn` lowers the count once, between its beginning and its end |
| `CountDownLatch.StepMoves` | mutli-thread-study/doc/2/countDownLatch.cc:126-162 | a step moves its own thread only, and wakes sleepers, all of them, exactly when it finds the count at 0 |
| `CountDownLatch.NobodyForgotten` | mutli-thread-study/doc/2/countDownLatch.cc:140-150 | in every run, once the count is down and the mutex is free, no thread is asleep |
| `CountDownLatch.Progress` | mutli-thread-study/doc/2/countDownLatch.cc:126-162 | unless all threads are outside or asleep some call can go on |
| `CountDownLatch.StepsDecrease` | mutli-thread-study/doc/2/countDownLatch.cc:126-162 | every step of a call in progress lowers a measure, the broadcast included |
| `CountDownLatch.Settle` | mutli-thread-study/doc/2/countDownLatch.cc:126-162 | from every reachable state the calls in progress can finish, and then, unless the count is still positive, every thread is through |
| `PoolSpec.AllocSpec` | unix-network-programming/ourc/pool.c:76-101 | the invariant and the slices are kept; the first slice, which nobody has, is handed out and moves to the end; failure exactly when all are handed out |
| `PoolSpec.FreeSpec` | unix-network-programming/ourc/pool.c:103-137 | freeing any slice, handed out or not, keeps the invariant and the slices and takes just that slice back |
| `PoolSpec.FreeOrder` | unix-network-programming/ourc/pool.c:112-136 | freeing moves the slice to the front of the others, which keep their order |
| `PoolSpec.FreeTwice` | unix-network-programming/ourc/pool.c:112-122 | a second free of the same slice changes nothing |
| `PoolSpec.FreeUndoesAlloc` | unix-network-programming/ourc/pool.c:76-137 | freeing the slice just handed out restores the order of the slices and who has them |
| `PoolSpec.AllocAfterRun` | unix-network-programming/ourc/pool.c:76-137 | after every run of allocations and frees, failure still means exactly that every slice is handed out |
| `PoolSpec.AllocManySpec` | unix-network-programming/ourc/pool.c:76-101 | allocations in a row hand out the free slices once each, in list order |
| `PoolLayout.MemorySize` | unix-network-programming/ourc/pool.c:48 | the slices take up exactly the bytes that are asked for |
| `PoolLayout.AssertionFailsIff` | unix-network-programming/ourc/pool.c:109 | the assertion fails for a pointer handed out exactly for the first slice with data in front, or for the last one without memory behind its header |
| `PoolLayout.FoundIff` | unix-network-programming/ourc/pool.c:110 | the subtraction finds the slice itself exactly when data starts where the header ends, and another slice only when slices are headers alone with data in front |
| `PoolLayout.OutcomeOfGiven` | unix-network-programming/ourc/pool.c:103-110 | what `free` does with each pointer handed out, for every layout: abort, go astray, or free which slice |
| `PoolLayout.FreesItsSliceIff` | unix-network-programming/ourc/pool.c:103-110 | the slice handed out is the one freed exactly when data starts where the header ends, and it is not the last slice of a pool without memory |
| `PoolLayout.DataFirst` | unix-network-programming/ourc/pool.c:28-35 | with data as the first member no pointer handed out leads to any slice of the pool |
| `PoolLayout.GivenBack` | unix-network-programming/ourc/pool.c:76-137 | giving a pointer back undoes the allocation under exactly that condition, and with data first does nothing |
| `PoolLayout.DataFirstLeaks` | unix-network-programming/ourc/pool.c:76-137 | with data first any run of allocations and frees does what its allocations alone do |
| `FixedPool.Pool.FreeSlice` | unix-network-programming/ourc/pool.c:112-136 | the pointer code of free does what the specification does, for any slice, from any position in the list |
| `FixedPool.Pool.Alloc` | unix-network-programming/ourc/pool.c:76-101 | the pointer code does what the specification does, on a list linked both ways with right `head`, `tail`, `lock` and `slice_use`, and returns the address of the slice's data, or NULL |
| `FixedPool.Pool.Free` | unix-network-programming/ourc/pool.c:103-137 | the assertion and the subtraction of lines 109-110 decide as specified, for any pointer; where they lead to a slice, it is freed as specified, from any position in the list, and otherwise nothing changes |
| `LineSpec.LineEndStops` | unix-network-programming/ourc/common.h:36-61 | a line ends behind the first newline, or for lack of room or of bytes, and never before |
| `LineSpec.CountsStored` | unix-network-programming/ourc/common.h:36-65 | the value returned is the number of bytes stored exactly when a newline is within the room, or the stream ends before the room is used up, and not by an error |
| `LineSpec.OneTooMany` | unix-network-programming/ourc/common.h:36-65 | it is one more exactly when the room fills up without a newline, and -1 exactly when an error comes before either |
| `LineSpec.BufferIs` | unix-network-programming/ourc/common.h:55-65 | byte by byte: what was stored, a zero unless the call fails, and what was there before |
| `LineSpec.LinesConserve` | unix-network-programming/ourc/common.h:27-65 | what any number of calls stored, whatever their lengths, is a prefix of the stream: nothing lost, nothing doubled |
| `LineSpec.RoundTrip` | unix-network-programming/ourc/common.h:27-65 | newline-terminated lines that fit come back unchanged, in order, one per call, with their lengths |
| `LineSpec.FittingAll` | unix-network-programming/ourc/client2.c:9-30 | all lines can be sent exactly when there is room for all their bytes |
| `LineSpec.FittingIff` | unix-network-programming/ourc/client2.c:9-30 | the first n lines can be sent exactly when there is room for their bytes |
| `LineIO.ReadLineUnbuffered` | unix-network-programming/ourc/common.h:27-65 | for every stream and every pattern of interrupts: the bytes of one line, a terminating zero unless it fails, the rest unread |
| `LineIO.Rline.MyRead` | mutli-thread-study/doc/4/c++多线程系统编程精要.md:112-134 | delivers the next byte of buffered ++ unread, or the end or error of the stream when there is none |
| `LineIO.Rline.ReadLine` | mutli-thread-study/doc/4/c++多线程系统编程精要.md:136-175 | the same result and buffer as the unbuffered one, however `read` cuts the stream; stored ++ buffered ++ unread is the stream |
| `LineIO.BothRead` | mutli-thread-study/doc/4/c++多线程系统编程精要.md:136-175 | one call of each reader: the same value, the same buffer, the same bytes consumed, all three those of the line |
| `LineIO.AllRead` | mutli-thread-study/doc/4/c++多线程系统编程精要.md:112-175 | the same for any sequence of calls, one result for each |
| `LineIO.Agree` | mutli-thread-study/doc/4/c++多线程系统编程精要.md:112-175 | over any sequence of calls both readers return the values and leave the buffers that the lines of the stream determine, whatever chunks and interrupts each meets |
| `LineIO.Writen` | unix-network-programming/ourc/client2.c:9-30 | all n bytes arrive, in order, and n is returned exactly when the descriptor has room for them, under every pattern of short writes and interrupts; otherwise what there is room for arrives, and -1 |
| `LineIO.SendLines` | unix-network-programming/ourc/client2.c:9-30 | exactly the lines there is room for are sent, and of the next one what fits |
| `LineIO.ReadLines` | mutli-thread-study/doc/4/c++多线程系统编程精要.md:136-175 | lines that fit the buffer and come next are read one per call, unchanged, and nothing behind them is taken |
| `LineIO.SendAndRead` | unix-network-programming/ourc/client2.c:9-30 | lines that fit, sent with `writen` and read with the buffered `readline`, come back unchanged and in order: all of them if the descriptor takes all their bytes, otherwise as many as it takes |
| `Checksum.NoOverflowIff` | unix-network-programming/ping.md:390-404 | the 32-bit sum of n words cannot wrap exactly for n up to 65537 |
| `Checksum.FoldTwice` | unix-network-programming/ping.md:406-409 | two foldings of any 32-bit sum give its one's-complement value |
| `Checksum.InCksum` | unix-network-programming/ping.md:388-410 | the loop computes the complement of the folded, wrapped sum of the words; up to 65537 words that is the checksum of the bytes as one number, on either byte order, an odd last byte padded with zero |
| `Checksum.CksumUnique` | unix-network-programming/ping.md:388-410 | a packet has one checksum only: what makes its number a multiple of 65535, and 65535 itself only for zeros |
| `Checksum.CksumOfNumber` | unix-network-programming/ping.md:388-410 | the checksum by words is that of the number the bytes are, base 256 |
| `Checksum.StoredCksum` | unix-network-programming/ping.md:388-410 | and so are the two bytes that either byte order stores |
| `Checksum.AnyOrder` | unix-network-programming/ping.md:395-399 | the checksum does not depend on the order of the words |
| `Checksum.SwapCksum` | unix-network-programming/ping.md:388-410 | swapping the bytes of all words swaps the bytes of the checksum |
| `Checksum.ByteOrderIndependent` | unix-network-programming/ping.md:388-410 | machines of either byte order put the same two bytes into the packet |
| `Checksum.ChecksIff` | unix-network-programming/ping.md:406-409 | a packet checks exactly when its sum is a positive multiple of 65535 |
| `Checksum.OneWordChange` | unix-network-programming/ping.md:388-410 | a change of one word goes unnoticed exactly when it trades 0x0000 for 0xffff, or back with something else left |
| `Checksum.OneByteChange` | unix-network-programming/ping.md:388-410 | a change of any one byte of a packet that checks is noticed |
| `Checksum.StoredChecks` | unix-network-programming/ping.md:367-368 | storing the checksum in a zeroed word makes the checksum of the whole 0 |
| `Checksum.SendV4` | unix-network-programming/ping.md:349-371 | the packet that is sent has type 8, code 0, identifier, sequence number and data in their places and a checksum that checks, and the rest of the buffer is untouched |
| `ConnectionScheduler.CountMove` | unix-network-programming/非阻塞套接字.md:257-304 | how one file's change of state changes the three counts |
| `ConnectionScheduler.Scheduler.StartConnect` | unix-network-programming/非阻塞套接字.md:381-413 | starting a file watches its new descriptor both ways, below `maxfd + 1`, and keeps counters, flags and watched sets consistent |
| `ConnectionScheduler.Scheduler.FillConnections` | unix-network-programming/非阻塞套接字.md:229-248 | the "nothing found" exit cannot be reached; the unstarted files of lowest index are started, nothing else changes, and afterwards all connections are in use or no file is left to start |
| `ConnectionScheduler.Scheduler.HandleReady` | unix-network-programming/非阻塞套接字.md:257-304 | exactly the files whose descriptor was reported move on by one step, and a round with anything ready lowers the work that is left |
| `ConnectionScheduler.Scheduler.SelectHasWorkIff` | unix-network-programming/非阻塞套接字.md:250-254 | `select`, called with `maxfd + 1`, has a descriptor to wait for exactly when `maxconn` is at least 1 |
| `ConnectionScheduler.Scheduler.Run` | unix-network-programming/非阻塞套接字.md:226-305 | the loop ends with every file done |
| `Arena.Arenas.Alloc` | php-core-study/zend源码阅读笔记.md:187-211 | every block is 8-aligned and inside its arena, no two blocks ever handed out overlap, and a new arena is made, in front of the others, exactly when the current one has no room |
| `Arena.Arenas.ArenaSize` | php-core-study/zend源码阅读笔记.md:197-200 | a replacement arena is as large as the one before, or just holds the request, whichever is larger |
| `Arena.PlaceBlock` | php-core-study/zend源码阅读笔记.md:194-195 | a block at the start of an arena's free space overlaps no block of any arena |
| `AstList.RoomStep` | php-core-study/zend源码阅读笔记.md:262-265 | the room is used up exactly at the powers of two from 4 on, and doubling is what one more child needs |
| `AstList.PowerOfTwoIff` | php-core-study/zend源码阅读笔记.md:262 | `is_power_of_two`, taken to be that n & (n - 1) is 0, holds exactly for the powers of two |
| `AstList.List.Add` | php-core-study/zend源码阅读笔记.md:260-268 | there is always a free slot, earlier children keep their order, the room doubles exactly at the powers of two from 4, and n additions copy fewer than 2n children |

## Left out

Page allocation
- PageHeap.Heap.NewChunk: `zend_mm_gc` is taken to reclaim nothing; its body is not part of the notes, so the retries after it are not modelled.
- PageHeap.Heap.AllocPages: the same retries are missing; and a chunk from the system comes at any aligned address where the heap has none.
- `zend_mm_chunk_init`, `zend_mm_bitset_set_range` and `zend_ulong_ntz` are not part of the notes; they are modelled by their effect (the first as linking the chunk last and clearing it).
- Requests of 0 pages and of 512 pages or more: the callers never make them (line 31 bounds large requests below a chunk).
- The first-fit branch between `#if 0` and `#endif`, debug information, error messages, the statistics other than `real_size`, `real_peak` and the chunk counts, and the fields `num` and `heap` of a chunk.
- Freeing pages is not part of the notes; allocation is proved from every state that satisfies the invariant, so from every state that correct freeing could leave.
- ChunkPages.BestFitSearch: reads the bitmap as a sequence taken from the array before the search, since nothing writes it meanwhile.

Small allocation
- SizeClasses.SmallSizeToBin: sizes above 2^31, whose conversion to `int` is left to the compiler; all callers stay at or below 3072.
- Freeing small slots is not part of the notes.
- The builtin and Windows variants of the bit counts, and the `#if 0` variant of the bin formula.

Hash table
- Negative keys, which would index in front of the table, overflow of `int`, and failure of `malloc`.
- `Rehash` leaks the old header; memory that is not freed is not modelled. A table of fewer than 5 cells, which `InitializeTable` never makes, is refused by `Rehash` here, where the code would go on with the null pointer.
- HashTable.Table.Insert: gives up where the code would write behind the table, and says so in its result.

Signals
- `zend_signal_handler_unblock` is not part of the notes; it is taken to pass the head of the queue to `zend_signal_handler_defer` at depth 0, as line 675 of the same file describes.
- Handlers do not touch the globals themselves. Signals arrive between operations and while a handler runs, any number of them and nested, not between two statements of the bookkeeping: `sigaction` masks the signals of `global_sigmask` from the start of a delivery to its end (line 301), and whether the unblock helper does is not shown. The same mask means that of the runs covered here those in which something arrives during an `Arrive` need a signal outside that mask; during an `Unblock` any signal can.
- The thread-safe build, deactivation and registering handlers are not modelled. The pool may have any positive number of nodes.

Threads
- The error results of the pthread calls, destruction, and the main programs. Fairness of the scheduler is not assumed; progress is stated as steps that can be taken and a measure they lower.

Fixed pool
- Three lines that do not compile are read as `object->head` (line 80), `slice->lock == 0` (line 81) and `slice_use++` (line 85).
- FixedPool.Pool.Free: where line 110 leads to no slice, the code goes on with whatever memory is there; the model gives up and says so. Slices are taken to lie one behind the other in the memory of line 48.
- `swFixedPool_init` is not part of the notes; the pool starts with all slices linked and free, and has at least two, since allocation reads `next->pre`. The bytes of the memory, sharing and destruction are not modelled.

Input and output
- `read`, `write` and `select` choose freely among the results they may give. A hard error of `read` comes only at the end of the stream, one of `write`, or a count of 0, only when the descriptor has taken all it takes, and interrupts come finitely often.
- LineIO.ReadLineUnbuffered: a call with `maxlen` 0 writes behind the buffer and is excluded; the same holds for `LineIO.Rline.ReadLine`.
- The per-thread key is modelled as one buffer object used with one descriptor.

Checksum
- The filling of the data with a pattern and a time stamp (any data bytes are allowed), and sending the packet.

Scheduler
- Resolving, connecting and reading in detail: a failing `connect` or `getsockopt` ends the program there. The read loop goes round until the end of file, on negative results too (lines 286-297), and is taken to get there. The home page download before the loop is not modelled.

Syntax trees
- Arena.Arenas.Alloc: overflow of the size computations and failure of `emalloc`; the address of a new arena is a parameter.
- `is_power_of_two` is not part of the notes; it is modelled by the usual bit test.
- The other functions on syntax trees, which build nodes from their arguments.
