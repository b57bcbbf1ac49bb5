# A verified model of sgc

sgc is a mark-sweep garbage collector for C and C++. Its objects have four colours (white,
gray, black and red, the last for objects that the program freed itself); they live on
intrusive circular lists, words are scanned conservatively, and memory comes from a
segregated-fit allocator of its own. This project models the collector, the allocator and the
concurrent parts, and proves what they are for.

The files follow the parts of the program:

- `DList.dfy`: the object header and the circular doubly linked lists, rewired in place.
- `SizeClasses.dfy`, `Carving.dfy`, `Interval.dfy`, `AreaHeap.dfy`, `MemHeap.dfy`, `VarHeap.dfy`,
  `Layout.dfy`, `Allocator.dfy`: the allocator, from the size table to the address test that
  decides whether a word is an object.
- `MarkSpec.dfy`: what one cycle computes, as functions on the two lists and the colours, and
  why that is exactly the set of reachable objects. It is generic in the identity of objects.
- `Words.dfy`, `Sweeping.dfy`, `Collector.dfy`: the sequential collector, which walks, unlinks,
  relinks and sweeps the real nodes, proved equal to `MarkSpec.dfy`. `WordPaths.dfy`: what a
  cycle keeps, said of the bytes of the objects.
- `Objects.dfy`: allocation, freeing, resizing and the write barriers.
- `Handles.dfy`: the table of root handles. `RootFaults.dfy`: when it makes a cycle fail.
- `Clearing.dfy`: what `SGC_ZERO` promises of a block that is used again.
- `Fifo.dfy`, `Messages.dfy`: the two-stack queue and the message pool.
- `Incremental.dfy`: the collector and the threads of the threaded build, interleaved, and the
  invariant of every step. `Interleavings.dfy`: what follows for whole runs. `Garbage.dfy`: what
  one cycle sweeps. `Exposure.dfy`: when a missing message, a resize or a late free loses an
  object. `LosingRuns.dfy`: runs from the start of the program that lose one.
- `LowBlocks.dfy`: what happens to an object below the first block.
- `Handshake.dfy`: the two-mutex protocol around the scan of a stack.

## Main results

- One sequential cycle is exact. After `Run` the scan list holds the objects at the ends of the
  chains of references from the roots that avoid red objects, and the free lists have gained
  every other registered object, once, in a known order, and nothing else (`Collector.Run`).
  The same is said of the bytes alone (`Collect`): a cell is kept exactly if its address is the
  last of a chain of addresses that starts at a root, of which each is a word of the object
  before it, which has bit 1 of its flags clear, and which meets no red cell.
- The leak search accounts for every object, frees exactly the red ones, and its branch for an
  invalid colour is dead (`Collector.SearchMemoryLeaks`).
- Every carved cell and large block is at every moment in exactly one place: free, registered,
  or, after a leak search only, lost. This is part of `Collector.Valid`, which every call of
  `Collector.dfy` and `Objects.dfy` keeps, so it holds over any sequence of calls.
- In the threaded build no object is swept that the program can still reach through objects it
  did not free, at any moment of any interleaving (`RunIsSafe`), provided the steps are sound,
  which the next section spells out.
- One cycle of the threaded build is exact too (`SweptIff`). When it begins, an object is doomed
  if it is red or its FREE message is queued. An object is swept in every sound completion of
  the cycle, whatever the threads do, exactly if it is doomed or no thread reaches it through
  objects that are not doomed. In particular no garbage stays (`GarbageIsSwept`). The collector
  can always go on and gets closer to the end of the cycle (`MarkingDecreases`).
- In every sound run the NEW message of an object is handled before any other message about it
  (`NewIsHandledFirst`, `SendsAreAnnounced`). A free that comes too late breaks this (`LateFree`).
- A stack is scanned only while its thread is outside its locked region and has published the
  current bottom; a pass over the threads scans each of them once, in the order of the list;
  and a thread that syncs while the collector waits for it is scanned before it returns.

## What the proofs ask of the program

The collector cannot check these, and each is a `requires` or an event of the model.

- Sequential build: every word that passes the validity test denotes a registered object or a
  red cell (`Collector.WordsOk`). Swept cells keep their header, so stale words in a reused
  cell break this.
  - A new object keeps it exactly when the words of the object are good (`NewObject`), provided
    `OnlyNew`: no other cell of the memory that the allocation got from the system looks like an
    object by accident. Nothing in the allocator ensures that when an area is carved; an
    allocation that reuses a block adds no cell, and a large one at most the object's own.
  - Given `OnlyNew`, it is kept without looking at the words when the object has no pointers, or
    when `SGC_ZERO` is asked for and the request fills all words that the scan reads, which
    the requests of exactly a class size, from 8 bytes on, do and no others (`FillsWordsIff`).
  - For other requests `SGC_ZERO` clears less than the scan reads. It is enough whatever the
    block held exactly if every word is good whose bytes are 0 as far as the last word of the
    block was cleared (`ClearingSufficesIff`). When the last word was not cleared at all and
    some swept cell still has its header, it is not enough (`ZeroIsNotEnough`).
- Sequential build: `ok` of `Run` and of the leak search. The root loop has no test for white
  objects (src/sgc.c:582-593), unlike the stack scan (src/sgc_thread.c:329). It dereferences
  NULL (src/sgc_dlist.c:42) exactly when the object of the first live root comes back after a
  different one; other repetitions do no harm. In terms of the table: exactly when there are
  three roots in this order of which the first is the first live one, the second denotes
  another live object, and the third the first one again (`FaultIff`). Two objects and the
  handles a, b, a are enough (`RepeatedHandleFaults`).
- Both builds: the system returns no block below the first one, although `sgc_sbrk` is `malloc`
  (src/sgc_sys.h:44), which does not promise that. The address test rejects every address below
  the first block (`LowIsRejected`), and so an object there is swept by every cycle, whoever
  refers to it (`LowIsSwept`).
- Threaded build: the start of a cycle up to the end of clearing is atomic with respect to the
  program; a load or store is atomic with its barrier; an allocation and a sweep step are atomic
  with respect to each other, although they share `sgc_free_list` without a lock
  (src/sgc_allocator.c:86-121); the only roots are the stacks; and heap words are read and
  written through local variables.
- Threaded build: resizing. `sgc_resize_object` copies words to a new object, which is black, by
  `memcpy` and without a barrier, and then frees the old one (src/sgc.c:290-300). The words are
  not lost as long as the collector still comes to the old object, which it scans even when it
  is red. So a resize is always sound in the mark loop and outside cycles. Between the beginning
  of a cycle and the mark loop it is sound exactly if the old object was reached or is announced,
  or no word that is copied waits unexpected (`ResizeKeepsIff`, and `ResizeIsSafeIff` in terms
  of what can happen). `ResizeLosesObject` is a run from the start of the program in which only
  the resize is not sound: a thread that must still be scanned resizes an object which nothing
  else holds, and what only that object held is swept. No other thread writes to an object while
  it is resized.
- Threaded build: the messages of barriers. `sgc_message_send` drops a message when it finds no
  memory for it (src/sgc_mess.c:110-113) and the program goes on, which has the same effect as
  an access without a barrier. The model has such events, and they are sound exactly as
  follows. An object waits when it is white and on the from list; it waits unannounced when no
  queued CTI or FREE message names it, and unexpected when moreover no freed object, still to
  be scanned, holds it.
  - A load without its message: the stack of the thread is still to be scanned, or the word does
    not wait unannounced (`PlainLoadKeepsIff`). Once the stack was scanned, and no other word of a
    listed object refers to the object, this is also exactly when no continuation loses it
    (`PlainLoadIsSafeIff`). This is why loads need a barrier: scanning turns the object that holds
    a white word gray (src/sgc.c:658), the barrier on stores is silent for gray objects, and so
    a thread can take the word over and clear it before the collector comes to it.
    `PlainLoadLosesObject` is such a run.
  - A store without its message: always, unless it puts an object that waits unexpected into one
    that was allocated since the cycle began, before the mark loop (`PlainStoreKeepsIff`, and
    `PlainStoreIsSafeIff` in terms of what can happen). `PlainStoreLosesObject` is a run that does
    this. Once every load has its barrier, the barrier on stores is needed for nothing else.
  - A lost FREE message is harmless (`LostFreeKeeps`): the object is left to the collector.
  - A lost NEW message is never harmless: no list has the object (`LostAllocLosesObject`).
- Threaded build: an object is not freed a second time after it was swept or when it is about to
  be. This is exactly when every message, in every continuation, names an object that is still
  there (`FreeIsSafeIff`). Otherwise the message can reach a new object at the same address, and
  the next cycle can sweep that object while a thread holds it (`LateFreeLoses`;
  `LateFreeLosesObject` is a run from the start of the program).
- Threaded build: the mark loop is entered with a non-empty scan list, or with no message
  naming an object of the from list. The skip of the loop leaves the messages until the next
  cycle, and the condition is exactly that none of them will then name an object that is gone,
  in any continuation (`SkipIsSafeIff`). `SkippedLoopLosesObject` is a run of eight events that
  loses a reachable object without it.

## Where the code differs from what it says

- `sgc_register_interval` adds the size in bytes to a pointer to words, so the upper end of the
  hull is eight times too far away; the lower end is set once. The hull accepts every block
  exactly when no block starts below the first (`HullCoversIff`).
- The check of the flags in `sgc_allocator_is_valid` reads the colour again, and the check of
  the size admits one class too many. Neither matters for the small classes.
- `sgc_get_size_index` overflows for requests above 2^30 bytes; the model returns None there.
- Shrinking an object to 0 bytes keeps the block if it is of the smallest class and frees it
  otherwise. When a resize finds no memory the old object is freed all the same.
- Handling a CTI message tests the second object twice (src/sgc.c:728-729), so both forms of
  the message do the same.
- A message for which there is no memory is dropped (src/sgc_mess.c:110-113).
- A red object that is already on the scan list turns black when the mark loop comes to it, and
  its free is forgotten (`FreeIsForgotten`). From then on it is swept only when no thread
  reaches it, as if it had not been freed. `FreedObjectSurvives` is a run from the start of the
  program in which it survives any number of cycles, because a thread still holds it.
- When the root table is full, `sgc_root` reports it with `sgc_panic`, which only logs
  (src/sgc_log.h:73). The program goes on, and the variable is no root.

## Model

| member | source | states |
|---|---|---|
| DList.Append | src/sgc_dlist.c:26-46 | appending to a ring adds the node at the end and touches only that ring and the node; a ring that is just the node stays as it is |
| DList.RemoveNode | src/sgc_dlist.c:68-87 | removing the k-th node deletes it from the ring and returns its successor, or NULL for a singleton, whose links stay |
| DList.Join | src/sgc_dlist.c:89-119 | joining two disjoint rings gives the ring of their concatenation |
| SizeClasses.GetSizeIndex | src/sgc_allocator.c:157-168 | the search ends at the least class that is large enough, and overflows exactly above 2^30 bytes |
| SizeClasses.KeepsBlock | src/sgc.c:274-283 | a resize keeps the block exactly when its class is the one that a new request of that size would get |
| Carving.CellSize | src/sgc_mem_heap.c:42-45 | a cell holds header and object, is a multiple of the alignment, and wastes less than one alignment unit |
| Carving.CellsAreDisjoint | src/sgc_mem_heap.c:87-96 | the cells of an area do not overlap and do not leave the area |
| Carving.StartTestIsExact | src/sgc_mem_heap.c:113-121 | the test accepts exactly the starts of the cells that were carved |
| Carving.ScanStaysInside | src/sgc.c:641-666 | every word that scanning reads is inside the object's own cell, for every class |
| Carving.EveryAreaHasCells | src/sgc_mem_heap.c:47-51 | every small class gets at least one cell out of an area |
| Carving.CellsPerArea | src/sgc_mem_heap.c:36-56 | the numbers of cells in an area, class by class |
| IntervalHull.HullCoversIff | src/sgc_interval.c:37-49 | the hull accepts every address of every block exactly when no block starts below the first |
| IntervalHull.HullIs | src/sgc_interval.c:37-49 | once a block is registered, the hull accepts exactly the addresses from the start of the first block up to eight times the size of some block above its start |
| IntervalHull.Interval.Register | src/sgc_interval.c:37-44 | registering a block extends the hull of the blocks registered so far |
| AreaPool.AreaHeap.Expand | src/sgc_area_heap.c:70-94 | a new area goes to the front of the free areas and is counted, unless the limit is reached or the system has no memory |
| AreaPool.AreaHeap.Alloc | src/sgc_area_heap.c:96-111 | exactly one area changes from free to in use, a new one only when none was free |
| AreaPool.AreaHeap.Free | src/sgc_area_heap.c:113-118 | exactly that area changes back |
| CellHeap.MemHeap.constructor | src/sgc_mem_heap.c:36-56 | the fields satisfy the carving arithmetic for the class |
| CellHeap.MemHeap.Expand | src/sgc_mem_heap.c:85-100 | an area becomes an acyclic chain of as many new cells as fit and no fewer, last cell first, each at its own address and with the class of the heap |
| CellHeap.MemHeap.IsValid | src/sgc_mem_heap.c:103-127 | the walk over the areas finds an address exactly when it passes the start test of one of them |
| LargeBlocks.VarHeap.Alloc | src/sgc_var_heap.c:52-92 | the first free block of the class is taken if there is one and the others stay, rotated; otherwise a new block of a header and the bytes of the class is registered |
| LargeBlocks.VarHeap.Free | src/sgc_var_heap.c:94-101 | the block becomes the last of the free ring |
| HeapLayout.ValidityIsExact | src/sgc_allocator.c:143-149 | for a small class the address test accepts exactly the cells carved for it, whatever bytes are found there, and it rejects no cell or large block |
| HeapLayout.CarveKeeps | src/sgc_mem_heap.c:70-101 | carving a free area keeps all cells disjoint, inside blocks and where the test expects them, and the cells are new |
| HeapLayout.AddAreaKeeps | src/sgc_area_heap.c:78-87 | so does a new area |
| HeapLayout.AddLargeKeeps | src/sgc_var_heap.c:74-86 | so does a new large block |
| LowBlocks.LowIsRejected | src/sgc_interval.c:37-49 | no address below the first block passes the address test |
| LowBlocks.TestedIff | src/sgc_allocator.c:123-150 | the words that name objects are the payload addresses that pass the address test |
| LowBlocks.LowIsSwept | src/sgc_interval.c:37-49 | an object there is left to the sweep by every cycle, whatever the roots and the words of other objects name |
| SegregatedFit.Allocator.constructor | src/sgc_allocator.c:56-72 | the heap starts empty and consistent, before any area is reserved |
| SegregatedFit.Allocator.Preallocate | src/sgc_area_heap.c:56-60 | the areas reserved by the initialisation are free areas, the last one first, unless the system runs out of memory |
| SegregatedFit.Allocator.IsValid | src/sgc_allocator.c:123-150 | the test as coded is the header test together with the exact address test |
| SegregatedFit.Allocator.AcceptsIff | src/sgc_allocator.c:123-150 | what passes are the cells with a stamped header, and inside the hull what looks like the header of a large block, or of one class more than there is |
| SegregatedFit.Allocator.Alloc | src/sgc_allocator.c:86-111 | the block has the least sufficient class; it is the first free cell of that class, or the first large block that fits, or new memory; the other free blocks stay in order and no known cell disappears; it fails only when the system has no memory, and a large request takes at most the one block |
| SegregatedFit.Allocator.PayloadsApart | src/sgc_var_heap.c:74-86 | of two cells at different addresses the one at the lower address ends, header and payload, before the other begins |
| SegregatedFit.Allocator.PayloadInBlock | src/sgc_mem_heap.c:85-100 | header and payload of a cell lie inside one block that was got from the system |
| SegregatedFit.Allocator.Free | src/sgc_allocator.c:113-121 | the cell goes to the front of its class list or to the end of the large blocks, and all other free cells stay in place |
| MarkSpec.ScanObjectKeeps | src/sgc.c:609-621 | one iteration keeps the scanned prefix, the union of the lists and the red objects, and leaves no reference of the scanned object behind |
| MarkSpec.VisitedOnce | src/sgc.c:606-628 | however often nodes are unlinked and appended again, the loop visits every object of the final scan list once, in its order |
| MarkSpec.MarkFromKeeps | src/sgc.c:606-628 | at the end no object of the scan list refers to anything outside it except red cells |
| MarkSpec.MarkFromSound | src/sgc.c:606-628 | nothing enters the scan list that is not in every closed set around it |
| MarkSpec.MarkIsLeast | src/sgc.c:561-629 | the scan list is the least set that contains the roots and is closed under references to objects that are not red |
| MarkSpec.MarkIsExact | src/sgc.c:561-629 | an object is on the scan list exactly when a chain of references from a root reaches it through objects that are not red |
| MarkSpec.CycleIsExact | src/sgc.c:358-373 | the same for a whole cycle, and what is left for the sweep is every other registered object, in order, white or red |
| MarkSpec.GarbageColors | src/sgc.c:447-521 | what is left is red where the program freed it and white elsewhere, no red object is on the scan list, and the counts add up |
| MarkSpec.ClearedInv | src/sgc.c:535-559 | clearing prepares marking and keeps the red objects |
| MarkSpec.RootHead | src/sgc.c:573-597 | unless the first root object comes back after another one, it stays at the head of the scan list |
| MarkSpec.NextRoot | src/sgc.c:573-597 | the next root object heads a scan list of several nodes exactly when the first one comes back |
| MarkSpec.AddRootsKeep | src/sgc.c:573-597 | after the root loop the scan list holds exactly the root objects |
| MarkSpec.StaleEnters | src/sgc.c:647-661 | a reference to a cell of neither list leaves the union of the lists as it was exactly when the cell is not white |
| PayloadWords.BytesRoundTrip | src/sgc.c:640-643 | a word that is written as bytes is read back as the same word |
| PayloadWords.LowestFirst | src/sgc.c:640-643 | a word is the number whose bytes are in memory, lowest first |
| PayloadWords.StoredWord | src/sgc.h:154 | a store changes the word it is meant for and no other |
| PayloadWords.ZeroedWord | src/sgc.c:236-237 | clearing some bytes clears the words inside them and leaves the words behind them as they were |
| Sweeping.PushedExactly | src/sgc_allocator.c:113-121 | after freeing a sequence of cells each class list is those of its class, last first, in front of what it held |
| Sweeping.SplitIsExact | src/sgc_allocator.c:113-121 | every freed cell is in exactly one list, the one of its class, and once |
| SequentialCollector.Collector.FromListRemove | src/sgc.c:347-356 | unlinking a node of either list removes it from that list and leaves the other alone |
| SequentialCollector.Collector.ScanListAppend | src/sgc.c:342-345 | the node becomes the last of the scan list |
| SequentialCollector.Collector.ValidIsHit | src/sgc_allocator.c:123-150 | a word that is not the address of forged header bytes of a large block passes the validity test exactly when it denotes a cell with a stamped header |
| SequentialCollector.Collector.constructor | src/sgc.c:96-100 | the first state is consistent and meets the assumption on words |
| SequentialCollector.Collector.ReachFacts | src/sgc.c:654-660 | the referee that is moved is on one of the lists and is neither the head of the scan list nor the object being scanned |
| SequentialCollector.Collector.ScanWord | src/sgc.c:643-662 | one word has the effect of the specification on the real nodes |
| SequentialCollector.Collector.ScanMem | src/sgc.c:631-667 | scanning an object has the effect of all its words, in order |
| SequentialCollector.Collector.MarkObject | src/sgc.c:609-621 | one iteration of the mark loop is one step of the specification |
| SequentialCollector.Collector.MarkLoop | src/sgc.c:606-628 | the loop that follows the links while they change computes the specification and ends |
| SequentialCollector.Collector.AddRootObject | src/sgc.c:586-595 | one root object is added, or NULL is dereferenced exactly when it heads a scan list of several nodes |
| SequentialCollector.Collector.MarkRoots | src/sgc.c:573-597 | the loop succeeds exactly when the first root object does not come back after another one, and then adds all root objects |
| SequentialCollector.Collector.MarkAll | src/sgc.c:561-629 | marking succeeds under the same condition and computes the specification |
| SequentialCollector.Collector.Clear | src/sgc.c:535-559 | every object of the from list that is not red is white afterwards, and nothing else changed |
| SequentialCollector.Collector.Sweep | src/sgc.c:669-703 | though freeing overwrites links, every node is visited once, and the doomed ones are added to the free lists in front of what was free before |
| SequentialCollector.Collector.Gather | src/sgc.c:364-369 | the from list is the scan list followed by the new list, and both are empty |
| SequentialCollector.Collector.Run | src/sgc.c:358-376 | the survivors are exactly the reachable objects, the free lists gain exactly the others, and the state is consistent again |
| WordPaths.Collect | src/sgc.c:358-376 | a cell is kept exactly if its address is the last of a chain of addresses from a root, each a word below the class size of the object before it, whose flags have bit 1 clear, that passes the test, and none of a red cell |
| WordPaths.WordsStayInside | src/sgc.c:641-666 | after a cycle every word of a kept object whose flags have bit 1 clear that passes the test names a kept object or a red cell |
| WordPaths.RefersIff | src/sgc.c:620-666 | the references of an object are its words below its class size that pass the test, none if bit 1 of its flags is set |
| SequentialCollector.Collector.CountGarbage | src/sgc.c:448-521 | the three counters are the numbers of red, white and other objects |
| SequentialCollector.Collector.SearchMemoryLeaks | src/sgc.c:385-533 | allocated = scanned + freed + leaked, the counts are those of the reachable, red and lost objects, no colour is invalid, and exactly the red objects are freed |
| ObjectCalls.Register | src/sgc.c:709-714 | a new object becomes the last of the new list at once |
| ObjectCalls.NewObject | src/sgc.c:186-240 | the object was free or new memory, has the least sufficient class, a stamped header with the next number of the counter, and `nbytes` cleared bytes if bit 0 of the flags is set, the bytes of the block otherwise; if no other new cell looks like an object by accident, the assumption on words still holds exactly when the new object's words are good, and always when it has no pointers or all its words were cleared |
| ObjectCalls.FreeObject | src/sgc.c:242-257 | the object is red and nothing else changed |
| ObjectCalls.ResizeObject | src/sgc.c:259-303 | for any registered object the block is kept exactly when its class fits; otherwise a new object has the old flags, the old type and the first min(old, new) bytes, behind which it has 0 up to the new size if bit 0 of the old flags is set and what the block held otherwise, and the old one is red, also when there is no memory |
| ObjectCalls.GoodObjectIff | src/sgc.c:641-647 | the references of an object are all known exactly when each of its words is |
| ObjectCalls.OnlyIfClean | src/sgc.c:186-240 | when the assumption on words holds, and no other new cell looks like an object by accident, the words of the new object are good |
| ObjectCalls.ClearedIsClean | src/sgc.c:236-237 | under the same proviso an object is clean when the cleared bytes cover all words that scanning reads |
| ObjectCalls.PointerlessIsClean | src/sgc.c:619-621 | under the same proviso so is an object without pointers |
| ClearedWords.ClearingSufficesIff | src/sgc.c:236-237 | clearing the bytes asked for is enough for a block of that class, whatever it held, exactly when every word is good that its last word can then be |
| ClearedWords.FillsWordsIff | src/sgc.c:636-643 | a request fills all words that scanning reads exactly when it is for a class size of at least one word |
| ClearedWords.LeavesNoStaleWordIff | src/sgc.c:236-237 | an allocation needs no look at the words exactly when bit 1 of its flags is set, or bit 0 is and the request is for a class size of at least one word |
| ClearedWords.ReusedIsCleanIff | src/sgc.c:236-237 | a reused block for which clearing was asked is clean exactly when the words are good that the clearing leaves |
| ClearedWords.StaleIsBad | src/sgc.c:647-661 | the address of a swept cell that kept its header is not a good word |
| ClearedWords.ZeroIsNotEnough | src/sgc.c:236-237 | when the last word is not cleared and such a cell exists, there is a payload that clearing does not make good |
| ObjectCalls.ReferenceFacts | src/sgc.h:138-152 | between cycles no registered object is white, so no barrier has anything to send |
| ObjectCalls.StoreField | src/sgc.h:138-154 | the word is stored, no message is sent and the assumption on words is kept |
| ObjectCalls.LoadLocal | src/sgc.h:147-156 | no message is sent |
| RootHandles.RootTable.Root | src/sgc.c:305-324 | the first free slot gets the variable, the table overflows exactly when there is none, and the roots are the values of the registered variables |
| RootHandles.RootTable.Unroot | src/sgc.c:326-335 | the first slot with the variable, if any, is free again |
| RootHandles.RootTable.Assign | src/sgc.c:577-580 | an assignment to a variable changes every root on it and no other |
| RootHandles.RootedIff | src/sgc.c:573-597 | the roots are exactly what the registered variables name |
| RootHandles.RootedIsReached | src/sgc.c:573-597 | the object that a registered variable names is reached, and so `Collect` keeps it, unless it is red |
| RootHandles.UnrootUndoesRoot | src/sgc.c:305-335 | a removal undoes a registration: the table holds every variable as often as before, and is the same table if the variable was not in it |
| RootFaults.FaultIff | src/sgc.c:573-597 | the root loop fails exactly when three handles denote, in this order, the first live object of the table, another one, and the first again |
| RootFaults.RepeatedHandleFaults | src/sgc.c:573-597 | a program that makes two objects and the handles a, b, a makes its next cycle fail |
| TwoStackQueue.Lifo.Push | src/sgc_lifo.h:49-54 | the cell is on top of the stack and counted |
| TwoStackQueue.Lifo.Pop | src/sgc_lifo.h:56-64 | the top cell, if any, is taken off and counted |
| TwoStackQueue.Fifo.Put | src/sgc_fifo.h:46-49 | the cell is last in the queue |
| TwoStackQueue.Fifo.Get | src/sgc_fifo.h:51-69 | the first cell leaves the queue, and any run of calls costs at most three stack operations a call |
| TwoStackQueue.Fifo.Avail | src/sgc_fifo.h:71-87 | the first cell is returned and the queue stays as it is |
| TwoStackQueue.Fifo.Clear | src/sgc_fifo.h:90-108 | the whole queue is returned, in order, as one NULL-terminated chain |
| TwoStackQueue.Fifo.Size | src/sgc_fifo.h:35-38 | the two counters add up to the length of the queue |
| MessageQueue.MessageModule.constructor | src/sgc_mess.c:35-49 | the pool holds the cells asked for |
| MessageQueue.MessageModule.New | src/sgc_mess.c:70-89 | a cell goes from the pool, or from new memory, into flight with the message in it |
| MessageQueue.MessageModule.Delete | src/sgc_mess.c:91-94 | a cell in flight goes back to the pool |
| MessageQueue.MessageModule.Put | src/sgc_mess.c:96-99 | a cell in flight becomes the last of the queue and its message counts as sent |
| MessageQueue.MessageModule.Get | src/sgc_mess.c:101-104 | the first cell of the queue goes into flight and its message counts as handled |
| MessageQueue.MessageModule.Send | src/sgc_mess.c:106-130 | the message is sent, or dropped exactly when there is no cell for it |
| MessageQueue.MessageModule.HandleMessages | src/sgc.c:746-754 | the queue is empty, everything sent was handled in order, and the cells are back in the pool |
| MessageQueue.MessageModule.Counts | src/sgc_mess.c:35-130 | pool, queue and cells in flight make up all cells ever allocated |
| MessageQueue.PlacesSize | src/sgc_mess.c:35-130 | the same for any three places without a common cell |
| MessageQueue.MessageModule.HandledInOrder | src/sgc.c:746-754 | what was handled so far announces every object before it says anything else about it, if what was sent does, which `SendsAreAnnounced` shows |
| MessageQueue.AnnouncedSnoc | src/sgc_mess.c:106-130 | sending about announced objects keeps that order |
| MessageQueue.AnnouncedPrefix | src/sgc_mess.c:101-104 | so does looking at a prefix only |
| MessageQueue.AnnouncedMeans | src/sgc.c:705-744 | the objects that must have been announced are the one of a FREE message and both of a CTI message, named by payload, the first only if it is not NULL |
| IncrementalCollector.BeginKeeps | src/sgc.c:362-371 | handling the pending messages, joining and clearing starts a cycle with all objects in the from list |
| IncrementalCollector.ScanStackKeeps | src/sgc_thread.c:325-342 | the scan of a stack keeps the invariant, and no object that the stack holds is white afterwards |
| IncrementalCollector.StackAdds | src/sgc_thread.c:325-342 | the scan of a stack adds exactly the white objects that it names to the scan list, behind what the list held, and turns just them gray |
| IncrementalCollector.StackOrder | src/sgc_thread.c:325-342 | they are added in the order in which the scan meets them |
| IncrementalCollector.EnterLoopKeeps | src/sgc.c:606-608 | entering the loop keeps the invariant, and so does skipping it when no message names an object that would be swept |
| IncrementalCollector.BlackenNextKeeps | src/sgc.c:616-617 | blackening the next object, even a red one, keeps the invariant |
| IncrementalCollector.ScanWordKeeps | src/sgc.c:641-666 | what the scanned words hold is reached or has a pending CTI message, although the referee stays white |
| IncrementalCollector.RefereeKeeps | src/sgc.c:654-660 | moving a white referee to the end keeps the invariant and the part of the scan list that the loop has passed, head included |
| IncrementalCollector.HandleKeeps | src/sgc.c:705-744 | handling any message, also between cycles, keeps the invariant |
| IncrementalCollector.DrainedKeeps | src/sgc.c:623-628 | when the queue is empty the loop goes on or marking is over, and then nothing held by a stack, a young object or a scanned object is left for the sweep unless it is red |
| IncrementalCollector.SweepNextKeeps | src/sgc.c:677-702 | sweeping one object keeps the invariant: no message names it, and what stacks and surviving objects still hold of it the program freed |
| IncrementalCollector.LoadKeeps | src/sgc.h:147-156 | a load with its barrier keeps the invariant at any moment |
| IncrementalCollector.PlainLoadKeepsIff | src/sgc.h:147-156 | a load whose message is missing keeps it exactly when the stack of the thread is still to be scanned or the object does not wait unannounced |
| IncrementalCollector.LoadSends | src/sgc.h:147-156 | a load sends one exactly for a word that is not NULL and whose object is white |
| IncrementalCollector.StoreKeeps | src/sgc.h:138-154 | so does a store with its barrier |
| IncrementalCollector.PlainStoreKeepsIff | src/sgc.h:138-154 | a store whose message is missing keeps it exactly when it does not put an object that waits unexpected into a young one before the mark loop |
| IncrementalCollector.StoreSends | src/sgc.h:138-154 | a store sends a CTI message exactly for a word that is not NULL, whose object is white, put into an object that is not; and what the store leaves as it was |
| IncrementalCollector.ResizeKeepsIff | src/sgc.c:290-300 | the copy without a barrier and the free of the old object keep it exactly when, before the mark loop, the old object was reached or is announced or no copied word waits unexpected |
| IncrementalCollector.AllocKeeps | src/sgc.c:212-229 | so does an allocation, which is black and announced, also at the address of a swept object |
| ConcurrentRuns.FreeIsSafeIff | src/sgc.c:242-257 | a free is the first, or the object is still there and not about to be swept, exactly when in every continuation every message names an object that is still there |
| IncrementalCollector.LostFreeKeeps | src/sgc_mess.c:110-113 | losing a FREE message keeps the invariant |
| IncrementalCollector.StepKeeps | src/sgc.c:358-376 | every sound event of the collector and of the threads keeps the invariant |
| ConcurrentRuns.LivePlaced | src/sgc.c:669-703 | what a thread reaches through objects it did not free has not been swept and is not about to be |
| ConcurrentRuns.RunIsSafe | src/sgc.c:358-376 | the same at every moment of every interleaving of sound events from the start of the program |
| ConcurrentRuns.SweptIsGarbage | src/sgc.c:692-697 | the next object to be swept was freed by the program or is held by no stack and no surviving object, and no message names it |
| ConcurrentGarbage.GarbageIsSwept | src/sgc.c:358-376 | what was doomed when a cycle began, or what no thread reached then through objects that were not, is swept by the end of the cycle in every sound run |
| ConcurrentGarbage.BeginOrder | src/sgc.c:358-371 | a cycle begins with the objects that the last one kept, the new ones and those still announced, in this order, white but for the doomed ones |
| ConcurrentGarbage.SweptIff | src/sgc.c:358-376 | an object is swept in every sound completion of a cycle exactly when it was doomed at its beginning or no thread reached it through objects that were not |
| ConcurrentGarbage.ReachedSurvives | src/sgc.c:358-376 | for every other object the collector has a completion, with the threads at rest, that spares it |
| ConcurrentGarbage.DoomedIsSwept | src/sgc.c:358-376 | an object that is red or whose FREE message is queued when a cycle begins is swept by its end even if the steps are not sound |
| ConcurrentGarbage.FreeIsForgotten | src/sgc.c:616-617 | an object that the mark loop blackens is not doomed at the end of the cycle, however red it was, unless the program frees it again |
| ConcurrentGarbage.ReachedSurvivesCycles | src/sgc.c:358-376 | an object that is not doomed, freed or not, can survive any number of cycles while a thread reaches it |
| ConcurrentAccess.LateFree | src/sgc.c:242-257 | after a second free of a swept object and an allocation at its address the FREE message is before the NEW message |
| ConcurrentAccess.LateFreeLoses | src/sgc.c:242-257 | from every such state the next cycle can sweep the new object while its thread holds it to the end |
| ConcurrentGarbage.MarkingDecreases | src/sgc.c:606-703 | in the mark loop and in the sweep the collector always has a sound step to take, and a measure decreases until the cycle is over |
| ConcurrentAccess.CollectorIgnores | src/sgc.c:561-703 | the collector's steps are the same whatever scanned stacks and objects on no list hold |
| ConcurrentAccess.CollectorSweeps | src/sgc.c:606-703 | left alone, the collector finishes its cycle and sweeps what nothing on its lists leads to, whatever the stacks hold by now |
| ConcurrentAccess.StacksThenSweep | src/sgc.c:598-703 | so it does before the mark loop, when the threads that are not yet scanned let go |
| ConcurrentRuns.NewIsHandledFirst | src/sgc.c:705-754 | at every moment of every sound run, when the next message to be handled is not NEW, the NEW message of its object has been handled |
| ConcurrentRuns.SendsAreAnnounced | src/sgc_mess.c:106-130 | what the threads send in any sound run announces every object before it says anything else about it |
| ConcurrentRuns.SkipIsSafeIff | src/sgc.c:606-608 | with an empty scan list no message names an object of the from list exactly when in every continuation every message names an object that is still there |
| ConcurrentAccess.PlainLoadLoses | src/sgc.h:147-156 | a thread whose stack was scanned, and that takes over the only reference to an unannounced waiting object without a barrier, can lose it |
| ConcurrentAccess.PlainLoadIsSafeIff | src/sgc.h:147-156 | such a load is safe in every continuation exactly when the object does not wait unannounced |
| ConcurrentAccess.PlainStoreIsSafeIff | src/sgc.h:138-154 | a store without a barrier into a young object, before the mark loop, is safe in every continuation exactly when the stored object does not wait unexpected |
| ConcurrentAccess.ResizeIsSafeIff | src/sgc.c:290-300 | the copy of a resize into a young object, before the mark loop, is safe in every continuation exactly when the old object was reached or is announced or the copied word does not wait unexpected |
| LosingRuns.SkippedLoopLosesObject | src/sgc.c:606-608 | a run that skips the loop with a CTI message pending sweeps an object that the program still reaches |
| LosingRuns.PlainLoadLosesObject | src/sgc.h:147-156 | so does a run in which one load has no barrier |
| LosingRuns.PlainStoreLosesObject | src/sgc.h:138-154 | so does a run in which one store has no barrier |
| LosingRuns.SkippingBlame | src/sgc.c:606-608 | in the first of these runs the skip is not sound, and in the last one the store |
| LosingRuns.ResizeLosesObject | src/sgc.c:290-300 | so does a run in which an object is resized before the stack of its thread was scanned |
| LosingRuns.LateFreeLosesObject | src/sgc.c:242-257 | so does a run in which a swept object is freed once more |
| LosingRuns.FreedObjectSurvives | src/sgc.c:616-617 | in a sound run a freed object survives any number of cycles |
| LosingRuns.LostAllocLosesObject | src/sgc_mess.c:110-113 | after a lost NEW message the program holds an object that no list has |
| StackHandshake.StepKeeps | src/sgc_thread.c:132-350 | every mutex operation keeps the owners and the published bottoms in line with where everybody is |
| StackHandshake.HoldersOnly | src/sgc_thread.c:132-350 | the mutex of the list and those of a thread are released by their holder only, and taken only when nobody holds them |
| StackHandshake.ReleasesCount | src/sgc_thread.c:216-298 | threads keep their places in the list, and the n-th release of a thread is its n-th release event |
| StackHandshake.ScannedOnlyOutside | src/sgc_thread.c:306-347 | while a stack is scanned its thread is outside its locked region, and the bottom is the one published for its latest release |
| StackHandshake.PledgeKeeps | src/sgc_thread.c:274-293 | a thread that released its scan mutex while the collector held its sync mutex cannot return by any step but the end of its scan |
| StackHandshake.SyncWaitsForScan | src/sgc_thread.c:259-350 | over any continuation such a thread is scanned before it returns from sync |
| StackHandshake.PassScansAll | src/sgc_thread.c:195-214 | in every run from one LockList to the next UnlockList each attached thread is scanned once, in the order of the list |
| StackHandshake.PassCompletes | src/sgc_thread.c:195-214 | when all threads are outside their regions a pass comes to its end by the collector's steps alone and leaves everything as it was |
| StackHandshake.SyncCompletes | src/sgc_thread.c:259-298 | a thread that syncs when the collector does not wait for it comes back to where it was, with a newer stack bottom |
| StackHandshake.UnlockCompletes | src/sgc_thread.c:216-257 | so does one that unlocks and locks, and in between nobody has its scan mutex |
| StackHandshake.AttachCompletes | src/sgc_thread.c:132-166 | a thread that attaches becomes the last of the list and has its scan mutex |
| StackHandshake.ThreadWaitsForGc | src/sgc_thread.c:216-298 | when a thread cannot go on, the collector can |
| StackHandshake.GcWaitsForThread | src/sgc_thread.c:195-214 | when the collector cannot go on, whoever holds the mutex it waits for can |

## Left out

- Logging, tracing, the socket stream and the trace reader; backtraces and their printing; the counter callback and the stop address.
- Finalisers, which are taken to leave the collector alone.
- src/sgc_atom_heap.c, which is not built; src/sgc_lifo.h.lockfree, whose live branch repeats src/sgc_lifo.h; src/sgc_list.c and the part of src/sgc_interval.c without `USE_SBRK`, which would add list lemmas only.
- pthread, malloc, memcpy and memset as such: a mutex is its owner, a block from the system is a parameter of the call that overlaps no earlier block and does not start below the first.
- All cleanup.
- Detaching a thread, which takes its mutexes in the opposite order to the collector.
- Large blocks in the conservative test: `sgc_var_heap_valid` always answers yes, so a forged header inside the hull passes. The model proves only that no live block is rejected, and asks that no word is such an address.
- The header of an object and its payload are one node with one address; the chain of areas is a sequence; memory without a header answers the header test with fixed unknown bytes.
- In `Incremental.dfy` an object without pointers is one without words, new objects are cleared, and threads do not come or go during a run.
- Fairness: that the collector gets its turn. While threads keep sending messages the mark loop may go on.
- ValidIsHit: leaves out the words whose address carries bytes that look like the header of a large block, for the reason given above.
- PlainLoadIsSafeIff: is stated for an object to which no other word of a listed object refers, since the collector may find it through such a word, and for states from which the mark loop can be entered soundly; otherwise `PlainLoadKeepsIff` is the exact condition for the invariant. PlainStoreIsSafeIff and ResizeIsSafeIff likewise.
- ResizeKeepsIff: the copy and the free are one event, and the copy is of whole words.
- NewObject: the counter of objects does not wrap around.
- Get: the memory order of the queue operations; each is atomic, as is each mutex operation of the handshake.
- HandleMessages: what handling a message does to the collector is in `Incremental.dfy`; in the sequential build the queue does not exist and `Register` and `FreeObject` handle their message at once.
- LoadLocal: the CTI message itself is not modelled for the sequential build, since it is never sent.
- SearchMemoryLeaks: the reports to the callback one by one, and callbacks that allocate or free.
