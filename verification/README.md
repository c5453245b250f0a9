# Verified models of a distributed noise simulation and its Contiki-NG core

The repository holds an MPI program that simulates noise over a grid (`mpi/`) and a
Contiki-NG tree (`contiki-ng/`) that runs on the sensor nodes. This project models the
parts of both whose correctness rests on invariants over whole runs, and proves them.

* **MPI shuffle** (`Shuffle`, `ShuffleMatching`, `ShuffleResult`, `ShuffleOrder`): ranks exchange cell
  values with asynchronous sends and receives that accept any source and any tag. The
  messages carry no cell. The model is a transition system with one queue per pair of
  ranks. `WorkSplit`, `NoiseSim` and `NoiseExact` model how sources and cells are divided,
  painted and moved, and connect the parallel result with the sequential one.
* **heapmem** (`HeapSweep`, `HeapMem`, `HeapMemFacts`, `HeapHistory`): the chunk arena in
  memory cells, with headers stored among the bytes they manage, so that a header written over an object
  would destroy it.
* **Serial input** (`RingBuf`, `SerialLines`, `SerialReader`, `SerialLine`, `SlipCodec`,
  `SlipQueue`, `Slip`, `SlipReceiver`): the ring buffer at the granularity of single memory
  steps, the line framer on top of it with the event queue it posts to, and the SLIP
  receiver with its cyclic buffer.
* **Trickle timer** (`TrickleConfig`, `TrickleLine`, `Trickle`): an unwrapped timeline,
  the fields in modular clock arithmetic that keep to it, and the bound on Imin << Imax.
* **Neighbor table** (`LinkedList`, `NbrBits`, `NbrTable`): one list of keys and two
  bitmaps stand for eight maps.
* **CCM\*** (`CcmStar`, `CcmFormat`): the in-place block loops against the blocks of
  sections 2.2 and 2.3 of RFC 3610, octet by octet, for any block cipher.
* **Swap ids** (`SwapIds`) and **event timers** (`Etimer`).

`Arith` and `Bits` hold facts about remainders and masks. Objects that the source updates
in place are classes; each keeps a ghost value of what it stands for, and what the source
promises is proved about that value or, where the source works event by event, about the
history of events. Several invariants are stated as membership in a set of states
(`View() in Tables(size)`, for example): such a set is the invariant, given a name.

## Where the code and its promises differ

Each of these is proved, with the exact condition under which the code does what it says.

* Messages of the shuffle are matched to the right cell in every run if and only if there
  is one cycle, or at most two ranks, or the ranks divide the grid
  (`ShuffleMatching.MatchingExactlyWhenSafe`; `ShuffleMatching.Mismatch` builds a failing
  run otherwise).
* Every schedule leaves the same levels if and only if there are at most two ranks, or the
  messages are matched and the operator takes two operands in either order
  (`ShuffleOrder.DeterministicExactlyWhen`). `sum_noises` does not, because it rounds: with
  own level 1 and messages 1 and 3 it leaves 7 or 6 (`ShuffleOrder.RoundingShows`; the four
  values of `sum_noises` it starts from follow from its formula).
* The simulation computes in every run what one process would if and only if there is one
  rank, or the messages are matched and the operator takes two operands in either order;
  for two ranks on a single cell associativity is enough
  (`NoiseExact.SequentialExactlyWhen`).
* All sources are painted and moved exactly when the ranks divide their number, and the
  missed ones are the last of the longer blocks (`WorkSplit.MissedExactly`,
  `WorkSplit.AllProcessedExactlyWhenDivisible`); a source cannot leave the grid exactly when
  twice its speed is at most the grid's size (`NoiseSim.StaysExactlyWhenSlow`).
* A serial line is seen by its handlers as it was, whatever happens next, if and only if the
  event queue has two free slots when it ends: with none the line is lost, with one its
  buffer is exposed to being overwritten before the handlers run
  (`SerialReader.IntactExactlyWithTwoSlots`).
* A SLIP packet written with `slip_write` is returned within the `blen` bytes of the
  output buffer if and only if no frame was waiting, the escaped packet and its END leave a
  cell of the receive buffer free, and the packet has at most `blen` bytes
  (`SlipReceiver.DeliveredExactly`). A longer one is written one byte beyond `blen`, because
  the length check comes before the store (`Slip.RxOutExactly`, `SlipReceiver.OneTooMany`).
  It is dropped with length 0 exactly when a decode loop gives up on it and, if that was the
  first of the two loops around the end of the cyclic buffer, the rest of the packet yields
  nothing either: giving up leaves only the first loop, and the second one returns the rest
  as a packet (`Slip.OverlongDroppedExactly`, `Slip.RestReturned`).
* The 8-bit loops of CCM\* stop exactly for messages of at most 240 bytes and associated
  data of at most 254 bytes (`CcmStar.LoopsStopExactly`).
* heapmem with a 32-bit `size_t`: `ALIGN` rounds up exactly for sizes of at most
  SIZE_MAX - 3; the guard of `extend_space` decides as the unbounded sum of used space,
  header and aligned size does exactly when that sum does not wrap or wraps beyond the
  arena; `size_adj` tells growing from shrinking exactly when the difference fits an `int`
  (`HeapMemFacts.AlignExactlyBelowWrap`, `HeapMemFacts.GuardExactly`,
  `HeapMemFacts.SizeAdjExactly`; `HeapMemFacts.GuardFails` is a request that is granted
  without room).
* The generic `max_imax` returns the largest exponent for every Imin of a 16- or 32-bit
  clock. For a 64-bit clock, which the native platform has on 64-bit hosts, it does so
  exactly when Imin - 1 is below 2^32 or has a bit set among bits 32 to 47, and otherwise
  Imin << Imax wraps (`TrickleConfig.MaxImax`, `TrickleConfig.Configure`). The 16- and
  32-bit flavours lack the decrement of the generic one and return one less than the
  largest exponent exactly when Imin is a power of two (`TrickleConfig.MaxImaxUnrolled`).
* `timer_expired` is false on the one tick where the elapsed time plus one wraps to 0
  (`Etimer.ExpiredExactly`). When a process exits, its timers leave the list without an
  update of next_expiration, which stays right exactly when a timer that is left has the
  least distance (`Etimer.StaleExactly`).
* A trickle interval ends without a callback exactly when it was begun inside the callback
  or on a timer that was configured but never set (`TrickleLine.OncePerInterval`,
  `TrickleLine.ResetInsideIsSilent`, `TrickleLine.NeverSetIsSilent`).
* A trickle callback is told to send exactly when fewer than k messages were heard after the
  step that began its interval. That is the number heard from the interval's own start on if
  and only if none of those arrived before that step: a doubling that runs late starts the
  interval where the last one ended but forgets what was heard since, and decides wrongly
  exactly when those messages would have made k (`TrickleLine.DecidedByMessages`,
  `TrickleLine.CountsFromStartExactly`; `TrickleLine.LateDoublingForgets` is an input).
* The comment at `get_t` promises a point in [I/2, I). All of these can be drawn exactly when
  I is even and I/2 does not exceed the number of values of the random generator; the last
  tick of an odd interval is never picked (`TrickleLine.SecondHalfExactly`).
* A stopped trickle timer stays stopped exactly until it is set or hears an inconsistency,
  although the header says that only `trickle_timer_set` resumes it
  (`TrickleLine.StaysStoppedExactly`).
* A swap file that is filled again keeps its old contents exactly when its last id was
  removed while it was already the next file to fill; otherwise it was renewed
  (`SwapIds.Swap.Remove`, `SwapIds.Swap.NewId`).
* The modular delay of a trickle timer is right exactly when the moment is less than half
  the clock range ahead and at most half behind (`Trickle.DelayExact`). The one reachable
  input where it is half the range ahead is a set inside the callback that picks an
  interval of half the range and returns in the same tick: that interval ends at once
  (`Trickle.EndArmedExactly`).
* A comment in trickle-timer.c allows Imin up to half the clock range plus one and the
  header says that k = 0 disables suppression; the code rejects both, and the model
  follows the code.

## Model

| member | source | states |
|---|---|---|
| `Shuffle.RunInv` | mpi/main.c:122-145 | every run keeps each channel equal to what its sender sent and its receiver has not taken, in order, and each rank's number of receives equal to (W-1) times the cells it has finished plus those of its current cell |
| `Shuffle.NoDeadlock` | mpi/main.c:122-145 | every reachable unfinished state has an enabled step: the slowest rank can always send, receive or move on |
| `Shuffle.StepDecreases` | mpi/main.c:122-145 | every step decreases one global measure of the remaining work |
| `Shuffle.RunBounded` | mpi/main.c:122-145 | a run has at most as many steps as the measure of its first state, so every run ends |
| `Shuffle.Completes` | mpi/main.c:122-145 | every reachable state can be continued to one in which all ranks have finished |
| `Shuffle.Drained` | mpi/main.c:122-145 | when all ranks have finished, no message is left in any channel |
| `ShuffleMatching.OneAhead` | mpi/main.c:133-137 | every receive that can happen while a rank collects a cell takes from a sender it has not yet heard from for that cell: its own blocking receives hold the senders back |
| `ShuffleMatching.RunExact` | mpi/main.c:122-145 | in every run of a safe configuration each message received for a cell was sent for that cell, at most one per sender |
| `ShuffleMatching.Mismatch` | mpi/main.c:113-145 | in every unsafe configuration, a run across the cycle boundary in which one cell takes two messages of the same rank |
| `ShuffleMatching.MatchingExactlyWhenSafe` | mpi/main.c:113-145 | all runs match messages to cells if and only if there is one cycle, at most two ranks, or W divides the number of cells |
| `ShuffleResult.WalkResult` | mpi/main.c:122-145 | at the end of any run of a safe configuration a rank holds one entry per owned cell, in order, whose operands are its own value and exactly one message of every other rank, all sent for that cell, and nothing is in flight |
| `ShuffleResult.FoldAnyOrder` | mpi/main.c:133-137 | messages of all other ranks in any order of arrival fold to the value the rank-order fold gives, for an operator that takes two operands in either order |
| `ShuffleResult.ScheduleFree` | mpi/main.c:128-137 | with such an operator every schedule of a safe configuration leaves in every entry the owner's value folded with those of the other ranks in rank order |
| `ShuffleResult.LawIsCommutative` | mpi/utils/noise_sim.c:209-220 | with 0 neutral, as the two checks of sum_noises make it, that law is commutativity and associativity |
| `ShuffleOrder.OrderedRun` | mpi/main.c:122-145 | for three ranks or more, a finished run in which the messages of ranks 1 and 2 for the first cell are folded in either given order |
| `ShuffleOrder.CyclesMix` | mpi/main.c:113-145 | in every unsafe configuration two finished runs leave different levels for one cell |
| `ShuffleOrder.DeterministicExactlyWhen` | mpi/main.c:113-145 | every schedule leaves the same levels for all local values if and only if there are at most two ranks, or the configuration is safe and the operator takes two operands in either order |
| `ShuffleOrder.RoundingShows` | mpi/utils/noise_sim.c:209-220 | an operator with the values of sum_noises at four points makes the result depend on the schedule |
| `WorkSplit.Split` | mpi/main.c:77-101 | counts and displacements tile [0, total) without gap or overlap, and a rank's count is the number of indices c with c mod W equal to the rank |
| `WorkSplit.OwnedClosedForm` | mpi/main.c:90-101 | among the first p cells a rank owns p / W, and one more if its number is below p mod W |
| `WorkSplit.EntryCell` | mpi/main.c:117-138 | the entry of cell c in my_noises is c / W at rank c mod W, inside the array of noises_recv_count entries |
| `WorkSplit.MissedExactly` | mpi/main.c:77-115 | with the counts and displacements of the split, the sources no rank processes are exactly the last ones of the blocks that are one longer |
| `WorkSplit.AllProcessedExactlyWhenDivisible` | mpi/main.c:77-115 | every source is processed by some rank exactly when W divides P + V |
| `NoiseSim.ComputeNoise` | mpi/utils/noise_sim.c:231-245 | every cell becomes the index-order fold, from its old level, of the levels of the processed sources whose square covers it |
| `NoiseSim.PaintSource` | mpi/utils/noise_sim.c:234-243 | one source changes exactly the cells of its square that lie in the grid |
| `NoiseSim.CoversExactly` | mpi/utils/noise_sim.c:234-238 | a source covers exactly the cells at most its distance away in both directions |
| `NoiseSim.Reset` | mpi/utils/noise_sim.c:266-272 | every cell is 0 |
| `NoiseSim.MoveSources` | mpi/utils/noise_sim.c:247-264 | each processed source moves by its reflected step, the others stay, and a slow source inside the grid stays inside |
| `NoiseSim.MovesExactly` | mpi/utils/noise_sim.c:250-262 | a source moves by its speed in the drawn direction, or the opposite one exactly when it would leave |
| `NoiseSim.StaysExactlyWhenSlow` | mpi/utils/noise_sim.c:250-262 | no position and direction leads outside if and only if twice the speed is at most the grid's size |
| `NoiseSim.RankFoldPaints` | mpi/main.c:115-138 | the rank-order sum of what the ranks painted at one place is what painting all their sources one after the other gives |
| `NoiseSim.DistributedIsSequential` | mpi/main.c:113-173 | over any number of cycles of a safe configuration, with sources moved and grids reset in between, each entry is the noise of the sources of all ranks painted sequentially, whatever the schedule |
| `NoiseExact.NoiseNeedsSafe` | mpi/main.c:113-173 | in every unsafe configuration some run of the simulation leaves noise in a cell that no source covers in that cycle |
| `NoiseExact.TwoRanksNeed` | mpi/main.c:113-173 | with two ranks a simulation that always computes the sequential noise has an associative operator, and on two cells or more one that takes two operands in either order |
| `NoiseExact.SequentialExactlyWhen` | mpi/main.c:113-173 | for every non-empty grid, number of ranks and number of cycles, every run computes the sequential noise if and only if the configuration is safe and the operator takes two operands in either order, or is associative for two ranks on one cell, or there is one rank |
| `HeapMem.Heap.FreeChunk` | contiki-ng/os/lib/heapmem.c:170-187 | the last chunk goes back to the unused space and the list stays as it is; any other chunk becomes the first of the free list, in front of the others in their order; the list stays a doubly linked list of exactly the free chunks |
| `HeapHistory.ListAfterRelease` | contiki-ng/os/lib/heapmem.c:170-187 | the list read from its head is, after the release of a chunk that is not the last, that chunk followed by the list before, and else the list before |
| `HeapMem.Heap.AllocateChunk` | contiki-ng/os/lib/heapmem.c:191-208 | the chunk is marked and unlinked from any place of the list; list and other headers stay well formed |
| `HeapHistory.ListKept` | contiki-ng/os/lib/heapmem.c:191-208 | a chunk taken off the list, or several, leave the others in their order |
| `HeapMem.Heap.SplitChunk` | contiki-ng/os/lib/heapmem.c:215-231 | the chunk is cut exactly when its size exceeds the aligned offset by more than a header, and then has that size; it keeps its bytes up to the cut, all other chunks are unchanged, and what was cut off is one free chunk at the head of the list, or unused space if the chunk was the last one |
| `HeapHistory.ListAfterSplit` | contiki-ng/os/lib/heapmem.c:215-231 | what was cut off is in front of the list before, or the list is as before |
| `HeapMemFacts.CutExactly` | contiki-ng/os/lib/heapmem.c:220-222 | a chunk is cut exactly when what is cut off holds a header and at least one byte |
| `HeapMem.Heap.CoalesceChunks` | contiki-ng/os/lib/heapmem.c:235-246 | a chunk absorbs exactly the free chunks between it and the next chunk in use: it keeps flag and bytes, other chunks are untouched, and the free list keeps its order |
| `HeapMem.Heap.DefragChunks` | contiki-ng/os/lib/heapmem.c:250-264 | exactly the free chunks behind the visited ones, up to the next chunk in use, are absorbed, where the visited chunks are those that the walk of at most CHUNK_SEARCH_MAX steps along the list comes to; no live object and no other chunk changes, and the visited chunks that are left are not followed by a free one |
| `HeapSweep.SweepStep` | contiki-ng/os/lib/heapmem.c:257-262 | a visit keeps that no visited chunk had been absorbed before its turn and that every other free chunk is still there or was absorbed by one visited earlier on the list |
| `HeapSweep.VisitedUnique` | contiki-ng/os/lib/heapmem.c:257-262 | the chunks, the free ones and the order of the list determine which chunks are visited |
| `HeapMemFacts.DefragDetermined` | contiki-ng/os/lib/heapmem.c:250-264 | the chunks left, their sizes, the free ones and the order in which they are searched are determined by the heap before |
| `HeapMem.FindBest` | contiki-ng/os/lib/heapmem.c:277-298 | the chunk chosen is the smallest sufficient one among the first CHUNK_SEARCH_MAX of the list, the first of that size; none only if none of these is large enough |
| `HeapMem.Heap.GetFreeChunk` | contiki-ng/os/lib/heapmem.c:268-307 | the best fit among the searched chunks of the heap that defragmentation made becomes a new object, split to the requested size, and all others stay; NULL exactly when no searched chunk of that heap is large enough, and then nothing else changes |
| `HeapMem.Heap.NewChunk` | contiki-ng/os/lib/heapmem.c:336-343 | NULL and nothing changed exactly when header and size exceed the arena, else a new object of that size at the end of the used space |
| `HeapMem.Heap.Alloc` | contiki-ng/os/lib/heapmem.c:327-353 | an object at an aligned offset, disjoint from all others, whose bytes are kept: the best fit of the searched chunks of the defragmented heap, split to size, if one is large enough, else at the end of the used space; NULL changes no object and is returned exactly when neither has room in that heap |
| `HeapMemFacts.ChoiceDetermined` | contiki-ng/os/lib/heapmem.c:327-353 | the heap before and the size determine which chunk heapmem_alloc uses, or that it returns NULL |
| `HeapMem.Heap.Free` | contiki-ng/os/lib/heapmem.c:371-384 | exactly the freed object disappears and its chunk becomes unused space or the head of the free list; NULL is ignored |
| `HeapHistory.FreedLastIsUsedFirst` | contiki-ng/os/lib/heapmem.c:170-307 | an allocation of exactly the size of the chunk freed last, if no free chunk is next to it, uses that chunk |
| `HeapMem.Heap.Shrink` | contiki-ng/os/lib/heapmem.c:435-440 | the object keeps its first bytes in place, gives the surplus back exactly when that is more than a header, and no other object changes |
| `HeapMem.Heap.GrowLast` | contiki-ng/os/lib/heapmem.c:443-452 | the last object grows in place to the new size with all its bytes exactly when the arena has room; otherwise nothing changes |
| `HeapMem.Heap.GrowInPlace` | contiki-ng/os/lib/heapmem.c:453-466 | the object has the room it needs exactly when the chunks behind it are free as far as that reaches; it keeps its bytes in both cases, and without room only the chunks behind it are coalesced |
| `HeapMem.Heap.Relocate` | contiki-ng/os/lib/heapmem.c:474-482 | the object's bytes, including absorbed room, are copied to the place heapmem_alloc chooses and the old one is freed; it fails exactly when heapmem_alloc does, and the object is still there |
| `HeapMem.Heap.Realloc` | contiki-ng/os/lib/heapmem.c:408-483 | the first min(old, new) bytes are preserved wherever the object ends up and no other object changes; the pointer stays exactly when the size does not grow or there is room in place, else the object goes where heapmem_alloc puts it, and NULL, with the object kept, is returned exactly when that fails |
| `HeapMem.Heap.Stats` | contiki-ng/os/lib/heapmem.c:488-508 | allocated + overhead + available is the arena, allocated is the bytes of the live objects, chunks is the number of chunks, no object changes, exactly the free chunks behind a free one are absorbed and none is left |
| `HeapHistory.SameOutcome` | contiki-ng/os/lib/heapmem.c:327-508 | the pointer that answers an allocation, release, reallocation or report, and the chunks, sizes and list order it leaves, depend on the chunks, sizes and list order before alone |
| `HeapHistory.AddressesDetermined` | contiki-ng/os/lib/heapmem.c:327-508 | the same history of requests gives the same pointers and the same failures, whatever clients write into their objects |
| `HeapMem.Heap.Store` | contiki-ng/os/lib/heapmem.c:146-150 | a client writing a byte of its object changes that byte of that object only and keeps the heap well formed |
| `HeapMemFacts.FreeListIsSequence` | contiki-ng/os/lib/heapmem.c:128-150 | read from its head, the free list is a duplicate-free sequence linked both ways, of exactly the free chunks, with NULL at both ends |
| `HeapMemFacts.ObjectsDisjoint` | contiki-ng/os/lib/heapmem.c:107-118 | live objects occupy disjoint ranges inside the arena |
| `HeapMemFacts.AlignExactlyBelowWrap` | contiki-ng/os/lib/heapmem.c:104-105 | the 32-bit ALIGN rounds up exactly for sizes of at most SIZE_MAX - 3 |
| `HeapMemFacts.GuardExactly` | contiki-ng/os/lib/heapmem.c:155-167 | the wrapping guard of extend_space for an allocation agrees with the unbounded one exactly when the sum of used space, header and aligned size is below 2^32 or exceeds the arena even after wrapping |
| `HeapMemFacts.GuardFails` | contiki-ng/os/lib/heapmem.c:332-341 | a request that the wrapping guard grants although its object does not lie in the arena |
| `HeapMemFacts.SizeAdjExactly` | contiki-ng/os/lib/heapmem.c:413-440 | the int size_adj tells shrinking from growing exactly when the difference of the sizes is in the range of an int |
| `RingBuf.ElementsCount` | contiki-ng/os/lib/ringbuf.c:119-122 | the masked pointer difference is the number of bytes accepted and not yet returned |
| `RingBuf.RunInv` | contiki-ng/os/lib/ringbuf.c:53-110 | every interleaving of single steps keeps each unread byte in its slot and both pointers at their counts modulo the size |
| `RingBuf.InterleavingSafe` | contiki-ng/os/lib/ringbuf.c:53-110 | in every interleaving of a producer's and a consumer's memory steps, for every power-of-two size, returned bytes are a prefix of accepted bytes, at most size - 1 are held, and no unread slot is about to be overwritten |
| `RingBuf.ChecksExactly` | contiki-ng/os/lib/ringbuf.c:53-110 | in every reachable state a get goes on exactly when a byte is held and a put exactly when less than size - 1 bytes are; a call that does not go on changes nothing |
| `RingBuf.Drains` | contiki-ng/os/lib/ringbuf.c:80-110 | from every reachable state the consumer's steps alone hand out all bytes that were accepted |
| `RingBuf.Ring.Put` | contiki-ng/os/lib/ringbuf.c:53-77 | the byte is appended, or refused exactly when size - 1 bytes are held, as an uninterrupted run of the producer's steps |
| `RingBuf.Ring.Get` | contiki-ng/os/lib/ringbuf.c:80-110 | the oldest unread byte, or -1 exactly when there is none, as an uninterrupted run of the consumer's steps |
| `SerialLine.Driver.InputByte` | contiki-ng/os/dev/serial-line.c:65-90 | CR is ignored; any other byte is recorded as let through or not, and it is refused only while the rest of a line is dropped or when the ring is full |
| `SerialLines.LineBytes` | contiki-ng/os/dev/serial-line.c:49-55 | byte 10 ends a line and every other byte extends it; 13 is the one that is ignored |
| `SerialLine.Driver.Consume` | contiki-ng/os/dev/serial-line.c:102-131 | the oldest byte of the ring is taken into the buffer; at a line end the broadcast takes one of the free event slots and the event to wait for a second one |
| `SerialLine.Driver.Deliver` | contiki-ng/os/sys/process.c:261-285 | handlers of the oldest broadcast see the string that the buffer holds when they run |
| `SerialReader.RunInv` | contiki-ng/os/dev/serial-line.c:102-131 | in every run lines are broadcast at most once and in order, the buffer always ends in a zero, and a line whose handlers the consumer waits for is seen as it was |
| `SerialReader.TextExactly` | contiki-ng/os/dev/serial-line.c:116-124 | what a handler reads from the buffer is everything up to the first zero |
| `SerialReader.IntactExactlyWithTwoSlots` | contiki-ng/os/dev/serial-line.c:116-129 | a line is seen as it was in every continuation if and only if the event queue has two free slots when it ends |
| `SerialReader.LostIsGone` | contiki-ng/os/sys/process.c:335-344 | a line whose broadcast is refused is never seen |
| `SerialReader.ExposedIsOverwritten` | contiki-ng/os/dev/serial-line.c:124-129 | with exactly one free slot some continuation shows handlers another text |
| `SerialLine.DriverNeverSplices` | contiki-ng/os/dev/serial-line.c:65-131 | at any point of any run each line seen with the consumer waiting is a prefix of one input line, and such lines come from strictly increasing input lines |
| `SerialLine.DriverMissesNothing` | contiki-ng/os/dev/serial-line.c:65-131 | if the ring refused no byte and the event queue no post, then once all is taken and handled every input line was seen once, in order, cut to the buffer |
| `SerialLine.InterleavingNeverSplices` | contiki-ng/os/dev/serial-line.c:65-131 | the same absence of splicing in every interleaving of the single memory accesses of interrupt and consumer, whatever the event queue accepts |
| `SlipCodec.Write` | contiki-ng/os/dev/slip.c:94-115 | the bytes sent are END, the escaped packet, END |
| `SlipCodec.WireBytes` | contiki-ng/os/dev/slip.c:38-41 | 192 ends a packet, 219 220 stands for 192, 219 221 for 219, other bytes for themselves, as RFC 1055 has it |
| `SlipCodec.RoundTrip` | contiki-ng/os/dev/slip.c:102-160 | the receiver's decoding undoes the sender's escaping, whatever was decoded before |
| `SlipCodec.EscapeHasNoEnd` | contiki-ng/os/dev/slip.c:102-112 | an escaped packet contains no END and is at least as long as the packet |
| `SlipCodec.ScanFits` | contiki-ng/os/dev/slip.c:137-160 | the decode loop with its length check gives the whole decoding when that fits blen |
| `SlipCodec.ReachBound` | contiki-ng/os/dev/slip.c:140-160 | the decode loop writes at most one byte beyond blen, and it writes that byte exactly for a packet longer than blen |
| `SlipCodec.TwoScans` | contiki-ng/os/dev/slip.c:162-206 | the two decode loops in a row give the decoding of both parts, nothing if the second gives up, or, if the first gives up, what the second part alone decodes to |
| `SlipQueue.PlayAccounted` | contiki-ng/os/dev/slip.c:125-331 | in every disciplined run of byte inputs and polls, packets polled and packets waiting are together the frames of the bytes heard, in order |
| `SlipQueue.StreamFrames` | contiki-ng/os/dev/slip.c:94-115 | cutting a stream of escaped non-empty packets at END, with or without leading END, and decoding gives the packets |
| `SlipQueue.StreamWell` | contiki-ng/os/dev/slip.c:102-112 | in a stream of escaped packets every ESC is followed by one of the two codes |
| `Slip.RxByteReps` | contiki-ng/os/dev/slip.c:270-331 | slip_input_byte on registers that represent a queue, for a byte with room, gives registers that represent the queue with that byte |
| `Slip.RxPollReps` | contiki-ng/os/dev/slip.c:208-241 | a poll of registers that represent a queue leaves registers that represent the rest, also around the end of the buffer |
| `Slip.RxOutExactly` | contiki-ng/os/dev/slip.c:125-206 | a poll of a represented queue keeps to blen bytes of its output buffer exactly when the decoded first frame fits, and then returns it |
| `Slip.RxOutAlways` | contiki-ng/os/dev/slip.c:125-206 | what a poll returns for every frame: the decoding, nothing if a loop gives up on it, or the decoding of the part behind the buffer's end when the first of two loops gives up |
| `Slip.OverlongDroppedExactly` | contiki-ng/os/dev/slip.c:162-206 | a frame longer than blen yields length 0 if and only if a loop gives up on it and, if that was the first of two, the rest of the frame yields nothing |
| `Slip.RestReturned` | contiki-ng/os/dev/slip.c:162-206 | a four-byte packet around the end of an eight-byte buffer, polled with blen 1, returns its last byte as a packet |
| `Slip.PollReps` | contiki-ng/os/dev/slip.c:208-236 | removing a frame, also across the buffer's end, leaves a representation of the remaining frames |
| `Slip.FrameDecoded` | contiki-ng/os/dev/slip.c:137-206 | the decode loops, over one range or two, give the first frame of the queue |
| `Slip.Receiver.InputByte` | contiki-ng/os/dev/slip.c:270-331 | the registers step as the machine over them does; as long as bytes are covered they stand for the queue with the byte added, and 1 is returned when the byte closes a frame |
| `Slip.Receiver.DecodeRange` | contiki-ng/os/dev/slip.c:140-160 | the output buffer holds the decoding with its length check, and is untouched from the reach of the loop on |
| `Slip.Receiver.Poll` | contiki-ng/os/dev/slip.c:125-241 | what is returned, for frames that fit and for those that do not, is the scan of the frame in one or two ranges; no byte beyond its reach is written; the frame is removed |
| `SlipReceiver.PlayRefines` | contiki-ng/os/dev/slip.c:125-331 | in every disciplined run that never finds the buffer full, the cyclic buffer represents the queue of frames and polls return the same |
| `SlipReceiver.PollsReturnPackets` | contiki-ng/os/dev/slip.c:94-331 | for a buffer of any size, any stream of packets that fit blen and any disciplined interleaving with polls that never finds the buffer full, polls return the packets in order and unchanged, and all of them once no frame is seen |
| `SlipReceiver.DeliveredExactly` | contiki-ng/os/dev/slip.c:94-331 | a packet written with a leading END is returned within blen bytes if and only if no frame was waiting, it leaves a cell of the buffer free, and it has at most blen bytes |
| `SlipReceiver.OneTooMany` | contiki-ng/os/dev/slip.c:138-160 | a packet of blen + 1 bytes in one piece is returned whole with its last byte behind the output buffer |
| `SlipReceiver.FaultDropsOneFrame` | contiki-ng/os/dev/slip.c:270-331 | with no frame waiting, a byte for which there is no room, or one behind an ESC that is no code, costs exactly the bytes up to the next END; then the receiver is empty |
| `SlipReceiver.NextPacketArrives` | contiki-ng/os/dev/slip.c:270-331 | the packet written after such a fault is in the buffer as the frame to read |
| `TrickleConfig.MaxImax` | contiki-ng/os/lib/trickle-timer.c:97-112 | the largest exponent with Imin << e at most half the clock range, for 16- and 32-bit clocks always and for a 64-bit clock exactly for a regular Imin |
| `TrickleConfig.MaxImaxUnrolled` | contiki-ng/os/lib/trickle-timer.c:114-152 | the 16- and 32-bit flavours return the largest exponent exactly when Imin is not a power of two, and one less than it otherwise |
| `TrickleConfig.IpairExact` | contiki-ng/os/lib/trickle-timer.h:321-322 | for shift counts below the clock width the check holds exactly when Imin << Imax exceeds half the clock range |
| `TrickleConfig.Configure` | contiki-ng/os/lib/trickle-timer.c:330-374 | success exactly for 1 < Imin < half the clock range with Imax and k not 0; the exponent in use is the requested one if it fits, else the largest; i_max_abs does not wrap exactly when the pair fits or Imin is regular |
| `TrickleLine.RunInv` | contiki-ng/os/lib/trickle-timer.c:157-327 | every run keeps Imin <= I <= Imax, I/2 <= t < I, completed intervals contiguous and doubled up to Imax between resets, their callbacks, and the pending callback matching the interval's stage |
| `TrickleLine.Uninterrupted` | contiki-ng/os/lib/trickle-timer.c:205-240 | between resets interval j starts where the lengths before it put it, however late callbacks were, and has length min(2^(j-i) I, Imax) |
| `TrickleLine.OncePerInterval` | contiki-ng/os/lib/trickle-timer.c:260-283 | in every run each completed interval called back once, not before t, except, exactly, those begun inside the callback or before a callback was registered |
| `TrickleLine.DecidedByMessages` | contiki-ng/os/lib/trickle-timer.c:260-283 | in every run of a timer that was not running, the callback of each completed interval is told to send exactly when k is 0 or the number of consistent messages among the steps between the one that began the interval and the callback is below k |
| `TrickleLine.CountsFromStartExactly` | contiki-ng/os/lib/trickle-timer.c:192-255 | that number is the number of messages heard at times from the interval's start on if and only if none of them arrived before the step that began the interval; the decision is wrong exactly when the forgotten ones would have made k |
| `TrickleLine.LateDoublingForgets` | contiki-ng/os/lib/trickle-timer.c:192-255 | a run in which a doubling two ticks late forgets a message, and the interval [4, 12) sends with k = 1 although one message was heard in it |
| `TrickleLine.ResetInsideIsSilent` | contiki-ng/os/lib/trickle-timer.c:260-303 | a reset inside the callback begins an interval that completes without a callback |
| `TrickleLine.NeverSetIsSilent` | contiki-ng/os/lib/trickle-timer.c:270-283 | an inconsistency on a configured timer that was never set starts an interval that completes without a callback |
| `TrickleLine.EndIsNear` | contiki-ng/os/lib/trickle-timer.c:168-187 | at the return from the callback the interval's end is less than half the clock range ahead, except exactly when a set inside the callback picked half the range and the same tick returns |
| `TrickleLine.NeverStalls` | contiki-ng/os/lib/trickle-timer.c:260-303 | outside callbacks a timer runs exactly when its next callback is scheduled, in every run |
| `TrickleLine.DueExactly` | contiki-ng/os/lib/trickle-timer.c:165-305 | in every run the next callback is due exactly at t, or at the end of the interval, or at once if that is past |
| `TrickleLine.BeginsExactly` | contiki-ng/os/lib/trickle-timer.c:288-408 | a set or reset begins an interval at its own time with nothing heard; a reset takes Imin and does nothing when the interval is Imin |
| `TrickleLine.PointsExactly` | contiki-ng/os/lib/trickle-timer.c:155-163 | the points t that can be drawn are I/2 on, as many as half the interval has ticks and the random generator values |
| `TrickleLine.SecondHalfExactly` | contiki-ng/os/lib/trickle-timer.c:155-163 | all of [I/2, I) can be drawn if and only if I is even and I/2 is at most the number of values of the random generator |
| `TrickleLine.LengthsExactly` | contiki-ng/os/lib/trickle-timer.c:390-393 | the lengths a set can pick are all from Imin to Imax, as far as the random generator has values |
| `TrickleLine.StaysStoppedExactly` | contiki-ng/os/lib/trickle-timer.h:450-453 | a stopped timer, also one stopped inside its own callback, is stopped throughout a run if and only if the run has no set and no inconsistency |
| `TrickleLine.StopSilences` | contiki-ng/os/lib/trickle-timer.h:450-453 | after a stop no callback is called and no interval ends until a set or an inconsistency |
| `Trickle.DelayExact` | contiki-ng/os/lib/trickle-timer.c:225-236 | for moments up to half the clock range ahead and less than the range behind, the modular delay is the true one, or 0 if late, exactly when the moment is less than half the range ahead and at most half behind |
| `Trickle.EndArmedExactly` | contiki-ng/os/lib/trickle-timer.c:168-187 | the delay until the interval's end is right except exactly for an interval of half the clock range begun in the same tick inside the callback, where it is 0 |
| `Trickle.EndArmed` | contiki-ng/os/lib/trickle-timer.c:168-187 | the modular delay of schedule_for_end reaches the interval's end on the unwrapped timeline, or now if that is past |
| `Trickle.BegunReps` | contiki-ng/os/lib/trickle-timer.c:288-303 | the fields new_interval sets represent an interval that begins now, with its callback t ticks on |
| `Trickle.FireReps` | contiki-ng/os/lib/trickle-timer.h:249-250 | the decision by the saturating 8-bit counter equals the decision by the number of messages heard |
| `Trickle.EndReps` | contiki-ng/os/lib/trickle-timer.c:192-255 | doubling in modular arithmetic represents the next interval of the unwrapped timeline |
| `Trickle.Timer.Configure` | contiki-ng/os/lib/trickle-timer.c:330-374 | for a timer that does not run: a success stores a configuration within the clock's range, an error changes nothing, and the callback registered before is kept |
| `Trickle.Timer.Set` | contiki-ng/os/lib/trickle-timer.c:377-408 | an interval of a length in [Imin, Imax] begins now, with counter 0 and its callback pending |
| `Trickle.Timer.Fire` | contiki-ng/os/lib/trickle-timer.c:260-283 | with a callback registered it is told to send exactly when suppression is off or fewer than k messages were counted since the step that began this interval; without one the end of the interval is scheduled at once |
| `Trickle.Timer.Return` | contiki-ng/os/lib/trickle-timer.c:280-283 | a running timer is scheduled for the end of its interval, at once if that is past |
| `Trickle.Timer.DoubleInterval` | contiki-ng/os/lib/trickle-timer.c:192-255 | the next interval starts where the last one ended, with min(2I, Imax) ticks and its callback at t after that, at once if late |
| `Trickle.Timer.Consistency` | contiki-ng/os/lib/trickle-timer.c:308-314 | one more message heard; the counter is one more, up to 255, and still represents the number |
| `Trickle.Timer.Inconsistency` | contiki-ng/os/lib/trickle-timer.c:317-327 | a new interval of Imin begins unless I is Imin already |
| `Trickle.Timer.Stop` | contiki-ng/os/lib/trickle-timer.h:450-453 | no interval and no pending callback |
| `LinkedList.List.Tail` | contiki-ng/os/lib/list.c:117-128 | the last element, or NULL |
| `LinkedList.List.Add` | contiki-ng/os/lib/list.c:142-158 | the element is last, once, and the others keep their order |
| `LinkedList.List.Push` | contiki-ng/os/lib/list.c:164-171 | the element is first, once, and the others keep their order |
| `LinkedList.List.Remove` | contiki-ng/os/lib/list.c:237-260 | the element is gone and its pointer cleared, the others keep their order; nothing changes if it was not listed |
| `LinkedList.List.ItemNext` | contiki-ng/os/lib/list.c:322-325 | the successor in the list, or NULL |
| `NbrBits.CountUsers` | contiki-ng/os/net/nbr-table.c:248-256 | the number of set bits |
| `NbrBits.UsersAreTables` | contiki-ng/os/net/nbr-table.c:248-256 | the number of set bits is the number of tables that use the neighbor |
| `NbrBits.PutBit` | contiki-ng/os/net/nbr-table.c:164-179 | setting a bit to a value changes that table's bit only |
| `NbrTable.FirstFree` | contiki-ng/os/lib/memb.c:59-76 | the first slot with count 0, or none exactly when all are taken |
| `NbrTable.FindVictim` | contiki-ng/os/net/nbr-table.c:241-268 | the neighbor found is not locked, used by the fewest tables among those not locked, and the oldest of these; none exactly when all are locked |
| `NbrTable.CallsExact` | contiki-ng/os/net/nbr-table.c:185-193 | an eviction calls back exactly once each table that uses the neighbor and has a callback, and no other |
| `NbrTable.EvictedItems` | contiki-ng/os/net/nbr-table.c:182-198 | an evicted neighbor disappears from all tables at once and no other item changes |
| `NbrTable.ListingExact` | contiki-ng/os/net/nbr-table.c:324-347 | the enumeration has each used listed neighbor exactly once and no other |
| `NbrTable.ListingInOrder` | contiki-ng/os/net/nbr-table.c:324-347 | the enumeration follows the order of the list |
| `NbrTable.EnumerationIsDomain` | contiki-ng/os/net/nbr-table.c:324-401 | an address has an item in a table exactly when the enumeration of that table visits its neighbor |
| `NbrTable.DroppedItems` | contiki-ng/os/net/nbr-table.c:405-410 | removal from one table affects no other table and no other neighbor |
| `NbrTable.DroppedBits` | contiki-ng/os/net/nbr-table.c:405-410 | removal clears the table's used bit and locked bit of the neighbor and no other bit |
| `NbrTable.RemovedCanBeEvicted` | contiki-ng/os/net/nbr-table.c:245-265 | a neighbor that only this table locked can be evicted again after its removal, so a full table is not blocked |
| `NbrTable.LockSetItems` | contiki-ng/os/net/nbr-table.c:413-432 | locking and unlocking change that table's lock of that neighbor and no item |
| `NbrTable.LockSetBits` | contiki-ng/os/net/nbr-table.c:413-432 | locking and unlocking change one table's lock of one neighbor and no other bit |
| `NbrTable.LockedStays` | contiki-ng/os/net/nbr-table.c:245-265 | while any table locks a neighbor, additions keep its items in all tables, except the one being cleared |
| `NbrTable.Neighbors.IndexFromAddr` | contiki-ng/os/net/nbr-table.c:131-147 | the listed slot with the address, or none |
| `NbrTable.Neighbors.RemoveKey` | contiki-ng/os/net/nbr-table.c:182-198 | the neighbor is unlisted and unused, after the callbacks of the tables that used it |
| `NbrTable.Neighbors.MembAlloc` | contiki-ng/os/lib/memb.c:59-76 | a free slot becomes allocated; none exactly when every slot holds a listed neighbor |
| `NbrTable.Neighbors.Allocate` | contiki-ng/os/net/nbr-table.c:201-279 | a free slot if there is one, else the victim's, evicted with its callbacks; none exactly when the table is full and every neighbor locked |
| `NbrTable.Neighbors.Add` | contiki-ng/os/net/nbr-table.c:351-393 | the table maps the address to a zeroed item; a new neighbor is listed last; only the victim, if the table was full, leaves the maps; failure exactly when a new address meets a table full of locked neighbors, and then nothing changes |
| `NbrTable.Neighbors.Get` | contiki-ng/os/net/nbr-table.c:397-401 | lookup agrees with the abstract map from table and address to item |
| `NbrTable.Neighbors.Remove` | contiki-ng/os/net/nbr-table.c:405-410 | the neighbor's used and locked bits of this table are cleared and nothing else changes; 0 for no item |
| `NbrTable.Neighbors.SetLock` | contiki-ng/os/net/nbr-table.c:413-432 | lock and unlock set and clear this table's locked bit; 0 for no item |
| `NbrTable.Neighbors.Next` | contiki-ng/os/net/nbr-table.c:337-347 | the next item of the table in list order, none after the last or an unlisted one |
| `NbrTable.Neighbors.Head` | contiki-ng/os/net/nbr-table.c:324-334 | the first item of the table in list order |
| `NbrTable.Neighbors.Enumerate` | contiki-ng/os/net/nbr-table.c:324-347 | a walk with head and next visits exactly the used items of the table, once each, in insertion order |
| `CcmStar.AuthFlagsFormat` | contiki-ng/os/lib/ccm-star.c:46-46 | the flags byte has the Adata bit, (M - 2) / 2 and L - 1 in the fields of section 2.2 of RFC 3610 |
| `CcmStar.Encrypt` | contiki-ng/os/lib/ccm-star.c:74-74 | the block is replaced by its image under the cipher |
| `CcmStar.SetIv` | contiki-ng/os/lib/ccm-star.c:51-60 | flags, nonce and two-byte counter, as the block formats of RFC 3610 have them |
| `CcmStar.CtrStep` | contiki-ng/os/lib/ccm-star.c:64-79 | up to 16 bytes from pos are XORed with the encrypted counter block, the others stay |
| `CcmStar.Ctr` | contiki-ng/os/lib/ccm-star.c:130-141 | byte i is XORed with byte i mod 16 of the key-stream block 1 + i / 16 |
| `CcmFormat.MessageOctet` | contiki-ng/os/lib/ccm-star.c:64-79 | octet i is masked with octet i mod 16 of the cipher's image of the block with flags 1, the nonce, 0 and the number i / 16 + 1 |
| `CcmFormat.CounterBlocksDiffer` | contiki-ng/os/lib/ccm-star.c:130-141 | the blocks encrypted for different 16-byte parts of a message differ from each other and from the one that masks the MIC |
| `CcmFormat.FirstBlockDiffers` | contiki-ng/os/lib/ccm-star.c:46-60 | the block that starts the CBC-MAC differs from every counter block |
| `CcmStar.LoopsStopExactly` | contiki-ng/os/lib/ccm-star.c:103-140 | the 8-bit position loops stop exactly for lengths of at most 240 from 0 and 254 from 14 |
| `CcmStar.PositionAt` | contiki-ng/os/lib/ccm-star.c:103-140 | k steps of the 8-bit position from a start give (start + 16 k) mod 256 |
| `CcmStar.CbcRunIsMac` | contiki-ng/os/lib/ccm-star.c:104-121 | absorbing 16 bytes at a time without padding is the CBC-MAC over the zero-padded blocks |
| `CcmStar.CbcMacAppend` | contiki-ng/os/lib/ccm-star.c:95-122 | chaining over associated data and then the message is the CBC-MAC over both block sequences |
| `CcmStar.Absorb` | contiki-ng/os/lib/ccm-star.c:103-121 | the outer loops with their 8-bit position absorb all data from the start position on |
| `CcmStar.Authenticate` | contiki-ng/os/lib/ccm-star.c:92-122 | the CBC-MAC over B_0, the length-prefixed associated data and the message |
| `CcmStar.ComputeMic` | contiki-ng/os/lib/ccm-star.c:82-127 | the first bytes of that CBC-MAC masked with S_0; the rest of the result buffer stays |
| `CcmFormat.MicOctet` | contiki-ng/os/lib/ccm-star.c:82-127 | each octet of the MIC is that of the end of the cipher chain from B_0 over the blocks, masked with the image of the block with flags 1, the nonce and 0 |
| `CcmFormat.CbcMacIsChain` | contiki-ng/os/lib/ccm-star.c:95-122 | each value of the chain is the cipher's image of the octet-wise XOR of the one before with the next block |
| `CcmFormat.AssociatedOctets` | contiki-ng/os/lib/ccm-star.c:95-113 | the blocks of the associated data are its length in two octets, the data and zeros; there are none without data |
| `CcmFormat.MessageOctets` | contiki-ng/os/lib/ccm-star.c:115-122 | the blocks of the message are its octets and zeros |
| `CcmStar.CryptInvolution` | contiki-ng/os/lib/ccm-star.c:130-141 | counter mode applied twice restores the message |
| `CcmStar.AeadRoundTrip` | contiki-ng/os/lib/ccm-star.c:150-171 | backward after forward restores the message and yields the same MIC |
| `CcmStar.Aead` | contiki-ng/os/lib/ccm-star.c:150-171 | forward and backward compute the two sides of that round trip, with the MIC over the plain message |
| `SwapIds.Swap.RenewFile` | contiki-ng/os/net/queuebuf.c:141-158 | renewing a renewable file discards no outstanding buffer and keeps every file's usage equal to its outstanding ids |
| `SwapIds.Swap.RenewAll` | contiki-ng/os/net/queuebuf.c:162-170 | no file is renewable afterwards and exactly the contents of those that were are thrown away |
| `SwapIds.Swap.Remove` | contiki-ng/os/net/queuebuf.c:174-192 | the id is no longer outstanding; its file becomes renewable exactly when it is left empty and is not the next file to fill; that one becomes stale exactly when its last id is removed before any of its ids is handed out anew |
| `SwapIds.Swap.NewId` | contiki-ng/os/net/queuebuf.c:195-211 | the id issued is the next one, not outstanding, and the next one after it follows cyclically; -1 exactly when the next file to fill still holds outstanding ids, and then nothing changes; the old contents of a file that is filled again are thrown away exactly when it was not stale |
| `SwapIds.IssuedInTurn` | contiki-ng/os/net/queuebuf.c:195-211 | in every run, whatever was removed and refused in between, the ids issued are 0, 1, 2, ... in turn modulo 1024 |
| `SwapIds.FillsAllSlots` | contiki-ng/os/net/queuebuf.c:195-211 | with nothing removed the first 1024 calls are answered 0 to 1023 and the next one -1 |
| `Etimer.ExpiredExactly` | contiki-ng/os/sys/timer.c:122-129 | a timer counts as expired exactly when its interval has elapsed modulo the clock, except on the one tick where adding 1 wraps to 0 |
| `Etimer.DistanceExactly` | contiki-ng/os/sys/etimer.c:66-75 | the distance lies in the clock's range and leads from now to start + interval |
| `Etimer.DistanceRemaining` | contiki-ng/os/sys/etimer.c:66-75 | on an unwrapped timeline it is the time left, for a timer due less than a clock range ahead |
| `Etimer.SweepConserves` | contiki-ng/os/sys/etimer.c:112-137 | a pass posts each timer at most once and loses none: posted and remaining timers are together the list, and a due timer remains only when the queue is full |
| `Etimer.SweepComplete` | contiki-ng/os/sys/etimer.c:112-137 | with room for all, exactly the due timers are posted, in order, and the others remain in order |
| `Etimer.Least` | contiki-ng/os/sys/etimer.c:68-75 | the loop finds the least value over the list |
| `Etimer.Module.UpdateTime` | contiki-ng/os/sys/etimer.c:58-78 | next_expiration is now plus the least modular distance over the list, 0 without timers |
| `Etimer.Module.AddTimer` | contiki-ng/os/sys/etimer.c:151-174 | the timer is on the list once, at the front if it was not there, owned by the current process; the list stays duplicate-free with an owner on every timer |
| `Etimer.Module.Set` | contiki-ng/os/sys/etimer.c:177-181 | the same with start and interval set |
| `Etimer.Module.Stop` | contiki-ng/os/sys/etimer.c:243-270 | the timer is off the list without owner, the others keep their order, and next_expiration is up to date if it was on the list and unchanged otherwise |
| `Etimer.Module.FindExpired` | contiki-ng/os/sys/etimer.c:114-137 | the first due timer whose event the queue accepts and its predecessor; none exactly when no due timer can be posted |
| `Etimer.Module.Poll` | contiki-ng/os/sys/etimer.c:112-137 | the pass ends; due timers are posted to the owners they had, in list order, as far as there is room; they lose their owner, all others stay in order, next_expiration is up to date after a post, and another poll is requested exactly when a due timer remains |
| `Etimer.Module.Exited` | contiki-ng/os/sys/etimer.c:91-107 | exactly the timers of the exited process leave the list, the others stay in order |
| `Etimer.StaleExactly` | contiki-ng/os/sys/etimer.c:91-107 | after timers leave the list without an update, next_expiration is right exactly when one that is left has the least distance of the old list, or none is left and it is 0 |

## Left out

- MQTT, mosquitto and libconfig glue and the MPI datatype setup: I/O over libraries that are not part of this model.
- The floating-point body of `sum_noises`: it is an arbitrary operator with 0 neutral; `ShuffleOrder.RoundingShows` takes four of its values as given.
- `MPI_Isend` is treated as copying its value at once; that the sender leaves `noise_sqm` alone until delivery, across `reset_matrix`, is not modelled.
- The dataset initialisation, the debug gather and the sleep between cycles.
- HeapMem.Heap.Alloc: sizes are unbounded; where the 32-bit sums of the source wrap, it grants requests without room, as `HeapMemFacts.GuardExactly` says exactly. The alignment is that of the offset in the arena, because `heap_base` is a plain array of characters.
- HeapMem.Heap.Realloc: sizes are unbounded; for growth by 2^31 or more the source takes the branch that shrinks, as `HeapMemFacts.SizeAdjExactly` says exactly.
- heapmem: a header occupies the cells of its size with all fields in the first one; the debug fields are absent; the header size is a multiple of the alignment.
- SlipReceiver.DeliveredExactly: the buffer does not overflow behind a waiting frame; after such an overflow polls read stale cells. Interrupts inside `slip_poll_handler` are not modelled.
- Slip.Receiver.InputByte: after an overflow, an invalid escape or an escape cut by END while a frame is waiting, the registers still step as in the source, but nothing is said about frames; with no frame waiting see `SlipReceiver.FaultDropsOneFrame`.
- SerialReader.IntactExactlyWithTwoSlots: other processes enter only through the number of free slots and the order of events; a handler reads the whole string at once. A buffer of one byte is excluded.
- SwapIds.Swap.RenewFile: the file system is the set of ids whose contents it still holds; reads, writes and the tmpdata cache are absent. The model starts after `queuebuf_init`.
- The rounds and tables of AES: the block cipher is an arbitrary function on 16-byte blocks.
- TrickleConfig.IpairExact: shift counts of the clock width or more have no defined result in C and are excluded, here and in `TrickleConfig.Configure`.
- Trickle.Timer.Return: callbacks more than half the clock range late, and the one input of `Trickle.EndArmedExactly`, are excluded, because the modular delay is then wrong. The build without drift compensation and the wide random generator are absent; random draws are parameters.
- Trickle.Timer.Configure: reconfiguring a running timer, which may leave I outside the new bounds until the next interval, is not modelled.
- NbrTable.Neighbors.Add: the build with NBR_TABLE_FIND_REMOVABLE and the reason argument are absent; callbacks are recorded and do not call back into the table; an item is one value.
- NbrTable: all eight tables count as registered, each with or without a callback; registration itself is absent. `memb_free`, `memb_inmemb` and `memb_numfree` are not used by the table and are absent.
- Etimer.Module.Poll: the clock stands still during a pass and the queue accepts a given number of events.
- Etimer: `etimer_reset`, `etimer_restart` and `etimer_adjust` would only repeat `Set` with other start times.
- The other list variants, crc16, ifft, link-stats and energest: easier members.
- The noise-sensor and MQTT client state machines, drivers, examples and user interface: wrappers over code that is not part of this model.
