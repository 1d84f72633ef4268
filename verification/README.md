# jhcommon: a verified model

jhcommon is a C++ utility library. This project models its stateful core in Dafny and proves what that core is for.

| file | models |
|---|---|
| `CircularBuffer.dfy` | the byte ring of `src/CircularBuffer.cpp`, refining a bounded FIFO |
| `LinkedList.dfy` | the sentinel-bounded doubly linked list of `include/jh_list.h`, on the heap |
| `EventQueue.dfy` | the priority queue of `src/EventQueue.cpp`, over that list |
| `Dispatch.dfy` | blocking sends, the queue and the wake-up pipe as a step system of many sender threads and one dispatcher thread |
| `Allocator.dfy` | the first-fit allocator of `src/Allocator.cpp`, in eager and in lazy mode |
| `TimeUtils.dfy` | `getDifference` and `addOffset` of `include/TimeUtils.h` |
| `Remainders.dfy` | which left-over milliseconds of an overflowing period keep a timer at its tick |
| `Timer.dfy` | the tick timer of `src/Timer.cpp`: 32-bit ticks, the firing loop, the catch-up loop |
| `TimerRuns.dfy` | every run of that timer, against the schedule its periods call for |
| `HttpHeader.dfy` | printing and parsing header fields, `src/HttpHeaderBase.cpp` (section 4.2 of RFC 2616) |
| `Uri.dfy` | printing and parsing URIs, `src/URI.cpp` (section 3 of RFC 2396) |
| `Integers.dfy`, `Options.dfy` | 32-bit wrap-around, C division, a little arithmetic, and a value that may be missing |

Objects that the library updates in place are classes here. Each has an abstract value (a ghost sequence, or a function
of the fields), methods proved against functions of that value, and lemmas about those functions. Threads are actions of
a step system; whole runs are sequences of operations. Pointers into a buffer are offsets.

## How the parts hang together

* `Dispatch` sends with the same `Enqueue` that `EventQueue.SendEvent` is proved to perform on the linked list, so the
  safety of synchronous sends rests on the heap-level list. `SyncSendsAreSafe` and `PollNeverStrandsAnEvent` speak of
  every reachable state; `EverythingFinishes` bounds the steps of any schedule, once no new call arrives. The queue of any
  run is that of its queue operations alone (`DispatchFollowsQueue`), so the laws of `EventQueues` say what is dispatched.
* `Timers.Drain` is the firing loop. `Timer.HandleTick` is proved to perform it with wrapped ticks, `DrainRefines` shows
  that unbounded ticks give the same, and `EveryTimerKeepsItsSchedule` says of every run, on unbounded ticks, that what
  was added fires exactly when due. `CodeKeepsSchedule` says the same of what the run with the wrapped counter fires,
  `CodeRun`, up to a timer's removal if there is one, with the schedule read off the operations alone. `WakeUpInRun`
  says that a wake-up of the clock thread goes on with such a run.
* `Header.ReadFields` loops over a `CircularBuffer`; `BlockRoundTrip` says what it stores when the buffer holds what
  `Header.BuildHeader` wrote. `Header.ReceiveFields` fills the ring read by read; it stores the same fields into whatever
  pieces the reads cut the block (`AnyReadsGiveBlock`), if every line fits the ring.
* `URI.SetString` and `URI.GetString` are tied to `Parse` and `Build`; `RoundTrip` says exactly which URIs come back, of
  all there are, and `TextIsItsParts` how any text is taken apart.

## What turned out false of the code

Each of these is stated with the condition under which the code does meet the property.

* `handleTick` need not end. For every list whose periods meet `Timers.PeriodOk` it does, whatever the ticks and the
  left-over milliseconds (`Timers.EveryListEnds`); and a timer alone in the list, when `handleTick` first finds it due
  after it was added, makes it end exactly when its period does (`Timers.AddedTimerEndsIff`). A period whose sum with the tick length p fits 32 bits meets it, but for 2^31 with
  ticks of 1 ms. A longer one, 2^32 - s with 0 < s < p, meets it exactly when 2^32 % p is below s or, with g the greatest
  common divisor of the two, 2^32 % p + s - g is at least p (`Remainders.FreesIff`). The longest period of all, 2^32 - 1,
  is put back as it was with ticks of 3 ms (`Timers.LongestPeriodSticks`).
* A block has room for its request exactly when the size computed in 32 bits does not wrap (`Allocators.TotalSizeIff`).
  Within 7 bytes of 2^32 a request is granted a header alone (`Allocators.OverflowIsServed`); below that the size that
  wraps does not even hold a header (`Allocators.WrappedSizeIff`, `Allocators.OverflowExample`).
* The queue is served by priority exactly as long as no normal event is sent behind a negative one
  (`EventQueues.EnqueueKeepsOrderIff`, `EventQueues.NegativePrioritiesBreakOrder`).
* `peekLine` finds the line but for three failures (`CircularBuffers.CircularBuffer.PeekLine`). With the read pointer at
  the end of the storage it fetches a byte from beyond it; with the write pointer there and no terminator it loops for
  ever; and when the buffer is full, the read offset is not 0 and the only terminator is the last byte, it passes the
  length -1 to `assign`. All three states are reached in a ring of two bytes (`BeyondBufferIsReached`,
  `EndlessIsReached`, `BadLengthIsReached`).
* The agent's loop over header lines hangs exactly when, some fields taken off, `searchForLine` finds a line in what is
  left but no line end lies behind a colon there (`HttpHeaders.HangsIff`). A read that stops in the middle of a line can
  bring that about, though a colon has come in (`HttpHeaders.PartLineHangs`). Once the line is complete, the loop does
  get past a line without a colon, by taking it for part of the next field's name (`HttpHeaders.LinesAreJoined`):
  `searchForLine` and `parseLine` agree on a length only under the condition of `HttpHeaders.LengthsAgreeIff`.
* `parseLine` writes beyond its table exactly when it is full and the field is known (`HttpHeaders.Header.ParseLine`);
  32 fields added by hand and one parsed do that (`HttpHeaders.OverrunIsReached`).
* Of the live blocks, `free` refuses exactly an empty payload at the end of the buffer
  (`Allocators.RefusedIffEmptyAtEnd`); the first empty request is served there (`Allocators.RefusalIsReached`).
* A printed URI comes back exactly when four things hold (`Uris.RoundTrip`): no component holds the delimiter that ends
  it (`Uris.Printable`; a path with a '?' is cut short, `Uris.QuestionMarkIsLost`), a fragment comes with a parameter, a
  text without a scheme has no ':', and the components have the shapes the parser takes them apart by, such as a rooted
  or empty path behind an authority, or no "//" at the start of a path without one (`Uris.Shaped`).

## Model

| member | source | states |
|---|---|---|
| CircularBuffers.CircularBuffer.constructor | src/CircularBuffer.cpp:53-62 | a new ring is valid and empty |
| CircularBuffers.CircularBuffer.BufferCopy | src/CircularBuffer.cpp:504-510 | copies n bytes and nothing else, or does nothing if either end is NULL |
| CircularBuffers.CircularBuffer.AddLength | src/CircularBuffer.cpp:538-555 | the length grows, and a read pointer at the end goes back to the beginning |
| CircularBuffers.CircularBuffer.SubtractLength | src/CircularBuffer.cpp:557-573 | the length shrinks, and a write pointer at the end goes back to the beginning |
| CircularBuffers.CircularBuffer.Appended | src/CircularBuffer.cpp:123-158 | bytes laid down from the write pointer, around the end, are an append to the FIFO, even when a pointer sits at the end |
| CircularBuffers.CircularBuffer.Removed | src/CircularBuffer.cpp:169-220 | moving the read pointer, around the end, drops the oldest bytes of the FIFO |
| CircularBuffers.CircularBuffer.Pieces | src/CircularBuffer.cpp:484-497 | the bytes before an index are one piece of storage, or two where the data wraps |
| CircularBuffers.CircularBuffer.CopyIn | src/CircularBuffer.cpp:123-158 | both copying branches append exactly the bytes given |
| CircularBuffers.CircularBuffer.WriteInternal | src/CircularBuffer.cpp:107-167 | appends exactly the accepted prefix, whose length is the free space or the request |
| CircularBuffers.CircularBuffer.Write | src/CircularBuffer.cpp:100-105 | appends exactly the accepted prefix and returns its length |
| CircularBuffers.CircularBuffer.WriteOverflow | src/CircularBuffer.cpp:70-98 | leaves the last min(N, old length + s) bytes of old contents followed by input and returns s, also for s > N; from NULL it makes room and writes nothing |
| CircularBuffers.CircularBuffer.Read | src/CircularBuffer.cpp:169-220 | takes and returns the oldest min(s, length) bytes, in order, wherever they wrap |
| CircularBuffers.CircularBuffer.Copy | src/CircularBuffer.cpp:222-252 | returns the oldest bytes in order and changes nothing |
| CircularBuffers.CircularBuffer.ReadFrom | src/CircularBuffer.cpp:255-304 | stands for the reader: an error, or up to n bytes at the write pointer |
| CircularBuffers.CircularBuffer.FillFromFile | src/CircularBuffer.cpp:255-304 | appends exactly what one read delivered, a short read included; an error changes nothing |
| CircularBuffers.CircularBuffer.GetBytesInternal | src/CircularBuffer.cpp:388-415 | a longest contiguous run of contents from index i, and where it lies |
| CircularBuffers.CircularBuffer.ByteAt | src/CircularBuffer.cpp:417-426 | byte i of the FIFO, or -1 beyond its end |
| CircularBuffers.CircularBuffer.WriteByte | src/CircularBuffer.cpp:428-445 | appends the byte, or refuses with -1 exactly when full |
| CircularBuffers.CircularBuffer.PeekLine | src/CircularBuffer.cpp:456-502 | for a one-byte terminal and every state of the ring: with a first terminator at k, the first k bytes of the contents, the empty line included; none exactly without a terminator and with no pointer at the end; and exactly which states make it fail and how |
| CircularBuffers.CircularBuffer.Scan | src/CircularBuffer.cpp:466-482 | the loop stops at the first terminator, or having seen all the contents; it goes round for ever exactly with the write pointer at the end and no terminator |
| CircularBuffers.CircularBuffer.TextBefore | src/CircularBuffer.cpp:484-498 | the text up to a terminator, in one piece or two, but for the one place that gives the length -1 |
| CircularBuffers.CircularBuffer.FirstIsUnique | src/CircularBuffer.cpp:466-482 | there is at most one first terminator |
| CircularBuffers.CircularBuffer.GetLine | src/CircularBuffer.cpp:447-454 | the same answers; a line is removed with its terminator, else nothing is |
| CircularBuffers.CircularBuffer.Clear | src/CircularBuffer.cpp:371-379 | the FIFO is empty and both pointers are at the beginning |
| CircularBuffers.BadLengthIsReached | src/CircularBuffer.cpp:484-497 | two writes, a read and a newline reach the length -1 |
| CircularBuffers.RingAtEnd | src/CircularBuffer.cpp:184-195 | a read that stops at the end of the storage leaves the read pointer there |
| CircularBuffers.BeyondBufferIsReached | src/CircularBuffer.cpp:466-471 | in that state the first byte is fetched from beyond the storage |
| CircularBuffers.EndlessIsReached | src/CircularBuffer.cpp:466-482 | filled up in that state, a ring without a terminator keeps the loop going for ever |
| LinkedLists.List.Clear | include/jh_list.h:94-100 | empties the chain, node by node |
| LinkedLists.List.Front | include/jh_list.h:103-118 | the first element, or what the tail sentinel holds |
| LinkedLists.List.Back | include/jh_list.h:109-124 | the last element, or what the head sentinel holds |
| LinkedLists.List.PopFront | include/jh_list.h:127-137 | removes the first element, if any |
| LinkedLists.List.PopBack | include/jh_list.h:140-150 | removes the last element, if any |
| LinkedLists.List.PushFront | include/jh_list.h:153-162 | prepends |
| LinkedLists.List.PushBack | include/jh_list.h:165-174 | appends |
| LinkedLists.List.Size | include/jh_list.h:177-185 | the walk from sentinel to sentinel counts the elements |
| LinkedLists.List.Empty | include/jh_list.h:188-191 | empty exactly when the sequence is |
| LinkedLists.List.Advance | include/jh_list.h:237-244 | the iterator moves to the next position |
| LinkedLists.List.Retreat | include/jh_list.h:247-254 | the iterator moves to the previous position |
| LinkedLists.List.InsertAfter | include/jh_list.h:269-278 | inserts right behind the iterator's index and keeps the chain well formed |
| LinkedLists.List.InsertBefore | include/jh_list.h:281-286 | inserts right in front of the iterator's index |
| LinkedLists.List.Erase | include/jh_list.h:294-317 | removes the element at the iterator's index and yields its successor; a sentinel is left alone |
| LinkedLists.List.Begin | include/jh_list.h:326-331 | the first position |
| LinkedLists.List.Adopt | include/jh_list.h:269-278 | a node linked between two neighbours makes a well-formed chain of one element more |
| EventQueues.EventQueue.SendEvent | src/EventQueue.cpp:46-82 | the heap list becomes the queue with the event enqueued by priority |
| EventQueues.EventQueue.PollEvent | src/EventQueue.cpp:112-127 | takes the event at the front and leaves the rest, or none from an empty queue |
| EventQueues.EventQueue.Remove | src/EventQueue.cpp:129-142 | an event stays, in order, exactly when its id differs; the others are released |
| EventQueues.EventQueue.RemoveEvent | src/EventQueue.cpp:144-157 | an event stays, in order, exactly when it is not the one meant; that one is released |
| EventQueues.EventQueue.RemoveAgentsByReceiver | src/EventQueue.cpp:159-176 | an event stays, in order, unless it has the agents' id and that receiver; the others are released |
| EventQueues.EventQueue.FlushAll | src/EventQueue.cpp:178-190 | releases every event once, in order, and empties the queue |
| EventQueues.EventQueue.RemoveMatching | src/EventQueue.cpp:129-176 | the erase-then-step-back loop visits each element once, yields the order-preserving filter and releases the rest |
| EventQueues.InsertKeepsOrder | src/EventQueue.cpp:57-76 | inserting by priority keeps a non-increasing queue so, with the event added |
| EventQueues.EnqueueKeepsOrderIff | src/EventQueue.cpp:46-82 | a send keeps the order if and only if no normal event lands behind a negative one |
| EventQueues.EnqueueInserts | src/EventQueue.cpp:46-82 | a send inserts one event and moves no other |
| EventQueues.EnqueueIsFifo | src/EventQueue.cpp:46-82 | a send appends to the FIFO of its priority and leaves the other FIFOs alone |
| EventQueues.PollServesHighest | src/EventQueue.cpp:112-127 | a poll takes the oldest event of the highest nonempty priority |
| EventQueues.RemoveIsPerFifo | src/EventQueue.cpp:129-176 | a removal filters each priority's FIFO on its own |
| EventQueues.RemoveConserves | src/EventQueue.cpp:129-176 | kept and released events together are the old queue, each on its proper side |
| EventQueues.KeptAndDropped | src/EventQueue.cpp:129-176 | an event stays exactly when it is not selected, and is released exactly when it is |
| EventQueues.RemoveKeepsOrder | src/EventQueue.cpp:129-176 | a removal keeps the queue non-increasing |
| EventQueues.StepMatchesFifos | src/EventQueue.cpp:46-190 | every operation acts as on one FIFO per priority, the highest nonempty one served first |
| EventQueues.EveryRunMatchesFifos | src/EventQueue.cpp:46-190 | so does every operation after any run of sends at normal priority or above, polls, removals and flushes |
| EventQueues.NegativePrioritiesBreakOrder | src/EventQueue.cpp:46-82 | a normal event sent behind a negative one is served after it |
| Dispatch.EnqueuedHolders | src/EventQueue.cpp:46-82 | enqueueing keeps the queued holders distinct and adds one event |
| Dispatch.KeptHolders | src/EventQueue.cpp:129-176 | a removal keeps the queued holders distinct |
| Dispatch.StepKeepsInv | src/EventDispatcher.cpp:153-176 | every atomic step of every thread keeps the joint invariant of queue, lock, flags and tokens |
| Dispatch.RunKeepsInv | src/EventDispatcher.cpp:153-176 | so does every run, with any number of senders |
| Dispatch.ReachableInv | src/EventDispatcher.cpp:153-176 | the invariant holds in every reachable state |
| Dispatch.SyncSendsAreSafe | src/EventDispatcher.cpp:321-371 | each holder is dispatched at most once, none is given up before its dispatch ended, no sender sleeps past its mark unless a broadcast is owed, and no step touches a holder whose sender may have left |
| Dispatch.ReturnMeansDispatched | src/EventDispatcher.cpp:153-169 | a sender returns only after its event's dispatch has ended |
| Dispatch.PollNeverStrandsAnEvent | src/Selector.cpp:183-300 | the selector never blocks in poll over a queued event with no token and no sender about to write one |
| Dispatch.BroadcastKeeps | src/EventDispatcher.cpp:332-336 | a broadcast after the unlock loses no wake-up |
| Dispatch.TestSleeps | src/EventDispatcher.cpp:166-169 | testing the flag and going to sleep is safe against a mark made at any moment |
| Dispatch.PollQueueKeeps | src/Selector.cpp:268-291 | polling keeps the joint invariant: one token serves one event, and the tokens left still cover the queue |
| Dispatch.DispatchFollowsQueue | src/Selector.cpp:268-291 | in every run of all threads the queue is what its sends, polls and removals make of it, and the events dispatched are those the polls hand out, in order |
| Dispatch.HighestIsDispatched | src/EventQueue.cpp:112-127 | in every run with priorities of 0 or more, the event dispatched is the oldest of the highest priority queued, and the others keep their places |
| Dispatch.TokensAreCounted | src/Selector.cpp:426-434 | in every run, each send writes one token, soon or later, and each read takes one: none is lost or made up |
| Dispatch.StuckIffQuiet | src/EventDispatcher.cpp:153-169 | nothing under way can step exactly when every call has returned and every event is served |
| Dispatch.EnabledStep | src/EventDispatcher.cpp:153-169 | otherwise some thread can go on: there is no deadlock |
| Dispatch.ProgressLowersBound | src/Selector.cpp:183-300 | every step under way lowers a bound |
| Dispatch.EverythingFinishes | src/EventDispatcher.cpp:153-169 | under every schedule, calls and dispatches under way finish within that bound |
| Allocators.Allocator.constructor | src/Allocator.cpp:40-49 | one free node spans the buffer |
| Allocators.Allocator.Alloc | src/Allocator.cpp:51-103 | takes the lowest-address node that fits, split if 32 bytes or more are left, else whole: a block of the total size, header and request rounded up, or at most 31 bytes more, unless the size computed has wrapped; NULL exactly when no node listed at entry fits; a lazy failure leaves the list maximally merged and every block otherwise as it was |
| Allocators.Allocator.Search | src/Allocator.cpp:63-68 | the walk stops at the first node that fits, with the node before it, or at the end if none does |
| Allocators.Allocator.Retry | src/Allocator.cpp:70-76 | the retry merges but finds nothing, since the search re-enters at the end |
| Allocators.Allocator.TakeNode | src/Allocator.cpp:78-102 | the node found serves the request: its tail, exactly the total, if 32 bytes or more stay on the list, else all of it |
| Allocators.ServedMeansBytes | src/Allocator.cpp:78-102 | which bytes are granted and which stay free, in numbers: the waste is below 32 bytes |
| Allocators.SplitIsReached | src/Allocator.cpp:78-102 | of 64 bytes, a request for 16 is served at 48 and leaves room for another, served at 16 |
| Allocators.Allocator.SplitNode | src/Allocator.cpp:79-88 | the tail becomes the new block |
| Allocators.Allocator.WholeNode | src/Allocator.cpp:89-100 | the node leaves the list and becomes the new block |
| Allocators.Allocator.Free | src/Allocator.cpp:105-167 | the block's bytes become free and nothing else changes, in eager mode with no two free nodes touching; an address outside is refused |
| Allocators.Allocator.FindPlace | src/Allocator.cpp:121-131 | the last free node below the block |
| Allocators.Allocator.LinkIn | src/Allocator.cpp:133-155 | the block joins the list in address order, or the touching node before it takes it in |
| Allocators.Allocator.MergeIntoPrev | src/Allocator.cpp:139-143 | growing the node before is linking and merging in one |
| Allocators.Allocator.LinkAfter | src/Allocator.cpp:145-155 | linking in keeps the list strictly address-ordered |
| Allocators.Allocator.GetFreeSpace | src/Allocator.cpp:169-189 | returns the buffer size less the live blocks' sizes; with none live, one node spans the buffer |
| Allocators.Allocator.JoinFreeNodes | src/Allocator.cpp:191-224 | keeps the free bytes and the live blocks, leaves no two free nodes touching, returns the number merged |
| Allocators.TotalSizeIff | src/Allocator.cpp:34-38 | the 32-bit size has room for header and request if and only if nothing wraps, and is a multiple of 8 in any case |
| Allocators.WrappedSizeIff | src/Allocator.cpp:34-38 | a size that wraps holds a header, and then no more, only within 7 bytes of 2^32 |
| Allocators.OverflowIsServed | src/Allocator.cpp:51-103 | a request for 2^32 - 1 bytes is granted a block of 16, its header |
| Allocators.OverflowExample | src/Allocator.cpp:58-59 | a request just below 2^32 computes to no bytes at all |
| Allocators.TilesExactly | src/Allocator.cpp:51-167 | every byte of the buffer lies in exactly one block, free or live |
| Allocators.PayloadsAreClear | src/Allocator.cpp:78-102 | payloads are disjoint, clear of every header, inside the buffer, and 8-aligned when the buffer size is a multiple of 8 |
| Allocators.MergeKeeps | src/Allocator.cpp:209-214 | merging two touching nodes keeps the tiling, the order, the free bytes and the live blocks |
| Allocators.SplitKeeps | src/Allocator.cpp:79-88 | splitting keeps the tiling and the order and takes exactly the tail's bytes from the free ones |
| Allocators.UnlinkKeeps | src/Allocator.cpp:89-100 | unlinking keeps tiling and order and takes exactly the node's bytes |
| Allocators.LinkKeeps | src/Allocator.cpp:145-155 | linking keeps tiling and order and frees exactly the block's bytes |
| Allocators.LinkTouch | src/Allocator.cpp:133-155 | after linking, only the node before and the block itself can touch their successors |
| Allocators.FreeAndLiveBytes | src/Allocator.cpp:169-189 | free and live bytes add up to the buffer |
| Allocators.AllFreeIsOneNode | test/allocatorTest.cpp:84-151 | with every block freed, in any order, and none touching, one node spans the buffer |
| Allocators.FitsIffFreeRun | src/Allocator.cpp:63-76 | in a maximally merged list a node fits exactly when some contiguous run of free bytes does |
| Allocators.RunFitsOneNode | src/Allocator.cpp:191-224 | in such a list a free run lies within one node |
| Allocators.RepeatedCallSucceedsIff | src/Allocator.cpp:70-76 | after a failed call in lazy mode, repeating it succeeds exactly when some free run was large enough |
| Allocators.RefusedIffEmptyAtEnd | src/Allocator.cpp:114-118 | the range test of free refuses a live block exactly when it is empty and at the end |
| Allocators.RefusalIsReached | src/Allocator.cpp:114-118 | an empty first request is served at the end of the buffer, and freeing it has no effect |
| TimeUtils.Timespec.AddOffset | include/TimeUtils.h:93-108 | moves the instant by exactly the offset, of either sign, with tv_nsec kept in [0, 10^9) |
| TimeUtils.Timespec.SetTimeStruct | include/TimeUtils.h:81-85 | the struct holds exactly that many milliseconds |
| TimeUtils.DifferenceBounds | include/TimeUtils.h:43-48 | but for a multiple of 2^32 ms that wraps away, the truncated difference is within a millisecond of the true one, on the side given by the nanosecond part |
| TimeUtils.DifferenceAbove | include/TimeUtils.h:43-48 | a difference above p, truncated or not, means more than p ms, and one up to p less than p + 1 ms, of what does not wrap away |
| TimeUtils.UnseenIsZero | include/TimeUtils.h:43-48 | what wraps away is a multiple of 2^32 ms, and nothing short of 24 days |
| TimeUtils.UnseenStays | include/TimeUtils.h:43-48 | stepping closer by p from a difference above p wraps nothing anew |
| Remainders.EveryRemainderMoves | src/Timer.cpp:224-232 | under the condition, every left-over remainder of an overflowing period comes to one that moves the timer on |
| Remainders.NeverMoves | src/Timer.cpp:224-232 | otherwise none is ever reached from a multiple of the divisor |
| Remainders.FreesIff | src/Timer.cpp:224-232 | so the condition is exact, for remainder 0 and for all remainders alike |
| Timers.Timer.constructor | src/Timer.cpp:47-62 | a new timer has nothing listed, and a negative tick length stands for 100 ms |
| Timers.Timer.AddTimerNode | src/Timer.cpp:437-463 | inserts before the first node due later, by wrapped comparison |
| Timers.Timer.AddTimer | src/Timer.cpp:242-268 | lists a node due ceil(ms/P) ticks ahead, behind those due no later |
| Timers.Timer.AddPeriodicTimer | src/Timer.cpp:270-297 | the same for any period, with no milliseconds left over yet |
| Timers.Timer.RemoveTimedEvent | src/Timer.cpp:351-407 | the loop leaves exactly the nodes that do not match, in order |
| Timers.Timer.HandleTick | src/Timer.cpp:183-240 | wherever the nested loop ends, it advances the wrapped counter, and fires and lists what the specification says |
| Timers.Timer.PutBack | src/Timer.cpp:224-231 | a periodic node is put back by the remainder rule |
| Timers.Timer.WakeUp | src/Timer.cpp:151-174 | a jump of the clock resynchronises with one tick; otherwise one tick per tick length, ending less than P + 1 ms behind what is seen of the jump; the counter goes up by the ticks fired |
| Timers.Timer.CatchUp | src/Timer.cpp:167-173 | each tick counts one and moves start by exactly P ms, start never reaches cur despite the truncation, and the loop ends with a difference of at most P |
| Timers.Timer.StepStart | src/Timer.cpp:167-173 | one tick length forward stays strictly behind cur |
| Timers.NewTicksRange | src/Timer.cpp:224-232 | how many ticks ahead a node whose period fits is put back, and when that is none |
| Timers.RefiringLowersLoad | src/Timer.cpp:193-239 | firing a due node whose period fits leaves it with less load, also when it keeps its tick |
| Timers.HugePeriodLowersLoad | src/Timer.cpp:193-239 | also when its period is beyond half the counter's range |
| Timers.OverflowRule | src/Timer.cpp:224-232 | where the sum overflows, which remainder follows which, and which keep the tick |
| Timers.OverflowEnds | src/Timer.cpp:193-239 | firing such a node again and again brings it into the future |
| Timers.EveryNodeEnds | src/Timer.cpp:193-239 | so does firing any node whose period is all right |
| Timers.RefiringLowersWork | src/Timer.cpp:193-239 | each firing of a due node leaves it fewer to come |
| Timers.FiringLowersWork | src/Timer.cpp:193-239 | so every turn of the loop lowers the work of the whole list |
| Timers.InsertWork | src/Timer.cpp:437-463 | inserting adds the node's work wherever it lands |
| Timers.OneTurnLess | src/Timer.cpp:193-239 | where the loop ends, each turn leaves it fewer |
| Timers.EveryListEnds | src/Timer.cpp:193-239 | for every list, sorted or not, whose periods are all right the loop ends, and leaves only such periods |
| Timers.CaughtNeverEnds | src/Timer.cpp:193-239 | a caught node is put back in front for ever, whatever is listed behind it |
| Timers.HalfRangeNeverEnds | src/Timer.cpp:193-239 | with ticks of 1 ms a timer of period 2^31 alone comes back for ever |
| Timers.LoopEndsIff | src/Timer.cpp:193-239 | for a fresh timer alone at its due tick the loop ends if and only if its period is all right |
| Timers.FreshEndsIff | src/Timer.cpp:193-239 | the same of an overflowing period whose due tick has passed |
| Timers.AddedTimerEndsIff | src/Timer.cpp:183-297 | for a timer added at tick t and alone in the list, the loop of the tick that first finds it due ends if and only if its period is all right |
| Timers.LongestPeriodSticks | src/Timer.cpp:224-232 | with ticks of 3 ms, not with ticks of 2 ms, a period of 2^32 - 1 is put back unchanged for ever |
| Timers.InsertRefines | src/Timer.cpp:437-463 | wrapped insertion agrees with unbounded tick order |
| Timers.DrainRefines | src/Timer.cpp:183-240 | the whole loop on wrapped ticks fires and lists the same as on unbounded ticks |
| Timers.InsertSplit | src/Timer.cpp:437-463 | the loop's stopping place is where the specification inserts |
| Timers.TickTimes | src/Timer.cpp:167-173 | n ticks in a row count n, give one list of ids fired each, and keep the nodes well formed |
| TimerRuns.RemainderStep | src/Timer.cpp:224-232 | the left-over milliseconds of firing k+1 follow from those of firing k |
| TimerRuns.DueStep | src/Timer.cpp:224-232 | the remainder rule moves a timer from its k-th due tick to the next |
| TimerRuns.RefiringFollowsSchedule | src/Timer.cpp:224-232 | refiring the k-th node gives the (k+1)-st, for ever: first t0+ceil(R/P), then t0+2*ceil(R/P)+floor((k-1)*R/P) |
| TimerRuns.ScheduleInNumbers | src/Timer.cpp:242-295 | the schedule without quotients: c, the fewest ticks that hold the period, to the first firing and c more to the second; k-1 periods later as many ticks later as they hold |
| TimerRuns.DriftIsBounded | src/Timer.cpp:281-295 | every firing is due less than 1 tick before and less than 2 ticks after t0+(k+1)*R/P |
| TimerRuns.DueMonotone | src/Timer.cpp:224-232 | due ticks never go back |
| TimerRuns.InsertIsStable | src/Timer.cpp:437-463 | a node goes behind those due no later and before those due later: ties keep insertion order |
| TimerRuns.HeadFiresOnTime | src/Timer.cpp:193-205 | the head that fires, fires in exactly the tick of its schedule |
| TimerRuns.FireKeeps | src/Timer.cpp:193-239 | one firing keeps list order, schedule and log in step |
| TimerRuns.DrainKeeps | src/Timer.cpp:193-239 | so does the loop, which leaves nothing due |
| TimerRuns.StepKeeps | src/Timer.cpp:183-463 | so does every operation |
| TimerRuns.Run | src/Timer.cpp:183-463 | so does every run |
| TimerRuns.EveryTimerKeepsItsSchedule | src/Timer.cpp:183-463 | in every run, a timer that is not removed has fired at exactly the ticks of its schedule that have come |
| TimerRuns.OneShotFiresOnce | src/Timer.cpp:242-268 | a one-shot added at tick t fires exactly once, in tick t+max(1, c), c the fewest ticks that hold its delay |
| TimerRuns.StepRefines | src/Timer.cpp:183-463 | every operation on 32-bit ticks does what it does on unbounded ticks, and fires the same |
| TimerRuns.CodeRun | src/Timer.cpp:183-463 | every run on 32-bit ticks stands for the unbounded one, its list, its counter and all it fired |
| TimerRuns.RunOfOps | src/Timer.cpp:242-407 | the timers added and removed, and the ticks counted, can be read off the operations |
| TimerRuns.DrainSkips | src/Timer.cpp:193-239 | a tick fires no timer that is not listed |
| TimerRuns.OnScheduleUntil | src/Timer.cpp:183-463 | in every run, a timer has fired at exactly the ticks of its schedule that have come before its removal, if any |
| TimerRuns.CodeKeepsSchedule | src/Timer.cpp:183-463 | so has it in every run on 32-bit ticks, however often the counter wraps |
| TimerRuns.TicksContinueRun | src/Timer.cpp:167-173 | n ticks in a row of the timer, wherever a run has brought it, are n ticks more of that run |
| TimerRuns.WakeUpInRun | src/Timer.cpp:151-174 | a wake-up goes on with the run by the ticks it reports: counter, list and all that was fired are those of the longer run, to which CodeKeepsSchedule applies |
| TimerRuns.CatchUpInRun | src/Timer.cpp:167-173 | so does the catch-up loop |
| HttpHeaders.Header.constructor | src/HttpHeaderBase.cpp:42-47 | no fields and no header text |
| HttpHeaders.Header.AddField | src/HttpHeaderBase.cpp:381-396 | appends the field and drops the built text, or refuses exactly when 32 are held |
| HttpHeaders.Header.GetField | src/HttpHeaderBase.cpp:317-326 | the data of the field of that kind with the least index, or none exactly without one |
| HttpHeaders.Header.GetFieldType | src/HttpHeaderBase.cpp:148-164 | what the map with the least index that knows the name says, or the invalid type exactly if none does |
| HttpHeaders.Header.GetFieldTypeString | src/HttpHeaderBase.cpp:167-183 | what the map with the least index that knows the number says, or none exactly if none does |
| HttpHeaders.FirstDecides | src/HttpHeaderBase.cpp:317-326 | of the fields of a kind the first is found |
| HttpHeaders.FirstTypeDecides | src/HttpHeaderBase.cpp:148-164 | of the maps that know a name the first decides |
| HttpHeaders.FirstNameDecides | src/HttpHeaderBase.cpp:167-183 | of the maps that know a number the first decides |
| HttpHeaders.Header.BuildHeader | src/HttpHeaderBase.cpp:428-446 | the first line, one line per field in order, and an empty line; nothing without a first line |
| HttpHeaders.PrintedLine | src/HttpHeaderBase.cpp:438-446 | a printed line is the name, the bytes 58 and 32, the data, and the bytes 13 and 10 |
| HttpHeaders.Header.SearchForLine | src/HttpHeaderBase.cpp:449-524 | the loop computes the line length, EOH or -1 that the specification gives |
| HttpHeaders.Header.StoreKnown | src/HttpHeaderBase.cpp:262-276 | a parsed field is stored exactly when a map knows its name, beyond the table exactly when that is full |
| HttpHeaders.CStrStops | src/HttpHeaderBase.cpp:264-269 | a name or data handed over as a C string ends at its first NUL |
| HttpHeaders.Header.ParseLine | src/HttpHeaderBase.cpp:186-314 | the automaton's result: the length consumed and the field stored, or -1 and no change, and exactly when it writes beyond the table |
| HttpHeaders.Header.ReadFields | src/HttpAgent.cpp:141-161 | on a buffer on which it ends, the inner loop stores the fields, leaves the rest and returns the code of the specification, or overruns the table exactly when there are too many known fields |
| HttpHeaders.Header.ReceiveOnce | src/HttpAgent.cpp:131-161 | one read and the inner loop take off the lines that are complete and keep the part of the next |
| HttpHeaders.Header.ReceiveFields | src/HttpAgent.cpp:131-164 | whatever sizes the reads have, a stream that begins with a printed block ends up as the same ordered fields, the empty line and the body left behind, if each line fits the ring |
| HttpHeaders.OverrunIsReached | src/HttpHeaderBase.cpp:262-276 | 32 fields added and one parsed write beyond the table |
| HttpHeaders.LineIsFound | src/HttpHeaderBase.cpp:449-524 | searchForLine gives a printed line's own length |
| HttpHeaders.SearchIs | src/HttpHeaderBase.cpp:449-524 | for every text: 0 for an empty line in front, else the length up to the first line end that is not overlooked and starts no continuation, or -1 exactly if there is none |
| HttpHeaders.LineIsParsed | src/HttpHeaderBase.cpp:186-314 | parseLine gives the same length and the printed name and data |
| HttpHeaders.DataIsParsed | src/HttpHeaderBase.cpp:186-314 | after the colon the automaton skips blanks and recovers the data, empty data included |
| HttpHeaders.ContinuedLineIsParsed | src/HttpHeaderBase.cpp:186-314 | a field sent on any number of lines, each after the first led by blanks, is parsed to its name and the line bodies joined by one space; empty lines and lines of blanks alone add none |
| HttpHeaders.PieceTaken | src/HttpHeaderBase.cpp:231-311 | one line: its blanks go, its body is added, behind one space if both it and what was there are not empty |
| HttpHeaders.BlockRoundTrip | src/HttpHeaderBase.cpp:438-446 | a printed block is read back as the same ordered fields, stops at kEOH and leaves the rest untouched |
| HttpHeaders.PartIsRead | src/HttpAgent.cpp:141-161 | of a block that has come in part, exactly the complete lines are read, and less than a line is kept |
| HttpHeaders.AnyReadsGiveBlock | src/HttpAgent.cpp:131-164 | into whatever pieces the reads cut it, a printed block is read back as the same ordered fields |
| HttpHeaders.ParsesIff | src/HttpHeaderBase.cpp:186-314 | parseLine succeeds exactly when a line end lies behind a colon |
| HttpHeaders.FromField | src/HttpHeaderBase.cpp:186-314 | its length is that of the first line end behind the first colon, whatever line ends lie before |
| HttpHeaders.FoundIsLineEnd | src/HttpHeaderBase.cpp:449-524 | a length that searchForLine gives ends in a line end |
| HttpHeaders.LengthsAgreeIff | src/HttpHeaderBase.cpp:186-524 | both functions give a line the same length exactly when it holds a colon with no overlooked line end behind it |
| HttpHeaders.HangsIff | src/HttpAgent.cpp:141-161 | the loop hangs exactly when it comes to a rest with a line found and no line end behind a colon |
| HttpHeaders.NoColonHangs | src/HttpAgent.cpp:141-161 | a buffer that holds a line and no colon at all hangs it |
| HttpHeaders.PartLineHangs | src/HttpAgent.cpp:141-161 | so does a line without a colon followed by an incomplete one with a colon |
| HttpHeaders.LinesAreJoined | src/HttpAgent.cpp:141-161 | once complete, the second line is parsed with the first as part of its name, and the loop goes on |
| Uris.URI.constructor | src/URI.cpp:45-50 | empty, with both cached texts up to date |
| Uris.URI.Clear | src/URI.cpp:132-144 | empty again, with both cached texts up to date |
| Uris.URI.SetScheme | src/URI.cpp:151-155 | changes that component and marks the text stale |
| Uris.URI.SetAuthority | src/URI.cpp:162-166 | changes that component and marks the text stale |
| Uris.URI.SetPath | src/URI.cpp:205-219 | an absolute path gets a leading '/' exactly when it has none; the text is marked stale |
| Uris.URI.SetFragment | src/URI.cpp:226-230 | changes that component and marks the text stale |
| Uris.URI.GetQuery | src/URI.cpp:232-236 | the query joined from the current parameters |
| Uris.URI.AppendQueryParam | src/URI.cpp:244-250 | appends the parameter and marks both texts stale |
| Uris.URI.GetQueryParam | src/URI.cpp:263-275 | the first parameter with the key, or the empty text |
| Uris.URI.FindParam | src/URI.cpp:277-288 | the first index with the key, or -1 exactly when none has it |
| Uris.URI.GetString | src/URI.cpp:290-294 | the current components with ':', '//' but for mailto and news, '?' and '#' in their places, whatever setters ran before |
| Uris.URI.SetString | src/URI.cpp:296-308 | leaves what Parse gives; a printed, recoverable URI comes back with both cached texts up to date |
| Uris.URI.ParseString | src/URI.cpp:310-387 | the scheme ends at the first ':' if there is one; the whole object is as Parse says |
| Uris.URI.ParseAuthorityOn | src/URI.cpp:326-357 | the branches for "//", for a scheme without slashes, for a rooted and for a relative URI |
| Uris.URI.ParsePathOn | src/URI.cpp:359-367 | the path up to the first '?' |
| Uris.URI.ParseQueryFrom | src/URI.cpp:367-383 | the query up to the first '#', and a fragment only if the query parses |
| Uris.URI.BuildString | src/URI.cpp:389-429 | a stale text is rebuilt from the components, a fresh one kept |
| Uris.URI.PrintPrefix | src/URI.cpp:396-409 | "//" before the authority but for mailto and news |
| Uris.PrintedText | src/URI.cpp:389-429 | the text of every URI, letter by letter |
| Uris.MailtoText | src/URI.cpp:402-409 | an authority alone is printed right behind "mailto:", but behind "http://" |
| Uris.URI.ParseQuery | src/URI.cpp:431-472 | appends the pairs of the query, and returns whether it parses |
| Uris.QueryFailsIff | src/URI.cpp:431-472 | a query fails to parse exactly when it holds text but no '=' |
| Uris.ReadPair | src/URI.cpp:445-469 | one turn of that loop reads one pair and finds the next |
| Uris.PairStep | src/URI.cpp:445-469 | pairs read so far and pairs still to read always make the whole query |
| Uris.URI.BuildQuery | src/URI.cpp:474-493 | a stale query is joined from the parameters, a fresh one kept |
| Uris.JoinAppends | src/URI.cpp:480-488 | appending key=value behind '&' is joining one parameter more |
| Uris.PairsRoundTrip | src/URI.cpp:431-493 | a joined query parses back to the ordered parameters, wherever in a text it starts |
| Uris.TailWithQuery | src/URI.cpp:359-384 | path, parameters and fragment of a printed URI are recovered |
| Uris.TailWithoutQuery | src/URI.cpp:359-384 | without parameters they are recovered exactly when there is no fragment |
| Uris.AuthorityStarts | src/URI.cpp:331-347 | the parser looks for the authority where the printer put it, the mailto and news forms included |
| Uris.AuthorityFound | src/URI.cpp:349-357 | the authority ends where the path begins, or at the end |
| Uris.AuthoritySwallows | src/URI.cpp:349-357 | what follows it without a '/' becomes part of the authority |
| Uris.WithAuthority | src/URI.cpp:326-384 | behind an authority the components come back exactly when the path is rooted, or empty without parameters, and the URI absolute |
| Uris.RootedWithoutAuthority | src/URI.cpp:326-384 | a rooted path without an authority comes back exactly when it does not start with "//" |
| Uris.UnrootedWithoutAuthority | src/URI.cpp:326-384 | any other path without an authority comes back exactly in a relative URI, or empty behind a scheme |
| Uris.LaterPathLost | src/URI.cpp:359-384 | a path read from behind its beginning never comes back with its fragment |
| Uris.SchemeEnds | src/URI.cpp:316-325 | the scheme is what stands before the first ':' |
| Uris.ColonMeansScheme | src/URI.cpp:316-325 | a ':' anywhere but as first byte makes a nonempty scheme of what is before it |
| Uris.ColonFirstLost | src/URI.cpp:316-325 | a path that starts with ':' and has no scheme loses it |
| Uris.CutHasNone | src/URI.cpp:351-381 | a piece cut off at the first delimiter does not hold it |
| Uris.ParsedIsPrintable | src/URI.cpp:310-472 | whatever the text, no component that parsing gives holds the delimiter that ends it |
| Uris.TextIsItsParts | src/URI.cpp:310-387 | every text whose query parses is the components that parsing gives with their delimiters: no byte is lost, none made up |
| Uris.QueryIsItsParams | src/URI.cpp:431-472 | the query is the parameters that parsing gives, joined, and a rest behind an '&' without '='; one that does not parse leaves no parameter and no fragment |
| Uris.RoundTrip | src/URI.cpp:310-493 | for every URI, parsing what was printed recovers every component and the ordered parameters if and only if its delimiters, its shape, its fragment and a missing scheme allow it |
| Uris.QuestionMarkIsLost | src/URI.cpp:359-367 | a '?' in a path, though set by the setter, is not given back |

## Left out

- CircularBuffers.CircularBuffer.PeekLine: not modelled for terminators of several bytes.
- CircularBuffers.CircularBuffer.FillFromFile: the reader is a value, an error or the bytes it holds; the variant taking a file descriptor is the same call.
- CircularBuffers.CircularBuffer.WriteOverflow: a NULL source with more bytes than the ring holds is excluded, as the code then reads at an offset from NULL.
- Dispatch.SyncSendsAreSafe: shutdown, and removal or flush of queued holders, are not actions; the code releases such holders and their senders are never woken.
- Dispatch.PollNeverStrandsAnEvent: a pipe write always succeeds and a read takes one token; the pipe's capacity and the list of polled files are not modelled.
- Dispatch.EverythingFinishes: dispatching an event is a step that ends, and no synchronous send is made from the dispatcher's own thread, which the code forbids.
- Allocators.Allocator.Alloc: requests whose size wraps to less than a header are excluded, as the code then writes the header beyond the block; WrappedSizeIff says which.
- Allocators.Allocator.Free: takes a live block's address or one outside the buffer; any other pointer is undefined in the code.
- Allocators.Allocator.constructor: buffers from 16 bytes to below 2^31; the node count, which the code does not keep exact, is not modelled.
- Timers.AddedTimerEndsIff: says that the loop runs for ever of a timer alone in the list; CaughtNeverEnds says it of overflowing periods with later nodes listed behind.
- Timers.Timer.WakeUp: lists whose periods are not all right are excluded, also where none of them comes due in the ticks caught up with; HandleTick takes them as long as the loop ends.
- Timers.Timer.CatchUp: the same.
- Timers.Timer.constructor: a tick length of 0, by which the code divides, is excluded.
- Timers.Timer.HandleTick: called only where its loop ends. Delivering an event or calling a listener is the id in the list of fired timers; callbacks that touch the timer are not modelled.
- TimerRuns.EveryTimerKeepsItsSchedule: for delays below 2^30 ticks, as far as wrapped comparisons can tell the order.
- HttpHeaders.Header.ReadFields: a buffer on which the loop hangs is excluded.
- HttpHeaders.Header.ReceiveFields: the call that takes the response's first line off is not modelled, nor a stream that ends or fails before the empty line.
- HttpHeaders.Header.ParseLine: what a write beyond the table does is not modelled.
- HttpHeaders.Header.BuildHeader: the kinds held must be known to a map, else the code appends a NULL text.
- HttpHeaders.BlockRoundTrip: for names without colon or CR and data without CR, NUL or a leading blank; continuation lines are part of the automaton but not of the printed form.
- Uris.URI.ParseString: npos is written -1; parsing is modelled for a cleared object, as every caller clears or has just made it.
- URI: setQuery and removeQueryParam leave the cached text stale; getHost, getPort, comparison and copying are not modelled.
- EventQueue: WaitEvent and its timeouts, priorities that change while queued, and reference counts beyond what is handed over or released.
- Header: removeField and the helpers for numbers in fields.
- Timer: start, stop and reset of its thread, removeAgentsByReceiver, and TimerManager, which nothing shown fills.
- Sockets, files, threads, logging, component loading and the interface generators: I/O or thin wrappers.
- Selector file listeners, EventThread and the listener lists of the dispatcher: only the event half of the loop is modelled.
- Regex and Path: their behaviour does not meet a language-level or normal-form property.
- basic_string, vector, SmartPtr and ListenerContainer: they would only add easy members.
