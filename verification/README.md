# Vortek transport and its neighbours, verified in Dafny

This project models the parts of the repository where a mistake is hardest to see: the
lock-free ring and the message framing that carry Vulkan calls between two processes, the
thread pool, the BC texture decoder and its split into parallel tasks, the hash-sorted map
and the circular deque, the poll loop over event descriptors, the descriptor pool and
template expansion, and two small state machines of the game hooks (the score row on the
objective panel, and the pronoun rewriter for banner lines).

Concurrent code is a step system: `RingProtocol` and `Framing` interleave one writer, one
reader and EXIT byte by byte; `ThreadPool` interleaves the workers and the client of a pool
over its two mutexes and two condition variables, with spurious wakeups. Their main
results hold in every state of every run. Code that works in place is a class or a method
over arrays, proved against a function or a sequence: `RingBuffer`, `TaskQueue`,
`DecodeLoops`, `ArrayMap`, `ArrayDeque`, `ObjectivePanel`, `PronounBanner`, `EventWait`,
`DescriptorTemplate` and `ObjectPool`.

Files: `Bits` (masks, shifts, 32-bit wrap-around, circular windows), `Options`, `Sequences`;
`RingProtocol`, `Framing`, `TornStream`, `RingBuffer`; `ThreadPool`, `PoolSize`, `TaskQueue`;
`BlockPalette`, `BlockDecoder`, `TaskSplit`, `DecodeLoops`; `ArrayMap`, `ArrayDeque`; `EventWait`,
`WaitOutcomes`;
`DescriptorTemplate`; `ObjectPool`; `ObjectivePanel`; `PronounBanner`. `dafny verify dfyconfig.toml` checks all of them.

## Where the code does less than its name promises

Each of these is proved with the exact condition under which the promise holds.

- The zero-copy macros publish a counter only when it is greater than zero, so a transfer
  that ends exactly at the 2^32 wrap is not published: the bytes stay in the ring and are
  read again (`RingBuffer.RingBuffer.WriteZeroCopy`, `RingBuffer.RingBuffer.ReadZeroCopy`,
  `RingBuffer.HeaderReadTwice`).
- When EXIT cuts one side off from a payload, `vt_send` and `vt_recv` leave the stream where it
  is. If the other side is cut at the same message, or the side that was cut stops, the two stay
  in step and every delivery is right (`Framing.MessagesRoundTrip`, `Framing.StoppingIsEnough`).
  If both go on after only one was cut, some continuation delivers a wrong message
  (`TornStream.DeliversRightIff`; a ring of eight bytes can halt instead, with both sides
  waiting for each other, `TornStream.GoesOnRightIff`).
- A thread pool of more than 255 threads can return from a wait while tasks are being executed,
  for its counters are `uint8_t` (`PoolSize.WaitIsSafeIff`).
- A parallel decode of BC4 skips sixteen bytes for each eight-byte block
  (`TaskSplit.ParallelDecodeIff`), and from 65536 rows or columns on, which do not fit the
  task's `uint16_t` fields, no task gets as far as the last pixel (`TaskSplit.SplitCoversIff`).
- A deque of capacity 2^30 cannot double; the add that fills it makes it look empty
  (`ArrayDeque.ArrayDeque.AddLast`, `ArrayDeque.ArrayDeque.AddFirst`).
- `waitForEvents` for all of a list can succeed without one of its descriptors, exactly when
  some descriptor is repeated before the first occurrence of another
  (`EventWait.SoundIff`). With a negative descriptor among the first entries of the list, as
  many as are polled, it waits forever although all descriptors are ready, unless only one is
  polled; with negative entries behind them it does not (`EventWait.EndsIff`). A wait for one
  polls, from its second round on, the first places of the list instead of the descriptors that
  are not negative (`WaitOutcomes.FirstReportDecides`).
- Freeing an object that is not in use makes the pool hand out one object twice
  (`ObjectPool.VkObjectPool.FreeObject`, `ObjectPool.DoubleFree`).
- When `SetObjectiveText` is not found for an add that meets the score row, and only then, the
  panel's bookkeeping is lost until the next clear (`ObjectivePanel.Run`), and an append before
  that takes a row of the game for the score row (`ObjectivePanel.FailedSwap`).
- The descriptor counts of a template are `uint32_t` sums; every entry's slice is inside its
  scratch array exactly when no sum wraps (`DescriptorTemplate.RoomIff`).

## Model

| member | source | states |
|---|---|---|
| `Bits.CounterSlot` | native/thirdparty/vortek/src/ring_buffer.c:94-94 | a counter that has wrapped at 2^32 still masks to the slot of the unbounded count, for every power-of-two size |
| `Bits.WrappedDistance` | native/thirdparty/vortek/src/ring_buffer.c:78-80 | the uint32_t difference of two wrapped counters is their true distance whenever that fits |
| `Bits.MaskedNeighbours` | native/thirdparty/vortek/src/arrays.c:582-590 | masking the slot before and after, with -1 wrapping in an int, gives the circular neighbours |
| `Bits.DoublesUpTo30` | native/thirdparty/vortek/src/arrays.c:553-554 | a power of two below 2^30 doubles to at most 2^30, so only 2^30 itself overflows an int |
| `RingProtocol.SlotIsModular` | native/thirdparty/vortek/src/ring_buffer.c:116-126 | the one or two memcpys of a transfer visit exactly the slots count, count+1, ... modulo the buffer size |
| `RingProtocol.PublishedFreeSpace` | native/thirdparty/vortek/src/ring_buffer.c:78-84 | size and freeSpace, computed on wrapped counters, are the number of unread bytes and the exact rest of the buffer |
| `RingProtocol.StepKeeps` | native/thirdparty/vortek/src/ring_buffer.c:86-130 | every single step of writer, reader and EXIT keeps the ring's invariant: published bytes are stored, received is a prefix of sent, fill within the buffer |
| `RingProtocol.RunKeeps` | native/thirdparty/vortek/src/ring_buffer.c:86-170 | the invariant holds in every state of every interleaved run from a fresh ring |
| `RingProtocol.RegionsDisjoint` | native/thirdparty/vortek/src/ring_buffer.c:119-126 | the slots the writer may still store to are disjoint from the unread ones, and the reader copies only unread ones |
| `RingProtocol.RaceFree` | native/thirdparty/vortek/src/ring_buffer.c:92-129 | in every state of every run the writer's region meets neither the unread bytes nor the region the reader copies out of |
| `RingProtocol.InPlaceStays` | native/thirdparty/vortek/include/ring_buffer.h:39-68 | a reader that looks at its region in place until it gives it back sees, at every moment and whatever the writer does meanwhile, the bytes whose turn it is in the stream |
| `RingProtocol.HistoriesAreTheCalls` | native/thirdparty/vortek/src/ring_buffer.c:105-129 | over any run the published stream is the concatenation of the writes that published, and the returned reads make up the consumed one |
| `RingProtocol.ReadsArePrefixOfWrites` | native/thirdparty/vortek/src/ring_buffer.c:78-130 | over every interleaving the bytes reads return are a prefix, in order, of the bytes given to writes, across any number of counter wraps, and the fill never exceeds the buffer |
| `RingBuffer.WindowsJoin` | native/thirdparty/vortek/src/ring_buffer.c:119-126 | windows of the circular buffer that lie end to end are one window, wherever they pass the end |
| `RingBuffer.WindowExtended` | native/thirdparty/vortek/src/ring_buffer.c:115-128 | bytes copied into the free slots behind the unread window extend it and change none of it |
| `RingBuffer.SlotIsAt` | native/thirdparty/vortek/src/ring_buffer.c:94-103 | the class and the interleaved machine address the same slots |
| `RingBuffer.RingBuffer.PollWrite` | native/thirdparty/vortek/src/ring_buffer.c:161-170 | a round of waitForWrite lets the write go on exactly when it fits behind the unread bytes, and refuses only under EXIT |
| `RingBuffer.RingBuffer.PollRead` | native/thirdparty/vortek/src/ring_buffer.c:150-159 | a round of waitForRead lets the read go on exactly when that many bytes are unread, and refuses only under EXIT |
| `RingBuffer.RingBuffer.Write` | native/thirdparty/vortek/src/ring_buffer.c:109-130 | the unread contents grow by the data, or nothing changes; refused exactly for oversized data or a full ring under EXIT |
| `RingBuffer.RingBuffer.Read` | native/thirdparty/vortek/src/ring_buffer.c:86-107 | the oldest bytes come out and the rest stays, or nothing changes |
| `RingBuffer.RingBuffer.ReadBegin` | native/thirdparty/vortek/include/ring_buffer.h:39-58 | the view handed out, in place or copied, holds the oldest bytes |
| `RingBuffer.RingBuffer.ReadEnd` | native/thirdparty/vortek/include/ring_buffer.h:60-68 | consumes exactly the viewed bytes, except when the new head is zero |
| `RingBuffer.RingBuffer.WriteZeroCopy` | native/thirdparty/vortek/include/ring_buffer.h:70-101 | the writer's macro pair leaves the ring as a write would if and only if the new tail is not 0 modulo 2^32 |
| `RingBuffer.RingBuffer.ReadZeroCopy` | native/thirdparty/vortek/include/ring_buffer.h:39-68 | the reader's macro pair yields the bytes a read would, and leaves the ring as it would if and only if the new head is not 0 modulo 2^32 |
| `RingBuffer.HeaderReadTwice` | native/thirdparty/vortek/include/ring_buffer.h:60-68 | a header that ends at the wrap is handed out twice and never leaves the ring |
| `Framing.IntRoundTrip` | native/thirdparty/vortek/include/vortek.h:236-238 | a 32-bit int survives being stored into and loaded from four header bytes, the low one first, negative ones too |
| `Framing.HeaderRoundTrip` | native/thirdparty/vortek/include/vortek.h:252-257 | the receiver decodes the code and the size the sender encoded |
| `Framing.LinkStepKeeps` | native/thirdparty/vortek/include/vortek.h:236-267 | every step of sender, receiver and ring keeps the framing: published plus owed bytes spell the logged messages, those vt_send was cut at as headers only; and consumed bytes spell the delivered messages as long as the two sides are in step |
| `Framing.LinkRunKeeps` | native/thirdparty/vortek/include/vortek.h:236-267 | the sending half of the framing holds in every state of every run, the receiving half in every state in which the two sides are in step |
| `Framing.MessagesRoundTrip` | native/thirdparty/vortek/include/vortek.h:236-267 | over every interleaving, while the two sides are in step, the k-th delivery is the k-th message whose header was sent, code and payload intact; it is reported lost exactly if it exceeds the ring or vt_recv was cut at it. In step: the receiver has read no payload vt_send was cut at, and nothing behind one that only it was cut at |
| `Framing.AlwaysWholeChunks` | native/thirdparty/vortek/include/vortek.h:251-267 | while no side has gone on past a message that only it was cut at, a waiting receiver finds the ring empty or at least the whole header or payload it waits for |
| `Framing.NeverBothBlocked` | native/thirdparty/vortek/include/vortek.h:236-267 | under the same condition sender and receiver are never both stuck in their wait loops |
| `Framing.StoppingIsEnough` | native/thirdparty/vortek/include/vortek.h:243-263 | if a side starts no call after a payload of its own was cut, the two sides stay in step and aligned in every state of the run, whatever the other side does |
| `Framing.UndisturbedLink` | native/thirdparty/vortek/include/vortek.h:236-267 | with EXIT unset the deliveries are a prefix of the calls of vt_send themselves, and the two sides never block each other |
| `Framing.SendReturns` | native/thirdparty/vortek/include/vortek.h:236-249 | over every interleaving a call of vt_send ends in one of four ways, each with its effect on the stream and its result: EXIT stopped the header, result 0; the header alone was sent, since there is no payload or the ring is too small for it, result 0; EXIT stopped the payload, result 0; header and payload were sent, and the result is the payload's length |
| `Framing.ResultMeansSent` | native/thirdparty/vortek/include/vortek.h:236-249 | with EXIT unset the result is the payload's length if it fits the ring and 0 if not; with EXIT set it is other than 0 only if the published stream spells the logged messages, this one last and whole |
| `TornStream.DeliversRightIff` | native/thirdparty/vortek/include/vortek.h:236-267 | in every reachable state between two calls in which at most one cut, the latest of its side, is not shared: all continuations without further cuts deliver right messages, if and only if that cut does not exist, or vt_recv has left less than a header unread and no room for another one |
| `TornStream.GoesOnRightIff` | native/thirdparty/vortek/include/vortek.h:236-267 | from such a state they deliver right messages and never block both sides, if and only if that cut does not exist |
| `TornStream.SenderCutTears` | native/thirdparty/vortek/include/vortek.h:243-246 | from every such state in which only vt_send was cut, for any ring size and any message, some continuation delivers another message than the one sent |
| `TornStream.ReceiverCutTears` | native/thirdparty/vortek/include/vortek.h:260-263 | from every such state in which only vt_recv was cut, some continuation delivers another message than the one sent, unless the link is halted as said, and then both sides get stuck |
| `TornStream.SharedCutsGoOn` | native/thirdparty/vortek/include/vortek.h:236-267 | where every cut is shared, every continuation without further cuts is right and not stuck |
| `TornStream.Round` | native/thirdparty/vortek/include/vortek.h:251-267 | one call of vt_recv on whatever bytes there are either fails one of the promises, or delivers the message whose turn it is and takes as many bytes as that message has |
| `TornStream.SenderAloneCut` | native/thirdparty/vortek/include/vortek.h:243-246 | for every ring size and every payload that does not leave room for its header, a run in which vt_send alone is cut and may go on |
| `TornStream.ReceiverAloneCut` | native/thirdparty/vortek/include/vortek.h:260-263 | for every ring size and every payload that fits, a run in which vt_recv alone is cut and may go on |
| `ThreadPool.StepKeeps` | native/thirdparty/vortek/include/thread_pool.h:37-120 | every step of every thread keeps mutual exclusion, the two counters, the whereabouts of the tasks, the shutdown protocol and the wakeups |
| `ThreadPool.RunKeeps` | native/thirdparty/vortek/include/thread_pool.h:37-148 | that invariant holds in every state of every run of at most 255 workers and one client |
| `ThreadPool.WaitMeansDone` | native/thirdparty/vortek/include/thread_pool.h:114-120 | when ThreadPool_wait returns, every task submitted before it has been executed exactly once and none was discarded |
| `ThreadPool.WaitCovers` | native/thirdparty/vortek/include/thread_pool.h:93-120 | whatever had been submitted at any moment before a wait returns has been executed exactly once when it returns |
| `ThreadPool.EachTaskInOnePlace` | native/thirdparty/vortek/include/thread_pool.h:48-57 | in every state a submitted task is in exactly one of queue, one counted worker's hands, finished, or discarded, and dequeuing follows submission order |
| `ThreadPool.NoLostWakeup` | native/thirdparty/vortek/include/thread_pool.h:44-63 | a non-empty queue has an awake worker or a signal under way, and a sleeping waiter still has a task, a working or live worker, or a signal to come |
| `ThreadPool.RunSubmits` | native/thirdparty/vortek/include/thread_pool.h:93-112 | a call of ThreadPool_run that is over has submitted exactly one task, the newest of those dequeued or waiting |
| `ThreadPool.DestroyIsLast` | native/thirdparty/vortek/include/thread_pool.h:122-148 | from ThreadPool_destroy the client comes out only with the pool freed, nothing is submitted any more, and no other call can start |
| `ThreadPool.FreedAfterWorkersAreGone` | native/thirdparty/vortek/include/thread_pool.h:122-148 | destroy frees the pool only after the last access of every worker; then each dequeued task has been executed once, and the discarded ones are those submitted after them |
| `ThreadPool.NeverStuck` | native/thirdparty/vortek/include/thread_pool.h:37-148 | while the client of a pool with workers is inside run, wait or destroy, some thread can step without a spurious wakeup |
| `ThreadPool.StepsCostMeasure` | native/thirdparty/vortek/include/thread_pool.h:37-120 | every such step during a wait makes a natural-number measure smaller |
| `ThreadPool.WaitsEnd` | native/thirdparty/vortek/include/thread_pool.h:114-120 | under every scheduler a wait with k spurious wakeups makes no more steps than the measure of the state it starts in and a constant times k |
| `ThreadPool.SpuriousCosts` | native/thirdparty/vortek/include/thread_pool.h:114-120 | a spurious wakeup during a wait raises the measure by at most a constant |
| `ThreadPool.NoWorkersNoReturn` | native/thirdparty/vortek/include/thread_pool.h:73-90 | in a pool without workers a wait returns only if nothing has been submitted |
| `PoolSize.WaitIsSafeIff` | native/thirdparty/vortek/include/thread_pool.h:11-13 | over all runs of a pool of n threads, a returned wait means that all tasks have been executed once, if and only if n is at most 255 |
| `TaskQueue.TaskQueue.Append` | native/thirdparty/vortek/include/thread_pool.h:94-108 | the linked list spells the old tasks and then the new one |
| `TaskQueue.TaskQueue.GetTask` | native/thirdparty/vortek/include/thread_pool.h:24-35 | yields the oldest task and leaves the others in order; nothing from an empty queue |
| `TaskQueue.TaskQueue.Clear` | native/thirdparty/vortek/include/thread_pool.h:126-135 | visits every queued node exactly once, in order, and leaves an empty queue |
| `BlockPalette.ColorIdxIsDigit` | native/thirdparty/vortekrenderer/include/bc_decoder.h:28-31 | texel i's colour index is the i-th two-bit digit of the index word |
| `BlockPalette.ChannelIdxIsDigit` | native/thirdparty/vortekrenderer/include/bc_decoder.h:33-36 | texel i's channel index is the i-th three-bit digit behind the endpoints |
| `BlockPalette.AlphaIsDigit` | native/thirdparty/vortekrenderer/include/bc_decoder.h:38-42 | four bits of alpha are spread evenly: n becomes 17 n |
| `BlockPalette.Extract565Widens` | native/thirdparty/vortekrenderer/include/bc_decoder.h:44-48 | each 5- or 6-bit component is widened by repeating its high bits, and fits a byte |
| `BlockPalette.ChannelEntryMeans` | native/thirdparty/vortekrenderer/include/bc_decoder.h:61-85 | every interpolated channel value is the weighted mean of the endpoints in seven or five parts, rounded toward zero for either sign; the constants of the six-value form are the format's |
| `BlockPalette.ChannelTexelFits` | native/thirdparty/vortekrenderer/include/bc_decoder.h:87-93 | the cast to uint8_t loses nothing of a texel's channel value, signed or not |
| `BlockPalette.EndpointIsByte` | native/thirdparty/vortekrenderer/include/bc_decoder.h:64-71 | the two endpoints are the first two bytes of the block, as signed or unsigned bytes |
| `BlockPalette.ColorEntryMeans` | native/thirdparty/vortekrenderer/include/bc_decoder.h:96-115 | the four colours are the endpoints and their thirds, rounded down, or the endpoints, their midpoint rounded down and (transparent) black; all fit a byte |
| `BlockPalette.ColorTexelMeans` | native/thirdparty/vortekrenderer/include/bc_decoder.h:117-128 | what is stored for a texel is the endpoint, rounded mean or constant that its two-bit digit selects, of the endpoints widened from 565 |
| `BlockPalette.ChannelTexelMeans` | native/thirdparty/vortekrenderer/include/bc_decoder.h:87-93 | what is stored for a texel is the endpoint byte, the mean rounded toward zero, or the constant that its three-bit digit selects |
| `BlockPalette.FillChannelPalette` | native/thirdparty/vortekrenderer/include/bc_decoder.h:61-85 | the loops fill all eight entries with the values whose meaning ChannelEntryMeans proves |
| `BlockPalette.FillColorPalette` | native/thirdparty/vortekrenderer/include/bc_decoder.h:96-115 | the loops fill all sixteen colour components with the values whose meaning ColorEntryMeans proves |
| `BlockDecoder.LoadedBytes` | native/thirdparty/vortekrenderer/include/bc_decoder.h:11-15 | the 16-, 32- and 64-bit fields of a block are loaded with the low byte first |
| `BlockDecoder.FlatMeans` | native/thirdparty/vortekrenderer/include/bc_decoder.h:130-134 | byte ch of pixel (row, col) is at 4 (row * width + col) + ch, and the image has four bytes a pixel |
| `BlockDecoder.ApplyIsLastWrite` | native/thirdparty/vortekrenderer/include/bc_decoder.h:121-125 | each byte of the image ends up as the last value stored to it, or as it was |
| `BlockDecoder.PlaneWritten` | native/thirdparty/vortekrenderer/include/bc_decoder.h:87-93 | a block stores exactly its texels inside the image's right and the task's lower edge |
| `BlockDecoder.TaskWritten` | native/thirdparty/vortekrenderer/include/bc_decoder.h:130-194 | a task leaves in pixel (startY + 4 br + j, 4 bc + i) texel 4 j + i of its block br * blocks per row + bc |
| `BlockDecoder.OutsideTask` | native/thirdparty/vortekrenderer/include/bc_decoder.h:139-144 | a task stores to no row outside its range |
| `BlockDecoder.TaskInside` | native/thirdparty/vortekrenderer/include/bc_decoder.h:139-144 | no store of a task leaves the image |
| `TaskSplit.NumTasks` | native/thirdparty/vortekrenderer/include/bc_decoder.h:204-205 | as many tasks as the pool has threads, but at most eight, or four below 256 rows; one without a pool or below 128 rows |
| `TaskSplit.RoundUpMeans` | native/thirdparty/vortekrenderer/include/bc_decoder.h:8-8 | the masked negation rounds up to the next multiple of four |
| `TaskSplit.RoundDownMeans` | native/thirdparty/vortekrenderer/include/bc_decoder.h:9-9 | the mask rounds down to a multiple of four |
| `TaskSplit.TaskRows` | native/thirdparty/vortekrenderer/include/bc_decoder.h:208-214 | the row ranges are consecutive, start at multiples of four and end at the image's height; all but the last have the largest such number of rows that leaves the last as many |
| `TaskSplit.RowOwner` | native/thirdparty/vortekrenderer/include/bc_decoder.h:208-214 | every row of the image belongs to exactly one task |
| `TaskSplit.SplitCoversIff` | native/thirdparty/vortekrenderer/include/bc_decoder.h:17-26 | wherever decoding changes a pixel some task stores to it, for every compressed image and previous content, if and only if the sides fit the uint16_t fields |
| `TaskSplit.LastPixelKept` | native/thirdparty/vortekrenderer/include/bc_decoder.h:130-134 | from 65536 rows or columns on, every store of every task, at its own stride, falls short of the last pixel |
| `TaskSplit.TaskSource` | native/thirdparty/vortekrenderer/include/bc_decoder.h:218-220 | the address a task reads from, and that it writes from its first row on |
| `TaskSplit.ReadsItsBlocksIff` | native/thirdparty/vortekrenderer/include/bc_decoder.h:201-220 | the tasks read the blocks of their own rows, for every memory, if and only if the format is not BC4, or there is one task, or no pixel |
| `TaskSplit.InterleavedPlace` | native/thirdparty/vortekrenderer/include/bc_decoder.h:222-228 | a place only one task stores to ends up as that task leaves it, in any interleaving of the tasks' stores |
| `TaskSplit.ParallelPixel` | native/thirdparty/vortekrenderer/include/bc_decoder.h:196-230 | after any interleaving every pixel holds what the format says its block holds for it |
| `TaskSplit.DecodedPixel` | native/thirdparty/vortekrenderer/include/bc_decoder.h:196-226 | the one task that the code makes without a split leaves the format's account of every pixel, for every image whose sides fit the uint16_t fields |
| `TaskSplit.OneTaskIff` | native/thirdparty/vortekrenderer/include/bc_decoder.h:208-220 | the one task of an unsplit decode is the whole image if and only if the sides fit the fields |
| `TaskSplit.PixelMeans` | native/thirdparty/vortekrenderer/include/bc_decoder.h:61-230 | after any interleaving of a sound split, every byte of the image is the endpoint, mean rounded toward zero or constant, of the pixel's own block, that the pixel's index selects, or 17 times its alpha digit, or what was there before for a channel the format does not have |
| `TaskSplit.ParallelDecode` | native/thirdparty/vortekrenderer/include/bc_decoder.h:196-230 | any interleaving of the tasks leaves, byte for byte, the image of the one-task decode |
| `TaskSplit.InTurnInterleaves` | native/thirdparty/vortekrenderer/include/bc_decoder.h:222-225 | running the tasks one after the other is one of the interleavings |
| `TaskSplit.SplitDecodesOtherBlock` | native/thirdparty/vortekrenderer/include/bc_decoder.h:202-219 | for a BC4 image in several tasks there is a compressed image that no interleaving decodes as one task would |
| `TaskSplit.ParallelDecodeIff` | native/thirdparty/vortekrenderer/include/bc_decoder.h:196-230 | over all compressed images and interleavings, the split equals the one-task decode if and only if it is not a split BC4 image with pixels |
| `DecodeLoops.DecodeColor` | native/thirdparty/vortekrenderer/include/bc_decoder.h:96-128 | the nested loops leave exactly the listed stores of a colour block, clipped at both edges |
| `DecodeLoops.DecodeChannel` | native/thirdparty/vortekrenderer/include/bc_decoder.h:61-94 | the nested loops leave exactly the listed stores of one channel of a block |
| `DecodeLoops.DecodeAlpha` | native/thirdparty/vortekrenderer/include/bc_decoder.h:50-59 | the pointer-stepping loops leave exactly the listed stores of explicit alpha |
| `DecodeLoops.DecodeBlock` | native/thirdparty/vortekrenderer/include/bc_decoder.h:136-193 | for each format the planes of a block are stored one over the other |
| `DecodeLoops.DecodeThread` | native/thirdparty/vortekrenderer/include/bc_decoder.h:130-194 | the loops over the blocks of a task, with their moving pointers, leave exactly the listed stores of the task |
| `DecodeLoops.Decode` | native/thirdparty/vortekrenderer/include/bc_decoder.h:196-230 | the array ends up as the tasks in turn leave it, and as the one-task decode whenever the split is sound |
| `ArrayMap.InsertKeeps` | native/thirdparty/vortek/src/arrays.c:351-360 | inserting a new key where no later hash is smaller and no earlier one larger keeps the order of hashes, the uniqueness of keys and the pairs of the map |
| `ArrayMap.ReplaceKeeps` | native/thirdparty/vortek/src/arrays.c:346-349 | overwriting a key's value updates the map at that key alone |
| `ArrayMap.RemoveKeeps` | native/thirdparty/vortek/src/arrays.c:370-374 | closing the gap of an entry removes its key from the map alone |
| `ArrayMap.RunIsScanned` | native/thirdparty/vortek/src/arrays.c:332-341 | a collision run scanned to both ends without the key means the key is nowhere, and the run's end is an insertion point |
| `ArrayMap.ArrayMap.BinarySearch` | native/thirdparty/vortek/src/arrays.c:306-324 | finds an entry with the key's hash, or the complement of an insertion point and then no entry has that hash |
| `ArrayMap.ArrayMap.IndexOfKey` | native/thirdparty/vortek/src/arrays.c:326-342 | for any hash function: non-negative exactly for keys of the map and then at the key's entry, otherwise the complement of an insertion point |
| `ArrayMap.ArrayMap.Put` | native/thirdparty/vortek/src/arrays.c:344-361 | the map with the key set to the value, through growth and shifting |
| `ArrayMap.ArrayMap.EnsureCapacity` | native/thirdparty/vortek/include/arrays.h:157-168 | room for the target and then half as much again, four or the target, the entries kept, the new slots null; nothing changes where there is room |
| `ArrayMap.ArrayMap.Get` | native/thirdparty/vortek/src/arrays.c:363-366 | the map's value for the key, or nothing |
| `ArrayMap.ArrayMap.RemoveAt` | native/thirdparty/vortek/src/arrays.c:368-376 | the map without the entry's key, and its value; nothing past the end |
| `ArrayMap.ArrayMap.Remove` | native/thirdparty/vortek/src/arrays.c:378-381 | the map without the key, and its value if it had one |
| `ArrayDeque.LayoutDecides` | native/thirdparty/vortek/src/arrays.c:576-578 | the slots determine the sequence; head equals tail exactly when it is empty; slots are non-null exactly inside the window |
| `ArrayDeque.AppendCase` | native/thirdparty/vortek/src/arrays.c:587-592 | after a store at the tail the array holds the longer sequence with head and tail apart, or is full with head at tail |
| `ArrayDeque.PrependCase` | native/thirdparty/vortek/src/arrays.c:580-585 | the same for a store in front of the head |
| `ArrayDeque.DropFirstLayout` | native/thirdparty/vortek/src/arrays.c:594-603 | nulling the head slot and stepping over it leaves the sequence without its first element |
| `ArrayDeque.DropLastLayout` | native/thirdparty/vortek/src/arrays.c:605-614 | nulling the slot before the tail leaves the sequence without its last element |
| `ArrayDeque.MovedLayout` | native/thirdparty/vortek/src/arrays.c:556-564 | the two copies of a doubling put the elements in order at the front of the new array |
| `ArrayDeque.FullIsNoLayout` | native/thirdparty/vortek/src/arrays.c:553-554 | a full array that was not doubled is the layout of no deque, although head equals tail |
| `ArrayDeque.ArrayDeque.DoubleCapacity` | native/thirdparty/vortek/src/arrays.c:549-565 | doubling keeps the sequence and the power of two, below the capacity at which the shift overflows; there it does nothing |
| `ArrayDeque.ArrayDeque.AddLast` | native/thirdparty/vortek/src/arrays.c:587-592 | appends unless the deque is one short of 2^30 elements; then it looks empty with all slots taken |
| `ArrayDeque.ArrayDeque.AddFirst` | native/thirdparty/vortek/src/arrays.c:580-585 | prepends under the same condition |
| `ArrayDeque.ArrayDeque.RemoveFirst` | native/thirdparty/vortek/src/arrays.c:594-603 | takes the first element, or nothing from an empty deque |
| `ArrayDeque.ArrayDeque.RemoveLast` | native/thirdparty/vortek/src/arrays.c:605-614 | takes the last element, or nothing from an empty deque |
| `ArrayDeque.ArrayDeque.GetFirst` | native/thirdparty/vortek/src/arrays.c:616-619 | the first element or nothing, the sequence unchanged |
| `ArrayDeque.ArrayDeque.GetLast` | native/thirdparty/vortek/src/arrays.c:621-625 | the last element or nothing, the sequence unchanged |
| `ArrayDeque.ArrayDeque.Foreach` | native/thirdparty/vortek/include/arrays.h:172-174 | the two nested loops visit the elements in order, up to and including the first at which the body breaks |
| `EventWait.ScanProgress` | native/thirdparty/vortek/include/events.h:57-70 | a round shrinks the number of polled descriptors exactly when poll reports POLLIN for one of them |
| `EventWait.RoundKeeps` | native/thirdparty/vortek/include/events.h:52-83 | each round keeps the flags equal to what was reported and polls the unflagged descriptors next, although its bound shrinks during the scan |
| `EventWait.DistinctRound` | native/thirdparty/vortek/include/events.h:74-81 | with distinct descriptors the polled ones are always all the unflagged ones, in their order |
| `EventWait.SuccessMeansAll` | native/thirdparty/vortek/include/events.h:33-86 | whatever poll answers, success means POLLIN was reported for every descriptor, if repeats come last |
| `EventWait.ReportedByPoll` | native/thirdparty/vortek/include/events.h:57-68 | a descriptor counts as reported only if poll reported POLLIN for it in some round, in either mode |
| `EventWait.RoundsMiss` | native/thirdparty/vortek/include/events.h:62-68 | a repeat before another descriptor's first occurrence counts the wait down to success without that descriptor |
| `EventWait.SoundIff` | native/thirdparty/vortek/include/events.h:33-86 | for non-negative descriptors, success always means all if and only if no descriptor is repeated before the first occurrence of another |
| `EventWait.EndsIff` | native/thirdparty/vortek/include/events.h:33-86 | for distinct non-negative descriptors and any negative entries, with everything always ready and no timeout: the wait for all ends if and only if at most one descriptor is polled or the first entries, as many as are polled, are not negative |
| `EventWait.SuccessDespiteNegatives` | native/thirdparty/vortek/include/events.h:33-86 | for such lists success still means POLLIN for every non-negative descriptor, whatever poll answers |
| `EventWait.NegativeHangs` | native/thirdparty/vortek/include/events.h:39-48 | an instance: for [-1, 5, 7] a first round that reports 5 is enough for the wait never to succeed |
| `EventWait.WaitForEvents` | native/thirdparty/vortek/include/events.h:33-86 | the loops over the poll arrays compute the modelled outcome for every list, mode, timeout and oracle; the WaitOutcomes rows say what that outcome is |
| `WaitOutcomes.NothingPolled` | native/thirdparty/vortek/include/events.h:39-49 | a list of negative descriptors is a success at once, in either mode |
| `WaitOutcomes.FirstReportDecides` | native/thirdparty/vortek/include/events.h:33-86 | a wait for one of a list, or for the only descriptor of a list: success, error, timeout or waiting on, each if and only if the first round in which poll fails, reports POLLIN or times out is of that kind (or there is none) |
| `WaitOutcomes.LastReportDecides` | native/thirdparty/vortek/include/events.h:33-86 | a wait for all of several: success, error, timeout or waiting on, each if and only if the first round in which poll fails, or a timed poll flags nothing, or the only descriptor left has POLLIN, is of that kind |
| `WaitOutcomes.RoundMeans` | native/thirdparty/vortek/include/events.h:56-81 | which flags a round of a wait for all sets and what it leaves to poll, in terms of the entries with POLLIN that its shrinking scan comes to |
| `WaitOutcomes.ScanEmpties` | native/thirdparty/vortek/include/events.h:57-83 | a round counts down to nothing if and only if it polls one entry and that has POLLIN |
| `WaitOutcomes.FoundIff` | native/thirdparty/vortek/include/events.h:57-72 | without negative descriptors a round flags something if and only if poll reports POLLIN for a polled descriptor, although the scan may not come to all of them |
| `DescriptorTemplate.Create` | native/thirdparty/vortek/src/descriptor_update_template.c:3-25 | the three counts are the descriptors of each kind, modulo 2^32 |
| `DescriptorTemplate.RoomIff` | native/thirdparty/vortek/src/descriptor_update_template.c:12-20 | every entry's slice is inside the scratch array of its kind if and only if no sum wraps |
| `DescriptorTemplate.SlicesApart` | native/thirdparty/vortek/src/descriptor_update_template.c:48-71 | slices of distinct entries do not overlap and are in bounds |
| `DescriptorTemplate.SliceOwner` | native/thirdparty/vortek/src/descriptor_update_template.c:48-71 | every element of a scratch array is in some entry's slice |
| `DescriptorTemplate.FillDescriptorWrites` | native/thirdparty/vortek/src/descriptor_update_template.c:34-84 | every write has the set, binding, element, count and type of its entry; its image pointer is non-null exactly for types 0 to 3 and 10, its buffer pointer for 6 to 9 and its texel view pointer for 4 and 5; element j behind the pointer is the value at data + offset + j * stride; and the offsets end at the counts |
| `ObjectPool.VkObjectPool.Get` | native/thirdparty/vortek/src/vk_object_pool.c:19-37 | fails exactly when all objects of the pool are in use, and otherwise hands out one that is not, in both modes |
| `ObjectPool.VkObjectPool.Reset` | native/thirdparty/vortek/src/vk_object_pool.c:39-47 | the objects in use follow the available ones, in reverse order of use; nothing is in use any more and no object is lost |
| `ObjectPool.VkObjectPool.FreeObject` | native/thirdparty/vortek/src/vk_object_pool.c:55-59 | the pool stays sound if and only if the freed object is in use or the pool frees nothing |
| `ObjectPool.DoubleFree` | native/thirdparty/vortek/src/vk_object_pool.c:55-59 | after two frees of one object two gets return it twice |
| `ObjectPool.Run` | native/thirdparty/vortek/src/vk_object_pool.c:11-59 | in every run of gets, resets and frees of objects in use, the objects in use are distinct and at most the pool's size |
| `ObjectivePanel.ObjectivePanel.ClearObjectiveBox` | native/overlay/NaughtyBear_ReStuff/src/hooks.cpp:2144-2152 | a clear heals the bookkeeping: whatever came before it, the panel's invariant holds again, with an empty panel and no score row |
| `ObjectivePanel.ObjectivePanel.OnObjboxAdd` | native/overlay/NaughtyBear_ReStuff/src/hooks.cpp:2160-2184 | a row the game adds behind the score row is swapped with it, or the bookkeeping is dropped when that cannot be done |
| `ObjectivePanel.ObjectivePanel.AddObjective` | native/overlay/NaughtyBear_ReStuff/src/hooks.cpp:2154-2184 | the panel stays the game's rows and then at most one score row if and only if the swap, where one is needed, can be done |
| `ObjectivePanel.ObjectivePanel.PushScore` | native/overlay/NaughtyBear_ReStuff/src/hooks.cpp:1993-2062 | keeps the panel's rows in order; an append adds the composed text as the last row exactly if it can; a rewrite shows it in the score row if and only if the text is new and SetObjectiveText is found, or the row still shows the last one; the check mark follows where SetObjectiveState is found |
| `ObjectivePanel.ObjectivePanel.SetScoreObjective` | native/overlay/NaughtyBear_ReStuff/src/hooks.cpp:2069-2102 | switching off blanks the score row and no other, if SetObjectiveText is found, and asks for a rebuild |
| `ObjectivePanel.ObjectivePanel.UpdateScoreObjective` | native/overlay/NaughtyBear_ReStuff/src/hooks.cpp:2107-2142 | a frame counts one tick; every fifteenth one outside a refresh rewrites an existing score row to a text that is new, if HUD, setting and SetObjectiveText allow, and nothing else changes the panel; it asks for a rebuild exactly when row and setting disagree |
| `ObjectivePanel.ObjectivePanel.OnRefreshEnd` | native/overlay/NaughtyBear_ReStuff/src/hooks.cpp:2194-2203 | appends the score row exactly when it is wanted, missing and can be appended, and otherwise leaves the panel |
| `ObjectivePanel.ObjectivePanel.Handle` | native/overlay/NaughtyBear_ReStuff/src/hooks.cpp:2064-2203 | every event but an add that cannot swap the score row keeps the panel's invariant and has the effect on the game's rows that it would have without the hooks |
| `ObjectivePanel.Run` | native/overlay/NaughtyBear_ReStuff/src/hooks.cpp:1993-2203 | in every run the panel shows exactly the rows the game means and then at most one score row, which g_score_row names, until the first add that meets a score row while SetObjectiveText is not found; that add ends it |
| `ObjectivePanel.FailedSwap` | native/overlay/NaughtyBear_ReStuff/src/hooks.cpp:2171-2176 | when it is not found for a swap, the next append before a clear makes g_score_row name a row of the game |
| `PronounBanner.MatchesWholeWord` | native/overlay/NaughtyBear_ReStuff/src/hooks.cpp:2419-2429 | the letter comparison with its look-ahead is a case-blind comparison with the whole maximal alphabetic run |
| `PronounBanner.TableIsFunction` | native/overlay/NaughtyBear_ReStuff/src/hooks.cpp:2402-2407 | no word matches two entries, so the longest-first order decides nothing; every spelling of HE, HIM, HIS and HIMSELF becomes the word of the class |
| `PronounBanner.PronounInLine` | native/overlay/NaughtyBear_ReStuff/src/hooks.cpp:2414-2440 | a pronoun in any case between characters that are no letters becomes that of the class, HE becoming SHE, THEY or IT and so on, and the line before and behind it is rewritten as it would be alone |
| `PronounBanner.CopyKeeps` | native/overlay/NaughtyBear_ReStuff/src/hooks.cpp:2441-2441 | copying a character that starts no pronoun, even inside a word, keeps what is done plus what is to come equal to the specification |
| `PronounBanner.RewriteKeeps` | native/overlay/NaughtyBear_ReStuff/src/hooks.cpp:2430-2438 | so does replacing a whole word at its boundary |
| `PronounBanner.OnPipString` | native/overlay/NaughtyBear_ReStuff/src/hooks.cpp:2384-2450 | the line shown is the text with each maximal alphabetic run that is a pronoun replaced and all else copied, cut to 255 characters; a line that is one pronoun, in any case, is shown as SHE, HER, HER, HERSELF, as THEY, THEM, THEIR, THEMSELF or as IT, IT, ITS, ITSELF by the class; untouched for the default class |
| `PronounBanner.NothingToRewrite` | native/overlay/NaughtyBear_ReStuff/src/hooks.cpp:2444-2444 | a text without a pronoun is its own rewriting |

## Left out

- The socket path of vt_send for messages of at least the server ring's size (native/thirdparty/vortek/include/vortek.h:215-233); its server half is not part of this model.
- vt_alloc, vt_free and the pNext helpers of vortek.h; a received payload is a value here.
- Memory ordering weaker than the release and acquire publishes of the ring, which are atomic steps here.
- mmap, sockets, descriptor passing, eventfd and sleeping: poll is an oracle, busyWait a step that changes nothing.
- The wait loops of the `RingBuffer` class, which are taken one round at a time; `RingProtocol` has the loops, with the other side running in between.
- ThreadPool.RunKeeps: pools of more than 255 workers, for which PoolSize shows the promise false, are not covered; nor is more than one client thread.
- TornStream.DeliversRightIff: states with two or more cuts that are not shared are outside the equivalence, because their effects can cancel each other, depending on the bytes; so are states in the middle of a call, in which a side may still be cut at the same message. A continuation in which nobody is cut again is what decides, since EXIT, once raised, lets any wait give up.
- TaskSplit.TaskSource: the products of the source are int and overflow from images of 2 GiB on; they are unbounded here.
- DecodeLoops.Decode: covers images whose sides fit the uint16_t fields of a task (SplitCoversIff); the int arithmetic of offsets in images of more than 2 GiB is not modelled.
- DecodeLoops.DecodeThread: the five loops of the switch are one loop with the switch inside; reads of compressed blocks past the end of a truncated image are reads of whatever lies there.
- ArrayMap.ArrayMap.Get: a stored NULL cannot be told from a missing key in the code; the model's values are not null. The overflow of sizes beyond int is not modelled.
- ArrayDeque.ArrayDeque.AddLast: null elements are excluded by the element type; ArrayDeque_free is left out.
- IntArray, ArrayBuffer, ArrayList and the SparseArray macros, which are straightforward or the collision-free case of ArrayMap.
- EventWait.SoundIff: lists that have both negative entries and repeated descriptors are outside the equivalence and outside EndsIff.
- EventWait.WaitForEvents: a wait that needs more rounds than the budget is reported as still waiting; no bound on rounds is claimed.
- DescriptorTemplate.FillDescriptorWrites: totals that pass INT_MAX, the range of its int offsets, are excluded; descriptors are read by functions of their address.
- ObjectPool: only the pool of descriptor sets; the cached object types of VkObject_create are not part of this model.
- ObjectivePanel.Run: the check marks of rows are not part of the panel; hooks run one at a time, as the game thread and the frame callback are not interleaved within a hook; the score text is an input.
- PronounBanner.OnPipString: the pronoun class and the reading of guest memory are inputs; characters are those of the C locale.
- Diagnostics, environment-gated experiments, JNI, SDL, launcher, camera, sky and health code, the generated Vulkan wrappers and the serializer.
