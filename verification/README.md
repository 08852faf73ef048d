# A verified model of the netperf datapath

The repository is a user-level network server and client that drive a Mellanox NIC directly: the
program writes send descriptors into a ring, hands receive buffers to the device, polls completion
queues for entries whose owner bit matches the current pass, and answers requests either with
scattered zero-copy descriptors or with copied packets. This project models that datapath and the
self-contained algorithms around it in Dafny and proves what they achieve.

The transmit and receive sides are state machines (`TxRing`, `RxRing`) whose steps are the driver's
operations and the device's: the device completes posted descriptors in order and writes completion
number p into slot p mod cqe_cnt with the owner bit of its pass. Each has an invariant that every step
keeps, theorems over every run, and a class (`Txq`, `Rxq`) whose methods do the same work in place and
are proved equal to the steps. `Server` puts both rings, the three memory pools, the mbuf chains and the
reference counts together in the three modes (zero-copy, copy, echo) and keeps one set of books: every
buffer is in exactly one place at all times. `Frames` says what bytes an answer has. What the device reads from memory
when it sends a message is kept in a history, and over whole runs, whenever the device works, the server is proved to send
exactly these frames, and both sending paths to agree. The other modules are LRPC channels, the two Internet checksums,
the chunked memory copy, bitmaps and their list parser, the pointer chase and the grouping of latencies.

Modules and files:

| file | module | subject |
|---|---|---|
| Bits.dfy, Memory.dfy | Bits, Memory | machine words, `&` on integers, byte order, writes at pointer offsets |
| Wqe.dfy | WorkRequest | bytes of a send descriptor, what the device reads back |
| Completion.dfy | Completion | owner-bit completion queues |
| TxRing.dfy, Txq.dfy | TxRing, TxQueue | transmit state machine and the queue object |
| RxRing.dfy, Rxq.dfy | RxRing, RxQueue | receive state machine and the queue object |
| Mempool.dfy, RefCounts.dfy, Mbufs.dfy | Pools, RefCounting, PacketBuffers | pools, reference counts, mbuf chains |
| Accounts.dfy, Service.dfy, Server.dfy | Accounts, Service, Serving | conservation, resource bounds, the server |
| Frames.dfy | Frames | the bytes of an answer on both sending paths |
| Exchange.dfy | Exchange | a client's request and its answer, end to end |
| Lrpc.dfy | Lrpc | single-producer single-consumer channels |
| Checksum.dfy | Checksum | the Internet checksum in two forms |
| RteMemcpy.dfy | RteMemcpy | the chunked memory copy |
| Bitmap.dfy, BitmapList.dfy | Bitmap, BitmapList | bitmap search, list parser |
| PointerChase.dfy | PointerChase | shuffled pointer table and client requests |
| Latency.dfy | Latency | grouping round-trip times, latency distribution |

Constants and assumptions: wqe_cnt is a power of two and at most 2^16, because completions carry a 16-bit
descriptor counter; cqe_cnt is a power of two and at most 2^15, because the parity is kept in 16 bits (the
bound is proved exact, `Completion.ParityWidth`); a block is 64 bytes; a descriptor is a 16-byte control
segment, an Ethernet segment whose inline bytes start at offset 14, and 16-byte data segments; an inlined
header is 58 bytes; `nb_segs` of a posted mbuf is the length of its chain; at most 32 segments per message
(MAX_SCATTERS), 32 messages per batch, 32 packets per burst. SQ_CLEAN_THRESH and SQ_CLEAN_MAX are 32, as in
inc/mlx5_init.h, which the driver includes (inc/defs.h has another value). `MLX5_CQE_INVALID` is 15, although
the comment in inc/mlx5.h says -1. When references are counted, requests name segments below numArrays * numTotal, the
number of counters: main.c:884 passes on whatever id a packet carries, and the access stays inside the counters if and
only if the id is below that bound (`PlaceInside`).

Where the code falls short of its intent the model keeps the code and proves exactly when it is right:

- The inlined header is exact if and only if the descriptor does not start in the last block
  (`HeaderExactIff`); otherwise its last 24 bytes are lost and eight bytes in front of the ring are overwritten
  (`LostBytes`, `WritesOutside`). Some legal run of messages of one size writes a descriptor there if and only if
  their block count is odd (`LastBlockIff`); answers with n segments have their headers read as intended on all
  runs if and only if (n + 1) / 4 is even (`SafeSegmentCounts`).
- A burst loses packets if and only if its last packet is invalid and an earlier one is not (`LeakExact`), and losses
  add up. Refilling the receive ring after a burst of n packets succeeds if and only if the receive pool has
  rx wqe_cnt + |held| + n buffers, plus in echo mode those in the transmit ring (`Burst`, `Serve`). Otherwise the driver
  writes through the null pointer it was given before it checks it (inc/mlx5_rxtx.h:224-229), and the program ends there.
  Outside echo mode all schedules that lose at most L packets before their last turn are served if and only if the pool has
  rx wqe_cnt + |held| + L + n buffers, where n is the largest burst there can be (`ServedExact`, `SchedulesCovered`). In
  echo mode a pool with tx wqe_cnt more, the most packets there can be in the transmit ring (`RingedBound`,
  `RingFills`), is large enough. In no mode is a pool large enough for all schedules (`LeaksExhaust`).
- A copied answer stays inside its buffer if and only if header and data fit; the debug assertion of mbuf_copy
  counts the data only and misses the packets in between (`BufferBound`, `AssertsMiss`).
- The warning that a reference count reached zero appears at every multiple of 256 (`WarnsExact`).
- Text behind an element of a bitmap list is noticed behind the last element only (`ParseExact`).
- The two checksum forms agree on all buffers of n bytes if and only if n <= 131074 (`FormsAgree`).
- The pointer chase visits every segment if and only if no step of the shuffle but the last makes the one choice
  that closes a loop (`VisitsAllExact`, `ClosingExact`); for two segments or more some choices leave it at segment 0
  for ever (`StaysAtZero`).

## Model

| member | source | states |
|---|---|---|
| WorkRequest.FillLayout | mlx5_rxtx.c:176-256 | for every ring, start block, header and chain, the ring seen from the start block is the old one with control segment, Ethernet segment, header and all data segments at consecutive 16-byte units, across the ring end |
| WorkRequest.PictureDecodes | mlx5_rxtx.c:179-256 | reading the descriptor back gives a send command of this queue that asks for a completion and both checksums and leaves every reserved byte zero, the index, the unit count, the inlined header (except in the last block) and every data segment in order |
| WorkRequest.CtrlCommand | mlx5_rxtx.c:183-188 | opcode, queue number, completion flag and zeroed bytes of the control segment are at their places |
| WorkRequest.EthCommand | mlx5_rxtx.c:193-195 | the Ethernet segment asks for the two checksums and nothing else |
| WorkRequest.FillStaysInside | mlx5_rxtx.c:152-160 | all bytes written lie in the blocks the descriptor reserves, for inlined headers when it does not start in the last block; in the last block the lost pieces write nothing else in the ring |
| WorkRequest.WindowKept | mlx5_rxtx.c:176-260 | a descriptor in a disjoint window of blocks is read unchanged after another one is written |
| WorkRequest.DecodeLocal | mlx5_rxtx.c:179-256 | what the device reads depends on the descriptor's own blocks only |
| WorkRequest.HeaderExactIff | mlx5_rxtx.c:97-123 | the inlined header is read exactly, for all ring contents, headers and chains, if and only if the start block is not the last |
| WorkRequest.LostBytes | mlx5_rxtx.c:105-110 | in the last block the device reads Ethernet and IP header followed by the first 24 bytes of the ring |
| WorkRequest.WritesOutside | mlx5_rxtx.c:97-123 | inlining a header writes nothing outside the ring, except that in the last block the eight bytes at offsets -26 to -19 end up holding the checksum field |
| WorkRequest.InlineSplit | mlx5_rxtx.c:112-118 | a piece that crosses the end of the ring is continued at its beginning, byte by byte |
| WorkRequest.SegRoundTrip | mlx5_rxtx.c:239-246 | byte count, key and address of a data segment survive the big-endian encoding |
| Completion.PollExact | inc/mlx5.h:80-88 | with at most cqe_cnt unread completions, a poll accepts completion h exactly when the device has produced it, and reads its report, across head wrap-around |
| Completion.ParityWidth | inc/mlx5.h:82 | owner-bit polling is right for all histories if and only if the queue has at most 2^15 entries |
| Completion.ProduceKeepsRing | mlx5_rxtx.c:69-79 | the device's write keeps the last cqe_cnt reports in their slots and unwritten slots with the hardware |
| Completion.NextSlotStale | inc/mlx5.h:80-88 | the slot of a completion not yet produced never looks finished, whatever pass it is from |
| TxRing.InflightExact | inc/mlx5.h:67-70 | the wrapped counter difference is the number of blocks posted and not gathered, at most wqe_cnt; the free room is the rest |
| TxRing.WindowsDisjoint | mlx5_rxtx.c:176-177 | block windows of messages in flight are pairwise disjoint on the ring |
| TxRing.PostKeepsInv | mlx5_rxtx.c:176-262 | posting into free room keeps the invariant: older descriptors stay readable, buffers[] and counters stay right |
| TxRing.DeviceKeepsInv | mlx5_rxtx.c:69-86 | a device that sends and reports only what a descriptor commands keeps the invariant and puts the next posted message on the wire |
| TxRing.DeviceObeys | mlx5_rxtx.c:179-188 | the device puts a message on the wire exactly when it reads a send command of this queue, and reports exactly when it reads a completion request |
| TxRing.TakeExact | mlx5_rxtx.c:69-88 | a completion is found exactly when one is unread, and gives the oldest message's mbuf and block count |
| TxRing.GatherExact | mlx5_rxtx.c:57-95 | gathering hands back exactly the finished messages within the budget, oldest first, each once |
| TxRing.SendsExact | mlx5_rxtx.c:162-174 | a transmission is accepted exactly when its blocks fit now or after reclaiming up to 32 finished messages |
| TxRing.TransmitExact | mlx5_rxtx.c:296-315 | a refused transmission posts nothing, an accepted one appends its message; exactly how many messages are handed back: up to 32 when the blocks do not fit at once, and up to 32 when 32 blocks or more are in flight afterwards |
| TxRing.EveryRun | mlx5_rxtx.c:57-315 | on every run from fresh queues, across counter wrap-around: invariant, mbufs handed back in posting order each once, wire in posting order, every descriptor a command to send and report |
| TxRing.LastBlockIff | mlx5_rxtx.c:152-160 | for every message that fits the ring: some legal run of messages of its size from fresh queues writes a descriptor at the last block if and only if that size is odd |
| TxRing.SafeSegmentCounts | mlx5_rxtx.c:198-224 | for answers with n segments that fit the ring: on every legal run the device reads every inlined header as intended, if and only if (n + 1) / 4 is even |
| TxRing.EvenBlocksExact | mlx5_rxtx.c:198-224 | with an even block count every header on the wire is the intended one, for the whole run |
| TxRing.HasWorkExact | mlx5_rxtx.c:266-278 | the doorbell counter and the completion head tell the device exactly whether it has a descriptor to complete and room to report it |
| TxRing.RefusedReclaims | mlx5_rxtx.c:162-174 | a refused transmission has reclaimed something unless the device still has work |
| TxRing.RingFills | mlx5_rxtx.c:162-177 | from fresh queues, with a device that does not work, up to wqe_cnt messages of one block are accepted and in flight together, in some legal run for every number |
| TxRing.NumWqesFrame | mlx5_rxtx.c:87 | only the num_wqes of mbufs in flight matter to the ring |
| TxQueue.Txq.GatherCompletions | mlx5_rxtx.c:57-95 | the loop over completion entries equals the state machine's gather and returns the reclaimed mbufs |
| TxQueue.Txq.InlineDataAt | mlx5_rxtx.c:97-123 | the two-part copy writes exactly the modelled bytes, including the restart computed from the piece length |
| TxQueue.Txq.WriteSegs | mlx5_rxtx.c:235-257 | walking the chain writes one data segment per mbuf with wrap-around |
| TxQueue.Txq.PostDescriptor | mlx5_rxtx.c:176-262 | the in-place post equals the state machine's, and changes no mbuf field but num_wqes |
| RxRing.WrapsLteExact | inc/base/stddef.h:149-152 | wraps_lte orders any two counters less than 2^31 apart |
| RxRing.TakeExact | mlx5_rxtx.c:332-352 | a packet is found exactly when one is unread; it is the oldest, stored where the device wrote it |
| RxRing.DataBehindHead | inc/mlx5_rxtx.h:236 | packet data lie 128 bytes behind the start of their own buffer |
| RxRing.CollectExact | mlx5_rxtx.c:332-352 | exactly the unread packets within the budget are handed up, in arrival order |
| RxRing.RefillSparesPosted | inc/mlx5_rxtx.h:233-236 | refilling never overwrites a slot whose buffer the device still owns |
| RxRing.RefillKeepsInv | inc/mlx5_rxtx.h:210-243 | refilling up to the free slots keeps the receive invariant and appends the buffers in order |
| RxRing.RefillAssertionHolds | inc/mlx5_rxtx.h:219-221 | the wraps_lte assertion holds on every call from mlx5_gather_rx |
| RxRing.GatherRxExact | mlx5_rxtx.c:317-361 | after one call the ring is full again and the packets are the next ones in arrival order |
| RxRing.FullDifference | mlx5_rxtx.c:332-360 | between calls wq_head minus consumer_idx is wqe_cnt modulo 2^32 |
| RxRing.EveryRun | mlx5_rxtx.c:317-361 | on every run the ring is full between calls and each buffer is delivered once, in posting order |
| RxRing.RunSteps | mlx5_rxtx.c:317-361 | a run is its steps one after the other |
| RxQueue.Rxq.InitRings | mlx5_init.c:321-344 | initialisation succeeds exactly when the pool has wqe_cnt buffers, establishes the receive invariant and records its size in the mbuf of every posted buffer |
| RxQueue.Rxq.Refill | inc/mlx5_rxtx.h:210-243 | the in-place refill equals the state machine's, taking buffers from the pool in order; it runs out exactly when the pool has fewer than asked for, after posting those |
| RxQueue.Rxq.Take | mlx5_rxtx.c:332-352 | the in-place polling loop equals the state machine's and fills in each packet's mbuf: buffer, data address, release function and the length its completion reports; the recorded size of the buffer is kept |
| RxQueue.Rxq.GatherRx | mlx5_rxtx.c:317-361 | packets and refill together, with the pool, the rings, the mbuf structures, the reported lengths and the buffer sizes accounted for; it comes to its end exactly when the pool has a buffer for each packet |
| RxQueue.Rxq.DeviceReceive | mlx5_rxtx.c:332-346 | the device stores a packet in the oldest posted buffer and reports it, as the state machine does |
| Pools.ItemsLayout | mempool.c:62-67 | pool items never overlap and each lies inside one page |
| Pools.ItemsInRegion | mempool.c:62-67 | items lie inside the buffer and straddle no page boundary when it is page-aligned |
| Pools.Mempool.Create | mempool.c:80-94 | creation fails exactly for a zero item length, a page size that is no power of two, or a length that is no multiple of it; else all items are free |
| Pools.Mempool.Populate | mempool.c:48-70 | the nested loops store exactly the items of all pages, page after page |
| Pools.Mempool.Alloc | inc/base/mempool.h:34-42 | the next free item is taken, or NULL is returned when there is none |
| Pools.Mempool.Release | inc/base/mempool.h:49-57 | the item becomes the next free one |
| Pools.StepKeepsPartition | inc/base/mempool.h:34-57 | allocation and valid free keep free and held items a partition; allocation fails exactly when all are held |
| Pools.EveryUse | inc/base/mempool.h:34-57 | over any sequence of allocations and valid frees the partition holds and allocated counts the held items |
| Bits.PowerOfTwoExact | inc/base/stddef.h:82 | is_power_of_two holds exactly for the powers of two |
| Bits.AndMask | inc/mlx5.h:80-88 | masking with size - 1 is the remainder modulo a power of two |
| RefCounting.PlaceInjective | mlx5_rxtx.c:41-42 | two virtual segments never share a counter |
| RefCounting.PlaceInside | mlx5_rxtx.c:41-47 | the counter lies inside the arrays if and only if the virtual segment is below numArrays * numTotal |
| RefCounting.RefCounts.constructor | mlx5_init.c:73-76 | every count starts at one |
| RefCounting.RefCounts.Change | mlx5_rxtx.c:38-53 | only the named segment's 16-bit counter changes, by the given amount; a decrement returns zero minus the new count |
| RefCounting.ReturnedExact | mlx5_rxtx.c:45-53 | an increment returns the new count, a decrement 2^16 minus the new count, or 0 |
| RefCounting.WarnsExact | inc/mlx5_rxtx.h:156-161 | the decrement-to-zero warning appears exactly when the new count is a multiple of 256 |
| RefCounting.WarningRange | inc/mlx5_rxtx.h:156-161 | the warning is right for all counts up to a bound if and only if the bound is at most 256 |
| PacketBuffers.ChainFrame | inc/base/mbuf.h:24-43 | a chain is kept by writes to other fields than next |
| Accounts.EveryHistory | main.c:782-974 | over any history, in all three modes, every item of every pool is in exactly one place and every reference count is one more than its outstanding mbufs |
| Accounts.AddSegmentKeeps | main.c:863-890 | taking an mbuf and counting its segment keeps the books balanced exactly when the 16-bit count has room |
| Accounts.FreeOneKeeps | inc/mlx5_rxtx.h:152-185 | freeing one mbuf returns it and its buffer to the right pools, and the count it drops was at least two |
| Accounts.HandUpKeeps | mlx5_rxtx.c:352-359 | handing packets up and posting fresh buffers keeps the books balanced |
| Accounts.DropRequestKeeps | inc/mlx5_rxtx.h:180-185 | freeing a received packet keeps the books balanced |
| Accounts.AllocationExact | main.c:863-864 | an mbuf allocation fails exactly when every mbuf is in use |
| Accounts.CountBounds | mlx5_rxtx.c:38-53 | counts stay between one and one more than the mbufs in use |
| Accounts.FreeNotOut | main.c:863-890 | a free mbuf is in no message and no mbuf is in two |
| Service.FlightBound | mlx5_rxtx.c:158-174 | the ring bounds the mbufs in flight by 4 * wqe_cnt |
| Service.MbufAvailable | main.c:863-872 | with 4 * wqe_cnt + 1024 mbufs (and buffers) an allocation succeeds at every moment of building a batch |
| Service.CountFits | main.c:884-890 | no reference count overflows 16 bits when 4 * wqe_cnt + 1024 < 65535 |
| Service.RefillExact | inc/mlx5_rxtx.h:223-231 | between bursts n receive buffers are free if and only if the pool covers them beside those in the receive ring, those held, and in echo mode those in the transmit ring |
| Service.BuiltIsFresh | mlx5_rxtx.c:259 | a message under construction shares no mbuf with the messages in the ring |
| Service.FreeGood | inc/mlx5_rxtx.h:152-165 | the next mbuf to free carries the right release data, its next field leads to the rest, and its count is at least two |
| Service.OthersKept | main.c:863-906 | writing to the message under construction leaves all other messages, the queue and the packets held as they were |
| Service.ReceiveGood | mlx5_rxtx.c:352-359 | receiving overwrites no mbuf of a message in the ring or of a packet held |
| Service.StockOfPools | mempool.c:80-94 | pools created over separate regions meet the server's requirements |
| Serving.PoolBuffersApart | mempool.c:62-67 | transmit buffers that are items of one pool and no longer than its items do not overlap |
| Service.PendingExact | main.c:989-1034 | how many packets are pending after any burst, for every pattern of valid and invalid packets |
| Service.LeakExact | main.c:998-1009 | a burst loses packets if and only if its last packet is invalid and an earlier one is valid; then all valid ones |
| Service.LostIsPending | main.c:989-1034 | the packet-by-packet loop leaves pending exactly as many packets as a leaking burst has valid ones |
| Service.LossesAddUp | main.c:989-1034 | over any sequence of bursts, each leaking burst costs between 1 and 31 buffers for good and no other burst costs any |
| Service.FlightBuffers | main.c:917-934 | no message in the ring is sent from a transmit buffer that is free |
| Serving.Server.constructor | main.c:344-461 | full pools, fresh queues, zeroed headers and counts of one give a valid server with nothing in use |
| Serving.Server.ZeroCopyTxCompletion | inc/mlx5_rxtx.h:152-166 | the whole chain is freed: every mbuf to its pool, every count down by one |
| Serving.Server.TxCompletion | inc/mlx5_rxtx.h:168-178 | every mbuf and its buffer go back to their pools |
| Serving.Server.RxCompletion | inc/mlx5_rxtx.h:180-185 | an echoed packet's buffer goes back to the receive pool |
| Serving.Server.Clean | mlx5_rxtx.c:306-312 | up to 32 finished messages are gathered and every one of them is freed |
| Serving.Server.TransmitOne | mlx5_rxtx.c:296-315 | equals the state machine's transmission; what it frees and posts stays on the books |
| Serving.Server.TransmitBatch | mlx5_rxtx.c:363-378 | sends the queued messages in order until one is refused, and reports how many |
| Serving.Server.PostMbufs | main.c:763-780 | with a device that always eventually works, exactly the messages of the batch are posted, each once and in order, and the loop terminates, whatever pattern of full rings occurs; whatever the device sends meanwhile, of this batch or of earlier ones, is on file as the right frame |
| Serving.Server.BuildZeroCopy | main.c:851-906 | one chained mbuf per segment, each referring to the segment's memory, counted once, ready to post; no allocation fails |
| Serving.Server.BuildCopy | main.c:908-962 | one mbuf with the next free buffer, which then holds the answer asked for up to the two unwritten fields; all other buffers keep their contents; no allocation fails |
| Serving.Server.BuildAnswers | main.c:817-965 | one answer per request in order: a reversed header with the requested segments, or a filled buffer of its own taken from the free ones in order; what the device reads of earlier answers while these are built is right |
| Serving.Server.PrepareEcho | main.c:787-795 | a packet is refused exactly when its buffer is smaller than the answer |
| Serving.Server.ProcessEchoRequests | main.c:782-808 | all packets are sent back, each once and in order, or none is and all stay with the server: exactly when receive buffers are smaller than header and payload together |
| Serving.Server.RefusedExact | main.c:753-757 | with the size that initialisation and refill record, either every packet of a batch can hold the answer or none can |
| Serving.Server.EchoedWhole | main.c:759 | what is sent back is the packet from its data on, header and payload bytes long |
| Serving.Server.ProcessServerRequests | main.c:810-974 | without echo it always returns 0 and posts exactly the answer to each request, in order; copied answers are in their buffers, and those of older messages in the ring stay intact; with echo it posts all or none |
| Serving.Server.FreeRequest | inc/mlx5_rxtx.h:180-185 | a received packet is returned to the receive pool |
| Serving.Server.Receive | main.c:983-987 | a burst of different packets is taken, each with address, reported length and buffer size, and the ring refilled, if and only if the receive pool covers the burst |
| Serving.Server.ProcessBatch | main.c:1013-1034 | after a batch the server holds none of its packets, whatever the outcome; no packet is freed twice |
| Serving.Server.Burst | main.c:983-1038 | a turn of the loop comes to its end if and only if the receive pool covers the burst; it conserves every buffer, and the valid packets are answered, each once and in order, unless the last packet is invalid: then exactly they are lost |
| Serving.Server.OnePacket | main.c:989-1034 | an invalid packet is freed, a valid one joins the batch, a full or last batch is answered and freed |
| Serving.Server.Serve | main.c:977-1038 | over any number of turns and any pattern of arrivals, each turn is got through if and only if the receive pool covers its burst, the packets lost before and those on their way back; without echo exactly the requests of bursts that do not leak are answered, in order, and every frame the device sends is the answer asked for, copied ones up to the two unwritten fields, zero-copy ones unless the descriptor starts in the last block |
| Serving.Server.ServedExact | main.c:977-1038 | outside echo mode all turns are served if and only if the pool covers every one; in echo mode they are if it covers them with the transmit ring full |
| Serving.Server.RingedBound | main.c:782-808 | at most tx wqe_cnt received packets are in the transmit ring in echo mode, none in the other modes |
| Serving.Server.SchedulesCovered | main.c:977-1038 | for every L: all schedules with at most L packets lost before the last turn are covered if and only if the pool has rx wqe_cnt + held + L + the largest burst (and tx wqe_cnt in echo mode) |
| Serving.Server.LeaksExhaust | main.c:989-1034 | however large the receive pool and in every mode, some schedule of bursts with an invalid last packet is not got through, even if no packet is on its way back |
| Serving.Server.ZeroCopyOnWire | main.c:851-906 | what the device read of a zero-copy answer is the answer its request asks for, unless the descriptor starts in the last block |
| Serving.Server.EveryFrameWanted | main.c:851-906 | with (n + 1) / 4 even, every frame a zero-copy server has ever sent is exactly the answer to its request |
| Serving.Server.EveryCopyWanted | main.c:908-962 | every frame a copying server has ever sent is the answer to its request up to the two unwritten fields, also of answers sent and gathered within one call |
| Serving.Server.CopyOnWire | main.c:908-962 | at whatever moment the device reads a copied answer, between calls, while others are built or in the middle of posting a batch, it finds its packet in the buffer |
| Serving.Server.AgreesWith | main.c:851-962 | whatever a zero-copy server and a copying server that serve the same data have sent for requests with the same bytes is the same frame, but for bytes 40-41 and 50-57, unless the zero-copy descriptor starts in the last block |
| Frames.SameBytes | main.c:469-523 | header plus data and the copied packet agree on every byte but the UDP checksum and the checksum field, and are equal if and only if those stale bytes are |
| Frames.SegmentsRead | main.c:826-828 | a list of any 64-bit numbers that a little-endian client writes behind 50 bytes is read as exactly these numbers, in order, whatever follows |
| Frames.AnswerBytes | main.c:826-906 | byte by byte: the answer to such a packet has every header field at its place, ends exchanged and lengths modulo 2^16, and data segment k is the segment that number k of the list names, modulo the number of segments |
| Frames.AnswerAccepted | main.c:542-583 | the requester accepts the answer of either path as a valid packet |
| Exchange.ChaseAnswered | main.c:618-632 | request r of the client, as it copies it into a packet, is answered with number r and with the segments of its part of the pointer chase, in order |
| Frames.PathsAgree | main.c:851-962 | on the wire of any two rings the zero-copy and the copying path give the same frame but for bytes 40-41 and 50-57, when the zero-copy descriptor does not start in the last block |
| Frames.CopiedWanted | main.c:935-958 | whatever was in the buffer, the packet copied into it is the reversed header and the requested segments, up to the two unwritten fields |
| Frames.BufferBound | main.c:941-957 | copying never changes what lies behind the buffer, for all contents, if and only if header and data fit in it |
| Frames.AssertsMiss | inc/base/mbuf.h:211-216 | the debug assertions pass although the packet overruns its buffer if and only if the data alone are smaller than the buffer and header and data are not |
| Frames.AnswerStore.WriteSlot | main.c:525-540 | the header in its place of the static array becomes the answer's header; no other changes |
| Frames.AnswerStore.WritePacket | main.c:935-958 | the buffer holds the answer asked for, up to the two unwritten fields; no other buffer changes |
| Frames.AnswerAddressed | requests.c:39-67 | the answer goes back to the sender's MAC, IP address and port, carries its id, and its length fields are right when they fit in 16 bits |
| Frames.HeaderSlot.InitializeReverse | requests.c:29-70 | the field assignments give the reversed header and keep the two fields that are not written |
| Frames.WriteHeader | main.c:469-523 | the stores into the buffer give the reversed header and keep the rest |
| Frames.CopySegments | main.c:941-957 | the segments asked for stand one after the other behind the header |
| Frames.CopyPacket | main.c:935-958 | header and segments together, nothing else changed |
| Frames.GatheredIsData | main.c:854-902 | the device gathers exactly the bytes of the segments asked for |
| Lrpc.EveryRun | inc/base/lrpc.h:48-63 | on every interleaving of single memory accesses, for every power-of-two size up to 2^31 and wrapping heads, received messages are a prefix of sent ones |
| Lrpc.RunSteps | inc/base/lrpc.h:48-146 | a run is its steps one after the other |
| Lrpc.StepKeeps | inc/base/lrpc.h:48-146 | every step of either side keeps the channel invariant and only extends the histories |
| Lrpc.EmptyExact | inc/base/lrpc.h:152-158 | lrpc_empty is true exactly when no published message is left to receive |
| Lrpc.ReceiveExact | inc/base/lrpc.h:129-146 | a receive hands over the oldest message not yet received, untorn |
| Lrpc.FullExact | inc/base/lrpc.h:55-56 | after polling the tail, sending is refused exactly when the table holds as many unreceived messages as slots |
| Lrpc.WindowExact | inc/base/lrpc.h:75-78 | the cached window never promises more slots than are free |
| Lrpc.LengthExact | inc/base/lrpc.h:89-92 | the cached length counts messages sent since the known tail, at most the size |
| Lrpc.ChanOut.BeginSend | inc/base/lrpc.h:58-60 | head, parity and payload write equal the state machine's first step |
| Lrpc.ChanOut.PublishSend | inc/base/lrpc.h:61 | the release store publishes exactly one message |
| Lrpc.ChanOut.Send | inc/base/lrpc.h:48-63 | the message is appended, or, with an idle receiver, refused exactly when the table is full |
| Lrpc.ChanIn.Recv | inc/base/lrpc.h:129-146 | a message is received exactly when one is left, and it is the next one |
| Checksum.ChksumInternet | inc/asm/chksum.h:19-74 | the add-with-carry loop and folding give the complement of the one's complement sum, for every buffer |
| Checksum.AdcKeeps | inc/asm/chksum.h:29-33 | no end-around carry is lost: accumulator plus carry keeps the sum |
| Checksum.RawSum | inc/net/chksum.h:34-60 | the unrolled loops give the word sum modulo 2^32 |
| Checksum.ReduceExact | inc/net/chksum.h:71-77 | two folds are enough for every 32-bit sum |
| Checksum.RawCksum | inc/net/chksum.h:89-96 | raw_cksum is the one's complement sum of the wrapped 32-bit sum |
| Checksum.NoOverflow | inc/net/chksum.h:34-60 | the 32-bit sum does not overflow up to 131074 bytes |
| Checksum.FormsAgree | inc/asm/chksum.h:19-74 | the two forms are complements for all buffers of n bytes if and only if n <= 131074 |
| Checksum.ZeroOnlyForZeros | inc/net/chksum.h:71-96 | before the complement the result is 0 only for all-zero data |
| Checksum.UdpTcpCksum | inc/net/chksum.h:125-142 | the checksum is the complement of segment and pseudo-header together, with 0 replaced by 0xffff |
| Checksum.PseudoHeaderFields | inc/net/chksum.h:106-122 | addresses, zero, protocol and length are at their places of RFC 768, in network order |
| Checksum.SamePseudo | inc/net/chksum.h:106-122 | bytes 12-19 and 9 of any IPv4 header with these addresses and this protocol, and the length, give the same pseudo-header |
| Checksum.ChecksumVerifies | inc/net/chksum.h:125-142 | written into its zeroed aligned field, the checksum makes the segment and the pseudo-header that the receiver takes from the IPv4 header sum to 0xffff; it is never 0 |
| Checksum.VerifiesOnlySame | inc/net/chksum.h:125-142 | whatever bytes arrive in place of the segment pass the verification exactly when their sum differs by a multiple of 0xffff |
| RteMemcpy.RteMemcpyFunc | inc/base/rte_memcpy.h:302-417 | for every length and disjoint windows the destination becomes the source and no other byte changes |
| RteMemcpy.Extend | inc/base/rte_memcpy.h:325-342 | a block that overlaps bytes already copied writes the same values again |
| RteMemcpy.Copy.Move | inc/base/rte_memcpy.h:103-260 | every block moved lies inside the two windows |
| RteMemcpy.Copy.Large | inc/base/rte_memcpy.h:344-417 | the 256-byte loop, both switches and the last block that reaches back copy everything |
| Bitmap.FindNext | bitmap.c:11-29 | the least matching position from pos on and below nbits, or nbits |
| Bitmap.FfsExact | bitmap.c:23-24 | ffs finds the lowest set bit |
| Bitmap.LongSizeExact | inc/base/bitmap.h:12-14 | a bitmap has no word too few and none too many |
| Bitmap.ForEachSet | inc/base/bitmap.h:204-207 | the macro visits exactly the set bits, each once, in increasing order |
| Bitmap.PositionsExact | inc/base/bitmap.h:204-207 | the list visited contains exactly the set positions and is increasing |
| Bitmap.Set | inc/base/bitmap.h:31-34 | one bit is set and all others keep their value |
| BitmapList.StringToBitmap | bitmap.c:56-106 | for every string the in-place parser returns 0 exactly when the list parses, and then the bitmap is the set listed |
| BitmapList.MarkRange | bitmap.c:96-101 | the marking loop equals its specification for every stride, and terminates even when the addition wraps |
| BitmapList.ParseExact | bitmap.c:56-106 | a list of well-formed elements, each with any other text behind it, parses if and only if every range and stride is legal, every listed number is below nbits and nothing stands behind the last element; the result is exactly the union |
| BitmapList.ListedExact | bitmap.c:96-101 | a strided range lists exactly a, a + s, ... up to b |
| BitmapList.ItemRead | bitmap.c:66-92 | each written element is read as its three numbers, whatever follows the comma |
| BitmapList.DecimalRead | bitmap.c:47 | a number written in decimal is read as that number |
| BitmapList.NumberCut | bitmap.c:42-53 | every number below 2^64 is read and cut to 32 bits, a larger one is refused |
| PointerChase.BuildPointers | requests.c:135-181 | a misaligned array is refused; else, for every sequence of random numbers, the table is the rotated shuffle of these choices and a permutation |
| PointerChase.ChoiceExact | requests.c:154-161 | the remainder of the random number chooses among the places left |
| PointerChase.EveryShuffle | requests.c:154-161 | every permutation comes from exactly one sequence of random numbers below the number of places left |
| PointerChase.PeriodExists | requests.c:208-225 | the chase comes back to segment 0 after at most len steps |
| PointerChase.PeriodExact | requests.c:208-225 | it is purely periodic and repeats no segment within a period |
| PointerChase.VisitsAllExact | requests.c:150-177 | for every sequence of random numbers the chase visits every segment if and only if no step i < len - 1 chooses the position that closes a loop |
| PointerChase.ClosingExact | requests.c:154-161 | at every step exactly one of the remaining choices takes the head of the chain that ends at the entry being filled |
| PointerChase.ClosingLocal | requests.c:154-161 | which choice that is depends on the earlier choices only |
| PointerChase.VisitsAllIff | requests.c:208-225 | for every permutation the chase visits all segments if and only if its period is their number |
| PointerChase.StaysAtZero | requests.c:150-177 | for every number of segments from two on, some choices leave the chase at segment 0 for ever |
| PointerChase.SomeVisitAll | requests.c:150-177 | for every number of segments some choices make it visit all |
| PointerChase.FillRequests | requests.c:208-225 | the offsets of all requests, one after the other, are the chase from 0 |
| Latency.CalculateLatencies | latency.c:113-167 | with ids below num_sent the distribution describes exactly the recorded latencies, never more than allocated |
| Latency.RecordedNext | latency.c:145-163 | each request adds the maximum of its first num_per_bucket nonzero times, or nothing |
| Latency.Record | latency.c:132-143 | a measurement fills the first free cell of its own row and touches no other |
| Latency.Dist.AddLatency | latency.c:169-183 | count, sum modulo 2^64, minimum and maximum follow the list |
| Latency.LeastExact | latency.c:177-179 | the recorded minimum is the true one when some latency is below LONG_MAX |
| Latency.SumExact | latency.c:176 | the sum counts every latency once, wherever it stands |
| Latency.MaximumExact | latency.c:149-157 | the maximum is reached and not exceeded |

## Left out

- Server: allocation failures inside calloc and malloc, and the clean-up code after a failed mempool_alloc in a batch (proved unreachable), are not modelled.
- Server: timers, busy work and the optional reading of the incoming packet have no effect on buffers and are left out; the bytes of packets and their validity are inputs.
- Server: the 8-byte checksum field of an answer, to which reference counts are added, is an input of the model.
- Serving.Server.CopyOnWire: the device reads the buffers' contents of that moment; a cache or an IOMMU between them is not modelled.
- Server: the device runs at arbitrary pace before each transmission and each answer that is built, not in the middle of one. What it reads of echoed packets is not modelled.
- RefCounting.RefCounts.Change: excludes segments of numArrays * numTotal and more, for which the code accesses memory outside the counters (mlx5_rxtx.c:41-47).
- Serving.Server.BuildZeroCopy: with counting, excludes requests that name such segments.
- Serving.Server.BuildAnswers: with counting, excludes requests that name such segments.
- Serving.Server.ProcessServerRequests: with counting, excludes requests that name such segments.
- Serving.Server.ProcessBatch: with counting, excludes requests that name such segments.
- Serving.Server.OnePacket: with counting, excludes requests that name such segments.
- Serving.Server.Burst: with counting, excludes requests that name such segments.
- Serving.Server.Serve: with counting, excludes requests that name such segments. In echo mode how many packets are on their way back depends on the device and is a result of each turn; that the transmit ring is full just when the largest burst arrives is shown for the ring alone, TxRing.RingFills.
- TxQueue.Txq.InlineDataAt: the array is the ring alone; what the code writes in front of it in the last block is stated by WorkRequest.WritesOutside on a larger memory.
- WorkRequest: chains are at most MAX_SCATTERS long, so that the unit count fits its six bits.
- RxQueue.Rxq.Take: the hash value and the drop counter of a completion are not modelled.
- Frames: packets are bytes in sequences and buffers. Memory that descriptors refer to consists of the transmit buffers in copy mode and of the data segments in zero-copy mode; that these do not overlap each other is part of the model.
- Frames.AnswerStore.WritePacket: requires that the answer fits its buffer; longer ones, which the code copies past the end, are the subject of Frames.BufferBound.
- Frames.CopyPacket: requires that memory from the buffer's start on is at least as long as the packet; how much of it belongs to the buffer is left open, see Frames.BufferBound.
- Frames.AnswerAddressed: says nothing about IP and UDP checksums, which are offloaded; header checksums of flip_headers and initialize_outgoing_header are not modelled.
- Serving.Server.PrepareEcho: the size of the header structure depends on padding and is a parameter; the swapped header bytes are not modelled in echo mode.
- Lrpc: memory accesses are sequentially consistent steps; weaker orders than the acquire and release operations used are not modelled. inc/base/lrpc.h declares the slow path of sending, __lrpc_send, without a body; it is taken to poll the tail once and retry.
- Bitmap.FindNext: nbits is at most 2^31 - 64, beyond which the position counter overflows.
- Bitmap.ForEachSet: the same bound on nbits.
- BitmapList.ParseExact: numbers of 2^31 and more, for which the stride addition can wrap, are covered by StringToBitmap only.
- PointerChase.BuildPointers: an array of size 0 is excluded, for which the code runs past its empty table.
- PointerChase.FillRequests: the number of requests and the cycle offset come from floating point and are inputs.
- Latency.CalculateLatencies: requires ids below num_sent; the client passes one less than the number of ids it has sent (main.c:696).
- Latency.Dist.AddLatency: requires room in the list, because the code stores the value before it checks; proved for every call of Latency.CalculateLatencies.
- Latency: moving average, sorting and percentiles are floating point or use a comparison that is not an order.
- Verbs and device set-up, memory-mapped doorbells, barriers, system I/O, clocks and argument parsing.
- Unused or constant-only headers (tcache, slab, page, list, icmp, arp, tcp), bitmap_popcount, mbuf_push, mbuf_pull and the code after the return in mlx5_transmit_batch.
