# Verified model of the SCG gateway's local data plane

The gateway moves framed packets between local applications and an upstream connection. An
application reaches it through shared-memory rings or a Unix socket; each packet travels as
`[len: u32 LE][traffic_id: u32 LE][payload]`. This project models that data plane and the state
machines around it, and proves what they promise.

* **Slot ring** (`SlotRing`, `SlotSteps`, `SlotTheorems`, `SlotReserve`, `SlotObject`, `SlotWhole`). One producer and
  one consumer in different processes share two positions, a `seq` word per slot and an array of
  slots. `SlotSteps` is a state machine with one load, store or copied byte per step; a run is any
  sequence of steps of the two sides, so a theorem about all runs covers every interleaving.
  `SlotReserve` follows in-place production through every interleaving, from the reserve to the
  published frame. `SlotObject.Ring` holds the operations as they stand in the source, over mutable arrays;
  `SlotWhole` shows that an operation nobody interrupts is a run of the machine.
* **Byte-stream ring** (`ByteRing`, `ByteTheorems`, `ByteObject`, `ByteWhole`, `ByteWrap`). Frames laid
  end to end in a circular array, copied in two parts where they wrap, in the same four layers.
  `ByteWrap` settles what happens when the 64-bit counters themselves wrap.
* **Frames and streams** (`Frames`, `Decoder`, `RawSession`, `UdsSend`, `UdsRecv`). The codec, the
  incremental decoder under any chunking, the blocking reader under any short reads, the raw
  datagram session, and the socket client's vectored sends and batched receives.
* **Relay and tunnel** (`Channels`, `DrainPlan`, `Relay`, `EndToEnd`). Bounded draining of either ring into
  one byte stream while the client keeps pushing, what bounds one such pass, pushing with
  backpressure, and the composition of two gateways, either of which may give up: same frames, same
  order.
* **Endpoint registry** (`OwnerKeys`, `Registry`, `RegistryRuns`) and **rate limiter** (`RateLimiter`).
* **Traffic classification** (`Addresses`, `FlowCache`, `Classifier`).
* **Hot reload** (`ConfigDiffs`, `Reloads`) and **segment layout** (`Layout`).
* `Words`, `Copies` and `Options` hold the arithmetic of machine words, buffer copies and optional values.

Outside the model, and given to it as parameters: the clock, the kernel's short reads and writes,
interrupts and errors (schedules handed to `Reader`, `Socket`, `Client` and `Upstream`), what the
other process does meanwhile (`arrivals`, `backoffs`), and whatever a hostile peer writes into shared
memory (the `Hostile` step, and contracts that hold for any contents of an object's arrays).
Memory is sequentially consistent.

Some properties do not hold without a condition. Each has a counterexample and the exact condition:

* The byte-stream ring delivers in order for ever if and only if its capacity divides 2^64
  (`ByteWrap.InOrderExactly`). Other capacities are safe until 2^64 bytes have passed.
* A run of the registry keeps every endpoint reachable through its owner key, until it is detached, if
  and only if no close in it removes an id whose owner key names another id at that moment
  (`RegistryRuns.RunKeepsForwardExactly`; the run in `CloseDuringReplacement` has such a close).
* A batched receive that meets an oversized length before its room is used up loses the frames it had
  already taken: if and only if there were any (`UdsRecv.Client.RecvBatchInto`,
  `FrameBeforeOversized`).
* A failing `deframe` call drops the datagrams it had already split, unless the oversized length is
  the first length it looks at (`RawSession.ChunkingLosesNothingExactly`).
* One zero-copy drain coalesces more small-frame bytes than its buffer holds if and only if the frame
  that first exceeds the buffer in total still fits beside the small frames since the last large one
  (`DrainPlan.CoalescedPastBufferExactly`, `CrowdedRingOverruns`).
* The bucket arithmetic of the rate limiter decides alike with and without eviction if and only if the
  budget is above zero (`RateLimiter.EvictionInvisibleExactly`). The program asks it only for such
  budgets, so in the program eviction is always invisible (`RateLimiter.EvictionNeverSeen`).

Where the code and its comments disagree, the model follows the code:

* The comment on `drain_c2g_routing_zerocopy` (`gateway/src/interfaces/shm.rs:837-842`) bounds one call
  by 4 MiB of coalesced small frames. The code empties its buffer at every flush, so that bound holds
  for each write; the call itself meets it when no large frame follows a small one
  (`DrainPlan.LargesFirstStaysWithin`), and otherwise under the condition above. What always bounds the
  call is the number of writes, at most 128 (`Relay.DrainZeroCopy`).
* A comment in the startup path (`gateway/src/processing/mod.rs:225-226`) says that `uds` and `shm` rules
  are not started as listeners. The startup path skips them, but the reload handler starts a thread for
  added and changed rules of every kind. Most security providers turn such a rule away at once; TLS and
  kTLS decryption go on to bind its address (`Reloads.TemplateServesExactly`). Which rules listen after
  any run of reloads is stated exactly by `Reloads.ListensExactly`.

## Model

| member | source | states |
|---|---|---|
| SlotTheorems.RunKeepsInv | crates/scg-ipc/src/shm_slot.rs:251-529 | Every interleaving of honest producer and consumer steps keeps the ring invariant: positions trail the published and released counts by at most one, each `seq` word says what its slot holds, unreleased frames lie whole in their slots. No bound on the run, so positions may wrap at 2^64. |
| SlotTheorems.DeliveredInOrder | crates/scg-ipc/src/shm_slot.rs:251-294 | In every interleaving the frames released are the first frames published, in order, with their ids and untorn bytes; at most `capacity` are unreleased; no push reports corruption. |
| SlotTheorems.SlotOwnership | crates/scg-ipc/src/shm_slot.rs:488-637 | The slot the producer writes or lends out is none of the slots of unreleased frames; the consumer reads, lends out after a peek, and releases only the slot of the oldest one. |
| SlotTheorems.PeekedSlotKeepsBytes | crates/scg-ipc/src/shm_slot.rs:601-637 | Under every honest interleaving a peeked slot keeps the encoding of the oldest unreleased frame until the consumer advances or gives it up. |
| SlotTheorems.ReadsFindFrames | crates/scg-ipc/src/shm_slot.rs:488-518 | A read finds a frame exactly when one is unreleased at its load of `seq`; an advance after a peek is never turned away. |
| SlotTheorems.FullExactly | crates/scg-ipc/src/shm_slot.rs:255-270 | Push, reserve and raw commit report full exactly when `capacity` frames are unreleased at the load of `seq`. |
| SlotTheorems.WasEmptyExactly | crates/scg-ipc/src/shm_slot.rs:272-273 | `was_empty` is true exactly when every frame is released and the consumer is not between its `seq` store and its `read_pos` store: true implies empty, and between whole consumer operations the two are equivalent. |
| SlotTheorems.ConsumerLeavesSlots | crates/scg-ipc/src/shm_slot.rs:488-637 | No number of consumer steps, on any memory, changes a slot byte, `write_pos` or the producer's progress. |
| SlotTheorems.CommitFindsReservedSlot | crates/scg-client/src/shm.rs:356-393 | After a reserve, whatever the consumer does before and during the commit, the commit re-locates the reserved slot, never reports full, and starts from the same position and bytes. |
| SlotTheorems.CommitPublishesReservedBytes | crates/scg-ipc/src/shm_slot.rs:395-418 | Under every honest interleaving a commit publishes exactly the payload bytes the slot held when the commit began, as `try_push` of those bytes would. |
| SlotReserve.ProducedInPlace | crates/scg-client/src/shm.rs:356-393 | Reserve, fill payload bytes in any order and any number of times, commit through the reservation or in a call of its own: whatever the consumer does in between, the one frame published is the id and the bytes written last at offsets `0..len`, after a fixed number of producer steps, and the push is reported. |
| SlotReserve.FillsLand | crates/scg-ipc/src/shm_slot.rs:373-386 | After any writes and consumer steps the reserved slot holds, behind its header, what was written last at each offset and its old bytes elsewhere. |
| SlotReserve.FillsOfSpell | crates/scg-ipc/src/shm_slot.rs:373-386 | Writing bytes one after the other is one of the ways to fill a slot with them. |
| SlotReserve.AbandonedInPlace | crates/scg-ipc/src/shm_slot.rs:325-349 | Giving a reservation up after any writes leaves queue, positions and reports as they were. |
| SlotReserve.CommitTooLong | crates/scg-ipc/src/shm_slot.rs:395-418 | Committing more than a slot holds, either way, reports it and publishes nothing. |
| SlotRing.WindowsExactly | crates/scg-ipc/src/shm_slot.rs:259-270 | For any word a peer may store: the producer reads the slot as free exactly at `pos`, as full exactly at `pos + 1 - capacity` modulo 2^64, and as corrupt otherwise; the consumer finds it ready exactly at `pos + 1`. |
| SlotSteps.Step | crates/scg-ipc/src/shm_slot.rs:251-637 | One atomic step of either side, for any contents of the shared words and headers, keeps every program point's offsets inside its slot. |
| SlotWhole.PushAlone | crates/scg-ipc/src/shm_slot.rs:251-294 | The uninterrupted steps of a push that fits, on a free slot, are the effect stated by `TryPush`, `was_empty` included. |
| SlotWhole.PushRefusedAlone | crates/scg-ipc/src/shm_slot.rs:251-270 | In every other case the uninterrupted steps change nothing and report oversized, full or corrupt as `TryPush` does. |
| SlotWhole.ProducedAlone | crates/scg-ipc/src/shm_slot.rs:325-418 | Uninterrupted reserve, fills of bytes `0..n` and commit of length `n`, through the reservation or re-located, have the effect of `TryPush` of those bytes. |
| SlotWhole.PopAlone | crates/scg-ipc/src/shm_slot.rs:537-580 | The uninterrupted steps of a pop deliver the front frame, cut to the slice if there is one, and have the effect stated by `TryPopInto` and `TryPopIntoSlice`. |
| SlotWhole.PeekAlone | crates/scg-ipc/src/shm_slot.rs:601-637 | The uninterrupted steps of a peek lend out the bytes of the front slot and change nothing; given up, it leaves no trace; advanced, it has the effect of a pop. |
| SlotWhole.PopNothingAlone | crates/scg-ipc/src/shm_slot.rs:488-499 | On a slot that is not ready the uninterrupted steps of a read change nothing. |
| SlotObject.Ring.constructor | crates/scg-ipc/src/shm_slot.rs:651-676 | Initialising sets slot `i` free for position `i`, which is the empty queue. |
| SlotObject.Ring.TryPush | crates/scg-ipc/src/shm_slot.rs:251-294 | On any memory the result is decided by the size and the `seq` window and a rejected push changes nothing; on a queue it appends, reports full exactly at capacity, never corruption, and `was_empty` exactly. |
| SlotObject.Ring.Reserve | crates/scg-ipc/src/shm_slot.rs:325-349 | Reports room by the same window and changes nothing, so an abandoned reserve leaves no trace. |
| SlotObject.Ring.Fill | crates/scg-ipc/src/shm_slot.rs:373-386 | Bytes written through a reservation change only that slot and leave the queue as it was. |
| SlotObject.Ring.Commit | crates/scg-ipc/src/shm_slot.rs:395-418 | Publishing bytes built in place has exactly the effect of pushing a frame of those bytes; an oversized length changes nothing. |
| SlotObject.Ring.CommitRaw | crates/scg-client/src/shm.rs:370-393 | Re-locating and committing has the same outcomes, decided by the window, and the same effect as a push of the slot's bytes. |
| SlotObject.CommitIsPush | crates/scg-ipc/src/shm_slot.rs:395-418 | The state after a commit equals the state after pushing the frame found in the slot. |
| SlotObject.PushEnqueues | crates/scg-ipc/src/shm_slot.rs:275-293 | On memory that holds a queue, a push makes it hold the queue with the frame appended. |
| SlotObject.FrontIsOldest | crates/scg-ipc/src/shm_slot.rs:488-518 | What a pop finds is the oldest unreleased frame, or nothing exactly when there is none. |
| SlotObject.FrontFrameExactly | crates/scg-ipc/src/shm_slot.rs:488-518 | On any memory a pop returns something exactly from a slot marked ready: the id its header names and as many bytes as the header announces or the slot has. |
| SlotObject.ReleaseDequeues | crates/scg-ipc/src/shm_slot.rs:523-529 | Releasing makes the memory hold the queue without its oldest frame. |
| SlotObject.Ring.NextReady | crates/scg-ipc/src/shm_slot.rs:488-518 | Locates the front frame on any memory, its advertised length cut to the slot. |
| SlotObject.Ring.ReleaseSlot | crates/scg-ipc/src/shm_slot.rs:523-529 | Frees the slot for the next lap and advances the read position; on a queue it removes the front. |
| SlotObject.Ring.TryPopInto | crates/scg-ipc/src/shm_slot.rs:537-553 | Returns the front frame of any memory; on a queue, the oldest frame, leaving the rest. |
| SlotObject.Ring.TryPopIntoSlice | crates/scg-ipc/src/shm_slot.rs:565-580 | Copies what fits of the front payload, touches no other byte of the slice, and consumes the whole frame. |
| SlotObject.Ring.PeekFrame | crates/scg-ipc/src/shm_slot.rs:601-613 | The bytes in place, inside the slot; on a queue exactly the encoding of the oldest frame. |
| SlotObject.Ring.Advance | crates/scg-ipc/src/shm_slot.rs:624-637 | Releases a ready slot and does nothing otherwise. |
| SlotObject.Ring.IsEmpty | crates/scg-ipc/src/shm_slot.rs:463-469 | True exactly when a pop would find nothing. |
| ByteTheorems.RunKeepsInv | crates/scg-ipc/src/shm.rs:224-447 | Every interleaving of honest steps keeps the ring invariant while the counters wrap harmlessly: the capacity divides 2^64, or fewer than 2^64 bytes were published. |
| ByteTheorems.DeliveredInOrder | crates/scg-ipc/src/shm.rs:224-447 | In every such interleaving the frames popped are the first frames pushed, in order, untorn; the unread bytes never exceed the ring; no push reports corruption. |
| ByteTheorems.UnreadRegion | crates/scg-ipc/src/shm.rs:325-348 | The counters are the bytes read and written so far modulo 2^64, their wrapping difference is the number of unread bytes, and the cells between them, taken modulo the capacity, hold exactly the encodings of the unread frames. |
| ByteTheorems.ProducerAvoidsUnread | crates/scg-ipc/src/shm.rs:254-273 | The cell the two-part copies write next is never a cell of the unread region. |
| ByteTheorems.FullExactly | crates/scg-ipc/src/shm.rs:229-243 | A push reports full exactly when the frame does not fit beside the unread bytes at its load of `read_idx`. |
| ByteTheorems.ReadsFindFrames | crates/scg-ipc/src/shm.rs:325-348 | A read finds a frame exactly when one is unread, and never gives it up as incomplete or corrupt. |
| ByteRing.Step | crates/scg-ipc/src/shm.rs:224-447 | One atomic step of either side, for any counters and bytes, stays inside the data array. |
| ByteRing.WrapAt | crates/scg-ipc/src/shm.rs:254-273 | Byte `j` of a two-part copy lies at `(off + j) mod cap`, inside the array. |
| ByteWrap.InOrderExactly | crates/scg-ipc/src/shm.rs:246-250 | For every capacity that is a multiple of 32 (pages are), delivery in order over all honest runs holds if and only if the capacity divides 2^64. |
| ByteWrap.WrapBreaksOrder | crates/scg-ipc/src/shm.rs:246-250 | For any other such capacity: an honest run that crosses the wrap and delivers a frame that was not pushed. |
| ByteWhole.PushAlone | crates/scg-ipc/src/shm.rs:224-252 | The uninterrupted steps of a push that finds room are the effect stated by `TryPush`. |
| ByteWhole.PushRefusedAlone | crates/scg-ipc/src/shm.rs:224-243 | In every other case the uninterrupted steps change nothing and report oversized, full or corrupt as `TryPush` does. |
| ByteWhole.PopAlone | crates/scg-ipc/src/shm.rs:367-410 | The uninterrupted steps of a read deliver the front frame, cut to the slice if there is one, and have the effect stated by the pops. |
| ByteWhole.PopNothingAlone | crates/scg-ipc/src/shm.rs:325-348 | On counters and bytes that show no complete frame the uninterrupted steps of a read change nothing. |
| ByteObject.Ring.constructor | crates/scg-ipc/src/shm.rs:122-153 | Zero counters hold the empty queue. |
| ByteObject.Ring.WriteWrapping | crates/scg-ipc/src/shm.rs:254-273 | Two bounded copies write the source cell by cell from `off` on, and return the next offset. |
| ByteObject.Ring.ReadWrapping | crates/scg-ipc/src/shm.rs:412-447 | Two bounded copies read what the cells from `off` on hold. |
| ByteObject.Ring.TryPush | crates/scg-ipc/src/shm.rs:224-252 | On any counters the result is decided by the size and the bytes in use, and a rejected push changes nothing; on a queue it appends, and reports full exactly when the frame does not fit. |
| ByteObject.Ring.NextFrame | crates/scg-ipc/src/shm.rs:325-348 | Locates the front frame on any memory only if it is complete within the published bytes and the ring. |
| ByteObject.Ring.ConsumeFrame | crates/scg-ipc/src/shm.rs:353-358 | Advances past the front frame; on a queue, removes it. |
| ByteObject.Ring.TryPopInto | crates/scg-ipc/src/shm.rs:367-385 | Returns the front frame of any memory; on a queue, the oldest frame, leaving the rest. |
| ByteObject.Ring.TryPopIntoSlice | crates/scg-ipc/src/shm.rs:396-410 | Copies what fits of the front payload, touches no other byte of the slice, and consumes the whole frame. |
| ByteObject.Ring.IsEmpty | crates/scg-ipc/src/shm.rs:299-304 | True implies nothing to pop, and on a queue is equivalent to it. |
| ByteObject.PushEnqueues | crates/scg-ipc/src/shm.rs:246-251 | On memory that holds a queue, a push that fits makes it hold the queue with the frame appended. |
| ByteObject.FrontIsOldest | crates/scg-ipc/src/shm.rs:325-348 | What a pop finds is the oldest unread frame, or nothing exactly when there is none. |
| ByteObject.FrontFrameExactly | crates/scg-ipc/src/shm.rs:325-348 | On any memory a pop returns exactly the frame its header announces, cell by cell, if that lies within the ring and within what was published, and nothing otherwise. |
| ByteObject.PopDequeues | crates/scg-ipc/src/shm.rs:353-358 | Consuming makes the memory hold the queue without its oldest frame. |
| Frames.HeaderRoundTrip | crates/scg-ipc/src/frame.rs:25-40 | Decoding an encoded header gives back length and id. |
| Frames.HeaderCanonical | crates/scg-ipc/src/frame.rs:25-40 | Encoding a decoded header gives back the eight bytes. |
| Frames.HeaderBytes | crates/scg-ipc/src/frame.rs:25-31 | Bytes 0 to 3 are the length and 4 to 7 the id, least significant first. |
| Frames.ParseEncoded | crates/scg-ipc/src/frame.rs:47-55 | An encoded frame at the front of any stream is parsed back, leaving what follows. |
| Frames.ParsedReencodes | crates/scg-ipc/src/frame.rs:209-228 | A parsed frame re-encodes to exactly the bytes it came from. |
| Frames.DecodeEncoded | crates/scg-ipc/src/frame.rs:209-228 | Encoded frames come back first, in order, followed by the decoding of the rest. |
| Frames.DecodeInTwoSteps | crates/scg-ipc/src/frame.rs:177-228 | Decoding a prefix and then its remainder with the later bytes is the one-shot decoding. |
| Frames.TooLargeIsSticky | crates/scg-ipc/src/frame.rs:209-219 | Once an oversized length is met, no later bytes yield a frame or another verdict. |
| Frames.EncodeAllInjective | crates/scg-ipc/src/frame.rs:47-55 | The wire bytes determine the frame sequence. |
| Decoder.FrameDecoder.Feed | crates/scg-ipc/src/frame.rs:177-187 | Feeding appends to the pending bytes through either compaction; a decoder drained of complete frames holds at most `65536 + 7 + max_len + n` bytes afterwards. |
| Decoder.FrameDecoder.NextFrame | crates/scg-ipc/src/frame.rs:194-228 | Returns the frame at the front of the pending bytes and removes exactly it, or the reason why not and removes nothing. |
| Decoder.Replay | crates/scg-ipc/src/frame.rs:177-228 | For any interleaving of feeds and extractions: frames and remainder spell the fed bytes and extend to the one-shot decoding; every attempt is answered; an oversized verdict is repeated for ever. |
| Decoder.ReadFullOrEof | crates/scg-ipc/src/frame.rs:116-133 | Under any schedule of short reads and interrupts: full, clean end exactly on an empty stream, partial exactly on a short one. |
| Decoder.ReadFrame | crates/scg-ipc/src/frame.rs:78-103 | Under any such schedule the result is the parse of the stream's front: frame, clean end, truncated header or payload, or oversized length. |
| Decoder.ReadAll | crates/scg-ipc/src/frame.rs:78-133 | Reading until no frame is returned gives the frames of the one-shot decoding, and the last result says how the remainder ends. |
| RawSession.Session.FrameDatagram | gateway/src/app_protocols/raw_provider.rs:49-58 | Appends length and payload, or nothing when the length does not fit 32 bits. |
| RawSession.WireBytes | gateway/src/app_protocols/raw_provider.rs:55-56 | Four length bytes, least significant first, then the datagram. |
| RawSession.Session.Deframe | gateway/src/app_protocols/raw_provider.rs:60-90 | One call splits everything pending; on an oversized length it reports it, keeps it at the front, and returns none of the datagrams split before it. |
| RawSession.DeframeAll | gateway/src/app_protocols/raw_provider.rs:60-90 | For any chunking, what is delivered up to the first error is the one-shot splitting of the bytes before it; an error is met in every chunking of a stream or in none, and repeats for ever. |
| RawSession.SplitWired | gateway/src/app_protocols/raw_provider.rs:49-90 | Framed datagrams come back in order, whatever follows. |
| RawSession.ChunkingLosesNothingExactly | gateway/src/app_protocols/raw_provider.rs:60-90 | A chunked stream that fails somewhere delivers all the datagrams of the one-shot splitting exactly when the first failing call meets the oversized length before any other. |
| RawSession.NothingLostExactly | gateway/src/app_protocols/raw_provider.rs:73-83 | A failing call loses no datagram exactly when the oversized length is the first it looks at. |
| RawSession.ErrorDropsDatagrams | gateway/src/app_protocols/raw_provider.rs:73-83 | One stream in two chunkings that deliver different datagrams. |
| UdsSend.BuildIov | crates/scg-client/src/uds.rs:102-124 | The list rebuilt at any byte offset spells exactly the unsent suffix of the chunk in 1 to 1024 segments. |
| UdsSend.AddSegment | crates/scg-client/src/uds.rs:109-121 | One pass of the inner loop skips a segment already sent or lists what is left of it. |
| UdsSend.WriteChunk | crates/scg-client/src/uds.rs:99-140 | A chunk is written whole under any short writes and interrupts, resuming at the exact byte; an error leaves a prefix of it. |
| UdsSend.SendBatch | crates/scg-client/src/uds.rs:81-146 | For every schedule the wire carries the concatenation of the single-frame encodings; a message too long stops the batch in front of its chunk; an error leaves a prefix; success exactly when every message is sendable and the socket does not fail. |
| UdsRecv.Client.FillOnce | crates/scg-client/src/uds.rs:149-162 | One poll-and-read moves at least one and at most 256 KiB of what is there into the decoder, and otherwise changes nothing. |
| UdsRecv.Client.RecvTimeout | crates/scg-client/src/uds.rs:181-192 | A message is the next frame of the gateway's stream; no message is returned only when none is complete, with the reason; the decoder is fed only when drained, so its buffer stays within its bound. |
| UdsRecv.Client.RecvBatchInto | crates/scg-client/src/uds.rs:202-239 | With `d` the decoding of the bytes pending at the deciding pass, the call takes the first `cap` frames of `d`, each laid at its stride and cut to it, with its length; it fails as too long exactly when an oversized length follows fewer than `cap` frames, and frames are lost exactly when it fails so with frames before that length; every other reason for no batch is the true one. |
| UdsRecv.BatchCapLargest | crates/scg-client/src/uds.rs:209-212 | The room of a batch is the largest number of rows that both arrays hold. |
| UdsRecv.FrameBeforeOversized | crates/scg-client/src/uds.rs:214-231 | One frame in front of an oversized length: lost by a call with room for two or more, handed over by a call with room for one. |
| UdsRecv.DeliveredIsDecoded | crates/scg-client/src/uds.rs:149-239 | After any calls, the messages handed over are the first frames of the one-shot decoding of the gateway's stream; frames are lost only right behind them, as the last frames in front of an oversized length; the buffer is within 65536 + 7 + 16 MiB + 256 KiB. |
| Channels.Push | gateway/src/interfaces/shm.rs:894-906 | On either ring kind: append exactly when the frame is short enough and fits beside what is waiting. |
| Channels.TrySendBatch | crates/scg-client/src/shm.rs:444-456 | The messages accepted are a prefix of the batch in order, ended by the first that does not fit or is too long. |
| Relay.CoalesceC2g | gateway/src/interfaces/shm.rs:791-822 | On either ring kind, with the client pushing between frames: the bytes appended are exactly the encodings of the frames removed; only the last frame may overrun the budget; it stops only at the budget or on an empty ring; a non-empty ring loses a frame. |
| Relay.DrainZeroCopy | gateway/src/interfaces/shm.rs:853-889 | With the client pushing between frames: the wire grows by exactly the encodings of the frames removed, in ring order, through coalesced and direct writes; a pass whose writes succeed removes exactly as many frames as its limits allow; at most 128 writes, each within the buffer or one frame; a failed write leaves a prefix. |
| DrainPlan.CoalescedPastBufferExactly | gateway/src/interfaces/shm.rs:863-883 | One pass coalesces more than the buffer size exactly when the small frame that first exceeds it in total is reached with direct writes to spare and fits beside the small frames since the last large one. |
| DrainPlan.LargesFirstStaysWithin | gateway/src/interfaces/shm.rs:837-842 | The documented bound on one call holds whenever no large frame follows a small one. |
| DrainPlan.CrowdedRingOverruns | gateway/src/interfaces/shm.rs:863-883 | A concrete ring, small frames around one large frame, of which one call coalesces more than 4 MiB. |
| Relay.WriteDirect | gateway/src/interfaces/shm.rs:864-878 | A large frame goes out after everything coalesced before it. |
| Relay.DrainAll | gateway/src/interfaces/shm.rs:791-889 | Repeated draining, either way and of either ring, emits the encodings of everything that was waiting. |
| Relay.PushG2c | gateway/src/interfaces/shm.rs:493-533 | A frame is pushed once, at once if it fits and otherwise after the client has made room; a full ring loses nothing; failure only on shutdown, a client gone, or a frame that can never fit; reports the empty-to-non-empty edge. |
| EndToEnd.PushFrames | gateway/src/interfaces/shm.rs:444-461 | Every complete frame in the decoder enters the ring in order; the loop ends with the decoder drained, or fails only for a frame over the limits or a client gone. |
| EndToEnd.FeedAndPush | gateway/src/interfaces/shm.rs:437-465 | One read fed to the drained decoder keeps its buffer within 65536 + 7 + 16 MiB + n. |
| EndToEnd.Tunnel.Send | crates/scg-client/src/shm.rs:444-456 | A client's batch keeps the tunnel invariant; what entered the ring is a prefix of it. |
| EndToEnd.Tunnel.Drain | gateway/src/interfaces/shm.rs:415-423 | A draining pass, with the client pushing meanwhile, keeps the tunnel invariant and makes progress; a write that fails ends the sending relay and leaves on the wire a prefix of the frames. |
| EndToEnd.Tunnel.Deliver | gateway/src/interfaces/shm.rs:437-474 | A read of any size, before or after the sending relay gave up, keeps the tunnel invariant; the receiving relay gives up only for a frame over the limits or a client gone. |
| EndToEnd.SameFramesSameOrder | gateway/src/interfaces/shm.rs:334-533 | In every reachable state, whichever relays gave up and wherever a failed write cut the stream, the receiving client has been given exactly the first frames the sending client pushed; a live receiving relay that has read the stream to its end has published exactly the frames that are whole in it; with nothing in flight, all of them. |
| EndToEnd.FinishReceiving | gateway/src/interfaces/shm.rs:437-474 | From every reachable state in which the receiving relay lives and every frame is within the limits, also after the sending relay gave up, the remaining steps hand over every frame that is whole on the wire. |
| EndToEnd.Complete | gateway/src/interfaces/shm.rs:334-533 | From every reachable state in which no relay gave up, every frame is within the limits and writes do not fail, the remaining steps hand over everything that was pushed. |
| EndToEnd.SameBytes | gateway/src/interfaces/shm.rs:791-889 | Draining either ring kind, with or without zero copy, puts the same bytes on the wire as `send_batch` of the same messages. |
| OwnerKeys.OwnerKeyInjective | gateway/src/interfaces/manager.rs:981-988 | An owner key determines uid, app id, class, direction and kind, whatever characters the app id contains. |
| OwnerKeys.TemplateKeyInjective | gateway/src/interfaces/manager.rs:981-983 | A template key determines app id, class, direction and kind. |
| Registry.Manager.AllocId | gateway/src/interfaces/manager.rs:816-824 | Terminates if some id is free, with the first id at or after `next_id`, in cyclic order, that is non-zero and not live. |
| Registry.Manager.CountOwned | gateway/src/interfaces/manager.rs:844-848 | Counts the registered endpoints of a uid. |
| Registry.Manager.Admit | gateway/src/interfaces/manager.rs:438-457 | The early check lets a request through exactly when there is no quota, its owner is registered, or fewer than the quota of its uid's endpoints are; that is when registering it at that moment would succeed. |
| Registry.Manager.Register | gateway/src/interfaces/manager.rs:828-874 | Under one lock: registers under exactly that condition, inserting under both maps and naming the id it replaced; otherwise changes neither map and signals the new endpoint. |
| Registry.Manager.DetachEndpoint | gateway/src/interfaces/manager.rs:802-808 | Removes and signals the endpoint if it is still there. |
| Registry.Manager.Close | gateway/src/interfaces/manager.rs:743-771 | Not found, not permitted, or removed from both maps and signalled. |
| Registry.Manager.ShutdownAll | gateway/src/interfaces/manager.rs:782-799 | Empties both maps and signals every endpoint that was live. |
| RegistryRuns.RunKeepsInv | gateway/src/interfaces/manager.rs:743-874 | Every interleaving of lock-held sections in which ids do not wrap keeps the registry invariant. |
| RegistryRuns.QuotaHolds | gateway/src/interfaces/manager.rs:828-874 | In every such interleaving a uid's endpoints not awaiting detachment stay within a non-zero quota, no owner key is dangling, and every endpoint ever built is registered, being built, or told to shut down. |
| RegistryRuns.RegistersExactly | gateway/src/interfaces/manager.rs:843-866 | In every such interleaving an endpoint that was built is registered exactly when the quota is 0, its owner key is registered, or fewer than the quota of its uid's endpoints are. |
| RegistryRuns.Perform | gateway/src/interfaces/manager.rs:743-874 | Each step of a run is the effect of the manager's lock-held section on maps, id counter and shutdown signals. |
| RegistryRuns.CallsKeepBijective | gateway/src/interfaces/manager.rs:743-874 | Runs of whole calls keep the two maps inverse bijections. |
| RegistryRuns.StepKeepsForwardExactly | gateway/src/interfaces/manager.rs:743-874 | Of all the lock-held sections, only a close of an id whose owner key names another id leaves an endpoint not reachable through its owner key, and such a close always does. |
| RegistryRuns.RunKeepsForwardExactly | gateway/src/interfaces/manager.rs:743-874 | In every interleaving in which ids do not wrap, endpoints stay reachable through their owner keys throughout exactly when no close finds its owner key naming another id. |
| RegistryRuns.MisdirectedAwaits | gateway/src/interfaces/manager.rs:743-761 | A close can find that only while the id it removes awaits detachment by its replacement. |
| RegistryRuns.CloseDuringReplacement | gateway/src/interfaces/manager.rs:864-871 | Two creates and a close of the first id between the second's insertion and its detachment leave a live endpoint under no owner key. |
| RegistryRuns.AllocIsFirstFree | gateway/src/interfaces/manager.rs:816-824 | The allocation loop computes the id the runs allocate. |
| RateLimiter.Limiter.AllowAt | gateway/src/interfaces/manager.rs:176-192 | One request: drop exactly the buckets idle for 120 seconds, refill up to the capacity, take a token if there is a whole one. |
| RateLimiter.Limiter.Admit | gateway/src/interfaces/manager.rs:425-436 | The rate check consults the buckets only for a budget above zero; a zero budget admits and changes nothing. |
| RateLimiter.Replay | gateway/src/interfaces/manager.rs:425-436 | The rate check's decisions over a sequence of requests are those of the evicting run. |
| RateLimiter.WindowBound | gateway/src/interfaces/manager.rs:152-192 | For a non-zero budget and requests in time order, one uid's admissions in any window of T seconds are at most `per_min + T * per_min / 60`. |
| RateLimiter.AdmittedExactly | gateway/src/interfaces/manager.rs:176-192 | For requests in time order, a request is admitted if and only if every window ending at it, `T` seconds long with `n` admissions of its uid, has `n + 1 <= per_min + T * per_min / 60`. |
| RateLimiter.SpacedAdmitted | gateway/src/interfaces/manager.rs:176-192 | Requests of one uid at least `60 / per_min` seconds apart are all admitted, whatever other uids do. |
| RateLimiter.BurstAdmitted | gateway/src/interfaces/manager.rs:176-192 | A uid's first `per_min` requests are admitted, however fast they come. |
| RateLimiter.EvictionNeverSeen | gateway/src/interfaces/manager.rs:425-436 | For every budget and requests in time order, the rate check admits the same requests as one that never evicts. |
| RateLimiter.EvictionInvisibleExactly | gateway/src/interfaces/manager.rs:152-156 | The bucket arithmetic alone decides alike with and without eviction exactly for a budget above zero. |
| RateLimiter.ZeroBudgetDiffers | gateway/src/interfaces/manager.rs:177-190 | The bucket arithmetic called with a zero budget, which the guard in front of it rules out, decides two requests two minutes apart differently. |
| Addresses.CidrContainsExactly | gateway/src/management/config.rs:1135-1158 | The masked comparison holds exactly for addresses of the same family whose leading bits are the block's prefix (section 3.1 of RFC 4632). |
| Addresses.MatchesExactly | gateway/src/management/config.rs:1115-1132 | A pattern matches exactly: any address; the same host and port; the same host; an address of the block's family with the block's leading bits, where an IPv4-mapped address is its IPv4 host. |
| Addresses.MappedIs | gateway/src/management/config.rs:1115-1117 | The mapped form has ones in bits 32 to 47 and zeros above (section 2.5.5.2 of RFC 4291). |
| Addresses.MappedMatchesAlike | gateway/src/management/config.rs:1115-1132 | An IPv4-mapped peer (section 2.5.5.2 of RFC 4291) matches every pattern exactly as the IPv4 peer. |
| Addresses.MappedPatterns | gateway/src/management/config.rs:1118-1132 | Exact and bare-IP patterns written in mapped form match as IPv4; a block over a mapped network contains no such peer. |
| FlowCache.TrafficCache.Get | gateway/src/processing/cache.rs:65-73 | A hit exactly for an entry younger than the time to live. |
| FlowCache.TrafficCache.Put | gateway/src/processing/cache.rs:82-120 | The eviction loop and insertion; the drained-queue arm is reached only by a cache of no entries; every live entry has its record; size at most `max(1, max_entries)`; total pops never exceed total inserts. |
| FlowCache.TrafficCache.Clear | gateway/src/processing/cache.rs:123-127 | Empties map and queue and keeps the invariants. |
| FlowCache.InsertKeeps | gateway/src/processing/cache.rs:82-120 | After an insertion the flow has its entry, every other entry is an old one unchanged, and record and size invariants hold. |
| FlowCache.InsertWithRoom | gateway/src/processing/cache.rs:82-120 | With room, or for a flow that renews its entry, every other entry survives. |
| FlowCache.InsertEvictsOldest | gateway/src/processing/cache.rs:94-107 | With strictly increasing times, inserting into a full cache removes exactly the oldest live entry. |
| FlowCache.InsertKeepsIncreasing | gateway/src/processing/cache.rs:94-119 | Insertions at strictly increasing times keep the queue in order of time. |
| Classifier.FirstMatch | gateway/src/processing/traffic_analyzer.rs:77-89 | The first rule whose source covers the sender and whose destination covers the receiver wins; no rule only if there is none. |
| Classifier.Analyzer.Classify | gateway/src/processing/traffic_analyzer.rs:62-93 | Cached or not, the answer is that rule's app and class; a hit changes nothing, a miss draws the next id and inserts. |
| Classifier.MissIsDrawAndStore | gateway/src/processing/traffic_analyzer.rs:79-91 | The two steps of a miss in the concurrent runs have the effect of `Classify`. |
| Classifier.RunKeepsInv | gateway/src/processing/traffic_analyzer.rs:62-93 | Concurrent classifications, evictions and clears in any order keep every cached entry in agreement with the rules. |
| Classifier.CachedAnswersAreFirstMatch | gateway/src/processing/traffic_analyzer.rs:69-89 | In every reachable state a cached answer is the first-match answer. |
| Classifier.DistinctIds | gateway/src/processing/traffic_analyzer.rs:79-87 | In every reachable state distinct flows in the cache carry distinct ids, while fewer than 2^64 were drawn. |
| ConfigDiffs.Compare | gateway/src/management/config.rs:2209-2246 | The four buckets, each in configuration order: added without an old namesake, changed with one that is not alike, unchanged with one that is, removed without a new one; and whether the interception projections differ. |
| ConfigDiffs.DiffersExactly | gateway/src/management/config.rs:757-780 | The field-by-field comparison finds no difference exactly between rules that are equal once name, tuning, provider, TLS mode and app protocol are erased, name the same provider (`tls` with a mode being another spelling of that mode) and the same app protocol (`ale` being the default). |
| ConfigDiffs.AgreementIsEquivalence | gateway/src/management/config.rs:752-780 | That agreement is an equivalence, blind to tuning. |
| ConfigDiffs.ProjectionExactly | gateway/src/management/config.rs:2248-2268 | For unique names, the sorted projections are equal exactly when the same rules intercept the same way. |
| ConfigDiffs.InterceptChangeShows | gateway/src/management/config_manager.rs:197-223 | A change of the interception posture makes some bucket non-empty, so the watcher's guard never skips a firewall reconcile. |
| Reloads.Gateway.constructor | gateway/src/processing/mod.rs:224-243 | Startup starts a thread for exactly the static rules. |
| Reloads.Gateway.StopRule | gateway/src/lib.rs:425-430 | Stops the rule's thread and no other. |
| Reloads.Gateway.StartSingleRule | gateway/src/processing/mod.rs:319-324 | Starts a thread under a fresh flag registered by name and touches no other. |
| Reloads.Gateway.OnReload | gateway/src/lib.rs:425-513 | Stops the removed, starts the added, restarts the changed, leaves every other thread alone, and reconciles the firewall when the posture changed. |
| Reloads.Gateway.Reload | gateway/src/management/config_manager.rs:84-135 | Over any sequence of reloads with unique names: only names of the current configuration have a thread, each alike its rule there, every static rule has one, a rule alike its old self keeps its thread, and the firewall matches the configuration unless its setup failed. |
| Reloads.RunsAsConfigured | gateway/src/lib.rs:425-479 | After any run of reloads every started rule has the current configuration's addresses, protocols, provider and its parameters, app protocol, class, marking, interception and allow-lists. |
| Reloads.ReloadAgrees | gateway/src/lib.rs:425-479 | One reload takes started rules that agree with the old configuration to started rules that agree with the new one. |
| Reloads.ReloadCovers | gateway/src/lib.rs:446-479 | One reload keeps every static rule of the configuration started. |
| Reloads.NoOtherRuns | gateway/src/processing/mod.rs:319-324 | No thread runs that is not reachable through its rule's flag. |
| Reloads.GuardLetsPass | gateway/src/management/config_manager.rs:197-223 | When all three acted-on buckets are empty the firewall has nothing to reconcile. |
| Reloads.ListensExactly | gateway/src/processing/mod.rs:424-446 | After any run of reloads a name listens if and only if the current configuration has it, its provider accepts its protocol and direction, its address binds, and it is static or some reload has added or changed it since startup. |
| Reloads.TemplateServesExactly | gateway/src/security/providers/tls_provider.rs:41-61 | Under a built-in provider, a started `uds` or `shm` rule comes to listen exactly when it decrypts, its provider is `ktls`, or `tls` in a mode other than DTLS, and its address binds. |
| Reloads.AcceptsDeclaredExactly | gateway/src/security/providers/ktls_provider.rs:21-58 | A built-in provider goes on with exactly the modes it declares, and TLS and kTLS besides with decryption for any protocol. |
| Reloads.ResolutionIrrelevant | gateway/src/management/config.rs:271-282 | Whether TLS is run as kTLS or the reverse does not decide whether a rule listens. |
| Reloads.ResolvedExactly | gateway/src/management/config.rs:271-282 | kTLS is run exactly for offloadable parameters, when asked for or when a `tls` rule prefers it on a kernel that has it; other providers are untouched. |
| Reloads.HistoryDecides | gateway/src/processing/mod.rs:227-233 | One configuration, two histories: a rule there at startup is started exactly if it listens on TCP or UDP, a rule added by a reload always. |
| Layout.RoundUpLeast | crates/scg-ipc/src/shm_slot.rs:112-114 | The bit trick gives the least multiple at or above its input. |
| Layout.ControlRegions | crates/scg-ipc/src/shm_slot.rs:118-126 | The two rings' control regions are adjacent, disjoint and cache-line aligned, with room for header and sequence words. |
| Layout.SegmentHoldsPayload | crates/scg-ipc/src/shm_slot.rs:137-145 | The segment size for a payload is the least valid one that holds it. |
| Layout.NextPow2Least | gateway/src/interfaces/shm.rs:609 | The slot count is the least power of two at or above the request. |
| Layout.FieldsExactly | gateway/src/interfaces/shm.rs:608-614 | The slot count fits its 32-bit field exactly up to 2^31 requested segments, the segment size up to 2^32 - 64. |
| Layout.SlotLayoutAgrees | gateway/src/interfaces/shm.rs:599-629 | Every slot task whose sizes fit: valid geometry, the requested notify mode, the same control length on both sides, and both constructors accept. |
| Layout.SlotLayoutLeast | gateway/src/interfaces/shm.rs:608-614 | The least power of two of slots, the least segment in cache lines, and regions rounded up by less than a page. |
| Layout.ValidateExactly | crates/scg-ipc/src/shm_slot.rs:187-198 | The geometry check lets through exactly the geometries the ring theorems are for. |
| Layout.ByteLayoutAgrees | gateway/src/interfaces/shm.rs:599-629 | Every byte-stream task: page-multiple rings no smaller than asked and less than a page larger, eventfd notification, the same one-page control length on both sides, and both constructors accept. |
| Layout.TooManySegments | gateway/src/interfaces/shm.rs:608-614 | Above 2^31 segments the count field is 0 and the geometry is turned down. |

## Left out

- Syscalls, memory mapping, sealing, eventfd and futex wake-ups, polling and descriptor passing: they
  appear as schedules and parameters, not as code.
- Weak memory: steps are sequentially consistent, so the acquire and release orderings are not modelled.
- Wake-up liveness and timing: `was_empty` is characterised exactly, but nothing is claimed about when a
  parked client wakes.
- TLS, kTLS, DTLS, certificates, WireGuard and transparent sockets: foreign libraries and the kernel.
- The management API server and client, command-line handling, logging and the C interface: plumbing.
- Runtime directories, socket paths, tokens and peer credentials of endpoint creation.
- JSON parsing, `validate` and preflight advisories; `diff` and reload start from parsed rules with
  unique names, which `validate` enforces.
- File modification times in the configuration watcher: a reload round is given the loaded
  configuration or its failure.
- The contents of firewall rules: the firewall is the projection it was last set up from.
- `AddressPattern` parsing, and the flow label and scope id of an IPv6 socket address in a cache key.
- ALE framing, hello and offer codecs, DSCP and performance-knob resolution, metrics.
- The relay's poll loop as one method: its two halves are modelled and may be taken in any order.
- Providers other than the five built-in ones, and whether an address can be bound: parameters of
  `Reloads.ListensExactly`. A thread that ends later by itself is not modelled.
- Registry.Manager.AllocId: requires that fewer than 2^32 - 1 endpoints are live, as the loop in the source
  does not end when every id is taken.
- RegistryRuns.RunKeepsInv: for runs that allocate fewer than 2^32 - 1 ids; after that an id in use by an
  endpoint that is still being built can be given out again.
- Relay.CoalesceC2g: the client's pushes during a drain arrive between frames as whole batches; pushes
  interleaved step by step with a pop are covered by the ring theorems.
- UdsRecv.Client.RecvTimeout: a schedule that is used up counts as a timeout, also for a call that would
  wait for ever.
- Relay.PushG2c: a client with no further script takes one frame per backoff, so the loop ends.
