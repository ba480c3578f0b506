# Media services: a verified model

This project models the parts of the media services repository whose correctness
rests on invariants over many operations, and proves what their design promises.

| files | what they model |
|---|---|
| `Gcd.dfy`, `TimelineRate.dfy`, `TimelineScale.dfy`, `TimelineFunction.dfy` | rates as reduced 32-bit ratios, the 64-bit scaling of times, linear timeline functions, their inverses and compositions, with exact error bounds |
| `FifoRegions.dfy`, `FifoAllocator.dfy` | the FIFO allocator: the list of regions as a value, its invariant and its meaning as a heap of live intervals; and the doubly linked list with its lookaside |
| `BufferPool.dfy`, `BufferPoolInvariant.dfy`, `BufferPoolReuse.dfy`, `SharedBuffers.dfy` | the shared buffer set and its allocator with two strategies, the address index and the update queue that a peer replays |
| `TransportSteps.dfy`, `TransportProtocol.dfy`, `TransportEnds.dfy` | packet producer and consumer over two FIFO channels: demand, pulls, packets, returns and flushes, in every interleaving |
| `SparseBytes.dfy`, `ReaderCache.dfy` | the sparse byte buffer and the reader cache on top of it, with reads and intake interleaved |
| `AudioLinks.dfy`, `AudioOutputs.dfy` | the pending queues between an audio renderer and its outputs, mixed by other threads, and the clean-up that returns packets |
| `MediaPlayer.dfy`, `MediaPlayerImpl.dfy` | the player's state machine over asynchronous operations |
| `Flog.dfy` | the length-prefixed log, its writer and its buffered reader |
| `Resampler.dfy` | the fixed-point inner loop of the 16-bit resampler |
| `Options.dfy`, `Sequences.dfy`, `OrderedKeys.dfy`, `Bytes.dfy` | shared helpers |

Code that changes objects in place is modelled by classes with the same fields and
loops. Their methods are proved to do to the state what a function says, and the
results are lemmas about those functions: for protocols, about every run of every
interleaving of their atomic steps. A lock in the source makes the code it guards one
step. `dafny verify dfyconfig.toml` checks everything; nothing here is executed.

## What the proofs found

Where the code does not keep a promise of its documentation or its own assertions, the
model follows the code. A lemma or contract says exactly when the promise is kept, and
another has an input or a run on which it is not:

- `TimelineRate::Scale` misses its floor for two magnitudes of negative inexact results
  (`TimelineScale.ScaleCorrect`, `TimelineScale.MisroundedInputsExist`).
- A product of rates can saturate although it is well inside the 32-bit range
  (`TimelineRates.SaturationCorrect`, `TimelineRates.SaturationBelowRange`).
- `TimelineFunction::Apply` is documented to return `kOverflow` on overflow
  (`lib/timeline/timeline_function.h:69`), but adds the subject time to it
  (`TimelineFunctions.ApplyKeepsPromise`, `TimelineFunctions.PromiseBroken`).
- A second flush before the first is answered lets the ends of a transport disagree at
  rest (`TransportProtocol.AgreementIffNoOverlap`, `TransportProtocol.OverlapDisagrees`).
- `SparseByteBuffer::FindRegionContaining` returns the first region for a position before
  all regions (`SparseBytes.RegionLookupRight`, `SparseBytes.EarlyLookupMisses`). So the reader
  cache is right for good exactly if its first intake is at position zero; a `ReadAt` elsewhere
  that is served before intake has begun sends it there instead, and the next `ReadAt` before
  that place goes wrong (`ReaderCaches.Store.SetReadAtRequest`, `ReaderCaches.ReadBeforeIntake`).
- `FindHoleContaining` may return a hole that ends at the position, or the first one for a position
  before all holes (`SparseBytes.HoleLookupRight`); the code only asks it for missing bytes.
- The debug checks at `src/demux/reader_cache.cc:174` and `src/demux/sparse_byte_buffer.cc:134`
  fail exactly when a read is blocked strictly within what is being fetched, as that splits
  the hole that is being filled (`ReaderCaches.FitsHoleUnlessSplit`, `ReaderCaches.Store.SetReadAtRequest`,
  `ReaderCaches.FetchIsSplit`). The loop below them copes, so the model has the loop and not the checks.
- The debug check at `src/demux/reader_cache.cc:84` fails exactly when an error ends a call that has
  got some of its bytes (`ReaderCaches.Store.ReportIntakeError`, `ReaderCaches.ErrorAfterPart`).
- The player forgets a `Seek` that arrives while the source is seeking
  (`MediaPlayers.SeekHonoured`, `MediaPlayers.SeekForgotten`), and seeks to the unspecified time if
  the reader changes while the renderers are being told of a seek (`MediaPlayers.NewReaderSeeks`,
  `MediaPlayers.UnspecifiedSeek`). A `Seek` that arrives then is carried out, but the renderers
  are told of the earlier position (`MediaPlayers.SeekUnannounced`, `MediaPlayers.WrongAnnouncement`).
- `FlogReaderImpl::ReadData` passes a null destination on as null plus an offset, so skipping a
  payload that spans two buffer loads writes to an address that is no buffer, and nothing is
  promised any more (`Flog.FlogReaderImpl.GetEntries`, `Flog.StrayIsStraddle`, `Flog.SkipLongMessage`).
- Packets return in order only because the main thread never pushes during a flush
  (`AudioLinks.OrderIffNoPushDuringFlush`, `AudioLinks.PushDuringFlushReorders`).

## Model

| member | source | states |
|---|---|---|
| `Gcd.OfIsGcd` | lib/timeline/timeline_rate.cc:17-57 | the recursive gcd that the loop is measured against is a common divisor that every common divisor divides |
| `Gcd.Unique` | lib/timeline/timeline_rate.cc:17-57 | and it is the only such divisor |
| `Gcd.Scaled` | lib/timeline/timeline_rate.cc:17-57 | multiplying both numbers multiplies their gcd; why the common power of two may be taken out first |
| `Gcd.OneEven` | lib/timeline/timeline_rate.cc:17-57 | halving the even one of two numbers keeps the gcd when the other is odd |
| `Gcd.Subtract` | lib/timeline/timeline_rate.cc:17-57 | subtracting the smaller odd number keeps the gcd |
| `Gcd.CoprimeDivides` | lib/timeline/timeline_rate.cc:60-79 | a number coprime to one factor of a multiple divides the other factor; what makes reduced forms unique |
| `Gcd.BinaryGcd` | lib/timeline/timeline_rate.cc:17-57 | the shift-and-subtract loops terminate and return the greatest common divisor, zero arguments included |
| `TimelineRates.ReducedCorrect` | lib/timeline/timeline_rate.cc:60-79 | reducing keeps the value, leaves no common factor and makes neither term larger |
| `TimelineRates.ReducedUnique` | lib/timeline/timeline_rate.cc:60-79 | a value has one reduced form |
| `TimelineRates.ReduceRatio` | lib/timeline/timeline_rate.cc:60-79 | the in-place reduction returns the reduced form, of the same value and without common factor; 0/0 becomes 0/1 |
| `TimelineRates.ProductDeltas` | lib/timeline/timeline_rate.cc:156-197 | the 64-bit products, the reduction and the shift-down loop compute the product described by ProductCorrect |
| `TimelineRates.ShiftDownTruncates` | lib/timeline/timeline_rate.cc:180-184 | halving both terms until they fit truncates both by the same power of two |
| `TimelineRates.TruncationError` | lib/timeline/timeline_rate.cc:180-184 | the cross error of truncating both terms is below one unit of either |
| `TimelineRates.ProductCorrect` | lib/timeline/timeline_rate.cc:156-197 | the product fits 32 bits with a non-zero reference; it has the exact value if and only if the reduced exact product S/R fits; otherwise it saturates, or -R < S'R - SR' < S |
| `TimelineRates.SaturationCorrect` | lib/timeline/timeline_rate.cc:180-192 | the product saturates exactly when 2^31 P <= S for the reduced product S/R and the power of two P above R; that means it is larger than any rate, as documented, except exactly when 2^31 P <= S <= (2^32 - 1) R; a product larger than any rate always becomes the largest one, and altogether exactly the products with (2^32 - 1) P / 2 <= S do |
| `TimelineRates.ExactProductValue` | lib/timeline/timeline_rate.cc:156-197 | the exact product is reduced and is the product of the two ratios |
| `TimelineRates.ProductBounded` | lib/timeline/timeline_rate.h:51-62 | the value-returning product, which is reduced once more, is the exact one if that fits, never has its value otherwise, and is then the largest rate or keeps the error bound of ProductCorrect |
| `TimelineRates.QuotientUndoesProduct` | lib/timeline/timeline_rate.h:53-107 | multiplying by a rate and then by its inverse gives back the first rate when the product was exact |
| `TimelineRates.SaturationBelowRange` | lib/timeline/timeline_rate.cc:186-192 | the product of 1282/3 and 6700417, about 2863311531 and so inside the 32-bit range, saturates all the same |
| `TimelineScale.SplitProduct` | lib/timeline/timeline_rate.cc:98-108 | the high and low halves add up to the whole product and no 64-bit step overflows |
| `TimelineScale.SplitDivision` | lib/timeline/timeline_rate.cc:112-121 | dividing the halves with a carried remainder gives quotient and remainder of the whole product |
| `TimelineScale.ScaleUInt64Correct` | lib/timeline/timeline_rate.cc:87-140 | the split computation delivers the quotient of the whole product, overflowing at 2^64 without round-up; with round-up a quotient of 2^63-1 overflows and 2^64-1 wraps |
| `TimelineScale.ScaleCorrect` | lib/timeline/timeline_rate.cc:200-237 | Scale returns the floor of the scaled time, or kOverflow if that is no int64, for exactly the inputs that are not misrounded: negative, inexact, with magnitude quotient 2^63-1 or 2^64-1 |
| `TimelineScale.MisroundedValue` | lib/timeline/timeline_rate.cc:129-136 | what each misrounded input returns instead: kOverflow for -2^63, and zero where kOverflow is due |
| `TimelineScale.MisroundedInputsExist` | lib/timeline/timeline_rate.cc:129-136 | both kinds of misrounded input exist |
| `TimelineScale.ScaleInRange` | lib/timeline/timeline_rate.cc:200-237 | a floor strictly inside the int64 range is always returned |
| `TimelineFunctions.InRangeApply` | lib/timeline/timeline_function.cc:15-21 | applied where nothing overflows, a function has its mathematical value |
| `TimelineFunctions.ApplyKeepsPromise` | lib/timeline/timeline_function.h:69-72 | for all inputs, the promise to return the value, or kOverflow on overflow, is kept exactly when the difference to the reference time is in range and either the scaled time and the sum are, or the scaled time is not and the subject time is zero; of the two quotients that Scale misrounds, the lower one breaks it and the upper one does unless the subject time is kOverflow |
| `TimelineFunctions.PromiseBroken` | lib/timeline/timeline_function.h:69-72 | 2^62 scaled by two overflows, and with a subject time of -1 Apply returns kOverflow - 1; with a reference time of -1 the largest input cannot even be subtracted from |
| `TimelineFunctions.InverseRoundTrip` | lib/timeline/timeline_function.h:31-38 | 0 <= x - ApplyInverse(Apply(x)) <= ceil((r - 1)/s), which is at most ceil(r/s), for a rate s/r with s > 0 and no overflow; equality to x when r = 1 |
| `TimelineFunctions.InverseOfInverse` | lib/timeline/timeline_function.h:86-90 | inverting twice gives the function back |
| `TimelineFunctions.NestedFloors` | lib/timeline/timeline_function.cc:23-34 | two floors in a row fall short of one by at most the outer rate, rounded up |
| `TimelineFunctions.ComposeCorrect` | lib/timeline/timeline_function.cc:23-34 | with an exact rate product and no overflow, bc(ab(x)) - Compose(bc, ab)(x) lies between -ceil(B) and 1 |
| `FifoRegions.InitialKeeps` | lib/transport/fifo_allocator.cc:21-30 | a reset allocator is one free active region that meets the representation invariant |
| `FifoRegions.ActivateKeeps` | lib/transport/fifo_allocator.cc:123-137 | moving the active mark keeps the invariant and recovers an empty placeholder |
| `FifoRegions.AdvanceKeeps` | lib/transport/fifo_allocator.cc:117-137 | advancing keeps the invariant and finds a fit, or no free region is large enough |
| `FifoRegions.TakeAllKeeps` | lib/transport/fifo_allocator.cc:32-68 | allocating the whole active region keeps the invariant, with an empty placeholder where nothing free follows |
| `FifoRegions.TakeFrontKeeps` | lib/transport/fifo_allocator.cc:32-68 | allocating the front of the active region keeps the invariant |
| `FifoRegions.AllocateKeeps` | lib/transport/fifo_allocator.cc:32-68 | allocation keeps the invariant: regions tile [0, size) in order, no two free ones are adjacent, the active one is free and only it may be empty |
| `FifoRegions.ReleaseKeeps` | lib/transport/fifo_allocator.cc:81-115 | release with coalescing on both sides keeps the invariant |
| `FifoRegions.LiveDisjoint` | lib/transport/fifo_allocator.h:26-40 | live intervals lie within the buffer and do not overlap |
| `FifoRegions.FitHasRoom` | lib/transport/fifo_allocator.cc:32-68 | a free region that fits is room in the abstract heap |
| `FifoRegions.RoomHasFit` | lib/transport/fifo_allocator.cc:32-68 | room in the abstract heap lies within one free region |
| `FifoRegions.AllocateRefines` | lib/transport/fifo_allocator.cc:32-68 | allocation adds one fresh interval that was free and in bounds, or fails unchanged exactly when no gap is large enough |
| `FifoRegions.AllocatesInTurn` | lib/transport/fifo_allocator.cc:32-68 | the region is taken off the front of the first span that fits, from the active one on and around, and the next allocation begins right behind it, or at the front if that is the end |
| `FifoRegions.FindFinds` | lib/transport/fifo_allocator.cc:70-75 | the search from the active region finds the taken region at an offset, despite empty placeholders at the same offset |
| `FifoRegions.ReleaseRefines` | lib/transport/fifo_allocator.cc:70-115 | release removes exactly the interval at that offset and keeps the invariant |
| `FifoRegions.ReleaseKeepsActive` | lib/transport/fifo_allocator.cc:81-115 | the active span stays where it is, and may grow by what becomes free beside it |
| `FifoRegions.AnyAllocatedIffLive` | lib/transport/fifo_allocator.cc:77-79 | the front/back test is true exactly when some interval is live |
| `FifoAllocators.FifoAllocator.constructor` | lib/transport/fifo_allocator.cc:11-14 | a new allocator manages one free region of the given size |
| `FifoAllocators.FifoAllocator.Remove` | lib/transport/fifo_allocator.cc:151-171 | unlinking takes exactly that region off the doubly linked list and keeps prev and next mutually inverse |
| `FifoAllocators.FifoAllocator.InsertBefore` | lib/transport/fifo_allocator.cc:173-187 | splicing puts the region exactly before the other and keeps prev and next mutually inverse |
| `FifoAllocators.FifoAllocator.GetFree` | lib/transport/fifo_allocator.cc:189-207 | a region comes off the lookaside or is new, and is on neither list |
| `FifoAllocators.FifoAllocator.PutFree` | lib/transport/fifo_allocator.h:122-126 | an unused region goes to the lookaside, which stays disjoint from the list |
| `FifoAllocators.FifoAllocator.AdvanceActiveIn` | lib/transport/fifo_allocator.cc:123-137 | the loop finds the first fit between two list positions and makes it active |
| `FifoAllocators.FifoAllocator.AdvanceActive` | lib/transport/fifo_allocator.cc:117-121 | searches from behind the active region and wraps around, as Advance does on the list of spans |
| `FifoAllocators.FifoAllocator.MakeActivePlaceholder` | lib/transport/fifo_allocator.cc:139-149 | an empty region becomes active behind the old one, or in front when that was last |
| `FifoAllocators.FifoAllocator.AllocateRegion` | lib/transport/fifo_allocator.cc:32-68 | on the heap structure: the list of spans becomes what Allocate makes of it and the offset is the one it gives |
| `FifoAllocators.FifoAllocator.ReleaseIn` | lib/transport/fifo_allocator.cc:81-115 | the loop releases the region at an offset between two list positions, or reports that there is none |
| `FifoAllocators.FifoAllocator.CoalesceWithNext` | lib/transport/fifo_allocator.cc:97-108 | a free region absorbs a free one behind it, which goes to the lookaside, and stays active if either was |
| `FifoAllocators.FifoAllocator.ReleaseRegion` | lib/transport/fifo_allocator.cc:70-75 | on the heap structure: the list of spans becomes what ReleaseAt makes of it |
| `FifoAllocators.FifoAllocator.AnyCurrentAllocatedRegions` | lib/transport/fifo_allocator.cc:77-79 | returns AnyAllocated of the spans |
| `FifoAllocators.FifoAllocator.Reset` | lib/transport/fifo_allocator.cc:21-30 | the allocator is as new, with the new size and an empty lookaside |
| `BufferPool.FirstFree` | lib/transport/shared_buffer_set.cc:120-134 | the smallest buffer id that is not in use |
| `BufferPool.HoldsDisjoint` | lib/transport/shared_buffer_set_allocator.cc:15-29 | regions live at different addresses do not overlap |
| `BufferPool.HoldsUnique` | lib/transport/shared_buffer_set.cc:98-118 | an address is held by one buffer only |
| `BufferPool.LiveRegionsDisjoint` | lib/transport/shared_buffer_set_allocator.cc:15-29 | across both strategies and all buffers, live regions never overlap and each lies in a mapped buffer |
| `BufferPoolInvariant.ReplaysAppend` | lib/transport/shared_buffer_set_allocator.cc:169-199 | queueing one more applicable update extends the replay by it |
| `BufferPoolInvariant.EvictKeeps` | lib/transport/shared_buffer_set_allocator.cc:67-75 | deleting free buffers that are too small changes nothing that is live and keeps the update queue a replay |
| `BufferPoolInvariant.AllocateWholeKeeps` | lib/transport/shared_buffer_set_allocator.cc:65-93 | a whole allocation makes exactly one new address live, or none if no buffer is granted |
| `BufferPoolInvariant.AllocateFromKeeps` | lib/transport/shared_buffer_set_allocator.cc:104-153 | allocating within a sliced buffer makes exactly one new address live, or changes nothing |
| `BufferPoolInvariant.ReplaceActiveKeeps` | lib/transport/shared_buffer_set_allocator.cc:133-144 | replacing the active sliced buffer keeps every live region; the old one goes only if nothing in it is live |
| `BufferPoolInvariant.AllocateSlicedKeeps` | lib/transport/shared_buffer_set_allocator.cc:104-153 | a sliced allocation makes exactly one new address live and fails only when no buffer is granted |
| `BufferPoolInvariant.ReleaseWholeKeeps` | lib/transport/shared_buffer_set_allocator.cc:95-102 | releasing a whole buffer frees exactly its address and lists it once, in size order |
| `BufferPoolInvariant.ReleaseSlicedKeeps` | lib/transport/shared_buffer_set_allocator.cc:155-167 | releasing a slice frees exactly its address and deletes the buffer if it is not active and nothing else in it is live |
| `BufferPoolInvariant.ReleaseLocatorKeeps` | lib/transport/shared_buffer_set_allocator.cc:31-44 | releasing the locator of a live address reaches the right buffer and offset |
| `BufferPoolInvariant.HolderOfAddress` | lib/transport/shared_buffer_set.cc:98-118 | the buffer whose mapping contains a live address is the one that holds it |
| `BufferPoolInvariant.WholeLiveOrFree` | lib/transport/shared_buffer_set_allocator.cc:65-102 | every whole buffer is either live or in the free list, and there once |
| `BufferPoolInvariant.PeerAcceptsLive` | lib/transport/media_packet_consumer_base.cc:206-217 | once the peer has applied every update, its validation accepts every live region |
| `BufferPoolReuse.EvictsTooSmall` | lib/transport/shared_buffer_set_allocator.cc:67-75 | exactly the free buffers that are too small go |
| `BufferPoolReuse.AllocateWholeReuses` | lib/transport/shared_buffer_set_allocator.cc:65-93 | a whole allocation uses the smallest free buffer that fits, whatever the system would grant, and takes the mapping granted only if none fits; free buffers that are too small go, all others stay as they are |
| `BufferPoolReuse.AllocateFromReuses` | lib/transport/shared_buffer_set_allocator.cc:117-124 | a slice is taken from a buffer exactly if some gap between its live regions is long enough, and no other buffer changes |
| `BufferPoolReuse.ReplaceActiveReplaces` | lib/transport/shared_buffer_set_allocator.cc:126-144 | the new active buffer has the mapping granted and the larger of three times the request and twice the old one; the old one goes exactly if nothing in it is live |
| `BufferPoolReuse.AllocateSlicedReuses` | lib/transport/shared_buffer_set_allocator.cc:104-153 | a sliced allocation uses the active buffer whenever that has room, whatever the system would grant; otherwise it replaces it, or fails unchanged |
| `BufferPoolReuse.AllocateReuses` | lib/transport/shared_buffer_set_allocator.cc:15-29 | regions of 64 KiB and more get a buffer of their own; an allocation fails exactly if no buffer that is there can be used and none is granted |
| `BufferPoolReuse.ReleaseKeepsBuffers` | lib/transport/shared_buffer_set_allocator.cc:31-44 | a release leaves all other buffers alone, keeps a whole buffer for reuse, and deletes a sliced one exactly if it is not active and nothing else in it is live |
| `SharedBuffers.SharedBufferSet.AllocateBufferId` | lib/transport/shared_buffer_set.cc:120-134 | returns the first unused id, growing the vector if there is none |
| `SharedBuffers.SharedBufferSet.AddMapping` | lib/transport/shared_buffer_set.cc:136-142 | enters a mapping in the vector and the address index, which keep listing the same buffers |
| `SharedBuffers.SharedBufferSet.AddBuffer` | lib/transport/shared_buffer_set.cc:18-34 | adds a buffer under the id the other party chose, if it can be mapped |
| `SharedBuffers.SharedBufferSet.CreateNewBuffer` | lib/transport/shared_buffer_set.cc:36-56 | creates a buffer under the first unused id, if it can be mapped |
| `SharedBuffers.SharedBufferSet.RemoveBuffer` | lib/transport/shared_buffer_set.cc:58-64 | removes a buffer from the vector and the index |
| `SharedBuffers.SharedBufferSet.Validate` | lib/transport/shared_buffer_set.cc:71-84 | accepts exactly the regions that begin and end within a mapped buffer |
| `SharedBuffers.SharedBufferSet.PtrFromLocator` | lib/transport/shared_buffer_set.cc:86-96 | the address is the base plus the offset, null only for a null locator |
| `SharedBuffers.SharedBufferSet.LocatorFromPtr` | lib/transport/shared_buffer_set.cc:98-118 | the lookup by base address returns the one locator whose address this is |
| `SharedBuffers.LocatorUnique` | lib/transport/shared_buffer_set.cc:86-118 | two locators with the same address are equal, so translating there and back is the identity |
| `SharedBuffers.SharedBufferSetAllocator.CreateBuffer` | lib/transport/shared_buffer_set_allocator.cc:169-190 | creates a buffer, records its use and queues the update |
| `SharedBuffers.SharedBufferSetAllocator.DeleteBuffer` | lib/transport/shared_buffer_set_allocator.cc:192-199 | deletes a buffer and queues the update |
| `SharedBuffers.SharedBufferSetAllocator.EvictSmaller` | lib/transport/shared_buffer_set_allocator.cc:67-75 | the loop deletes the free buffers that are too small, smallest first |
| `SharedBuffers.SharedBufferSetAllocator.AllocateWholeRegion` | lib/transport/shared_buffer_set_allocator.cc:65-93 | takes the step AllocateWhole |
| `SharedBuffers.SharedBufferSetAllocator.AllocateSlicedRegion` | lib/transport/shared_buffer_set_allocator.cc:104-153 | takes the step AllocateSliced |
| `SharedBuffers.SharedBufferSetAllocator.AllocateRegion` | lib/transport/shared_buffer_set_allocator.cc:15-29 | returns an address that was not live and is live from now on; or null, exactly if no buffer that is there can be used and none is granted, and then what is live stays as it was; which buffers it uses AllocateReuses says |
| `SharedBuffers.SharedBufferSetAllocator.ReleaseRegion` | lib/transport/shared_buffer_set_allocator.cc:31-44 | a live address is released and nothing else, as ReleaseKeepsBuffers says |
| `SharedBuffers.SharedBufferSetAllocator.PollForBufferUpdate` | lib/transport/shared_buffer_set_allocator.cc:46-63 | hands out the updates first in first out; each applies to the peer's set, and when none is left that set is the local one |
| `TransportProtocol.InitialInv` | lib/transport/media_packet_producer_base.cc:11-18 | the protocol invariant holds before the ends are connected |
| `TransportProtocol.StepKeeps` | lib/transport/media_packet_producer_base.cc:26-233 | every step of either end or channel keeps the invariant, unless it starts a flush during another |
| `TransportProtocol.RunKeeps` | lib/transport/media_packet_producer_base.cc:26-233 | so does every interleaving of such steps |
| `TransportProtocol.QuiescentAgrees` | lib/transport/media_packet_consumer_base.cc:84-105 | with both channels empty and no flush or return in progress, producer and consumer agree on demand and counts and the consumer can announce its next change at once |
| `TransportProtocol.DemandAsked` | lib/transport/media_packet_consumer_base.cc:84-105 | on every run the consumer's demand is the one last asked for, or none since a flush arrived, and at rest the producer has it |
| `TransportProtocol.ProducedLast` | lib/transport/media_packet_producer_base.cc:122-127 | the producer knows the time of the packet it produced last, and that the stream has ended exactly if that packet ended it and no flush was started since |
| `TransportProtocol.ProducesAsAsked` | lib/transport/media_packet_producer_base.cc:170-188 | at rest, with so many more packets in preparation, the producer goes on exactly if the demand last asked for is not met by what the consumer has and those, or its time not by the last packet, and the stream has not ended |
| `TransportProtocol.ArrivesInOrder` | lib/transport/media_packet_producer_base.cc:136-167 | the consumer is handed the packets and flushes in the order sent, the packets with the payloads they were produced with |
| `TransportProtocol.ChangeRidesOnReturn` | lib/transport/media_packet_consumer_base.cc:246-281 | a demand that changes while a packet is being returned is told by that packet's reply and not before |
| `TransportProtocol.ValidateMeans` | lib/transport/media_packet_consumer_base.cc:206-217 | a payload is valid exactly if each of its bytes lies in a known buffer |
| `TransportProtocol.Conserved` | lib/transport/media_packet_producer_base.cc:122-167 | the producer's count is the supplies under way plus the consumer's count plus the returns under way; there is one pull token once connected; no buffer change or packet fails |
| `TransportProtocol.GuardsHold` | lib/transport/media_packet_consumer_base.h:146-165 | neither end ever counts below zero |
| `TransportProtocol.SettlingAgrees` | lib/transport/media_packet_producer_base.cc:194-233 | from any reachable state, in whatever order the messages and answers under way are dealt with, the ends come to rest within a bounded number of steps, and then agree on the demand the consumer had, or on none if a flush was still ahead of it |
| `TransportProtocol.OwedLowersRank` | lib/transport/media_packet_producer_base.cc:194-233 | every message handled and every answer finished lowers the rank, whichever comes first |
| `TransportProtocol.NothingOwed` | lib/transport/media_packet_producer_base.cc:194-233 | no such step is left exactly when the ends are at rest |
| `TransportProtocol.DemandStepHandle` | lib/transport/media_packet_consumer_base.cc:158-173 | handling a pull loses no demand change |
| `TransportProtocol.DemandStepConsumer` | lib/transport/media_packet_consumer_base.cc:246-281 | a demand change reaches the producer by the waiting pull or the next returned packet |
| `TransportProtocol.PacketStepReceive` | lib/transport/media_packet_producer_base.cc:149-167 | a returned packet is counted off once |
| `TransportProtocol.BufferStepProduce` | lib/transport/media_packet_producer_base.cc:136-145 | draining the updates before a packet keeps every queued request deliverable |
| `TransportProtocol.DeliverableConcat` | lib/transport/media_packet_producer_base.cc:136-145 | whether queued requests can be handled, and what they leave behind, goes through concatenation |
| `TransportProtocol.OverlapDisagrees` | lib/transport/media_packet_producer_base.cc:68-70 | a run with two flushes at once after which the ends rest and disagree |
| `TransportProtocol.AgreementIffNoOverlap` | lib/transport/media_packet_producer_base.cc:51-74 | the ends agree at rest on every run if and only if no flush is started during another |
| `TransportEnds.MediaPacketProducerBase.HandleDemandUpdate` | lib/transport/media_packet_producer_base.cc:194-206 | updates the demand and pulls again |
| `TransportEnds.MediaPacketProducerBase.UpdateDemand` | lib/transport/media_packet_producer_base.cc:208-233 | takes over the demand unless a flush is in progress, and notifies exactly on a change |
| `TransportEnds.MediaPacketProducerBase.FlushConsumer` | lib/transport/media_packet_producer_base.cc:51-74 | clears demand and end of stream and sends the flush |
| `TransportEnds.MediaPacketProducerBase.ProducePacket` | lib/transport/media_packet_producer_base.cc:90-168 | sends every queued buffer update and then the packet, and counts it |
| `TransportEnds.MediaPacketProducerBase.DrainBufferUpdates` | lib/transport/media_packet_producer_base.cc:136-145 | the loop sends the queued updates in order |
| `TransportEnds.MediaPacketProducerBase.ShouldProducePacket` | lib/transport/media_packet_producer_base.cc:170-188 | whether more packets are demanded by number or by time |
| `TransportEnds.MediaPacketConsumerBase.SetDemand` | lib/transport/media_packet_consumer_base.cc:84-105 | the new demand is stored unless a flush is pending, and announced if it differs and a pull is waiting |
| `TransportEnds.MediaPacketConsumerBase.PullDemandUpdate` | lib/transport/media_packet_consumer_base.cc:158-173 | takes the step AcceptPull |
| `TransportEnds.MediaPacketConsumerBase.SupplyPacket` | lib/transport/media_packet_consumer_base.cc:192-228 | accepts exactly the packets whose payload validates |
| `TransportEnds.MediaPacketConsumerBase.Flush` | lib/transport/media_packet_consumer_base.cc:230-244 | takes the step AcceptFlush |
| `TransportEnds.MediaPacketConsumerBase.CompleteFlush` | lib/transport/media_packet_consumer_base.cc:239-243 | takes the step CompleteFlush |
| `TransportEnds.MediaPacketConsumerBase.MaybeCompletePullDemandUpdate` | lib/transport/media_packet_consumer_base.cc:246-260 | answers the waiting pull if an update is due and no packet is being returned |
| `TransportEnds.MediaPacketConsumerBase.BeginPacketDeparture` | lib/transport/media_packet_consumer_base.h:152-159 | takes the step BeginReturn |
| `TransportEnds.MediaPacketConsumerBase.EndPacketDeparture` | lib/transport/media_packet_consumer_base.cc:262-281 | takes the step EndReturn |
| `SparseBytes.RegionLookupRight` | src/demux/sparse_byte_buffer.cc:42-73 | a region lookup, hint and all, is right exactly when there are no regions or one begins at the position or before it |
| `SparseBytes.EarlyLookupMisses` | src/demux/sparse_byte_buffer.cc:62-72 | otherwise it returns the first region, which begins after the position |
| `SparseBytes.AllLookupsRight` | src/demux/sparse_byte_buffer.cc:42-73 | all lookups are right exactly when nothing is cached or the first byte is |
| `SparseBytes.FirstFillDecides` | src/demux/sparse_byte_buffer.cc:129-141 | after the first fill all lookups are right exactly if it was at position zero |
| `SparseBytes.HoleLookupRight` | src/demux/sparse_byte_buffer.cc:114-127 | a hole lookup is right for positions in a hole; elsewhere exactly when there are no holes, or one begins before the position and none ends there |
| `SparseBytes.SplitKeeps` | src/demux/sparse_byte_buffer.cc:94-106 | splitting a hole keeps holes disjoint and non-empty and covers the same bytes |
| `SparseBytes.FillableKeeps` | src/demux/sparse_byte_buffer.cc:148-166 | taking bytes off the front of a hole removes exactly those |
| `SparseBytes.NextAdjacent` | src/demux/sparse_byte_buffer.cc:144-171 | a missing byte right after a hole begins the next hole |
| `SparseBytes.PartitionFilled` | src/demux/sparse_byte_buffer.cc:141-171 | moving missing bytes into a new region keeps holes and regions a partition of the buffer |
| `SparseBytes.FillRound` | src/demux/sparse_byte_buffer.cc:144-171 | each round of the loop erases the rest of one hole or ends within it, and leaves the iterator at the next hole in the wraparound sense |
| `SparseBytes.SparseByteBuffer.constructor` | src/demux/sparse_byte_buffer.cc:34-40 | one hole spans the buffer |
| `SparseBytes.SparseByteBuffer.FindRegionContaining` | src/demux/sparse_byte_buffer.cc:42-73 | computes the lookup described by RegionLookupRight |
| `SparseBytes.SparseByteBuffer.FindHoleContaining` | src/demux/sparse_byte_buffer.cc:114-127 | finds the hole that contains a missing byte |
| `SparseBytes.SparseByteBuffer.FindOrCreateHole` | src/demux/sparse_byte_buffer.cc:75-112 | a hole begins exactly at the position, the covered bytes are the same and no other hole goes |
| `SparseBytes.SparseByteBuffer.EraseHoles` | src/demux/sparse_byte_buffer.cc:144-171 | the loop takes the buffer's span out of a run of adjacent holes |
| `SparseBytes.SparseByteBuffer.Fill` | src/demux/sparse_byte_buffer.cc:129-174 | adds the region, removes exactly its span from the holes, keeps the partition and returns the next hole in wraparound order, null if and only if the buffer is full |
| `ReaderCaches.MissingShrinks` | src/demux/reader_cache.cc:167-188 | filling a span makes fewer bytes missing |
| `ReaderCaches.ReadAtRequest.Start` | src/demux/reader_cache.cc:55-66 | a call starts with nothing delivered |
| `ReaderCaches.ReadAtRequest.CopyFrom` | src/demux/reader_cache.cc:68-77 | what has been delivered stays the asset's bytes from the start on |
| `ReaderCaches.ReadAtRequest.Complete` | src/demux/reader_cache.cc:79-90 | reports the bytes read; the debug check holds exactly if there are some and no error, or none and an error |
| `ReaderCaches.Store.constructor` | src/demux/reader_cache.cc:96-108 | an initialized store meets the cache invariant |
| `ReaderCaches.Store.SetReadAtRequest` | src/demux/reader_cache.cc:121-137 | a call, unless for bytes before all cached regions, is over exactly if its bytes are cached and then has got asset[pos .. pos + min(n, size - pos)]; otherwise it is blocked, splitting holes as needed; all later lookups stay right unless nothing is cached or in flight and it is not for the beginning; the debug checks on the buffer in flight stay true unless it is blocked strictly within that |
| `ReaderCaches.Store.GetIntakePositionAndSize` | src/demux/reader_cache.cc:139-165 | intake is sent to missing bytes, to the blocked call's first if there is one, and for no more than their hole has; to none exactly when nothing is missing, and then no call is blocked |
| `ReaderCaches.Store.PutIntakeBuffer` | src/demux/reader_cache.cc:167-188 | exactly the bytes put are no longer missing, even if their hole was split meanwhile; a call that completes has its exact bytes; intake goes on at the next missing byte behind them, around the end; all lookups are right afterwards exactly if they were or the bytes are the first |
| `ReaderCaches.CacheAgreesIff` | src/demux/reader_cache.cc:276-289 | what is cached agrees with the asset after a buffer is put exactly if that buffer does; a short upstream read, all of whose buffer is put, spoils the cache unless the rest happens to agree |
| `ReaderCaches.FitsHoleUnlessSplit` | src/demux/reader_cache.cc:174-174 | bytes in flight fit the hole they begin with, as the debug checks suppose, exactly if no other hole begins among them |
| `ReaderCaches.FitsHoleStill` | src/demux/sparse_byte_buffer.cc:134-134 | of the holes that a new call may make, exactly those strictly within what is in flight break the checks |
| `ReaderCaches.Store.ServeRequest` | src/demux/reader_cache.cc:199-249 | serves the call until it is over or blocked behind a missing byte that intake is fetching or will fetch next |
| `ReaderCaches.Store.CopyRegions` | src/demux/reader_cache.cc:208-238 | the loop copies region after region until all is served or no region covers the read position |
| `ReaderCaches.Store.Block` | src/demux/reader_cache.cc:213-221 | a hole begins at the read position and is the one that intake will fill next |
| `ReaderCaches.Store.ReportIntakeError` | src/demux/reader_cache.cc:190-197 | an error ends the waiting call with the bytes it has so far, and breaks the debug check on completion exactly if there are any |
| `ReaderCaches.FetchIsSplit` | src/demux/reader_cache.cc:121-188 | a read strictly inside the first fetch, of whatever asset, breaks the debug checks on the buffer's size |
| `ReaderCaches.ReadBeforeIntake` | src/demux/reader_cache.cc:121-188 | a read elsewhere than at the beginning that comes before all intake makes the next lookup of the beginning wrong |
| `ReaderCaches.ErrorAfterPart` | src/demux/reader_cache.cc:79-90 | an error that comes when one byte of two has been delivered breaks the debug check on completion |
| `ReaderCaches.Intake.Continue` | src/demux/reader_cache.cc:265-293 | intake stops after finitely many reads with the whole asset cached, and a call that was blocked has got all its bytes |
| `ReaderCaches.Intake.Read` | src/demux/reader_cache.cc:265-293 | every read leaves fewer bytes missing |
| `AudioLinks.HeldUpwards` | src/audio_server/audio_renderer_to_output_link.cc:44-148 | whatever holds a packet holds the later ones as well |
| `AudioLinks.OnlyFirstDrops` | src/audio_server/audio_renderer_to_output_link.cc:44-148 | only the first packet still held can lose its last reference |
| `AudioLinks.StepPushTo` | src/audio_server/audio_renderer_impl.cc:335-346 | a push that has reached some links keeps the order invariant |
| `AudioLinks.StepFlushLink` | src/audio_server/audio_renderer_to_output_link.cc:50-81 | swapping out a queue keeps it; the mixer cannot have it locked |
| `AudioLinks.StepReleaseFront` | src/audio_server/audio_renderer_to_output_link.cc:138-148 | dropping the references front to back keeps it |
| `AudioLinks.StepNewLink` | src/audio_server/audio_renderer_to_output_link.cc:83-94 | so does a new link primed from the throttle link |
| `AudioLinks.StepUnlockFront` | src/audio_server/audio_renderer_to_output_link.cc:114-136 | and a mixer that takes the front packet off |
| `AudioLinks.StepKeeps` | src/audio_server/audio_renderer_impl.cc:273-370 | every step of main thread and mixers keeps the invariant |
| `AudioLinks.RunKeeps` | src/audio_server/audio_renderer_impl.cc:273-370 | and so does every interleaving |
| `AudioLinks.PacketsReturnInOrder` | src/audio_server/audio_server_impl.cc:69-114 | on every run packets are returned in push order, each once, and the unreleased ones are a suffix of those pushed |
| `AudioLinks.LockedFrontStays` | src/audio_server/audio_renderer_to_output_link.cc:96-136 | the packet a mixer has locked is still at the front when it unlocks |
| `AudioLinks.OutputsMixInOrder` | src/audio_server/audio_renderer_to_output_link.cc:44-136 | on every run every output has, in order, exactly the packets from the first it is owed to the last that has reached it, where a flush takes back all, finishing a packet that one, and a new output is owed what the throttle output is; it is told of its beginning and of each flush at the next lock and once, and mixes the first it has |
| `AudioLinks.FlushReachesAll` | src/audio_server/audio_renderer_impl.cc:358-370 | a flush ends only when the queues of all outputs are empty, whatever the mixers do meanwhile |
| `AudioLinks.NothingLost` | src/audio_server/audio_server_impl.cc:103-114 | with empty queues every packet has been released, and a clean-up task is posted for those not returned |
| `AudioLinks.ShutdownReturnsAll` | src/audio_server/audio_server_impl.cc:46-50 | the clean-up at shutdown returns every packet that is left |
| `AudioLinks.PushDuringFlushReorders` | src/audio_server/audio_renderer_to_output_link.cc:57-63 | a run in which a packet pushed during a flush is released before the flushed one |
| `AudioLinks.OrderIffNoPushDuringFlush` | src/audio_server/audio_renderer_to_output_link.cc:57-63 | order is kept on every run if and only if nothing is pushed during a flush |
| `AudioOutputs.AudioRendererToOutputLink.PushToPendingQueue` | src/audio_server/audio_renderer_to_output_link.cc:44-48 | appends the packet |
| `AudioOutputs.AudioRendererToOutputLink.FlushPendingQueue` | src/audio_server/audio_renderer_to_output_link.cc:50-81 | leaves an empty flushed queue and drops the old one's references in order |
| `AudioOutputs.AudioRendererToOutputLink.InitPendingQueue` | src/audio_server/audio_renderer_to_output_link.cc:83-94 | copies the source's queue |
| `AudioOutputs.AudioRendererToOutputLink.LockPendingQueueFront` | src/audio_server/audio_renderer_to_output_link.cc:96-112 | returns the front and whether there was a flush, and holds off the next one |
| `AudioOutputs.AudioRendererToOutputLink.UnlockPendingQueueFront` | src/audio_server/audio_renderer_to_output_link.cc:114-136 | gives the lock back and takes the front off if asked to |
| `AudioOutputs.AudioRendererImpl.OnPacketReceived` | src/audio_server/audio_renderer_impl.cc:335-346 | every link gets the packet |
| `AudioOutputs.AudioRendererImpl.OnFlushRequested` | src/audio_server/audio_renderer_impl.cc:358-370 | every link is flushed, its references dropped front to back |
| `AudioOutputs.AudioRendererImpl.AddOutput` | src/audio_server/audio_renderer_impl.cc:273-286 | the new link starts with what the throttle link has |
| `AudioOutputs.AudioServerImpl.SchedulePacketCleanup` | src/audio_server/audio_server_impl.cc:103-114 | queues the packet and posts a task unless one is posted or the server shuts down |
| `AudioOutputs.AudioServerImpl.DoPacketCleanup` | src/audio_server/audio_server_impl.cc:69-101 | runs all queued callbacks first to last |
| `MediaPlayers.UpdateKeeps` | src/media_service/media_player_impl.cc:200-410 | Update takes any consistent player to one that waits for one operation or is settled |
| `MediaPlayers.CommandKeeps` | src/media_service/media_player_impl.cc:444-483 | so does every client command |
| `MediaPlayers.CompletionKeeps` | src/media_service/media_player_impl.cc:278-385 | and every completion |
| `MediaPlayers.AlwaysOrderly` | src/media_service/media_player_impl.cc:215-231 | on every run kWaiting holds exactly while one operation is pending; priming and seeking happen on an empty pipeline, flushing and starting on a filled one; otherwise the player is where the client wants it |
| `MediaPlayers.CompletionWorks` | src/media_service/media_player_impl.cc:278-385 | without commands each completion lowers the number of operations needed by exactly one, at the end of the stream as well |
| `MediaPlayers.WorkBounded` | src/media_service/media_player_impl.cc:200-410 | at most eight operations are needed |
| `MediaPlayers.CreatedSettles` | src/media_service/media_player_impl.cc:28-103 | a new player settles in kFlushed if it has a reader and in kInactive if not, without a seek or a transform |
| `MediaPlayers.Converges` | src/media_service/media_player_impl.cc:200-410 | left alone the player settles in its target state, but primed instead of playing at the end of the stream, or kInactive when it has no reader |
| `MediaPlayers.PlayPlays` | src/media_service/media_player_impl.cc:444-448 | after Play the player ends up playing, or primed at the end of the stream, or kInactive without a source, and pending seeks are carried out as before |
| `MediaPlayers.PausePauses` | src/media_service/media_player_impl.cc:450-454 | after Pause it ends up primed, or kInactive without a source, and pending seeks are carried out as before |
| `MediaPlayers.SeekGoesOn` | src/media_service/media_player_impl.cc:456-460 | a seek does not change where the player ends up |
| `MediaPlayers.ReaderTakesOver` | src/media_service/media_player_impl.cc:462-483 | a new reader is taken to where the client wanted the old one; without one the player becomes kInactive |
| `MediaPlayers.StatusSettles` | src/media_service/media_player_impl.cc:498-506 | at the end of the stream a playing player ends up primed, and nothing else changes |
| `MediaPlayers.SeeksAsPlanned` | src/media_service/media_player_impl.cc:271-295 | exactly the planned position is asked of the source on the way |
| `MediaPlayers.SeekHonoured` | src/media_service/media_player_impl.cc:282-289 | a seek is carried out if and only if there is or will be a source and that source is not seeking already; one asked for during a source seek is forgotten |
| `MediaPlayers.SeekForgotten` | src/media_service/media_player_impl.cc:282-289 | a run on which a seek to 7 during a source seek to 5 is forgotten |
| `MediaPlayers.NewReaderSeeks` | src/media_service/media_player_impl.cc:462-483 | changing the reader causes a seek to the unspecified time if and only if the renderers are just being told of a seek |
| `MediaPlayers.UnspecifiedSeek` | src/media_service/media_player_impl.cc:462-483 | a run on which it does |
| `MediaPlayers.SubjectsAsPlanned` | src/media_service/media_player_impl.cc:412-437 | the positions that timeline transforms name on the way are the planned ones |
| `MediaPlayers.NewReaderStartsAtZero` | src/media_service/media_player_impl.cc:248-262 | a new reader that is to be played is started at position zero, whatever the player was doing |
| `MediaPlayers.SeekAnnounced` | src/media_service/media_player_impl.cc:265-281 | a seek that is carried out is announced to the renderers, which go on from there, unless they are just being told of another |
| `MediaPlayers.SeekUnannounced` | src/media_service/media_player_impl.cc:276-282 | in that case the source seeks to the new position and no transform names it |
| `MediaPlayers.WrongAnnouncement` | src/media_service/media_player_impl.cc:276-282 | a run on which the source goes to 7 and the renderers are told of 5 |
| `MediaPlayers.RunKeeps` | src/media_service/media_player_impl.cc:200-483 | the invariant over every run of commands, status updates and completions |
| `MediaPlayerImpls.MediaPlayerImpl.constructor` | src/media_service/media_player_impl.cc:28-103 | a new player waits for its source or has none |
| `MediaPlayerImpls.MediaPlayerImpl.Update` | src/media_service/media_player_impl.cc:200-410 | the loop terminates and takes the step Update |
| `MediaPlayerImpls.MediaPlayerImpl.MaybeCreateSource` | src/media_service/media_player_impl.cc:107-125 | creates a source if there is a reader |
| `MediaPlayerImpls.MediaPlayerImpl.SetTimelineTransform` | src/media_service/media_player_impl.cc:412-437 | a transform uses up the position it names |
| `MediaPlayerImpls.MediaPlayerImpl.Play` | src/media_service/media_player_impl.cc:444-448 | takes the step Play and keeps the invariant |
| `MediaPlayerImpls.MediaPlayerImpl.Pause` | src/media_service/media_player_impl.cc:450-454 | takes the step Pause and keeps the invariant |
| `MediaPlayerImpls.MediaPlayerImpl.Seek` | src/media_service/media_player_impl.cc:456-460 | takes the step Seek and keeps the invariant |
| `MediaPlayerImpls.MediaPlayerImpl.SetReader` | src/media_service/media_player_impl.cc:462-483 | takes the step SetReader and keeps the invariant |
| `MediaPlayerImpls.MediaPlayerImpl.HandleTimelineControlPointStatusUpdates` | src/media_service/media_player_impl.cc:498-506 | takes over the end-of-stream flag and keeps the invariant |
| `MediaPlayerImpls.MediaPlayerImpl.OnStreamsPrepared` | src/media_service/media_player_impl.cc:151-156 | the connected source is flushed |
| `MediaPlayerImpls.MediaPlayerImpl.OnSeekTransformSet` | src/media_service/media_player_impl.cc:278-282 | the source is asked to seek to the position wanted by now |
| `MediaPlayerImpls.MediaPlayerImpl.OnSeekCompleted` | src/media_service/media_player_impl.cc:282-289 | clears the wanted position, whichever it is by now |
| `Flog.Le32RoundTrip` | src/flog_service/flog_logger_impl.cc:50-53 | a 32-bit size survives being written and read back |
| `Flog.EveryFileParses` | src/flog_service/flog_reader_impl.cc:85-153 | every file is a sequence of records followed by its end or by something corrupt |
| `Flog.ParseUnique` | src/flog_service/flog_reader_impl.cc:85-153 | and is so in one way only |
| `Flog.ParseIsLog` | src/flog_service/flog_logger_impl.cc:45-56 | a file begins with the log of the messages it parses into, and is that log exactly if nothing corrupt is left |
| `Flog.ParseAppended` | src/flog_service/flog_logger_impl.cc:45-56 | appending a size and a payload appends one record to what a file in order parses into |
| `Flog.FlogLoggerImpl.Accept` | src/flog_service/flog_logger_impl.cc:45-56 | the log parses into the messages accepted so far, in order, and nothing else |
| `Flog.FlogLoggerImpl.WriteData` | src/flog_service/flog_logger_impl.cc:65-73 | appends to the file |
| `Flog.StrayIsStraddle` | src/flog_service/flog_reader_impl.cc:85-115 | skipping a record writes astray exactly if its payload spans two buffer loads |
| `Flog.LongStraddles` | src/flog_service/flog_reader_impl.cc:155-192 | which every payload longer than the buffer does |
| `Flog.LongRecordStrays` | src/flog_service/flog_reader_impl.cc:85-115 | so skipping a record longer than the buffer writes astray, wherever it is |
| `Flog.SkipLongMessage` | src/flog_service/flog_reader_impl.cc:41-59 | whatever message longer than the buffer is logged, asking for the second entry writes astray |
| `Flog.StrayOn` | src/flog_service/flog_reader_impl.cc:188-191 | a discarding read that goes on in the next load passes a destination that is no longer null |
| `Flog.FlogReaderImpl.constructor` | src/flog_service/flog_reader_impl.cc:27-37 | a reader is at the first record |
| `Flog.FlogReaderImpl.FillReadBuffer` | src/flog_service/flog_reader_impl.cc:194-212 | loads the next aligned stretch of the file, or the first one |
| `Flog.FlogReaderImpl.ReadData` | src/flog_service/flog_reader_impl.cc:155-192 | the buffered recursive read returns what a plain read of the file returns, at any alignment; with a null destination it writes astray exactly when it goes beyond one load |
| `Flog.FlogReaderImpl.DiscardEntry` | src/flog_service/flog_reader_impl.cc:85-115 | skips one record, or reports the end or a fault |
| `Flog.FlogReaderImpl.GetEntry` | src/flog_service/flog_reader_impl.cc:117-153 | returns one record's payload, or reports the end or a fault |
| `Flog.FlogReaderImpl.ReadPayload` | src/flog_service/flog_reader_impl.cc:139-145 | reads a payload whole, or faults if the file ends within it |
| `Flog.FlogReaderImpl.GetEntries` | src/flog_service/flog_reader_impl.cc:41-83 | writes astray if and only if a payload that is skipped spans two loads; if nothing has gone astray, returns records start .. min(start + count, n) of a file in order without a fault, whatever has been read before, and faults exactly when it reaches something corrupt |
| `Flog.FlogReaderImpl.SkipTo` | src/flog_service/flog_reader_impl.cc:54-59 | the loop skips to a record or finds that there are not that many |
| `Flog.FlogReaderImpl.Collect` | src/flog_service/flog_reader_impl.cc:65-82 | the loop returns the next records, at most count |
| `Flog.EntriesGoOn` | src/flog_service/flog_reader_impl.cc:61-83 | reading on where one call stopped gives what one longer call gives; reading all gives all |
| `Resamplers.InterpolateOnLine` | src/audio/resampler.cc:77-91 | the interpolated sample is the point on the straight line between its neighbours at the subframe, rounded down |
| `Resamplers.Interpolate` | src/audio/resampler.cc:77-91 | and so it lies between them, and is the first at subframe zero |
| `Resamplers.Mixes` | src/audio/resampler.cc:83-86 | the weighted sum fits 32 bits |
| `Resamplers.StopsWhen` | src/audio/resampler.cc:104-119 | the loop stops k strides on, k being the frames written, because the output is full or the input has no frame behind the place |
| `Resamplers.OutputAt` | src/audio/resampler.cc:94-126 | output frame k is the interpolation at p0 + k * (I * 2^14 + S), and both input frames it needs exist |
| `Resamplers.SampleOnLine` | src/audio/resampler.cc:94-126 | every sample of output frame k is the point, rounded down, that the straight line between the input samples around subframe p0 + k * (I * 2^14 + S) has there, and so lies between them |
| `Resamplers.OutputLength` | src/audio/resampler.cc:94-126 | whole frames are written |
| `Resamplers.SplitOutput` | src/audio/resampler.cc:94-126 | filling two output buffers in turn gives the frames, the count and the final place of one of their joint size |
| `Resamplers.Resampler.InterpolateFrame` | src/audio/resampler.cc:77-91 | writes the blend of two frames and nothing else |
| `Resamplers.Resampler.InterpolateFrames` | src/audio/resampler.cc:94-126 | the loop over sample pointers writes exactly that output, touches nothing else, and advances input, output, subframe index and pts accordingly |

## Left out

- Mapping of memory, handles, sockets, message bindings, connection errors and threads: a mapping is an address interval that an oracle may grant or refuse, disjoint from the others; a channel is a queue.
- `Reset`, `Fail`, detaching and revised media types in the transport: they only cut runs short. Runs are connected ones.
- The converse for a single run with overlapping flushes: such a run may still end in agreement, so the equivalence is over all runs.
- Re-entrant calls from `OnDemandUpdated` and from completion callbacks: callbacks of the other party are separate steps.
- Failure to duplicate a handle for a buffer update, and counters wrapping at 32 or 64 bits: ids, counts and labels are unbounded.
- SharedBuffers.SharedBufferSetAllocator.CreateBuffer: the FIFO allocator nested in a slot is represented by its value from `FifoRegions`, which the class `FifoAllocator` is proved to implement; sharing and deletion of that object are not modelled.
- FifoAllocators.FifoAllocator.Reset: freeing the memory of regions (`DeleteFrontToBack`) is not modelled; regions dropped are simply no longer reachable.
- FifoAllocators.FifoAllocator.AllocateRegion: sizes are below the null offset, as the source's return value supposes.
- TimelineRates.ProductDeltas: the debug check that fails on loss of precision is not modelled; the rounded result is.
- TimelineFunctions.ApplyKeepsPromise: a signed addition or subtraction that overflows, which the source leaves undefined, counts as a broken promise; no wrapped result is assumed.
- TimelineFunctions.ComposeCorrect: the inexact product is bounded by `ProductCorrect` only, not carried through composition.
- The conversion of floats to rates, and all other floating point.
- ReaderCaches.Store.PutIntakeBuffer: upstream reads are full reads of an asset of known positive size, as the code passes on the whole buffer whatever was read (`CacheAgreesIff` says what a short one does to the cache); `Describe` is not modelled.
- ReaderCaches.Store.SetReadAtRequest: a call for bytes before all cached regions is not modelled, as the region that `FindRegionContaining` returns for it does not contain them and the copy would begin outside it.
- ReaderCaches.Intake.Continue: one thread reads on without new calls in between; calls in between are the other methods of `Store`, whose contracts hold for any interleaving.
- AudioLinks.PacketsReturnInOrder: one renderer; dropping the last reference and entering clean-up is one step; an output is removed while it is not mixing, as the source's lock makes it. Links dropped by a renderer's shutdown, after which nothing is pushed, are not modelled.
- Gain, formats, plug detection and the choice of outputs for a renderer.
- MediaPlayers.Converges: the end-of-stream flag stays as it is while the player settles; rates of the timeline and the lead time, stream preparation one by one, and status publishing are not modelled; creating a source and connecting its streams is one operation.
- Flog.FlogReaderImpl.GetEntries: the decoding of a payload into an entry is not modelled, an entry is its payload; the file does not grow while it is read and reading it does not fail.
- Flog.FlogReaderImpl.ReadData: a write astray is recorded, and inside the reader is taken to hit none of the reader's own state; `GetEntries` promises its entries only when there has been none.
- Resamplers.Resampler.InterpolateFrames: the rate schedule, the carried frame and skipped input are not modelled; the stride is given, with its fractional part below one frame.
- Decoders, demultiplexers, graphs of stages, codecs of player messages, views and examples: they call libraries outside the repository or convert between formats member by member, and add no invariant of their own.
