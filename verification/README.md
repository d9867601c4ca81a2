# Verified model of the baresip media timing core

This project models, in Dafny, the part of baresip that decides when media packets are kept, delivered,
sent and sent again: the jitter buffer, the RTP receiver loop that drives it, the extension of RTP
timestamps, and the paced video sender with its retransmission history. Two small stateful parts of the
user agent follow: the allocator of call line numbers and the tone player. `dafny verify dfyconfig.toml`
checks everything.

Each component comes in three layers:

* a transition system on values (`JbufModel`, `RtpModel`, `VideoPacing`, `VideoQueue`, `VideoNack`,
  `Timestamp`, `CallLines`, `TonePlayer`): one function per operation, with the branches, constants and
  integer widths of the source;
* theorems about every operation and every run of it, in the same modules and in `JbufOrder`,
  `JbufFrames`, `JbufAccounting`, `JbufWish`, `JbufAnswers`, `RtpLoop`, `RtpOverflow`, `RtpFrames`, `RtpLoss`,
  `NackExact`, `VideoHistory`, `VideoExpiry`, `VideoWindow`; runs on which a property fails are in
  `JbufWitness`, `RtpFramesWitness`, `RtpAdaptWitness`, `RtpLossWitness` and `VideoWitness`;
* a class that works in place (`JitterBuffer` over the node table of `PacketNodes`, `RtpReceiver`,
  `VideoSender`, `TimestampRecv`, `CallList`, `Player`), whose methods are proved to do what the functions say.

## Conventions of the model

* The header of a packet has its 16-bit sequence number. The packet's place in the sender's unbounded
  numbering, `ext`, is part of the payload, which the code never reads. The hypothesis that ties them is
  `Numbered`; packets that meet lie less than 2^15 apart (`Admissible`). Nothing else about arrival order
  is assumed.
* A buffer with `max == 0` can be allocated, but put would follow a null pointer; put, and runs with puts,
  therefore require `max > 0`.
* Signed 32-bit overflow wraps. A float-to-integer conversion whose value is out of range yields the
  parameter `ub`, on which nothing is assumed; other float arithmetic is exact.
* Clock readings, timer callbacks, handler results and the `size_t` width are parameters.
* The test for RTCP payload types belongs to the RTP library, which is not part of this model; it is taken to
  be 64 to 95, as section 4 of RFC 5761 has it.
* An operation under a lock is one step. Sending a packet lies between two such steps, so that queueing and
  NACKs can come in between.

## What turned out not to hold

* A delivered packet with sequence number 0 switches the late check off, because 0 reads as "nothing
  delivered" (`LateRefusedIff`, `LateAcceptedAfterZero`).
* The frame counter, which stands for the number of distinct timestamps, is wrong after a packet whose
  timestamp is buffered but not next to the packet's place, and when the only packet of a one-packet pool
  is replaced (`PutExactIff`, `StrayPacketMiscounted`, `SinglePacketPoolDividesByZero`). A packet that
  splits a frame is counted right, but the frame then no longer stands together (`PutContiguousIff`), and
  its two parts make the counter wrap below zero as they leave (`SplitFrameUnderflows`).
* The moving average overflows 32 bits for a difference of 4096 packets above it, and can become negative
  (`EmaOverflowIff`, `RunExactIff`, `AverageOverflows`).
* With frames of several packets the buffer overflows as soon as k packets to a frame times the largest depth
  reach the pool size (`NoOverflowIff`). In the adaptive mode one packet far ahead takes the depth to
  max - 1, so that a single frame of two packets is enough, whatever the minimum depth (`AdaptiveOverflows`).
* With a 32-bit `size_t`, the pacing time wraps with the first packet of full size (`TimeExactIff`,
  `SizeWraps`); below 3 bit/s the sleep is cut short and neither the rate bound nor the dead clamp holds
  (`DelayFitsIff`, `RateBoundIff`); a clock below the burst time makes the idle check fire (`IdleExactIff`,
  `EarlyClockClamps`).
* A NACK compares by position what it asks for by number (`NackExactIff`). If the first packet asked for
  has left the history, nothing is sent again (`FirstExpired`); packets behind a hole that an earlier NACK
  left are missed (`HoleHidesPacket`); packet number 0 is sent again although it was not asked for
  (`ZeroSentUnasked`), or in spite of a hole (`ZeroBehindHole`). A NACK names at most 17 of the missing
  packets (`GapNackNames`).
* A packet that the stream does not transmit, on hold or when sending is disabled, still goes to the history,
  under the number used last. A NACK for that number can have it sent in place of the packet that was
  transmitted under it (`SuppressedResent`); which of the two is sent is decided by whether the transmitted
  one is still kept (`ResentIsTransmittedIff`).
* If the first packet received has sequence number 0, packets lost before the first one delivered are not
  counted (`TelescopesFromFirst`, `LossOfFirst`); a packet from before the first one received reports no loss
  (`LostCalcBack`). A gap of 2999 packets or more is not counted at all (`LongStepUnreported`). When exactly
  every loss is reported is `LossesExactIff`.
* The loss counter of the jitter buffer counts gaps, not packets (`GetCountsGap`).
* If the payload-type handler rejects the first packet of a new source, the receiver forgets the flush it owes.
  The jitter buffer makes up for it, unless the number of the old source is 0, which reads as none: then packets
  of both sources are buffered together (`RejectedFlushesIff`, `SourcesMixed`).
* The tone player fills the rest of a frame with silence only at its end, not during a pause (`SilentIff`,
  `PausedFrame`).

## Model

| member | source | states |
|---|---|---|
| `JbufOrder.SeqLessIsLess` | components/baresip/src/jbuf.c:86-89 | within half the sequence space the wrapping comparison is the order of the unbounded numbers, and equal 16-bit numbers mean the same packet |
| `JbufOrder.SeqLessNotTransitive` | components/baresip/src/jbuf.c:86-89 | outside that window the comparison is not transitive |
| `JbufOrder.ScanSplits` | components/baresip/src/jbuf.c:483-512 | the backward search splits a sorted list at the number looked for |
| `JbufOrder.DuplicateMeans` | components/baresip/src/jbuf.c:493-502 | a packet is reported as a duplicate exactly when its number is buffered |
| `JbufOrder.TakeNodeRefines` | components/baresip/src/jbuf.c:146-182 | taking a node evicts the least number exactly when the buffer is full |
| `JbufOrder.PutRefines` | components/baresip/src/jbuf.c:404-546 | put on a bounded sorted set: refuse late, evict the least when full, then answer duplicate or insert; eviction precedes the duplicate search, and all invariants survive |
| `JbufOrder.StepRefines` | components/baresip/src/jbuf.c:404-726 | every operation keeps the list strictly increasing and acts on the set of numbers as the set specification says |
| `JbufOrder.RunInOrder` | components/baresip/src/jbuf.c:404-726 | in every reachable state the list is strictly increasing, and after a delivery with non-zero 16-bit number comes a greater number |
| `JbufOrder.StartInOrder` | components/baresip/src/jbuf.c:219-275 | a new buffer of at least one packet starts these runs, with the size, depth and mode asked for |
| `JbufOrder.LateRefusedIff` | components/baresip/src/jbuf.c:439-453 | a packet at or before the last delivered one is refused if and only if that one's 16-bit number is not 0 |
| `JbufOrder.LossMeansGap` | components/baresip/src/jbuf.c:587-598 | get counts a loss exactly when numbers are skipped since the last delivery |
| `JbufOrder.OutOfSequenceMeans` | components/baresip/src/jbuf.c:471-515 | a new packet counts as out of sequence exactly when a later one is buffered |
| `JbufOrder.ReverseDiffMeans` | components/baresip/src/jbuf.c:347 | the reverse difference is the distance from the successor of the packet put last |
| `JbufWitness.LateAcceptedAfterZero` | components/baresip/src/jbuf.c:445 | a run in which a late packet is delivered after number 0 |
| `JbufFrames.FramesInsert` | components/baresip/src/jbuf.c:526-538 | how many frames an inserted packet adds: none, one, or two when it splits a frame |
| `JbufFrames.FramesAreStamps` | components/baresip/src/jbuf.c:607-616 | at most as many distinct timestamps as frames, and equally many if and only if the packets of each frame stand together |
| `JbufFrames.PutExactIff` | components/baresip/src/jbuf.c:404-546 | put keeps `nf` the number of distinct timestamps if and only if the packet is late, or neither replaces the only packet nor has a timestamp buffered elsewhere than next to its place |
| `JbufFrames.PutContiguousIff` | components/baresip/src/jbuf.c:404-546 | put keeps the packets of each frame together if and only if the packet is late, or neither splits a frame nor strays from its own |
| `JbufFrames.PutRunsExactIff` | components/baresip/src/jbuf.c:404-546 | put counts runs of equal timestamps exactly if and only if the packet is late, or neither splits a frame nor replaces the only packet |
| `JbufFrames.RunFramesExact` | components/baresip/src/jbuf.c:146-726 | in every reachable state of such a stream `nf` is the number of distinct timestamps, at most `n`, and the wish size is between `min` and `max - 1` |
| `JbufFrames.StartFrames` | components/baresip/src/jbuf.c:219-275 | a new buffer of at least two packets starts these runs |
| `JbufWitness.StrayPacketMiscounted` | components/baresip/src/jbuf.c:526-538 | four packets of two timestamps that count as three frames |
| `JbufWitness.SplitFrameUnderflows` | components/baresip/src/jbuf.c:526-538 | three packets, counted right, after which draining makes `nf` wrap below zero |
| `JbufWitness.SinglePacketPoolDividesByZero` | components/baresip/src/jbuf.c:170-174 | with a pool of one, a counted frame in an empty buffer and a limit computed by division by zero |
| `JbufFrames.FrameLimitBounds` | components/baresip/src/jbuf.c:342-345 | the scaled limit is between one frame and the pool size |
| `JbufFrames.CalcRdiffBounded` | components/baresip/src/jbuf.c:326-375 | adapting keeps the wish size in its bounds whatever the average comes to |
| `JbufFrames.WishCoversAverage` | components/baresip/src/jbuf.c:354-364 | the adapted wish size is the limit or covers the averaged difference, and never falls |
| `JbufWish.WishIs` | components/baresip/src/jbuf.c:326-364 | adapting raises the wish to the whole frames that the averaged difference makes at the buffered packets per frame, at least to min and at most to one frame less than the pool holds, and never lowers it |
| `JbufWish.WishNoHigher` | components/baresip/src/jbuf.c:354-364 | so it is never raised further than the average asks for |
| `JbufWish.RunWish` | components/baresip/src/jbuf.c:326-364 | over every run in which no packet arrives more than d packets from where it was due, the wish does not rise above d frames; on a stream in order nothing raises it |
| `JbufWish.PutAdapts` | components/baresip/src/jbuf.c:434-437 | put adapts the wish exactly when it averages the difference, late packets included |
| `JbufWish.OthersKeepWish` | components/baresip/src/jbuf.c:559-726 | get, drain and flush leave the wish and the average alone |
| `JbufWish.TimerLowers` | components/baresip/src/jbuf.c:314-323 | k firings of the timer lower the wish by k frames, but not below min |
| `JbufAnswers.GetAnswers` | components/baresip/src/jbuf.c:559-630 | get delivers exactly when more timestamps are buffered than wished for, and answers EAGAIN exactly when that is still so without the packet delivered |
| `JbufAnswers.DrainAnswers` | components/baresip/src/jbuf.c:641-684 | drain delivers exactly when something is buffered |
| `JbufAnswers.PutCounts` | components/baresip/src/jbuf.c:439-515 | put counts a packet late exactly when it is at or before the last one delivered, where that is known, and out of sequence exactly when it is stored and a later one is buffered |
| `JbufAnswers.GetCountsGap` | components/baresip/src/jbuf.c:587-598 | get counts one loss for a delivery that skips numbers, however many |
| `JbufAnswers.FlushIff` | components/baresip/src/jbuf.c:421-434 | after a put and any deliveries, a buffered packet stays when the next one is put if and only if the source is the same and the packet is not a marked one more than 400 ms later; a source or a time of 0 reads as none |
| `JbufAnswers.FlushRestarts` | components/baresip/src/jbuf.c:421-434 | exactly such a put forgets what was delivered |
| `JbufAnswers.RunFlushes` | components/baresip/src/jbuf.c:714-722 | over every run the flush counter counts all flushes, two for a put that flushes on both grounds |
| `JbufAnswers.RunNotesType` | components/baresip/src/jbuf.c:418-419 | over every run the buffer notes the payload type of the first packet put |
| `JbufAccounting.RunBalanced` | components/baresip/src/jbuf.c:404-726 | on any input, since the last flush: put = duplicates + overflows + gets - underflows + drained + buffered, modulo 2^32; and every node is in one list |
| `JbufAccounting.StartBalanced` | components/baresip/src/jbuf.c:219-275 | a new buffer starts balanced, with an average of zero |
| `JbufAccounting.StoreCounts` | components/baresip/src/jbuf.c:146-182 | which counters a stored packet moves, also when a duplicate steals a node |
| `JbufAccounting.EmaOverflowIff` | components/baresip/src/jbuf.c:347-352 | from any average that 16-bit differences lead to, the 32-bit product is exact if and only if the difference is less than 4096 packets above it |
| `JbufAccounting.EmaFirstOverflow` | components/baresip/src/jbuf.c:347-352 | from zero, 4096 is the first difference that overflows |
| `JbufWitness.AverageOverflows` | components/baresip/src/jbuf.c:347-352 | a run from a new buffer in which the product overflows and the average becomes negative |
| `JbufAccounting.EmaBounded` | components/baresip/src/jbuf.c:347-352 | without such a jump no overflow, and the average stays between its old value and the difference |
| `JbufAccounting.EmaSteps` | components/baresip/src/jbuf.c:349-352 | half of the way up; down three parts in 1024 at a wish of at most one frame, two at two frames and one above, all rounded down; and when exactly it stalls |
| `JbufAccounting.RunEmaBounded` | components/baresip/src/jbuf.c:326-352 | over every run without a jump, with differences of at most d packets, the average stays in 0..d*1024, for every d up to 2^15 |
| `JbufAccounting.RunExactIff` | components/baresip/src/jbuf.c:326-352 | over a whole run no product overflows if and only if no difference jumps |
| `JbufAccounting.CloseIsSmooth` | components/baresip/src/jbuf.c:326-352 | in a run with differences below 4096 packets none jumps |
| `PacketNodes.HeadLoose` | components/baresip/src/jbuf.c:155-178 | dropping the oldest packet leaves its node loose and empty and the other packets as they were |
| `PacketNodes.LooseLinked` | components/baresip/src/jbuf.c:464-524 | filling and linking a loose node inserts one packet and keeps the partition of the nodes |
| `PacketNodes.LooseFreed` | components/baresip/src/jbuf.c:188-194 | a loose node goes back to the pool, each node still in one place |
| `JitterBuffers.AllocBuffer` | components/baresip/src/jbuf.c:219-275 | EINVAL when min exceeds max, else a valid empty buffer, also with no nodes at all |
| `JitterBuffers.JitterBuffer.constructor` | components/baresip/src/jbuf.c:239-275 | all nodes in the pool, holding no payload |
| `JitterBuffers.JitterBuffer.ReleaseHead` | components/baresip/src/jbuf.c:188-194 | the head leaves the list, its node and the reference to its payload are released |
| `JitterBuffers.JitterBuffer.TakePacket` | components/baresip/src/jbuf.c:146-182 | a node from the pool or from the oldest packet, as the model says |
| `JitterBuffers.JitterBuffer.FindPlace` | components/baresip/src/jbuf.c:483-505 | the loop finds the place of the model's search |
| `JitterBuffers.JitterBuffer.SendGnack` | components/baresip/src/jbuf.c:378-392 | the mask loop sets one bit per missing packet after the first, up to 16 |
| `JitterBuffers.JitterBuffer.Adapt` | components/baresip/src/jbuf.c:326-375 | the new average and wish size of the model |
| `JitterBuffers.JitterBuffer.LowerWish` | components/baresip/src/jbuf.c:314-323 | the timer step of the model |
| `JitterBuffers.JitterBuffer.PutPacket` | components/baresip/src/jbuf.c:404-546 | result and whole new state of put; nodes partitioned, and for each payload one reference per buffered packet that has it |
| `JitterBuffers.JitterBuffer.GetPacket` | components/baresip/src/jbuf.c:559-630 | result, packet and whole new state of get; one reference to its payload handed to the caller |
| `JitterBuffers.JitterBuffer.DrainPacket` | components/baresip/src/jbuf.c:641-684 | the same for drain |
| `JitterBuffers.JitterBuffer.FlushAll` | components/baresip/src/jbuf.c:691-726 | the loop releases every packet; whole new state of flush |
| `RtpOverflow.ReceiveFlows` | components/baresip/src/rtprecv.c:440-458 | with min < max and one packet per timestamp, every call ends with nf = n <= wish <= max - 1 |
| `RtpOverflow.NeverOverflows` | components/baresip/src/rtprecv.c:376-462 | over every run, with timers and flushes interleaved, nothing is dropped on overflow and a node is free for the next packet |
| `RtpOverflow.StartFlows` | components/baresip/src/rtprecv.c:376-462 | a new receiver with min < max starts these runs |
| `RtpOverflow.ReceiveFrames` | components/baresip/src/rtprecv.c:440-458 | with frames of any number of packets, every call ends with nf <= wish |
| `RtpLoop.LoopExact` | components/baresip/src/rtprecv.c:323-458 | the loop delivers the oldest packets, just as many as it takes until no more timestamps are buffered than wished for |
| `RtpLoop.ReceiveExact` | components/baresip/src/rtprecv.c:440-458 | so does every received packet of a stream that keeps frames together; get answers EAGAIN, which marks the packet as one to drop, for all of them but the last, and is called once more in vain exactly when nothing was ready, or the last frame was ignored and a packet is left |
| `RtpLoop.CallsPerPacket` | components/baresip/src/rtprecv.c:440-458 | with nothing ignored, one call of get for each packet delivered, and one in vain only if nothing was ready |
| `RtpLoop.Ignored` | components/baresip/src/rtprecv.c:386-398 | a disabled receiver, or a packet with the payload type of RTCP, changes nothing |
| `RtpLoop.OffAndOn` | components/baresip/src/rtprecv.c:386-390 | switched off and on again, the receiver goes on as if nothing had arrived in between |
| `RtpFrames.FramesHold` | components/baresip/src/jbuf.c:526-538 | with at most k packets to a timestamp, n packets make at least n / k frames |
| `RtpFrames.FramesNeverOverflow` | components/baresip/src/rtprecv.c:376-462 | over every run in either mode, with timers and flushes interleaved, at most k packets to a timestamp and k times the largest depth below the pool size, nothing is dropped on overflow and a node is free for the next packet |
| `RtpFrames.StartSettled` | components/baresip/src/rtprecv.c:376-462 | a new receiver with k times the largest depth below the pool size starts these runs |
| `RtpFramesWitness.FramesOverflow` | components/baresip/src/rtprecv.c:376-462 | in either mode, for every k, depth and pool size with k * min >= max, a stream in order that overflows the pool |
| `RtpAdaptWitness.JumpWish` | components/baresip/src/jbuf.c:326-364 | one packet far ahead takes the wish size to max - 1 at once |
| `RtpAdaptWitness.AdaptiveOverflows` | components/baresip/src/rtprecv.c:376-462 | in the adaptive mode, for every depth, pool size and k >= 2, a stream that overflows the pool |
| `RtpAdaptWitness.NoOverflowIff` | components/baresip/src/rtprecv.c:376-462 | on streams with at most k packets to a timestamp the receiver never overflows if and only if k times the largest depth it may wish for, min or in the adaptive mode max - 1, is below the pool size |
| `RtpAdaptWitness.AdaptiveRoom` | components/baresip/src/jbuf.c:342-364 | which in the adaptive mode means one packet to a frame and min below max |
| `RtpLoss.LostCalcStep` | components/baresip/src/rtprecv.c:234-253 | a step of d packets counts d - 1 lost if d is below 3000 and none otherwise, across the 16-bit wrap |
| `RtpLoss.LostCalcBack` | components/baresip/src/rtprecv.c:234-253 | a packet at the reference yields -1, one up to 100 before it -2, the reference left as it was; one from further back is a new start |
| `RtpLoss.Telescopes` | components/baresip/src/rtprecv.c:234-253 | losses reported, packets from the first one received on and packets passed over in long steps add up to the distance travelled; earlier packets report none |
| `RtpLoss.TelescopesFromFirst` | components/baresip/src/rtprecv.c:415-431 | the same sum from the first packet received, or from the first one delivered when the number of the first one received is 0 or the first one delivered is more than 101 before it |
| `RtpLoss.RunCounted` | components/baresip/src/rtprecv.c:323-462 | over every run on one source the receiver delivers strictly upward, and its loss counts are those of the counter on the packets delivered |
| `RtpLoss.SourceCounted` | components/baresip/src/rtprecv.c:415-431 | from the first packet of a source on, the first one ever or one that takes over from another, deliveries and loss counts start empty and are counted from that packet's number |
| `RtpLoss.LossesAddUp` | components/baresip/src/rtprecv.c:323-462 | so for the packets of any source that the receiver delivers through its jitter buffer that sum holds |
| `RtpLoss.LossesExactIff` | components/baresip/src/rtprecv.c:323-462 | for the packets of any source: if none from before the first one received arrives, no more losses are reported than packets are missing, and exactly those if and only if no step is 3000 or more and the first one received has a number other than 0 or is delivered |
| `RtpLoss.SteadyRunExists` | components/baresip/src/rtprecv.c:376-462 | a run that meets all hypotheses of the sum |
| `RtpLoss.NextSourceRun` | components/baresip/src/rtprecv.c:421-431 | a first packet of another source starts such a run, whatever was buffered and counted |
| `RtpLoss.RejectedFlushesIff` | components/baresip/src/rtprecv.c:421-446 | after a first packet of a new source that the payload-type handler rejects, a packet of the old source stays buffered if and only if the number of the old source is 0 |
| `RtpLoss.RejectedCounted` | components/baresip/src/rtprecv.c:415-446 | otherwise losses are counted from the rejected packet on |
| `RtpLossWitness.LossOfFirst` | components/baresip/src/rtprecv.c:234-253 | three packets, the first dropped for want of a node: its loss is reported if and only if its 16-bit number is not 0 |
| `RtpLossWitness.LongStepUnreported` | components/baresip/src/rtprecv.c:234-253 | two packets 3000 or more apart, both delivered, no loss reported |
| `RtpLossWitness.SourcesMixed` | components/baresip/src/rtprecv.c:421-446 | a packet of source 0, a rejected one of source 1 and another of source 1, after which the first and the last are buffered together |
| `RtpReceivers.RtpReceiver.CountLost` | components/baresip/src/rtprecv.c:234-253 | result and new reference of the loss count |
| `RtpReceivers.RtpReceiver.GetFrame` | components/baresip/src/rtprecv.c:323-350 | one frame of the model, in place |
| `RtpReceivers.RtpReceiver.GetFrames` | components/baresip/src/rtprecv.c:454-458 | the loop of the model, in place |
| `RtpReceivers.RtpReceiver.ReceivePacket` | components/baresip/src/rtprecv.c:376-462 | whole new state after a received packet |
| `VideoPacing.PacketTime` | components/baresip/src/video.c:528-566 | despite rounding, one packet moves the target by at most the largest delay |
| `VideoPacing.ProperStep` | components/baresip/src/video.c:549-566 | one iteration: not clamped, not before the rate allows, invariant kept |
| `VideoPacing.RateBound` | components/baresip/src/video.c:515-577 | over a whole run at 3 bit/s or more, bits sent before a packet are less than bitrate * (time since start + 1 microsecond), through all idle resets |
| `VideoPacing.RateBoundIff` | components/baresip/src/video.c:515-577 | that bound, and the dead clamp, hold of every proper run if and only if the rate is at least 3 bit/s |
| `VideoWindow.WindowBound` | components/baresip/src/video.c:515-577 | between any two packets of a run at 3 bit/s or more, bits sent are less than bitrate * (time passed + 1 microsecond, and the time between the two first clock readings) + the burst bits: idle time does not add up |
| `VideoWindow.BurstAtOnce` | components/baresip/src/video.c:515-577 | after an idle time in which the rate would have allowed more than the burst bits, packets of up to the burst bits in all are sent without a wait |
| `VideoWindow.WaitIsDue` | components/baresip/src/video.c:549-566 | a packet waits no longer than until the bits counted since the start are due at the rate |
| `VideoPacing.BurstTime` | components/baresip/src/video.c:529-530 | the burst time is the whole microseconds that the burst bits take at the rate |
| `VideoPacing.DelayTime` | components/baresip/src/video.c:528 | the largest delay is the time of 10240 bits, rounded up past the next whole microsecond |
| `VideoPacing.ClampIsDead` | components/baresip/src/video.c:551-556 | in no iteration is the target further ahead than the largest delay, the time of 10240 bits and a microsecond |
| `VideoPacing.ProperRunExists` | components/baresip/src/video.c:515-577 | two full packets at 1 Mbit/s that meet all hypotheses, the second sent 10240 microseconds after the first |
| `VideoPacing.TimeExactIff` | components/baresip/src/video.c:566 | the time computation is exact if and only if the product fits `size_t` |
| `VideoPacing.DelayFitsIff` | components/baresip/src/video.c:528-556 | the largest delay fits the sleep call if and only if the rate is at least 3 bit/s |
| `VideoPacing.IdleExactIff` | components/baresip/src/video.c:559 | the idle check tells whether the rate would have allowed more than the burst bits since the target if and only if it would have allowed them since the clock was 0 |
| `VideoPacing.SizeWraps` | components/baresip/src/video.c:566 | one full packet on a 32-bit `size_t` against a 64-bit one |
| `VideoPacing.EarlyClockClamps` | components/baresip/src/video.c:549-561 | an early clock after which the clamp is live: sleep and new start are those of the largest delay |
| `VideoPacing.SlowRateCutsSleep` | components/baresip/src/video.c:556 | a rate at which the sleep is cut |
| `VideoQueue.RunOrderly` | components/baresip/src/video.c:362-594 | in every reachable state, packets sent then waiting are the packets queued, and the history is sorted by age, NACKs interleaved |
| `VideoQueue.StartOrderly` | components/baresip/src/video.c:515-537 | a new sender starts these runs |
| `VideoQueue.RoundSends` | components/baresip/src/video.c:540-594 | one round of the thread sends the oldest packet waiting and puts it last into the history |
| `VideoQueue.AllSent` | components/baresip/src/video.c:540-594 | with one round for each packet waiting, all that was queued is sent, in order |
| `VideoQueue.PurgeIsExact` | components/baresip/src/video.c:582-593 | on a sorted history the early exit removes exactly the expired entries |
| `VideoQueue.FinishPurgesExactly` | components/baresip/src/video.c:575-594 | each clean-up of a reachable state does |
| `VideoExpiry.RunKept` | components/baresip/src/video.c:575-594 | in every reachable state, NACKs interleaved: a packet that was sent, and not sent again, is in the history if and only if at most 500000 microseconds lie between its sending and the last clean-up; entries keep the length they were queued with |
| `VideoExpiry.StartKept` | components/baresip/src/video.c:515-537 | a new sender starts these runs |
| `VideoNack.NackPartitions` | components/baresip/src/video.c:926-947 | whatever is asked for, every entry is kept or sent again once, and only listed numbers are sent again |
| `NackExact.NackSelects` | components/baresip/src/video.c:914-947 | on any history, the entries that match by position are sent again and the others stay, both in order |
| `NackExact.NackExactIff` | components/baresip/src/video.c:914-947 | exactly the kept packets that were transmitted under a number asked for are sent again if and only if the first entry with the number asked for first is such a packet, or there is neither; every other entry with a number asked for stands in step with it exactly when it is such a packet; and the number 0 is not in the way |
| `NackExact.NackExactUpTo` | components/baresip/src/video.c:914-947 | where every packet was transmitted, without a number 0: if and only if the first one asked for is kept and no hole lies before the last one asked for and kept |
| `VideoNack.PutReportsGap` | components/baresip/src/jbuf.c:439-480 | put reports a gap exactly when the packet is not late and is numbered more than one after the last one buffered once room is made; never for a packet in order, out of order or there already |
| `VideoNack.RoomKeepsTail` | components/baresip/src/jbuf.c:146-182 | which is the last one buffered before, unless that is the only packet of a full pool |
| `VideoNack.GapNackDecodes` | components/baresip/src/jbuf.c:378-392 | decoded, the feedback lists the missing numbers in order and nothing else |
| `VideoNack.GapNackNames` | components/baresip/src/jbuf.c:378-392 | it names all missing packets if and only if there are at most 17 |
| `VideoNack.GapAsks` | components/baresip/src/jbuf.c:378-392 | for such a gap, the numbers asked for are those of the missing packets |
| `VideoHistory.RunUpward` | components/baresip/src/video.c:515-594 | in every reachable state, NACKs and suppressed transmissions interleaved, the history is a part of the packets sent, in the order of sending, each under the number in use when it was sent |
| `VideoHistory.UpwardNumbers` | components/baresip/src/video.c:575-580 | so its unbounded numbers never fall, and each packet that was transmitted has a greater number than those before it |
| `VideoHistory.OnePerNumber` | components/baresip/src/video.c:571-580 | at most one packet is transmitted under each number |
| `VideoHistory.ResentIsTransmittedIff` | components/baresip/src/video.c:926-947 | the packet sent again under the number asked for first is the one transmitted under it if and only if that one is still in the history |
| `VideoHistory.RunNackExactIff` | components/baresip/src/video.c:903-950 | after any run, the next NACK has exactly the kept packets transmitted under a number it asks for sent again if and only if the condition of `NackExactIff` holds |
| `VideoHistory.RunGapless` | components/baresip/src/video.c:575-594 | until the first NACK the history is the packets sent last, without a gap, transmitted or not |
| `VideoHistory.NackEndToEnd` | components/baresip/src/video.c:903-950 | for a gap of at most 17 packets, exactly the missing packets still kept are sent again if and only if that condition holds |
| `VideoHistory.FirstNackExactIff` | components/baresip/src/video.c:903-950 | for the first NACK after any run: if and only if the first missing packet is kept or none is, no packet that was not transmitted stands before another missing one, and the number 0 is not in the way |
| `VideoHistory.AllAiredForm` | components/baresip/src/video.c:903-950 | where every packet was transmitted: if and only if the first missing packet is kept or none is, and no packet behind the gap in reach of the mask has the number 0 |
| `VideoWitness.FirstExpired` | components/baresip/src/video.c:926-934 | a run after which the first packet asked for has expired and nothing is sent again, although the second is kept |
| `VideoWitness.HoleHidesPacket` | components/baresip/src/video.c:933-947 | a run with two NACKs, the second of which misses a packet asked for and kept behind the hole the first one left |
| `VideoWitness.ZeroSentUnasked` | components/baresip/src/video.c:906-937 | a run after which packet 0 is sent again although it was not asked for |
| `VideoWitness.ZeroBehindHole` | components/baresip/src/video.c:906-937 | packet 0, asked for, is sent again in spite of a hole before it |
| `VideoWitness.SuppressedResent` | components/baresip/src/video.c:575-580 | a run in which a packet that was not transmitted is sent under the number of one that was |
| `VideoSenders.VideoSender.Enqueue` | components/baresip/src/video.c:357-364 | appended to the send queue |
| `VideoSenders.VideoSender.WaitForTarget` | components/baresip/src/video.c:549-564 | the sleep and the start of the model |
| `VideoSenders.VideoSender.PaceNext` | components/baresip/src/video.c:549-566 | whole new pacing state |
| `VideoSenders.VideoSender.SendHead` | components/baresip/src/video.c:544-576 | pacing and queues after sending the head |
| `VideoSenders.VideoSender.FinishSend` | components/baresip/src/video.c:575-594 | move to the history and the clean-up loop |
| `VideoSenders.VideoSender.DecodePids` | components/baresip/src/video.c:914-924 | the array of numbers asked for |
| `VideoSenders.VideoSender.ResendFrom` | components/baresip/src/video.c:933-947 | the loop keeps and sends again as the model says |
| `VideoSenders.VideoSender.AnswerNack` | components/baresip/src/video.c:903-950 | history and packets sent again after a NACK |
| `Timestamp.WrapIsEpochDifference` | components/baresip/src/timestamp.c:24-41 | within half an epoch the result is the difference of the epochs |
| `Timestamp.WrapExactIff` | components/baresip/src/timestamp.c:24-41 | for all timestamps, when exactly it is |
| `Timestamp.TrackedState` | components/baresip/src/video.c:700-732 | over every run the tracker holds the last accepted timestamp and the wraps since the first, backward wraps discarded |
| `Timestamp.ExtensionIsExact` | components/baresip/src/timestamp.c:65-86 | the extended timestamp and the duration are the true ones modulo 2^64 |
| `Timestamp.TimestampRecv.UpdateTimestamp` | components/baresip/src/video.c:700-732 | whole new state of the tracker |
| `CallLines.FirstFreeIs` | components/baresip/src/call.c:573-586 | the number found is the smallest free one; none found means all taken |
| `CallLines.RunDistinct` | components/baresip/src/call.c:933-942 | in every history live calls have distinct numbers in 1..255 |
| `CallLines.FullExactly` | components/baresip/src/call.c:573-586 | allocation fails exactly when 255 calls are live |
| `CallLines.OpenTakes` | components/baresip/src/call.c:933-942 | a new call goes behind the others, which stay as they are, with the smallest number in 1..255 that none has; at 255 calls nothing changes |
| `CallLines.CloseFrees` | components/baresip/src/call.c:340 | closing takes that call off the list, the others stay in order, and its line and no other becomes free |
| `CallLines.CurrentMoves` | components/baresip/src/call.c:3100-3107 | making a call current moves it to the tail, the others stay in order and all keep their lines |
| `CallLines.ClosedLineReused` | components/baresip/src/call.c:573-586 | a closed line is the next one given out if no smaller one is free |
| `CallLines.CallList.FindLine` | components/baresip/src/call.c:3056-3068 | finds a call exactly when one has the number |
| `CallLines.CallList.AssignLine` | components/baresip/src/call.c:573-586 | the nested loops find the smallest free number |
| `CallLines.CallList.NewCall` | components/baresip/src/call.c:933-942 | appended behind the old calls with the smallest free number, or ENOENT exactly at 255 live calls |
| `CallLines.CallList.Destroy` | components/baresip/src/call.c:340 | that call leaves the list, the others stay in order, its line and no other becomes free |
| `CallLines.CallList.SetCurrent` | components/baresip/src/call.c:3100-3107 | that call moves to the tail, the others stay in order with their lines |
| `TonePlayer.ToneRepeats` | components/baresip/src/play.c:97-159 | for any frame sizes, what is copied is a beginning of the repeated tone, and at the end exactly as many copies as asked for, one for a count of 0; a set restart time means the tone is used up |
| `TonePlayer.ToneForEver` | components/baresip/src/play.c:109-115 | with a negative count it never ends and copies whole tones back to back |
| `TonePlayer.PauseLasts` | components/baresip/src/play.c:97-118 | after the frame in which a copy ends, with more to come, the next copy starts in the first frame whose clock reading is at least the end of the tone plus the delay, and not before |
| `TonePlayer.Player.Restart` | components/baresip/src/play.c:97-118 | result and new state at the end of the tone |
| `TonePlayer.Player.WriteTone` | components/baresip/src/play.c:136-153 | at most two reads per frame, and the frame holds what was copied |
| `TonePlayer.EndsIff` | components/baresip/src/play.c:97-153 | in which frame, told before the call, the player comes to its end |
| `TonePlayer.FillsIff` | components/baresip/src/play.c:136-153 | when, told before the call, the tone fills the whole frame |
| `TonePlayer.SilentIff` | components/baresip/src/play.c:124-159 | what the tone does not fill is silent, whatever was there, if and only if the player was at its end, comes to it in this frame, or the tone fills the frame |
| `TonePlayer.PausedFrame` | components/baresip/src/play.c:155-157 | a frame that falls into a pause is left as it was |
| `TonePlayer.Player.Write` | components/baresip/src/play.c:124-159 | whole new state after a frame, and every sample of the frame: copied, silence at the end, as it was in a pause |

## Left out

- Timer arming in the adaptation (components/baresip/src/jbuf.c:366-374): the wish timer may fire at any time in the model, which covers every arming.
- Rounding of `float` in the adaptation: ratios are exact rationals.
- SendGnack: a gap of more than 33 packets shifts a 1 beyond bit 31, which C leaves undefined; the model drops such bits, as conversion to 16 bits does.
- AnswerNack: only the first entry of a feedback message is modelled, because the source reads no other.
- RateBound: requires a clock past the burst time and a bit count that fits `size_t`; where these computations go wrong is stated exactly beside it (`IdleExactIff`, `TimeExactIff`). That the rate is at least 3 bit/s is necessary (`RateBoundIff`).
- RunNackExactIff: supposes that ids tell packets apart, and that the history spans less than 65520 numbers, so that 16-bit numbers stand for one each.
- FirstNackExactIff: supposes the same, and that the history lies within 2^15 numbers of the gap.
- NoOverflowIff: for pools of 2 to 32766 packets, because the stream that fills a larger pool leaves the window in which sequence numbers compare; in the adaptive mode up to 2047 packets, because a larger jump overflows the average.
- LossesAddUp: speaks of the run of one source at a time, without a flush in it, and supposes that no step is so long that it reads as a step back (65436 packets), and that no packet from before a delivered one with number 0 is accepted (`LateAcceptedAfterZero`).
- The release of a delivered payload, which the receiver does after its handlers (components/baresip/src/rtprecv.c:343): the buffer counts it as handed out.
- Flushing of the sender queues on stop, encoding, and the stream state that suppresses a transmission beyond its effect on the sequence number.
- Header extensions, payload-type change, RTCP and the RX thread of the receiver, and the receiver without a jitter buffer.
- Audio timestamp tracking, call set-up, configuration, SDP and the other modules.
- The playback path through an audio source (components/baresip/src/play.c:340-356) and the number cleaner (components/baresip/src/dial_number.c:13-60), which would only add easy members.
