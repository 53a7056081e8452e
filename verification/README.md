# A model of mvfst's transport core

mvfst is an implementation of the QUIC transport protocol (RFC 9000 and RFC 9001) in C++. This
project models the parts of it whose correctness is hardest to see from the code, and proves
properties of the models that hold for every input, every reachable state or every run.
`dafny verify dfyconfig.toml` checks all of it.

Code that changes objects step by step is modelled by classes and loops, and each method is proved
against a function on values; the properties that span operations are then proved about those
functions. A run-time `CHECK` of the source is modelled as an outcome (`CheckFailed`), so that "this
check never fails" and "it fails exactly when" are statements about the model.

## What is modelled

**Stream send side** (`SendBuffers`, `SendBufferProofs`, `StreamSend`, `StreamSendProofs`,
`StreamHistory`, `StreamDelivery`, `SendStreamState`). A stream's pending bytes, retransmission buffer, loss buffer and acknowledged
intervals; packets, their clones and the counters of outstanding packets. The state machine writes,
sends, clones, acknowledges, declares lost and drops in any order. In every reachable state each
position sent is held in exactly one place with the application's own byte, and no check fails; where it
is held follows exactly from the writes, sends, acknowledgements and losses before; and from each state the
whole stream can still be delivered.
`SpuriousLoss`, `SpuriousRuns` and `SpuriousLeftover` add the option that takes late acknowledgements into account;
`ReliableReset`, `ShorterStreams` and `ReliableRuns` add resets with a reliable size, alone and in runs.

**Key update** (`KeyUpdate`, `KeyUpdateProofs`, `KeyUpdateErrors`, `KeyUpdateHistory`, `KeyUpdateState`). Two endpoints
that update their 1-RTT keys over a network that loses, delays and reorders packets.

**Batched writes** (`GsoBatching`, `GsoExact`, `GsoInplaceWriter`, `GsoChainedWriter`, `SendmmsgGso`,
`SendmmsgWriters`). Four batch writers for segmentation offload, two of them working in a shared
buffer, proved to carry the packets of a write loop to the receiver's cutting loop unchanged and in
order, in no more writes than segmentation allows, and never to run out of the buffer.

**Packet numbers and acknowledgements** (`Outstanding`, `PacketNumbers`, `IntervalSets`). The one
list of outstanding packets of three number spaces, the iterator that walks it for an
acknowledgement, numbers skipped on purpose, the implicit acknowledgement, and the interval set that
records received numbers.

**Wire formats** (`Varint`, `PacketNumberCodec`, `HeaderProtection`, `PacketNumberBytes`, `AckFrames`,
`AckWriter`, `AckExtras`, `StreamFrames`, `FrameReaders`, `FrameWriters`, `WireFormat`, `PacketFrames`). Integers, truncated packet
numbers, header protection, the decoders and writers of all frame types, and the loop over a packet's
frames: what a packet is read as tiles it, and what was written into it is what is read.

**Scheduling** (`RoundRobin`, `StreamScheduler`, `WritableBytes`, `PacketSpace`, `FrameSizes`,
`PacketRebuilder`, `WriteLoops`). The cyclic order of control streams, the loop over the write queue under packet space
and flow control, the limits on bytes written, the space of a packet from grant to datagram, and
the cloning of packets.

**Callbacks** (`ByteEvents`, `StreamAsyncTransport`). Byte events that fire or are cancelled exactly
once, and the adapter that offers a stream as an asynchronous transport.

## Where the code does not do what one would expect

Each of these is kept in the model as the code has it, shown by a concrete input or run, and
delimited by a condition that is proved to be exact.

- Taking a late acknowledgement out of the loss buffer can leave an empty entry without FIN
  (`RemoveExact`, `SpuriousExact`, `OptionExactly`), after which cloning a packet fails a check
  (`HuskFailsCheck`). Of several entries that hold parts of the frame only the first is cleared
  (`TakenOutWhole`): a comment relies on contiguous entries being merged, which they are not always
  (`NotMerged`, `AckedByteStaysLost`). The option is off by default.
- A reliable reset shortens buffers in flight. From then on, a step fails a check exactly when it
  acknowledges, in a live packet sent before the reset, a frame with the reset point strictly inside
  (`AckAfterReset`, `EveryResetRun`, `AckAfterResetFailsCheck`).
- A shortened buffer keeps its FIN, and a FIN that waits behind dropped bytes is still sent: either tells a
  wrong final size, exactly when bytes in front of it were given up (`FinAfterReset`,
  `FinSentAfterReset`, `FinTooEarly`).
- An endpoint may start a key update before its peer has received anything of the current phase,
  where section 6.1 of RFC 9001 asks for an acknowledgement first. The peer is then left behind
  (`UpdateLeavesBehind`, `LeftBehindStays`, `SomeoneIsLeftBehind`).
- A pending key update is verified before the incoming packet's own update is handled, so honest
  endpoints can raise the error meant for a misbehaving peer (`ErrorExactly`,
  `HonestAckRaisesError`, `LateAckRaisesError`).
- A batch of the segmentation writers stays within its maximum exactly when the maximum is at least
  two (`BatchesWithinMax`, `TwoInOneBatch`).
- Packet number decoding differs from appendix A.3 of RFC 9000 at one point: with half a window
  expected, a whole window decodes as zero (`DecodeNearest`, `WindowDecodesAsZero`). Encoding takes
  one byte more than a receiver needs in the cases `ShorterFails` excludes.
- The type of a group's STREAM frame has the length bit set in its base value. A group's frame
  written without a length is therefore misread (`RoundTrip`, `GroupFrameIsMisread`).
- The scheduler's comment says that space left in the packet means that the stream ran out of data
  or flow control. Near the boundaries of the length field a byte or more can be left over with data
  still to send (`SpaceLeftMeansDone`, `GapAtSixtyFour`), and a few bytes can be left over that do not hold the
  header of the next lost entry: the stream then leaves the write queue with that entry unsent
  (`SingleStreamExact`, `LeavesWithLossUnsent`).
- A close frame may name any frame type as its cause, but the reader takes only types of one byte, and
  refuses a reason longer than it allows. Stream limits and reliable sizes too large are also written
  and refused (`FrameTravels`, `CloseNamingExtensionIsRefused`).
- Comments in quic/api/QuicPacketScheduler.cpp:1157-1164 and quic/api/QuicGsoBatchWriters.cpp:13-16 say
  that a clone may be larger than a datagram. Every writer asks the builder for its remaining space, so
  none is (`Rebuild`, `BuildPacket`).
- Cloning crypto data without room for a byte of it uses a result that is not there (`CryptoAlone`,
  `LongerHeaderIsUndefined`). A comment means to rule out clones of a PING alone, and the code makes them
  (`PingAloneIsCloned`).
- The shared buffer of the in-place writer is written without a test for room. There is room exactly if it
  holds a batch of the largest packets and batches are of two or more (`RoomExactly`); the server
  allocates 1452 bytes for each packet of a batch (quic/server/QuicServerWorker.cpp:73-74), so this holds
  as long as packets are no longer than that.
- A reset with a reliable size means to cancel the byte events at or above it, but walks from the
  smallest offset and stops at the first event below the size (`ResetCancelExact`,
  `ResetMissesEvent`).
- Shutting down an asynchronous transport before its stream is assigned, with nothing written,
  queues an end that is never announced to the socket (`SetStreamId`, `EndStaysBehind`); the
  immediate shutdown without a stream fails a check (`ShutdownWriteNow`), and so does assigning a
  stream after a close (`CloseBeforeStream`).
- Rounding the writable bytes up to whole packets gives less than was asked for exactly when the
  addition wraps (`RoundUpIsLeast`, `RoundUpWraps`).

## Model

| member | source | states |
|---|---|---|
| StreamSendProofs.EveryRunKeepsBytes | quic/api/QuicTransportFunctions.cpp:606-665 | in every reachable state, each stream position sent so far is acknowledged, in flight or lost, in exactly one of the three, and every buffer holds the bytes the application wrote for it |
| StreamSendProofs.NoCheckFails | quic/api/QuicTransportFunctions.cpp:496-573 | from every reachable state, no step of the send side (writing, sending, cloning, acknowledging, losing, dropping) fails one of its run-time checks |
| StreamSendProofs.CountersConsistent | quic/state/AckHandlers.cpp:411-433 | the consistency checks on outstanding packets, clones and lost packets after an acknowledgement hold in every reachable state |
| StreamSendProofs.ClosedStreamWasDelivered | quic/state/QuicStreamFunctions.cpp:465-478 | a stream that reports all bytes acknowledged has had every byte of the application and its FIN acknowledged |
| StreamHistory.StepMoves | quic/api/QuicTransportFunctions.cpp:606-665 | for every step and every position: acknowledged afterwards if it was before or a live packet carrying it was acknowledged; in flight if it was sent, or was in flight and is not acknowledged or lost; lost if a live packet carrying it was, or was lost before and is not sent; and what becomes of the written bytes and of the packets |
| StreamHistory.LivesEnd | quic/state/AckHandlers.cpp:236-271 | a packet can be processed until it, or a packet cloned from the same one, is acknowledged or lost, and no other step ends its life |
| StreamHistory.RunKeepsWrites | quic/state/QuicStreamFunctions.cpp:28-57 | in every reachable state the stream is the data of all writes in order, and has an end, at that length, exactly when the last write said so |
| StreamHistory.AckedExactly | quic/state/stream/StreamSendHandlers.cpp:131-158 | in every state of a run a position is acknowledged exactly when some step before acknowledged a live packet that carried it |
| StreamHistory.InFlightExactly | quic/api/QuicTransportFunctions.cpp:496-573 | a position is in flight exactly when some step sent it and none since acknowledged or lost a live packet that carried it |
| StreamHistory.LostExactly | quic/loss/QuicLossFunctions.cpp:178-191 | a position is lost exactly when some step lost a live packet that carried it and none since sent it again |
| StreamHistory.ReachedByTrace | quic/api/QuicTransportFunctions.cpp:606-665 | every reachable state ends such a run |
| StreamHistory.ClosedExactly | quic/state/QuicStreamFunctions.cpp:465-478 | in every reachable state the stream reports all bytes acknowledged exactly when its last write was the end and every byte written and the FIN is acknowledged |
| StreamHistory.ScheduledCarries | quic/api/QuicPacketScheduler.cpp:414-448 | the frames of a packet carry exactly the granted fronts of loss entries and of the pending bytes, with the FIN behind a whole one |
| StreamHistory.AckFramesEffect | quic/state/stream/StreamSendHandlers.cpp:131-158 | acknowledging frames in flight acknowledges exactly their positions and leaves the loss buffer alone |
| StreamHistory.LoseFramesEffect | quic/loss/QuicLossFunctions.cpp:178-191 | losing frames in flight makes exactly their positions lost and leaves the acknowledged ones alone |
| StreamDelivery.CanAlwaysDeliver | quic/state/QuicStreamFunctions.cpp:465-478 | no reachable state is stuck: some steps lead from it to a state in which every byte written and the FIN is acknowledged and the stream reports so |
| StreamDelivery.EverythingSent | quic/api/QuicPacketScheduler.cpp:414-448 | one packet granted all lost entries and all pending data leaves nothing lost and nothing pending |
| StreamSendProofs.StepInv | quic/state/AckHandlers.cpp:206-308 | every step keeps the connection invariant over stream, packets, clone groups and counters |
| StreamSendProofs.SendInv | quic/api/QuicPacketScheduler.cpp:414-448 | a packet cut from loss entries and pending data keeps the invariant, and its frames are in flight afterwards |
| StreamSendProofs.WriteScheduled | quic/api/QuicTransportFunctions.cpp:606-665 | writing the scheduled frames one by one succeeds: each is sorted into retransmission or new data, and the buffers end up as scheduled |
| StreamSendProofs.CloneInv | quic/codec/QuicPacketRebuilder.cpp:27-47 | cloning a live packet sends its frames again, moves no bytes, gives both packets one identifier and keeps the invariant |
| StreamSendProofs.RebuildSame | quic/codec/QuicPacketRebuilder.cpp:325-348 | a live packet is rebuilt with exactly the frames it was sent with |
| StreamSendProofs.WriteClones | quic/api/QuicTransportFunctions.cpp:660-665 | the frames of a clone are recognised as clones and leave the stream as it was |
| StreamSendProofs.AckPacketInv | quic/state/AckHandlers.cpp:236-271 | acknowledging a packet passes its checks and keeps the invariant over buffers, clone groups and counters |
| StreamSendProofs.LosePacketInv | quic/loss/QuicLossFunctions.cpp:385-414 | declaring a packet lost passes its checks and keeps the invariant over buffers, clone groups and counters |
| StreamSendProofs.DropLostInv | quic/state/AckHandlers.cpp:463-501 | dropping an old lost packet changes nothing but the set of lost packets |
| StreamSendProofs.AckFramesInv | quic/state/stream/StreamSendHandlers.cpp:131-158 | acknowledging the frames of a live packet removes exactly their buffers and adds exactly their positions |
| StreamSendProofs.LoseFramesInv | quic/loss/QuicLossFunctions.cpp:161-191 | losing the frames of a live packet moves exactly their buffers into the loss buffer |
| StreamSendProofs.GoneCounts | quic/loss/QuicLossFunctions.cpp:389-414 | the counters a processed packet is counted out of are positive, and count the remaining packets afterwards |
| SendBufferProofs.AppWriteInv | quic/state/QuicStreamFunctions.cpp:28-57 | an application write appends its bytes to the stream and to what is pending, sets the end behind them exactly when it is the last, changes nothing else and keeps the buffer invariant |
| SendBufferProofs.NewDataInv | quic/api/QuicTransportFunctions.cpp:496-518 | new data moves from pending to in flight with the FIN only at the final offset, and the invariant stays |
| SendBufferProofs.RetransmitInv | quic/api/QuicTransportFunctions.cpp:542-573 | a retransmission takes the front of a loss entry, or all of it, into flight, and the invariant stays |
| SendBufferProofs.CloneIsClone | quic/api/QuicTransportFunctions.cpp:606-665 | a frame still in flight is neither new data nor found in the loss buffer |
| SendBufferProofs.AckInv | quic/state/stream/StreamSendHandlers.cpp:131-158 | an acknowledged frame in flight passes the three equality checks, its positions become acknowledged and its buffer goes |
| SendBufferProofs.InsertOk | quic/state/StreamData.h:237-253 | inserting a buffer apart from all others, merged or not, keeps the loss buffer sorted and disjoint and adds exactly its positions |
| SendBufferProofs.LoseInv | quic/loss/QuicLossFunctions.cpp:178-191 | a lost frame moves from flight to the loss buffer and the invariant stays |
| SendBufferProofs.ClosedMeansDelivered | quic/state/QuicStreamFunctions.cpp:465-478 | with the FIN sent and all buffers empty, every position and the FIN is acknowledged |
| SpuriousLoss.RemoveExact | quic/state/StreamData.h:255-300 | removing an acknowledged frame from the loss buffer keeps it well formed if and only if it does not leave an empty entry without FIN |
| SpuriousLoss.SpuriousExact | quic/state/AckHandlers.cpp:742-759 | a late acknowledgement of a frame keeps the whole buffer invariant if and only if no such entry is left |
| SpuriousLoss.SpuriousMoves | quic/state/AckHandlers.cpp:742-759 | a late acknowledgement marks exactly the positions of the frame acknowledged and takes exactly those out of the loss buffer that the first overlaid entry holds |
| SpuriousLoss.RemoveHolds | quic/state/StreamData.h:255-300 | position by position, what the removal leaves in the loss buffer |
| SpuriousLoss.StopsAtFirst | quic/state/StreamData.h:262-275 | in a sorted loss buffer the loop stops at the first overlaid entry and misses none |
| SpuriousLoss.TakenOutWhole | quic/state/StreamData.h:255-300 | all positions of a frame with data leave the loss buffer exactly when no other entry than the first overlaid one holds any |
| SpuriousLeftover.AckedByteStaysLost | quic/state/StreamData.h:237-300 | a run after which the late acknowledgement of a packet acknowledges a byte and leaves it in the loss buffer |
| SpuriousLeftover.NotMerged | quic/state/StreamData.h:237-253 | two contiguous entries of the loss buffer that are not merged |
| SpuriousLoss.EveryRunFramesSent | quic/state/AckHandlers.cpp:742-759 | in every reachable state each outstanding packet carries frames of bytes already sent |
| SpuriousLoss.SpuriousAckInv | quic/state/AckHandlers.cpp:721-763 | a late acknowledgement none of whose frames leaves such an entry keeps the connection invariant |
| SpuriousLoss.HuskRunReaches | quic/state/StreamData.h:276-297 | a concrete run after which the late acknowledgement of packet 0 leaves an empty entry |
| SpuriousLoss.HuskFailsCheck | quic/api/QuicTransportFunctions.cpp:542-573 | after that run, cloning a packet fails the check on the retransmission buffer |
| SpuriousRuns.ScheduledFinLast | quic/api/QuicPacketScheduler.cpp:414-448 | the FIN of a packet is on the last of its frames |
| SpuriousRuns.FramesExact | quic/state/AckHandlers.cpp:742-759 | the frames of a packet, taken out one after the other, keep the buffer invariant if and only if the last one leaves no empty entry without FIN |
| SpuriousRuns.LateAckExact | quic/state/AckHandlers.cpp:721-763 | with the option on, a late acknowledgement passes its check and keeps the connection invariant if and only if its packet leaves no such entry |
| SpuriousRuns.OptionExactly | quic/state/AckHandlers.cpp:216-237 | with the option on, every state of a run keeps the connection invariant if and only if no late acknowledgement of the run leaves such an entry |
| ReliableReset.RemoveFromLossBufStartingAtOffset | quic/state/StreamData.h:302-317 | the loop from the back computes the loss buffer trimmed at the reliable size |
| ReliableReset.TrimLossEntries | quic/state/StreamData.h:302-317 | the trimmed loss buffer holds the entries that start before the reliable size, each cut there |
| ReliableReset.ReliablePartKept | quic/state/stream/StreamStateFunctions.cpp:22-31 | after a reliable reset every position before the reliable size is still acknowledged, in flight, lost or pending, and nothing is held behind it |
| ReliableReset.ResetExactly | quic/state/StreamData.h:302-333 | exactly the positions before the reliable size stay in flight or lost as they were; behind them nothing is left but the end of a buffer with the FIN that reached the size |
| ReliableReset.CutKeepsData | quic/state/StreamData.h:319-333 | what is kept of a buffer still holds the application's bytes |
| ReliableReset.AckAfterReset | quic/state/stream/StreamSendHandlers.cpp:139-143 | a frame in flight can be acknowledged after a reliable reset if and only if the reset point is not strictly inside it |
| ReliableReset.AckPacketAfterReset | quic/state/stream/StreamSendHandlers.cpp:139-158 | from every reachable state, acknowledging a packet right after the reset fails a check exactly when the reset point is strictly inside one of its frames |
| ReliableReset.FinAfterReset | quic/state/StreamData.h:325-327 | a buffer that keeps its FIN tells the true final size exactly when it was not shortened |
| ReliableReset.AckAfterResetFailsCheck | quic/state/stream/StreamSendHandlers.cpp:142-142 | a concrete run, reset and acknowledgement that fail the length check |
| ShorterStreams.ShorterInv | quic/state/stream/StreamStateFunctions.cpp:22-31 | what a reliable reset leaves satisfies the whole buffer invariant of a stream to which only the reliable bytes were ever written |
| ShorterStreams.ShorterConnInv | quic/state/stream/StreamStateFunctions.cpp:22-31 | the same for packets, clone groups and counters, with frames sent before seen cut at the reliable size |
| ReliableRuns.StepFollows | quic/state/stream/StreamSendHandlers.cpp:131-158 | after the reset a send, acknowledgement, loss or drop does to the stream what it does to the shorter one, or fails a check exactly at a frame the reset made shorter |
| ReliableRuns.EveryResetRun | quic/state/stream/StreamSendHandlers.cpp:78-158 | whatever came before the reset and comes after it, every state keeps the reliable part with the application bytes, and a step fails a check exactly when it acknowledges, in a live packet sent before, a frame with the reset point strictly inside |
| ReliableRuns.FinSentAfterReset | quic/state/StreamData.h:534-547 | a FIN sent with new data after the reset tells the true final size exactly when no waiting byte was dropped, and otherwise there still is such a frame to send |
| ReliableRuns.FinTooEarly | quic/state/StreamData.h:534-547 | a concrete stream whose FIN goes out with a wrong final size |
| SendStreamState.QuicStreamLike.constructor | quic/state/StreamData.h:121-165 | a new stream holds nothing |
| SendStreamState.QuicStreamLike.WriteData | quic/state/QuicStreamFunctions.cpp:28-57 | the bytes are appended to the stream and to what is pending, the end is set behind them exactly for the last write, and all else stays |
| SendStreamState.QuicStreamLike.Written | quic/api/QuicTransportFunctions.cpp:606-665 | the comparisons of offsets sort every frame the scheduler cuts, and every clone, into the right kind of write; new data and retransmissions put exactly the positions of the frame into flight and out of what is lost, a clone and a frame past the write offset change nothing |
| SendStreamState.QuicStreamLike.FindLost | quic/api/QuicTransportFunctions.cpp:642-648 | the binary search finds the first loss entry at or past the offset |
| SendStreamState.QuicStreamLike.Acked | quic/state/stream/StreamSendHandlers.cpp:131-158 | exactly the positions of the frame are added to the acknowledged ones, its buffer leaves flight, and all else stays |
| SendStreamState.QuicStreamLike.MarkLost | quic/loss/QuicLossFunctions.cpp:178-191 | the buffer of the frame leaves flight, exactly its positions become lost, and all else stays |
| SendStreamState.QuicStreamLike.InsertLost | quic/state/StreamData.h:237-253 | the in-place insertion is the specified one |
| SendStreamState.QuicStreamLike.RemoveLost | quic/state/StreamData.h:255-300 | the in-place removal is the specified one |
| KeyUpdateProofs.EveryRun | quic/codec/QuicReadCodec.cpp:272-397 | every run of two endpoints and a network that drops, delays and reorders keeps the key update invariant |
| KeyUpdateProofs.EpochsStayClose | quic/api/QuicTransportFunctions.cpp:2364-2441 | in every reachable state read and write epoch of an endpoint agree, the next read key is ready, the endpoints are at most one epoch apart, and each phase counter counts the packets of the phase |
| KeyUpdateProofs.CipherChoice | quic/codec/QuicReadCodec.cpp:312-349 | phase bit and packet number pick the right key for every packet of the peer that is not two epochs old |
| KeyUpdateProofs.CipherNeverReplaced | quic/api/QuicTransportFunctions.cpp:2350-2362 | the check against replacing the cipher of the current phase never fails |
| KeyUpdateProofs.VerificationStartsPhase | quic/api/QuicTransportFunctions.cpp:966-978 | the packet awaited for verification is the first of its phase |
| KeyUpdateProofs.OpensExactly | quic/codec/QuicReadCodec.cpp:312-397 | a packet of the peer is opened exactly when it is of the read epoch, the one before, or the next one after something of the read epoch was received |
| KeyUpdateProofs.UpdateLeavesBehind | quic/api/QuicTransportFunctions.cpp:2393-2441 | an update leaves the peer behind exactly when the peer has received nothing of the phase in use |
| KeyUpdateProofs.LeftBehindStays | quic/codec/QuicReadCodec.cpp:474-495 | an endpoint left behind opens nothing sent from then on, cannot update itself, and stays so until an older packet of its read epoch arrives |
| KeyUpdateProofs.DeliverInv | quic/codec/QuicReadCodec.cpp:272-397 | receiving any packet that was sent keeps the invariant |
| KeyUpdateProofs.UpdateInv | quic/api/QuicTransportFunctions.cpp:2393-2441 | starting an update keeps the invariant |
| KeyUpdateErrors.VerifyAcksExact | quic/api/QuicTransportFunctions.cpp:2443-2470 | a sequence of acknowledgements is rejected exactly when one reaches the awaited packet in another phase |
| KeyUpdateProofs.VerifyAcksShape | quic/api/QuicTransportFunctions.cpp:2443-2470 | acknowledgements that are accepted end the pending verification exactly when one of them reaches the awaited packet, and change nothing else |
| KeyUpdateHistory.AwaitedExactly | quic/api/QuicTransportFunctions.cpp:966-978 | in every state of a run, an endpoint awaits a packet exactly when that was the first of a phase it started, and since then it has started no other phase and processed nothing that acknowledges it or a later one |
| KeyUpdateHistory.AwaitedNotAcked | quic/api/QuicTransportFunctions.cpp:2443-2470 | while an acknowledgement is awaited, no packet processed so far in the run has acknowledged the awaited packet or a later one |
| KeyUpdateHistory.PendingExactly | quic/api/QuicTransportFunctions.cpp:2435-2437 | an update is pending exactly when it was started and no acknowledgement of the awaited packet has been processed since |
| KeyUpdateHistory.StepWaits | quic/api/QuicTransportFunctions.cpp:2443-2470 | what any step does to the awaited packet and to the pending update |
| KeyUpdateErrors.PeerNeverAcksWithOldKeys | quic/api/QuicTransportFunctions.cpp:2443-2470 | an honest peer acknowledges a packet only in packets of its epoch or a later one |
| KeyUpdateErrors.ErrorExactly | quic/api/QuicTransportFunctions.cpp:2443-2470 | between honest endpoints the verification raises an error exactly in two named situations |
| KeyUpdateErrors.SomeoneIsLeftBehind | quic/api/QuicTransportFunctions.cpp:2393-2441 | a concrete run that leaves an endpoint behind |
| KeyUpdateErrors.HonestAckRaisesError | quic/client/QuicClientTransportLite.cpp:477-492 | a concrete run after which a genuine acknowledgement raises the error |
| KeyUpdateErrors.LateAckRaisesError | quic/api/QuicTransportFunctions.cpp:2443-2470 | a concrete run for the other situation: a genuine acknowledgement overtaken by an update of the peer raises the error |
| KeyUpdateState.OneRttState.constructor | quic/codec/QuicReadCodec.h:224-231 | an endpoint that has installed its first keys reads and writes in one epoch with the next read key installed |
| KeyUpdateState.OneRttState.ParseShortHeaderPacket | quic/codec/QuicReadCodec.cpp:272-397 | of all packets exactly three kinds open: those of the read epoch, those of the epoch before in front of the first packet of the phase, and those of the next epoch behind it; only the last move the read side ahead, a packet that does not open changes nothing |
| KeyUpdateState.OneRttState.UpdateOneRttWriteCipher | quic/api/QuicTransportFunctions.cpp:2350-2362 | for a read side that is one epoch ahead its check passes, and the write side is in the same epoch and phase afterwards |
| KeyUpdateState.OneRttState.CatchUp | quic/api/QuicTransportFunctions.cpp:2364-2391 | both kinds of update end with both sides in one epoch and the next read key installed |
| KeyUpdateState.OneRttState.MaybeHandleIncomingKeyUpdate | quic/api/QuicTransportFunctions.cpp:2364-2391 | whatever was opened, its check passes and both sides are in one epoch again; without an update of the peer nothing changes |
| KeyUpdateState.OneRttState.AdvanceOneRttReadPhase | quic/codec/QuicReadCodec.cpp:482-495 | the read side ends up exactly one epoch ahead of the write side, with no packet of the new phase received |
| KeyUpdateState.OneRttState.MaybeInitiateKeyUpdate | quic/api/QuicTransportFunctions.cpp:2393-2441 | its check passes and both sides stay in one epoch, which moves up by one, with a verification pending, exactly when enough was sent, something of the phase was received and the first update is not left to the peer |
| KeyUpdateState.OneRttState.ReadPacket | quic/client/QuicClientTransportLite.cpp:477-811 | open, verify, answer: no check fails for any packet whatever; the error is raised exactly for an opened packet of another phase that reaches the awaited one; otherwise both sides are in one epoch afterwards, one higher exactly for a packet of the next epoch, and the verification is over exactly if the awaited packet was reached |
| KeyUpdateState.OneRttState.VerifyAckedPackets | quic/api/QuicTransportFunctions.cpp:2443-2470 | an error exactly when an acknowledgement reaches the awaited packet in another phase; otherwise the verification is over if one reached it, and pending as before if none did, and neither side is disturbed |
| KeyUpdateState.OneRttState.RecordSent | quic/api/QuicTransportFunctions.cpp:966-978 | numbers grow, both sides stay in one epoch, and exactly the first packet of a phase this endpoint started becomes the one whose acknowledgement is awaited |
| GsoBatching.BatchesKeepPackets | quic/api/QuicGsoBatchWriters.cpp:31-70 | for every packet sequence the batches are the packets in order, and each can be cut again by its segment size |
| GsoBatching.BatchesWithinMax | quic/api/QuicGsoBatchWriters.cpp:37-70 | no batch is longer than the maximum, for every packet sequence, if and only if the maximum is at least two |
| GsoExact.BatchesMaximal | quic/api/QuicGsoBatchWriters.cpp:31-70 | every batch but the last has the maximal number of packets, ends with a smaller packet, or is followed by a larger one |
| GsoExact.BatchesExactly | quic/api/QuicGsoBatchWriters.cpp:31-70 | the batches are the one way to cut the packets into segmentable writes within the maximum, none of which ends before it must |
| GsoExact.OneGrouping | quic/api/QuicGsoBatchWriters.cpp:31-70 | there are no two such ways |
| GsoBatching.TwoInOneBatch | quic/api/QuicGsoBatchWriters.cpp:43-52 | with a maximum below two, two equal packets share a batch |
| GsoBatching.GroLoop | quic/client/QuicClientTransportLite.cpp:1558-1591 | the receive loop cuts a datagram train into pieces of the segment size and a rest |
| GsoBatching.CutRestores | quic/client/QuicClientTransportLite.cpp:1565-1591 | cutting a batch gives back its packets |
| GsoBatching.ReceiverGetsPackets | quic/client/QuicClientTransportLite.cpp:1558-1591 | the receiver gets exactly the packets of a write loop, in order |
| GsoBatching.AlwaysRoom | quic/codec/QuicPacketBuilder.cpp:632-648 | after any packets there is room behind the open batch for one more of the largest size, in a buffer that holds a batch of them |
| GsoBatching.RoomExactly | quic/server/QuicServerWorker.cpp:69-75 | for all packet sequences there is room for the next packet if and only if the maximum is at least two and the buffer holds that many of the largest packets |
| GsoInplaceWriter.MoveDown | quic/common/QuicBuffer.cpp:204-211 | an overlapping move keeps the bytes |
| GsoInplaceWriter.SharedBuffer.TrimEnd | quic/common/QuicBuffer.cpp:359-362 | the contents lose their end |
| GsoInplaceWriter.SharedBuffer.Retreat | quic/common/QuicBuffer.cpp:204-211 | the contents move towards the start and stay the same |
| GsoInplaceWriter.SharedBuffer.KeepBehind | quic/api/QuicGsoBatchWriters.cpp:176-191 | after a write the packet that did not fit stands alone at the start of the buffer |
| GsoInplaceWriter.SharedBuffer.Push | quic/api/QuicTransportFunctions.cpp:258-266 | what the builder writes stands behind the contents |
| GsoInplaceWriter.SharedBuffer.Prepend | quic/api/QuicTransportFunctions.cpp:316-318 | bytes in front are taken back in as they were left there |
| GsoInplaceWriter.SharedBuffer.Overwrite | quic/api/QuicTransportFunctions.cpp:308-313 | the contents are replaced and everything in front of them stays |
| GsoInplaceWriter.InplaceBatch.Build | quic/api/QuicTransportFunctions.cpp:250-337 | a packet that is not sent is rolled back to exactly the batched packets; one that is sent stands sealed and protected behind them, and no check on the way fails |
| GsoInplaceWriter.InplaceBatch.SealAndProtect | quic/api/QuicTransportFunctions.cpp:305-337 | trimmed to the body, sealed, and with header and batch taken back around it, the buffer holds the batch and the packet for the wire |
| GsoInplaceWriter.InplaceBatch.NeedsFlush | quic/api/QuicGsoBatchWriters.cpp:98-104 | a flush is asked for exactly when a batch is open and the packet is larger than its first |
| GsoInplaceWriter.InplaceBatch.Append | quic/api/QuicGsoBatchWriters.cpp:106-128 | the pointers into the shared buffer describe the batch the grouping describes |
| GsoInplaceWriter.InplaceBatch.WriteSocket | quic/api/QuicGsoBatchWriters.cpp:136-194 | one socket write carries exactly the open batch, and a packet behind it survives the shift |
| GsoInplaceWriter.InplaceBatch.Flush | quic/api/IoBufQuicBatch.cpp:51-60 | a flush writes the open batch, if any, and empties it |
| GsoInplaceWriter.InplaceBatch.WritePacket | quic/api/IoBufQuicBatch.cpp:27-49 | a packet passes through build, append and flush as one step of the grouping |
| GsoInplaceWriter.InplaceBatch.WriteAll | quic/api/QuicTransportFunctions.cpp:1844-1966 | the loop writes every packet up to the first that is not sent, none ever lacks room in the shared buffer, and the socket log is that of the grouping |
| GsoInplaceWriter.InplaceBatch.WriteLoop | quic/api/QuicTransportFunctions.cpp:1844-1966 | a whole write loop ends with its last packet or at the first that is not sent, gives the socket all packets before in the one grouping in which no batch ends before it must, and leaves the buffer empty |
| GsoInplaceWriter.LogCarriesPackets | quic/api/QuicGsoBatchWriters.cpp:136-194 | cutting what the socket was given yields the packets of the loop, in order |
| GsoChainedWriter.ChainedBatch.Append | quic/api/QuicGsoBatchWriters.cpp:37-70 | the chained writer takes the same decisions as the grouping |
| GsoChainedWriter.ChainedBatch.Flush | quic/api/QuicGsoBatchWriters.cpp:72-84 | the chained writer writes the open batch |
| GsoChainedWriter.ChainedBatch.WritePacket | quic/api/IoBufQuicBatch.cpp:27-49 | a packet through the chained writer is one step of the grouping |
| GsoChainedWriter.ChainedBatch.WriteAll | quic/api/QuicTransportFunctions.cpp:1844-1966 | a whole write loop through the chained writer gives the socket all packets in the one grouping in which no batch ends before it must, each with its segment size, and the receiver cuts them into the packets again |
| SendmmsgGso.GroupsCarryPackets | quic/api/QuicGsoBatchWriters.cpp:237-281 | for every sequence of packets and addresses every message can be segmented, and the messages of an address carry exactly its packets in order and end only where they must |
| SendmmsgGso.MessagesAreBatches | quic/api/QuicGsoBatchWriters.cpp:237-281 | the messages of each address are the batches the single-address writer without a maximum makes of its packets |
| SendmmsgGso.PlaceMaximal | quic/api/QuicGsoBatchWriters.cpp:248-262 | a packet opens a new message only when its address has none, when the last packet of that message is smaller than its first, or when the packet is larger than them |
| SendmmsgGso.PlaceMessages | quic/api/QuicGsoBatchWriters.cpp:245-281 | a packet joins the last message of its address or opens a new one; the other messages stay |
| SendmmsgGso.PlaceOk | quic/api/QuicGsoBatchWriters.cpp:248-262 | a packet joins only the last message of its address, and keeps it segmentable |
| SendmmsgGso.PlaceCarries | quic/api/QuicGsoBatchWriters.cpp:245-281 | placing a packet appends it to what its address is sent and changes nothing for others |
| SendmmsgWriters.ChainedWriter.Append | quic/api/QuicGsoBatchWriters.cpp:237-281 | the chained sendmmsg writer computes the grouping |
| SendmmsgWriters.ChainedWriter.Joinable | quic/api/QuicGsoBatchWriters.cpp:245-251 | its test is the grouping's test |
| SendmmsgWriters.InplaceWriter.Append | quic/api/QuicGsoBatchWriters.cpp:339-393 | the in-place sendmmsg writer computes the same grouping from ranges of a shared buffer |
| SendmmsgWriters.InplaceWriter.Joinable | quic/api/QuicGsoBatchWriters.cpp:355-370 | its test on range lengths is the grouping's test |
| Outstanding.InsertInOrder | quic/api/QuicTransportFunctions.cpp:990-998 | inserting a new packet behind the last smaller number keeps the list non-decreasing overall and strictly increasing in each space |
| Outstanding.InsertAt | quic/api/QuicTransportFunctions.cpp:990-998 | the place found from the back separates smaller numbers from the others |
| Outstanding.MoveToNextValidInAckBlock | quic/state/AckedPacketIterator.cpp:97-120 | the iterator passes over no acknowledged packet and stops at a packet of the space not above the block |
| Outstanding.VisitAcked | quic/state/AckedPacketIterator.cpp:75-95 | run to its end, the iterator visits every packet of the space some block covers, once, from the largest number down, and no other |
| Outstanding.FindRun | quic/state/AckedPacketIterator.cpp:39-50 | the inner loop finds a run of acknowledged packets, each marked for destruction and counted |
| Outstanding.EraseAcked | quic/state/AckedPacketIterator.cpp:36-60 | erasing in place leaves exactly the packets that are not acknowledged, in order, and passes its checks on marks and count for every list whose acknowledged packets are marked |
| Outstanding.MarkAndErase | quic/state/AckHandlers.cpp:206-213 | the marking walk and the erasing walk agree: no check of the second fails, and no mark or count is left over |
| PacketNumbers.ImplicitBlocks | quic/api/QuicTransportFunctions.cpp:2242-2253 | one or two blocks that cover every number of the range except the skipped one |
| PacketNumbers.SentPackets.constructor | quic/state/StateData.h:47-97 | nothing sent |
| PacketNumbers.SentPackets.TakeNumber | quic/api/QuicTransportFunctions.cpp:942-950 | numbers sent grow strictly and never equal a recorded skipped number |
| PacketNumbers.SentPackets.UpdateConnection | quic/api/QuicTransportFunctions.cpp:942-1082 | the list grows by exactly the packets counted as ack-eliciting, in its place, and each counter moves by exactly the packet added |
| PacketNumbers.SentPackets.SkipForProbe | quic/api/QuicTransportFunctions.cpp:1984-1985 | a probe leaves out one number and keeps the invariant |
| PacketNumbers.SentPackets.ProcessAckFrame | quic/state/AckHandlers.cpp:140-166 | an acknowledgement is refused exactly for a future or a skipped number; otherwise the acknowledged packets leave the list, and a skipped number is forgotten exactly when all blocks start more than a thousand past it |
| PacketNumbers.SentPackets.ImplicitAck | quic/api/QuicTransportFunctions.cpp:2211-2256 | an implicit acknowledgement is never refused, and takes every packet of the space, and no other, off the list |
| PacketNumbers.FindBlock | quic/state/AckHandlers.cpp:148-155 | the search finds a block with the number if there is one |
| PacketNumbers.Bounds | quic/api/QuicTransportFunctions.cpp:2223-2242 | the smallest and the largest outstanding number of the space |
| IntervalSets.CanonicalIsUnique | quic/common/IntervalSet.h:134-142 | two lists stand for the same set if and only if they are equal |
| IntervalSets.InsertIsUnion | quic/common/IntervalSet-inl.h:20-41 | insertion keeps the list sorted, disjoint and not adjacent, and is set union |
| IntervalSets.VersionFollowsSet | quic/common/IntervalSet-inl.h:26-39 | the version changes exactly when the set does |
| IntervalSets.WithdrawIsDifference | quic/common/IntervalSet-inl.h:43-78 | withdrawal keeps the list canonical and is set difference |
| IntervalSets.FrontAndBack | quic/common/IntervalSet.h:144-154 | the ends of the list are the least and the greatest member |
| IntervalSets.IntervalSet.constructor | quic/common/IntervalSet.h:90-92 | an empty set |
| IntervalSets.IntervalSet.LowerBound | quic/common/IntervalSet-inl.h:109-115 | the binary search finds the first interval not wholly before |
| IntervalSets.IntervalSet.IntersectingRange | quic/common/IntervalSet-inl.h:106-123 | exactly the intervals that overlap or touch |
| IntervalSets.IntervalSet.Insert | quic/common/IntervalSet-inl.h:20-41 | the set after insertion is the union, and the version moves exactly if it grew |
| IntervalSets.IntervalSet.TryInsert | quic/common/IntervalSet-inl.h:139-154 | the two errors exactly for a reversed or too large interval, otherwise the union |
| IntervalSets.IntervalSet.Withdraw | quic/common/IntervalSet-inl.h:43-78 | the set after withdrawal is the difference |
| IntervalSets.IntervalSet.Contains | quic/common/IntervalSet-inl.h:80-94 | true exactly when every number of the range is in the set |
| Varint.DecodeMeaning | quic/codec/QuicInteger.cpp:30-68 | the word loaded, swapped, masked and shifted is the number of section 16 of RFC 9000 |
| Varint.SwapOfLoad | quic/codec/QuicInteger.cpp:57-66 | swapping the bytes of a word loaded in host order gives the value of its bytes in network order |
| Varint.LoadAndSwap | quic/codec/QuicInteger.cpp:57-66 | the word of a shorter integer with zeros behind it, swapped, has its bytes at the top |
| Varint.RoundTrip | quic/codec/QuicInteger.h:79-97 | a value written in any width that holds it is read back, and what follows stays unread |
| Varint.FixedWidth | quic/codec/QuicInteger.h:79-97 | the fixed-width form is an error exactly for a wrong width, fails its check exactly for a value too large, and is otherwise read back |
| Varint.ReEncode | quic/codec/QuicInteger.cpp:30-68 | every integer read is the encoding of its value in its width |
| Varint.EncodeIsShortest | quic/codec/QuicInteger.h:62-77 | the default form is read back and no byte string with the value is shorter |
| Varint.Size | quic/codec/QuicInteger.cpp:12-24 | the least width that holds the value, none exactly above the limit |
| Varint.Decode | quic/codec/QuicInteger.cpp:30-68 | it reads exactly when the bytes are there and allowed, and otherwise leaves the cursor |
| PacketNumberCodec.DecodeNearest | quic/codec/PacketNumber.cpp:39-59 | a number in the window around the expected one is decoded from its low bytes, except exactly where half a window is expected and a whole window was sent |
| PacketNumberCodec.WindowDecodesAsZero | quic/codec/PacketNumber.cpp:50-53 | the exception at its smallest size: 256 sent in one byte with 128 expected is decoded as 0 |
| PacketNumberCodec.DecodeKeepsBytes | quic/codec/PacketNumber.cpp:39-59 | the result has the bytes received, and is a packet number except exactly where no number is left and the bytes are not of the last half window |
| PacketNumberCodec.LengthIsLeast | quic/codec/PacketNumber.cpp:23-28 | the length is the least whose window exceeds twice the distance |
| PacketNumberCodec.EncodeChecks | quic/codec/PacketNumber.cpp:20-37 | encoding fails its check exactly for a negative distance or one of two to the 31st or more |
| PacketNumberCodec.RoundTrip | quic/codec/PacketNumber.cpp:20-59 | what is sent is read by every receiver that expects a number from the largest acknowledged up to half a window past it |
| PacketNumberCodec.ShorterFails | quic/codec/PacketNumber.cpp:23-28 | exactly when a shorter encoding would fail such a receiver |
| HeaderProtection.XorPacketNumber | quic/codec/PacketNumberCipher.cpp:32-34 | the loop masks exactly the packet number bytes |
| HeaderProtection.Protect | quic/api/QuicTransportFunctions.cpp:1598-1636 | exactly the low four or five bits of the first byte and the bytes of the packet number are combined with the mask of the sample four bytes past the start of the number, each with its own mask byte; too short a body fails the check |
| HeaderProtection.Unprotect | quic/codec/QuicReadCodec.cpp:278-303 | the same bits are combined with the same mask, and the length is read only after the first byte is unmasked; too short a packet is dropped unchanged |
| HeaderProtection.ProtectThenUnprotect | quic/codec/PacketNumberCipher.cpp:16-57 | for every packet and every mask function the reader restores the packet and finds the length |
| HeaderProtection.SameForm | quic/codec/PacketNumberCipher.cpp:59-105 | the form bit survives, so reader and writer mask the same bits |
| HeaderProtection.Restores | quic/codec/PacketNumberCipher.cpp:16-57 | the sample is untouched and masking twice is the identity |
| PacketNumberBytes.LoadTailIsBigEndian | quic/codec/Decode.cpp:1359-1364 | copying the bytes to the end of a zeroed word, loading it in host order and swapping it gives their number in network order |
| PacketNumberBytes.ParseEncoded | quic/codec/Decode.cpp:1354-1370 | the bytes of an encoded number, behind a first byte that tells their length, parse to the number sent |
| PacketNumberBytes.NumberTravels | quic/codec/Decode.cpp:1354-1370 | encoded, protected with any mask, unprotected and parsed, a packet number arrives, for every receiver the encoding is meant for |
| AckFrames.FrameExact | quic/codec/Decode.cpp:169-256 | a frame is accepted exactly when its integers are all there, no number falls below zero and the delay fits; its blocks are those of section 19.3.1 of RFC 9000, descending with gaps |
| AckFrames.BlocksExact | quic/codec/Decode.cpp:228-253 | the blocks read are those of the gaps and lengths, and reading fails only for want of bytes or below zero |
| AckFrames.DecodeBlocks | quic/codec/Decode.cpp:228-253 | the loop computes the specified blocks |
| AckFrames.DecodeAckFrame | quic/codec/Decode.cpp:169-256 | the decoder fails exactly for want of an integer, for a number below zero or for a delay that does not fit, and otherwise gives the blocks of section 19.3.1 of RFC 9000 from the largest down with gaps between them |
| AckFrames.DelayExact | quic/codec/Decode.cpp:142-167 | the delay conversion fails exactly when the product exceeds a signed 64-bit count |
| AckFrames.GappedDescends | quic/state/AckedPacketIterator.cpp:97-120 | the blocks of a decoded frame are what the walk over outstanding packets relies on |
| AckWriter.FrameTravels | quic/codec/QuicWriteCodec.cpp:537-556 | any blocks with gaps are read back as written, with nothing after the frame touched |
| AckWriter.BlocksTravel | quic/codec/QuicWriteCodec.cpp:544-556 | the gap and length fields are read back as the blocks |
| AckWriter.DelayTravels | quic/codec/QuicWriteCodec.cpp:477-480 | a delay survives up to the precision of its exponent |
| AckWriter.LargestGapped | quic/codec/QuicWriteCodec.cpp:252-257 | intervals of a received set, from the largest down, always pass the check that they are two apart |
| AckWriter.LargestCovers | quic/codec/QuicWriteCodec.cpp:466-471 | blocks of all intervals name exactly the numbers received |
| AckWriter.FillFrame | quic/codec/QuicWriteCodec.cpp:240-297 | as many of the largest intervals as fit, and the next one would not |
| AckWriter.MaybeWriteAckBaseFields | quic/codec/QuicWriteCodec.cpp:459-560 | the frame fits the space, holds the most of the largest intervals that fit, and errors and lack of space are reported exactly |
| AckWriter.SizeIsLength | quic/codec/QuicWriteCodec.cpp:284-291 | the bytes counted for the blocks are the bytes written |
| StreamFrames.WrittenFrameFits | quic/codec/QuicWriteCodec.cpp:29-174 | header and data fit the packet; data within buffer and flow control; FIN exactly with the last byte; never an empty frame without FIN |
| StreamFrames.WrittenExactly | quic/codec/QuicWriteCodec.cpp:85-147 | without a hint a frame is written exactly when there is something to send and one byte more than the fixed fields, although the room is computed with a subtraction that may wrap |
| StreamFrames.LengthLeftOut | quic/codec/QuicWriteCodec.cpp:97-106 | the length is left out only when the frame fills the packet |
| StreamFrames.SpaceLeftMeansDone | quic/api/QuicPacketScheduler.cpp:593-606 | space left behind a frame means its stream or flow control is exhausted, except exactly where the length written is shorter than the room kept for it |
| StreamFrames.FrameExactly | quic/codec/QuicWriteCodec.cpp:29-176 | the header and the data length that are written, in closed form, for every request and space |
| StreamFrames.GapAtSixtyFour | quic/codec/QuicWriteCodec.cpp:107-133 | the exception at its smallest size |
| StreamFrames.RoundTrip | quic/codec/Decode.cpp:546-623 | a written frame is read back, with the rest untouched, exactly when it carries a length or belongs to no group |
| StreamFrames.WrittenFrameTravels | quic/codec/QuicWriteCodec.cpp:29-174 | from writer to reader: offset, bytes and end arrive, exactly unless a group's frame left out its length |
| StreamFrames.GroupFrameIsMisread | quic/codec/Decode.cpp:1012-1026 | a group's frame that fills its packet is misread whatever its data |
| StreamFrames.TypeBits | quic/codec/Types.cpp:285-323 | the bits read from a type the builder made; a group's length bit is always set |
| PacketFrames.DecodeRegularPacket | quic/codec/Decode.cpp:1213-1242 | for every packet the loop ends and computes the frames with padding merged |
| PacketFrames.ShortcutIsHarmless | quic/codec/Decode.cpp:49-71 | with the padding shortcut or byte by byte, a packet is refused alike or gives the same frames up to padding counts |
| PacketFrames.RestIsPadding | quic/codec/Decode.cpp:56-70 | comparing each byte with the next finds exactly the all-zero rest |
| PacketFrames.Shrinks | quic/codec/Decode.cpp:911-926 | every frame, of every type, takes at least a byte off the front and no more than is there |
| PacketFrames.FramesTile | quic/codec/Decode.cpp:1213-1242 | a packet that is read falls into non-empty pieces, end to end, one for every frame, and each piece is what its frame was read from |
| PacketFrames.TilesAreRead | quic/codec/Decode.cpp:1213-1242 | conversely, pieces that are each read as a frame make a packet that is read as those frames |
| PacketFrames.ReadIsMerged | quic/codec/Decode.cpp:1225-1240 | padding frames beside each other are counted exactly and no others are merged: expanded again, the frames are those of the packet |
| FrameReaders.ReadOther | quic/codec/Decode.cpp:911-1209 | the switch over all frame types: a frame that is read leaves the end of what was there |
| FrameReaders.FrameSuffix | quic/codec/Decode.cpp:169-256 | an ACK frame takes its bytes off the front |
| FrameReaders.BodySuffix | quic/codec/Decode.cpp:546-623 | a STREAM frame takes its bytes off the front |
| FrameReaders.DecodeDeltas | quic/codec/Decode.cpp:304-320 | the inner loop over the deltas computes the specified ones |
| FrameReaders.DecodeRanges | quic/codec/Decode.cpp:282-324 | the loop over the ranges of receive timestamps computes the specified ranges |
| FrameReaders.DeltasExact | quic/codec/Decode.cpp:304-320 | the deltas are read exactly when all integers are there and each converts, and each is converted in its place |
| FrameReaders.WithinExactly | quic/codec/Decode.cpp:359-366 | the features of an extended acknowledgement are accepted exactly when every bit of them was agreed on |
| AckExtras.AckExtrasTravel | quic/codec/Decode.cpp:344-430 | an acknowledgement with ECN counts, receive timestamps or the feature word, as its type says, is read back with what follows it untouched |
| AckExtras.TimestampsTravel | quic/codec/Decode.cpp:258-326 | receive timestamps are read back, each delta scaled in its place |
| FrameWriters.WrittenExactly | quic/codec/QuicWriteCodec.cpp:831-1137 | a frame is an error exactly for an integer that is too large, and is written exactly when its bytes fit: the size computed beforehand is the size written |
| WireFormat.LayoutIsWire | quic/codec/QuicWriteCodec.cpp:831-1467 | the bytes written of every simple frame are those of section 19 of RFC 9000 and of the extensions, type byte and fields in order |
| WireFormat.AckIsWire | quic/codec/QuicWriteCodec.cpp:460-560 | an ACK frame is the largest number, the delay, the count of ranges, the first range, and gap and length of each other |
| WireFormat.StreamIsWire | quic/codec/QuicWriteCodec.cpp:29-176 | a STREAM frame is its type with the three bits, the stream, the offset unless zero, and the length if told |
| WireFormat.Samples | quic/codec/QuicInteger.cpp:26-62 | the examples of section A.1 of RFC 9000, which fix byte order and length bits |
| FrameWriters.CryptoWritten | quic/codec/QuicWriteCodec.cpp:188-232 | of crypto data the longest part is written that fits with its length in two bytes, as a whole frame; the check on the length fails exactly beyond what two bytes tell |
| FrameWriters.FrameTravels | quic/codec/QuicWriteCodec.cpp:1137-1467 | every written frame is read back with what follows it untouched, or refused, and a condition on its fields says exactly which |
| FrameWriters.ReadIsKept | quic/codec/Decode.cpp:911-1209 | nothing malformed is read: whatever the bytes, a frame that is read is of its type and keeps the limits on its fields |
| FrameWriters.CloseNamingExtensionIsRefused | quic/codec/Decode.cpp:812-818 | a close frame that names an extension frame as its cause is written and refused |
| FrameWriters.ItemTravels | quic/codec/Decode.cpp:911-1209 | simple, ACK, STREAM and padding frames are each read back as they were written, whatever follows |
| FrameWriters.PacketTravels | quic/codec/Decode.cpp:1213-1242 | any packet of acceptable frames is read back frame by frame, with the shortcut up to the counts of padding |
| RoundRobin.StartAt | quic/api/QuicPacketScheduler.cpp:37-58 | the round starts at the first stream not below the one to be served next, or at the first of all |
| RoundRobin.WriteControlStreams | quic/api/QuicPacketScheduler.cpp:486-514 | a round serves consecutive streams of the cycle, none twice, each with a write of its own; it ends after all of them, after one stream a packet, or at a stream cut short, is resumed there, and takes from packet space and connection window exactly what its frames take |
| RoundRobin.TurnWasServed | quic/api/QuicPacketScheduler.cpp:486-514 | every stream of a round had a write of its own, exact in what the streams before it left |
| RoundRobin.RoundEndsFor | quic/api/QuicPacketScheduler.cpp:505-507 | a round that ends early ends at a stream that found the packet full or an error |
| RoundRobin.WriteStreams | quic/api/QuicPacketScheduler.cpp:614-663 | control streams and then the write queue on one packet and one allowance: the new bytes of all streams and the allowance left add up to the allowance at the start |
| RoundRobin.RunIsOneCycle | quic/api/QuicPacketScheduler.cpp:21-110 | however packets cut it, the streams are served in one unbroken cycle |
| RoundRobin.FullTurn | quic/api/QuicPacketScheduler.cpp:97-105 | one turn meets every stream once and ends where it began |
| RoundRobin.EveryStreamGetsItsTurn | quic/api/QuicPacketScheduler.cpp:486-514 | of any as many consecutive servings as there are streams, each stream gets exactly one |
| StreamScheduler.WriteStreamLossBuffers | quic/api/QuicPacketScheduler.cpp:414-448 | the loop sends the specified frames: entries from the first, one frame each, until one does not fit; an empty entry without FIN is an error |
| StreamScheduler.WriteLost | quic/api/QuicPacketScheduler.cpp:417-446 | one loss entry: the frame the header writer allows, an error exactly for an empty entry without FIN, and no frame exactly for want of room |
| StreamScheduler.WriteStreamFrame | quic/api/QuicPacketScheduler.cpp:683-726 | a frame of fresh data within both windows; the packet is found full exactly when the fixed fields leave no byte |
| StreamScheduler.WriteSingleStream | quic/api/QuicPacketScheduler.cpp:453-484 | lost entries get their frames from the first until one has no room, then fresh data both windows allow; the packet is found full exactly when the fixed fields of the first lost entry or of the fresh data leave no byte; a result with space left means that all went out, apart from exactly delimited exceptions; packet space and connection window shrink by exactly what was written |
| StreamScheduler.SingleStreamExact | quic/api/QuicPacketScheduler.cpp:453-484 | which frames a stream gets and with which result, without the loop: a write that ends neither for want of room nor with an error and leaves space has sent every lost entry whole and all fresh data allowed, exactly when it met every lost entry and no length field took less than was kept for it |
| StreamScheduler.FitsExactly | quic/api/QuicPacketScheduler.cpp:683-726 | the frame of a request, in closed form; none exactly when the fixed fields leave no byte |
| StreamScheduler.GoneWasServed | quic/api/QuicPacketScheduler.cpp:593-606 | a stream leaves the write queue only after a write of its own that found room and left space, exact in what the streams before it left |
| StreamScheduler.QueueStopsFor | quic/api/QuicPacketScheduler.cpp:586-592 | a stream that stays first while there is space found the packet full or an error, and nothing was written behind it |
| StreamScheduler.BlockedWasLimited | quic/api/QuicPacketScheduler.cpp:598-602 | a stream is recorded as held back only if it left the queue with the connection window used up |
| StreamScheduler.LeavesWithLossUnsent | quic/api/QuicPacketScheduler.cpp:593-606 | a stream that leaves the queue with a lost entry unsent |
| StreamScheduler.WriteStreams | quic/api/QuicPacketScheduler.cpp:562-612 | the streams that leave the queue were done, and the loop stops only for want of space, at a stream cut short, or after one stream a packet; the packet is never overfilled and fresh data takes exactly its bytes from the connection window |
| ByteEvents.StreamByteEvents.constructor | quic/api/QuicTransportBaseLite.cpp:602-611 | nothing registered |
| ByteEvents.StreamByteEvents.Delivered | quic/state/QuicStreamFunctions.cpp:551-560 | an acknowledged interval is added, the offset reached is the end of what is acknowledged without a gap, and it never falls |
| ByteEvents.StreamByteEvents.Transmitted | quic/state/QuicStreamFunctions.cpp:540-549 | whatever kind of write a frame is, the last position sent is the offset reached, and it never falls |
| ByteEvents.DeliverableIsAll | quic/state/QuicStreamFunctions.cpp:551-560 | the deliverable offset is the largest up to which everything is acknowledged |
| ByteEvents.DeliverableGrows | quic/state/QuicStreamFunctions.cpp:551-560 | whatever is added to the acknowledged intervals, the deliverable offset does not fall |
| ByteEvents.StreamByteEvents.Register | quic/api/QuicTransportBaseLite.cpp:583-651 | once closed it is refused; events stay sorted and without duplicates; a duplicate is refused exactly; a ready event is scheduled exactly |
| ByteEvents.StreamByteEvents.RunScheduled | quic/api/QuicTransportBaseLite.cpp:652-683 | the scheduled call fires the event exactly if the transport is open and the event still waits, and only at or below the offset reached |
| ByteEvents.StreamByteEvents.FireReady | quic/api/QuicTransportBaseLite.cpp:2020-2062 | exactly the events at or below the offset reached fire, once each, in order |
| ByteEvents.StreamByteEvents.Cancel | quic/api/QuicTransportBaseLite.cpp:1823-1880 | events are cancelled from the front while they match, once each |
| ByteEvents.StreamByteEvents.CancelAll | quic/api/QuicTransportBaseLite.cpp:2548-2557 | closing cancels every waiting event once, and from then on, whatever is called, each registration has fired or been cancelled exactly once |
| ByteEvents.CancelBelowIsExact | quic/api/QuicTransportBaseLite.cpp:1847-1866 | cancelling below an offset reaches exactly the matching events |
| ByteEvents.ResetCancelExact | quic/api/QuicTransportBaseLite.cpp:1785-1793 | cancelling at or above a reliable size reaches exactly the matching events if and only if events do not lie on both sides of it |
| ByteEvents.ResetMissesEvent | quic/api/QuicTransportBaseLite.cpp:1785-1793 | two events around the reliable size: neither is cancelled |
| StreamAsyncTransport.AsyncTransport.constructor | quic/api/QuicStreamAsyncTransport.h:155-166 | an open transport without a stream |
| StreamAsyncTransport.AsyncTransport.Write | quic/api/QuicStreamAsyncTransport.cpp:115-184 | a write is accepted exactly before the end, a close and an error; the caller joins the line |
| StreamAsyncTransport.AsyncTransport.SetStreamId | quic/api/QuicStreamAsyncTransport.cpp:38-76 | its checks fail exactly for a second stream or once closing; else waiting callers move up by what the stream had written, and the socket is asked to call exactly when there are any |
| StreamAsyncTransport.AsyncTransport.InvokeWriteCallbacks | quic/api/QuicStreamAsyncTransport.cpp:495-507 | callers are told of success in order and only once their bytes are handed over |
| StreamAsyncTransport.AsyncTransport.FailWrites | quic/api/QuicStreamAsyncTransport.cpp:509-520 | everyone waiting is told of the failure in order |
| StreamAsyncTransport.AsyncTransport.Send | quic/api/QuicStreamAsyncTransport.cpp:456-493 | bytes are handed over in order, the end with the last of them; nobody waits once the end is handed over, so that check never fails |
| StreamAsyncTransport.AsyncTransport.OnStreamWriteReady | quic/api/QuicStreamAsyncTransport.cpp:522-531 | the socket's call keeps the invariant and the announcement of what is left |
| StreamAsyncTransport.AsyncTransport.ShutdownWrite | quic/api/QuicStreamAsyncTransport.cpp:236-247 | the end is queued once and announced if there is a stream |
| StreamAsyncTransport.AsyncTransport.ShutdownWriteNow | quic/api/QuicStreamAsyncTransport.cpp:249-266 | its check for a stream fails exactly without a stream and with the end not handed over; the stream is reset exactly when there is one and its end could not be handed over |
| StreamAsyncTransport.AsyncTransport.Close | quic/api/QuicStreamAsyncTransport.cpp:186-199 | whatever the state, the end is queued and announced, and the transport is closing |
| StreamAsyncTransport.AsyncTransport.CloseNow | quic/api/QuicStreamAsyncTransport.cpp:201-214 | with or without a stream no check fails, everyone waiting is told, and the transport is closed |
| StreamAsyncTransport.AsyncTransport.CloseNowImpl | quic/api/QuicStreamAsyncTransport.cpp:544-566 | everyone waiting is told, nothing is handed over, and no write is accepted again |
| StreamAsyncTransport.EndStaysBehind | quic/api/QuicStreamAsyncTransport.cpp:38-77 | shutting down before the stream is assigned, with nothing written, queues an end that is never announced |
| StreamAsyncTransport.CloseBeforeStream | quic/api/QuicStreamAsyncTransport.cpp:38-40 | closing before the stream is assigned makes the assignment fail its check |
| WritableBytes.LimitIsExact | quic/api/QuicTransportFunctions.cpp:95-112 | bytes are granted exactly while the limit is not reached, then at least a packet |
| WritableBytes.RoundUpIsLeast | quic/api/QuicTransportFunctions.cpp:109-111 | rounding gives the fewest whole packets as long as the addition does not wrap |
| WritableBytes.RoundUpWraps | quic/api/QuicTransportFunctions.cpp:1143-1146 | past that point it gives less than was asked for |
| WritableBytes.RoundUpTwice | quic/api/QuicTransportFunctions.cpp:1143-1146 | a rounded amount stays |
| WritableBytes.WithinEveryLimit | quic/api/QuicTransportFunctions.cpp:1104-1147 | for every path, limit, window and throttle: the grant is less than a packet above each, is whole packets or unlimited, and is below what they allow together exactly when the rounding wraps |
| WritableBytes.MostWithinLimits | quic/api/QuicTransportFunctions.cpp:1104-1147 | what is rounded is the most that is within the limit of the client or of the path, the congestion window with its excess in per cent, and the throttle |
| WritableBytes.BelowEachLimit | quic/api/QuicTransportFunctions.cpp:1104-1147 | by the inputs themselves: the grant is less than a packet above the path, above what is left of the limit, above the congestion window with its excess, and above the throttle |
| WritableBytes.GrantsExactly | quic/api/QuicTransportFunctions.cpp:1104-1147 | and no less: all of it if that is the largest word, else the fewest whole packets that hold the most within every limit |
| WritableBytes.RoundUpBelow | quic/api/QuicTransportFunctions.cpp:1143-1146 | whatever is rounded, the result is whole packets and less than one above it |
| PacketSpace.TakenFits | quic/codec/QuicWriteCodec.cpp:29-176 | a frame takes no more than the space shown to its writer |
| PacketSpace.PacketBuilder.constructor | quic/codec/QuicPacketBuilder.cpp:99-130 | header and cipher overhead come off the datagram first |
| PacketSpace.PacketBuilder.ScheduleFrames | quic/api/QuicPacketScheduler.cpp:233-382 | what a packet holds, piece by piece: fixed padding, first frames, an acknowledgement if it fits, the other frames, padding; frames that are neither acknowledgements nor padding take no more than the writable bytes leave behind the header, and the datagram is never overfilled |
| PacketSpace.PacketBuilder.WriteAck | quic/api/QuicPacketScheduler.cpp:276-300 | an acknowledgement is put in exactly when its numbers can be encoded and the largest interval fits |
| PacketSpace.EmptyExactly | quic/api/QuicPacketScheduler.cpp:233-382 | a packet is empty exactly when there is no padding to start with and nothing pending fits |
| FrameSizes.FixedTakesBytes | quic/codec/QuicWriteCodec.cpp:831-1137 | a frame of known size goes in exactly when its writer writes it, and takes the bytes written |
| FrameSizes.CryptoTakesBytes | quic/codec/QuicWriteCodec.cpp:188-232 | crypto data takes the bytes its writer writes |
| FrameSizes.StreamTakesFrame | quic/codec/QuicWriteCodec.cpp:29-176 | stream data takes the frame the scheduler counts on |
| PacketRebuilder.Rebuild | quic/codec/QuicPacketRebuilder.cpp:49-299 | there is a clone exactly when every frame goes on and one is written that is neither padding nor an acknowledgement; it holds exactly the frames written, then an acknowledgement and, at the Initial level, padding to the end; the error and the use of a missing value are exact |
| PacketRebuilder.MissingExactly | quic/codec/QuicPacketRebuilder.cpp:75-265 | of the frames of a clone exactly acknowledgements, frames with nothing left to send, and window updates without room are missing |
| PacketRebuilder.FateExactly | quic/codec/QuicPacketRebuilder.cpp:75-265 | a frame goes on exactly when the frames before it leave the room it needs, and takes its own size; a window update goes on without room |
| PacketRebuilder.WholeStreamFrame | quic/codec/QuicPacketRebuilder.cpp:88-143 | a stream frame is cloned exactly when header, data and the room kept for its length fit |
| PacketRebuilder.ShortenedStreamStops | quic/codec/QuicPacketRebuilder.cpp:88-143 | a stream frame of which less is in flight than it carried ends the clone |
| PacketRebuilder.WroteFits | quic/codec/QuicPacketRebuilder.cpp:75-265 | no frame of a clone takes more than the space left |
| PacketRebuilder.CryptoAlone | quic/codec/QuicPacketRebuilder.cpp:144-165 | crypto data is cloned exactly when all of it fits; when not a byte does, the missing result is used |
| PacketRebuilder.LongerHeaderIsUndefined | quic/codec/QuicPacketRebuilder.cpp:160-161 | crypto data that filled its packet, and a header one byte longer |
| PacketRebuilder.PingAloneIsCloned | quic/codec/QuicPacketRebuilder.cpp:280-285 | a packet of a PING alone has a clone |
| WriteLoops.BuildPacket | quic/api/QuicTransportFunctions.cpp:1844-1856 | a packet is built exactly when there is one to build: below the limit anything that fits the datagram or a clone that goes on whole, at the limit only padding and acknowledgements; no packet is larger than a datagram |
| WriteLoops.WriteLoop | quic/api/QuicTransportFunctions.cpp:1844-1966 | for an unvalidated client the limit is passed by less than one packet and the packets of pure acknowledgements, whatever is pending, and the loop ends early only where there is no packet to build |
| WriteLoops.GrantIsWholePacket | quic/api/QuicTransportFunctions.cpp:95-112 | below the limit a whole datagram is granted, at the limit nothing |

## Left out

- Sockets, timers, randomness, congestion control and pacing: their answers are parameters of the steps.
- AEAD and TLS: a packet of an epoch opens with the key of that epoch and with no other; a header mask is any function of the sample.
- Failures of deriving the next keys, and the fatal paths after them.
- DSR streams and their buffer metadata, which repeat the operations on real buffers.
- The send side is modelled for one stream; frames of other streams and control frames in the same packets are not part of it.
- The policy that disables retransmission for some stream groups.
- The order in which one ACK frame's packets have their frames processed is fixed in the model of the send side; counters and buffers do not depend on it.
- KeyUpdate: packet numbers are known exactly, because truncated numbers are modelled on their own in PacketNumberCodec.
- The receive side: reassembly, flow control credit and stream states after the receiving handlers.
- Errors of the socket in batch writes, and the path for two address families.
- PacketNumbers.Bounds: the smallest and largest number stand for the ends of an interval set of all numbers, whose ends FrontAndBack shows to be these.
- PacketNumbers: the transport closes itself when numbers reach two to the 62nd; the model's numbers are unbounded.
- IntervalSets: the version counter is unbounded.
- ReliableRuns.EveryResetRun: not for a FIN that waits behind bytes the reset drops; that case is FinSentAfterReset. Clones made after the reset leave the stream's frames out and are not steps of the run.
- GsoInplaceWriter.InplaceBatch.WriteLoop: for a buffer that holds a batch and batches of at least two, which RoomExactly shows to be needed; batches of one use another writer.
- PacketRebuilder: which frames have nothing left to send is given with each frame.
- AckWriter: choosing which receive timestamps to write behind the blocks; their bytes, and reading them, are in AckExtras.
- FrameReaders: the packet is one contiguous buffer.
- FrameWriters: KNOB frames have the length of their blob.
- StreamScheduler: the write queue is its order of streams, so its priorities and transactions are not modelled.
- RoundRobin.EveryStreamGetsItsTurn: for a set of streams that does not change between the packets.
- ByteEvents: the calls into the application are a log; a callback that calls back is the next step.
- StreamAsyncTransport: a callback that writes again from within a callback, the reading half, and a socket that refuses the request to be called.
- PacketSpace: datagrams of more than 16383 bytes, for which the writer of crypto data has no room for its length field; handshake packets' length field is part of the header's size.
- PacketNumbers.SentPackets.ProcessAckFrame: the counts of outstanding packets and clones are not counted down here, because that is modelled with clones in StreamSendProofs (AckPacketInv, CountersConsistent).
- Connection ids, version negotiation, stateless resets, path validation and migration, the queue of datagrams, and statistics.
