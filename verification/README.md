# A verified model of the pollux-go QUIC stream layer and GM packet codec

This Dafny project models the stream layer of the QUIC fork in `quic-go/` (reassembly, reliable sending, flow
control, stream limits, MTU discovery, scheduling, connection IDs, ClientHello scrambling) and the packet codec and
0-RTT anti-replay cache in `quicgm/`, and proves properties of it for all inputs and all runs.
`dafny verify dfyconfig.toml` checks everything.

Most components come in two modules. One defines the component on values: its state, its steps, the invariant, and the
theorems over every run. The other holds the component in the form of the source: a class whose fields are updated in
place, loops with invariants, arrays where the source works on buffers. Its methods are proved against the first.

| modules | component |
|---|---|
| `GapList`, `FrameSorting`, `FrameQueue`, `SorterRuns` | the frame sorter |
| `StreamFrames`, `ReliableSending`, `SendStreams` | STREAM frames, the sending stream and its send credit |
| `StreamReading`, `ReceiveStreams` | the receiving stream |
| `Transfer` | sender, network and receiver together |
| `FlowControl`, `FlowControllers` | receive and send credit of a connection |
| `OutgoingStreams`, `OutgoingStreamsMaps` | opening streams, with callers that wait |
| `IncomingStreams`, `IncomingStreamsMaps` | streams opened by the peer |
| `MtuDiscovery` | the search for the path MTU |
| `Scheduling`, `Framers` | which stream sends next |
| `ClientHello`, `Scrambling`, `CryptoStreams` | the scrambled ClientHello |
| `ConnectionIds`, `ConnIdManagers` | the peer's connection IDs |
| `Bits`, `Octets`, `Varint`, `PacketNumbers`, `HeaderProtection`, `Packets`, `PacketIO` | the packet codec |
| `AntiReplay` | the anti-replay cache |

## Conventions

- A method that holds a mutex is one atomic step. `OpenStreamSync` and `AcceptStream`, which let go of the lock while they
  wait, are split into the sections between; a waiting `Write` is split into the turns of its loop.
- A `Write` or `Read` that has to wait returns "not yet" and is called again.
- Integers are unbounded. Where the width of the source's integers matters it is written out: 62-bit varints and stream IDs,
  32-bit priority generations, packet numbers and lengths, octets.
- The AEAD, the block cipher and the key derivation are functions given as parameters; opening what was sealed gives the
  payload back, and a mask has sixteen octets (`HeaderProtection.Sound`).
- The clock, smoothed RTT, random numbers, the answers of a write limiter and of `allowWindowIncrease`, and map iteration
  order are parameters or unspecified choices.
- A heap is a sequence from which any entry with the smallest key may come first.

## Assumptions

- Stream offsets stay below `MaxByteCount`: `offset + len < MaxByteCount` for every frame.
- Every frame that was popped is acknowledged or declared lost exactly once, and in `Transfer` only after it was delivered if
  it is acknowledged.
- Frames are popped for packets of at most `MaxPacketBufferSize` octets, the capacity of the pooled frame buffers.
- Retire Prior To is at most the Sequence Number of its frame (section 19.15 of RFC 9000). On a run, the connection ID of a
  preferred address, which comes with the transport parameters, is added before any other.
- The clock does not go backwards.
- The peer does not support RESET_STREAM_AT.
- Theorems over runs cover calls that return no error, since an error closes the connection.

## Where the source does not do what it says

Each of these is proved, with the exact condition under which the code behaves.

- A `Write` that waits while the stream is reset, by `CancelWrite` or by STOP_SENDING, can find room to buffer its rest. It
  then reports success although the data is never sent, exactly if it has no limiter and at most `MaxPacketBufferSize`
  octets left, whatever else was called before its turn. In that case the stream never completes, whatever is called later,
  exactly if it had not completed before that turn: the RESET_STREAM frame was not acknowledged yet, or after STOP_SENDING
  nothing had told the application (`SendStreams.ResetDuringWrite`, `SendStreams.PerformAll`). A reset stream that is not
  stuck like this can complete (`SendStreams.FinishReset`).
- A ClientHello with an ECH extension but no host name is never sent, whatever is written behind it: the comparison that
  sorts the cuts leaves the missing one in front, unless the SNI extension lists another name of at least two octets
  (`Scrambling.EchAloneNeverBegins`, with the octets of one in `Scrambling.EchHelloIsNeverSent`). The scrambling of a
  ClientHello with a host name ends on no run at all exactly if the host name is empty
  (`Scrambling.EmptyHostNameNeverEnds`, `Scrambling.EmptyNameHelloNeverEnds`). Cuts that overlap or touch make octets go
  out twice, and so does an empty write while only the second cut is left, which makes the cuts again
  (`Scrambling.HelloIsSent`).
- A repeated NEW_CONNECTION_ID frame can queue an ID again that was given to a path, although such an ID "cannot be used for
  a different path" (`ConnectionIds.ReuseExactlyWhenRepeated`, and a run in `ConnectionIds.PathIDIsReused`), and can retire
  an ID that is in use, even the active one (`ConnectionIds.RetiresUnusedExactly`, `ConnectionIds.ActiveIDIsRetired`).
- A caller of `AcceptStream` can be left waiting although there is a stream for it, exactly if there may be two or more
  callers at a time (`IncomingStreamsMaps.CallersGetStuckExactlyIfConcurrent`).
- A stream can have two live entries in the framer: exactly if a step makes an entry left behind live again
  (`Scheduling.StepKeepsInvariant`). That takes 2^32 priority changes of one stream, whose generations wrap around
  (`Scheduling.GenerationsWrapAround`), or adding a stream that was removed while its entry is still queued
  (`Scheduling.RemovedStreamReturns`).
- Four octets are documented as always decodable when there is no feedback yet; they are exactly for packet numbers below
  2^32 (`Packets.FirstPacketReachesPeer`).
- Splitting a STREAM frame of 16384 octets or more can put the split point behind its data
  (`StreamFrames.SplitPointCanBeOutside`); frames that fit a packet are never that long.
- A 1-RTT packet whose packet number and payload take less than four octets cannot be sealed (`Packets.OneRTTRoundTrip`), and
  Initial and Handshake packets with lengths above 2^31 - 1 can be sealed but not opened (`Packets.InitialRoundTrip`).

## Model

| member | source | states |
|---|---|---|
| GapList.SubtractIsDifference | quic-go/frame_sorter.go:56-178 | taking a range out of a gap list (the reference for what push does to it) is set difference: exactly the offsets of the range leave |
| GapList.SubtractIsSpliced | quic-go/frame_sorter.go:120-160 | gaps before the first and behind the last one touched survive, those between vanish, and those two are trimmed |
| FrameSorting.DecideIsSound | quic-go/frame_sorter.go:56-112 | a frame that is reported as received has no missing octet; any other one can be inserted |
| FrameSorting.InsertClears | quic-go/frame_sorter.go:85-140 | exactly the entries in the way of the stored frame are deleted, by the replacement loop and deleteConsecutive together |
| FrameSorting.InsertGaps | quic-go/frame_sorter.go:114-160 | the edits of the gap list take the whole frame out of the gaps, although only a part of it may be stored |
| FrameSorting.PushIsCorrect | quic-go/frame_sorter.go:45-178 | a push without error keeps entries and gaps a tiling of the rest of the stream; exactly the frame's octets stop missing, and stored octets come from the frame or an older entry at the same offset |
| FrameSorting.PushSubtracts | quic-go/frame_sorter.go:45-178 | the gap list after a push is the set difference, and too many gaps are reported exactly when that has more than 1000 |
| FrameSorting.PushReleasesOnce | quic-go/frame_sorter.go:45-178 | buffers are conserved by a push: each callback is still in an entry or was invoked once |
| FrameSorting.PopIsCorrect | quic-go/frame_sorter.go:220-232 | a pop keeps the tiling, yields data exactly if the next octet is there, and never passes a gap, so its panic is unreachable |
| FrameSorting.PopConserves | quic-go/frame_sorter.go:220-232 | a pop hands out exactly the callback of the entry it removes |
| FrameSorting.DrainReachesFirstGap | quic-go/frame_sorter.go:220-232 | repeated pops deliver exactly the stream up to the first gap |
| FrameSorting.PeekIsDrain | quic-go/frame_sorter.go:245-274 | peeking shows a prefix of what pops would deliver, or nothing if that is too short |
| SorterRuns.SorterIsSound | quic-go/frame_sorter.go:45-232 | on every run of pushes and pops: tiling, gaps are the offsets never received, every octet popped is that of some frame pushed at that offset, even where overlapping frames disagree, and every callback was invoked, is in an entry or was handed out exactly once |
| FrameQueue.FrameSorter.constructor | quic-go/frame_sorter.go:36-43 | a new sorter is one gap |
| FrameQueue.FrameSorter.FindStartGap | quic-go/frame_sorter.go:180-190 | the loop finds the first gap that ends at or behind the offset; the panic behind it is unreachable |
| FrameQueue.FrameSorter.FindEndGap | quic-go/frame_sorter.go:192-202 | the loop finds the last gap that starts at or before the offset, or the entry before it; the panic is unreachable |
| FrameQueue.FrameSorter.DeleteConsecutive | quic-go/frame_sorter.go:205-218 | deletes a run of adjacent entries and invokes their callbacks |
| FrameQueue.FrameSorter.ReplaceEntries | quic-go/frame_sorter.go:85-112 | the loop removes the entries the frame covers, up to a missing one or one that reaches further |
| FrameQueue.FrameSorter.UpdateGaps | quic-go/frame_sorter.go:120-160 | the in-place edits of gap list and queue compute the specified gaps and entries |
| FrameQueue.FrameSorter.TryPushFrame | quic-go/frame_sorter.go:56-178 | the inner push computes in place exactly the specified result, state and released callbacks |
| FrameQueue.FrameSorter.PushFrame | quic-go/frame_sorter.go:45-54 | a push without error keeps the tiling and exactly the frame's octets stop missing; the buffer of a duplicate is released |
| FrameQueue.FrameSorter.PopFrame | quic-go/frame_sorter.go:220-232 | the entry at the read position leaves, if there is one, and the tiling stays |
| FrameQueue.FrameSorter.PeekBytes | quic-go/frame_sorter.go:245-274 | the two loops return exactly the consecutive octets asked for, or report that there are too few |
| StreamFrames.MaxDataLenFits | quic-go/internal/wire/stream_frame.go:118-154 | a frame with as much data as MaxDataLen allows fits its budget exactly while the length takes at most two octets |
| StreamFrames.MaxDataLenIsMaximal | quic-go/internal/wire/stream_frame.go:118-154 | more data than MaxDataLen allows never fits |
| StreamFrames.SplitPointIsInside | quic-go/internal/wire/stream_frame.go:161-187 | exact condition for the split point to lie inside the frame; met by every frame below 16384 octets |
| StreamFrames.SplitPointCanBeOutside | quic-go/internal/wire/stream_frame.go:161-187 | a frame of 16384 octets whose split point lies behind its data |
| StreamFrames.SplitIsExact | quic-go/internal/wire/stream_frame.go:161-187 | the two parts fit, are not empty, concatenate to the frame, and only the second carries the FIN |
| ReliableSending.StepKeepsInvariant | quic-go/send_stream.go:358-549 | whatever is written, sent, lost, acknowledged, split and resent: acknowledged, in-flight and lost frames cover every octet sent exactly once, with its content, and the FIN at most once, at the end |
| ReliableSending.DrainedMeansAcknowledged | quic-go/send_stream.go:551-577 | with the FIN out and nothing in flight or lost, every octet and the FIN were acknowledged exactly once |
| SendStreams.ConnectionCredit.TryAddBytesSent | quic-go/flow_controller_connection.go:73-82 | credit is taken exactly if it suffices, as in the ledger of FlowControl, and the limit is never passed |
| SendStreams.ConnectionCredit.AddBytesSentWithLimiter | quic-go/flow_controller_connection.go:85-102 | at most what the limiter allows and the limit leaves is taken; whether the limiter was the reason is reported |
| SendStreams.ConnectionCredit.UpdateSendWindow | quic-go/flow_controller_connection.go:105-114 | the limit only rises |
| SendStreams.StreamCredit.TryAddBytesSent | quic-go/flow_controller_stream.go:131-140 | decides as the ledger of FlowControl does: stream and connection are charged the same amount, both or neither |
| SendStreams.StreamCredit.AddBytesSentWithLimiter | quic-go/flow_controller_stream.go:143-154 | decides as the ledger of FlowControl does: both levels are charged what was added, within both limits |
| SendStreams.StreamCredit.IsNewlyBlocked | quic-go/flow_controller_stream.go:165-171 | a limit is reported once, when it is reached |
| SendStreams.StreamCredit.UpdateSendWindow | quic-go/flow_controller_stream.go:122-128 | the limit only rises |
| SendStreams.SendStream.constructor | quic-go/send_stream.go:90-108 | a new stream is valid and has sent nothing |
| SendStreams.SendStream.IsNewlyCompleted | quic-go/send_stream.go:551-577 | true at most once, and exactly when nothing is left to send or to be acknowledged |
| SendStreams.SendStream.BeginWrite | quic-go/send_stream.go:223-250 | the call goes on exactly if the stream is open, the deadline not over and there is data |
| SendStreams.SendStream.BufferData | quic-go/send_stream.go:274-291 | buffering the rest accepts exactly it |
| SendStreams.SendStream.WriteStep | quic-go/send_stream.go:257-341 | when Write returns n, exactly the first n octets of its argument were accepted behind what was written before; n is all of it on success; the call waits exactly if nothing ended it |
| SendStreams.SendStream.EndWrite | quic-go/send_stream.go:258-341 | returning changes nothing that was accepted |
| SendStreams.SendStream.TryWriteAll | quic-go/send_stream.go:150-221 | all of the data is accepted and charged, or nothing; it blocks exactly if the credit does not suffice or a Write is in progress |
| SendStreams.SendStream.Reserve | quic-go/send_stream.go:186-221 | credit is taken for the data and for what was buffered without credit |
| SendStreams.SendStream.PopNewFrame | quic-go/send_stream.go:358-467 | a frame is popped exactly if there is something to send that fits budget and credit, with as much as fits; it holds the next octets and carries the FIN exactly behind the last octet of a closed stream; credit charged always equals what was sent plus what is reserved, on the stream and on the connection even while other streams take credit; STREAM_DATA_BLOCKED once per limit; no more data is reported only if nothing is left, the stream is blocked, or the limiter stopped it |
| SendStreams.SendStream.PopPending | quic-go/send_stream.go:429-507 | as many octets as asked for are popped if there is credit for them, fewer only if the limiter says so |
| SendStreams.SendStream.PopFin | quic-go/send_stream.go:395-404 | a FIN alone is sent when all data was sent before |
| SendStreams.SendStream.PopBuffered | quic-go/send_stream.go:429-507 | octets of the next frame are charged when they are sent unless they were reserved |
| SendStreams.SendStream.SendBuffered | quic-go/send_stream.go:471-497 | splitting the next frame loses no octet |
| SendStreams.SendStream.PopData | quic-go/send_stream.go:429-507 | octets straight from the Write call are charged and accepted as they are sent |
| SendStreams.SendStream.SendData | quic-go/send_stream.go:498-549 | the Write call's data shrinks by exactly what is sent |
| SendStreams.SendStream.PopRetransmission | quic-go/send_stream.go:509-533 | the first lost frame is sent again, whole if it fits, or else a prefix that fits; it takes no credit; nothing is returned only if nothing is lost or nothing fits |
| SendStreams.SendStream.OnAcked | quic-go/send_stream.go:877-896 | the count of outstanding frames equals the frames in flight, so it is never negative; the stream completes exactly when the FIN is out and nothing is in flight or lost, and then every octet and the FIN were acknowledged |
| SendStreams.SendStream.OnLost | quic-go/send_stream.go:898-942 | the frame is queued behind those lost before; without cancellation nothing is dropped |
| SendStreams.SendStream.Close | quic-go/send_stream.go:583-607 | closing accepts and sends nothing, and completes a stream only if it was reset |
| SendStreams.SendStream.Reset | quic-go/send_stream.go:625-636 | the final size equals the credit taken, including reserved data (section 4.5 of RFC 9000) |
| SendStreams.SendStream.CancelWrite | quic-go/send_stream.go:644-713 | the first cancellation queues a reset whose final size is the credit taken; later ones change nothing |
| SendStreams.SendStream.HandleStopSending | quic-go/send_stream.go:735-769 | the same for STOP_SENDING |
| SendStreams.SendStream.PopReset | quic-go/send_stream.go:771-785 | every RESET_STREAM frame sent carries the credit taken as final size |
| SendStreams.SendStream.OnResetAcked | quic-go/send_stream.go:948-968 | the stream completes exactly if nothing is buffered and the application knows of the reset |
| SendStreams.SendStream.OnResetLost | quic-go/send_stream.go:970-984 | the same frame is queued again |
| SendStreams.SendStream.UpdateSendWindow | quic-go/send_stream.go:721-733 | the limit only rises, and waiting data is reported exactly when it did |
| SendStreams.WaitingWrite | quic-go/send_stream.go:168-341 | a Write can wait behind reserved data |
| SendStreams.Perform | quic-go/send_stream.go:150-984 | on a reset stream no call sends buffered data or completes the stream while data is buffered; only a turn of Write buffers data; while a Write waits, only sending, acknowledging or losing the RESET_STREAM frame, Close and CancelWrite move the reset along, and the stream is completed exactly when the frame is acknowledged and the application knows |
| SendStreams.PerformAll | quic-go/send_stream.go:150-984 | whatever sequence of calls is made on a reset stream with buffered data: it stays that way and no call reports completion |
| SendStreams.ResetDuringWrite | quic-go/send_stream.go:257-341 | a Write that waits during a reset, local or remote, reports success for dropped data exactly if it has no limiter and at most a packet buffer left, after any calls; the stream is then stuck for ever, after any later calls, exactly if it had not completed before that turn |
| SendStreams.FinishReset | quic-go/send_stream.go:551-577 | a reset stream can complete exactly if it is not stuck |
| StreamReading.ReceiveFollows | quic-go/receive_stream.go:449-468 | a frame that is a piece of the stream keeps everything the reader holds in its place |
| StreamReading.DequeueFollows | quic-go/receive_stream.go:385-394 | the next frame continues where reading stopped; there is one exactly if the next octet has arrived |
| StreamReading.CopyFollows | quic-go/receive_stream.go:213-247 | what is copied out is the next piece of the stream, and the end is reached only at the final offset |
| StreamReading.EndedMeansAllRead | quic-go/receive_stream.go:158-262 | a reader that has ended has read the whole stream |
| StreamReading.ReceiveShape | quic-go/receive_stream.go:449-468 | nothing is held behind the highest offset that flow control knows of, and a known final offset is that offset |
| ReceiveStreams.ReceiveStream.constructor | quic-go/receive_stream.go:60-74 | a new stream is valid and empty |
| ReceiveStreams.ReceiveStream.IsNewlyCompleted | quic-go/receive_stream.go:137-156 | true at most once, when the final size is known and the stream was cancelled or its end was read |
| ReceiveStreams.ReceiveStream.HandleStreamFrame | quic-go/receive_stream.go:432-468 | without error exactly the frame's octets stop missing, flow control and reader stay consistent, and a piece of the stream keeps the reader following it |
| ReceiveStreams.ReceiveStream.AcceptFrame | quic-go/receive_stream.go:449-468 | exact condition for an error: flow control or too many gaps; otherwise as specified |
| ReceiveStreams.ReceiveStream.HandleReset | quic-go/receive_stream.go:470-516 | everything up to the final size is credited |
| ReceiveStreams.ReceiveStream.CancelRead | quic-go/receive_stream.go:400-430 | STOP_SENDING is queued exactly on the first cancellation of a stream whose end was not read |
| ReceiveStreams.ReceiveStream.DequeueNextFrame | quic-go/receive_stream.go:385-394 | takes the next frame; there is none exactly if the next octet is missing |
| ReceiveStreams.ReceiveStream.CopyOut | quic-go/receive_stream.go:213-247 | copies the next octets and credits exactly them; the end is reached only at the final offset |
| ReceiveStreams.ReceiveStream.ReadPiece | quic-go/receive_stream.go:170-247 | one turn of the read loop copies something, ends, or stops because the next octet is missing |
| ReceiveStreams.ReceiveStream.ReadFrames | quic-go/receive_stream.go:170-262 | the loop returns the next octets, fewer than asked for only at a gap or at the end |
| ReceiveStreams.ReceiveStream.Read | quic-go/receive_stream.go:113-262 | returns the next octets of every stream the reader follows; EOF only when everything up to the final offset was read, and then at the latest on the next call; blocks only if the very next octet is missing; credit given equals what was read |
| Transfer.EventKeepsInvariant | quic-go/send_stream.go:358-549 | every event at sender, network or receiver keeps both ends consistent with one stream of octets |
| Transfer.StreamIsReliable | quic-go/receive_stream.go:158-262 | for every interleaving of writes, sends, losses, acknowledgements, splits, repeated and reordered deliveries and reads: what was read is a prefix of what was written, and after EOF it is all of it |
| Transfer.DrainedSenderMeansAllArrived | quic-go/send_stream.go:551-577 | a sender that has nothing left to send or to be acknowledged has delivered everything: what the receiver has read and can still read is the whole stream, and it knows the end |
| FlowControl.UpdateKeepsWindow | quic-go/flow_controller_base.go:43-75 | a window update never lowers the window; the size grows at most twofold, within its maximum, and only if more than half of it was read since the epoch began |
| FlowControl.UpdateThreshold | quic-go/flow_controller_base.go:35-39 | an update is due exactly when at least a quarter of the window was consumed |
| FlowControl.MinimumKeepsWindow | quic-go/flow_controller_connection.go:151-166 | the connection's size grows within its maximum and its window stays |
| FlowControl.FrameKeepsAccounts | quic-go/flow_controller_stream.go:51-101 | an accepted frame raises stream and connection by the same amount within both windows; a final size is consistent with all offsets |
| FlowControl.StreamUpdateKeepsAccounts | quic-go/flow_controller_stream.go:177-196 | a stream window update changes no count and lowers no window at either level |
| FlowControl.EventKeepsLedger | quic-go/flow_controller_stream.go:51-196 | every event keeps the connection's counts the sums over its streams, and no window falls |
| FlowControl.RunKeepsLedger | quic-go/flow_controller_base.go:31-84 | the same over every run, with all windows and counts only rising |
| FlowControl.CreditIsConserved | quic-go/flow_controller_connection.go:45-166 | on every run from a new connection: sums agree including Abandon, unread data fits the window size, and sizes never pass the larger of initial and maximum |
| FlowControl.DecisionsKeepLimits | quic-go/flow_controller_stream.go:131-154 | each call keeps both limits and charges both accounts the same; without limiter it is refused exactly if one of them lacks the credit, with one it takes the minimum of what limiter, stream and connection allow |
| FlowControl.SendCreditIsConserved | quic-go/flow_controller_connection.go:73-114 | after every sequence of calls, refused or not, the connection is charged the sum of what its streams are charged, no account passes its limit, and neither charges nor limits fall |
| FlowControllers.ConnectionFlowController.constructor | quic-go/flow_controller_connection.go:25-42 | a new controller is valid |
| FlowControllers.ConnectionFlowController.IncrementHighestReceived | quic-go/flow_controller_connection.go:45-62 | counts the increment and reports a violation exactly when the window is passed |
| FlowControllers.ConnectionFlowController.AddBytesRead | quic-go/flow_controller_connection.go:64-70 | counts what was read and says whether an update is due |
| FlowControllers.ConnectionFlowController.GetWindowUpdate | quic-go/flow_controller_connection.go:137-147 | a new limit is returned exactly when one is due, and nothing falls |
| FlowControllers.StreamFlowController.constructor | quic-go/flow_controller_stream.go:27-48 | a new controller is valid |
| FlowControllers.StreamFlowController.UpdateHighestReceived | quic-go/flow_controller_stream.go:51-101 | does the specified accounting on stream and connection in place, with its errors |
| FlowControllers.StreamFlowController.AddBytesRead | quic-go/flow_controller_stream.go:103-110 | credits stream and connection with the same amount |
| FlowControllers.StreamFlowController.Abandon | quic-go/flow_controller_stream.go:112-120 | credits both with exactly what was not read |
| FlowControllers.StreamFlowController.GetWindowUpdate | quic-go/flow_controller_stream.go:177-196 | a new limit is returned exactly when one is due and the final offset is not known |
| OutgoingStreams.StepKeepsInvariant | quic-go/streams_map_outgoing.go:65-253 | every step of every caller, under any cancellation, limit change and close, keeps order, limit and wake-ups |
| OutgoingStreams.StreamsAreOpenedInOrder | quic-go/streams_map_outgoing.go:65-141 | on every run callers get streams in order of arrival, the IDs rise by four and never pass the limit, STREAMS_BLOCKED goes out at most once per limit, and no wake-up is lost |
| OutgoingStreams.FrontCanProceed | quic-go/streams_map_outgoing.go:81-134 | while a stream can be opened the caller at the front can take a step; resuming gives it the next stream and wakes the one behind it |
| OutgoingStreams.ClosedWakesEverybody | quic-go/streams_map_outgoing.go:239-253 | after a close every caller that waits can return, without a stream |
| OutgoingStreams.NoSendOnClosedChannel | quic-go/streams_map_outgoing.go:224-253 | no token is sent on a closed channel |
| OutgoingStreamsMaps.OutgoingStreamsMap.constructor | quic-go/streams_map_outgoing.go:38-63 | a new map is valid and has opened nothing |
| OutgoingStreamsMaps.OutgoingStreamsMap.OpenStream | quic-go/streams_map_outgoing.go:65-79 | a stream is opened exactly if nobody waits and the limit allows it |
| OutgoingStreamsMaps.OutgoingStreamsMap.BeginOpenSync | quic-go/streams_map_outgoing.go:81-99 | opens at once, fails, or joins the end of the queue |
| OutgoingStreamsMaps.OutgoingStreamsMap.CancelWait | quic-go/streams_map_outgoing.go:103-111 | the caller leaves the queue and the wake-up is passed on |
| OutgoingStreamsMaps.OutgoingStreamsMap.ResumeWait | quic-go/streams_map_outgoing.go:115-133 | only the caller at the front resumes; it gets the next stream exactly if there is one |
| OutgoingStreamsMaps.OutgoingStreamsMap.MaybeSendBlockedFrame | quic-go/streams_map_outgoing.go:145-159 | one frame per limit |
| OutgoingStreamsMaps.OutgoingStreamsMap.MaybeUnblockOpenSync | quic-go/streams_map_outgoing.go:224-237 | the front caller gets a token if a stream can be opened |
| OutgoingStreamsMaps.OutgoingStreamsMap.SetMaxStream | quic-go/streams_map_outgoing.go:189-202 | the limit only rises, and the invariant of waiting callers is kept |
| OutgoingStreamsMaps.OutgoingStreamsMap.CloseWithError | quic-go/streams_map_outgoing.go:239-253 | every channel that is waited on is closed |
| OutgoingStreamsMaps.OutgoingStreamsMap.DeleteStream | quic-go/streams_map_outgoing.go:175-187 | fails exactly for a stream that is not there |
| IncomingStreams.StepKeepsInvariant | quic-go/streams_map_incoming.go:73-199 | every step keeps limit, order and number of streams, and the limit never falls |
| IncomingStreams.HeldWithinLimit | quic-go/streams_map_incoming.go:115-199 | at most the configured number of streams is held |
| IncomingStreams.RemoveKeeps | quic-go/streams_map_incoming.go:184-197 | the limit computed from what is held is the initial limit raised once per stream deleted, until the IDs run out, and each raise is advertised |
| IncomingStreams.StreamCreditIsConserved | quic-go/streams_map_incoming.go:73-199 | on every run: the limit, the number of streams held, every opened stream accepted in order exactly once, also if it finished before, and MAX_STREAMS frames for exactly the raises of the limit, in order, the last one being the limit in force |
| IncomingStreamsMaps.IncomingStreamsMap.constructor | quic-go/streams_map_incoming.go:42-71 | a new map is valid |
| IncomingStreamsMaps.IncomingStreamsMap.GetOrOpen | quic-go/streams_map_incoming.go:115-153 | the loop opens all streams up to the one asked for, exactly within the limit; a stream marked for deletion is not returned |
| IncomingStreamsMaps.IncomingStreamsMap.AcceptStream | quic-go/streams_map_incoming.go:73-113 | the next stream is returned exactly if it was opened, and deleted now if it had finished |
| IncomingStreamsMaps.IncomingStreamsMap.RemoveStream | quic-go/streams_map_incoming.go:184-199 | the stream goes, and limit and frames are exactly as specified |
| IncomingStreamsMaps.IncomingStreamsMap.RaiseLimit | quic-go/streams_map_incoming.go:186-197 | a MAX_STREAMS frame with the new limit is queued exactly if there is room and the limit is a stream ID |
| IncomingStreamsMaps.IncomingStreamsMap.Delete | quic-go/streams_map_incoming.go:155-199 | a stream not yet accepted is marked, once; others go; the limit never falls |
| IncomingStreamsMaps.SingleCallerIsWoken | quic-go/streams_map_incoming.go:73-113 | on every run with one caller of AcceptStream at a time, it is never left waiting for a stream that is there |
| IncomingStreamsMaps.TwoCallersCanGetStuck | quic-go/streams_map_incoming.go:73-113 | from a new map, some run with two callers at a time leaves one waiting for a stream that is there |
| IncomingStreamsMaps.CallersGetStuckExactlyIfConcurrent | quic-go/streams_map_incoming.go:73-113 | some run with at most n callers at a time leaves one waiting for a stream that is there, if and only if n is at least two |
| MtuDiscovery.ProbeIsInside | quic-go/mtu_discoverer.go:152-165 | a probe lies between the confirmed size and the upper bound; it repeats the confirmed size only after a loss |
| MtuDiscovery.AckMakesProgress | quic-go/mtu_discoverer.go:186-221 | an acknowledged probe keeps the search state valid and lowers its rank |
| MtuDiscovery.LossMakesProgress | quic-go/mtu_discoverer.go:223-241 | a lost probe keeps the search state valid and lowers its rank |
| MtuDiscovery.ProbeMakesProgress | quic-go/mtu_discoverer.go:114-241 | every resolved probe lowers a well-founded rank, so every search ends |
| MtuDiscovery.SearchIsJustified | quic-go/mtu_discoverer.go:125-241 | the size found is the start or an acknowledged size and never falls; the upper bound falls only below sizes that at least three lost probes did not exceed |
| MtuDiscovery.FindsPathMtu | quic-go/mtu_discoverer.go:125-241 | on a path with a fixed MTU and fewer than three accidental losses the search ends within its precision of that MTU |
| MtuDiscovery.MtuFinder.constructor | quic-go/mtu_discoverer.go:100-123 | a new search has its start size confirmed and nothing lost |
| MtuDiscovery.MtuFinder.Max | quic-go/mtu_discoverer.go:129-136 | the last entry of the lost array is the upper bound |
| MtuDiscovery.MtuFinder.ShouldSendProbe | quic-go/mtu_discoverer.go:142-150 | exactly when no probe is in flight, the search goes on and enough time has passed |
| MtuDiscovery.MtuFinder.GetPing | quic-go/mtu_discoverer.go:152-165 | the probe is halfway between the confirmed size and the upper bound, or after a loss the smallest loss |
| MtuDiscovery.MtuFinder.OnAcked | quic-go/mtu_discoverer.go:186-221 | the array is compacted in place to the losses above the size; probes of an older search are ignored |
| MtuDiscovery.MtuFinder.OnLost | quic-go/mtu_discoverer.go:223-241 | the loss is inserted in place in order, dropping the largest |
| MtuDiscovery.MtuFinder.Reset | quic-go/mtu_discoverer.go:171-177 | the search starts over with another generation |
| MtuDiscovery.MtuFinder.Discover | quic-go/mtu_discoverer.go:114-241 | the loop over probes with arbitrary outcomes terminates in the state the search specifies |
| Scheduling.PriorityRoundTrip | quic-go/send_stream.go:18-28 | urgency, incremental flag and generation are recovered from the 64-bit word, for every signed octet and every 32-bit generation |
| Scheduling.SetPriorityKeeps | quic-go/send_stream.go:804-822 | a priority change makes the queued entry stale and leaves an update to come, exactly if no entry left behind has the new generation |
| Scheduling.UpdateKeeps | quic-go/framer.go:357-377 | the update queues a stream with data again exactly if its priority has changed since, and then it has one live entry, in the right queue |
| Scheduling.AddKeeps | quic-go/framer.go:308-322 | a stream is queued exactly if it is not queued with its priority yet; it then has one live entry exactly if none was left behind by its removal |
| Scheduling.RemoveKeeps | quic-go/framer.go:346-355 | removing a completed stream leaves the other streams and all counts as they are |
| Scheduling.DropStaleKeeps | quic-go/framer.go:399-407 | an entry dropped as stale is never the live one |
| Scheduling.LeaveKeeps | quic-go/framer.go:446-464 | a stream without more data leaves with its only live entry |
| Scheduling.RotateKeeps | quic-go/framer.go:409-415 | a stream with more data stays queued once |
| Scheduling.StepKeepsInvariant | quic-go/framer.go:308-464 | every stream with data has exactly one live entry, in the queue of its priority, or a priority update still to come, after any step if and only if that step makes no old entry live |
| Scheduling.StepKeepsOrder | quic-go/framer.go:308-464 | until generations wrap around, entries left behind have smaller generations, so only the return of a removed stream can make one live |
| Scheduling.NoStreamIsLost | quic-go/framer.go:308-464 | on every run with fewer than 2^32 changes of each priority and no return of a removed stream whose entry is queued: a stream with data and no update to come has exactly one live entry, in the right queue |
| Scheduling.GenerationsWrapAround | quic-go/send_stream.go:804-822 | a run with 2^32 changes of one priority after which the stream has two live entries |
| Scheduling.RemovedStreamReturns | quic-go/framer.go:308-355 | a run without any change on which a stream is removed and added and has two live entries |
| Scheduling.KindsAlternate | quic-go/framer.go:379-444 | after a stream was served it is the turn of the other kind, if there are streams of both |
| Scheduling.RoundRobinAdvances | quic-go/framer.go:390-415 | each pop brings every other incremental entry one place forward |
| Framers.Framer.constructor | quic-go/framer.go:74-81 | a new framer is valid and empty |
| Framers.Framer.SetPriority | quic-go/send_stream.go:804-822 | clips, compares and stores as specified, also when the generation wraps around; exact condition for the invariant to be kept |
| Framers.Framer.UpdateStreamPriority | quic-go/framer.go:357-377 | does the step in place at any time and keeps the invariant |
| Framers.Framer.AddActiveStream | quic-go/framer.go:308-322 | does the step in place, also for a stream that was removed before; exact condition for the invariant to be kept |
| Framers.Framer.RemoveActiveStream | quic-go/framer.go:346-355 | does the step in place and keeps the invariant |
| Framers.Framer.PeekHeap | quic-go/framer.go:417-426 | an entry with the smallest stream ID |
| Framers.Framer.GetNextStreamFrame | quic-go/framer.go:379-464 | serves the stream of the entry whose turn it is if that entry is live and drops the entry otherwise; a served stream stays exactly if it has more data |
| ClientHello.FindHostName | quic-go/sni.go:100-123 | finds the first name of type host_name in the list of its extension and its length, or else the length of the last name listed; fails exactly if the list is malformed |
| ClientHello.SkipToExtensions | quic-go/sni.go:31-83 | finds where the extensions start, and that they lie within the message |
| ClientHello.FindSNIAndECH | quic-go/sni.go:19-136 | the loops compute the first host name, its length or else that of the last name listed, and the first ECH extension, exactly on a buffer that is one well-formed ClientHello; which error it is otherwise |
| ClientHello.ParsedIsThere | quic-go/sni.go:14-136 | the host name found is in an SNI extension behind its type and length, the ECH extension is where it is said to be, and a host name in front of it ends before it |
| ClientHello.EchHelloParsed | quic-go/sni.go:19-136 | the octets of a ClientHello with an ECH extension only |
| ClientHello.EmptyNameHelloParsed | quic-go/sni.go:19-136 | the octets of a ClientHello with an empty host name only |
| Scrambling.PopKeepsInvariant | quic-go/crypto_stream.go:182-249 | every frame popped holds the octets written at its offset, and every octet passed over was sent or is in a cut that is left |
| Scrambling.AppendKeepsInvariant | quic-go/crypto_stream.go:140-144 | data written meanwhile is kept |
| Scrambling.PopKeepsExact | quic-go/crypto_stream.go:182-249 | with cuts that are apart no octet goes out twice |
| Scrambling.PopKeepsDoubled | quic-go/crypto_stream.go:182-249 | with overlapping or adjacent cuts, or a first cut at the very start, an octet goes out twice |
| Scrambling.CuttingAgain | quic-go/crypto_stream.go:140-178 | while only the second cut is left, a write finds the ClientHello again only if it is empty, and then makes both cuts again |
| Scrambling.ScramblingIsLossless | quic-go/crypto_stream.go:140-249 | once scrambling is over, after any pops and writes, every octet before the offset was sent with the right content and sending continues there; each exactly once if and only if the cuts neither overlap nor touch and were made once |
| Scrambling.PopMakesProgress | quic-go/crypto_stream.go:182-249 | for every size of a frame: one is returned exactly if it has room for data, and leaves less to send; otherwise nothing changes |
| Scrambling.FramesWhileScrambling | quic-go/crypto_stream.go:182-249 | while scrambling goes on, the frames sent and the octets left are at most the octets there were, at first and after each new cut |
| Scrambling.PoppingEndsScrambling | quic-go/crypto_stream.go:182-249 | scrambling is over once as many frames were sent as there were octets for each time the cuts were made, however small the frames and whatever was written meanwhile |
| Scrambling.HelloBegins | quic-go/crypto_stream.go:131-180 | a ClientHello with a non-empty host name, or an ECH extension and another name to cut, begins the scrambling of a new stream |
| Scrambling.HostNameApart | quic-go/crypto_stream.go:157-178 | the cuts are apart exactly if there is no ECH extension, the host name comes first, or the cut of the extension ends before that of the name |
| Scrambling.HelloIsSent | quic-go/crypto_stream.go:131-249 | for every ClientHello with a host name of positive length and every run: nothing is lost, scrambling ends, and every octet is sent exactly once if and only if the positions keep the cuts apart and nothing empty is written while only the second is left |
| Scrambling.PartIsBuffered | quic-go/crypto_stream.go:131-149 | a part of a ClientHello is held back |
| Scrambling.HelloInParts | quic-go/crypto_stream.go:131-149 | a ClientHello written in any number of parts is cut like one written at once |
| Scrambling.EchAloneNeverBegins | quic-go/crypto_stream.go:131-180 | after a ClientHello with an ECH extension and any later writes there is data to send if and only if a host name was found or the last name listed has at least two octets |
| Scrambling.EchHelloIsNeverSent | quic-go/crypto_stream.go:131-180 | for the octets of one such ClientHello there never is |
| Scrambling.EmptyHostNameNeverEnds | quic-go/crypto_stream.go:140-249 | for a ClientHello with a host name, scrambling goes on for ever on every run if and only if the host name is empty |
| Scrambling.EmptyNameHelloNeverEnds | quic-go/crypto_stream.go:140-249 | for the octets of one such ClientHello it does |
| CryptoStreams.WriteIsSafe | quic-go/crypto_stream.go:140-178 | whatever was written and found, no cut can be sliced out of range |
| CryptoStreams.PopIsSafe | quic-go/crypto_stream.go:182-249 | no pop slices out of range |
| CryptoStreams.InitialCryptoStream.constructor | quic-go/crypto_stream.go:114-129 | a new stream has no cuts and no data |
| CryptoStreams.InitialCryptoStream.HasMoreData | quic-go/crypto_stream.go:131-138 | a ClientHello that is not complete is held back |
| CryptoStreams.InitialCryptoStream.Write | quic-go/crypto_stream.go:140-180 | does in place what the runs of Scrambling do for a write: appends, and cuts exactly when the buffer is a ClientHello and there is no first cut; an error exactly for a malformed one |
| CryptoStreams.InitialCryptoStream.CutHello | quic-go/crypto_stream.go:157-178 | cuts and sorts as specified |
| CryptoStreams.InitialCryptoStream.PopCryptoFrame | quic-go/crypto_stream.go:182-249 | the loops over the array of cuts pop exactly the specified frame and state |
| CryptoStreams.InitialCryptoStream.PopFromCuts | quic-go/crypto_stream.go:188-219 | sends from the first cut left and finishes behind the last |
| ConnectionIds.InsertIsSorted | quic-go/conn_id_manager.go:137-171 | insertion keeps the queue strictly sorted and fails exactly on a conflicting ID |
| ConnectionIds.UpdateKeepsValid | quic-go/conn_id_manager.go:173-191 | the active number rises and the queue stays above it |
| ConnectionIds.AddKeepsValid | quic-go/conn_id_manager.go:66-135 | the queue stays sorted above active and retired numbers, the active number never falls, and after a frame not retired on arrival nothing below its Retire Prior To is active, queued or on a path; exact condition for an error |
| ConnectionIds.UpdateHasQueue | quic-go/conn_id_manager.go:230-251 | the ID is changed only if there is one in the queue |
| ConnectionIds.StepKeepsValid | quic-go/conn_id_manager.go:62-302 | every step keeps the queue valid and the active number from falling |
| ConnectionIds.QueueIsSafe | quic-go/conn_id_manager.go:66-191 | the same over every run |
| ConnectionIds.StepKeepsIssued | quic-go/conn_id_manager.go:62-302 | no operation uses an ID that the peer has not issued with that sequence number |
| ConnectionIds.ReuseExactlyWhenRepeated | quic-go/conn_id_manager.go:79-135 | an ID given to a path comes back into use exactly if a frame repeats the one given last |
| ConnectionIds.OtherStepsKeepPathsBelow | quic-go/conn_id_manager.go:245-302 | no other operation reuses an ID given to a path |
| ConnectionIds.RetiresUnusedExactly | quic-go/conn_id_manager.go:79-135 | a frame retires an ID in use exactly if it repeats one and is retired on arrival |
| ConnectionIds.ActiveIDIsRetired | quic-go/conn_id_manager.go:79-94 | a run on which the active ID is retired and stays active |
| ConnectionIds.PathIDIsReused | quic-go/conn_id_manager.go:79-135 | a run on which an ID given to a path is queued for another use |
| ConnIdManagers.ConnIDManager.constructor | quic-go/conn_id_manager.go:47-60 | a new manager has an empty queue |
| ConnIdManagers.ConnIDManager.RetirePaths | quic-go/conn_id_manager.go:97-107 | the loop over the map takes exactly the IDs below the number off their paths |
| ConnIdManagers.ConnIDManager.RetireQueued | quic-go/conn_id_manager.go:110-121 | the loop keeps exactly the entries from the number on and retires the others in order |
| ConnIdManagers.ConnIDManager.AddConnectionID | quic-go/conn_id_manager.go:137-171 | fast path and slow path are one sorted insertion; the end of the loop is unreachable |
| ConnIdManagers.ConnIDManager.UpdateConnectionID | quic-go/conn_id_manager.go:173-191 | goes over to the first ID of the queue |
| ConnIdManagers.ConnIDManager.Add | quic-go/conn_id_manager.go:66-135 | keeps the queue valid; nothing below Retire Prior To is left; errors exactly on conflicts or too many IDs |
| ConnIdManagers.ConnIDManager.AddFromPreferredAddress | quic-go/conn_id_manager.go:62-64 | inserts the ID in order at any time, or reports a conflict; the queue stays above active and retired numbers exactly if the first ID is active and at most that one was retired |
| ConnIdManagers.ConnIDManager.GetActive | quic-go/conn_id_manager.go:230-251 | the active number never falls |
| ConnIdManagers.ConnIDManager.GetConnIDForPath | quic-go/conn_id_manager.go:261-287 | the same path gets the same ID; there is none exactly if the path is new and the queue empty |
| ConnIdManagers.ConnIDManager.RetireConnIDForPath | quic-go/conn_id_manager.go:289-302 | the ID is retired and the path forgotten |
| Octets.FromToBigEndian | quicgm/packet.go:256-262 | reading back the octets of a number that fits gives the number |
| Octets.ToFromBigEndian | quicgm/packet.go:256-262 | octets are determined by the number they stand for |
| Octets.ReadBigEndian | quicgm/packet.go:256-262 | the loop computes that number |
| Varint.ReadAfterAppend | quicgm/varint.go:28-86 | every value is read back from its encoding, whatever follows, and its length is the shortest |
| Varint.AcceptedIsEncoding | quicgm/varint.go:43-86 | whatever is accepted is the one encoding of its value, octet for octet |
| Varint.ReadVarintOctets | quicgm/varint.go:65-86 | the loop of the reader computes the specified value and error |
| PacketNumbers.ChosenLenIsMinimal | quicgm/packetnumber.go:31-51 | the width is the smallest whose half window exceeds the gap; an error exactly if there is none |
| PacketNumbers.DecodeIsExact | quicgm/packetnumber.go:56-89 | a receiver whose expectation is within half a window recovers the packet number, for every width |
| PacketNumbers.ChosenLenIsDecodable | quicgm/packetnumber.go:31-89 | the width chosen reaches every receiver that knows the acknowledged packet |
| Bits.LowBits | quicgm/packetnumber.go:56-61 | masking with j ones is the remainder by 2^j, on words of any width |
| Bits.ReplaceLowBits | quicgm/packetnumber.go:73-80 | clearing j low bits and putting a number of j bits there is rounding down to a multiple of 2^j and adding |
| PacketNumbers.BitwiseTruncateIsTruncate | quicgm/packetnumber.go:56-61 | the masking truncation is the remainder by the window, for every width |
| PacketNumbers.BitwiseDecodeIsDecode | quicgm/packetnumber.go:69-89 | the bitwise reconstruction equals the one in div/mod form, for every expectation that fits the word, every truncated number and every width |
| PacketNumbers.AppendPacketNumber | quicgm/packetnumber.go:94-103 | the loop appends the truncated number in big-endian order |
| HeaderProtection.XorIsInvolution | quicgm/packet.go:249-254 | masking an octet twice gives it back |
| HeaderProtection.RemoveUndoesApply | quicgm/packet.go:120-164 | removing header protection gives back the packet and its packet number: the sample is not masked, and the length is read from the unmasked first octet |
| HeaderProtection.UnmaskedNumberFits | quicgm/packet.go:142-164 | for any packet, the number returned fits the length in the unmasked first octet |
| Packets.OpenLongAfterSeal | quicgm/longhandshake.go:21-167 | a protected long-header packet keeps its type bits and fields and opens to number and payload, exactly below the length cap |
| Packets.InitialRoundTrip | quicgm/initial.go:29-198 | sealing succeeds exactly if the fields fit, and opening returns version, source ID, token, number and payload, exactly below the length caps |
| Packets.HandshakeRoundTrip | quicgm/longhandshake.go:21-167 | the same for Handshake packets; another expected connection ID is rejected |
| Packets.OneRTTRoundTrip | quicgm/short.go:27-133 | sealing succeeds exactly if there is enough for the sample, and a receiver that reconstructs the number recovers number and payload |
| Packets.OneRTTReachesPeer | quicgm/short.go:27-133 | a sender that uses the chosen width reaches every receiver that has received the acknowledged packet and is not half a window past this one; sealing fails exactly for payloads too short to sample |
| Packets.FirstPacketReachesPeer | quicgm/packetnumber.go:22-34 | without feedback four octets are used, and a receiver without feedback recovers the number exactly if it is below 2^32 |
| PacketIO.XorHeaderMask | quicgm/packet.go:249-254 | the loop masks exactly the first octet's low bits and the packet number field of the buffer |
| PacketIO.ProtectHeader | quicgm/packet.go:120-135 | applies the protection to the buffer in place, or leaves it unchanged |
| PacketIO.UnprotectHeader | quicgm/packet.go:142-164 | removes the protection in place and returns the packet number field |
| PacketIO.SealInitialPacket | quicgm/initial.go:29-96 | header by appends, encryption and protection in place give the specified packet or error |
| PacketIO.OpenInitialPacket | quicgm/initial.go:102-198 | field by field, the specified result |
| PacketIO.SealHandshakePacket | quicgm/longhandshake.go:21-70 | the specified packet or error |
| PacketIO.OpenHandshakePacket | quicgm/longhandshake.go:77-167 | the specified result |
| PacketIO.OpenLongPacket | quicgm/longhandshake.go:128-167 | what both long-header readers do behind the length field |
| PacketIO.Seal1RTTPacket | quicgm/short.go:27-66 | the specified packet or error |
| PacketIO.Open1RTTPacket | quicgm/short.go:74-133 | the specified result |
| PacketIO.CryptoFrameRoundTrip | quicgm/crypto_frame.go:20-86 | a CRYPTO frame is read back with its offset, data and length whatever follows, exactly if its data is within the cap |
| AntiReplay.NoReplay | quicgm/antireplay.go:99-145 | whatever attempts are made, no digest is accepted twice within a window |
| AntiReplay.CapacityHolds | quicgm/antireplay.go:136-145 | whatever attempts are made, there are never more live digests than the cache may hold |
| AntiReplay.LiveEntryIsUnique | quicgm/antireplay.go:99-145 | counting live digests counts acceptances within the window |
| AntiReplay.TableIsLive | quicgm/antireplay.go:33-51 | the table's keys are exactly the digests the log considers live |
| AntiReplay.MemoryCache.constructor | quicgm/antireplay.go:85-97 | a new cache is empty |
| AntiReplay.MemoryCache.EvictBucket | quicgm/antireplay.go:123-131 | the inner loop drops exactly the digests of the bucket |
| AntiReplay.MemoryCache.Evict | quicgm/antireplay.go:122-132 | the loop over buckets, in any order, leaves exactly the live digests |
| AntiReplay.MemoryCache.Insert | quicgm/antireplay.go:141-144 | table and buckets stay consistent with the log |
| AntiReplay.MemoryCache.Check | quicgm/antireplay.go:99-145 | accepts exactly if the digest is not empty, the age is in range, the digest was not accepted within the window and there is room in it |

## Left out

- RESET_STREAM_AT, SetReliableBoundary: partial delivery after a reset changes most of the send stream's invariants.
- Deadlines are a flag of Write that says they have passed; Read has none. Contexts, timers and buffer pooling are not modelled.
- Connection shutdown (closeForShutdown), rejection of 0-RTT (Handle0RTTRejection, connectionFlowController.Reset): they drop everything.
- ReceiveStream.Peek, SetReceiveFinalSizeCallback and the control frames a receive stream queues; the sorter's Peek is modelled.
- The release of the frame a receive stream is reading: the sorter hands its callback out exactly once.
- The framer's retransmission queue, control frames, path responses and packet assembly (Append), and packet_packer.go.
- The wake-up channels of Write and Read: a turn of their loops may be taken at any time.
- Stateless reset tokens, closing and zero-length connection IDs in the connection ID manager.
- The receive side of crypto streams (HandleCryptoFrame, Finish), which is the frame sorter with a limit.
- GetStream, UpdateSendWindow and EnableResetStreamAt of the outgoing streams map; CloseWithError of the incoming one.
- The rejecting anti-replay cache, whose Check is false.
- SM2, SM3, SM4, AES, HKDF and everything else behind the packet protector; Zero and Keys.
- PacketNumbers.BitwiseDecodeIsDecode: comparisons are on unbounded integers; packet numbers below 2^62 do not reach the sign bit of the source's words.
- FlowControl.UpdateKeepsWindow: the products of window sizes and RTT are exact; the source rounds them in double precision, which is the same below 2^53.
- MtuDiscovery.FindsPathMtu: probes are lost by accident fewer than three times in a search; with more losses the search still ends, at a smaller size.
- HeaderProtection.RemoveUndoesApply: a protector whose keys were erased is not modelled.
