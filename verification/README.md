# NanoKVM-RDP: a Dafny model of its protocols

The project models the parts of the gateway and the agent whose correctness is a statement about whole
runs, and proves it:

- **AVC path** (`VideoSource.dfy`, `FrameFlow.dfy`, `AvcPath.dfy`, `AvcPayload.dfy`): loss gating of received access
  units, flow control and pacing by frame acknowledgements, the video thread that ties them together, and what it
  sends. The promise is that no P frame is shown after a lost reference, and none without its parameter sets.
- **RTP transport** (`Rtp.dfy`, `RtpClient.dfy`): packetizer and reassembler of sections 5.6, 5.7.1 and 5.8 of
  RFC 6184 over the header of section 5.1 of RFC 3550, and the collection of access units.
- **End to end** (`Pictures.dfy`): which picture each received unit is, and the promise across sender, network,
  receiver, source and client: between a submitted IDR and a submitted P unit stand the pictures as sent.
- **H.264 parameter sets** (`H264.dfy`): NAL scanning and the SPS/PPS cache.
- **Classic bitmaps** (`ClassicBitmap.dfy`): dirty tiles sent in slices that yield to a slow socket.
- **Agent transport** (`Protocol.dfy`, `AgentTransport.dfy`): control framing, connection epochs, key
  acknowledgements, heartbeats.
- **HID output** (`HidQueue.dfy`, `Hid.dfy`): the two report queues, the tracked key and button state, and the
  agent's steps with their recovery.
- **Text and latency** (`Utf8.dfy`, `Latency.dfy`): UTF-8 in agent and router, and the interval quantiles of
  the latency analyzer.
- `Machine.dfy` holds the fixed-width integers of C with their wrap-around.

How it is laid out: a module `XSpec` holds functions on values and the theorems about runs of them; the
module `X` holds the code in the form the C source has, classes and loops over arrays and fields, each method
proved to refine the function of its specification or to state the property outright. What lies outside
(sockets, USB, clocks, callbacks, other threads) is a parameter: a sequence or function of answers, over which every
theorem quantifies.

Some promises turn out to hold only on a condition; the exact condition is proved, next to a concrete run that
breaks the promise without it:

- The reference chain of the AVC path is safe in every environment exactly for the streams that are not *exposed*
  (`AvcPathSpec.StreamIsSafeIff`, `ExposedStreamExists`).
- A frame admitted by the ready check stays recordable exactly when no 32-bit byte sum wraps
  (`FrameFlowSpec.StaysRecordableIff`, `WrappedSizeIsRefusedLater`), which units of at most 1 GiB never do.
- A unit survives a loss-free channel exactly when it has at most 2 MiB; a longer one is lost without being counted
  (`AccessUnitSpec.UnitSurvivesIff`, `LongSliceIsLost`).
- A gap in the packets is reported exactly when it is not a multiple of 65536 packets
  (`AccessUnitSpec.GapIsReportedIff`); one that is can join two NALs (`RtpSpec.UnclearNumbersSplice`). The results on
  channels ask that no such gap, or jump back, occurs.
- The first unit of a reception is a picture as sent exactly when reception began with the first packet of a picture, or
  behind the first one of the last NAL of a picture (`PictureTracking.FirstUnitIsWholeIff`, `LateStartLosesTheHead`).
- A silent agent is timed out after five seconds when the clock was read after it was last heard; an earlier clock
  times it out at once (`AgentTransportSpec.TimesOutIff`, `EarlyClockTimesOut`).
- The shutdown of a replaced connection reaches it exactly while its run has not closed its descriptor
  (`AgentTransportSpec.ShutdownReachesItsOwnIff`, `ShutdownReachesAnother`).

## Model

| member | source | states |
|---|---|---|
| `AvcPathSpec.SubmittedPFollowsUnbrokenChain` | src/rdp_gfx.c:343-391 | In every run, whatever the ACKs, waits, stops and send failures: when a P unit is submitted, every picture read since the last submitted IDR was submitted and none was flagged as loss, refused or failed, for streams whose units with parameter sets carry no type-1 slice |
| `AvcPathSpec.StreamIsSafeIff` | src/rdp_gfx.c:343-391 | The same promise holds in every environment if and only if the stream is not exposed: an IDR let through only for its parameter set, a picture held back after it, then a P unit let through only for its set, with nothing flagged in between |
| `AvcPathSpec.ExposedStreamExists` | src/video_source.c:136-146 | A concrete stream of three units, with a concrete environment in which it breaks the promise, so the condition is needed |
| `AvcPathSpec.ExposedIff` | src/video_source.c:112-150 | Which streams are exposed is a plain statement about the NAL types and loss counters of their units |
| `AvcPathSpec.SubmittedIsRecorded` | src/rdp_gfx.c:209-290 | In every run with units of at most 1 GiB, far above what the RTP client returns: every submitted unit can be recorded when its turn comes, whatever ACKs came in after it was admitted |
| `AvcPayloadSpec.SubmittedIdrIsComplete` | src/rdp_gfx.c:366-387 | In every run: an IDR that is submitted once the reader has seen both parameter sets is sent with both of them, and the unit as received behind them |
| `AvcPayloadSpec.ShownPRestsOnCompleteIdr` | src/rdp_gfx.c:343-391 | In every run, on every stream: a submitted P unit without parameter sets of its own follows a submitted IDR that was sent with both sets, every picture between them submitted and nothing lost |
| `AvcPayloadSpec.EverySetIsKept` | src/rdp_gfx.c:343-343 | A unit with a parameter set is always returned, so the client has cached a set exactly when the reader has seen one |
| `AvcPayloadSpec.SubmittedPayloadIsRecorded` | src/rdp_gfx.c:371-387 | In every run with units of at most 2 MiB: the size recorded for a submitted unit is that of its payload with the sets, and it can always be recorded |
| `AvcPathSpec.ChainInvariant` | src/rdp_gfx.c:343-391 | While the client may send P units and the source is past its IDR gate, the reference chain since the last submitted IDR is unbroken |
| `AvcPathSpec.AdmitMeetsDeadline` | src/rdp_gfx.c:151-207 | Admission never outlasts its deadline: by the first wake-up 150 ms after the wait began the unit is accepted, refused or the client stopped |
| `AvcPathSpec.AdmitKeepsNeedIdr` | src/rdp_gfx.c:151-207 | Waiting and ACKs do not touch need_idr; only a refusal sets it |
| `AvcPathSpec.HandleEffect` | src/rdp_gfx.c:343-391 | What one unit does to need_idr: loss, refusal and failure set it, only a submitted IDR clears it, and a P unit is submitted only when it was clear |
| `AvcPath.AvcClient.AcceptFrame` | src/rdp_gfx.c:151-207 | The wait loop computes the admission function over the wake-ups it gets |
| `AvcPath.AvcClient.SendFrame` | src/rdp_gfx.c:209-290 | Preparation, admission, submission and recording refine the submit function |
| `AvcPath.AvcClient.HandleUnit` | src/rdp_gfx.c:343-391 | The loop body of the video thread refines the function the run theorems are about |
| `AvcPath.AvcClient.HearAcks` | src/rdp_gfx.c:116-149 | ACKs that arrive are applied to the flow in order |
| `AvcPath.AvcClient.AdmissionTest` | src/frame_flow.h:143-155 | The admission test is the admission function, and changes nothing |
| `VideoSourceSpec.StateMeaning` | src/video_source.c:112-150 | Each field of the reader is a statement about the units read since the open: sets seen, losses unreported, IDR at or after the last loss |
| `VideoSourceSpec.ReturnedIff` | src/video_source.c:112-150 | A unit is returned if and only if it carries a parameter set or a recovering IDR was read at or after the last loss change |
| `VideoSourceSpec.PacketLossIff` | src/video_source.c:112-150 | A returned unit is flagged if and only if the loss counter changed since the previously returned unit, suppressed units included |
| `VideoSource.VideoSource.Open` | src/video_source.c:93-110 | Opening starts an empty history and a cleared state that waits for an IDR, under a new non-zero epoch, and asks for one IDR; an open source or a failing socket changes nothing |
| `VideoSource.VideoSource.Read` | src/video_source.c:112-150 | The loop returns the first unit that passes, with exactly the flags of the history functions, and has asked for one IDR at the open and one for each change of the loss counter |
| `VideoSourceSpec.OneMoreUnit` | src/video_source.c:118-148 | What one more unit adds to state, history and requests, and that it leaves the earlier verdicts alone |
| `VideoSource.VideoSource.Process` | src/video_source.c:118-148 | One iteration refines the step and delivery functions |
| `VideoSource.VideoSource.Inspect` | src/video_source.c:124-139 | The bookkeeping of losses and sets refines its function, and asks for an IDR exactly when the loss counter changed |
| `VideoSource.VideoSource.Close` | src/video_source.c:152-165 | Closing clears the gate, the counter, the sets and the pending flags, and keeps the epoch |
| `FrameFlowSpec.RunKeepsAccounting` | src/frame_flow.h:79-236 | In every run of sends, keyframe sends, ACKs, suspensions and resumptions: at most 3 frames tracked, in-flight bytes equal the sum of tracked sizes, suspended means empty |
| `FrameFlowSpec.AckRemovesOldestMatch` | src/frame_flow.h:185-236 | A resuming ACK matches exactly when its id is tracked; it then takes away one frame, the oldest with that id, and keeps the others in order; otherwise it takes away nothing |
| `FrameFlowSpec.StaysRecordableIff` | src/frame_flow.h:84-95 | A frame stays recordable after any interleaving ACKs if and only if no remainder of the tracked frames overflows the 32-bit byte sum with it |
| `FrameFlowSpec.ReadyStaysRecordable` | src/frame_flow.h:117-128 | A frame admitted by the ready check can still be recorded after any ACKs, when the 32-bit sum it forms does not wrap |
| `FrameFlowSpec.WrappedSizeIsRefusedLater` | src/frame_flow.h:117-128 | In a concrete run of two sends a frame of almost 4 GiB passes the ready check by wrapping, and one ACK later cannot be recorded |
| `FrameFlowSpec.SmallFramesStayRecordable` | src/frame_flow.h:117-128 | With frames of at most 1 GiB nothing wraps, so a frame admitted by the ready check can be recorded after any ACKs |
| `FrameFlowSpec.ReadyKeyframeStaysRecordable` | src/frame_flow.h:132-141 | A keyframe admitted by its own check is recordable after any ACKs, whatever its size |
| `FrameFlowSpec.HaveAckMeansMatched` | src/frame_flow.h:185-236 | have_ack says that an ACK has matched since the last suspension |
| `FrameFlowSpec.PacingBounds` | src/frame_flow.h:40-48 | Over all runs the interval is 16 to 100 ms, at least 20 while suspended and at least 40 before a matched ACK |
| `FrameFlowSpec.SlowdownsAreSpaced` | src/frame_flow.h:50-58 | Two slow-downs, those that leave the interval at its cap included, with no suspension between them are at least 100 ms apart, for clocks that do not run back |
| `FrameFlowSpec.RiseIsSlowdown` | src/frame_flow.h:50-58 | The interval rises only in such a slow-down |
| `FrameFlow.FrameFlow.SlowDown` | src/frame_flow.h:50-58 | The in-place update refines its function |
| `FrameFlow.FrameFlow.NoteSendCost` | src/frame_flow.h:61-77 | The in-place update refines its function |
| `FrameFlow.FrameFlow.RecordSent` | src/frame_flow.h:84-95 | Appends to the three arrays exactly when the frame can be recorded |
| `FrameFlow.FrameFlow.RecordKeyframe` | src/frame_flow.h:98-108 | Appends a keyframe of any size while a slot is free |
| `FrameFlow.FrameFlow.RemoveAt` | src/frame_flow.h:226-232 | The shifting loop removes one position from the arrays and keeps the rest in order |
| `FrameFlow.FrameFlow.FindFrame` | src/frame_flow.h:208-210 | The search finds the first tracked frame with the id, or reports that there is none |
| `FrameFlow.FrameFlow.Acknowledge` | src/frame_flow.h:185-236 | The whole ACK routine refines the ACK function, its return value and its elapsed time |
| `RtpSpec.OnlySentNalsAreDelivered` | src/rtp_h264.c:135-194 | For any packetizer stream and any dropping, duplication or reordering that leaves the 16-bit numbers clear, as every one does with at most 65536 packets: every NAL delivered is byte for byte one that was sent, with its own timestamp and marker |
| `RtpSpec.ShortIsClear` | src/rtp_h264.c:141-150 | Any delivery of fewer than 65536 packets leaves the numbers clear |
| `RtpSpec.DisplacedIsClear` | src/rtp_h264.c:141-150 | So does the delivery of a stream of any length whose displacements and runs of losses stay below the 65536 numbers, for one if nothing is lost and every packet is displaced by less than 32768 places |
| `AccessUnitSpec.GapIsReportedIff` | src/rtp_h264.c:141-150 | A gap is reported if and only if what was skipped or repeated is not a multiple of 65536 packets; the numbers are unclear exactly where a packet that is not the next one goes unreported |
| `RtpSpec.UnclearNumbersSplice` | src/rtp_h264.c:141-193 | A concrete stream, for every MTU that leaves more than one byte to a fragment, and a delivery that loses 65536 of its packets in a row, by which the reassembler delivers the front of one NAL joined to the end of another |
| `AccessUnitSpec.SessionIsStream` | src/rtp_h264.c:206-242 | Whatever units are handed to the packetizer and whichever packets are refused, what was numbered is a stream |
| `AccessUnitSpec.SessionIsSound` | src/rtp_h264.c:206-242 | Over whole sessions with any refusals, and any delivery of what was sent that leaves the numbers clear: every NAL delivered is byte for byte one of a unit that was handed to the packetizer |
| `RtpTransport.Packetizer.SendUnits` | src/rtp_h264.c:206-242 | Unit after unit, exactly the packets the callback took are sent, each as its piece of the session under the number of its place there |
| `RtpSpec.SoundStep` | src/rtp_h264.c:135-194 | One packet keeps the invariant that a half-assembled buffer is the front of one sent NAL |
| `RtpSpec.PiecesAreStream` | src/rtp_h264.c:58-85 | The packets of a NAL form a stream: each fragment directly follows its predecessor |
| `RtpSpec.StreamPrefix` | src/rtp_h264.c:79-82 | A NAL cut short by a refused packet still leaves a stream |
| `RtpSpec.StreamAppend` | src/rtp_h264.c:222-240 | Sending more NALs, whole or cut short, extends a stream |
| `RtpSpec.PushWhole` | src/rtp_h264.c:154-155 | A single-NAL packet comes out as that NAL |
| `RtpSpec.PushPart` | src/rtp_h264.c:176-193 | A fragment extends the buffer that holds its NAL so far, or completes it |
| `AccessUnitSpec.LosslessRoundTrip` | src/rtp_client.c:114-148 | Over a loss-free channel any sequence of access units of 4-byte start codes and start-code-free NALs comes out as the same units, in order, with no loss counted, for every MTU and across sequence wrap |
| `AccessUnitSpec.SplitPicture` | src/rtp_h264.c:206-242 | Splitting such a unit gives back its NALs, the last one marked |
| `AccessUnitSpec.CounterCountsGaps` | src/rtp_client.c:70-76 | The loss counter grows by exactly the number of sequence gaps |
| `AccessUnitSpec.UnflaggedUnitIsIntact` | src/rtp_client.c:114-148 | Under any loss, duplication or reordering that leaves the numbers clear: from between two units, if the loss counter has not moved, the next unit returned is exactly the next unit sent |
| `PictureTracking.ReturnsBetweenUnits` | src/rtp_client.c:114-148 | In every run from a fresh client over any channel: a unit is returned only by the last packet of a picture, and leaves the receiver between two units |
| `PictureTracking.UprightStep` | src/rtp_h264.c:135-194 | Of whole pictures the receiver only ever assembles the NAL of the last packet it got |
| `PictureTracking.MarkEndsPicture` | src/rtp_h264.c:222-240 | Only the last packet of a picture carries the marker |
| `PictureTracking.NextUnitIsNextPicture` | src/rtp_client.c:114-148 | From between two units: if the counter has not moved, the next unit is the next picture and comes with its last packet |
| `PictureTracking.UnitsAreTracked` | src/rtp_client.c:114-148 | Every unit of every run belongs to a picture, the one after the picture before it when the counter did not move, and is then that picture byte for byte |
| `EndToEnd.UnmovedUnitsAreConsecutive` | src/rtp_client.c:114-148 | Over any channel that leaves the numbers clear, as long as the loss counter stands still the units returned are consecutive pictures as sent, byte for byte |
| `EndToEnd.ShownPicturesAreConsecutive` | src/rdp_gfx.c:343-391 | Across sender, network, receiver, source and client, on every stream that is not exposed: every submitted P unit follows a submitted IDR such that all units from there on are consecutive pictures as sent, byte for byte, and every picture among them was submitted |
| `EndToEnd.ShownPayloadsAreThePictures` | src/rdp_gfx.c:343-391 | The same with the parameter-set cache, down to the bytes submitted: every submitted P unit follows a submitted IDR such that from there on every picture was submitted and every payload submitted is, byte for byte, the next picture as sent, an IDR behind the cached sets that it lacks; for a P unit without sets of its own this holds on every stream, and that IDR was sent with both sets |
| `PictureTracking.FirstUnitIs` | src/rtp_client.c:114-148 | The first unit, if the counter has not moved, is the NALs of its picture that begin at or behind the first packet received, or the next picture if there are none |
| `PictureTracking.FirstUnitIsWholeIff` | src/rtp_client.c:114-148 | The first unit is a picture as sent if and only if reception began with the first packet of a picture, or behind the first one of the last NAL of a picture |
| `PictureTracking.LateStartLosesTheHead` | src/rtp_client.c:114-148 | A concrete reception that begins inside a picture: its first unit is not the picture that was sent, and nothing is counted as lost |
| `AccessUnitSpec.UnitSurvivesIff` | src/rtp_client.c:54-68 | Over a loss-free channel a unit of any size comes out whole if and only if it has at most 2 MiB with its start codes, and in no case is a loss counted |
| `AccessUnitSpec.NoLongUnitIsReturned` | src/rtp_client.c:54-68 | Whatever is received, no unit above 2 MiB is returned |
| `AccessUnitSpec.NextPictureIsUnflagged` | src/rtp_client.c:122-146 | After a unit that is too long the next picture comes out whole and the loss counter has not moved |
| `AccessUnitSpec.LongSliceIsLost` | src/rtp_client.c:66-67 | A concrete P slice one byte too long with its start code is lost without a trace |
| `RtpTransport.Packetizer.constructor` | src/rtp_h264.c:50-56 | Every requested MTU is brought into the range the fragment loop needs |
| `RtpTransport.Packetizer.PacketizeNal` | src/rtp_h264.c:58-85 | Sends the packets of the NAL up to the first refused one, which uses up a sequence number; empty and oversize NALs are refused |
| `RtpTransport.Packetizer.SendFragments` | src/rtp_h264.c:68-84 | The fragment loop emits the pieces of the NAL in order |
| `RtpTransport.Packetizer.PacketizeAccessUnit` | src/rtp_h264.c:206-242 | Sends the packets of all NALs of the unit, numbered in a row, up to a refusal or an oversize NAL; true exactly when all went out and there was one |
| `RtpTransport.Packetizer.SplitUnit` | src/rtp_h264.c:210-241 | The start-code loops find the NALs of the splitting function |
| `RtpTransport.Reassembler.Accept` | src/rtp_h264.c:135-194 | The push routine refines its function: loss report, NALs offered, return value, new state |
| `RtpTransport.Reassembler.AcceptFragment` | src/rtp_h264.c:176-193 | The FU-A branch refines its function |
| `RtpTransport.Aggregated` | src/rtp_h264.c:156-175 | The STAP-A loop yields the aggregated NALs and whether the payload was well formed |
| `RtpTransport.RtpClient.Save` | src/rtp_client.c:54-68 | save_nal refines its function, including the size limit |
| `RtpTransport.RtpClient.Receive` | src/rtp_client.c:122-146 | One datagram of the read loop refines its function |
| `RtpTransport.RtpClient.Read` | src/rtp_client.c:114-148 | The read loop consumes datagrams up to the first complete unit |
| `H264Spec.FoundIffPresent` | src/h264.c:75-100 | find_nal finds a type exactly when the unit has a start code followed by it |
| `H264Spec.MaskMeaning` | src/h264.c:12-29 | The mask has bit t exactly when find_nal finds type t |
| `H264Spec.PreparedIdrIsComplete` | src/h264.c:132-178 | Once units holding SPS and PPS were cached, every prepared IDR contains both and ends with the original unit unchanged |
| `H264Spec.CompleteIdrIsUntouched` | src/h264.c:132-178 | A unit that already has both sets is passed on as it is |
| `H264Spec.CacheHoldsSeenSets` | src/h264.c:121-130 | After any units a set is cached exactly when one of them had it, and what is cached starts with a NAL of its type |
| `H264Spec.FindsExactlyOneNal` | src/h264.c:75-100 | In a unit of well-formed NALs find_nal delimits exactly the first NAL of the type, with its start code |
| `H264Spec.CachesExactlyOneNal` | src/h264.c:102-119 | So each cached set is exactly one NAL with its start code |
| `H264.NalTypeMask` | src/h264.c:12-29 | The scanning loop computes the mask |
| `H264.SearchNal` | src/h264.c:75-100 | The search loop computes find_nal |
| `H264.ParameterSets.UpdateFrom` | src/h264.c:121-130 | The update refines the cache function |
| `H264.ParameterSets.Prepare` | src/h264.c:132-178 | The preparation refines its function and leaves the cache alone |
| `ClassicBitmap.ClassicOutput.Play` | src/rdp_bitmap.c:455-541 | For every frame sequence and every pattern of yields: updates are only ever added to the wire, none in a slice that is not writable; frames close in order, each in a writable slice of its own, and what was on the wire when that slice was over draws the RGB565 packing of the whole frame; with N tiles to a frame, frame k has closed before the (k+1)(N+1)th writable slice; every update holds at most a batch of rectangles and stays below the size limit unless it holds one; it fails only in a call whose frame has the wrong size, whose client is stopping, or in whose slice a write fails |
| `ClassicBitmap.ClassicOutput.PlaySlice` | src/rdp_bitmap.c:455-541 | One slice of the output thread, of a new frame if none is open: what it keeps on the wire, when it closes the frame, and the progress it makes otherwise |
| `ClassicBitmap.ClassicOutput.SendFrame` | src/rdp_bitmap.c:82-240 | Updates written earlier stay on the wire, and more are only added, none when the socket is not writable. A call that closes the frame leaves exactly it on the screen; a writable one that does not lowers the number of remaining tiles; an unwritable one only leaves the frame open; nothing but lateness or a blocked socket makes it yield; it succeeds if and only if the frame has the right size, the client is not stopping and every write the call comes to make, tile by tile from where it resumes, succeeds |
| `ClassicBitmap.ClassicOutput.SendTile` | src/rdp_bitmap.c:125-214 | A tile keeps screen, cache and frame in step; an unchanged one is not sent; a yield resumes strictly later; its outcome is exactly that of the tile function on the cache the call began with |
| `ClassicBitmap.ClassicOutput.CloseFrame` | src/rdp_bitmap.c:235-238 | Past the last tile the client shows the frame and the position starts over |
| `ClassicBitmap.ClassicOutput.MakeRoom` | src/rdp_bitmap.c:143-165 | A full update is written before another tile is added, and only then; a yield there resumes at this tile; it fails exactly when that write fails |
| `ClassicBitmap.ClassicOutput.WriteBatch` | src/rdp_bitmap.c:187-214 | A complete batch is written at once, and only then; a blocked socket resumes at the next tile or row; it fails exactly when that write fails |
| `ClassicBitmap.ClassicOutput.Write` | src/rdp_bitmap.c:148-160 | What is pending is drawn by the client as one update, or nothing changes |
| `ClassicBitmapSpec.AheadCopied` | src/rdp_bitmap.c:184-184 | Copying a tile into the cache leaves the tiles ahead as they were, so which of them are dirty is decided when the call begins |
| `ClassicBitmapSpec.SentTileIsSynced` | src/rdp_bitmap.c:166-184 | Sending a tile and copying it to the cache keeps the client's picture equal to the frame so far and to a valid cache |
| `ClassicBitmapSpec.SkippedTileIsSynced` | src/rdp_bitmap.c:135-137 | Skipping an unchanged tile keeps it too |
| `ClassicBitmapSpec.FrameDone` | src/rdp_bitmap.c:235-238 | Past the last row both the screen and the cache show the frame |
| `ClassicBitmapSpec.NextTileIsCloser` | src/rdp_bitmap.c:119-125 | Each tile lowers the number of remaining tiles by one |
| `ClassicBitmap.TileChanged` | src/bitmap_diff.h:8-29 | False exactly when all visible channels of the tile agree |
| `ClassicBitmap.TileCopy` | src/rdp_bitmap.c:20-29 | Copies the tile and touches no pixel outside it |
| `ClassicBitmap.PackTile` | src/rdp_bitmap.c:33-49 | Packs every pixel of the tile, row by row, to its RGB565 value |
| `AgentTransportSpec.SendReachesItsEpoch` | src/agent_transport.c:25-45 | In every interleaving: what was sent for an epoch went to the connection that was accepted for that epoch, whatever became of its descriptor number |
| `AgentTransportSpec.EpochIsAcceptedOnce` | src/agent_transport.c:134-155 | An epoch is accepted by one step, for one connection |
| `AgentTransportSpec.StaleChangesNothing` | src/agent_transport.c:169-201 | Once a connection was replaced, given up or stopped, no message on it changes anything and nothing is sent on it, for the rest of the run |
| `AgentTransportSpec.EventsAreOnce` | src/agent_transport.c:203-233 | In every run an epoch publishes at most one disconnect and at most one timeout |
| `AgentTransportSpec.KeyAckMeaning` | src/agent_transport.c:359-390 | An answer is on record exactly when a request with that number was made, nothing ended the wait since, and its answer has arrived since; the recorded success is that of the last answer |
| `AgentTransportSpec.AnswerIsOfThisEpoch` | src/agent_transport.c:174-186 | A recorded answer came over the current epoch's connection, after its request, in the epoch of the request |
| `AgentTransportSpec.TimeoutNeedsSilence` | src/agent_transport.c:294-304 | With a clock read after the agent was last heard on the connection, it times out only after more than five seconds of silence |
| `AgentTransportSpec.TimesOutIff` | src/agent_transport.c:294-304 | Exactly the clock values at which a connection times out: more than five seconds after the agent was last heard, and almost all before it, as the unsigned subtraction makes them |
| `AgentTransportSpec.EarlyClockTimesOut` | src/agent_transport.c:294-304 | A concrete run in which a clock read just before the agent was heard times its connection out at once |
| `AgentTransportSpec.ShutdownReachesItsOwnIff` | src/agent_transport.c:162-163 | In every run: the shutdown owed to a replaced connection reaches that connection if and only if its run has not closed its descriptor yet |
| `AgentTransportSpec.ShutdownReachesAnother` | src/agent_transport.c:162-163 | A concrete run in which it reaches a third connection that was given the number |
| `AgentTransportSpec.ClosedMeaning` | src/agent_transport.c:203-233 | A connection counts as closed exactly when a step of the run closed its descriptor |
| `AgentTransportSpec.RunIsIdentified` | src/agent_transport.c:99-233 | In every run each connection has at most one descriptor of its own, and every shutdown owed names a connection that was accepted and replaced |
| `AgentTransportSpec.RunIsOwned` | src/agent_transport.c:99-233 | The current descriptor is open and owned by the run of the current epoch, in every run |
| `AgentTransport.AgentTransport.BeginAccept` | src/agent_transport.c:108-117 | One handshake at a time, and none when stopping |
| `AgentTransport.AgentTransport.FinishAccept` | src/agent_transport.c:134-155 | A valid HELLO makes a new epoch with nothing left of the old one and names the descriptor to shut down; anything else changes only the pending descriptor |
| `AgentTransport.AgentTransport.HandleMessage` | src/agent_transport.c:169-201 | The locked section refines its function; a PONG is asked for only by a current PING |
| `AgentTransport.AgentTransport.FinishRun` | src/agent_transport.c:220-232 | Gives the connection up only if it is still its own |
| `AgentTransport.AgentTransport.Beat` | src/agent_transport.c:285-318 | Timeout and ping decisions and their bookkeeping |
| `AgentTransport.AgentTransport.Target` | src/agent_transport.c:255-262 | What a send captures is current |
| `AgentTransport.AgentTransport.SetStreamRequested` | src/agent_transport.c:265-283 | Remembers the request and captures the current connection |
| `AgentTransport.AgentTransport.StartKeyAck` | src/agent_transport.c:359-374 | Starts a wait only on a connection that acknowledges keys |
| `AgentTransport.AgentTransport.ReadKeyAck` | src/agent_transport.c:376-390 | Reports the recorded answer of the wait with this number |
| `ProtocolSpec.ParseEncoded` | src/protocol.c:69-82 | A frame that was sent parses as itself, and the rest of the stream is left |
| `ProtocolSpec.ParsedIsEncoded` | src/protocol.c:114-124 | What parses is the encoding of what was parsed |
| `ProtocolSpec.PrefixIsIncomplete` | src/protocol.c:84-112 | A proper front of a frame is incomplete, not malformed |
| `ProtocolSpec.BlockingRunSplits` | src/protocol.c:114-124 | The blocking reader gives back exactly the frames that were sent, then what follows |
| `ProtocolSpec.FramesAreUnique` | src/protocol.c:84-124 | A byte stream splits into frames in one way |
| `Protocol.Send` | src/protocol.c:69-82 | Writes the encoding, or a proper front of it and shuts the connection down; an oversize payload writes nothing; it succeeds when the calls neither fail nor run out |
| `Protocol.ReadAll` | src/protocol.c:26-42 | Reads exactly what the reading function says of the stream and the calls, in order, and succeeds exactly with all wanted bytes |
| `Protocol.WriteAll` | src/protocol.c:8-24 | Writes a front of the data, all of it exactly on success, and succeeds when the calls neither fail nor run out |
| `Protocol.ReceiveBlocking` | src/protocol.c:114-124 | Message, bytes taken and calls used are exactly those of the blocking function |
| `Protocol.ControlReader.ReceiveAvailable` | src/protocol.c:84-112 | Result, bytes taken and calls used are exactly those of the function, however the stream is cut; a message is added to those yielded, and a partial frame stays held |
| `Protocol.ControlReader.YieldsWhatWasSent` | src/protocol.c:84-112 | At every moment the frames yielded are the first ones sent, and the bytes taken belong to them or to the frame being assembled |
| `Protocol.ControlReader.AgreesWithBlocking` | src/protocol.c:84-124 | At every moment, on every stream: the frames yielded are the first ones of the blocking reader, and both stop at the same header |
| `Protocol.ControlReader.DrainAvailable` | src/protocol.c:84-112 | Calling the reader again and again yields every frame of any stream, those of the blocking reader, unless a call fails or they run out before the stream |
| `Protocol.ControlReader.ReceiveSent` | src/protocol.c:84-112 | In particular it yields exactly the messages the peer sent |
| `Protocol.DrainBlocking` | src/protocol.c:114-124 | Calling the blocking reader until it fails gives every frame of the stream, unless a call fails or they run out first |
| `ProtocolReaders.AvailableMeaning` | src/protocol.c:84-112 | Why each result of the reader came: a whole frame, a bad header, a failed call or the end of the stream, or bytes that are not there yet |
| `ProtocolReaders.AvailableYields` | src/protocol.c:84-112 | When the rest of a frame is there and the calls cover it, it comes out |
| `ProtocolReaders.BlockingMeaning` | src/protocol.c:114-124 | A message comes out exactly when a frame is in front, unless the calls fail or run out, and takes just that frame |
| `ProtocolReaders.ReadingMeaning` | src/protocol.c:26-42 | Reading gets what is there, unless the calls fail or run out |
| `HidQueueSpec.CompletesInOrder` | src/hid.c:197-262 | In every run from the start-up release on, with a driver that takes a write only on an idle endpoint: of the reports queued since the last release at most one transfer is under way, and they complete in the order of submission across both endpoints |
| `HidQueueSpec.NeverBypassed` | src/hid.c:972-984 | After the start-up release an empty queue remembers an endpoint, so the direct write is never taken |
| `HidQueueSpec.NoTransitionIsLost` | src/hid.c:182-300 | Submitted plus waiting reports are the queued ones minus only motion directly followed by motion of the same endpoint and state; every other report is there once, in order |
| `HidQueueSpec.CancelledStaysCancelled` | src/hid.c:1111-1117 | What is submitted since the last release or waits was queued since it, each report at most as often, so nothing queued before comes out again |
| `HidQueueSpec.IterateFailsIff` | src/hid.c:184-263 | An iteration gives up exactly when USB or the clipboard is in trouble in its turn |
| `HidQueueSpec.DrainFailsIff` | src/hid.c:182-265 | A flush fails if and only if the queue it holds meets trouble in the last turn it takes: blocked for too long, the other endpoint in error, the clipboard refused, or a write that fails for good |
| `HidQueueSpec.EnqueueFailsIff` | src/hid.c:267-300 | Queueing fails if and only if the queue is full and its head cannot go, or the flush of the queue with the report in it ends in trouble |
| `HidQueueSpec.PutAllFailsIff` | src/hid.c:267-300 | Queueing several reports fails if and only if the queue, as it stands when its turn comes, refuses one of them |
| `HidQueueSpec.PasteFollowsItsClip` | src/hid.c:216-226 | A report queued with a character to paste is submitted after exactly one clipboard write since the previous report or cancellation, of that character, at least 30 ms before |
| `HidQueueSpec.ReportsAreSpaced` | src/hid.c:186-188 | Of two reports submitted one after the other, with no release between them, the second waits for the delay the first asked for, under any retries |
| `HidQueueSpec.IterateFlushes` | src/hid.c:184-263 | One iteration of the flush loop keeps the invariant and the sequence of submitted and waiting reports |
| `HidQueueSpec.PoppedIsSerial` | src/hid.c:197-215 | A report is submitted to the remembered endpoint, or after the other endpoint was found ready, only when nothing is under way |
| `HidQueueSpec.ReplacedKeepsOk` | src/hid.c:272-281 | A newer position over the last one keeps the invariant and drops only that one |
| `HidQueue.ReportQueue.Iteration` | src/hid.c:184-263 | The loop body on the ring refines the iteration function |
| `HidQueue.ReportQueue.Flush` | src/hid.c:182-265 | The loop refines its function and keeps the invariant; what was submitted and waits is the same sequence as before |
| `HidQueue.ReportQueue.Put` | src/hid.c:267-300 | Queueing refines its function, return value included; only a full queue refuses; otherwise the report is the last for its endpoint |
| `HidQueue.ReportQueue.Drop` | src/hid.c:1114-1115 | The queue is emptied and forgets its endpoint |
| `HidQueue.ReportQueue.WriteNow` | src/hid.c:972-984 | Writes past the queue only when it is empty and remembers no endpoint |
| `HidSpec.HeldMeaning` | src/hid.c:406-411 | The usages of a keyboard report are held ones, lowest first, none missing |
| `HidSpec.MotionKeepsButtons` | src/hid.c:361-376 | Flags without a button bit leave the buttons alone, so overtaken motion hides no transition |
| `Hid.Hid.KeyboardBytes` | src/hid.c:404-411 | The loop gives the six lowest held usages |
| `Hid.Hid.SendKeyboard` | src/hid.c:402-416 | Gives the queue a report of the tracked keys and returns whether it took it; with success, or room in the queue, it is the last word for the keyboard |
| `Hid.Hid.Scancode` | src/hid.c:590-610 | A redundant or unknown key changes and sends nothing; any other changes one key and queues one report of the new state; it fails exactly when the queue refuses that report |
| `Hid.Hid.Tap` | src/hid.c:794-807 | Presses on top of what is held and restores it, with one report each; it fails exactly when the queue refuses one of them |
| `Hid.Hid.TapAll` | src/hid.c:809-818 | One tap for each key, in order; it fails exactly when the queue refuses one or a key is missing |
| `Hid.Hid.PasteCode` | src/hid.c:901-917 | Command and V with the character to paste, then a report of the restored modifiers; it fails exactly when the clipboard is closed or the queue refuses one |
| `Hid.Hid.TypeCharacters` | src/hid.c:935-945 | The text loop enters the characters of the longest well-formed front of the text; it succeeds exactly when that is the whole text, every character can be entered and the queue takes all the reports |
| `Hid.Hid.TypeText` | src/hid.c:919-950 | A shortcut keeps the held modifiers; other text lets go of everything and queues the reports of its decoded characters in order; it succeeds exactly when the text is well formed, every character can be entered and the queue takes all the reports; a failure releases everything |
| `Hid.Hid.SendAbsolute` | src/hid.c:986-1003 | Queues one touch report of the tracked position and buttons and clears the wheels |
| `Hid.Hid.SendRelative` | src/hid.c:1007-1012 | Queues one mouse report of the tracked buttons |
| `Hid.Hid.Absolute` | src/hid.c:1032-1044 | One touch report, and a mouse report exactly when one of the first three buttons changed; it fails exactly when the queue refuses one of them |
| `Hid.Hid.Relative` | src/hid.c:1046-1063 | A touch report exactly when one of the last two buttons changed, then the steps of the movement, or a mouse report for a button alone; it fails exactly when the queue refuses one of them |
| `Hid.Hid.MoveBy` | src/hid.c:1055-1061 | The step loop queues the steps of the movement; it fails exactly when the queue refuses one |
| `HidSpec.StepsAddUp` | src/hid.c:1055-1061 | The steps, each of at most 127, add up to the movement |
| `Hid.Hid.Wheel` | src/hid.c:1076-1092 | Vertical turns go to the mouse, horizontal ones to the touch device if its reports have room; it fails exactly when the queue refuses the report |
| `Hid.Hid.Keepalive` | src/hid.c:1014-1030 | One unit aside when due and nothing is held or waiting, back the next time; else nothing at all; it fails exactly when the queue refuses the movement |
| `Hid.Hid.FlushAll` | src/hid.c:471-478 | Both queues are flushed as their functions say, and the last report of every endpoint stays the last |
| `Hid.Hid.Synchronize` | src/hid.c:1094-1109 | Everything is released and queued as such behind what is waiting; it succeeds exactly when both queues take the release |
| `Hid.Hid.ReleaseAll` | src/hid.c:1111-1117 | Only the release is left in the queues, and it is the last word for every endpoint even if USB fails |
| `Agent.Agent.constructor` | src/agent.c:558-559 | After start-up every endpoint's last report is the released state |
| `Agent.Agent.Handle` | src/agent.c:252-366 | A step succeeds if and only if it was feasible: the queues, as they stand and with what USB and the clipboard will answer, take every report it calls for, and a text can be entered. Then what is tracked is what the step asked for, and otherwise nothing is held; in both cases the last report of each endpoint encodes it |
| `Agent.Agent.Dispatch` | src/agent.c:252-366 | A step without its recovery succeeds if and only if it was feasible, and then holds what it asked for |
| `Agent.Agent.Serve` | src/agent.c:573-614 | In every sequence of steps: what is held at the end is what the steps that were carried out asked for since the last one that was not, which let go of everything; releases are always carried out; once the queues drain, what USB was last told is what is held; no transition was lost; pastes follow their clipboard writes; typed reports keep their delays; and transfers complete in order |
| `Latency.NearestRankMeaning` | tools/video-latency/analyze.py:291-293 | The nearest-rank quantile is a value of the list with at least the asked share of values at or below it, and the least such |
| `Latency.NearestRankIgnoresOrder` | tools/video-latency/analyze.py:291-293 | The order of the samples does not matter |
| `Latency.NearestRankMonotone` | tools/video-latency/analyze.py:291-293 | Pointwise larger values have a larger quantile |
| `Latency.SampleCoversTruth` | tools/video-latency/analyze.py:296-314 | The bounds of a sample cover the true latency when the clocks err within their bounds |
| `Latency.QuantileCoversTruth` | tools/video-latency/analyze.py:296-314 | The quantile of the true latencies lies between the reported lower and upper quantiles |
| `Latency.DeltaCoversTruth` | tools/video-latency/analyze.py:490-500 | The true difference of B and A lies within the reported delta bounds |
| `Latency.LatencyQuantiles` | tools/video-latency/analyze.py:296-314 | The loop builds the samples and the three quantiles of each kind |
| `Latency.Deltas` | tools/video-latency/analyze.py:490-500 | The loop builds one delta for each pair of quantiles |
| `Utf8.RoundTrip` | src/hid.c:744-792 | Decoding the concatenated encodings of any scalar values gives them back |
| `Utf8.DecodeFollowsGrammar` | src/hid.c:744-792 | The decoder accepts exactly the characters of section 4 of RFC 3629 |
| `Utf8.ReencodesTheSame` | src/hid.c:744-792 | A decoded character encodes to the bytes it was read from |
| `Utf8.EncodeFollowsGrammar` | src/hid.c:837-868 | Every encoding is a character of that grammar |
| `Utf8.EncodeInjective` | src/hid.c:837-868 | Different scalar values have different encodings |
| `Utf8.RouterAgreesWithAgent` | src/input_router.c:48-78 | The router's encoding of every accepted code unit is the agent's |
| `Utf8.FrontMeaning` | src/hid.c:937-945 | What is decoded of a text is scalar values, whose encodings are exactly the bytes read, and decoding stops only at the end or at a malformed character |
| `Utf8.FrontIsLongest` | src/hid.c:937-945 | No longer front of the text is well formed |

## Left out

- FreeRDP, WinPR, FFmpeg and swscale: library code. That a client draws an update of RGB565 rectangles from its
  bytes row by row is taken as the meaning of an update; the row order of the wire format is the library's.
- Sockets, poll, device nodes, thread creation, logging, statistics and frame tracing: represented only by their
  answers, or not at all.
- Allocation and event waits: taken to succeed. Growth of buffer capacities is not modelled, only their contents and limits.
- The hand-off of decoded frames between decoder and output thread (src/rdp_bitmap.c:426-541), except that an open frame is resumed
  with the same pixels until it closes.
- The progressive, RemoteFX and NSCodec outputs: encoders of libraries.
- The capture loop of the agent (src/agent.c:418-523): depends on a vendor library.
- Scan-code, ASCII and Hangul tables (src/hid.c:515-588, src/hid.c:618-736): parameters of the model; every theorem holds for any tables.
- Coordinate scaling, wheel detents, absolute report length detection, LED feedback, poll timeouts: easy arithmetic or plumbing.
- src/gateway_config.c, src/device_session.c, HTTP and web viewer code, foldvnc, deployment and probe tools: outside the protocols.
- HidQueue.ReportQueue.Flush: clock values are unbounded naturals; a clock behind the blocked stamp counts as a stall, as the unsigned subtraction makes it.
- HidQueueSpec.CompletesInOrder: speaks of reports queued since the last release; a release may overtake a transfer that was under way before it.
- ClassicBitmap.ClassicOutput.SendFrame: the number of rectangles in a batch is a parameter of at least 1 (the source has 1), each
  rectangle owns its bytes, and the cache exists from the start.
- ClassicBitmap.ClassicOutput.Play: a failed write ends the run, as the source ends the connection; which write fails is stated exactly for
  each call by SendFrame, and here only that the slice has a failing one.
- AgentTransportSpec.SendReachesItsEpoch: epochs are unbounded naturals, and agent_transport_destroy is not a step.
- AgentTransport.AgentTransport.FinishAccept: the handshake read is its result only; the receive timeout is not modelled.
- AvcPathSpec.SubmittedPFollowsUnbrokenChain: graphics readiness and stopping only change towards stopping, and the RTP client returns no empty unit.
- EndToEnd.ShownPayloadsAreThePictures: speaks of the same streams and channels as ShownPicturesAreConsecutive.
- Agent.Agent.Serve: which steps are carried out is stated exactly step by step by Handle, and here only for the first and for releases.
- EndToEnd.ShownPicturesAreConsecutive: speaks of units of at most 2 MiB, with fewer than 2^32 packets between two units, as the 32-bit
  loss counter cannot tell more losses apart.
- AccessUnitSpec.SessionIsSound: NAL types are 1 to 23, as for the round trip.
- AccessUnitSpec.LosslessRoundTrip: NAL types are 1 to 23; other types are not given back by the reassembler as single NALs.
- Latency.QuantileCoversTruth: arithmetic over reals; rounding of floating point is not modelled.
