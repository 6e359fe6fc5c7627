# RTCom: a verified model

RTCom is a real-time audio/video server: SIP signalling, RTP and RTCP transport, a jitter buffer,
an epoll loop and a thread pool. This project models its stateful core in Dafny and proves
properties of the model over all inputs, all runs and all schedules. `dafny verify dfyconfig.toml`
checks it.

Classes carry out the operations in place, as the C++ does; each method is proved against a
specification function or relation, and the lemmas are about those.

| file | models |
|---|---|
| Words, Sequences | fixed-width words, byte order, clock arithmetic; sequences and permutations |
| RtpPacket, H264Fragmenter | RTP layout; FU-A fragmentation |
| RtpSession | numbering, counters, video frames |
| JitterBuffer, JitterRuns | the buffer; its runs |
| JitterDelay | how the delay adapts over runs; what Reset leaves |
| JitterFifo, JitterPlayout | the buffer as a queue; when it hands packets out in order |
| ReceiveLoop | the server's receive loop and its backlog |
| VideoPath | the video path end to end, for a frame and for a stream |
| ThreadPool, ThreadPoolProofs | the pool as a transition system; its safety and progress |
| CallControl, CallEffects | calls, contexts and descriptors as one state; what each operation leaves |
| CallTraces, Managers | whole calls; the objects |
| Rtcp | report building and the compound walk |
| Sdp, SdpProofs, SdpLines | parser and builders; the round trip; what any received line yields |
| SdpNegotiation | what the peers learn from each other |
| IoMultiplexer | descriptor map and timer list |

## How the code is represented

- Bit fields are arithmetic: `b & 0x1F` is `b % 32`, an "or" of disjoint fields is a sum. Unsigned
  wrap-around and casts are written out (`Wrap16`, `Wrap32`, `Wrap64`, `Signed16`, `Truncated`).
- `std::sort` is known only by its promise, a sorted permutation, so claims about the jitter buffer
  hold for any sort, stable or not. A run of the buffer is a sequence of histories related by
  `JitterRuns.Step`; what `JitterBuffer.Insert`, `Extract` and `Reset` ensure is exactly the state
  part of such a step.
- Inputs from outside are parameters: clock readings (nanoseconds of a monotone clock), the jitter
  estimate of each arrival, whether the network takes a datagram, the descriptors and ports of new
  sockets, whether epoll accepts a descriptor, generated call ids, and the order in which a hash map
  is walked.
- In the thread pool a step is one critical section or one unlocked action. Evaluating a wait
  predicate and blocking are two steps under the mutex, because the destructor notifies without it.
  Spurious wakeups can happen at any time. A task that throws is one that finishes.
- Calls, contexts and the descriptor map form one state, `CallControl.Sys`; a call's timer is tested
  with two separate clock readings, as `ProcessTimers` reads the clock in each of its two tests.

## Where the code does not do what its description says

- `Defragment` does not undo `Fragment` for a unit sent whole (`H264.DefragmentInvertsFragment` gives
  the exact condition). WORKFLOW.md describes FU-A reassembly on the receive path
  (WORKFLOW.md:234-248); the receive path does not call it, so `VideoPath.EndToEnd` is about the
  functions composed.
- `Parse` returns padding or extension bytes as payload when the real payload is empty
  (`RtpPackets.ParseInvertsLayout`).
- The documented retransmission limit is never reached, because `StartTimer` zeroes the count; but a
  call, answered or not, fails if its timer falls due between the two clock readings of one pass
  (`CallControl.TimersFailExactly`, `CallControl.TickBetweenReadingsFailsCall`).
- The destructor of the pool can wait forever (`ThreadPoolProofs.JoinReturnsExactly`,
  `ThreadPoolProofs.JoinCanHang`).
- `SortBuffer` compares raw numbers, so a frame within which the 16-bit numbers wrap comes back with its
  parts exchanged (`VideoPath.FrameComesBack`, `VideoPath.WrappedFrameComesBackWrong`).
- A packet whose predecessor is not ready overtakes it (`JitterPlayout.OrderlyExactly`); in particular a
  wait of 2^32 ms wraps (`JitterFifo.MarkingKeepsOrderExactly`, `JitterFifo.LongWaitOvertakes`). At the
  delay of 0 that the server configures the buffer orders nothing (`ReceiveLoop.ZeroDelayPassesThrough`).
- The receive loop announces that it extracts the ready packets but extracts one for each arrival, so a
  backlog that has built up is never worked off (`ReceiveLoop.BacklogStays`).
- `Parse` of RTCP does not convert `cumulative_lost` (`Rtcp.BlockSurvives`), looks for the blocks of a
  sender report in the wrong place (`Rtcp.SenderReportBlocksSurvive`), and takes the SSRC of a report of
  length word 0 from beyond it, if need be from beyond the datagram (`Rtcp.OverreadsExactly`).
- A sender report carries its NTP words in exchanged order (`Rtcp.NtpWordsAreExchanged`).
- `GetNextTimeout` subtracts in 64 bits and truncates to 32 (`IoMultiplexers.NextTimeoutIsRight`).
- A refused call stays stored as failed (`CallTraces.RefusedCallStays`).

## Model

| member | source | states |
|---|---|---|
| RtpPackets.ParseInvertsLayout | src/rtp/rtp_packet.cpp:7-31 | for every CSRC count, extension, padding and payload of sections 5.1 and 5.3.1 of RFC 3550 Parse returns the header, and the payload exactly when it is non-empty or there is neither padding nor a zero-word extension |
| RtpPackets.ParseInvertsBuild | src/rtp/rtp_packet.cpp:7-59 | what Build makes and Serialize writes, Parse reads back: every field and the payload, and the payload type exactly when it is below 128 |
| RtpPackets.HeaderDecodesEncoding | src/common/types.h:78-90 | the twelve header bytes determine every in-range header |
| RtpPackets.HeaderEncodesDecoding | src/common/types.h:78-90 | and any twelve bytes are the encoding of the header they decode to |
| RtpPackets.HeaderLayout | src/common/types.h:78-90 | every field stands where section 5.1 of RFC 3550 puts it, numbers in network order |
| Words.NetworkOrder | src/rtp/rtp_packet.cpp:52-54 | 16, 24 and 32-bit words are written most significant byte first |
| RtpPackets.LayoutOffset | src/rtp/rtp_packet.cpp:16-20 | the payload offset Parse computes is right except for a zero-word extension with nothing after it |
| RtpPackets.UnpaddedStripsPadding | src/rtp/rtp_packet.cpp:22-27 | padding is stripped exactly when some payload stands before it |
| RtpPackets.ShortIsEmpty | src/rtp/rtp_packet.cpp:8-12 | fewer than twelve bytes give the packet of zeros |
| RtpPackets.TruncatedIsEmpty | src/rtp/rtp_packet.cpp:16-29 | a packet cut off within its CSRC list or extension has no payload; an extension head with nothing after it is taken for payload |
| RtpPackets.OverlongPaddingStays | src/rtp/rtp_packet.cpp:24-27 | padding that claims all that is there, or more, is not taken off |
| RtpPackets.Serialize | src/rtp/rtp_packet.cpp:33-41 | writes header and payload and leaves the rest of the buffer, or writes nothing and returns 0 when the buffer is too small |
| RtpPackets.Parse | src/rtp/rtp_packet.cpp:7-31 | the step-by-step parser computes Parsed, including the zero packet for short input |
| H264.Fragment | src/rtp/rtp_packet.cpp:63-96 | the loop produces the closed-form fragments: chunk i of 1446 bytes under the FU indicator and a header with S on the first and E on the last |
| H264.Defragment | src/rtp/rtp_packet.cpp:98-115 | fails and changes nothing exactly without fragments; otherwise rebuilds the header from the first and appends the bodies |
| H264.DefragmentInvertsFragment | src/rtp/rtp_packet.cpp:63-115 | Defragment undoes Fragment exactly for the empty unit and for units of at least two bytes longer than mtu |
| H264.FragmentShape | src/rtp/rtp_packet.cpp:63-96 | number and size of fragments, NRI and type bits, S on the first only, E on the last only, never both when mtu is 1460 or more |
| H264.FragmentsFit | src/session/session_manager.cpp:111-119 | every fragment SendVideoFrame makes is at most 1460 bytes |
| H264.BodiesOfFragments | src/rtp/rtp_packet.cpp:80-94 | the bodies of the first k fragments are the first k chunks of the unit |
| H264.RotatedReassembly | src/rtp/rtp_packet.cpp:98-115 | fragments from k on followed by the first k reassemble to the unit with the bytes after the cut in front |
| H264.FuFlags | src/rtp/rtp_packet.cpp:83-85 | the FU octets carry type 28, the NRI bits, the flags and the original type |
| H264.DefragmentOne | src/rtp/rtp_packet.cpp:100-112 | any single fragment: the header from its two FU octets, then what follows them; nothing from a shorter one |
| H264.DefragmentMore | src/rtp/rtp_packet.cpp:103-113 | any further fragment adds what follows its two octets |
| RtpSessions.RunIsNumbered | src/rtp/rtp_session.cpp:44-67 | over every run of successful and failed sends datagram i parses to sequence number i mod 2^16, fits 1472 bytes, and the counters count what the network accepted |
| RtpSessions.SequenceCountsPackets | src/rtp/rtp_session.cpp:63-64 | the next sequence number is packets_sent_ mod 2^16 after every run |
| RtpSessions.StepIsNumbered | src/rtp/rtp_session.cpp:44-67 | each operation keeps the numbering |
| RtpSessions.SendIs | src/rtp/rtp_session.cpp:44-67 | one send, whatever the session: the datagram goes to the given destination or else the stored one and carries the session's number, timestamp and source; number and counters go up; without a socket, a destination, room in 1472 bytes or acceptance nothing changes |
| RtpSessions.LearnedDestinationIsUsed | src/rtp/rtp_session.cpp:48-50 | a destination learned later is used where none is given |
| RtpSessions.RunAdvancesTimestamp | src/rtp/rtp_session.cpp:102-104 | over every run of sends and advances the timestamp is the initial one plus all increments, mod 2^32 |
| RtpSessions.FrameSentWhole | src/session/session_manager.cpp:113-118 | when every send succeeds a frame goes out in order under consecutive numbers and one timestamp |
| RtpSessions.FrameDatagramsParse | src/session/session_manager.cpp:113-118 | each datagram of a frame parses to its number, the frame timestamp, its fragment, and the marker on the last only |
| RtpSessions.RtpSession.SendPacket | src/rtp/rtp_session.cpp:44-67 | succeeds exactly with a socket, an address, a port, room in the buffer and the network accepting; only then does it number and count |
| RtpSessions.RtpSession.AdvanceTimestamp | src/rtp/rtp_session.cpp:102-104 | adds to the timestamp in 32 bits |
| RtpSessions.RtpSession.SendVideoFrame | src/session/session_manager.cpp:100-124 | fails and sends nothing without an encoded frame; otherwise sends every fragment in order whatever becomes of the others, then advances the timestamp by one frame |
| RtpSessions.RtpSession.constructor | src/rtp/rtp_session.cpp:9-19 | a fresh session: nothing sent, sequence number 0, a random source when none is given |
| JitterBuffers.JitterBuffer.constructor | src/rtp/jitter_buffer.cpp:8-9 | an empty buffer at the initial delay |
| JitterBuffers.JitterBuffer.Insert | src/rtp/jitter_buffer.cpp:39-78 | the whole new state: tracking, loss, a sorted permutation, marks, delay, eviction; the bound of 500 is kept |
| JitterBuffers.JitterBuffer.SortBuffer | src/rtp/jitter_buffer.cpp:32-37 | a permutation sorted by raw sequence number, no more than std::sort promises |
| JitterBuffers.JitterBuffer.TrackSequence | src/rtp/jitter_buffer.cpp:43-49 | expected number and gap loss after one arrival |
| JitterBuffers.JitterBuffer.MarkReady | src/rtp/jitter_buffer.cpp:62-66 | every item re-marked against the delay in force |
| JitterBuffers.JitterBuffer.AdaptDelay | src/rtp/jitter_buffer.cpp:67-71 | the clamped steps of the delay, in 32 bits |
| JitterBuffers.JitterBuffer.EvictOverflow | src/rtp/jitter_buffer.cpp:74-76 | drops the front down to 500 and counts each drop as lost |
| JitterBuffers.JitterBuffer.Extract | src/rtp/jitter_buffer.cpp:80-92 | removes the first ready item, or nothing when none is ready |
| JitterBuffers.JitterBuffer.GetBufferDepthMs | src/rtp/jitter_buffer.cpp:99-103 | the signed time span truncated and cast to 32 bits |
| JitterBuffers.JitterBuffer.Reset | src/rtp/jitter_buffer.cpp:105-113 | clears buffer, tracking, loss and delay but not the inserted and extracted counters |
| JitterRuns.RunKeepsBuffer | src/rtp/jitter_buffer.cpp:39-92 | after every operation of every run the buffer is sorted and bounded, every packet is in exactly one place, and ready packets have waited their delay |
| JitterRuns.RunExists | src/rtp/jitter_buffer.cpp:39-113 | every sequence of operations under a clock that does not run backwards has a run, so the claims about runs are not empty |
| JitterRuns.StepKeepsBuffer | src/rtp/jitter_buffer.cpp:39-113 | each operation keeps that invariant |
| JitterRuns.CountersBalance | src/rtp/jitter_buffer.cpp:56-92 | inserted = extracted + buffered + evicted + discarded, modulo 2^32 |
| JitterRuns.ExtractTakesSmallestReady | src/rtp/jitter_buffer.cpp:80-92 | Extract hands out the smallest-numbered ready packet, which had waited at least the delay used at the last Insert |
| JitterRuns.TrackingStep | src/rtp/jitter_buffer.cpp:49 | the 16-bit step follows the unbounded one exactly when the sign is told right, or both answers coincide |
| JitterRuns.RunTracks | src/rtp/jitter_buffer.cpp:45-49 | within the reordering window expected_seq_ is one past the largest extended number seen, mod 2^16, across any wraps, and no arrival takes it back; packets_lost_ is the small gaps plus evictions, mod 2^32 |
| JitterRuns.LossTelescopes | src/rtp/jitter_buffer.cpp:47-49 | the advance of the expected number is the advancing packets plus all gaps counted and skipped |
| JitterRuns.InOrderLossExact | src/rtp/jitter_buffer.cpp:47-48 | for an in-order stream with steps of at most 100 the gaps counted are exactly the missing numbers |
| JitterRuns.InOrderLossCounter | src/rtp/jitter_buffer.cpp:47-76 | so its loss counter is the number of missing packets plus evictions, mod 2^32 |
| JitterRuns.RunBoundsDelay | src/rtp/jitter_buffer.cpp:67-71 | the delay stays between the smaller of initial and minimum, and the maximum, whatever jitter arrives |
| JitterRuns.DelayStep | src/rtp/jitter_buffer.cpp:67-71 | no unsigned step wraps, and the delay never drops below the minimum once there |
| JitterRuns.SubtractionIsSafe | src/rtp/jitter_buffer.cpp:69-70 | a minimum of at least 4 is exactly what keeps lowering the delay from raising it |
| JitterDelay.InsertAdapts | src/rtp/jitter_buffer.cpp:62-71 | any insertion: jitter above the delay makes it the smaller of the maximum and 10 more; otherwise a delay above the minimum, when the last and the first packet arrived less than half of it apart, becomes the larger of the minimum and 5 less; else it stays; all in 32 bits |
| JitterDelay.DelayRises | src/rtp/jitter_buffer.cpp:67-68 | over a run with jitter above the maximum the delay is the smaller of the maximum and the initial delay plus 10 for each insertion |
| JitterDelay.DelayFalls | src/rtp/jitter_buffer.cpp:69-71 | over a run without jitter or spread it is the larger of the minimum and the initial delay less 5 for each insertion |
| JitterDelay.ResetStartsAnew | src/rtp/jitter_buffer.cpp:105-113 | Reset discards what is buffered and leaves a new buffer at the initial delay, but for the two counters |
| JitterDelay.FirstPacketSetsNumber | src/rtp/jitter_buffer.cpp:45-49 | the first packet after a start or a Reset sets the expected number and counts nothing as lost |
| Words.MillisIs | src/rtp/jitter_buffer.cpp:63-65 | whole milliseconds, rounded towards zero; the cast to 32 bits is exact below 2^32 |
| JitterFifo.RunIsFifo | src/rtp/jitter_buffer.cpp:51-92 | for a strictly increasing stream the packets delivered or evicted are a prefix of those inserted, the buffer holds the rest in order, and deliveries increase |
| JitterFifo.StepIsFifo | src/rtp/jitter_buffer.cpp:51-92 | each Insert and Extract keeps that |
| JitterFifo.MarkedKeepsOrder | src/rtp/jitter_buffer.cpp:62-66 | marking is closed towards earlier arrivals |
| JitterFifo.ReadyIsFront | src/rtp/jitter_buffer.cpp:83-87 | the packet Extract takes is then the front |
| JitterFifo.MarkingKeepsOrderExactly | src/rtp/jitter_buffer.cpp:63-65 | marking is closed towards earlier items at every delay exactly when the 32-bit waits do not increase along the buffer |
| JitterFifo.LongWaitOvertakes | src/rtp/jitter_buffer.cpp:63-87 | a concrete run of the default configuration: after 2^32 ms the oldest packet reads as new and Extract hands out the one after it |
| JitterPlayout.OrderlyExactly | src/rtp/jitter_buffer.cpp:39-92 | over every run without eviction or reset loss, what is handed out followed by what is buffered is in the order of the numbers exactly when no arrival was late and every extraction found the front ready |
| JitterPlayout.StepOrderly | src/rtp/jitter_buffer.cpp:39-92 | one-operation form of that equivalence |
| JitterPlayout.LeastPlayFirst | src/rtp/jitter_buffer.cpp:39-92 | so packets of distinct numbers below all others are handed out first, in their order |
| JitterPlayout.RunMarksExactly | src/rtp/jitter_buffer.cpp:62-66 | over every run a buffered packet is ready exactly when at the last insertion its wait in 32 bits reached the delay then in force |
| VideoPath.EndToEnd | src/rtp/rtp_packet.cpp:63-115 | fragment, number, serialize, arrive in any order mixed with earlier and later packets of the stream, parse, buffer at any delay with Insert and Extract interleaved, defragment: as long as no arrival is late and every extraction finds the front ready, the fragments come in order right after the earlier packets, and when all have been handed out they reassemble to the NAL unit exactly |
| VideoPath.StreamEndToEnd | src/session/session_manager.cpp:100-124 | for a stream of frames that one session sends, numbered without a wrap, every frame handed out whole reassembles, at its place, to its unit |
| VideoPath.StreamIsNumbered | src/rtp/rtp_session.cpp:44-67 | the frames of a stream are numbered on from one another |
| VideoPath.StreamIsTimed | src/session/session_manager.cpp:111-120 | each packet of frame j carries the first timestamp plus j steps, mod 2^32, and the marker stands on the last packet of each frame |
| VideoPath.PlayoutEndToEnd | src/rtp/jitter_buffer.cpp:39-92 | a schedule that does it at any delay: the last insertion comes when each packet of the frame has waited the delay in force; then as many extractions as the frame has packets rebuild the unit |
| VideoPath.MaxDelayIsEnough | src/rtp/jitter_buffer.cpp:62-71 | with a sound configuration it is enough that the last packet comes the maximal delay after the frame, whatever jitter was measured |
| VideoPath.FrameInLine | src/rtp/jitter_buffer.cpp:32-37 | a frame played by raw numbers comes out rotated to where its numbers wrap, so in sending order exactly when the 16-bit counter does not wrap within it |
| VideoPath.FrameComesBack | src/rtp/jitter_buffer.cpp:32-37 | and then the unit comes back with the bytes after the wrap in front: right exactly when the numbers do not wrap or the two parts read the same either way round |
| VideoPath.WrappedFrameComesBackWrong | src/rtp/jitter_buffer.cpp:32-37 | a concrete run of the server's configuration: a two-packet frame numbered 65535 and 0 arrives in order and comes back wrong |
| ReceiveLoop.ZeroDelayPassesThrough | src/session/session_manager.cpp:267-281 | the server's receive loop, one extraction after each insertion, hands packets on in arrival order while it measures no jitter |
| ReceiveLoop.BacklogCountsUnready | src/session/session_manager.cpp:267-281 | over every run of the receive loop the backlog is one packet for each arrival after which nothing was ready, less what was evicted |
| ReceiveLoop.TurnGrowsExactly | src/session/session_manager.cpp:267-281 | one turn leaves the backlog as it was or, exactly when nothing is ready, makes it one larger; at 500 each arrival evicts one |
| ReceiveLoop.BacklogStays | src/session/session_manager.cpp:267-281 | so the backlog never again falls below what it was, or 499 |
| VideoPath.ParsedFrame | src/rtp/rtp_session.cpp:52-63 | the receiver parses the fragments in sending order, under numbers that increase exactly when the counter does not wrap within the frame |
| VideoPath.FrameOnWireIs | src/session/session_manager.cpp:111-119 | the datagrams a whole frame adds to the network |
| VideoPath.FilledInOrder | src/rtp/jitter_buffer.cpp:39-78 | filled with at most 500 packets in any order the buffer has those of least numbers in front, in their order, nothing lost |
| VideoPath.Draining | src/rtp/jitter_buffer.cpp:80-92 | with the first n items ready, n extractions deliver exactly these, front to back |
| ReceiveLoop.ZeroDelayMarksAll | src/session/session_manager.cpp:176 | at delay 0, as the server configures it, every insertion marks the whole buffer ready |
| ThreadPools.ThreadPool.constructor | src/net/thread_pool.cpp:6-11 | no task, no active task, every worker at the top of its loop |
| ThreadPools.ThreadPool.PushTask | src/net/thread_pool.cpp:22-26 | the locked part of Submit is the Submit step of the system |
| ThreadPools.ThreadPool.TakeTask | src/net/thread_pool.cpp:41-47 | the locked part of WorkerLoop is the Check step, with the outcome it reports |
| ThreadPools.ThreadPool.FinishTask | src/net/thread_pool.cpp:57-60 | the decrement is the Finish step |
| ThreadPools.ThreadPool.CheckDone | src/net/thread_pool.cpp:30-35 | the predicate of WaitAll is the WaitCheck step |
| ThreadPools.ThreadPool.RequestStop | src/net/thread_pool.cpp:14 | setting stop_ is the SetStop step, made without the mutex |
| ThreadPoolProofs.StepKeepsInv | src/net/thread_pool.cpp:13-63 | every step of every thread keeps the five-part invariant |
| ThreadPoolProofs.StepKeepsWake | src/net/thread_pool.cpp:22-47 | each step keeps the count of queued tasks covered |
| ThreadPoolProofs.StepKeepsDone | src/net/thread_pool.cpp:30-61 | each step keeps a notifier for sleeping WaitAll callers |
| ThreadPoolProofs.StepKeepsTasks | src/net/thread_pool.cpp:22-60 | each step conserves tasks |
| ThreadPoolProofs.StepKeepsStop | src/net/thread_pool.cpp:37-63 | each step keeps the bound on tasks started after stop_ |
| ThreadPoolProofs.StepKeepsLock | src/net/thread_pool.cpp:25-58 | the mutex is held across steps only by a thread about to block on a predicate still false |
| ThreadPoolProofs.ReachableInv | src/net/thread_pool.cpp:6-63 | every reachable state satisfies the invariant |
| ThreadPoolProofs.NoLostWakeup | src/net/thread_pool.cpp:22-63 | while a worker sleeps, queued tasks are at most the workers about to re-check plus notifications in flight; while a WaitAll sleeps with everything done, a worker is about to notify |
| ThreadPoolProofs.TasksConserved | src/net/thread_pool.cpp:22-60 | submitted = started in submission order then queued; started = finished plus running; active_tasks_ counts the running |
| ThreadPoolProofs.WaitAllIsRight | src/net/thread_pool.cpp:30-35 | WaitAll returns only when everything submitted so far has finished |
| ThreadPoolProofs.AtMostOneLateTask | src/net/thread_pool.cpp:38-46 | after stop_ a worker starts at most one more task |
| ThreadPoolProofs.OneStartAfterStop | src/net/thread_pool.cpp:38-46 | in every run from a state in which stop_ is set a worker starts at most one task |
| ThreadPoolProofs.WorkerWalks | src/net/thread_pool.cpp:37-63 | whatever step any thread takes, a worker stays put or goes on in its loop; every wakeup tests the predicate anew under the mutex, before the worker takes the first task, leaves or blocks |
| ThreadPoolProofs.WaiterWalks | src/net/thread_pool.cpp:30-35 | and a caller of WaitAll tests its predicate on every wakeup and returns only from there |
| ThreadPoolProofs.WorkersStay | src/net/thread_pool.cpp:6-11 | the pool keeps as many workers as it was made with, at first all at the top of their loop |
| ThreadPoolProofs.StuckMeansDone | src/net/thread_pool.cpp:22-63 | before stop_ a pool with a worker can be stuck only with its work done and every WaitAll returned |
| ThreadPoolProofs.InternalLowersMeasure | src/net/thread_pool.cpp:22-63 | every step the pool takes by itself lowers a measure |
| ThreadPoolProofs.LeftAloneItFinishes | src/net/thread_pool.cpp:22-63 | so left alone it finishes every task and every WaitAll within a bound, whatever the schedule |
| ThreadPoolProofs.AnnounceReachesAll | src/net/thread_pool.cpp:13-15 | no worker ever sleeps after the destructor notifies exactly when none is then between finding the predicate false and blocking |
| ThreadPoolProofs.JoinReturns | src/net/thread_pool.cpp:13-18 | then every run of the pool's own steps is bounded and, when it cannot go on, has all workers gone |
| ThreadPoolProofs.JoinReturnsExactly | src/net/thread_pool.cpp:13-18 | in every reachable state before the destructor notifies: every schedule of the pool's own steps ends with all workers gone, so that the join returns, exactly when no worker is between finding the predicate false and blocking |
| ThreadPoolProofs.JoinCanHang | src/net/thread_pool.cpp:13-18 | such a state is reached: a concrete run to a stuck state with the worker asleep |
| CallControl.RunKeepsInv | src/session/session_manager.cpp:147-245 | over every run, contexts exist for exactly the connected and disconnecting calls, the descriptor map holds exactly their accepted descriptors under their owners, and calls are in one of four states |
| CallControl.StepKeepsInv | src/sip/sip_manager.cpp:68-372 | each SIP operation keeps the three maps in step |
| CallControl.FdMapKeys | src/session/session_manager.cpp:251-322 | when epoll accepts all, the keys of fd_map_ are exactly the receive descriptors of live contexts |
| CallControl.HangUpIffConnected | src/sip/sip_manager.cpp:105-116 | HangUp is allowed exactly for a connected call |
| CallControl.CollisionBreaksCoherence | src/sip/sip_manager.cpp:68-83 | a colliding generated id breaks coherence exactly when it names a call with a context |
| CallControl.TimersFailExactly | src/sip/sip_manager.cpp:354-372 | ProcessTimers fails a call exactly when its timer is due at the second reading and not both due at the first and allowed a retransmission |
| CallControl.PassOnlyFails | src/sip/sip_manager.cpp:354-372 | one pass only moves calls to the failed state and drops what failed calls had; it changes no state exactly when no timer falls due between its two readings |
| CallControl.TimerRunsChangeNothing | src/sip/sip_manager.cpp:354-372 | a run of ProcessTimers leaves every state, answered or not, every context and every descriptor as it was exactly when no pass of it finds a call that has not failed due at the second reading without having restarted its timer at the first |
| CallControl.TickBetweenReadingsFailsCall | src/sip/sip_manager.cpp:357-366 | a concrete run under the default configuration in which an answered call fails because the clock ticks between the two tests |
| CallControl.SweepIsPass | src/sip/sip_manager.cpp:354-372 | the pass does the same in whatever order the map yields the calls |
| CallEffects.ResponseEffect | src/sip/sip_manager.cpp:314-339 | status 300 and above fails the call in whatever state and drops its media; success connects a calling one, with media, and erases a disconnecting one with all it had; everything else, and an unknown call, changes nothing |
| CallEffects.AnswerEffect | src/sip/sip_manager.cpp:85-103 | accepting connects the call, with media; rejecting erases it with all it had; an unknown call changes nothing |
| CallEffects.InviteEffect | src/sip/sip_manager.cpp:243-294 | a new id is connected at once, with media and the timer started; an empty or known one changes nothing |
| CallEffects.EndEffect | src/sip/sip_manager.cpp:300-352 | BYE, CANCEL and cancellation erase a known call in whatever state with all it had, and do nothing otherwise |
| CallEffects.HangUpEffect | src/sip/sip_manager.cpp:105-116 | a connected call becomes disconnecting and keeps its media; any other is left alone |
| CallEffects.MakeCallEffect | src/session/session_manager.cpp:58-61 | below the session limit a calling call is stored with its timer started, at the limit nothing |
| CallEffects.TimersEffect | src/sip/sip_manager.cpp:354-372 | what one pass makes of any call and its context: a restart of twice the initial interval, failure, or nothing |
| CallEffects.TimersKeepWatched | src/sip/sip_manager.cpp:363-367 | and of the descriptors exactly those of failed calls are no longer watched |
| CallEffects.RestartForgets | src/sip/sip_manager.cpp:357-362 | a restart takes twice the initial interval after no counted retransmission, four times after one, in 32 bits, and counts none |
| CallEffects.ExpiredIs | src/sip/sip_call.cpp:34-39 | in unbounded arithmetic: a timer is due when armed and its duration has passed, while less than 2^32 ms have |
| CallControl.ConnectKeepsInv | src/session/session_manager.cpp:222-237 | entering the connected state keeps the maps in step |
| CallControl.FailKeepsInv | src/sip/sip_manager.cpp:334-338 | so does failing |
| CallControl.EndKeepsInv | src/sip/sip_manager.cpp:300-310 | so does ending |
| CallControl.HangUpKeepsInv | src/sip/sip_manager.cpp:105-116 | so does hanging up |
| CallControl.TimersKeepInv | src/sip/sip_manager.cpp:354-372 | so does a pass over the timers |
| CallControl.AddKeepsMedia | src/session/session_manager.cpp:201-205 | a new context with sockets of its own keeps the descriptor map exact |
| CallControl.RemoveKeepsMedia | src/session/session_manager.cpp:213-220 | so does removing contexts |
| CallTraces.IncomingCallLeavesNoTrace | src/sip/sip_manager.cpp:243-352 | an incoming call ended by BYE, CANCEL or cancellation restores the state exactly |
| CallTraces.HangUpLeavesNoTrace | src/sip/sip_manager.cpp:105-116 | so do hanging up and the response to the BYE |
| CallTraces.OutgoingCallLeavesNoTrace | src/sip/sip_manager.cpp:68-332 | a whole outgoing call, made, answered, hung up and confirmed, restores the state exactly |
| CallTraces.RefusedCallStays | src/sip/sip_manager.cpp:334-338 | a refused call stays stored as failed, without media |
| CallTraces.EndUndoesCall | src/session/session_manager.cpp:213-239 | ending takes back the call, its context and its descriptors and nothing else |
| CallTraces.OthersUntouched | src/sip/sip_manager.cpp:68-352 | an operation on one call changes no other call, context or descriptor |
| Managers.SipCall.constructor | src/sip/sip_call.cpp:9-13 | an idle call |
| Managers.SipCall.SetState | src/sip/sip_call.cpp:19-26 | both records of the state change together |
| Managers.SipCall.StartTimer | src/sip/sip_call.cpp:28-32 | restarts the timer and zeroes the retransmit count |
| Managers.SipCall.IsTimerExpired | src/sip/sip_call.cpp:34-39 | due when armed and the elapsed milliseconds, in 32 bits, reach the duration |
| Managers.SipManager.MakeCall | src/sip/sip_manager.cpp:68-83 | once initialized stores a calling call under the generated id, before that nothing |
| Managers.SipManager.AnswerCall | src/sip/sip_manager.cpp:85-103 | the operation in place, with what it returns |
| Managers.SipManager.HangUp | src/sip/sip_manager.cpp:105-116 | the operation in place; succeeds exactly when allowed |
| Managers.SipManager.CancelCall | src/sip/sip_manager.cpp:118-125 | the operation in place; succeeds exactly for a stored call |
| Managers.SipManager.HandleInvite | src/sip/sip_manager.cpp:243-294 | rings, is announced, and is answered at once; a known id is ignored |
| Managers.SipManager.HandleBye | src/sip/sip_manager.cpp:300-312 | ends a stored call |
| Managers.SipManager.HandleResponse | src/sip/sip_manager.cpp:314-339 | connects, ends or fails by status and state |
| Managers.SipManager.HandleCancel | src/sip/sip_manager.cpp:341-352 | ends a stored call |
| Managers.SipManager.ProcessTimers | src/sip/sip_manager.cpp:354-372 | the loop over the calls, in any order, is the pass of the model |
| Managers.SessionManager.MakeCall | src/session/session_manager.cpp:58-61 | refuses at the session limit and before initialization, otherwise makes the call |
| Managers.SessionManager.GetOrCreateContext | src/session/session_manager.cpp:147-211 | returns the existing context or stores and registers the new one |
| Managers.SessionManager.RemoveContext | src/session/session_manager.cpp:213-220 | unregisters and erases, or does nothing |
| Managers.SessionManager.OnSipEvent | src/session/session_manager.cpp:222-245 | connected creates a context and syncs its ports; disconnected and failed remove it |
| Managers.SessionManager.RegisterRtpFds | src/session/session_manager.cpp:251-312 | the accepted descriptors are mapped to the call |
| Managers.SessionManager.UnregisterRtpFds | src/session/session_manager.cpp:314-322 | both descriptors leave the map |
| Rtcp.Parse | src/rtp/rtcp_handler.cpp:89-119 | the two nested loops compute the walk and tell whether it stays inside the datagram, for every datagram; each pass shortens what is left |
| Rtcp.OverreadsExactly | src/rtp/rtcp_handler.cpp:89-115 | Parse reads past its datagram exactly when that has at least 8 bytes and ends, after whole frames, in 4 to 7 bytes that start a report of length word 0 |
| Rtcp.BareReportOverreads | src/rtp/rtcp_handler.cpp:100 | such a datagram: an empty receiver report and the first word of another |
| Rtcp.BareReportTakesNextWord | src/rtp/rtcp_handler.cpp:100-103 | a report of length word 0 before the end takes the next frame's first word for its SSRC and has no block |
| Rtcp.WalkIsHomomorphic | src/rtp/rtcp_handler.cpp:94-117 | walking a concatenation of frames reads them one after the other and leaves the tail |
| Rtcp.ParseCompound | src/rtp/rtcp_handler.cpp:89-119 | a compound of at least 8 bytes is consumed whole: all blocks in order, their number, the last report SSRC |
| Rtcp.CompoundRoundTrip | src/rtp/rtcp_handler.cpp:13-119 | a compound built from sender reports, receiver reports of at most 31 blocks and other packets reads back: every block put in, in order, with only cumulative_lost reversed, their number, and the SSRC of the last report |
| Rtcp.ReceiverReportReadsBack | src/rtp/rtcp_handler.cpp:32-57 | a receiver report is a well-formed frame and all its blocks come back exactly when there are at most 31 |
| Rtcp.BlockReadsBack | src/rtp/rtcp_handler.cpp:45-55 | every field of a block comes back, cumulative_lost byte-reversed |
| Rtcp.BlockSurvives | src/rtp/rtcp_handler.cpp:104-111 | a block is unchanged exactly when its cumulative_lost is a byte palindrome |
| Rtcp.BlockLayout | src/rtp/rtcp_handler.cpp:45-55 | every field of a block stands where section 6.4.1 of RFC 3550 puts it, in network order |
| Rtcp.FrameLayout | src/rtp/rtcp_handler.cpp:95-97 | the length field counts the 32-bit words of a frame, less one |
| Rtcp.ReportHeads | src/rtp/rtcp_handler.cpp:13-43 | version, padding, count and type of both reports |
| Rtcp.SenderReportFields | src/rtp/rtcp_handler.cpp:24-28 | the words of the sender information, in network order |
| Rtcp.BlocksTaken | src/rtp/rtcp_handler.cpp:99-115 | from any frame: none unless it is a report, otherwise as many 24-byte blocks as its five-bit count says and as fit |
| Rtcp.CutOffIsIgnored | src/rtp/rtcp_handler.cpp:92-98 | bytes after the whole frames that start no whole frame change nothing |
| Rtcp.SenderReportReadsBack | src/rtp/rtcp_handler.cpp:13-30 | a sender report yields its SSRC and no block |
| Rtcp.SenderReportWithBlocksMisread | src/rtp/rtcp_handler.cpp:99-115 | blocks in a sender report are looked for where the sender information stands |
| Rtcp.SenderReportBlocksSurvive | src/rtp/rtcp_handler.cpp:99-115 | they come back exactly when putting the 20 bytes of sender information in front of their bytes leaves these as they were |
| Rtcp.BuildReceiverReport | src/rtp/rtcp_handler.cpp:32-57 | the vector filled by index holds the head and the blocks in order |
| Rtcp.BuildSenderReport | src/rtp/rtcp_handler.cpp:13-30 | the 28 bytes are the frame of a sender report, its NTP words low word first |
| Rtcp.NtpWordsAreExchanged | src/rtp/rtcp_handler.cpp:26 | which is the order of section 6.4.1 of RFC 3550 exactly when both words are the same |
| Rtcp.ReadBlocks | src/rtp/rtcp_handler.cpp:101-114 | the inner loop takes as many blocks as counted and as fit |
| SdpProofs.AnswerRoundTrip | src/common/sdp.cpp:83-97 | what BuildAnswer prints Parse reads back: address, both media entries, and FindAudio and FindVideo return them, under either line ending |
| SdpProofs.LineEndsDoNotMatter | src/common/sdp.cpp:26-28 | any text parses the same with CRLF and with bare LF, its last line terminated or not |
| SdpProofs.ReadsMediaLine | src/common/sdp.cpp:40-48 | an m= line is read back field by field |
| SdpProofs.ReadsConnection | src/common/sdp.cpp:31-36 | a c= line yields its address |
| SdpProofs.LinesOfText | src/common/sdp.cpp:26 | getline yields exactly the lines printed |
| SdpProofs.DecReadsBack | src/common/sdp.cpp:72-75 | a printed number scans to itself |
| SdpLines.ReadsFormats | src/common/sdp.cpp:45-46 | any list of payload types, a space before each, is read whole and in order, up to the first token that is no number |
| SdpLines.ReadsFormatsInRange | src/common/sdp.cpp:45-46 | and up to the first number that does not fit an int |
| SdpLines.ReadsAnyMediaLine | src/common/sdp.cpp:40-48 | an m= line with any number of formats yields all its fields |
| SdpLines.PortOutOfRange | src/common/sdp.cpp:44 | a port of 65536 or more reads as 65535 and ends the reading of the line |
| SdpLines.PortMissing | src/common/sdp.cpp:44 | a port that is missing or no number reads as 0 and ends it too |
| SdpLines.NegativePortWraps | src/common/sdp.cpp:44 | a negative port wraps in 16 bits |
| SdpLines.ReadsSigned | src/common/sdp.cpp:45-46 | a signed number is read exactly when it fits an int |
| SdpLines.AnySpaceSeparates | src/common/sdp.cpp:32-34 | each of the six white-space characters separates words |
| SdpLines.RtpmapGoesToLast | src/common/sdp.cpp:51-54 | an rtpmap line sets the map of the media line before it and nothing else; without one it is ignored |
| SdpLines.ConnectionReplaces | src/common/sdp.cpp:31-36 | a c= line replaces the address by its third word; without one it changes nothing |
| SdpLines.OthersIgnored | src/common/sdp.cpp:25-55 | every other line is ignored |
| SdpLines.FindsFirst | src/common/sdp.cpp:7-15 | the first entry of a kind is the one found |
| SdpProofs.AnswerIsText | src/common/sdp.cpp:66-96 | the concatenation the builders stream out is the text of nine lines |
| Sdp.Parse | src/common/sdp.cpp:21-57 | the line loop computes the fold over the lines and succeeds exactly if there is media |
| Sdp.ParseFormats | src/common/sdp.cpp:45-46 | the format loop reads integers until one fails |
| Sdp.FirstOf | src/common/sdp.cpp:7-15 | the first entry of a kind, or none exactly when there is none |
| SdpNegotiation.PeerLearnsReceivePorts | src/sip/sip_manager.cpp:452-491 | the far end learns from an answer exactly the address and receive ports of this end |
| SdpNegotiation.AnswerOffersTypes | src/sip/sip_manager.cpp:481-491 | an answer offers payload type 96 for audio and 97 for video, each alone |
| SdpNegotiation.OneMediumKeepsOther | src/sip/sip_manager.cpp:465-478 | the port of a medium that is absent is kept; a body without media changes nothing |
| SdpNegotiation.NoConnectionErases | src/sip/sip_manager.cpp:464 | the address is not kept: a body without a c= line erases it |
| SdpNegotiation.Calls.ProcessIncomingSdp | src/sip/sip_manager.cpp:452-479 | takes over address and ports of the media present into the call, or nothing when there is no media or no such call |
| IoMultiplexers.PassRemovesFiredOneShots | src/net/io_multiplexer.cpp:82-97 | a pass removes exactly the one-shots it fired and keeps the rest in order, exactly unless an unfired one carries the mark of a spent one |
| IoMultiplexers.RearmedIsAhead | src/net/io_multiplexer.cpp:85-90 | exactly which timers lie in the future after a pass |
| IoMultiplexers.RecurringSurvives | src/net/io_multiplexer.cpp:85-96 | one pass keeps a recurring timer, re-armed, and fires it if it is due |
| IoMultiplexers.RunKeepsIds | src/net/io_multiplexer.cpp:132-146 | over every such run shorter than the 64-bit id counter the listed timers have ids of their own, in increasing order |
| IoMultiplexers.PassFiresExactlyDue | src/net/io_multiplexer.cpp:82-90 | in every reachable state a pass calls exactly the timers that are due, one-shot or recurring, each once, in list order |
| IoMultiplexers.FirstFiring | src/net/io_multiplexer.cpp:85-138 | a new timer first fires at the first pass that comes its interval or more after it was added |
| IoMultiplexers.OneShotFiresOnce | src/net/io_multiplexer.cpp:85-97 | after the pass that fires a one-shot no pass ever does again |
| IoMultiplexers.TimersKeepKind | src/net/io_multiplexer.cpp:82-146 | over every run a timer keeps the interval and the kind it was added with |
| IoMultiplexers.FiringsAreSpaced | src/net/io_multiplexer.cpp:82-97 | over every run of passes, additions and removals of timers with passes at most G ms apart, two successive passes that fire the id of a recurring timer of interval I are at least I and less than I + G ms apart |
| IoMultiplexers.NextTimeoutIsRight | src/net/io_multiplexer.cpp:69-80 | the timeout is the least time left in unbounded arithmetic, 0 if a timer is due, -1 if none exists, exactly when: with a timer due, one reads as due in 64 bits or the loop starts from 0; with none due, none reads as due and some time left is no more than what the loop starts from |
| IoMultiplexers.NearTimersAreEnough | src/net/io_multiplexer.cpp:69-80 | timers due for at most 2^63 ms or less than 2^31 ms ahead satisfy it |
| IoMultiplexers.FarTimerTruncates | src/net/io_multiplexer.cpp:76 | a timer 2^32 ms ahead gives 0 though nothing is due |
| IoMultiplexers.FartherTimerReadsAsDue | src/net/io_multiplexer.cpp:73-74 | a timer 2^63 ms ahead gives 0 though nothing is due |
| IoMultiplexers.LongOverdueIsMissed | src/net/io_multiplexer.cpp:73-76 | a timer overdue for 2^63 + 1 ms gives -1, as if there were none |
| IoMultiplexers.RemoveUndoesAdd | src/net/io_multiplexer.cpp:132-146 | removing a timer undoes adding it exactly when its id was unused |
| IoMultiplexers.IoMultiplexer.constructor | src/net/io_multiplexer.cpp:10-16 | no descriptors, no timers, ids from 1 |
| IoMultiplexers.IoMultiplexer.AddFd | src/net/io_multiplexer.cpp:23-36 | map and kernel set change together, or not at all |
| IoMultiplexers.IoMultiplexer.DelFd | src/net/io_multiplexer.cpp:54-62 | a descriptor the kernel does not watch is left in the map |
| IoMultiplexers.IoMultiplexer.AddTimer | src/net/io_multiplexer.cpp:132-138 | appends a timer due one interval from now under the next id |
| IoMultiplexers.IoMultiplexer.RemoveTimer | src/net/io_multiplexer.cpp:140-146 | drops the timers of that id and no other |
| IoMultiplexers.IoMultiplexer.FireTimers | src/net/io_multiplexer.cpp:82-97 | fires the due timers in list order and leaves the list of the pass |
| IoMultiplexers.IoMultiplexer.GetNextTimeout | src/net/io_multiplexer.cpp:69-80 | the running minimum with its 32-bit truncation |

## Left out

- Rtcp.ReceiverReportReadsBack: stated for at most 10922 blocks, the most whose size the 16-bit length field can hold; beyond that the length wraps and the packet is not one frame.
- IoMultiplexers.FiringsAreSpaced: assumes that the clock plus the interval stays within 64 bits, and a run shorter than the 64-bit id counter; `RearmedIsAhead` says exactly what happens when the clock does not.
- Rtcp.Parse: where the code reads past its datagram the method ends and says so; what the code would find there is not modelled.
- RtpSessions.RtpSession.SendVideoFrame: starts from the encoded frame and requires a positive frame rate, by which the code divides; encoding is not modelled.
- Managers.SessionManager.GetOrCreateContext: a context is its receive descriptors and local ports; encoders, decoders, RTCP handler and the copy of the call info are not modelled.
- FFmpeg capture, encoding and decoding, and `OnRtpData`, which only forwards to them.
- `CalculateJitter`: the jitter estimate is an arbitrary input, which covers whatever it computes.
- `ReceivePacket`: receiving counters and learning the remote address from the first datagram; `SetRemote` stands for the latter.
- AAC packing: the frame is not recovered as written, since `Pack` writes a zero AU-headers length and `Unpack` takes its offset from it.
- RTCP: the SDES body, `NowNtp`, and `UpdateFromReport`; an SDES packet is a frame of another type to the walk.
- SDP: a negative or out-of-range number in received text follows libstdc++, which wraps a negated unsigned number; the builders are one function, as they write the same text.
- SIP: text of requests and responses, tags, CSeq and header caching, registration, the error text of a failed call, and the remote address stored by `ProcessIncomingSdp` inside a call; messages are already parsed.
- The shift `1 << RetransmitCount()` is a power of two without a width; the count is 1 there in every run.
- `Stop`: it clears contexts without unregistering their descriptors, so the three-map invariant is claimed between `Start` and `Stop` only; replacing the event callback after `Start` is not modelled.
- Lock-level interleavings of the session manager with the epoll thread: each operation is atomic.
- The epoll loop itself (`Run`), `ModFd`, sockets, configuration, logging and `main`.
