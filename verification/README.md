# Video streaming server and client: a model and its proofs

This project models the parts of a two-program video streaming system (a server that encodes and
sends MJPEG video, a client that reassembles and plays it) whose correctness is not visible from
reading one function, and proves what they do together. Verify with
`dafny verify dfyconfig.toml`.

| file | what it models |
|---|---|
| `Fragments.dfy` | the datagrams of the MJPEG-over-UDP path, described on the bytes waiting to be sent; whole runs of frames as values |
| `VideoSender.dfy` | the frame loop as it is written: one flat array, tags written into it in place, proved to produce what `Fragments` describes |
| `Reassembly.dfy` | the client's receive loop over its local array, and what any stream of datagrams does to it |
| `Streaming.dfy` | server and client together: the round trip and its exact condition, recovery after loss |
| `SavedFile.dfy` | file mode against network mode |
| `ConcurrentQueue.dfy` | the queue class as interleaved thread steps over a mutex and a condition variable |
| `FlowControl.dfy` | the playback rate controller in its feedback loop, as its own guard predicts it |
| `LateFlow.dfy`, `LateDistance.dfy`, `LateSettling.dfy` | the same controller with the delay of the real loop: when it stays safe, when it never drifts further off, when it settles |
| `Player.dfy` | the sampling loop that measures playing time across pauses and drives the controller |
| `Text.dfy`, `Rtsp.dfy`, `RtspSession.dfy` | `split`, `atoi`, printed and parsed RTSP messages, whole sessions |
| `SessionGate.dfy` | the RTSP thread and the video thread over their shared globals |
| `RtpPacket.dfy` | RTP packets through signed chars |
| `Sequences.dfy` | shared facts about sequences |

Code that updates an array or a global in place is a class or a method with a loop, proved against a
function on values; the theorems are about those functions and about whole runs. The thresholds 1500
and 20000, the capacity 100000 and the client's buffer size are parameters (`Config`, with `SHIPPED`
for the shipped values). The only demand on them is that the buffer holds fewer than 128 whole
chunks, so that no chunk number collides with the end tag 127.

## What was found

* **The round trip has an exact condition.** Everything the client writes plus what still waits in
  the server equals the encoded frames if and only if no flush happens at an exact multiple of
  `MAX_FLUSH_BUFF_SIZE` above it (`Streaming.RoundTripExactly`). Such a flush sends no datagram
  tagged 127 and leaves the buffer full; a single frame of 39999 bytes does it with the shipped
  values (`ShippedCorner`). What comes out afterwards, byte for byte, and the doubled client buffer
  it needs, are `CornerThenFlush`, `ScarsExactly` and `CornerNeedsRoom`.
* **The rate controller has lags it never removes.** Its guard fires exactly from 156 ms ahead on,
  and from 1992 to 2000 ms behind. In the loop that the guard's own prediction describes, playback
  settles within 75 ms if and only if the starting lag is not one of those or a multiple of 537 ms
  above the second range (`FlowControl.SettlesExactly`).
* **The player's loop reads the playout point too early for the controller.** It reads it just after
  setting a rate and uses it one sample later, so every lag the controller sees is measured against a
  playout point one period old and reflects the rate chosen two samples earlier. At every sample of
  an uninterrupted run the playout itself stays at most one period ahead of real time if and only if
  the first lag is not negative, not in 1963..1991 ms and not, beyond 2000 ms, one of the thirteen
  values from 1979 on, plus a multiple of 537 ms (`Player.LoopSafeExactly`). Leaving out the demand
  that the first lag is not negative, the same condition decides whether the distance from real time,
  once beyond one period, ever grows (`LoopNeverFarther`). From 3065 ms the playout ends
  919 ms ahead and stays there (`LoopOvershoots`). The lag the controller sees stays above minus one
  period from somewhat more first lags (`LoopLagExactly`); that bound allows the playout two periods.
* **What the real loop settles to is ahead of real time.** It brings the lag it sees within 75 ms if
  and only if the first lag is in -155..1968 ms or beyond 2000 ms and not one of nine values from
  1983 on, plus a multiple of 537 ms (`Player.LoopSettlesExactly`). The playout then runs 75 to 225 ms
  ahead.
* **CSeq is echoed only once per session.** Both parsers read their counter from the first line of a
  message, so from the second request on, requests carry CSeq 201 and replies CSeq 1, where section
  12.17 of RFC 2326 asks for an echo (`RtspSessions.OnlyFirstIsEchoed`).
* **PAUSE and TEARDOWN do not stop the stream**, unlike the state table in section A.2 of RFC 2326
  (`SessionGate.OthersAreIgnored`).
* **The saved file is not always the stream.** A flush of at most `MAX_FLUSH_BUFF_SIZE` bytes writes
  only the frame that triggers it and drops the ones that were waiting
  (`SavedFiles.FileFramesExactly`).

## Model

| member | source | states |
|---|---|---|
| Fragments.DataChunksTile | Server/src/Server.cpp:763-786 | chunks 0..n-1 of a flush are n in number and concatenate to exactly the first bytes that were waiting |
| Fragments.DataChunkAt | Server/src/Server.cpp:763-786 | chunk i is tagged i and carries the MAX buffer bytes from position i*MAX on, the first one byte less |
| Fragments.FlushTiles | Server/src/Server.cpp:761-808 | the payloads of a flush tile the waiting bytes: every one is sent once and in order |
| Fragments.FlushTags | Server/src/Server.cpp:763-800 | every datagram is at most MAX+1 bytes, all but the last are tagged with their number and never 127, the last is tagged 127 exactly outside the corner |
| Fragments.FlushCount | Server/src/Server.cpp:762-800 | a flush takes the fewest datagrams that MAX buffer bytes each allow; it is one datagram exactly up to MAX bytes |
| Fragments.SendsExactly | Server/src/Server.cpp:761-806 | a frame sends something exactly when the waiting bytes, the frame and the tag byte are more than MIN; file mode then writes all that waited if they are more than MAX, and the frame alone otherwise |
| Fragments.FirstFlush | Server/src/Server.cpp:747-761 | over whole runs nothing has been sent, and every byte waits, exactly as long as the frames so far and the tag byte are at most MIN |
| Fragments.ShippedThresholds | Server/src/Server.h:35-36 | with the shipped values a first frame of up to 1499 bytes waits, up to 19999 bytes make one datagram, and more are cut up |
| Fragments.SizeIsBufferSize | Server/src/Server.cpp:755-759 | the buffer size over a run is the tag byte plus what waits, or 0 |
| VideoSending.VideoSender.Accumulate | Server/src/Server.cpp:747-759 | the copy loop appends the encoded frame behind what waits, whichever of its two branches runs, and keeps byte 0 free |
| VideoSending.VideoSender.EmitFirst | Server/src/Server.cpp:763-773 | the first chunk goes out with tag 0 and the first MAX-1 waiting bytes |
| VideoSending.VideoSender.EmitChunk | Server/src/Server.cpp:775-786 | writing tag i over the last byte of the chunk before it still sends chunk i as it was before the flush began |
| VideoSending.VideoSender.EmitWhole | Server/src/Server.cpp:763-786 | the loop over all whole chunks emits exactly the numbered chunks of the waiting bytes, and changes the buffer only at the tag slots |
| VideoSending.VideoSender.EmitRest | Server/src/Server.cpp:787-798 | the shorter last chunk completes the flush with tag 127 and empties the buffer |
| VideoSending.VideoSender.FlushLarge | Server/src/Server.cpp:762-798 | a long flush hands over the datagrams of the waiting bytes; at a multiple of MAX the buffer keeps them, with the tag slots spoilt, otherwise it is empty |
| VideoSending.VideoSender.FlushSmall | Server/src/Server.cpp:799-807 | a flush of at most MAX bytes sends all that waits as one datagram tagged 127, writes only the newest frame in file mode, and empties the buffer |
| VideoSending.ChunkUntouched | Server/src/Server.cpp:775-780 | after tags 1..i are in place, chunk i still reads as before the flush |
| VideoSending.VideoSender.HandleFrame | Server/src/Server.cpp:742-808 | one iteration of the frame loop refines one step of the run on values, in network and in file mode, and sends exactly when the buffer has grown beyond MIN bytes |
| VideoSending.VideoSender.RunVideoLoop | Server/src/Server.cpp:723-823 | the loop over all encoded frames refines the whole run |
| Reassembly.Reassembler.Receive | Client/src/netClient.cpp:302-319 | one datagram: tag stripped, payload appended to the local array, everything written out and the array emptied on tag 127 |
| Reassembly.NothingLost | Client/src/netClient.cpp:297-334 | over any stream, output plus partial buffer is what was there before plus every payload byte, in order |
| Reassembly.ResyncAfterEnd | Client/src/netClient.cpp:310-317 | after any delivered 127 datagram the rest of the output is that of a freshly started client, whatever was lost before |
| Reassembly.LossKeepsOrder | Client/src/netClient.cpp:297-334 | for every subset of datagrams lost without reordering, output plus partial buffer is a subsequence of the payload sent |
| Streaming.GroupDelivered | Client/src/netClient.cpp:320-332 | a group is written whole if its last datagram is tagged 127 and kept whole otherwise, and needs client buffer for exactly what was kept plus its payload |
| Streaming.FlushDelivered | Server/src/Server.cpp:761-808 | what one flush of the server does to the client, corner and not, and the room it needs |
| Streaming.RoundTrip | Server/src/Server.cpp:747-808 | outside the corner, stdout plus the unsent residue is the concatenation of all frames and the client holds nothing between frames |
| Streaming.RoundTripExactly | Server/src/Server.cpp:787-798 | that law holds for a run if and only if none of its flushes hits the corner |
| Streaming.ClientBufferSuffices | Client/src/netClient.cpp:305-308 | outside the corner a client buffer as long as the server's is never overrun |
| Streaming.ShippedCorner | Server/src/Server.h:35-36 | with the shipped thresholds one frame of 39999 bytes breaks the law: nothing reaches stdout and the frame stays buffered |
| Streaming.ScarsExactly | Server/src/Server.cpp:775-777 | after a corner flush exactly the k-1 bytes at the tag slots hold the chunk numbers and every other byte is unchanged |
| Streaming.CornerFlush | Server/src/Server.cpp:787-798 | a corner flush delivers its payload D, emits nothing, and leaves the spoilt D in the server |
| Streaming.CornerThenFlush | Server/src/Server.cpp:775-798 | when the next frame F flushes normally the client emits D, then spoilt D, then F |
| Streaming.CornerNeedsRoom | Client/src/netClient.cpp:320-326 | the client survives that exactly with a buffer of 2\|D\|+\|F\| bytes |
| Streaming.SizeBetweenFrames | Server/src/Server.cpp:755-807 | between frames the size is 0, or 2 to MIN, or a multiple of MAX left by a corner flush |
| Streaming.RecoversAfterLoss | Client/src/netClient.cpp:297-334 | lose any datagrams of the first part of a run but its last: what the client writes in the second part is exactly the bytes waiting at the split and the later frames |
| Streaming.Loopback | Client/src/netClient.cpp:297-334 | a server object and a client object run together: stdout plus unsent bytes are the frames |
| Streaming.ReceiveAll | Client/src/netClient.cpp:265-334 | the receive loop over a finite stream computes the delivery of that stream |
| SavedFiles.FileFramesExactly | Server/src/Server.cpp:766-806 | outside the corner the file is the concatenation of exactly those frames that leave with a long flush or trigger their own |
| SavedFiles.WrittenAt | Server/src/Server.cpp:801-805 | for any pattern of short and long flushes, the mask of written frames built up frame by frame marks exactly the frames that leave with a long flush or trigger their own |
| SavedFiles.SavedFileExactly | Server/src/Server.cpp:767-806 | the file is a subsequence of the network payload, and equals it if and only if no short flush found frames waiting |
| ConcurrentQueues.RunInvariant | Server/src/queue.cpp:35-77 | in every state of every run of any number of threads: at most the owner of the lock is in a critical section; the results of all pops so far, then the queue, are the arguments of all pushes so far, in lock order; and if a thread sleeps the queue is no longer than the number of threads that still have to notify or to recheck |
| ConcurrentQueues.SleepersAreAttended | Server/src/queue.cpp:67-77 | when a thread sleeps while the queue is not empty, another one has still to notify or to recheck |
| ConcurrentQueues.SleepersAreNotStuck | Server/src/queue.cpp:35-77 | in every such state of every run the holder of the lock, or a thread that has still to notify or to recheck, can take a step now, without a new call and without a spurious wakeup |
| ConcurrentQueues.StepKeepsLock | Server/src/queue.cpp:37-76 | every step keeps the lock exclusive and held by one of the threads |
| ConcurrentQueues.StepKeepsFifo | Server/src/queue.cpp:38-76 | every step adds to the end of the queue exactly what a push brings and takes from its front exactly what a pop hands to its caller |
| ConcurrentQueues.NotifyKeepsWakeups | Server/src/queue.cpp:39-40 | notifying after unlocking, with or without a sleeper, loses no wakeup |
| ConcurrentQueues.StepKeepsWakeups | Server/src/queue.cpp:54-77 | neither does any other step, including a competing try_pop and spurious wakeups |
| ConcurrentQueues.ConcurrentQueue.Push | Server/src/queue.cpp:38 | the pushed value becomes the last of the queue, and this is the interleaved model's step |
| ConcurrentQueues.ConcurrentQueue.NotifyOne | Server/src/queue.cpp:40 | notify_one wakes one sleeper if there is one |
| ConcurrentQueues.ConcurrentQueue.Query | Server/src/queue.cpp:43-52 | empty and size report the queue as it is under the lock |
| ConcurrentQueues.ConcurrentQueue.TryPop | Server/src/queue.cpp:54-65 | false, the argument and the queue untouched on an empty queue; otherwise the oldest value, removed from the queue |
| ConcurrentQueues.ConcurrentQueue.TestAndPop | Server/src/queue.cpp:70-76 | one pass of the while test: release and sleep on an empty queue, otherwise leave with the oldest value, removed from the queue |
| FlowControl.FlowController | Client/src/libVLC/flowcontrol.h:38-109 | for every lag and period the rate is 1 within 75 ms and at 2000 ms, and otherwise the positive solution of r*r*(1-d/tb) = 1, replaced by 1 exactly where playing at it for one period would leave the playout more than two periods ahead; sqrt is defined on every argument it gets |
| FlowControl.SmoothRateUnique | Client/src/libVLC/flowcontrol.h:64 | that equation has at most one positive solution, so the rate is determined |
| FlowControl.RateIsRight | Client/src/libVLC/flowcontrol.h:60-94 | the rate computed through the square root is the one the equation and the guard determine |
| FlowControl.RadicandSign | Client/src/libVLC/flowcontrol.h:49-64 | sqrt never gets a negative argument and the division is by zero exactly at 2000 ms |
| FlowControl.FarRate | Client/src/libVLC/flowcontrol.h:51-64 | beyond 2000 ms the squared rate is 21, whatever the lag, and the guard is silent |
| FlowControl.GuardExactly | Client/src/libVLC/flowcontrol.h:81-88 | outside the 75 ms band the guard fires exactly from 156 ms ahead on and from 1992 to 2000 ms behind |
| FlowControl.OneSample | Client/src/libVLC/flowcontrol.h:60-94 | how far one period moves the lag, in each region |
| FlowControl.NeverFarAhead | Client/src/libVLC/flowcontrol.h:81-88 | on the guard's prediction, a playback that starts at most one period ahead stays so, and the distance from real time beyond one period never grows |
| FlowControl.SettlesExactly | Client/src/libVLC/flowcontrol.h:60-94 | after a number of samples bounded by the starting lag the playout is within 75 ms, if and only if that lag is not a stalled one |
| FlowControl.CatchUp | Client/src/libVLC/flowcontrol.h:51-64 | far behind, every sample removes exactly 537 ms, which is 3.58 periods, without overshooting |
| LateFlowControl.LateSafeExactly | Client/src/libVLC/player_orig.h:105-121 | with the playout point read after the rate is set, a steady first lag keeps every later lag the controller sees above the floor if and only if it is none of those that dip, for the floors 0 and minus one period |
| LateFlowControl.LateReadOvershoots | Client/src/libVLC/player_orig.h:113-120 | from 3065 ms the lag seen falls to -632 and is -769 ms at every later sample |
| LateDistance.NeverFartherExactly | Client/src/libVLC/player_orig.h:105-121 | from a steady first lag, however negative, the distance from real time beyond one period never grows if and only if that lag is none of those that dip, for the lag seen and for the real one |
| LateSettling.LateSettlesExactly | Client/src/libVLC/player_orig.h:105-121 | after a number of samples bounded by the steady first lag, the lag seen is within 75 ms for good if and only if that first lag is none of the stalled ones |
| Player.Elapse | Client/src/libVLC/player_orig.h:110-113 | the two counters add up to the microseconds played and the float conversion gives the nearest millisecond, half a millisecond rounding up |
| Player.MediaPlayer | Client/src/libVLC/player_orig.h:88-127 | with every key, pause and resume, up to the first end of film: every sample reports the playing time, and the rate in force is the right one for the playing time less the playout point read one iteration before the last sample |
| Player.LoopReports | Client/src/libVLC/player_orig.h:108-120 | in every run one lag goes to the controller per report, and it is the playing time in milliseconds less the playout point that the iteration before has read |
| Player.TotalIsElapsed | Client/src/libVLC/player_orig.h:90-112 | the counters always hold the sum over running segments of last sample minus beginning |
| Player.ReportedTimeGrows | Client/src/libVLC/player_orig.h:110-117 | for a clock that never runs back the reported time is that sum rounded, and never decreases |
| Player.LoopReadsLate | Client/src/libVLC/player_orig.h:113-120 | the lags the loop sees follow the delayed recurrence, its first two are equal, and each is one period more than the real lag at the sample before |
| Player.LoopSafeExactly | Client/src/libVLC/flowcontrol.h:81-88 | uninterrupted, the playout itself is at most one period ahead of real time at every sample of the whole loop, if and only if the first lag is neither negative nor one of those that dip below zero |
| Player.LoopLagExactly | Client/src/libVLC/player_orig.h:105-121 | the lag the controller sees stays above minus one period (the playout at most two periods ahead) if and only if the first lag does and is none of those that dip below it |
| Player.LoopNeverFarther | Client/src/libVLC/flowcontrol.h:81-88 | over the whole loop the distance of the playout itself from real time, once beyond one period, never grows if and only if the first lag is not one of those that dip below zero |
| Player.LoopLagNeverFarther | Client/src/libVLC/player_orig.h:105-121 | the same for the lag the controller sees, with the first lags that dip below minus one period |
| Player.LoopSettlesExactly | Client/src/libVLC/player_orig.h:105-121 | from some sample on the lag seen is within 75 ms, and the playout 75 to 225 ms ahead of real time, if and only if the first lag is not a stalled one |
| Player.LoopOvershoots | Client/src/libVLC/player_orig.h:113-120 | with a first lag of 3065 ms the playout is 919 ms ahead at every sample from the sixth on |
| Player.SteadyExists | Client/src/libVLC/player_orig.h:104-121 | uninterrupted runs of every length exist for every first lag, so that none of these statements is empty |
| Text.GetLine | Server/src/rtspServer.h:174 | getline yields the text before the first delimiter, which contains none, and leaves exactly what follows it |
| Text.StringVector.Split | Server/src/rtspServer.h:171-178 | split appends the pieces after what the vector held |
| Text.SplitJoin | Client/src/netClient.cpp:182-189 | for every text and delimiter no piece contains the delimiter, the pieces joined give the text less at most one trailing delimiter, and their number follows from the delimiter count |
| Text.AtoiOfItoa | Server/src/rtspServer.h:215 | a printed integer, negative ones included, reads back as itself |
| Text.AtoiForms | Server/src/rtspServer.h:215 | leading white space is skipped, one plus sign is allowed, and a text that starts with anything else reads as 0 |
| Rtsp.RequestRoundTrip | Client/src/netClient.cpp:161-180 | every printed request is read by the server as its own kind with no index out of range, for every counter, session and port; the sequence number it takes from it is 0 |
| Rtsp.RequestDetail | Client/src/netClient.cpp:172-176 | the third line of a printed SETUP reads back as the client's port, that of any other request as the session number |
| Rtsp.RequestWritten | Client/src/netClient.cpp:161-180 | the whole text of a request, line ends included |
| Rtsp.KindsExactly | Server/src/rtspServer.h:194-205 | the four methods have the numbers 3 to 6 and a message that opens with any other word is a signal |
| Rtsp.RequestOutOfRange | Server/src/rtspServer.h:184-219 | exactly the messages for which the server's parser indexes past a vector's end: nothing before the first line end, or a known method without a second word or a third line |
| Rtsp.ReplyRoundTrip | Client/src/netClient.cpp:192-227 | every printed reply opens with RTSP/1.0 200, names the server's session, and is read by the client as code 200 with that session and no index out of range; the counter becomes 200 |
| Rtsp.ReplyWritten | Server/src/rtspServer.h:161-169 | the whole text of a reply, line ends included |
| Rtsp.OtherCode | Client/src/netClient.cpp:205-227 | a reply with any other status code is read as that code and changes nothing |
| Rtsp.ReplyOutOfRange | Client/src/netClient.cpp:195-223 | exactly the replies for which the client's parser indexes past a vector's end |
| Rtsp.SignalReply | Server/src/rtspServer.h:484-488 | the answer to any other message is read without harm and changes nothing |
| RtspSessions.RtspServer.PrepareResponse | Server/src/rtspServer.h:161-169 | prints code 200, the next counter and the session |
| RtspSessions.RtspServer.ParseRequest | Server/src/rtspServer.h:181-231 | for every message: its kind, the counter taken from the first line, or exactly where an index leaves its vector |
| RtspSessions.RtspServer.Handle | Server/src/rtspServer.h:436-489 | one pass of the receive loop on any message: new state, slp, counter and the answer |
| RtspSessions.PauseIsIgnored | Server/src/rtspServer.h:198-215 | a printed PAUSE leaves state and slp alone, sets the counter to 0, and is answered like an unknown message |
| RtspSessions.RtspClient.PrepareRequest | Client/src/netClient.cpp:161-180 | prints the request with the next counter |
| RtspSessions.RtspClient.ParseResponse | Client/src/netClient.cpp:192-227 | for every reply: code, counter and session, or exactly where an index leaves its vector |
| RtspSessions.Exchange | Client/src/netClient.cpp:229-242 | one command end to end: both texts, both states and slp afterwards |
| RtspSessions.RunSession | Client/src/netClient.cpp:438-515 | any session of typed commands: all texts exchanged, both ends agree on the state, slp is cleared exactly if a PLAY was typed |
| RtspSessions.OnlyFirstIsEchoed | Server/src/rtspServer.h:191-215 | in every session only the first reply carries its request's CSeq: later requests carry 201 and every reply 1; SETUP advertises the port, and every other message names the session |
| SessionGate.GateInvariant | Server/src/rtspServer.h:422-549 | over every interleaving: the state is that of the latest of accept, SETUP and PLAY, slp is true before any PLAY and false once one has been handled to its end, nothing is fragmented before that, and the wire carries exactly the fragmenter's datagrams tested while a PLAY was the latest |
| SessionGate.SlpStaysCleared | Server/src/Server.cpp:738-740 | slp is cleared at most once |
| SessionGate.HandlerIsControl | Server/src/rtspServer.h:443-488 | the RTSP thread's steps are those of the message handler |
| SessionGate.OthersAreIgnored | Server/src/rtspServer.h:479-488 | in every run, while only PAUSE, TEARDOWN or unknown messages follow a PLAY, the state stays PLAYING and every datagram offered is sent |
| SessionGate.GatedStreamKeepsOrder | Server/src/rtspServer.h:538-548 | whatever the interleaving, what the client gets is a subsequence of what was fragmented |
| SessionGate.UngatedStreamIsComplete | Server/src/rtspServer.h:538-548 | if every test found the gate open, the client has written every frame encoded since the first PLAY, less what still waits |
| RtpPackets.NarrowUnsigned | Server/src/RTPpacket.cpp:116-121 | a char read back through unsigned_int is the low byte that was stored |
| RtpPackets.RtpEncoder.constructor | Server/src/RTPpacket.cpp:123-163 | the in-place header and payload loops lay out the reference packet |
| RtpPackets.RtpEncoder.GetPacket | Server/src/RTPpacket.cpp:79-91 | header then payload, and the length |
| RtpPackets.HeaderLayout | Server/src/RTPpacket.cpp:126-152 | the header bytes, read in network order as section 5.1 of RFC 3550 has them: version 2 alone in the first, marker and type in the second, then sequence number, timestamp and source, each modulo its width |
| RtpPackets.ReadLayout | Client/src/RTPpacket.cpp:190-196 | the decoder reads every packet by that layout |
| RtpPackets.FillBytes | Server/src/RTPpacket.cpp:148-152 | the shifting loop writes the four bytes, most significant first, and nothing else |
| RtpPackets.RtpDecoder.Decode | Client/src/RTPpacket.cpp:169-198 | the default fields are set for every packet; the decoding loops read the reference fields, and a packet shorter than a header leaves those as they were |
| RtpPackets.RtpDecoder.GetPayload | Client/src/RTPpacket.cpp:58-64 | copies out the payload of the last packet |
| RtpPackets.PackUnpack | Client/src/RTPpacket.cpp:190-196 | whatever is packed is unpacked up to 7, 16 and 32 bits |
| RtpPackets.UnpackExactly | Client/src/RTPpacket.cpp:190-196 | the fields come back unchanged exactly when type and sequence number fit their unsigned widths and the timestamp is an int |
| RtpPackets.Transmit | Server/src/RTPpacket.cpp:79-163 | both programs' objects together return what went in, modulo those widths, for every payload that fits |

## Left out

- Decoding, scaling and encoding of video: foreign calls. The encoder is any source of frames; a call that yields nothing is an empty frame.
- Sockets, the set-up of connections and ports, the clock thread, statistics and log files: input and output only. The network is a sequence of datagrams with a loss relation; a TCP send is assumed to arrive as one message.
- The second output file (`test`), which takes every encoded packet unchanged.
- The paths for other codecs and for TCP video, which do not fragment.
- The command-line programs around the client, the second player header, the audio functions, `resetBuffer` and `startUDP`: wrappers, or code that cannot run.
- The client's two `flag` branches do the same work and are one branch here.
- Receive errors: every datagram is taken to hold at least its tag.
- VideoSending.VideoSender.Accumulate: asks that the frame fit the buffer, because the code has no check of its own there; what an overrun would do is undefined and not modelled.
- Reassembly.Reassembler.Receive: asks for room in the client's array for the same reason; when there is room is proved in `Streaming`.
- FlowControl.FlowController: works on real numbers, with sqrt as a parameter, so float rounding is not modelled; a division by a zero root counts as plus infinity.
- FlowControl.NeverFarAhead: takes the next lag as the guard predicts it; the delay of the real loop is in `LateFlowControl` and `Player`.
- LateFlowControl.LateSafeExactly: starts from two equal lags, which is what the loop produces because it plays at rate 1 before the first sample; pauses during catch-up are not covered.
- LateSettling.LateSettlesExactly: the number of samples it allows is a bound, far above what is needed.
- Player.LoopSafeExactly: assumes samples exactly one period apart and a player that keeps the rate it is given; it speaks of the samples, not of the time between them.
- ConcurrentQueues.ConcurrentQueue.TestAndPop: the class has one method for each stretch of code between two points where another thread can run; a whole call is a sequence of such methods in the interleaved model, whose steps are values.
- Weak memory between threads: steps are sequentially consistent, in the queue and in the session gate.
- RtspSessions.RtspServer.ParseRequest: an index beyond a vector's end is reported as undefined, and nothing is said of what the program does afterwards.
- Text.AtoiOfItoa: integers are unbounded, so the overflow of atoi and of the counters is not modelled.
- RtpPackets.RtpDecoder.Decode: asks that the packet fit the fixed payload array; a timestamp sum beyond an int wraps, which C++ leaves undefined.
