# php-nsq: a verified model of the NSQ client's protocol cores

php-nsq is a C client for the NSQ TCP protocol. This project models its four stateful cores and proves
how they behave over whole runs:

- **Subscriber** (`sub.c`, `command.c`). `Subscribers.Subscriber` is `readcb` and the queue timer over their
  own static variables (`is_first`, `l`, `message`, `msg->size`), the libevent buffers (`Bufferevents`) and the
  linked message queue (`MessageQueues`). `Readcb` is proved to be `Calls.CallOf`, which says what one call does with any
  saved state and any bytes; where that is a one-shot parse of them (`Calls.CallIffTolerated`), a call is a step of the
  state machine `Session.Step`, as a timer call always is. The laws of runs are proved there. `Decoder` says which
  bytes the saved variables stand for, and exactly when the way a stream is cut into reads makes no difference. `FlowControl` composes the subscriber with an nsqd that respects
  RDY (section "RDY" of the NSQ TCP Protocol Spec), over a byte stream downwards and a command stream upwards.
- **Publisher** (`pub.c`). `Requests` fills the send buffer through the moving offset and reads request streams back.
  `Exchanges` is what the response loop does with any bytes under any schedule of reads, and which schedules are right;
  `Publishers` is the code, over a non-blocking socket.
- **Connections** (`nsq.c`, `pub.c`). The config array walked forwards once and backwards twice, the all-or-nothing
  descriptor array, and the random choice.
- **Supervisor** (`nsq.c`). The process table, its reload on child exits and the SIGTERM list.

`Bytes`, `Frames`, `Commands`, `Lists`, `Wrappers` and `Arithmetic` hold the byte readers and writers, the frame layout ("Data
Format" in the NSQ TCP Protocol Spec), the text commands, and the list and index facts the others need.

Where to start: `Decoder.OnTrackIffNoHeaderCut`, `Calls.CallIffTolerated`, `Session.StreamAcknowledged`, `FlowControl.FlowControlled` and
`FlowControl.StuckMaySend`, `Exchanges.ExactSegmentation`, `Supervisors.SupervisedRun`, and the methods
`Subscribers.Subscribe`, `Publishers.Publish` and `Supervisors.Subscribe` that tie the code to them.

## What the code does not meet, and exactly when it does

- `readcb` ignores how many size bytes it was given (`sub.c:299`). A read that ends one to three bytes into a size
  header makes it take a zero-padded size: `Decoder.CutShiftsType` and `Decoder.CutForgetsZeros` give, for every such
  read, a continuation that loses a message or leaves a heartbeat unanswered. `Decoder.OnTrackIffNoHeaderCut` proves that
  avoiding such reads is also enough. `Subscriber.Readcb` itself is specified for reads that do cut headers.
- `readcb` has no branch for a frame of another type, such as an error, and leaves `l` as it is behind one
  (`sub.c:318-369`). `Calls.CallIffTolerated` is the exact condition: on frames of any type a call does what a one-shot
  parse says if and only if the first such frame began in this call and what is behind it is harmless, which
  is to say nothing, or up to three zeros, or, behind a frame of four bytes, one frame of zeros. Otherwise:
  - If an earlier call began the frame, the call never returns, and never otherwise (`Calls.NeverReturnsIff`);
    `Calls.SplitNeverReturns` reaches this by cutting any such frame in two, `Calls.ErrorNeverReturns` by an `E_INVALID`.
  - If a message is behind it in the same input, the message is lost (`Calls.MessageBehindIsLost`): when it is shorter
    than the frame before it, the read leaves the block; otherwise it is taken for a response that begins with zeros.
- The body loop of the publisher asks for the whole size at every read and adds -1 to `l` when a read would block
  (`pub.c:214`, `pub.c:290`), and a header read is tested for 0 and -1 only (`pub.c:200-206`).
  `Exchanges.ExactSegmentation` gives the exact schedules of reads under which an exchange takes its frames for what
  they are, for whatever is behind the reply. `Exchanges.BlockedBodyIsFailure` is the failing case of a header that
  arrives before its body, `Exchanges.LateBodySpoilsNext` what it does to the next publish, and
  `Exchanges.ShortHeaderIsFailure` the case of a header cut short.
- `readcb` tells a heartbeat by its size and the publisher by its text: `Exchanges.HeartbeatTests` says on which texts
  the two disagree.
- `arg_arr` is allocated for `producers_count` entries (`nsq.c:424`) and indexed up to
  `connect_num * producers_count`; `Supervisors.AllocationFits` proves that this fits if and only if `connect_num <= 1`.
  The table methods assume a table of the needed size.
- `FIN %s` and `REQ %s` print an id up to its first NUL: `Commands.CStringWhole`.

## Assumptions

- Memory handed out by the allocator beyond what the code clears reads as zero, in blocks of at least eight bytes. This
  matters in two places: the frame type that `readcb` reads from a frame of fewer than four bytes, as from the empty one
  at the end of the input, which is how it is meant to stop (`sub.c:320-338`), and the text that the publisher compares
  behind a received frame, or in the block of one of fewer than four bytes (`pub.c:211-221`).
- Frames from nsqd have at least 4 bytes and messages at least 30 (`Calls.TypedStream`); `Calls.CallOf` has no such limit.
  The laws of `Session` that compare a run with a one-shot parse are about responses and messages only.
- A left shift into the sign bit and the conversions to signed types wrap (two's complement).
- The `int` passed for `%lld` in `deferredPublish` (`pub.c:251`) is printed as its value.
- `error_handlings` prints to stderr and returns (`php_nsq.h:43-47`); what it prints is not modelled.

## Model

| member | source | states |
|---|---|---|
| Bytes.ReadI16Exact | common.c:84-87 | the shift-and-OR form is the two bytes' base-256 value |
| Bytes.ReadI32Exact | common.c:89-92 | the shift-and-OR form is the positional value read as a signed 32-bit number |
| Bytes.ReadI64Exact | common.c:95-101 | the same for 64 bits, most significant byte listed first |
| Bytes.Ntoh64Exact | common.c:103-108 | the same value with the bytes listed last to first |
| Bytes.ReadersAgree | common.c:95-108 | both 64-bit readers see the same bits on every input |
| Bytes.ReadI32BigEndian | pub.c:175-176 | `readI32` undoes the network-order length writer for every length below 2^31 |
| Bytes.Ntoh64BigEndian | sub.c:346 | reading and casting undoes the 64-bit writer on every signed value |
| Bytes.NetworkOrder | pub.c:175-176 | the length written is the four base-256 digits, most significant first |
| Frames.ParseStream | sub.c:294-384 | the one-shot parser inverts the encoder of frame lists |
| Frames.StreamParse | sub.c:294-384 | parsing loses no byte: the frames written again, and the rest, are the input |
| Frames.ParseAppend | sub.c:284-313 | parsing a stream in two pieces resumes from the unfinished rest |
| Frames.DecodeEncode | sub.c:340-359 | timestamp, attempts, id and body survive the wire layout, and the body is size - 30 bytes |
| Frames.EncodeDecode | sub.c:340-359 | every message frame is the encoding of the message read from it |
| Frames.EncodedResponse | sub.c:322-329 | a response has size 15 exactly when its text has 11 bytes |
| Frames.FrameBytes | sub.c:299-340 | byte by byte: the size header, and which frames are messages (type 00 00 00 02) and heartbeats (15 bytes, type zero) |
| Frames.MessageBytes | sub.c:346-354 | byte by byte: signed timestamp from 4-11, attempts from 12-13, id 14-29, body from 30 |
| Decoder.SettleHolds | sub.c:307-313 | outside header cuts the saved variables stand for exactly the unfinished frame |
| Decoder.ChunkingIndependence | sub.c:281-385 | any cut into reads outside headers completes the frames of a one-shot parse and saves its rest |
| Decoder.DeliversStream | sub.c:281-385 | the encoding of a frame list, cut outside headers, yields that list and an idle decoder |
| Decoder.CutSize | sub.c:297-302 | byte by byte: what is there of a cut header counts as its most significant bytes |
| Decoder.CutShiftsType | sub.c:296-302 | after any header cut with a non-zero padded size some continuation loses a message |
| Decoder.CutForgetsZeros | sub.c:296-302 | after any cut of an all-zero header prefix some continuation leaves a heartbeat unanswered |
| Decoder.OnTrackIffNoHeaderCut | sub.c:296-305 | decoding is independent of the reads at every point of a run if and only if none ends inside a header |
| Commands.DecimalInverse | command.c:36 | `%d` reads back for every integer, negative ones included |
| Commands.ReadAllInverse | command.c:26-70 | the concatenated SUB/RDY/FIN/REQ/NOP stream reads back as the commands written |
| Commands.PrintAllInjective | command.c:26-70 | different command lists are different on the wire |
| Commands.BufferBounds | command.c:24-70 | SUB fits its buffer exactly when topic and channel have at most 121 bytes; the others always fit theirs |
| Commands.CStringWhole | sub.c:161-168 | the printed id is the whole id exactly when it contains no NUL |
| Commands.CStringIs | sub.c:161-168 | a printed id is w exactly when w is all there is or is ended by a NUL |
| Commands.LinesAscii | command.c:26-70 | the five lines in literal bytes: names, single spaces and line feeds |
| Commands.DecimalAscii | command.c:36 | every integer is printed in ASCII digits of that value without leading zeros, a minus sign before negative ones |
| Bufferevents.NsqSubscribe | command.c:26-31 | appends exactly the SUB line to the output |
| Bufferevents.NsqReady | command.c:33-38 | appends exactly the RDY line, for every 32-bit count |
| Bufferevents.NsqFinish | command.c:40-45 | appends exactly the FIN line of the id up to its NUL |
| Bufferevents.NsqNop | command.c:58-63 | appends exactly the NOP line |
| Bufferevents.NsqRequeue | command.c:65-70 | appends exactly the REQ line, negative delays included, whenever it fits the buffer |
| Bufferevents.WriteFormatted | sub.c:162-168 | snprintf and strlen together send the whole text when it fits and has no NUL |
| MessageQueues.MessageQueue.Enqueue | sub.c:65-94 | the list stays acyclic with its tail last and its count right, and gains one fresh node at the end |
| MessageQueues.MessageQueue.Dequeue | sub.c:97-108 | returns the oldest node, null exactly when empty, and hands it over unlinked but not freed |
| MessageQueues.MessageQueue.Free | sub.c:194-196 | only a live, unlinked node is released |
| MessageQueues.MessageQueue.Cleanup | sub.c:391-399 | terminates with an empty queue, having released each linked node once |
| Session.SubscribedFirst | sub.c:272-273 | in every run SUB topic channel and RDY are the first two lines |
| Session.TickVerdict | sub.c:145-199 | after every run, a tick hands the oldest message over with its own outcome, writes FIN on success, REQ with the message's delay on failure and neither without auto_finish, then RDY; on an empty queue it does nothing |
| Session.HandedOutcomes | sub.c:145-199 | in every run the k-th message handed over has the outcome of the k-th tick that found one |
| Session.AcknowledgedInOrder | sub.c:110-201 | in every run, the FIN/REQ written are those of the callbacks made, in order, and one RDY follows each |
| Session.NothingLost | sub.c:59-201 | in every run, what was handed over and what is queued is what the decoder produced, in order |
| Session.RunMeetsStream | sub.c:184-385 | handed-over and queued messages, NOPs and saved state are those of a one-shot parse of all bytes received |
| Session.HandedAreStream | sub.c:184-201 | the i-th message given to the callback is the i-th message of the stream |
| Session.StreamAcknowledged | sub.c:159-170 | the i-th acknowledgement is for the i-th message, FIN exactly if the i-th tick that found a message succeeded, otherwise REQ with the delay |
| Session.HeartbeatsAnsweredAtOnce | sub.c:322-339 | the read that completes heartbeats writes as many NOPs and nothing else, whatever is queued, and makes no callback |
| Session.WireToCallback | sub.c:340-369 | one encoded message reaches queue or callback with its four fields, in any number of reads |
| Session.BytesCarryAcks | sub.c:159-170 | when the ids in the stream are words, the acknowledgements can be read back from the bytes of the output buffer |
| Calls.NeverReturnsIff | sub.c:294-384 | for every saved state and input: the call never returns if and only if it completes a frame of another type that an earlier call began |
| Calls.CallIffTolerated | sub.c:281-385 | for every saved state and frames of any type: the call is a one-shot parse if and only if the first frame of another type began in it and nothing behind it can be damaged |
| Calls.MessageBehindIsLost | sub.c:296-369 | a message behind such a frame is lost, whatever precedes and follows: the read leaves its block, or the next frame is no message |
| Calls.SplitNeverReturns | sub.c:307-369 | every such frame cut in two behind its size makes the second call never return |
| Calls.ErrorNeverReturns | sub.c:307-369 | so does an `E_INVALID` received in two reads |
| Calls.HandledPass | sub.c:294-369 | responses and messages are passed one by one, whatever is behind them |
| Calls.ResumedIsFirst | sub.c:296-313 | a call that resumes a response or message goes on like one that is given it whole |
| Calls.UnhandledBytes | sub.c:320-340 | byte by byte: the frames without a branch are those whose type is neither zero nor two |
| Calls.ShortMessage | sub.c:340-356 | a message below 30 bytes is read past its end |
| Calls.NegativeSize | sub.c:300-302 | a size with the top bit set asks for memory it cannot get |
| Calls.TinyFrame | sub.c:302-334 | a frame of one to three bytes counts as a response if it is all zeros and otherwise has no branch |
| Subscribers.Subscriber.Connected | sub.c:263-276 | the connection starts with the bytes of SUB topic channel and RDY written and nothing decoded |
| Subscribers.Subscriber.BeginFrame | sub.c:296-305 | the size is read from up to four bytes, padded with zeros, and a buffer of that size is cleared |
| Subscribers.Subscriber.Fill | sub.c:296-313 | the top of the loop, for any frames and any l: what `Calls.TurnOf` says of the read, while it stays in its block |
| Subscribers.Subscriber.ReadPiece | sub.c:307 | the capped read keeps 0 <= l <= size and takes the bytes in order; with a stale l it takes all there are |
| Subscribers.Subscriber.AnswerHeartbeat | sub.c:322-329 | a NOP is written exactly for a response of size 15 |
| Subscribers.Subscriber.CopyFields | sub.c:346-359 | the fields copied out of the frame are the decoded message's |
| Subscribers.Subscriber.DispatchFrame | sub.c:320-369 | one complete frame adds its NOP or its queue entry and nothing else; a frame of another type adds nothing |
| Subscribers.Subscriber.EndFrame | sub.c:331-369 | the variables are reset after a response or a message and stay as they are after a frame of another type |
| Subscribers.Subscriber.ReadFrame | sub.c:294-384 | a turn is `Calls.TurnOf`: its frame and effects, and the variables and input it leaves; l == -1 never holds |
| Subscribers.Subscriber.Readcb | sub.c:281-385 | a call is `Calls.CallOf`, for every saved state and every input on which that returns: header cuts, frames of any type and input left unread included |
| Subscribers.Subscriber.Acknowledge | sub.c:159-170 | FIN or REQ is chosen by the callback's outcome and only with auto_finish |
| Subscribers.Subscriber.ProcessMessageQueue | sub.c:184-201 | a timer call is one Tick step and leaves no node unreleased |
| Subscribers.Subscribe | sub.c:203-251 | the object goes through the states of the play, writes its bytes, and releases every node at the end, as long as every call returns |
| Subscribers.PlayIsRun | sub.c:203-385 | when each call finds input it treats like a one-shot parse, the play is the run of `Session` and nothing stays unread |
| Subscribers.ZeroSizeDefers | sub.c:330-338 | a size of zero ends the call, and what is behind it is decoded by the next one as if it had just arrived |
| Subscribers.DeliverableIsSpecified | sub.c:281-385 | which is so for every stream of responses and messages whose headers arrive whole, cut anywhere else |
| FlowControl.LeadsKeeps | sub.c:59-201 | every step of nsqd and client keeps the accounting below |
| FlowControl.FlowControlled | sub.c:59-201 | nsqd's unacknowledged messages are, once each and in order, acks in transit, queue and undecoded frames; the queue never exceeds RDY |
| FlowControl.QuiescentMaySend | sub.c:198-200 | with nothing in transit, undecoded or queued, nsqd may send any message |
| FlowControl.MovesDecrease | sub.c:184-201 | every read, timer call or accepted command leaves strictly less to do |
| FlowControl.NoDeadlock | sub.c:184-201 | while nsqd may not send, something already sent can move |
| FlowControl.EventuallyMaySend | sub.c:184-201 | from every such state, moves alone lead to one where nsqd may send |
| FlowControl.MovesBounded | sub.c:184-201 | whatever the schedule, moves alone number at most the work there was |
| FlowControl.StuckMaySend | sub.c:184-201 | so every schedule of moves, continued as long as it can be, ends where nsqd may send |
| Requests.FillPub | pub.c:158-180 | the offsets fill exactly the PUB request, whenever it fits the 1 MiB buffer |
| Requests.FillDeferredPub | pub.c:236-263 | the offsets fill exactly the DPUB request, whenever it fits the 1 MiB buffer |
| Requests.RequestsAscii | pub.c:161-263 | both requests in literal bytes: names, single spaces, line feed, length and body |
| Requests.RequestsRoundTrip | pub.c:161-263 | any list of requests, bodies arbitrary bytes, reads back from their concatenation |
| Requests.EncodeAllInjective | pub.c:161-263 | different request lists are different on the wire |
| Exchanges.TextBytes | pub.c:219-224 | the text compared is w exactly when w is all there is behind the type, or is ended by a NUL |
| Exchanges.BeatBytes | pub.c:224 | byte by byte: the frames the publisher takes for heartbeats |
| Exchanges.BeatsPass | pub.c:197-228 | heartbeats whose reads segment them are taken one by one and counted, and the exchange goes on behind them |
| Exchanges.LostBehindBeats | pub.c:200-205 | a connection that ends where a header is due is lost, with every heartbeat before it answered |
| Exchanges.AnySegmentation | pub.c:197-232 | after k heartbeats and an answer, under any segmentation: k NOPs, k + 1 frames, and success exactly if 4F 4B, then the end or a NUL, follow the type |
| Exchanges.ExactSegmentation | pub.c:197-218 | for whatever is behind the reply: an exchange takes k heartbeats and any answer of n bytes for what they are if and only if every header read returns four bytes and the reads of every body return it and no more |
| Exchanges.TakenReplyAnswers | pub.c:219-232 | an exchange that does so counts k heartbeats, succeeds exactly on those bytes and takes nothing more |
| Exchanges.ReceiveUnsegmented | pub.c:197-218 | under any other reads a frame with non-zero ends is not taken for what it is |
| Exchanges.ShortHeaderIsFailure | pub.c:200-232 | a header read of one to three bytes makes the exchange fail on a frame below 256 bytes, the rest of it left in the stream |
| Exchanges.BlockedBodyIsFailure | pub.c:213-232 | a body that is not there when its header is read makes the exchange fail, its bytes left in the stream |
| Exchanges.LateBodySpoilsNext | pub.c:197-232 | and the next publish takes the leftover body for a header and fails too, the text left in the stream |
| Exchanges.BlockedMidBody | pub.c:213-218 | a read that would block in mid-body loses the byte before it and takes one of the next frame, or ends the loop behind a single byte |
| Exchanges.EachItsOwnAnswer | pub.c:158-234 | over any number of publishes on one socket whose reads segment every reply, the i-th has the heartbeats of the i-th answer and succeeds exactly on its bytes |
| Exchanges.HeartbeatTests | pub.c:224 | the size test and the text test disagree exactly on the other texts of 11 bytes and on `_heartbeat_`, a NUL and more |
| Publishers.NopLinesAscii | pub.c:225 | the answers to n heartbeats are n times 4E 4F 50 0A |
| Publishers.ReadHeader | pub.c:199-210 | one read, of any length, gives the size of its zero-padded bytes |
| Publishers.ReadBody | pub.c:213-218 | the inner loop is `Exchanges.BodyRun`, for all reads that do not run past the frame |
| Publishers.AwaitAnswer | pub.c:197-232 | frames consumed, NOPs sent and result are those of the exchange, lost connections and cut reads included |
| Publishers.Publish | pub.c:158-234 | the request is sent first, as far as send accepts it, and the exchange follows unless that is 0; the socket is returned exactly if its text is 4F 4B |
| Publishers.DeferredPublish | pub.c:236-309 | the same exchange whatever send reports, so the same result on the same incoming stream |
| Connections.FillConfigs | nsq.c:106-126 | the pointer visits every entry and is left on the last |
| Connections.ConnectAll | pub.c:84-133 | socket i belongs to address count - 1 - i, each entry visited once |
| Connections.FreeConfigs | nsq.c:129-137 | each entry is released once and the pointer ends at the block's start |
| Connections.StoreSockets | pub.c:135-149 | the descriptors are stored exactly when all are positive |
| Connections.ConnectNsqd | nsq.c:106-154 | success, storage and all connections having succeeded are the same thing |
| Connections.ChooseUsable | nsq.c:200-205 | every random number selects an existing usable descriptor, and each can be selected |
| Supervisors.Master.StartWorkerProcess | nsq.c:258-287 | the slot and the SIGTERM list record the child; nothing changes when fork fails |
| Supervisors.Master.SpawnAll | nsq.c:434-481 | slot k holds the k-th child, for producer k mod count, or stays empty if its fork failed |
| Supervisors.Master.HandleExit | nsq.c:491-504 | the nested scan restarts the exited worker's slot and no other; other processes and a failing fork change nothing |
| Supervisors.Master.Supervise | nsq.c:483-507 | the wait loop goes through the states of the run, and every running worker stays on the SIGTERM list |
| Supervisors.Master.Terminate | nsq.c:300-309 | the master, and only the master, signals every pid on the list |
| Supervisors.RestartsOne | nsq.c:498-501 | a reload changes exactly one slot, and only its pid |
| Supervisors.SupervisedRun | nsq.c:258-507 | under every interleaving of the spawn loop's turns, exits and reloads: distinct pids, exactly the children not waited for; slot k keeps producer k mod count; every running worker is on the SIGTERM list |
| Supervisors.AllReaped | nsq.c:483-507 | once every exit has been waited for, the slots hold exactly the running workers |
| Supervisors.LiveAre | nsq.c:258-507 | in every legal run, a worker runs exactly if an event started it and no exit of it followed |
| Supervisors.ChildrenAre | nsq.c:483-507 | and is yet to be waited for exactly if no reload of it followed |
| Supervisors.Subscribe | nsq.c:424-507 | allocation, spawn loop, wait loop and SIGTERM in one: the table is that of the run, and the master signals every running worker, restarted ones included |
| Supervisors.AllocationFits | nsq.c:424-475 | the indices used fit the allocated table if and only if connect_num is at most 1 |

## Left out

- Reconnection: `conn_eventcb` starts a nested event loop without resetting the decoder's variables; one connection is modelled.
- The "  V2" greeting and IDENTIFY, which are written to the descriptor directly before SUB; IDENTIFY's JSON comes from a library.
- `nsq_touch`, which also bypasses the output buffer, and the message object's own `finish` and `requeue`: the callback is taken not to acknowledge by itself.
- Message timeouts in nsqd, the lookup over HTTP, DNS, socket options, connect timeouts and real time.
- Failing allocations, a NOP that `send` does not take whole, and, in `Supervise`, forks that fail at a reload (`HandleExit` has them); the child's side of `fork` ends in `subscribe`.
- Message bodies are values: the two copies of a body are equalities between byte sequences, not separate heap blocks.
- Publishers.ReadBody: requires that the loop ends inside the frame (`BodyRun` stops), because other reads write past the buffer or never end.
- Publishers.AwaitAnswer: requires an exchange that ends without leaving its buffers, because for others the code has no defined result; `Exchange` says which they are.
- Publishers.Publish: requires the same of its exchange, and a request that fits the send buffer.
- Publishers.DeferredPublish: the same.
- Subscribers.Subscriber.Connected: starts behind the "  V2" greeting and the IDENTIFY exchange, which use the descriptor and not the buffer.
- Subscribers.Subscriber.BeginFrame: requires a non-negative size, because the code allocates a block of that size.
- Subscribers.Subscriber.Readcb: requires a call that returns (`Calls.CallOf`), because a method for the others would have to run for ever, leave its block or ask for a negative number of bytes.
- Subscribers.Subscriber.ReadFrame: requires a turn with a defined result (`Calls.TurnOf`), for the same reason.
- Subscribers.Subscriber.Fill: the same.
- Subscribers.Subscribe: requires that every call returns (`Play`), for the same reason.
- Supervisors.Master.SpawnAll: requires a table its indices fit in (`IndicesFit`), which the source allocates only for `connect_num` at most 1.
- Supervisors.Master.HandleExit: requires the same of the table.
- Supervisors.Master.Supervise: requires the same of the table, and forks that succeed at reloads.
- Supervisors.Subscribe: requires the same of the table, and forks that succeed at reloads.
