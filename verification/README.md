# RFID test bench: a verified model

The system drives a test bench: a server on a small ARM board connects one TCP
client with an RFID reader (on a serial line) and a motor; the client, a Python
script, sends commands, collects tag records and merges them into one CSV file.
This project models the parts of it that can go wrong quietly, the wire formats,
the queues, the threads around them and the two small state machines, and proves
what they guarantee for every input and every run.

## How it is modelled

* **Bytes** are 0..255 everywhere: `char` is unsigned on the target. Words are
  sums of weighted bytes; module `BitForms` shows that the source's shifts and
  ors compute those sums.
* **Packets** keep their fixed array of 100 bytes, of which `size` are meaningful;
  reused arrays keep what they held before.
* **Threads.** A critical section, a semaphore operation, the setting of a flag or
  the writing of one byte to the socket is one atomic step, and steps interleave
  arbitrarily. `OutboundProtocol`, `EventFlags` and `ScanStatus` are state machines
  over such steps.
* **Arrivals.** What the outside world will do is a sequence that a run consumes:
  chunks cut anywhere (`InboundRuns`), bytes or half a second of silence
  (`Client.Connection.socket`), and for the serial line moments, each with any
  appends and signals of the receiving thread and perhaps the end of a timed wait
  (`SerialComm.SerialHelper.line`). A moment passes before every step of the
  reader: reading the buffer, testing whether it is empty, resetting the flag,
  looking at the flags. `Stream()` is what is unread followed by what is still to
  come, so that conservation is one equation per call. A reset is *late* when bytes
  have been appended since the emptiness test and no signal is due. A call that waits
  for something that never comes reports `Blocked`, `NeverEnds` or, at the client,
  `TimedOut`.
* **Objects** of the source are classes with the same fields. Every method is proved
  against functions of the old and the new state, and the lemmas are about those
  functions.

## What is proved, in short

1. *Client to server.* One call of `decapsulate` on whole frames uses exactly the
   shortest non-empty run of frames that reaches 96 bytes (or all of them). With
   a truncated last frame it stays within the FIFO exactly under a condition that
   `Wire.SweepOfFrames` states. However the stream is cut and scheduled, a run stays
   within bounds exactly under a condition on the lengths of the chunks and the times
   of the calls, and then forwards a prefix of the messages, in order, and keeps the
   rest.
2. *Server to client.* `get_cmd` is a search for the first magic number; frames
   come back as they were, in order, over the motor frames' padding. A single frame
   comes back, with the client right behind its payload, exactly if it has a payload
   and no magic number in header and payload; wherever the client stops, there is one
   more case (`ClientRoundTrip.FrameComesBackIff`). A frame without payload is never
   answered. With silences anywhere, exactly the frames come back that no silence
   interrupts before the end of their payload.
3. *The writer thread.* Exactly-once, in-order output in every interleaving; a
   blocked writer with idle producers has sent everything; the writer gets there.
4. *The serial line.* In every interleaving with the receiving thread, reads neither
   lose nor reorder bytes except those dropped at a timeout, and results do not depend
   on the chunks. A wake-up is lost exactly when a reset is late, and the source allows
   that: a read may then fail, or wait forever, with all it needs in the buffer. A read
   fails exactly if one of its waits runs out of time: the time is over at a moment before
   the first signal. When no time runs out, it fails exactly if a TIME_OUT is left over from an earlier
   wait and it finds the flag down; when no reset is late either, it succeeds exactly
   if the stream has what it needs. `ReadAvailable` shows consumed bytes again exactly
   when the cursor is not at the start, and they reach the client.
5. *Serial packets and their reassembly*: round trips, transaction numbers, and
   exactly when packets stay behind in the RFID worker.
6. *Scan status and stable speed*, over whole runs: one scan at a time exactly if
   every ON finds nobody scanning, also in terms of the status alone; a scan thread
   waits for tags in every second step until OFF; a steady speed is reported exactly
   within three percent of the target; a speed that is
   reached is reported exactly once; when a stop is reported depends on which `abs`
   the compiler picks, and both answers are exact.
7. *Result files*: where every cell of every test ends up, and exactly when that is
   its own column.
8. *End to end*: the last speed command wins, the board gets exactly the client's
   packets of type 4, a tag record is read back exactly
   (its timestamp modulo 2^56), and what the writer has sent is what the client
   receives.

## Where the code differs from what it says

* `src/network.cpp:335-338` announces that the next read is skipped; nothing is
  skipped, the rest of the FIFO is the input of the next call.
* `src/rfid.cpp:214-217` prints that a command cannot be executed and then executes it;
  the state machine follows the code.
* `src/motor.cpp:154` compares a difference that, with the `abs` of reals and a
  target of zero, is in tolerance only if the average is exactly zero: over the reals
  a stop from any other average is never reported.
* `src/motor.cpp:126-146` speaks of a mean of ten samples; nine slots and the
  previous average are summed.

## Model

| member | source | states |
|---|---|---|
| BitForms.Join16IsSum | src/network.cpp:297 | joining two bytes with shift and or is BigEndian16, and LittleEndian16 with the bytes exchanged: 256 times the one plus the other |
| BitForms.Join32IsSum | src/network.cpp:286-289 | the same for the four bytes of a magic number |
| BitForms.SplitIsHighLow | src/ST25RU3993_driver.cpp:24-27 | shift and mask take the two bytes of a joined word out again, as High and Low do |
| BitForms.SlideIsSum | utils/testbench:175 | shift and or on the 32-bit word are one step of the client's window |
| SafeFifo.SafeFIFO.ReadAll | src/network.cpp:387-397 | draining hands out the whole contents in order and leaves the queue empty |
| SafeFifo.SafeFIFO.ReadOne | src/network.cpp:399-408 | the element taken followed by the new contents is the old contents |
| SafeFifo.SafeFIFO.WriteAll | src/network.cpp:436-445 | a run of elements is appended whole, in order |
| SafeFifo.SafeFIFO.WriteOne | src/network.cpp:447-455 | one element is appended |
| SafeFifo.SafeFIFO.Remove | src/network.cpp:457-463 | exactly the oldest elements are dropped |
| Wire.CutIsShortest | src/network.cpp:320-333 | the cut-off picks the shortest non-empty run of frames whose length reaches 96 bytes, or all frames if none does |
| Wire.SweepOfFrames | src/network.cpp:276-344 | on whole frames followed by the beginning of one more, a call stays within the FIFO if and only if there is a whole frame and either the whole frames reach 96 bytes or at most the magic number of the next one is there; then it uses exactly the frames of the cut-off |
| Wire.ExactCutOff | src/network.cpp:293-342 | on whole frames the bytes removed are a frame boundary, the one of the shortest non-empty prefix of at least 96 bytes or of everything, and exactly those messages are forwarded |
| Wire.GarbageBehindFrame | src/network.cpp:317-334 | four bytes behind a frame that are no magic number go with it exactly if the frame ends below 96 and more bytes follow |
| InboundRuns.TurnUsesFrames | src/network.cpp:276-344 | on any prefix of a client's stream a call stays within bounds if and only if, by the lengths alone, there is a whole frame and the whole ones reach 96 bytes or at most a magic number follows them; then it forwards at least one whole message and removes exactly the bytes of the messages forwarded |
| InboundRuns.RunForwardsInOrder | src/network.cpp:131-135 | for every cutting of the stream into chunks and every interleaving with calls: the run stays within bounds if and only if every call that finds anything finds enough, a condition on chunk lengths and call times; then it has forwarded a prefix of the messages sent, in order, and the FIFO holds exactly the rest of what arrived |
| InboundRuns.WholeChunksRun | src/network.cpp:131-135 | when every chunk holds whole frames, no call ever leaves the bounds; forwarded messages followed by those still in the FIFO are always the messages sent |
| InboundRuns.GarbagePassed | src/network.cpp:286-293 | bytes of which no aligned four are a magic number are passed over, four in every call, and nothing is forwarded |
| NetworkServer.Network.ReadMagic | src/network.cpp:286-290 | the word read is the magic number if and only if the four bytes at the cursor are its four bytes |
| NetworkServer.Network.CopyPayload | src/network.cpp:309-312 | the packet's array begins with the payload bytes at the cursor |
| NetworkServer.Network.Dispatch | src/network.cpp:346-365 | a packet joins the RFID queue exactly for types 0 and 4, the motor queue exactly for type 1, and no queue for any other; what waited before stays in front |
| NetworkServer.Network.ForwardFrame | src/network.cpp:295-318 | the frame at the cursor reaches the queue of its module with its own payload, whatever the reused packet held before |
| NetworkServer.Network.ForwardFrames | src/network.cpp:286-334 | the loop forwards the messages and counts the bytes of the reference parse of the FIFO |
| NetworkServer.Network.Decapsulate | src/network.cpp:276-344 | one call removes the prefix of the reference parse and routes exactly its messages |
| NetworkServer.Network.ServeInput | src/network.cpp:131-135 | repeated calls on the frames of any list of messages terminate with an empty FIFO; the RFID queue has gained exactly the messages of types 0 and 4, the motor queue exactly those of type 1, in order |
| NetworkServer.RoutingTable | src/network.cpp:349-362 | the parts routed to the modules are the messages of types 0 and 4 and those of type 1, in their order |
| NetworkServer.Network.WriteFrame | src/network.cpp:143-156 | one frame is queued for the writer and the semaphore goes up by one |
| NetworkServer.Network.SendRfid | src/network.cpp:137-157 | all RFID packets become frames without padding, in order, with one post each |
| NetworkServer.Network.SendMotor | src/network.cpp:159-179 | all motor packets become frames with 96 bytes of padding, in order, with one post each |
| NetworkServer.Network.SendAll | src/network.cpp:137-179 | one pass of the worker queues the RFID frames, then the motor frames, and posts once per frame |
| ServerFrames.MotorCopyInBounds | src/network.cpp:165-175 | the copy of a motor packet stays within the structure if and only if the payload has at most four bytes |
| ServerFrames.RfidFrameIs | src/network.cpp:143-153 | an RFID frame byte by byte: 56 13 42 41, type, size least significant byte first, the payload and nothing behind it |
| ServerFrames.MotorFrameIs | src/network.cpp:165-175 | a motor frame byte by byte: the same with 96 bytes of the packet's array behind the payload |
| Client.WindowIsLastFour | utils/testbench:164-175 | after any bytes the window holds the last four of them, zeros standing in for missing ones |
| Client.WindowFindsMagic | utils/testbench:175-179 | the window equals the magic number if and only if the last four bytes are there and are 56 13 42 41: the zeros at the start never match |
| Client.FrameEndsOnce | utils/testbench:181-194 | the countdown of a frame reaches zero at one byte only |
| Client.AnswersUnique | utils/testbench:159-203 | at most one command answers a given byte stream |
| Client.AnswersOfLonger | utils/testbench:159-203 | an answer does not depend on the bytes that follow it |
| Client.AnswerFields | utils/testbench:185-201 | without a magic number inside, an answer is the byte behind 56 13 42 41 as type, the next two as size, least significant first, and that many bytes of data up to the last one read |
| Client.Connection.GetCmd | utils/testbench:159-203 | the call returns the command that follows the first magic number, described as substring search, and stops right behind its last byte; it gives up at a silence only if the bytes read contain no complete command |
| ClientRoundTrip.FrameIntact | utils/testbench:159-203 | after any bytes without magic number and before any bytes, a frame is answered with its own type, size and data, and the client stops right behind its payload, if and only if its payload is not empty and no magic number lies in its header and payload |
| ClientRoundTrip.FrameComesBackIff | utils/testbench:159-203 | wherever the client stops: the frame comes back with its own type, size and data if and only if its payload is not empty and either no magic number lies in header and payload, or everything behind the one there, up to and including the byte after the payload, is 0x41 |
| ClientRoundTrip.MagicPayloadComesBack | utils/testbench:175-194 | the second case exists: a motor frame whose payload is the magic number comes back when its padding begins with 0x41 |
| ClientRoundTrip.EmptyFrameSwallows | utils/testbench:185-194 | a frame without payload that is the first one in the stream is never answered, whatever follows it |
| ClientRoundTrip.RoundTrip | src/network.cpp:137-179 | from any sequence of RFID and padded motor frames with payload and without magic numbers in their bodies, after any bytes without one, successive calls return exactly their types, sizes and data in order |
| ClientRoundTrip.OnlyAtStartsIffBodiesFree | src/network.cpp:151-175 | the magic number occurs in a stream of frames only at frame starts if and only if no frame has it in its body: nothing straddles two frames |
| Silences.RoundTripWithSilences | utils/testbench:168-203 | with silences anywhere in a stream of clean frames, successive calls return exactly the frames of which no silence interrupts magic number, header and payload, in order, each with its own type, size and data |
| Silences.NextCall | utils/testbench:168-203 | the reply of a call, as its contract states it, is the next step of the only possible dialogue |
| Silences.ReceiveEverything | utils/testbench:159-203 | calls until there is nothing more to be heard return exactly the commands of the dialogue |
| OutboundProtocol.StepKeepsInvariant | src/network.cpp:219-239 | every step of producers and writer keeps: sent, held and queued bytes are the framed ones; every write is matched by a semaphore unit, a wait or a post to come; queued bytes imply a unit, a post to come or a woken writer |
| OutboundProtocol.ExactlyOnceInOrder | src/network.cpp:154-177 | in every run, at every moment, what is sent, held by the writer and queued is everything written, in the order of the writes |
| OutboundProtocol.BlockedMeansSent | src/network.cpp:219-239 | whenever a run leaves the writer blocked and the producers idle, everything ever written has been sent |
| OutboundProtocol.WriterFinishes | src/network.cpp:224-236 | from any reachable state with idle producers the writer takes exactly a computed number of steps, is stuck only when blocked, and has then sent everything |
| SerialBuffers.SerialBuffer.AddByte | src/SerialBuffer.cpp:33-38 | the queue grows by that byte and keeps cursor plus unread count equal to the string's length |
| SerialBuffers.SerialBuffer.AddData | src/SerialBuffer.cpp:47-53 | the queue grows by those bytes, same invariant |
| SerialBuffers.SerialBuffer.IsEmpty | inc/SerialBuffer.h:39 | looking at the string only is nevertheless right about the abstract queue |
| SerialBuffers.SerialBuffer.ReadN | src/SerialBuffer.cpp:76-96 | takes the first bytes of the queue, as many as asked for or all, and leaves the rest |
| SerialBuffers.SerialBuffer.ReadAvailable | src/SerialBuffer.cpp:98-111 | returns consumed bytes again in front of the unread ones; it takes exactly the queue if and only if the cursor is at the start |
| SerialBuffers.SerialBuffer.ReadUpto | src/SerialBuffer.cpp:166-201 | takes the queue up to and including the first terminator, or all of it when there is none |
| SerialComm.SerialHelper.Receive | src/SerialCommHelper.cpp:373-412 | whatever pieces the port delivers, they are appended in order, and their signal is due |
| SerialComm.SerialHelper.Act | src/SerialCommHelper.cpp:376-428 | any appends and signals of the receiving thread leave the bytes in order and the flag up once one of them was a signal |
| SerialComm.Lowest | src/SerialCommHelper.cpp:49-56 | of any pending events the lowest one is found |
| SerialComm.SerialHelper.WaitUntil | src/SerialCommHelper.cpp:32-47 | the loop stops at the first moment at which something asked for is set, or stuck when nothing more is coming |
| SerialComm.SerialHelper.WaitForSignal | src/SerialCommHelper.cpp:19-59 | after a moment and that loop, the lowest pending event that was asked for is returned, and none only when the loop is stuck |
| SerialComm.SerialHelper.AwaitData | src/SerialCommHelper.cpp:568-578 | the wait ends with data, a timeout taken notice of, or not at all, as the reference wait says |
| SerialViews.AwaitedKeeps | src/SerialCommHelper.cpp:568-578 | that wait keeps the byte stream; data is reported if and only if the flag is up, so the flag wins over a timeout; a timeout needs a time limit; unless a reset was late, bytes unread at a timeout have their signal still to come, and none are left when the wait never ends |
| SerialTimeouts.WaitEndsIff | src/SerialCommHelper.cpp:32-47 | a wait ends with a timeout if and only if it has a time limit, the flag is down and stays without signal, and a TIME_OUT is left over or the time is over at some moment before the first signal; with data if and only if some moment brings the first signal before the time is over; and what it leaves is what has come in by then |
| SerialTimeouts.TimeoutLeftOverIff | src/SerialCommHelper.cpp:44-56 | a wait that found data leaves a TIME_OUT behind exactly if there was one or its time was over at the very moment of the signal |
| SerialComm.SerialHelper.Drain | src/SerialCommHelper.cpp:551-553 | takes as many bytes as are wanted or there, then tests and resets, with time for the receiving thread before each of the three steps |
| SerialViews.TestedKeeps | src/SerialCommHelper.cpp:552-553 | whatever is appended and signalled around test and reset, no byte is lost, and unread bytes stay announced unless the reset was late |
| SerialTimeouts.TestedIff | src/SerialCommHelper.cpp:552-553 | step by step of the receiving thread: the flag is down after test and reset exactly if nothing was left or came before the test, or it was down without a signal; the reset is late exactly if bytes come between the two and no signal is due |
| SerialComm.SerialHelper.ReadRest | src/SerialCommHelper.cpp:563-597 | the loop of the read is the reference loop, behind what was taken before |
| SerialComm.SerialHelper.ReadN | src/SerialCommHelper.cpp:533-606 | success returns exactly the next bytes of the stream, as many as asked for, however they came in; the call fails if and only if one of its waits runs out of time, said of the moments alone; it then drops exactly the bytes taken so far; when no time runs out, it fails if and only if it has a time limit, a TIME_OUT is left over from before and it finds the flag down while bytes are missing; with no timeouts and no late reset it succeeds if and only if the stream has enough bytes |
| SerialReads.WholeKeeps | src/SerialCommHelper.cpp:551-597 | every read keeps the stream and its order and what announces its bytes, in all interleavings with the receiving thread |
| SerialReads.FailsIfStarved | src/SerialCommHelper.cpp:568-578 | with a TIME_OUT left over a timed read fails exactly when it finds the flag down while bytes are missing, late resets included; otherwise it succeeds |
| SerialTimeouts.ReadFailsIff | src/SerialCommHelper.cpp:551-597 | the outcome of a whole read is a timeout exactly if too few bytes are there and some wait, the first or one after too few more, runs out of time |
| SerialTimeouts.UptoFailsIff | src/SerialCommHelper.cpp:483-523 | the same for a read up to a terminator |
| SerialTimeouts.SilentReadTimesOut | src/SerialCommHelper.cpp:551-578 | on a silent line a read of more bytes than are there takes those and then fails exactly if it has a time limit and the time is over at the fifth moment or later; otherwise it never returns |
| SerialTimeouts.SilentUptoTimesOut | src/SerialCommHelper.cpp:483-507 | the same for a terminator that has not come |
| SerialReads.LateSignalStarves | src/SerialCommHelper.cpp:552-578 | bytes appended and signalled between emptiness test and reset make such a read fail with all it needs in the buffer |
| SerialReads.LateSignalBlocks | src/SerialCommHelper.cpp:552-578 | and a read without a time limit wait forever |
| SerialComm.SerialHelper.DrainUpto | src/SerialCommHelper.cpp:509-511 | takes up to the first terminator that has arrived, or everything that has arrived and has none, then tests and resets |
| SerialComm.SerialHelper.ReadUpto | src/SerialCommHelper.cpp:470-531 | success returns the stream up to and including the first terminator, over any number of wake-ups; the call fails if and only if one of its waits runs out of time, and drops only bytes without terminator; with no timeouts and no late reset it succeeds if and only if the terminator is in the stream |
| SerialComm.SerialHelper.ReadAvailable | src/SerialCommHelper.cpp:611-631 | takes all that has arrived at that moment, and returns it behind whatever consumed bytes the buffer still holds |
| SerialComm.RunSession | src/SerialCommHelper.cpp:470-606 | for any sequence of blocking reads and any interleaving with appends, signals and timeouts: the stream is what the calls returned or dropped, in the order of the calls, followed by what is unread or to come; a successful count has that many bytes, a successful terminated read ends with its first terminator, a timeout needs a time limit and falls short |
| EventFlags.LostExactlyByLateResets | src/SerialCommHelper.cpp:551-586 | along any run, unread bytes are always announced (flag up, or its signal to come) if and only if, by the order of the actions, no reset comes after bytes appended since the emptiness test have been signalled with no signal due |
| EventFlags.TogetherMeansTimely | src/SerialCommHelper.cpp:583-586 | if no signal falls between emptiness test and reset, no reset is late |
| EventFlags.UnreadIsAnnounced | src/SerialCommHelper.cpp:376-428 | with drain, test and reset taken together, unread bytes imply in every run that DATA_RX is set or about to be |
| EventFlags.LateSignalIsLost | src/SerialCommHelper.cpp:551-553 | from every state in which the reader has seen an empty buffer, bytes that arrive and are signalled before its reset end up unread with the flag down and nobody about to raise it |
| EventFlags.LostWakeUp | src/SerialCommHelper.cpp:551-553 | every state with no signal due leads there, by a read that takes all there is or finds nothing |
| SerialPackets.InterpretEncoded | src/ST25RU3993_driver.cpp:84-91 | the fields read from an encoded packet are the packet's own |
| SerialPackets.PreparedIsLinePacket | src/ST25RU3993_driver.cpp:10-32 | what is prepared with equal sizes within the buffer is a packet of the line protocol |
| SerialPackets.PreparedUnpacks | src/ST25RU3993_driver.cpp:10-53 | for all receive sizes, decapsulate of what encapsulate prepared gives back number, protocol, both sizes and as much of the data as the receive size says; if that is more than there is, it leaves the packet |
| SerialPackets.Driver.NextTid | src/ST25RU3993_driver.cpp:15-19 | the number handed out is the count of packets modulo 16, and the 8-bit counter keeps that count modulo 256 |
| SerialPackets.Driver.Encapsulate | src/ST25RU3993_driver.cpp:10-32 | byte by byte: the n-th packet prepared carries n modulo 16 across the wrap of the 8-bit counter, two zeros, the data size plus five, the protocol, the transmit size and the receive size, each most significant byte first, and the data; the buffer behind keeps its bytes |
| SerialPackets.Driver.ReadBody | src/ST25RU3993_driver.cpp:76 | the retry loop returns a body of the right length, and what its timeouts dropped precedes that body in the stream; it goes on forever only with the flag down and, unless a reset was late, nothing left |
| SerialPackets.Driver.WaitForPacket | src/ST25RU3993_driver.cpp:55-98 | a result is made of four header bytes and of as many bytes as the header says, also when a negative size leaves the packet without data; the stream is header, dropped bytes, body and the rest; the header is given up exactly if its read runs out of time; without timeouts nothing is dropped |
| SerialPackets.OnePacket | src/ST25RU3993_driver.cpp:55-98 | a timely call on a stream that begins with a packet returns that packet and leaves exactly what follows it |
| SerialPackets.Driver.ReceiveAll | src/ST25RU3993_driver.cpp:55-98 | from a stream of any list of packets, timely calls return the same ids, sizes and data in order and, when all are returned, have consumed exactly their bytes; only after a late reset fewer are returned |
| SerialPackets.ReceiveFromPort | src/ST25RU3993_driver.cpp:55-98 | the same from the opening of the port, for any interleaving with the receiving thread |
| RfidWorker.Worker.Encapsulate | src/rfid.cpp:168-186 | the client's queue gains one packet; for type RFID_DIRECT it carries that type and exactly those bytes, for others the source's uninitialised structure |
| RfidWorker.Worker.IdleRead | src/rfid.cpp:94-123 | one idle read appends the bytes and moves at most one packet to the client's queue, the one the reassembly step says |
| RfidWorker.ReadyIff | src/rfid.cpp:106-108 | on the beginning of a stream of sound packets the source's test, with its 8-bit sum, holds exactly when the first packet is complete, and the bytes cut off are that packet |
| RfidWorker.FeedStep | src/rfid.cpp:94-123 | one idle read forwards exactly the next packet if it is complete, and nothing otherwise |
| RfidWorker.FirstReadMovesOnIff | src/rfid.cpp:103-115 | a first read moves a packet on exactly if it brings seven bytes and four more than its fourth byte says, and exactly those go |
| RfidWorker.LeavesBoundsIff | src/rfid.cpp:106-115 | the worker leaves its arrays exactly on a complete packet of more than 100 bytes or a length byte for which the 8-bit sum wraps |
| RfidWorker.Reassembles | src/rfid.cpp:94-123 | for any cutting of a stream of sound packets into reads: every access is in bounds, the packets forwarded are a prefix of the true ones, and followed by `rxData` they are the bytes received |
| RfidWorker.ServedIsLeast | src/rfid.cpp:96-121 | the number of packets forwarded is the least, over all earlier moments, of the packets complete then plus the reads since |
| RfidWorker.CaughtUpIff | src/rfid.cpp:96-121 | the worker has forwarded all complete packets if and only if no final run of reads brought more packets than there were reads |
| RfidWorker.NothingLeftBehindIff | src/rfid.cpp:94-123 | the same condition said about the bytes and reads themselves |
| RfidWorker.BurstLeavesPacketsBehind | src/rfid.cpp:106-115 | a single read that brings several packets forwards the first and leaves all the others behind |
| IdleReads.IdleTurn | src/rfid.cpp:94-123 | one pass over the serial helper feeds the reassembly with the consumed bytes still held and all that has arrived, and one more packet reaches the client exactly if one more is complete |
| IdleReads.ServeIdle | src/rfid.cpp:94-123 | over any passes the packets passed on are a prefix of the true ones; with `rxData` and the stream they are the stream of the beginning if and only if the cursor of the buffer was at its start |
| IdleReads.ScannedPacketComesAgain | src/rfid.cpp:94-115 | a packet that a scan has read, with more behind it in the buffer, is passed on to the client by the first idle read |
| IdleReads.EncodedIsSound | src/rfid.cpp:103-115 | the packets of the board's protocol that the worker can pass on are exactly those with at most 91 bytes of data |
| RfidCommands.CommandWorker.Decapsulate | src/rfid.cpp:188-209 | a packet of type 4 is written to the serial line unchanged; one of type 0 switches the scan as its fields say; no other does anything |
| RfidCommands.CommandWorker.Execute | src/rfid.cpp:211-240 | command 0x17 switches the scan on for the argument 1 and off for any other; no other command does anything |
| RfidCommands.CommandWorker.Work | src/rfid.cpp:79-85 | the worker empties its queue and does what its packets say, in order |
| RfidCommands.BoardGetsDirect | src/rfid.cpp:200-208 | the board gets the payloads of the packets of type 4, unchanged and in order, and nothing else |
| RfidCommands.CommandsReachBoard | src/rfid.cpp:79-85 | any messages of the client, framed, dispatched and executed: the board is sent exactly the payloads of those of type 4, and the scan is switched as those of type 0 say |
| RfidCommands.PowerReachesBoard | utils/testbench:266-268 | the client's power command is a frame of type 4, and what reaches the board is the packet the driver itself would prepare for writing that register |
| ScanStatus.ScanningIsTrue | src/rfid.cpp:142-165 | in every run, whatever the commands, status SCANNING implies that the youngest scan thread has not left its loop |
| ScanStatus.ScanThreadScans | src/rfid.cpp:142-161 | as long as the status is SCANNING, whatever the other threads do, a scan thread in its loop waits for tags after two of its own steps and after every two more, and tests the status in between |
| ScanStatus.NoTagsAfterOff | src/rfid.cpp:144-163 | once the status is not SCANNING, until another ON no thread begins to wait for tags, and one that was waiting does so until its own next step |
| ScanStatus.OneScanAtATime | src/rfid.cpp:77-97 | at every moment at most one scan thread is alive, none while idle, and the worker's idle reads never overlap a scan's use of the serial line, if and only if every ON finds no scan thread alive, whenever OFF comes |
| ScanStatus.NobodyIff | src/rfid.cpp:142-165 | in a connected module no scan thread is alive exactly when the status is idle or a stop found nobody to stop |
| ScanStatus.OneScanIffSeenIdle | src/rfid.cpp:219-235 | the same in what can be seen at the commands: one scan at a time and no overlap if and only if every ON finds the status idle or follows an OFF, with no ON between, that found it idle |
| ScanStatus.IdleOnIsEnough | src/rfid.cpp:77-97 | in particular it is enough that ON is executed only when idle |
| ScanStatus.SecondOnCanOverlap | src/rfid.cpp:144-165 | from every state with a free worker and a live scan, an ON has a continuation without another ON in which worker and scan use the serial line at once |
| ScanStatus.OnIsSafeIff | src/rfid.cpp:219-235 | an ON is safe, in all orderly continuations, if and only if it finds no scan thread alive |
| ScanStatus.SecondOnOverlaps | src/rfid.cpp:223-229 | two ON commands are enough for an overlap |
| ScanStatus.WedgedOnlyByIdleOff | src/rfid.cpp:231-234 | with ON only when idle, the module never ends up stopping with nobody to stop if and only if no OFF is executed while idle |
| ScanStatus.WedgedStaysWedged | src/rfid.cpp:231-234 | from that state no run without another ON leads away |
| ScanStatus.OffWindsDown | src/rfid.cpp:144-165 | after OFF a scan thread ends within a fixed number of its own steps and makes the status idle again |
| StableSignal.SilentBeforeFirstChange | src/motor.cpp:109 | before the first speed change nothing is signalled, whatever the samples |
| StableSignal.CountsSinceChange | src/motor.cpp:154-156 | the counter is the number of samples in tolerance since the last change, up to five, whatever came before |
| StableSignal.SignalsAtTheFifth | src/motor.cpp:154-162 | a sample signals if and only if it is the fifth in tolerance since the last change |
| StableSignal.OncePerCommand | src/motor.cpp:154-162 | after a change there is exactly one signal if at least five samples are in tolerance, and none otherwise |
| RunningAverage.AverageStaysBounded | src/motor.cpp:142-146 | samples between 0 and M keep the average between 0 and M forever |
| RunningAverage.TenFill | src/motor.cpp:142 | ten equal samples fill the window whatever it held, unless the 32-bit counter wraps among them |
| RunningAverage.WindowFills | src/motor.cpp:142 | ten equal samples, or twenty where the counter is about to wrap, fill the window whatever it and the counter held, and more of them keep it filled |
| RunningAverage.ErrorShrinksTenfold | src/motor.cpp:142-146 | once the window holds a constant, n samples shrink the error of the average by exactly ten to the n |
| RunningAverage.SettlesWithinTolerance | src/motor.cpp:142-154 | so many samples at the target speed that the bound of the speeds, divided by ten that often, is a tolerated difference bring the average into tolerance, for either reading of `abs` |
| RunningAverage.WithinIff | src/motor.cpp:150-154 | a sample is in tolerance exactly when a hundred times the distance is at most three times the target, with the fraction of the distance dropped for the `abs` of integers |
| RunningAverage.SomeCountSettles | src/motor.cpp:146-154 | some number of samples settles the average from anywhere below the bound if and only if the target is not zero, or `abs` is the one of integers, or the bound is zero |
| MotorModule.Motor.Decapsulate | src/motor.cpp:186-192 | type, count and arguments are the packet's bytes 0, 1 and from 2 on, and arguments beyond the count keep what an earlier command left |
| MotorModule.Motor.Execute | src/motor.cpp:194-217 | command 0 sets the speed to 256 times its first argument plus the second and the pins by the third, restarts the count, and with speed zero puts the regulator at rest; any other command changes nothing |
| MotorModule.Motor.Work | src/motor.cpp:66-82 | the worker empties its queue and ends with the structure and the order that all its packets, one after the other, lead to |
| MotorModule.Motor.SignalStable | src/motor.cpp:219-230 | one report joins the client's queue: type 3, three bytes, 2 and the measured speed most significant byte first |
| MotorModule.Motor.UpdateAverage | src/motor.cpp:142-148 | the loop over the ring moves the average on by one filter step, and the measured speed is its whole part in 16 bits |
| MotorModule.Motor.CountSample | src/motor.cpp:154-162 | a sample is reported if and only if it is the fifth in tolerance since the last change |
| MotorModule.Motor.TakeSample | src/motor.cpp:137-177 | one pass moves the average on by one filter step, the regulator by one of its steps, and reports the speed if and only if this sample is the fifth in tolerance since the last change |
| MotorModule.Motor.Monitor | src/motor.cpp:137-183 | over any passes, average, history and regulator are those of the filter, the counter and the regulator run on the samples, and exactly one report is queued for every signal |
| MotorModule.LastCommandWins | src/motor.cpp:186-207 | after any non-empty queue of speed commands, whatever the structure held, the order is that of the last one |
| MotorModule.EnoughSamplesInTolerance | src/motor.cpp:142-154 | all but a bounded number of samples at the target speed are in tolerance, for either reading of `abs` and any target |
| MotorModule.ReachedSpeedIsReportedOnce | src/motor.cpp:129-162 | after any history, a change to a speed that the motor then runs at is signalled exactly once, by the time of the samples that fill the window, those that settle the average and five more |
| MotorModule.SteadySpeedIsReportedIff | src/motor.cpp:150-162 | a motor that runs steadily at some speed is reported for a new target, once, if and only if a hundred times the distance is at most three times the target |
| MotorModule.NearSpeedIsReportedOnce | src/motor.cpp:129-162 | from any start, a motor that keeps running at a speed strictly nearer than three percent to the target is reported exactly once |
| MotorModule.RestartBeforeTarget | src/motor.cpp:199-201 | samples between the restart of the count and the setting of the target leave exactly one signal, which comes too early if and only if five of them are in tolerance of the old target |
| MotorModule.StopIsReportedOnce | src/motor.cpp:154-162 | with the `abs` of integers a stop is reported exactly once, from any average |
| MotorModule.StopIsNeverReported | src/motor.cpp:154-162 | with the `abs` of reals, from an average that is not zero, a stop is never reported, whatever the motor does |
| MotorModule.StopIsReportedIff | src/motor.cpp:142-162 | with the `abs` of reals, a motor that stands still after a stop is reported, once, if and only if the average and what the ring holds after the first sample are zero already |
| Regulators.IntegralKeepsAccount | src/motor.cpp:166-177 | over any passes the integral term grows by its gain times the sum of the errors |
| Regulators.CommandIs | src/motor.cpp:166-177 | over any passes the command is the integral term of the beginning, plus 0.293 times the errors of all passes but the last, plus 0.49 times the last one |
| Regulators.CommandRestoredIff | src/motor.cpp:166-177 | when the last speed is the target, the command is the integral term of the beginning if and only if the errors cancel |
| CsvMerge.CellsOfConcat | utils/testbench:434 | the cells of two texts put end to end are the cells of both with the last and the first run together |
| CsvMerge.CellsOfJoin | utils/testbench:411-413 | a written row is read back cell by cell when no cell holds a special character |
| CsvMerge.CellsAreSeparated | utils/testbench:383 | a line has one cell more than it has semicolons |
| CsvMerge.SaveTmp | utils/testbench:377-414 | every row without special characters, whatever the other rows, is the beginning of the cells of its line, which are nine at least and empty behind it; there are nine with an empty last one exactly when the row needs at most eight |
| CsvMerge.Combine | utils/testbench:421-444 | every row of the result is the reference text of that row: all files' lines of that index in order, behind delimiters for the files before the first of them |
| CsvMerge.CellPlaced | utils/testbench:427-439 | cell c of a file's line lands c columns after that file's start, and later files leave it there |
| CsvMerge.AlignedIffNoGap | utils/testbench:427-439 | a file's cells start in its own column 8j if and only if no file before it lacks the row after another had it |
| CsvMerge.ColumnsAligned | utils/testbench:421-444 | without such a gap cell c of file j stands in column 8j + c |
| CsvMerge.SaveAndCombine | utils/testbench:377-444 | for every row number whose rows have at most eight cells and no special characters, whatever the other rows: cell c of row r of test j, empty beyond the row's end, stands in row r, c columns behind the start of its test, which is column 8j if and only if no test before it lacks the row after another had it |
| CsvMerge.ShorterMiddleMisaligns | utils/testbench:427-439 | of three tests of which only the middle one lacks a row, the last one's cells of that row start in the middle one's column 8 |
| CsvMerge.MisalignedExample | utils/testbench:377-444 | saving and merging three concrete tests puts a cell of the third into column 8 |
| EndToEnd.CommandIsFrame | utils/testbench:205-214 | the twelve bytes the client prints are the frame of a speed command with the magnitude and the sign of the speed |
| EndToEnd.CommandsReachMotor | src/motor.cpp:186-207 | any sequence of speed commands below 65536 in magnitude, framed, dispatched, queued, decoded and executed, leaves speed and direction of the last one |
| EndToEnd.RecordFidelity | utils/testbench:348-353 | the client reads the exact tag count of a scan record, and its timestamp modulo 2^56; the timestamp itself if and only if it is below 2^56 |
| EndToEnd.RecordBytes | src/rfid.cpp:137-158 | the record byte by byte: type 2, 0x16, eight bytes of timestamp and two of tag count, least significant first |
| EndToEnd.SendingRefinesLoop | src/network.cpp:137-179 | the steps of a framing thread have the effect on FIFO and semaphore that the sending loops are specified to have |
| EndToEnd.SentIsReceived | src/network.cpp:219-239 | whenever the writer is blocked and the producers are idle, a client reading what has been sent gets exactly the commands framed, in the order of the writes, whatever the interleaving |
| EndToEnd.PassReachesClient | src/network.cpp:137-179 | the packets of both modules, framed in one pass and read by the client, come out as the RFID packets and then the motor packets, each with its own type, size and data |
| EndToEnd.ReceiveAll | utils/testbench:159-203 | successive calls on a connection without silences return exactly the commands of the session |

## Left out

- Sockets, `accept`, `select`, termios, GPIO, PWM, printing, delays and file access: foreign calls; they appear as arriving chunks, queued outputs and the ends of waits.
- Disconnecting and reconnecting, clearing the input FIFO, and shutting down (src/network.cpp:79-90, 191, 205-213): one connected period is modelled.
- Failing allocations (src/network.cpp:145-149, 169-173; src/SerialCommHelper.cpp:385-389).
- `Network::encapsulate`, `RegCallBack`, `SafeFIFO::operator=`, `Network::Read`, the dead code of `Read_Upto` (src/SerialBuffer.cpp:125-163), and its byte count, which is always 0 and unused.
- NetworkServer.Network.Decapsulate: needs a FIFO on which the call stays within bounds, because the source checks neither the FIFO's length nor the size field; Wire.SweepOfFrames says exactly which FIFOs these are for the beginnings of a client's stream.
- NetworkServer.Network.ForwardFrames: is one step for the reader thread; bytes that arrive during a call are modelled as arriving after it, because the source reads the vector without its lock.
- NetworkServer.Network.SendMotor: needs packets of at most four bytes, because the source copies behind the structure otherwise (ServerFrames.MotorCopyInBounds); the motor's reports have three.
- SafeFifo.SafeFIFO.ReadOne: needs an element, because the source reads element 0 unguarded.
- ClientRoundTrip.RoundTrip: is about streams without silences; Silences.RoundTripWithSilences is about those with.
- The client's `recv` on a closed connection, which ends in an exception, and short `send`s.
- Torn accesses to unlocked globals: single accesses are atomic.
- The flush of the receiving thread when the port is not started (src/SerialCommHelper.cpp:415-419): it takes a lock already held. Only the started state receives.
- SerialComm.SerialHelper.WaitForSignal: tries the bits in one step; flags are only added meanwhile, so that the first one found was the lowest when it was tried.
- Negative counts passed to `Read_N`, and its assertion when the port is not started.
- SerialPackets.Driver.Encapsulate: needs data of at least the announced size and a packet within the 50-byte buffer; NULL data with a size is not modelled.
- The packet fields of the many `Cmd*` functions, `dbm_to_reg`, the sensitivity and baud tables: copies and small finite tables.
- RfidCommands.CommandWorker.Decapsulate: needs RFID commands whose arguments are in the packet and fit the structure, which the source does not check; writing to the serial line is taken to succeed.
- ScanStatus.OneScanAtATime: ON sets the status and creates the thread in one step, where the source has two statements (src/rfid.cpp:225-226); what other threads can do between them they can also do right after the step.
- The scan thread's decision whether a read brought a tag, and the time it takes.
- Writing the regulator's command to the PWM pin (src/motor.cpp:181, 246-249), and the printing of `CMD_GET_SPEED`.
- The gains and the period of the regulator, which a stop sets again and nothing changes.
- MotorModule.Motor.Execute: restarts the count and sets the target in one step, where the source has two statements (src/motor.cpp:200-201); MotorModule.RestartBeforeTarget says what samples in between do.
- MotorModule.Motor.TakeSample: the speed since the last pass is given as a whole number, which over the reals it is (fifteen per tick); the source's write at index -1 of the ring is taken to fall outside it; floating-point rounding is left out, including the underflow that in the end makes a halted average zero; which `abs` the tolerance test uses depends on headers that are not part of this model, so that both readings are covered.
- MotorModule.Motor.Decapsulate: arguments not yet written are arbitrary bytes, where the source has uninitialised words, and the argument count stays within the structure.
- CsvMerge.SaveTmp: promises nothing for rows with delimiters, commas, quotes or line ends in their cells: how those are quoted is up to a CSV library that is not part of this model; the fixed heading rows are rows like the others.
- CsvMerge.Combine: a line is the first field that the CSV reader makes of it; an empty line, on which the source fails, is not distinguished.
