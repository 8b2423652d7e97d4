# Verification model of vecu-uds

vecu-uds is a virtual ECU: it answers UDS diagnostic requests (ISO 14229-1) that arrive as ISO-TP
messages (ISO 15765-2) on a CAN bus. This project models its three stateful parts in Dafny and proves
what they promise.

1. **ISO-TP** (`src/isotp.c`). `IsoTp` gives frames, segmentation and the step machines of the receive
   loop and of the wait for Flow Control. `IsoTpCode` has the C loops over arrays, proved against them.
   `IsoTpAcceptance` says exactly how a call ends on any trace: with which message, with an error, or
   interrupted. `IsoTpWire` tells the frames octet by octet. `IsoTpChannel` has the round
   trip, soundness over a channel that loses and repeats frames of one message (although sequence numbers
   repeat every 16 frames), and resynchronisation. `IsoTpStream` lifts them to any number of messages and
   calls, and says exactly when frames of two messages are taken for one. `IsoTpLoop` runs sender and
   receiver against each other in every interleaving.
2. **Queue and threads** (`src/queue.c`, `src/threads.c`). `Queue` is the ring buffer as a class over an
   array, refining a FIFO. `Monitor` is the mutex with its two condition variables as atomic steps of any
   number of threads. `Pipeline` interleaves the receive thread, the queue, the dispatch thread, the S3
   poll and shutdown; `Blocking` proves that its states are exactly those of a producer and a consumer
   that block on the monitor. `ThreadsCode` has the threads over the mutable queue and ECU: their atomic steps are
   proved to be steps of `Pipeline`, and their loops let the others run in any way between their own steps.
3. **The server** (`src/security.c`, `src/dtc_mem.c`, `src/uds.c`, `src/vecu.c`, the S3 poll).
   `Security`, `Dtc` and `Uds` give the state and the handlers as functions; the classes in `Security`,
   `Dtc` and `UdsCode` mutate it in place and are proved to compute those functions. `UdsProps` has
   properties of one request, `SecurityRuns` and `Runs` properties of every run under a monotone clock.
   `S3Steps` takes the S3 poll apart into its readings and its two writes. `UdsWire` is a second account of
   the server, from the octets: a list of checks with their codes for every service, the octets of every
   positive answer, and the next state told from the answer; the handlers are proved to agree with it.
   `TesterView` has the runs as a tester sees them.
   `Stack` puts transport, threads and server together.

Conventions. A blocking read of the bus is a `BusEvent`: interrupted, failed, or a frame together with
the clock readings that its handling makes. A call that is still blocked when the listed events run out
has the code `Blocked`. The clock and the entropy of a request are inputs; clock values are naturals below
2^64. Octets are integers from 0 to 255; `And` and `Xor` are the bit operations. A handler, an S3 poll and
one pass of a critical section are one atomic step each.

Every lemma says `{:induction false}`: proofs are by explicit recursion only.

## What the code does that its comments do not say

- `include/isotp.h` speaks of a 1 s timeout while waiting for Flow Control. The clock is read only when a frame
  meant for somebody else arrives, and WAIT frames may follow each other for ever (`IsoTpChannel.FcWaitExact`,
  `IsoTpChannel.OverdueWait`).
- When the tail of one message and the head of the next are lost, the receiver can join the rest into a
  message that nobody sent (`IsoTpStream.SpliceUndetected`). The frames it accepts are those of one message
  exactly if no change of message among them skips a head (`IsoTpStream.AcceptedFromOneMessage`), and then,
  whatever else is lost or repeated, everything it returns was sent (`IsoTpStream.StreamSound`).
- A frame that interrupts a reassembly is said to start a fresh one; it is dropped with it, so the message it
  belongs to is lost (`IsoTpChannel.NextMessageSwallowed`).
- The queue header says that after shutdown push and pop return -1. Pop first hands out what is queued
  (`Queue.ClosedDrains`).
- The S3 poll samples the clock, reads the time stamp and later writes the session, without keeping the lock,
  and subtracts without sign. It ends a session whose tester was heard within 5 s in exactly two cases: the
  time stamp had passed the sample when it was read, or it was overdue when read and the tester was heard
  before the write (`S3Steps.EndsLiveSession`). The run properties below take the poll as one step.
- The poll ends the session and locks security under two different locks. If no session is opened in between,
  nobody can tell (`S3Steps.WindowIsHarmless`). If one is, the old unlock still works in it, and the second
  write then locks a live session (`S3Steps.OldUnlockExactly`, `S3Steps.OldUnlockUsed`).
- Service 27 writes a six-byte seed response into a buffer of 3 to 5 bytes (`UdsProps.OverrunExactly`).
- With such a buffer, 0x10 changes the session and then reports -1 (`UdsProps.DroppedExactly`). The runtime
  passes 4095, so neither happens in it.
- `main` must close the queue although the receive thread does so when it leaves: after a stop that thread may
  wait on a full queue that nobody empties any more (`Pipeline.DeadlockExactly`, `Pipeline.DeadlockReached`).
- ECUReset clears the lock-out, so the attempt bounds count it.

## Model

| member | source | states |
|---|---|---|
| Bytes.XorInvolution | src/security.c:100-100 | XOR with the same constant twice is the identity, so seed and key determine each other |
| Bytes.XorBit | src/security.c:100-100 | a bit of the exclusive OR is set exactly if it is set in one of the two |
| Bytes.AndBit | src/dtc_mem.c:51-51 | a bit of the AND is set exactly if it is set in both |
| Security.KeyIsInvolution | src/security.c:8-100 | every seed has exactly one key, and the key of the key is the seed |
| Security.KeyExact | src/security.c:100-107 | which key belongs to a seed: the one whose bits are those of the seed with the bits of DEADBEEF flipped, and no other |
| IsoTpCode.FramePad | src/isotp.c:33-38 | everything after the used bytes of a frame is padding, the used bytes stay |
| IsoTpCode.SendSf | src/isotp.c:42-52 | the frame built is the Single Frame of the payload |
| IsoTpCode.WaitForFc | src/isotp.c:56-86 | the loop over the bus computes the flow-control step machine and reads as many events |
| IsoTpCode.BuildCf | src/isotp.c:108-113 | the frame built from the shared buffer is the k-th Consecutive Frame of the data |
| IsoTpCode.SendCfs | src/isotp.c:104-118 | the frames sent are a prefix of the segmentation, all of it exactly on success, cut only at a failed send |
| IsoTpCode.IsotpSend | src/isotp.c:121-130 | illegal lengths are refused unsent; otherwise a prefix of the segmentation goes out, success means all of it, nothing follows the first frame before a clear-to-send, failure has a cause, and as many bus events are read as the wait takes |
| IsoTpCode.OnIdle | src/isotp.c:168-195 | outside a reassembly, one frame does to buffer and variables what the step machine does |
| IsoTpCode.OnReceiving | src/isotp.c:197-226 | during a reassembly likewise, and the buffer past its capacity is untouched |
| IsoTpCode.IsotpRecv | src/isotp.c:145-228 | the loop returns code, bytes, events read and Flow Control sent of the step machine started idle, and never writes past `out_cap`; on the trace: 0 exactly for an accepted message, which is in the buffer, -1 exactly if the trace fails, 1 exactly if the last event read is an interruption |
| IsoTpCode.CodeMeans | src/isotp.c:145-228 | what each return code says about the trace |
| IsoTp.RxStep | src/isotp.c:155-227 | a step keeps the reassembly within the buffer, and a returned message has 1 to `out_cap` bytes |
| IsoTp.CfCount | src/isotp.c:105-117 | the number of Consecutive Frames is the least that covers the length |
| IsoTpChannel.SegmentPadded | src/isotp.c:33-52 | at most 586 frames of 8 bytes, identifiers of 11 bits, zero padding after the last payload byte |
| IsoTpChannel.SegmentByte | src/isotp.c:88-119 | every payload byte, and every padding byte after the last, is found at its place in the segmentation |
| IsoTpWire.ReadOctets | src/isotp.c:161-216 | which first octets start or continue a message: 01 to 07, 1008 to 1FFF, and 20 + n |
| IsoTpWire.FlowOctet | src/isotp.c:66-84 | waiting for Flow Control, 30 clears, 31 waits, anything else fails |
| IsoTpWire.FlowControlOctets | src/isotp.c:134-143 | the Flow Control frame is 30 00 00 and zeros: no block limit, no separation time |
| IsoTpWire.ShortOctets | src/isotp.c:42-52 | a message of up to 7 bytes on the bus |
| IsoTpWire.LongOctets | src/isotp.c:88-119 | a longer one: 1 and twelve bits of length, frames headed 21 to 2F, 20 and so on, the bytes in order, zeros behind them |
| IsoTpAcceptance.AcceptanceExact | src/isotp.c:145-228 | on any trace, a message is returned if and only if the addressed events are discarded ones, then a complete timely transfer of that message, then anything; no receiver state is mentioned |
| IsoTpAcceptance.EndingExact | src/isotp.c:145-228 | on any trace, a call ends with a given verdict if and only if the addressed events are discarded ones and then events that decide so |
| IsoTpAcceptance.AbortedExact | src/isotp.c:155-226 | -1 exactly if after discarded events the bus fails (with or without a transfer begun), or the Flow Control for a First Frame does, or in a transfer a frame comes late or a Consecutive Frame has not the number of its place |
| IsoTpAcceptance.SignalledExact | src/isotp.c:155-160 | 1 exactly if the last event read is an interruption |
| IsoTpAcceptance.IdleExactly | src/isotp.c:168-209 | the receiver is still idle after exactly the traces it discards: frames that start nothing, and transfers cut short in time together with the frame that does it |
| IsoTpAcceptance.ForeignTrafficInvisible | src/isotp.c:161-164 | frames with other identifiers change neither verdict, nor Flow Control, nor which addressed frames are left for the next call |
| IsoTpAcceptance.AcceptedFrom | src/isotp.c:168-226 | a returned message is a well-formed SF, or an FF directly followed by exactly its CFs numbered 1, 2, ... modulo 16, each within N_Cr; it ends with the last event read and follows discarded events only |
| IsoTpAcceptance.TransferCompletes | src/isotp.c:168-226 | a complete timely transfer that finds the receiver idle is delivered by its last frame, with Flow Control sent once if it has several frames |
| IsoTpAcceptance.RunAppend | src/isotp.c:155-227 | the run of two event sequences is the run of the second from the state after the first |
| IsoTpChannel.RoundTrip | src/isotp.c:42-228 | for every payload of 1 to 4095 bytes and any foreign traffic, receiving what was segmented gives the same bytes if they fit and nothing otherwise, and leaves no addressed frame for the next call |
| IsoTpChannel.SampledTransfer | src/isotp.c:104-117 | a transfer made of frames of one message, in order with loss and repetition, is all of them once, although numbers repeat every 16 |
| IsoTpChannel.FaultyChannelSound | src/isotp.c:145-228 | over a channel that loses and repeats frames of one message, a returned message is that message |
| IsoTpStream.StreamRoundTrip | src/isotp.c:42-228 | called again and again, the receiver returns the segmented messages that fit its buffer, all of them, in order |
| IsoTpStream.OneMessageIff | src/isotp.c:197-226 | a transfer of frames drawn in order from many messages stems from one of them exactly if no change of message inside it skips a first frame |
| IsoTpStream.AcceptedFromOneMessage | src/isotp.c:145-228 | so the frames behind a returned message stem from one message exactly under that condition, and then that message is returned |
| IsoTpStream.StreamSound | src/isotp.c:145-228 | over a channel that loses and repeats frames of any number of messages, as long as no message that arrives in part has lost its first frame, repeated calls return only messages sent, in order |
| IsoTpStream.SpliceIsDrawn | src/isotp.c:211-215 | the front of one message and the rear of another is such a sample, and fails the condition |
| IsoTpStream.SpliceUndetected | src/isotp.c:211-215 | and it is delivered, for any lengths that leave enough frames: the front of the first with the rear of the second, which is neither message unless the parts agree |
| IsoTpChannel.NextMessageSwallowed | src/isotp.c:203-209 | after a truncated message, among any other traffic, the next one is consumed without delivery if it comes in time, and aborts the call otherwise |
| IsoTpChannel.Resynchronises | src/isotp.c:168-209 | and the one after that is delivered exactly |
| IsoTpChannel.FcWaitExact | src/isotp.c:56-86 | the wait ends exactly at the first event that does not keep it waiting, and well exactly if that is an addressed clear-to-send |
| IsoTpChannel.OverdueWait | src/isotp.c:62-82 | after the deadline the sender still waits exactly as long as it reads only signals and addressed WAIT frames |
| IsoTpLoop.PeerReads | src/isotp.c:145-227 | reading frame c of the segmentation takes the receiver from c frames to c + 1 |
| IsoTpLoop.MoveKeepsInv | src/isotp.c:56-227 | every move of either party keeps read + in flight + unsent = segmentation, with Flow Control before the second frame, and nobody fails |
| IsoTpLoop.ClosedLoop | src/isotp.c:56-227 | in every interleaving some move is possible until both sides have succeeded with equal data, after exactly two moves per frame and one for Flow Control |
| Queue.RingPush | src/queue.c:39-43 | storing at the tail of a ring that is not full appends and keeps tail = head + count modulo 8 |
| Queue.RingPop | src/queue.c:60-62 | moving the head drops the oldest message and keeps that equation |
| Queue.UdsQueue.Push | src/queue.c:29-47 | one pass waits, refuses or appends as the FIFO says |
| Queue.UdsQueue.Pop | src/queue.c:49-66 | one pass waits, refuses or takes the oldest message as the FIFO says |
| Queue.UdsQueue.Shutdown | src/queue.c:20-27 | closes the queue and keeps its contents |
| Queue.ClosedDrains | src/queue.c:35-65 | a closed queue hands out what it holds in order, then refuses, and refuses every push |
| Monitor.StepKeepsInv | src/queue.c:29-66 | any step of any thread keeps FIFO history and, while open, as many woken consumers as messages if a consumer sleeps and as many woken producers as free slots if a producer sleeps |
| Monitor.NoLostWakeup | src/queue.c:29-66 | in every reachable state no wakeup is lost, producers and consumers never all sleep, nobody sleeps on a closed queue, and accepted = popped + queued |
| Monitor.WokenCanRun | src/queue.c:32-64 | a woken thread can run; a woken consumer takes a message if there is one, a woken producer stores its own if there is room |
| Monitor.ClosedForGood | src/queue.c:20-66 | once closed, nothing more is accepted and only the queued messages come out, in order |
| Security.SecurityState.IssueSeed | src/security.c:26-73 | requestSeed in place: state and reply of the specification |
| Security.SecurityState.CheckKey | src/security.c:75-119 | sendKey in place: state and reply of the specification |
| SecurityRuns.ReachableInv | src/security.c:37-118 | in every run a pending seed excludes lock-out and unlock, three fails mean lock-out, an unlocked state has no fails, and the second lock-out check of sendKey never fires |
| SecurityRuns.AttemptRate | src/security.c:45-118 | any half-open 10 s window has at most three failed comparisons, three more for each reset and two more for each accepted key |
| SecurityRuns.LongRunRate | src/security.c:45-118 | a run of T ms has at most 3 * (T / 10000 + 1), and as many more |
| SecurityRuns.FailuresAccounted | src/security.c:100-118 | with them, failures are at most 3 per lock-out, 2 per reset or accepted key, and 2 more |
| SecurityRuns.LockOutHolds | src/security.c:45-56 | until its end a lock-out holds against everything but a reset: no seed, no comparison |
| SecurityRuns.OneComparisonPerSeed | src/security.c:67-101 | each seed handed out permits at most one comparison |
| SecurityRuns.UnlockProvenance | src/security.c:67-107 | an unlocked state stems from a seed handed out and not used, replaced or withdrawn since, and its one key; nothing has locked again after that |
| SecurityRuns.PendingUntil | src/security.c:67-101 | the seed the key is compared with is the one handed out |
| Dtc.DtcMem.Append | src/dtc_mem.c:21-33 | appends the code masked to 24 bits unless 16 entries are stored |
| Dtc.DtcMem.ClearAll | src/dtc_mem.c:35-43 | empties the store and returns how many entries it had |
| Dtc.DtcMem.SnapshotByMask | src/dtc_mem.c:45-57 | copies the first matching entries in store order, as many as fit |
| Dtc.ReportRoundTrip | src/uds.c:189-194 | decoding the records of 24-bit entries gives back the entries |
| Dtc.AddExact | src/dtc_mem.c:21-33 | up to sixteen entries are kept, oldest first, with the low 24 bits of the code; none is overwritten |
| Dtc.MatchesExact | src/dtc_mem.c:51-51 | an entry matches exactly if its status and the mask share one of eight bits |
| Dtc.FilterSelects | src/dtc_mem.c:45-57 | the entries reported are those at increasing positions of the store, exactly the positions whose status shares a bit with the mask |
| UdsCode.Vecu.constructor | src/vecu.c:41-103 | the initial state: default session, locked, owner "ANONYMOUS", two stored codes |
| UdsCode.Vecu.SessionControl | src/uds.c:62-94 | session, time stamp, code and response bytes of the specification |
| UdsCode.Vecu.EcuReset | src/uds.c:98-131 | default session, everything locked, lock-out forgotten |
| UdsCode.Vecu.ReadDtc | src/uds.c:156-198 | the report is written record by record into the response |
| UdsCode.Vecu.SecurityAccess | src/uds.c:250-308 | gating, dispatch to seed or key, and response bytes, for every capacity from 3 bytes on; nothing is written past it unless the seed response overruns it |
| UdsCode.Vecu.WriteDid | src/uds.c:312-343 | gating in the order of the code, and the owner name written in place |
| UdsCode.Vecu.OwnerWrite | src/vecu.c:31-39 | accepts exactly 1 to 32 bytes |
| UdsCode.FindDid | src/did_table.c:17-25 | the linear scan finds what vecu_init registered for the identifier, or nothing |
| UdsCode.Vecu.ProcessRequest | src/uds.c:390-404 | the whole request path changes the ECU, returns and answers as the specification, for every request and capacity, and writes past the capacity only in an overrun by service 27 |
| UdsCode.Vecu.PollS3 | src/threads.c:90-106 | one S3 poll in place |
| UdsProps.OverrunExactly | src/uds.c:250-288 | for every state, request and buffer, the response is longer than the buffer exactly if 27 01 gets its seed, or the zero seed of an unlocked level, with 3 to 5 bytes to put it in |
| UdsProps.ResponseDiscipline | src/uds.c:32-404 | with 3 bytes of buffer or more, every non-empty request is answered with [7F, sid, nrc] or sid + 0x40, in at most 67 bytes, unless it is dropped; only positive answers of sub-function services are suppressed |
| UdsProps.NegativeChangesNothing | src/uds.c:62-404 | a negative answer leaves the ECU unchanged, except that NRC 35 and 36 use up a pending seed |
| UdsProps.FrameByService | src/uds.c:62-369 | each part of the state is changed only by the services meant to change it |
| UdsProps.DroppedExactly | src/uds.c:76-83 | dropped are empty requests, everything with less than 3 bytes of buffer, and exactly the session changes with 3 to 5 bytes, which are applied first |
| UdsProps.SuppressTransparent | src/uds.c:62-369 | the suppress bit changes only the return code, and that exactly for positive answers that are not dropped |
| UdsProps.ReportExact | src/uds.c:176-197 | decoding the 19 02 body gives exactly the stored entries that match the mask, in order |
| UdsWire.RefusedExactly | src/uds.c:53-404 | every request that is not dropped is refused exactly if one of the checks of its service fails, with the code of the first that does, in every state that runs reach |
| UdsWire.PositiveExact | src/uds.c:76-368 | the octets of every positive answer: session and timing, identifiers in ASCII, telemetry, owner, seed drawn or A5A5A5A5 |
| UdsWire.ReportPositions | src/uds.c:176-197 | the 19 02 answer position by position: increasing store positions, exactly those sharing a bit with the mask, each with three octets of code and one of status |
| UdsWire.Observed | src/uds.c:62-404 | the whole state after any request follows from the state before it and the octets of the answer |
| UdsProps.S3ExpiredExactly | src/threads.c:93-95 | the unsigned comparison holds for more than 5000 ms of silence and for a time stamp later than the sample |
| UdsProps.PollExact | src/threads.c:90-104 | an atomic poll reverts exactly after more than 5000 ms of silence, locks and drops the pending seed, and changes nothing else |
| S3Steps.EndsLiveSession | src/threads.c:91-97 | with other threads between its steps, the poll ends a session that is live when it writes exactly if the time stamp passed the sample before it was read, or was overdue when read and renewed before the write |
| S3Steps.UndisturbedPoll | src/threads.c:91-102 | with nothing between its readings and its two writes it is the atomic poll |
| S3Steps.TesterPresentEndsSession | src/threads.c:93-97 | the first case: a TesterPresent 1 ms after the sample ends the session |
| S3Steps.OpenedSessionEnded | src/threads.c:94-97 | the second: a session opened after an overdue time stamp was read is ended at once |
| S3Steps.WindowIsHarmless | src/threads.c:97-102 | between the two writes, whatever is handled while no session is open gets the same answers, and leads to the same state, as after one atomic poll |
| S3Steps.OldUnlockExactly | src/threads.c:97-102 | the first session opened between them accepts a write of the owner name, which an atomic poll would have refused, exactly if the old unlock is still there |
| S3Steps.OldUnlockUsed | src/threads.c:97-102 | an instance for every unlocked state: 10 03 and 2E F2 00 41 are accepted between the writes, and the live session is then locked |
| Runs.SecurityFollows | src/uds.c:119-308 | the ECU moves its security state exactly as services 11 and 27 and the poll let it |
| Runs.EveryAnswerDisciplined | src/uds.c:390-404 | from power-up, every answer in every run is disciplined |
| Runs.S3Safety | src/threads.c:86-106 | with polls at most P ms apart, no state outside the default session is more than 5000 + P ms from the last TesterPresent or session change |
| Runs.FailureVisible | src/uds.c:296-307 | on the wire NRC 35 and 36 mean a failed comparison and only that; likewise positive sendKeys accepted keys, and positive resets resets |
| Runs.WindowRate | src/security.c:45-118 | whatever a 10 s window of requests, polls and updates holds, at most three answers are NRC 35 or 36, three more for each positive reset and two more for each positive sendKey among the answers |
| Runs.LongRate | src/security.c:45-118 | the same for a run of any length |
| Runs.LockOutOnTheWire | src/security.c:26-99 | in every run, until a lock-out ends or a positive reset is answered, every service 27 request is refused without effect: 27 01 in a non-default session with NRC 37, and never with NRC 35 or 36 |
| Runs.UnlockProvenance | src/uds.c:250-308 | in every reachable ECU state, being unlocked is explained by a completed key exchange that nothing revoked |
| Runs.SeedOnTheWire | src/uds.c:269-287 | the seed of that exchange was answered to 27 01 in a non-default session |
| Runs.KeyOnTheWire | src/uds.c:290-307 | its key was received with 27 02 in a non-default session and answered 67 02 |
| Runs.WriteGated | src/uds.c:316-342 | a write is accepted exactly for F200, 1 to 32 bytes, in session 2 or 3, unlocked |
| Runs.OwnerFollowsHistory | src/vecu.c:20-39 | in every run the owner name is the payload of the last accepted write |
| Runs.ReadBackOwner | src/uds.c:202-246 | reading F200 gives 62 F2 00 and exactly that name, whatever came in between |
| Runs.ChangedNameWasAuthorised | src/uds.c:250-343 | a changed owner name goes back to an accepted write after a key exchange still in force |
| TesterView.AnswersTellState | src/uds.c:62-404 | at every point of every run from power-up, the state is what a tester computes from requests, answers, telemetry and times, polls included |
| TesterView.AtPowerUp | src/vecu.c:41-103 | the state at power-up |
| TesterView.ResetLeavesSession | src/uds.c:117-131 | after an answer 51 the session is the default one, and nothing is unlocked, pending, counted or locked out |
| TesterView.ResetShutsOut | src/uds.c:117-131 | from then on, until an answer 50 02 or 50 03, every service 27 request and every well-formed write of F200 gets NRC 7F |
| TesterView.ResetThenSeed | src/uds.c:117-126 | and the first 27 01 of the next session gets a seed even if a lock-out was running |
| TesterView.LockOutExactly | src/security.c:45-56 | after NRC 36 at time T, and until a seed or a reset is answered, 27 01 in a session gets NRC 37 before T + 10000 and a seed from then on |
| TesterView.KeyDecides | src/security.c:100-107 | while the seed of an answer 67 01 is pending, a key is answered 67 02 exactly if its bits are those of that seed with the bits of DEADBEEF flipped |
| Pipeline.StepKeepsInv | src/threads.c:16-59 | every step of every thread keeps received = served + in hand + queued + dropped, sent = what a sequential server sends, and who may have left and why |
| Pipeline.RefinesSequentialServer | src/threads.c:16-59 | in every interleaving the responses sent are those of a sequential server over a prefix of the received requests, at most ten behind; a dispatcher that leaves without a stop has served them all |
| Pipeline.SentExactly | src/threads.c:49-56 | in every interleaving, each served request has its answer among the messages sent, byte for byte and at its place; the only ones without are positive answers suppressed by bit 7 of a sub-function |
| Pipeline.DeadlockExactly | src/main.c:105-115 | in a reachable state nothing that runs can go on exactly if the receive thread waits on the full open queue after the dispatcher has left, and then `main` can close the queue |
| Pipeline.DeadlockReached | src/main.c:105-115 | a run that gets there: eight requests queued, a ninth being read when the stop comes |
| Pipeline.ShutdownProgress | src/main.c:46-118 | once the stop flag is up, receive and dispatch thread take at most seven steps more in any interleaving; once the queue is closed too, each can always take its next step until it has left |
| Pipeline.ResponsesFit | src/threads.c:52-56 | every response sent has 1 to 67 bytes |
| Blocking.StepKeepsLinked | src/queue.c:20-66 | with the receive thread as producer and the dispatch thread as consumer on the monitor, every step keeps one queue, the monitor's invariant, and each thread asleep or woken only in its own call |
| Blocking.PassIsAvailable | src/queue.c:29-66 | as soon as the queue lets a push or pop through, its thread is awake and one pass of its own makes the step |
| Blocking.RunIsPipeline | src/queue.c:29-66 | every run on the monitor, its waits and wakeups taken out, is a run of the pipeline |
| Blocking.SameStates | src/queue.c:29-66 | and the pipeline reaches exactly the states that the blocking threads reach |
| ThreadsCode.Runtime.DispTryPop | src/queue.c:49-66 | the pop on the mutable queue is the pop step of the interleaved model, or changes nothing if it must wait |
| ThreadsCode.Runtime.Serve | src/threads.c:49-56 | handling the popped request on the mutable ECU is the serve step: the ECU changes and sends what the specification says, and nothing if suppressed or dropped |
| ThreadsCode.Runtime.Offer | src/threads.c:16-108 | whatever step is offered, the program makes it exactly if the model enables it, with the same effect |
| ThreadsCode.Runtime.RxLoop | src/threads.c:16-32 | with the other threads running in any way, the receive loop takes the non-empty messages in order, leaves at a stop or a failed read and then closes the queue, or is blocked on a full open queue |
| ThreadsCode.Runtime.DispLoop | src/threads.c:40-59 | with the other threads running in any way, each round of the dispatch loop serves one request; it leaves at a stop, or when the queue is closed and everything received is served |
| ThreadsCode.Runtime.S3Loop | src/threads.c:86-108 | with the other threads running in any way, the poll loop polls once a round until it sees the stop flag |
| ThreadsCode.RuntimeIsSequential | src/threads.c:16-108 | whatever has been run on it, the mutable program has sent what a sequential server sends, which is every answer but the suppressed ones |
| Stack.RequestResponse | src/isotp.c:42-228 | in every reachable state a request that the tester's send loop has sent reaches the ECU unchanged, and an answer that is really sent reaches the tester unchanged |
| Stack.Dialogue | src/threads.c:16-59 | from boot, in every interleaving, a tester whose requests go through ISO-TP gets back through ISO-TP exactly what a sequential server answers to a prefix of them, every answer but the suppressed ones |

## Left out

- The runtime takes complete messages from the kernel's ISO-TP; `Stack` composes the server with the repository's own `src/isotp.c` instead.
- Sockets, the kernel ISO-TP module, and thread creation and joining in `src/main.c`: operating system calls; their results are events and steps of the model.
- Telemetry arithmetic (`src/app_engine.c`): floating-point sine; RPM, speed and coolant are set by the environment.
- 64-bit overflow of `now + 10000` and `now + 1000`: the clock would have to run for 500 million years.
- NULL-argument guards, logging, the Python client, Docker and scripts: plumbing.
- Liveness under a fair scheduler, and the time a blocked read takes: the code gives no bound. `Pipeline.ShutdownProgress` bounds steps, not time.
- Interleavings inside one handler, or inside one S3 poll in the run properties; `S3Steps` has the steps of the poll.
- UdsQueue: a slot holds the `len` live bytes of its message; stale bytes behind them are not modelled.
- IsotpRecv: bytes of the buffer past the returned message, which the caller must not read, are left unspecified below `out_cap`.
- ProcessRequest: an overrun needs at least 6 bytes of memory behind the buffer; what it does without them is undefined in C.
- SecurityAccess: likewise.
- ReadDid: the 256-byte scratch buffer and its overflow return are not modelled, because no registered value is longer than 32 bytes.
- SendKey: the two clock readings of the handler are one, because the first decides nothing while a seed is pending (`SecurityRuns.ReachableInv`).
- RefinesSequentialServer: a response whose `write` fails counts as sent, because the code ignores that result.
- ShutdownProgress: is about the receive and dispatch threads; the S3 and application threads test the flag once a round and wait for nobody.
