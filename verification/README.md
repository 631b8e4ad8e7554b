# MessageServer: a verified model of the message pipeline

The server has two threads. The network thread reads client messages into segments of one
memory block and hands them over in batches through an unlocked queue guarded by a two-valued
atomic flag. The worker thread keeps a list of waiting messages, dispatches up to 256 of them
per pass against a map of session mailboxes, and answers in JSON. A performance tool generates
such messages, with session IDs drawn from a counter, in segments of a block of its own.

| file | content |
|---|---|
| `Common.dfy` | constants and sequence reversal |
| `VectorErase.dfy` | the multi-index erase of `Vector.hpp`, as written and shift-correct |
| `MemoryBlock.dfy` | the segment allocator `MemoryManager.hpp` over an array |
| `Handoff.dfy` | the two threads around the shared queue as an interleaved step system, and its refinement of an atomic one-place mailbox |
| `JsonReply.dfy` | the stream construction of the reply, and a reader for RFC 8259 objects and strings with all escapes |
| `Dispatch.dfy` | what a dispatch does to the session store, and histories of dispatches |
| `Passes.dfy` | passes over the waiting list: result, progress, starvation |
| `Worker.dfy` | the classes of the worker, proved against `Dispatch.dfy` and `Passes.dfy` |
| `Client.dfy` | the class of the network thread |
| `Wire.dfy` | the message format: both encoders against the slicing of the worker |
| `Pipeline.dfy` | all of the server in one step system, with every interleaving |
| `Traffic.dfy` | every read and every reply of whole runs |
| `Rounds.dfy` | passes and rounds as steps of that system, with either erase; starvation |
| `AsWritten.dfy` | the server as written: which runs take every message once, and runs that do not |
| `EndToEnd.dfy` | the repaired server against a serial one: delivery in the order of reading |
| `Settling.dfy` | what the repaired server comes to once nothing arrives, in every interleaving |
| `SessionId.dfy` | the session-ID counter and its hexadecimal printer |
| `Generator.dfy` | the message generator of the performance tool |

Reading guide. A C++ `char` is a Dafny `char`; a pointer is its offset from the base of the
block. A run is any sequence of actions; an action whose program counter does not allow it
leaves the state alone, so the sequences are exactly the interleavings. Results of `read`,
`write` and `rand` are inputs and arbitrary. A `read` that returns -1 is part of the model: the
code narrows it to a message of length 65535. Flag accesses are sequentially consistent, as
`std::atomic` gives by default.

## Where the code differs from its comments

The model follows the code; the exact contract of each of these is proved.

- `Vector::erase` does not correct the later indices for the elements already erased
  (`EraseElements`). The shift-correct loop is a labelled variant (`EraseElementsCorrected`,
  `ProcessMessagesCorrected`, `fix == true` in `Pipeline.dfy`). `AsWrittenEndIff` says when the
  two agree, `AsWrittenEndFaultIff` when it runs off, `AsWrittenOnceIff` which runs lose messages,
  and `LossReached` and `FaultReached` give runs from the start in which it happens.
- `getNextMemPointer` never resets its offset: from call 4096 on, every message of the server is
  read into segment 0 (`PointerClosedForm`). `IntactIff` and `IntactAfterReadIff` say which
  of them survive, `LateEntriesFollowNewest` what the worker then sees; hence the condition
  `Protected` of the buffer theorems and `Faithful` of the end-to-end ones.
- `transferMessages` clears `Messages` before it tests the flag, so a transfer that sees WROTE
  is lost (`NoLossIff`, `SecondTransferLost`).
- `CLIENTS_MAX` is tested before the session is looked up: a full store refuses every SET, for
  existing sessions too, forever (`FullForever`). `MSG_PER_SESSION_MAX` bounds nothing
  (`MailboxUnbounded`).
- `generateRandIntRange(Min, Max)` yields at most Min + Max - 1, and the generated payloads may
  hold quotation marks and backslashes, which the JSON reply does not escape
  (`GeneratedCleanIff`, `ReplyRecoverableIff`).

## Model

| member | source | states |
|---|---|---|
| VectorErase.Vector.EraseElements | Vector.hpp:29-35 | the loop as written ends as one-by-one erasing does, and reports a fault exactly if an index lies outside the vector by then |
| VectorErase.Vector.EraseElementsCorrected | Vector.hpp:13-35 | repaired variant: removes exactly the listed positions, the rest staying in order |
| VectorErase.EraseEachRemovesShifted | Vector.hpp:29-35 | one-by-one erasing of a non-descending list removes exactly the original positions E[k]+k, and runs off the vector iff the last of those does |
| VectorErase.CorrectedErase | Vector.hpp:29-35 | erasing at E[k]-k removes exactly E, for every ascending list in range |
| VectorErase.EraseEachKeepsPromiseIff | Vector.hpp:13-35 | the entries at exactly the listed positions go iff at most one is listed; about values, the result is the promised one iff so wherever all elements differ, since equal elements can stand in for each other |
| MemoryBlock.MemoryManager.constructor | MemoryManager.hpp:14-21 | a fresh block of count times size bytes and no call yet |
| MemoryBlock.MemoryManager.GetNextMemPointer | MemoryManager.hpp:29-32 | call number k returns the pointer of the k-fold offset iteration |
| MemoryBlock.PointerClosedForm | MemoryManager.hpp:29-63 | call k hands out segment k below the count and segment 0 ever after |
| MemoryBlock.CyclicUpToCount | MemoryManager.hpp:29-63 | that equals k mod count up to call count, and call count+1 is the first to differ |
| MemoryBlock.DisjointIffNoOverflow | MemoryManager.hpp:29-63 | the first count calls give pairwise disjoint segments iff no segment address overflows 32 bits |
| MemoryBlock.SegmentsApart | MemoryManager.hpp:46-63 | the segment of a call below the count is disjoint from that of every later call, all inside the block |
| MemoryBlock.PointerInBlock | MemoryManager.hpp:46-63 | every pointer ever returned starts a whole segment inside the block |
| Handoff.InvStep | ClientHandler.cpp:122-155 | every step of either thread keeps the hand-over invariant |
| Handoff.SafeAlways | MessageServer.cpp:7-13 | in every interleaving from the start state: mutual exclusion, exact size snapshot, no pop or back() on an empty container, FIFO, and the queue empty while the flag is PROCESSED and the network thread is outside |
| Handoff.Conservation | ClientHandler.cpp:83-155 | each message read is in exactly one of Messages, transfer vector, queue, popped, discarded |
| Handoff.NoLossIff | ClientHandler.cpp:126-135 | read equals popped, queued and pending in order iff no non-empty transfer saw WROTE |
| Handoff.SecondTransferLost | ClientHandler.cpp:126-135 | a transfer tested before the worker has released the one before it is discarded as a whole and for good, whatever both threads do in between and later |
| Handoff.PushLoop | ClientHandler.cpp:140-151 | popping from the back of the newest-first vector queues the messages in read order |
| Handoff.PopLoop | MessageHandler.cpp:27-30 | the draining loop takes the whole queue in order |
| Handoff.TransferAlone | ClientHandler.cpp:122-159 | the network thread's steps, undisturbed, do what TransferMessages promises |
| Handoff.DrainAlone | MessageHandler.cpp:20-37 | the worker's steps, undisturbed, do what DrainQueue promises |
| Handoff.StepRefinesMailbox | ClientHandler.cpp:135-154 | every fine step is invisible or is an atomic put or take of a whole batch; a transfer is accepted iff the slot is empty |
| Handoff.RefinesMailboxAlways | MessageHandler.cpp:20-37 | the refinement invariant holds in every interleaving |
| JsonReply.StringStream.Write | MessageHandler.cpp:158-165 | writing overwrites at the put position and extends the buffer; a failed stream ignores it |
| JsonReply.PutAt | MessageHandler.cpp:168-172 | an overwrite places its text, keeps every other character and cuts nothing off |
| JsonReply.StringStream.SeekCur | MessageHandler.cpp:168-170 | relative move of the put position, failing when out of range |
| JsonReply.BuildReply | MessageHandler.cpp:156-173 | for every list the stream holds header, items joined by ",\n", trailer, without a separator left over |
| JsonReply.CleanReplyParses | MessageHandler.cpp:156-176 | the text is a JSON object (sections 2, 4 and 7 of RFC 8259) of the payloads, member i having a name that reads as the number i + 1 |
| JsonReply.ReplyRecoverableIff | MessageHandler.cpp:164-166 | a reader that knows all escapes of section 7 of RFC 8259 recovers the exact list, numbered from 1, iff no payload has a quotation mark, backslash or control character |
| JsonReply.ReplyHoldsVerbatim | MessageHandler.cpp:164-166 | clean or not, payload i stands in the reply as it is, in quotation marks behind its number i + 1 |
| JsonReply.DecimalWrites | MessageHandler.cpp:165 | a number is printed in digits that read back as that number, without a leading zero |
| JsonReply.OnlyDecimalWrites | MessageHandler.cpp:165 | and that is the only such text |
| JsonReply.ResultReads | MessageHandler.cpp:192-197 | the reply of resultCode is a JSON object in which a reader finds that code |
| JsonReply.ReadAsItself | MessageHandler.cpp:164-166 | whatever stands in a payload, its line is read as that payload only if it is clean: an escape shrinks, and no second quotation mark follows on the line |
| JsonReply.ReplyInjective | MessageHandler.cpp:156-176 | different lists of such payloads give different replies |
| Dispatch.DispatchFrame | MessageHandler.cpp:63-154 | false exactly for a GET on a missing or empty mailbox, then without effect; a mismatched type has no effect and no answer; other sessions never change; a failed send keeps the mailbox; the descriptor is closed exactly when a mailbox was handed over |
| Dispatch.KindIff | MessageHandler.cpp:69-70 | exactly "GET" counts as a GET and exactly "SET" as a SET |
| Dispatch.GetReplyReadable | MessageHandler.cpp:137-150 | an answered GET sends the whole mailbox, readable iff all payloads are clean, and empties it only on success |
| Dispatch.AcceptedIffTold | MessageHandler.cpp:85-116 | what a JSON reader finds in the reply to a SET: 2 exactly if the payload was stored, 100 exactly if the store is full, no reply exactly for an empty payload in a store that is not full |
| Dispatch.ExactlyOnce | MessageHandler.cpp:81-151 | over all dispatch sequences: handed over, then still stored, equals stored at the start, then accepted |
| Dispatch.StoreInvStep | MessageHandler.cpp:86-111 | at most 1024 sessions, 64-byte keys, non-empty payloads; keys never go away |
| Dispatch.StoreInvReplay | Session.cpp:16-36 | the same over all dispatch sequences |
| Dispatch.FullForever | MessageHandler.cpp:86-90 | with 1024 sessions nothing is accepted again, for any session |
| Dispatch.MailboxUnbounded | Message.cpp:5-21 | between two GETs a mailbox holds all payloads accepted, newest first, before its old content; and below the session limit every SET is accepted, however many |
| Passes.CorrectedPassLeaves | MessageHandler.cpp:45-59 | with the shift-correct erase a pass leaves exactly the entries that returned false, in order, and the untouched rest |
| Passes.AsWrittenPassLeavesIff | MessageHandler.cpp:45-59 | with the erase as written it does so if at most one entry completed, and only if so where all waiting entries differ |
| Passes.AsWrittenFaultIff | MessageHandler.cpp:50-59 | with n entries done, the last at index i, the erase runs off the vector iff i + n exceeds the number waiting |
| Passes.AsWrittenFaultsWhenAllDone | MessageHandler.cpp:50-59 | in particular when every one of two or more waiting messages completes |
| Passes.AsWrittenRepeatsAndLoses | MessageHandler.cpp:50-59 | two SETs before a waiting GET: the second SET is stored twice, the GET is dropped |
| Passes.PassShortens | MessageHandler.cpp:45-59 | fewer than 256 GETs and a completable entry: a pass strictly shortens the list |
| Passes.Progress | MessageHandler.cpp:45-59 | then as many passes as messages leave only GETs on missing or empty mailboxes |
| Passes.Starvation | MessageHandler.cpp:45-59 | 256 leading such GETs, as long as the dispatches see these same GETs: no pass changes store or list, whatever arrives behind |
| Worker.Session.Add | Session.cpp:16-20 | adds an empty mailbox unless the ID is there, sharing with none |
| Worker.Session.AddMessage | Session.cpp:32-36 | prepends to the one mailbox, all others unchanged |
| Worker.SharedQueue.constructor | MessageServer.cpp:7-10 | starts PROCESSED with an empty queue |
| Worker.DrainQueue | MessageHandler.cpp:20-37 | moves the whole queue behind the waiting messages and releases, only if the flag says WROTE |
| Worker.MessageHandler.DispatchMessage | MessageHandler.cpp:63-154 | new store, result, reply, delivery and closing equal the specification function, and the reply goes to the descriptor of the message |
| Worker.MessageHandler.ProcessSet | MessageHandler.cpp:80-117 | the SET branch, in which the unchecked dereference finds its key |
| Worker.MessageHandler.ProcessGet | MessageHandler.cpp:119-151 | the GET branch, the reply being the built JSON text |
| Worker.MessageHandler.DispatchWindow | MessageHandler.cpp:45-56 | at most 256 dispatches in order, and the indices of those that returned true |
| Worker.MessageHandler.ProcessMessages | MessageHandler.cpp:16-61 | a whole pass as written, fault included |
| Worker.MessageHandler.ProcessMessagesCorrected | MessageHandler.cpp:16-61 | repaired variant: leaves exactly what was not done |
| Worker.CorrectedIsPass | MessageHandler.cpp:45-59 | for the buffers as a pass finds them, the handler's pass is the pass that the progress results speak about |
| Client.ClientHandler.constructor | ClientHandler.cpp:5-20 | 4096 segments of 8192 bytes, nothing pending |
| Client.ClientHandler.ReadOne | ClientHandler.cpp:89-114 | one descriptor: next segment filled, message put in front unless closing |
| Client.ClientHandler.ReadClientData | ClientHandler.cpp:83-120 | a batch of descriptors: newest-first messages and the memory after all reads |
| Client.BatchInOrder | ClientHandler.cpp:89-113 | these are one message for each read that was not empty, in epoll order, each with its own descriptor, its length and the buffer of its call; empty reads use up a buffer too |
| Client.RcvBytesIs | ClientHandler.cpp:93-111 | the 16-bit length is that of the data, and 65535 for a failed read |
| Client.ClientHandler.TransferMessages | ClientHandler.cpp:122-159 | Messages given up, queued in read order only if the flag says PROCESSED |
| Client.ClientHandler.ProcessClients | ClientHandler.cpp:47-79 | the queue receives the non-closing reads in epoll order, or loses them under WROTE |
| Pipeline.InvStep | MessageServer.cpp:165-243 | every step of the whole server keeps all its invariants |
| Pipeline.BufferIntegrity | ClientHandler.cpp:89-114 | in every run the bytes of each live message are those received, for the first 4095 calls forever, later until the next stored read |
| Pipeline.IntactAfterReadIff | MemoryManager.hpp:29-32 | a read keeps a message that is still in place iff that is from one of the first 4095 calls, or the read fails, or the bytes agree as far as both go |
| Pipeline.IntactIff | MemoryManager.hpp:29-32 | the exact condition over whole runs, in terms of the reads alone: a message is intact iff it is from one of the first 4095 calls or each of its bytes is the last one stored at its place |
| Pipeline.DispatchSeesReceived | MessageHandler.cpp:66-100 | the dispatch of such a message of at least 67 bytes sees the received type, ID and payload |
| Pipeline.DispatchSeesRequest | apache/Request.cpp:53-106 | in particular the fields of the request that the Apache module encoded |
| Pipeline.SessionLedger | MessageHandler.cpp:81-151 | the exactly-once ledger of every session in every run of the server |
| Pipeline.EveryMessageOnce | MessageHandler.cpp:45-59 | repaired variant: each message read is in exactly one place, from Messages to completed or discarded |
| Pipeline.SetsAppliedOnce | MessageHandler.cpp:81-117 | repaired variant: no message completes twice, and the SETs dispatched are those completed, in order |
| Pipeline.AsWrittenEndIff | Vector.hpp:29-35 | in every run of the server as written its erase agrees with the correct one, entry for entry, iff at most one message completed (entries are told apart by their read call, also where their fields are equal) |
| Pipeline.AsWrittenEndFaultIff | Vector.hpp:29-35 | in every run of the server as written, the end of a pass faults iff last done index plus number done exceeds the number waiting |
| Pipeline.SinglePassesAgree | MessageHandler.cpp:45-59 | a run as written whose passes complete at most one message each is a run of the repaired server (the converse is AsWritten.AsWrittenOnceIff) |
| AsWritten.AsWrittenOnceIff | MessageHandler.cpp:45-59 | every run of the server as written that has not faulted: each message taken is completed or waiting, once, iff every pass has completed at most one |
| AsWritten.BadPassLoses | Vector.hpp:29-35 | a pass that completes two or more without a fault drops a message that nobody has answered |
| AsWritten.LossReached | Vector.hpp:29-35 | from the start, for any two SETs and a GET in one batch: the GET is lost, the second SET is done and waiting, and the next round stores its payload again |
| AsWritten.FaultReached | Vector.hpp:29-35 | from the start, for any batch of 2 to 256 SETs: the erase runs off the vector |
| Traffic.RunReads | ClientHandler.cpp:89-113 | every run, either erase: buffers used, memory and messages read are those of the read() calls made, in order, empty and failing ones included, each message with the descriptor of its read |
| Traffic.ReadsAreHandlers | ClientHandler.cpp:83-120 | the pipeline's reads leave the memory, call count and messages of ReadClientData |
| Traffic.RepliesGoHome | MessageHandler.cpp:140-197 | every run, either erase: each reply, and each closing, is of the descriptor its message was read from; replies and completions are those of the dispatches, in order |
| Rounds.PassAlone | MessageHandler.cpp:39-59 | with either erase: the pass steps of the pipeline, undisturbed, are one pass over what the dispatches see, fault and completed messages included |
| Rounds.PassOnIsHandlers | MessageHandler.cpp:39-59 | as written, that pass is what ProcessMessages promises over the same messages |
| Rounds.PassOnIsPass | MessageHandler.cpp:39-59 | repaired variant: it is the pass that the progress results speak about |
| Rounds.RoundsAlone | MessageHandler.cpp:16-61 | with either erase: whole runs of undisturbed rounds, each draining the queue first, are such passes over what was waiting or queued |
| Settling.ServerProgress | MessageHandler.cpp:16-61 | repaired variant, every interleaving without arrivals (closing reads and empty transfers allowed) and all write results: with fewer than 256 GETs pending, as many returns of processMessages as messages are pending - one more if under way - leave only GETs on missing or empty mailboxes, for good |
| Settling.RunWithReturns | MessageServer.cpp:233-243 | such a run exists, with any number of returns |
| Rounds.StarvedForever | MessageHandler.cpp:45-59 | either erase, every run: 256 leading blocked GETs from the first 4095 calls stop every answer, store and removal, whatever arrives |
| Rounds.LateEntriesFollowNewest | MemoryManager.hpp:29-32 | from call 4096 on each arriving message of 67 bytes or more gives all such waiting entries its type and session ID: they complete iff it could, always if it is a SET |
| EndToEnd.SetsInReadOrder | MessageHandler.cpp:45-117 | repaired variant, runs of any length: the SETs applied are, as received, the first of those taken from the queue, in order, and the rest is still waiting |
| EndToEnd.OnlySetsMatter | MessageHandler.cpp:81-151 | what is accepted depends on the SETs alone, not on GETs in between, mailbox contents or failing writes |
| EndToEnd.RefinesSerialServer | MessageServer.cpp:165-243 | repaired variant, every interleaving: what a serial server accepts from the handed-over messages in read order is what was delivered, then the mailbox, then what will be accepted of the rest |
| EndToEnd.NothingLost | MessageServer.cpp:165-243 | repaired variant: with no transfer under WROTE and no SET left, delivered and stored is what a serial server accepts from all messages read |
| EndToEnd.EarlyRunsFaithful | ClientHandler.cpp:89-114 | told from the input alone: every run of at most 4095 read calls, each closing or with a type and, if a SET, a whole header, meets the hypothesis of these results |
| EndToEnd.ProperSeen | ClientHandler.cpp:89-114 | so does each dispatch of such a message that is still stored, by the exact condition of IntactIff |
| Settling.EventuallyNothingLost | MessageServer.cpp:165-243 | repaired variant: once nothing arrives, every such run ends with what a serial server accepts from all messages read |
| Settling.DeliveredInTheEnd | MessageServer.cpp:165-243 | repaired variant, from the start and told from the input: proper messages in at most 4095 read calls, no transfer under WROTE, then no arrivals: delivered and stored is what a serial server accepts |
| Wire.Request.ProcessMessage | apache/Request.cpp:49-133 | what is sent and the return code, nothing for a wrong type, ID length or empty SET |
| Wire.RequestRoundTrip | apache/Request.cpp:53-106 | a request is sent iff its ID has 64 bytes and it is a GET or a SET with a payload; its fields stand at 0, 3 and 67, and decode to themselves |
| Wire.EncodeDecode | MessageHandler.cpp:66-100 | type at 0, session ID at 3, payload at 67; slicing an encoded message returns the three |
| Wire.DecodeEncode | MessageHandler.cpp:66-100 | re-encoding the slices of a buffer of at least 67 bytes restores it |
| Wire.ViewOfWholeBuffer | MessageHandler.cpp:92-100 | a message whole in its buffer is sliced correctly from 67 bytes on; n bytes fewer make the payload length wrap to 65536 - n |
| Wire.PerfMessage.GenerateRandomPayload | evaluate/performance/Message.cpp:34-41 | appends PayloadLength characters of the generated range |
| Wire.PerfMessage.VectorToMessage | evaluate/performance/Message.cpp:52-60 | appends the vector's values as characters |
| Wire.RandIntRange | evaluate/performance/Helper.hpp:17-20 | a value from To to To+From-1, congruent to rand() modulo From |
| Wire.GeneratedCleanIff | evaluate/performance/Helper.hpp:27-30 | a generated payload is readable in the reply iff two of the 64 characters do not occur |
| SessionId.Session.IncrementID | evaluate/performance/Session.hpp:60-73 | adds one modulo 256^(index+1) to the bytes up to the index, all else and all left of the carry unchanged; fails outside the vector |
| SessionId.Session.GenerateID | evaluate/performance/Session.hpp:54-58 | counts the whole vector up by one modulo 256^n and prints it |
| SessionId.SessionVector2String | evaluate/performance/Session.hpp:26-47 | padding the stream output gives two digits per byte |
| SessionId.HexUnhex | evaluate/performance/Session.hpp:26-47 | a decoder recovers every byte vector |
| SessionId.UnhexHex | evaluate/performance/Session.hpp:26-47 | every decodable string is the print of what it decodes to |
| SessionId.HexCharacters | evaluate/performance/Session.hpp:26-47 | only 0-9 and a-f occur |
| SessionId.HexOrder | evaluate/performance/Session.hpp:26-47 | lexicographic order of equally long IDs is numeric order |
| SessionId.NthValueModular | evaluate/performance/Session.hpp:54-73 | k calls add k modulo 256^n |
| SessionId.IdsDistinct | evaluate/performance/Session.hpp:54-58 | any two of 256^n consecutive IDs differ |
| SessionId.IdsIncrease | evaluate/performance/Session.hpp:54-58 | IDs strictly increase until the counter wraps |
| Generator.Thread.constructor | evaluate/performance/Thread.cpp:5-17 | S(M+1) segments, in 32 bits |
| Generator.Thread.GenerateMessages | evaluate/performance/Thread.cpp:44-91 | for all lengths that stay inside the block: the S*M items lie where the plan says, each that no later copy meets holds what was copied of its message, and the shared counter has advanced by S |
| Generator.Thread.GenerateSession | evaluate/performance/Thread.cpp:52-87 | the inner loop extends them by the M messages of one session |
| Generator.NextItemHolds | evaluate/performance/Thread.cpp:72-85 | writing the next message keeps all earlier ones that it does not meet |
| Generator.TextAt | evaluate/performance/Thread.cpp:44-91 | message i carries the ID of session i div M |
| Generator.ItemReadsBack | evaluate/performance/Thread.cpp:139 | reading such an item i back gives its own type, ID and payload, cut to a 16-bit length |
| Generator.FittingReadsBack | evaluate/performance/Thread.cpp:5-8 | with messages of at most 8192 bytes that holds, uncut, for each of the last 2^19 items, which are all if there are no more |
| Generator.FittingStaysInBlock | evaluate/performance/Thread.cpp:5-8 | and such messages never leave the block |
| Generator.ItemsDisjointIff | evaluate/performance/Thread.cpp:5-8 | two items of a thread use disjoint segments inside the block iff their distance is no multiple of 2^19, and else the same one |
| Generator.GeneratedDecodes | evaluate/performance/Thread.cpp:54-67 | the server decodes message i of a thread of SETs to its 64-character session ID and a payload of the configured length, of random characters |
| Generator.Plan.PayloadLength | evaluate/performance/Thread.cpp:54-56 | that length is the minimum where minimum and maximum are equal, and else at least the minimum, below their sum, and at a distance from the minimum that is congruent to rand() modulo the maximum |
| SessionId.NthIdGoesOn | evaluate/performance/Session.hpp:54-58 | drawing on from the vector that a calls have left gives ID number a + k as its k-th |
| Generator.Perf.GeneratePayload | evaluate/performance/PerformanceSet.cpp:30-54 | one Session object for all threads: thread t holds the messages whose IDs are drawn after those of the t threads before it |
| Generator.WrittenAt | evaluate/performance/PerformanceSet.cpp:38-54 | that is, each single thread has written its own texts |
| Generator.ThreadTextAt | evaluate/performance/PerformanceSet.cpp:38-54 | message i of thread t carries the ID of draw number t*S + (i div M) + 1 |
| Generator.AllThreadIdsIncrease | evaluate/performance/PerformanceSet.cpp:30-50 | these IDs increase in drawing order for all 32-bit configurations, so no two sessions of any threads share one |

## Left out

- Sockets, epoll, poll, accept, signals, privileges and CPU affinity; closing a descriptor appears only as the `closed` result of a dispatch.
- Reading a buffer at the same moment as the other thread stores into it: a read and a dispatch are single steps of the pipeline.
- Slice: bytes behind the end of the memory image, which C++ leaves undefined for a SET shorter than 67 bytes in a last segment, are taken as zeros.
- What C++ does after an erase has run off the vector: the pipeline sets `fault` and keeps the list as it was.
- RefinesSerialServer: speaks about runs, of any length, in which each dispatch takes a SET as it was received and nothing else for a SET (`Faithful`), because otherwise the dispatch works on bytes of other messages; `EarlyRunsFaithful` and `ProperSeen` say from the reads when that is so.
- SetsInReadOrder: for such runs and the repaired erase; `AsWrittenOnceIff` says which runs as written are runs of the repaired server.
- NothingLost: for such runs; when a transfer meets WROTE, `Handoff.NoLossIff` says what is missing.
- EventuallyNothingLost: starts when the network thread has nothing in hand; what it still holds may yet meet a WROTE flag and be lost.
- StarvedForever: entries from call 4096 on are excluded, because `LateEntriesFollowNewest` frees them.
- Allocation failure, and `free` in the destructor of the block.
- MemoryManager for element types of more than one byte, whose address is scaled twice; only `char` is used.
- GenerateMessages: requires that no copy runs out of the block, a range of lengths that does not divide by zero and a non-empty counter, because `memcpy`, `rand() %` and `at()` give no result otherwise.
- Whether payload bytes above 127 form valid UTF-8: each counts as one unescaped character.
- Signs, fractions, exponents, literals and arrays in the JSON reader: no reply has them, and where a payload is not clean the reading of its own string already differs. A `\u` escape stands for one character here, not for its UTF-8 bytes.
- The `uint` widths of queue sizes, indices and message numbers: a transfer holds at most 128 messages.
- Times on mailbox items, sleeps, debug output, the configuration file, thread start and the file signals of the performance tool.
- The client connection classes in `lib/`, URI parsing, module registration and the texts returned to the browser in `apache/`.
- The experiments under `evaluate/aio`, `evaluate/search` and `evaluate/thread`.
