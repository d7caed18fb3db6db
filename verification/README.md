# remotecopy: a verified model of the file transfer

`rcopy` (the receiver) fetches a file from `server` (the sender) over UDP with a
selective-reject sliding window. This project models the transfer phase: the checksummed
frame, the fault injector, the ring of buffered frames, both endpoints, and the network
between them. It proves that whatever the network loses, repeats, reorders or damages, the
receiver has written exactly a prefix of the file; that it says "done" only when the file is
complete; and that completion stays possible as long as neither end has given up.

## Layers

| files | content |
|---|---|
| `Arithmetic.dfy`, `Bytes.dfy`, `Checksum.dfy`, `Pdu.dfy` | network byte order, the Internet checksum (section 1 of RFC 1071; the loop is the C version of section 4.1), the frame format |
| `FaultInjector.dfy` | what may happen to a frame between sendto and the wire |
| `Messages.dfy` | flags, replies, and what each endpoint makes of one poll |
| `Window.dfy`, `WindowArray.dfy` | the ring as a value (slot = number % size, collisions included) and as an array updated in place |
| `Chunking.dfy`, `Session.dfy` | how read() cuts the file; what both ends agree on |
| `SenderModel.dfy`, `ReceiverModel.dfy`, `Runs.dfy` | each endpoint as a state machine, one step per loop trip or poll |
| `Server.dfy`, `Rcopy.dfy` | each endpoint as the program has it, with its loops, proved to follow its state machine step by step |
| `SenderFacts.dfy`, `ReceiverFacts.dfy`, `ReceiverRefinement.dfy` | what each endpoint keeps true on its own |
| `Transfer.dfy`, `TransferInvariant.dfy` | both endpoints and the network; the inductive invariant |
| `TransferTheorems.dfy`, `TransferProgress.dfy`, `TransferCompletion.dfy` | what holds in every state of every run; bounded progress; exactly when completion is possible |
| `SenderTraffic.dfy`, `SenderPatience.dfy`, `ReceiverTraffic.dfy` | what each end sends over a whole run, frame by frame and reply by reply; when the sender gives up |
| `ParticularRuns.dfy` | runs that show where the guarantees end |
| `EndToEnd.dfy` | each program, reading what a run of the system lets it read, does what the run says |

A run of the whole system is a schedule: any list of labels, each naming what happens next.
Labels that are impossible in a state do nothing, so "for every schedule" is "for every run".
A data frame once sent may be delivered later at any time, any number of times or never; the
reply path keeps order and may lose anything; either path may complement one byte. The bytes
on the wire are those of `Pdu.Encode`, and what arrives goes through `Pdu.Decode`.

The state machines are total: they say what the ring does for every number, also for numbers
on which slots collide. That collisions never happen, and that the sender never enters one of
its perror branches (`Sender.clean`), are theorems, not assumptions. Both program classes end
in a contract that names the state machine's unique final state, and `EndToEnd` proves that
handing a program what its polls and reads return in any run of the system makes it stop as the
endpoint of a continuation of that run, so the theorems about runs are theorems about what
`ProcessFile` writes and `ProcessClient` sends.

## Assumptions

- The window size is at least 1 and the buffer size is between 1 and 1400; `rcopy` checks only
  the buffer size (108 to 1400), at project_3/rcopy.c:419.
- The number of chunks plus the window size is below 2^31, so the int32 counters and their
  comparisons with uint32 numbers do not wrap. Counters are unbounded naturals in the model.
- Once the transfer has started, the data path carries only frames of this sender.
- Replies are not reordered. get_PDU's result is used unchecked in resend_data_packet:
  `TransferTheorems.OvertakenSrej` says what an SREJ that an RR has overtaken makes the sender
  send, `TransferTheorems.ResendReadsOwnSlot` for exactly which numbers the right slot is read,
  and `ParticularRuns.SrejAndRrInFlight` gives runs in which such a pair is in flight.
- The host is little-endian, so the checksum field and the words of the sum are stored low
  byte first.
- Writes to the output file succeed, and read() returns a full buffer unless the file ends;
  a failing read() may happen at any read.

## Findings

- project_3/server.c:317-321 (window_closed) and project_3/server.c:375-379 (end_of_file) resend
  the lowest frame and then count the silent poll, so after the tenth silent poll in a row a
  frame goes out whose answer is never read. `TransferCompletion.PatienceIsExact` and
  `SenderPatience.PollsUntilTen` say that this is so exactly at the tenth, and
  `ParticularRuns.AnsweredInVain` gives, for every file, window and buffer size, a run in which
  an answer after the ninth is obeyed and one after the tenth never read.
- The comment at project_3/rcopy.c:336, that EOF cannot arrive at the expected number while
  buffering, is right: `TransferTheorems.BufferingHasHole`.
- The header comment at project_3/libcpe464_2_21b/libcpe464/checksum.c:37, that odd lengths
  read past the end, does not describe the code: the odd byte is read by itself.
  The model follows the code.
- A frame at or beyond the window's upper edge would be filed, and later written, under another
  number (`ReceiverFacts.BoundIsExact`, `ReceiverFacts.FarFrameMisfiled`);
  `TransferTheorems.WindowsAligned` is why none arrives.
- in_order ends the transfer on an empty packet under the expected number while buffering and
  flush write nothing and go on (project_3/rcopy.c:194-201, 322-328, 371-376); the sender never
  sends one (`Chunking.ChunkSizes`).
- A checksum field of 0xffff is accepted where createPDU writes 0x0000
  (`Pdu.AcceptedBuffers`); data packet 0xef00 with the one byte 0xff is such a frame
  (`Pdu.ZeroChecksumFrame`).
- A second complemented byte in one frame can hide the first
  (`FaultInjector.SecondComplementHides` says exactly when): with two bytes of its number
  complemented, packet 255 is accepted as packet 0xff0000 (`FaultInjector.TwoFlipsRenumber`). So
  the injector's limit of one flip per frame is essential.

## Model

| member | source | states |
|---|---|---|
| Bytes.BigEndianRoundTrip | project_3/pdu.c:5-8 | a number written with htonl and memcpy is read back by memcpy and ntohl |
| Bytes.BigEndianValue | project_3/pdu.c:5-8 | htonl and memcpy put the most significant byte first |
| Checksum.WordSumBound | project_3/libcpe464_2_21b/libcpe464/checksum.c:65-79 | the 32-bit signed accumulator cannot overflow for lengths up to 65536 |
| Checksum.FoldIsOnesComplementSum | project_3/libcpe464_2_21b/libcpe464/checksum.c:81-83 | the two-step fold equals folding until no carry is left, keeps the residue mod 65535, and is zero only for a zero sum |
| Checksum.CksumZero | project_3/libcpe464_2_21b/libcpe464/checksum.c:58-86 | the checksum of a buffer is zero exactly when its word sum is a positive multiple of 65535 |
| Checksum.WordSumZero | project_3/libcpe464_2_21b/libcpe464/checksum.c:70-79 | the word sum is zero exactly when every byte is |
| Checksum.InCksum | project_3/libcpe464_2_21b/libcpe464/checksum.c:58-86 | the loop over words and the odd tail compute the checksum of the buffer's first len bytes without overflow |
| Checksum.ComplementShows | project_3/libcpe464_2_21b/libcpe464/MsgEvents/errorFlipBits.cpp:21-24 | complementing one byte, at an even or odd position, always takes a sum that is a multiple of 65535 to one that is not |
| Pdu.RoundTrip | project_3/pdu.c:4-101 | every frame written by createPDU is accepted by processPDU with the same number, flag and payload, for odd and even lengths |
| Pdu.Layout | project_3/pdu.c:4-19 | number, flag and payload lie at bytes 0, 6 and 7 of the frame |
| Pdu.FrameOnTheWire | project_3/pdu.c:4-19 | packet 1 with flag 16 and the letter a, byte by byte, checksum included |
| Pdu.ComplementRejected | project_3/pdu.c:93-98 | an accepted buffer with any one byte complemented is rejected, wherever the byte lies |
| Pdu.AcceptedBuffers | project_3/pdu.c:70-101 | the accepted buffers are exactly those createPDU writes, and those with 0xffff in place of a zero checksum |
| Pdu.TwoEncodings | project_3/pdu.c:93-98 | every frame whose checksum is zero is accepted in two different encodings |
| Pdu.ZeroChecksumFrame | project_3/pdu.c:14-16 | a data frame with checksum zero |
| Pdu.CreatePdu | project_3/pdu.c:4-19 | the caller's buffer starts with the encoded frame afterwards and is otherwise unchanged |
| Pdu.ProcessPdu | project_3/pdu.c:70-101 | -1 for truncated or corrupt buffers and 0 with the decoded fields for all others |
| FaultInjector.PacketManager.ProcessEvents | project_3/libcpe464_2_21b/libcpe464/PacketManager.cpp:132-189 | 2 exactly when a standing event or the chosen random event drops the message, otherwise 1 exactly when the chosen event is a flip, and then the byte that the third draw picks is complemented; with the default events: nothing when the first draw exceeds the error rate, else a drop when the second is below 0.5 and a flip when not |
| FaultInjector.PacketManager.SendtoErr | project_3/libcpe464_2_21b/libcpe464/PacketManager.cpp:346-408 | the wire gets nothing, the frame, or the frame with the drawn byte complemented, decided by the draws as in processEvents; the caller's buffer is untouched |
| FaultInjector.PacketManager.Run | project_3/libcpe464_2_21b/libcpe464/MsgEvents/errorFlipBits.cpp:9-27 | a flip complements exactly the byte whose index is the integer part of length times draw; drops and information leave the buffer alone |
| FaultInjector.ScaledDraw | project_3/libcpe464_2_21b/libcpe464/PacketManager.cpp:164 | the index picked out of n by a draw r is the i with i <= n * r < i + 1 |
| FaultInjector.FaultIsLoss | project_3/libcpe464_2_21b/libcpe464/PacketManager.cpp:381-407 | what comes off the wire decodes to the frame that was sent or to nothing, and to the frame exactly when it was not damaged |
| FaultInjector.SecondComplementHides | project_3/libcpe464_2_21b/libcpe464/PacketManager.cpp:159-178 | exactly when a second complemented byte would get a damaged frame accepted |
| FaultInjector.TwoFlipsRenumber | project_3/libcpe464_2_21b/libcpe464/PacketManager.cpp:159-178 | packet 255 with two bytes of its number complemented is accepted as packet 0xff0000, whatever its flag and payload |
| Messages.ReplyOnWire | project_3/rcopy.c:259-282 | an RR, SREJ or EOF ACK reaches the sender with its meaning intact or is recognised as garbled |
| Messages.ReplyBytes | project_3/rcopy.c:259-282 | a reply's bytes: the receiver's packet number, flag 5, 6 or 32, and for RR and SREJ the number in network byte order |
| Messages.AckByFlag | project_3/server.c:195-211 | what an undamaged datagram means to the sender is decided by its flag byte alone |
| Messages.LongDatagramsCut | project_3/server.c:178-182 | a datagram longer than the receive buffer counts as its first bytes |
| Window.LookupRefinesMap | project_3/window.c:67-83 | on any window_size consecutive numbers, get_PDU and checkPDUValid are lookup and membership in a map |
| Window.AddRefinesMap | project_3/window.c:86-108 | on such an interval add_PDU is insertion of an absent key |
| Window.RemoveRefinesMap | project_3/window.c:111-119 | on such an interval remove_PDU is deletion |
| Window.OneAlias | project_3/window.c:67-83 | of any window_size consecutive numbers exactly one shares a given number's slot |
| Window.SlideRefinesMap | project_3/window.c:51-60 | moving the interval up keeps the map exactly when its lowest number is absent; otherwise the frame turns up under a number it was not stored for |
| WindowArrays.WindowArray.MakeWindow | project_3/window.c:3-29 | a new window is an empty ring |
| WindowArrays.WindowArray.GetPdu | project_3/window.c:73-83 | the stored bytes are copied and parse to the stored frame, or -1 and an error for an empty slot; the ring is unchanged |
| WindowArrays.WindowArray.AddPdu | project_3/window.c:86-108 | the array update is the ring's insertion; an occupied slot is kept and reported |
| WindowArrays.WindowArray.RemovePdu | project_3/window.c:111-119 | the array update is the ring's deletion; an empty slot is reported |
| Chunking.FlattenChunks | project_3/server.c:158-171 | the payloads read from the file are the file, in order, nothing lost or repeated |
| Chunking.ChunkSizes | project_3/server.c:162-171 | no payload is empty and none is longer than the buffer |
| Chunking.ChunksAreStretches | project_3/server.c:158-171 | payload k is the k-th stretch of bufferSize bytes of the file, as far as it goes, and there are (length + bufferSize - 1) / bufferSize of them |
| Chunking.OnlyLastShort | project_3/server.c:162-171 | every payload but the last fills the buffer and the last holds what is left |
| SenderModel.StepPrecedes | project_3/server.c:77-101 | every step of a live sender goes down in the order (polls left, file left, state, silent polls left) |
| SenderModel.SenderTerminates | project_3/server.c:77-101 | for a finite file and finitely many arriving packets the sender reaches DONE, in one determined state |
| SenderModel.FailedReadStops | project_3/server.c:162-165 | a failing read() ends the sender at once, with nothing sent and nothing received |
| SenderFacts.SlideSlots | project_3/server.c:216-223 | sliding to an RR finds a frame at every removal, sets lower to the RR number if that is higher, and disturbs no other slot |
| SenderFacts.ResendGenuine | project_3/server.c:226-241 | a resend carries the number and payload of the first transmission; only a data packet's flag differs |
| SenderFacts.SrejResent | project_3/server.c:201-206 | in every polling state an SREJ for a stored number is answered with exactly that frame, flagged as resent, restarts the count of silent polls and changes nothing else |
| SenderFacts.SendDataKeeps | project_3/server.c:244-257 | the next chunk goes out under the current number and into an empty slot, and the sender's invariant is kept |
| SenderFacts.SendEofKeeps | project_3/server.c:260-273 | EOF goes out under the number after the last chunk and is stored in an empty slot |
| SenderFacts.ActKeeps | project_3/server.c:152-174 | every step without a poll keeps the sender's invariant and sends only frames of the transfer |
| SenderFacts.PollKeeps | project_3/server.c:278-382 | every reply, garbled packet or timeout keeps the sender's invariant; lower moves exactly to an RR's number |
| Server.Server.CleaningUpWithRr | project_3/server.c:216-223 | the loop leaves the ring slid to the RR number, and reports an error exactly when a removal finds an empty slot |
| Server.Server.ResendDataPacket | project_3/server.c:226-241 | exactly the rebuilt frame is sent, nothing else changes; an empty slot is an error and sends nothing |
| Server.Server.SendDataPacket | project_3/server.c:244-257 | the frame is sent and stored and current moves up |
| Server.Server.SendEof | project_3/server.c:260-273 | one step of the state machine from the entry of end_of_file to its loop |
| Server.Server.WindowOpen | project_3/server.c:152-214 | the loop, with its exits on a failing read, on the end of the file, on garbage and on an unexpected reply, follows the state machine to the state it returns |
| Server.Server.WindowClosed | project_3/server.c:275-327 | the loop, with its count of silent polls, follows the state machine to the state it returns |
| Server.Server.EndOfFile | project_3/server.c:330-383 | the loop follows the state machine and always ends in DONE |
| Server.Server.ProcessClient | project_3/server.c:77-101 | the sender stops whatever arrives, with exactly the datagrams, ring and file position in which the state machine stops |
| ReceiverModel.FlushStepEmpties | project_3/rcopy.c:353-387 | every trip round flush that is not the last empties a slot |
| ReceiverModel.ReceiverTerminates | project_3/rcopy.c:26-52 | for finitely many arriving packets the receiver reaches DONE, in one determined state |
| ReceiverFacts.ShapeKept | project_3/rcopy.c:163-390 | every step keeps the ring on one lap; in BUFFERING current is missing, highest is present and above current |
| ReceiverFacts.FlushWritesRun | project_3/rcopy.c:351-390 | flush writes, removes and acknowledges exactly the maximal contiguous run; it returns IN_ORDER, BUFFERING or DONE exactly when the ring is used up, a hole is left or the run ends in EOF |
| ReceiverFacts.BoundIsExact | project_3/window.c:86-108 | a frame goes into its own number's slot of this lap, and the ring stays on one lap, exactly when its number is below the window's upper edge |
| ReceiverFacts.FarFrameMisfiled | project_3/rcopy.c:353-376 | a frame any number of laps beyond the window that shares the next slot is written by flush under the next number |
| ReceiverRefinement.ReceiverRefinesMap | project_3/rcopy.c:163-390 | for any arrivals below the window edge, whatever their flags and payloads, the receiver stops when the map-based one does, current is the number that one waits for (the least that is missing, or EOF's), the output is what was accepted below it, and until it stops the ring holds exactly what was accepted above it |
| ReceiverRefinement.FlushAllMatches | project_3/rcopy.c:351-390 | flush ends at the least number not accepted, or for good at an EOF that was buffered out of order |
| ReceiverRefinement.LastMatches | project_3/rcopy.c:318-337 | an EOF under the expected number ends IN_ORDER and is ignored in BUFFERING; an empty frame there ends IN_ORDER |
| ReceiverRefinement.AskedKept | project_3/rcopy.c:223-316 | every step keeps: no number is asked for twice, and every hole below highest has been asked for once |
| Rcopy.Rcopy.SendSrejs | project_3/rcopy.c:224-227 | one SREJ frame for each number of the range, in order |
| Rcopy.Rcopy.InOrder | project_3/rcopy.c:163-241 | one step of the state machine: write, buffer, re-acknowledge, acknowledge EOF or give up |
| Rcopy.Rcopy.Buffering | project_3/rcopy.c:285-348 | the loop follows the state machine to FLUSH or DONE |
| Rcopy.Rcopy.FlushTrip | project_3/rcopy.c:354-386 | one trip round flush is one step of the state machine |
| Rcopy.Rcopy.FlushRing | project_3/rcopy.c:351-390 | the loop leaves output, ring, state and replies as the whole of flush does (see FlushWritesRun for what that is) |
| ReceiverModel.FlushAllReached | project_3/rcopy.c:353-387 | the whole of flush is made of steps of the state machine |
| Rcopy.Rcopy.ProcessFile | project_3/rcopy.c:26-52 | the receiver stops whatever arrives, with exactly the output and datagrams with which the state machine stops |
| TransferInvariant.ApplyKeeps | project_3/server.c:152-383 | every possible happening keeps the invariant of the whole system |
| TransferInvariant.AfterInv | project_3/rcopy.c:26-52 | the invariant holds in every state of every run |
| TransferInvariant.HeardIsHearable | project_3/server.c:195-206 | what the sender hears is what the receiver said or garbage, and an RR or SREJ names a number of its window |
| TransferTheorems.PrefixDelivery | project_3/rcopy.c:189-235 | in every state of every run the output is the concatenation of chunks 0..current-1, which is the first current * bufferSize bytes of the file, or all of it |
| TransferTheorems.FramesAreStretches | project_3/server.c:158-174 | in every run packet k carries bytes k * bufferSize up to (k + 1) * bufferSize of the file, as far as it goes, and the packet numbered with the count of such stretches is EOF, with one byte |
| TransferTheorems.WindowsAligned | project_3/server.c:158-223 | lower <= receiver.current <= sender.current <= lower + W; every RR in flight is at most receiver.current and every frame in flight below receiver.current + W |
| TransferTheorems.NoAliasing | project_3/rcopy.c:306-316 | whatever the receiver's ring holds for a number is a frame of the transfer with that number |
| TransferTheorems.SenderWindowExact | project_3/server.c:216-273 | the filled slots are exactly lower..current-1, and current once EOF is stored; no perror branch is ever taken and a timeout always finds a frame |
| TransferTheorems.SrejNamesStoredFrame | project_3/server.c:201-206 | every SREJ the sender hears names a stored frame in [lower, current) |
| TransferTheorems.ResendByAlias | project_3/server.c:226-241 | for every number: what goes out is the frame of the one window number that shares its slot, EOF if that is where it is stored, and nothing valid if the slot is empty |
| TransferTheorems.ResendReadsOwnSlot | project_3/server.c:226-241 | the slot read holds the frame stored for the number exactly when the number is in [lower, current), or is current once EOF is stored |
| TransferTheorems.OvertakenSrej | project_3/server.c:201-206 | an SREJ overtaken by any number of laps, in every polling state, makes the sender send another chunk's payload or EOF under the number, or read an empty slot; it is a frame of the transfer only if the two chunks are equal |
| TransferTheorems.CompletionIsHonest | project_3/rcopy.c:211-221 | an EOF ACK is sent only when the output is the whole file |
| TransferTheorems.StoppedByAck | project_3/server.c:370-374 | the only reply that stops the sender is an EOF ACK, and then the output is the whole file |
| TransferTheorems.ReceiverStopsAtEof | project_3/rcopy.c:211-239 | apart from silence only EOF stops the receiver; the output is then the whole file and an EOF ACK is the last reply |
| TransferTheorems.RepliesNumbered | project_3/rcopy.c:259-282 | in every run the packet numbers of the replies the receiver has sent are 1, 2, 3 and so on, without gap or repetition |
| TransferTheorems.SrejDiscipline | project_3/rcopy.c:223-316 | over every run each number is asked for at most once, and in BUFFERING every hole below highest exactly once |
| TransferTheorems.BufferingHasHole | project_3/rcopy.c:318-337 | in BUFFERING no frame in flight is an EOF with the expected number |
| TransferTheorems.RetransmissionsAgree | project_3/server.c:226-241 | all frames ever sent under one number have one payload, EOF keeps its flag and data frames differ in the flag only |
| TransferTheorems.DamagedFrameIsLost | project_3/rcopy.c:184-188 | delivering a damaged frame changes nothing |
| TransferTheorems.DamagedReplyIsLost | project_3/server.c:350-353 | a damaged reply is a lost one, except that the count of silent polls starts again |
| TransferProgress.ResendMakesProgress | project_3/server.c:317-321 | once a timeout's copy has been delivered and its reply heard, strictly less is missing or the sender has heard the EOF ACK and the transfer is complete, whatever else happens in between |
| SenderTraffic.PollSends | project_3/server.c:177-212 | a poll makes the sender send one frame for an SREJ, one copy of the lowest frame for silence while it waits, and nothing otherwise; in particular nothing when the poll after a chunk is silent |
| SenderTraffic.ActSends | project_3/server.c:158-174 | without a poll the sender sends the next chunk, or EOF at the entry of end_of_file, or nothing |
| SenderTraffic.OtherPacketsStop | project_3/server.c:208-211 | in all three loops a packet stops the sender, without a word, exactly when its flag is neither 5 nor 6 |
| SenderTraffic.TrafficCounted | project_3/server.c:152-383 | over every run: each chunk read goes out exactly once with flag 16, in file order; one frame with flag 17 per SREJ heard; one copy per silent poll while waiting; EOF once more; and nothing else |
| SenderTraffic.OnePollPerChunk | project_3/server.c:173-177 | over every run window_open polls exactly once for each chunk |
| SenderPatience.PollsUntilTen | project_3/server.c:278-326 | in every run, in window_closed and end_of_file alike, the sender polls on exactly while fewer than ten polls in a row have been silent, and then stops |
| SenderPatience.WhyTheSenderStops | project_3/server.c:152-383 | in every run the sender stops only because read() failed, because it heard the EOF ACK, or after ten silent polls in a row |
| SenderPatience.SilentPollsCounted | project_3/server.c:317-321 | from where either loop starts, n silent polls send a copy of the lowest frame for each of the first ten, and the sender still polls exactly when n < 10 |
| ReceiverTraffic.OldFrameAnswered | project_3/rcopy.c:233-235 | an old frame, in either polling state, is answered by exactly one RR for current and changes nothing else |
| ReceiverTraffic.ExpectedFrameAnswered | project_3/rcopy.c:190-221 | the expected frame is answered by one RR for the next number, or one EOF ACK, or nothing |
| ReceiverTraffic.LaterFrameAnswered | project_3/rcopy.c:306-316 | a later frame is answered by one SREJ for each number not asked for before, in ascending order |
| ReceiverTraffic.NothingAnswered | project_3/rcopy.c:184-188 | silence and garbage are never answered; silence stops the receiver |
| ReceiverTraffic.RepliesInStep | project_3/rcopy.c:163-390 | over every run RR numbers never go down or beyond current, every number up to current has been acknowledged, and SREJ numbers go up |
| ReceiverTraffic.RrSaysCurrent | project_3/rcopy.c:202-208 | in every run every RR names the receiver's current number at that moment |
| ReceiverTraffic.HighestRrHeard | project_3/server.c:216-223 | a sender that hears the highest RR sent so far has its lower edge exactly at the receiver's current number |
| TransferCompletion.AfterResent | project_3/server.c:317-321 | in every run, a sender that has polled in vain has a copy of its lowest frame on the data path |
| TransferCompletion.CompletionReachable | project_3/server.c:335-382 | from every reachable state in which neither end has given up there is a continuation with nothing but undamaged timeout resends and replies in which the sender hears the EOF ACK and the whole file is written |
| TransferCompletion.CompletionExact | project_3/server.c:317-326 | the sender can still be told that the file has arrived if and only if neither end has given up |
| TransferCompletion.TransferCanComplete | project_3/server.c:335-382 | every file, with every window and buffer size, has such a run from the start |
| TransferCompletion.PatienceIsExact | project_3/server.c:317-326 | after a silent poll, in window_closed and end_of_file alike, the sender polls again exactly when it was not the tenth in a row |
| TransferCompletion.TenthResendIsUnheard | project_3/server.c:375-382 | after the tenth the sender has resent but never polls again and is never told, whatever happens |
| ParticularRuns.AnsweredInVain | project_3/server.c:275-326 | every transfer has a run with nine silent polls in a row after which an answer is heard and obeyed, while after the tenth the copy that was sent arrives and is answered in vain |
| ParticularRuns.SrejAndRrInFlight | project_3/rcopy.c:223-231 | wherever two chunks fit the window there is a run with an SREJ for packet 0 and an RR for packet 1 in flight |
| EndToEnd.ReceiverProjects | project_3/rcopy.c:26-52 | the receiver of every run is reached by its program on the datagrams and timeouts the run lets it read |
| EndToEnd.ReceiverProgramInSystem | project_3/rcopy.c:26-52 | the receiver's program stops as the receiver of a continuation of the run, with the same output and datagrams |
| EndToEnd.RunRcopy | project_3/rcopy.c:20-52 | on the network of any run the program's output is a prefix of the file, and the whole file if it has sent an EOF ACK |
| EndToEnd.SenderProjects | project_3/server.c:65-101 | the sender of every run is reached by its program on the datagrams, timeouts and read results of the run |
| EndToEnd.SenderProgramInSystem | project_3/server.c:65-101 | the sender's program stops as the sender of a continuation of the run, having sent what the data path of that run carries |
| EndToEnd.RunServer | project_3/server.c:65-101 | on the network of any run the program never calls perror and sends only frames of the transfer |

## Left out

- The filename handshake and file opening (project_3/rcopy.c:67-160, project_3/server.c:105-149): the model starts with both ends agreed on window and buffer size; a data packet that arrives during the handshake counts as lost.
- Sockets, poll, fork, addresses: a poll and the recvfrom after it are one element of a finite supply of results, after which every poll times out.
- Durations: a timeout is an event that may happen at any poll, also when something is in flight.
- clean_up and the freeing of memory: the branch is inside a loop that ends on DONE and never runs.
- Failing writes to the output file.
- 32-bit wrap-around of sequence numbers and counters.
- An RR or SREJ with fewer than 4 payload bytes: the program reads what the receive buffer held before; the model reads zeros. The receiver never sends one.
- Uninitialised bytes: the payload byte of EOF and EOF ACK is a constant of the model that may have any value.
- Event lists with a bit flip among the standing events: only random events are ever registered as flips (project_3/libcpe464_2_21b/libcpe464/SettingsManager.cpp:223-243).
- Random numbers and error rates beyond their range: draws are arbitrary reals in [0, 1).
- send_Err, recv_Mod and the message printing of the injector, argument checks, debug output and the TCP programs: they add only easy claims.
- Server.Server.ResendDataPacket: where get_PDU returns -1 the program goes on with an uninitialised buffer; the model sends nothing and records the error, which no reachable state does.
- Rcopy.Rcopy.InOrder: the stored copy of an arrived frame is kept as a byte sequence rather than a fixed buffer of 1407 bytes; that it fits is part of the contract of add_PDU.
