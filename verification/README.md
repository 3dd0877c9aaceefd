# gday: encrypted stream, room server, room codes and file transfer

A Dafny model of the hard parts of gday, and proofs about it. gday lets two people find each
other through a small server, agree on a key and exchange files and chat over an encrypted
stream.

- `ByteStrings`, `HelperBuffer`, `Framing`, `Transport`, `Writer`, `Reader`, `Session`: the
  encrypted stream. The writer and the reader are classes whose polls update their buffers
  in place. The cipher is a parameter: any pair of functions that adds and strips a 16-byte
  tag (section 2.8 of RFC 8439) and opens what it sealed under the same counter, and that
  stops at a counter limit. The inner I/O is a pipe that may report Pending, fail or move
  any number of bytes at every poll. Ghost logs record what was accepted, sealed, sent,
  taken, opened and delivered.
- `Rooms`, `GlobalState`, `ConnectionHandlers`: the room server. `Rooms` has one operation
  per lock section; `GlobalState.State` is the object behind the lock, proved equal to those
  operations; `ConnectionHandlers` runs any number of handlers and timers over them in any
  interleaving.
- `AcceptGate`: the accept loop and the five-second timers over the map of blocked
  addresses, one step per lock section, with a clock.
- `Base32`: room codes. `FileTransfer`, `FileDialog`: what is offered, chosen, sent and saved.
  `EndToEnd`: chosen files through the encrypted link.

Main results:

1. Conservation and counter agreement of the encrypted stream in every interleaving of polls
   (`Session.Link.Conservation`, kept by `Session.Link.Run`), and a liveness partner: from a
   pipe that moves bytes when it can, what was flushed can be read to the last byte
   (`Session.Link.NothingWithheld`, `Session.Link.ReadExact`, `Session.Link.Exchange`).
2. Reading in pieces refines parsing the whole stream at once, for any peer; compaction is
   in range, no frame fails to open and no end is reported early on any stream this writer
   makes.
3. In no interleaving does the room server, as written, ever share contacts, although its
   documentation says that it does; a repaired "done" section gives both sides the mirrored
   pair, once each, and forgets nobody, so that the whole conversation goes as documented
   (`RepairedConversation`).
4. Room codes round-trip in any letter case and with blanks around; decoding is exact.
5. Both ends of a file transfer stay aligned exactly when the files keep their sizes.

Places where the code does not do what its comments, messages or names say. The model follows
the code, and the exact condition is proved:

- `set_client_done` takes the caller's sender out before it looks at the peer's, so the handler
  of every client that is done ends at once with a "room timed out" error. The error stays on
  the server: the client is told nothing (`EveryDoneTimesOut`, `DoneEndsInTimeout`). Where the
  models take a `repaired` flag, `true` is the repair and `false` the code. With the repair a
  reused room number can meet the timer of an exchanged room; a room's own timer is the only
  one exactly when each such timer has fired on no room (`RepairedExpiryIsOwnExactly`).
- Rooms are entered by number: a handler that outlives its room writes into the next room of
  that number. A write reaches the room that was entered exactly when no timer of that number
  has fired since (`WriteReachesRoomEnteredExactly`, `StaleWriteIsReachable`).
- The accept gate spaces services by five seconds as long as no connection arrives between a
  timer's removal and its re-insertion; that is exactly when spacing can fail, and it is
  reachable (`SpacedUnlessInterrupted`, `InterruptsExactly`, `InterruptionIsReachable`).
- `read_if_necessary` goes round for ever when the stream has ended and buffered bytes are
  fewer than wanted; the model returns `Spins` there. Over any pipe and for any length, this
  happens only when something other than empty frames is left, the frames that fit behind the
  cleartext hold less than wanted, and less than 16384 bytes are behind those frames. On a
  stream that is at hand to its end and fits in the ciphertext buffer, the first two conditions
  are also enough (`ReadIfNecessary`, `PollRead`); for `poll_fill_buf`, the first alone
  (`PollFillBuf`). So a reader on a closed link that asks for more than is left does not return
  near the end, and always returns with 24576 bytes or more to go (`ReadAfterClose`,
  `FillAfterClose`). From a fresh link, any message of one frame written, flushed and closed
  leads there (`ReadOfOneMessage`).
- A read of zero bytes reaches the closing `debug_assert` with an empty buffer exactly when no
  cleartext is buffered or in a complete buffered frame (`PollRead`), as on every new reader
  (`ZeroReadOfNewReader`).
- `32_u32.pow(i)` overflows at the eighth character of a code word (`EighthDigit`). The empty
  list of numbers is read back as one zero (`RoundTripExactly`).
- Option 2 of the receive dialog selects the first k offered files, k being how many are new
  (`OptionTwoExactly`).
- Paths that do not overlap can still give two files the same public path
  (`PublicPathsExactly`, `ClashIsPossible`).
- No answer at all confirms a send, although the prompt asks for y or n (`ConfirmSend`).

## Model

| member | source | states |
|---|---|---|
| ByteStrings.BigEndianRoundTrip | gday_encryption/src/reader.rs:18 | the 4-byte header read back is the length written, for every 32-bit length |
| ByteStrings.BigEndianOrder | gday_encryption/src/writer.rs:64 | most significant byte first: lengths are ordered as the words of their four bytes are |
| HelperBuffer.SplitThenUnsplit | gday_encryption/src/writer.rs:58-67 | splitting a buffer inside its data, rewriting the second half within its capacity and joining gives the same block with the same capacity |
| HelperBuffer.HelperBuf.AdvanceCursor | gday_encryption/src/lib.rs:28-36 | drops a prefix of the queue; the cursor never rests at the end of a non-empty buffer |
| HelperBuffer.HelperBuf.Append | gday_encryption/src/reader.rs:53-59 | appends to the queue within the capacity |
| HelperBuffer.HelperBuf.Wrap | gday_encryption/src/lib.rs:46-52 | compaction is the identity on the unread bytes and frees what was before the cursor |
| Framing.Peek | gday_encryption/src/reader.rs:16-23 | a complete first frame lies inside the buffer, behind its header |
| Framing.PeekExtends | gday_encryption/src/reader.rs:16-23 | bytes that arrive later do not change a frame that is already complete |
| Framing.PeekFrame | gday_encryption/src/writer.rs:57-71 | what the writer frames is what the reader peeks, whatever follows |
| Framing.PaddingIsLawful | gday_encryption/src/lib.rs:13 | the laws asked of the cipher can be met |
| Framing.StreamSnoc | gday_encryption/src/writer.rs:57-71 | sealing one more chunk appends its frame under the next counter |
| Framing.DecodesSnoc | gday_encryption/src/reader.rs:67-85 | opening one more frame extends the decoded prefix by that frame |
| Framing.DecodesThenParse | gday_encryption/src/reader.rs:65-85 | one-shot parsing of a decoded head and any tail is the head's plaintexts and the parse of the tail |
| Framing.DecodedPrefixOfStream | gday_encryption/src/reader.rs:65-85 | whatever is decoded from the front of a writer's stream is a prefix of what was sealed under the same counters, and the rest is exactly the remaining frames |
| Framing.StreamIsClean | gday_encryption/src/writer.rs:85-94 | any prefix of a writer's stream has only frames of at most 8192 bytes, all of which open |
| Framing.CleanStep | gday_encryption/src/reader.rs:67-84 | on clean input the next complete frame opens under the next counter and leaves clean input |
| Framing.IncompleteIsShort | gday_encryption/src/reader.rs:87-89 | an incomplete frame of a clean stream is at most 8191 bytes long |
| Transport.Pipe.PollWrite | gday_encryption/src/writer.rs:48 | the inner writer takes a non-empty prefix, or nothing; a refused poll is counted |
| Transport.Pipe.PollRead | gday_encryption/src/reader.rs:56 | the inner reader gives the next bytes, nothing, or the end of the stream; a refused poll is counted |
| Writer.LedgerSeal | gday_encryption/src/writer.rs:57-71 | sealing turns unsealed plaintext into one unsent frame of 20 to 8192 bytes and keeps the books |
| Writer.LedgerDrain | gday_encryption/src/writer.rs:47-50 | draining keeps the books, and the unsent bytes stay a suffix of one frame |
| Writer.EncryptedWriter.constructor | gday_encryption/src/writer.rs:25-37 | a new writer is empty and marked as flushing |
| Writer.EncryptedWriter.DrainOnce | gday_encryption/src/writer.rs:48-49 | one turn of the drain loop loses and repeats nothing |
| Writer.EncryptedWriter.PollFlushLocal | gday_encryption/src/writer.rs:39-55 | Ready leaves exactly the blank header and not flushing; otherwise still flushing, after one refused inner poll; the invariant holds either way |
| Writer.EncryptedWriter.StartFlushing | gday_encryption/src/writer.rs:57-71 | seals the buffered bytes as the next frame within the capacity, and fails exactly when the counter is used up |
| Writer.EncryptedWriter.PollWrite | gday_encryption/src/writer.rs:75-97 | accepts exactly as much as the frame of 8172 bytes still has room for, seals it exactly when that fills it, and otherwise keeps it unsealed; Pending and errors come of one refused inner poll while flushing and accept nothing; a sealing error only when a full frame meets the used-up counter |
| Writer.EncryptedWriter.PollFlush | gday_encryption/src/writer.rs:99-107 | Ready means that every accepted byte is with the inner writer in whole frames and flushed, and only the blank header is left; seals exactly what was unsealed; Pending and errors come of one refused inner poll |
| Writer.EncryptedWriter.PollFlushRepeatedly | gday_encryption/src/writer.rs:99-107 | polling again after Pending seals the plaintext once and otherwise only empty frames |
| Writer.EncryptedWriter.PollShutdown | gday_encryption/src/writer.rs:109-112 | closes only after everything accepted has been sent in whole frames; Pending and errors come of one refused inner poll |
| Reader.LedgerOpen | gday_encryption/src/reader.rs:67-84 | opening a frame keeps the reader's books, for any peer |
| Reader.EncryptedReader.constructor | gday_encryption/src/reader.rs:35-46 | a new reader has empty buffers of 8192 and 16384 bytes |
| Reader.EncryptedReader.InnerRead | gday_encryption/src/reader.rs:50-62 | moves bytes from the pipe to the buffer, keeping their order |
| Reader.EncryptedReader.OpenBehindCleartext | gday_encryption/src/reader.rs:73-84 | appends exactly the opened plaintext without growing the buffer, and fails exactly when the frame does not open |
| Reader.EncryptedReader.DecryptOne | gday_encryption/src/reader.rs:67-84 | opens exactly one frame under the next counter; cannot fail on clean input |
| Reader.EncryptedReader.WrapInRange | gday_encryption/src/reader.rs:87-89 | on clean input compaction is reached with at most 8191 unread bytes and the cursor at 8193 or more |
| Reader.EncryptedReader.DecryptAllFullChunks | gday_encryption/src/reader.rs:65-92 | ends with nothing more to open and the books kept; compaction out of range exactly when a full buffer's cursor is below 8192; never on clean input; no effect when there was nothing to open |
| Reader.EncryptedReader.CleanFits | gday_encryption/src/reader.rs:69-71 | with empty cleartext every clean frame fits, so nothing to open means an incomplete frame and room to read |
| Reader.EncryptedReader.Turn | gday_encryption/src/reader.rs:113-125 | one turn of the read loop: what each outcome says of the stream; with the stream at its end and bytes buffered, a turn on a ready reader is the one that changes nothing at all |
| Reader.EncryptedReader.Amount | gday_encryption/src/reader.rs:104-109 | the lesser of the capacity and what the caller wants |
| Reader.EncryptedReader.ReadUntil | gday_encryption/src/reader.rs:112-130 | terminates on the remaining inner bytes except where a turn changes nothing; keeps what is promised and what is behind; stops with cleartext only if there is enough, the ciphertext buffer is full or an inner poll was refused; Pending or an error only with too little cleartext, after one refused inner poll |
| Reader.EncryptedReader.LeavesPromised | gday_encryption/src/reader.rs:112-130 | by how a call ended: the cleartext it leaves is never more than promised, and with no inner poll refused it is what was promised or enough; it goes round for ever only with less promised than wanted and less than 16384 bytes behind |
| Reader.EncryptedReader.FullIsAllThatFits | gday_encryption/src/reader.rs:112 | with nothing to open and a full ciphertext buffer the cleartext is all that fits |
| Framing.FittingStep | gday_encryption/src/reader.rs:67-84 | opening a frame that fits moves its plaintext out of what fits and leaves alone what does not |
| Framing.FittingBound | gday_encryption/src/reader.rs:69-71 | what fits leaves room for a tag, so cleartext never fills up |
| Framing.StreamFits | gday_encryption/src/reader.rs:69-71 | of a writer's stream no more plaintext fits than its frames hold, what does not fit is behind, and with room for all of it and a tag all fits |
| Framing.StreamParses | gday_encryption/src/reader.rs:65-85 | parsing a writer's whole stream gives the chunks back and leaves nothing |
| Reader.EncryptedReader.ReadIfNecessary | gday_encryption/src/reader.rs:95-131 | no empty success for a non-zero request; no failure on clean input; from any peer a decryption error only if a frame of what was sent does not open, and an out-of-range compaction only on a full buffer with an incomplete frame; over any pipe an answer is the end exactly when nothing but empty frames was left, and a call that never returns had less promised than wanted and less than 16384 bytes behind; on a stream of any length at hand to its end the outcome is decided beforehand, but for a full ciphertext buffer in place of never returning |
| Reader.EndVerdict | gday_encryption/src/reader.rs:112-126 | buffers end up empty exactly when nothing but empty frames was left |
| Reader.LeftoverParsesAlike | gday_encryption/src/reader.rs:65-85 | opening frames moves them from what parsing finds ahead to what is behind |
| Reader.EncryptedReader.RefinesOneShotParsing | gday_encryption/src/reader.rs:65-131 | for any peer and any cutting of the stream, delivered and buffered cleartext is the plaintext of a prefix of the frames of the whole stream |
| Reader.EncryptedReader.PollRead | gday_encryption/src/reader.rs:135-153 | hands out the next bytes: exactly as many as wanted or as promised, whichever is less, if no inner poll is refused, and never more; over any pipe empty exactly at the true end; exact outcome of a zero-byte read; never returns only when something is left and less than n bytes are promised, and exactly then on a stream at hand that fits in the buffer |
| Reader.EncryptedReader.PollFillBuf | gday_encryption/src/reader.rs:157-167 | shows the cleartext, exactly what was promised if no inner poll is refused; over any pipe empty exactly at the true end; on a stream at hand to its end with anything left, it never returns or stops on a full ciphertext buffer, the latter only if the stream does not fit in it |
| Reader.EncryptedReader.Consume | gday_encryption/src/reader.rs:169-171 | moves bytes from cleartext to delivered and touches nothing else |
| Session.Link.Conservation | gday_encryption/src/reader.rs:50-172 | delivered, cleartext, frames in flight and unsealed bytes are the accepted bytes in order; frames opened are the first frames sealed under the same counters; buffered, wire and unsent bytes are exactly the other frames |
| Session.Link.SentBytesParse | gday_encryption/src/writer.rs:39-107 | what is on the pipe always parses without failure |
| Session.Link.NothingWithheld | gday_encryption/src/reader.rs:112-131 | a reader waiting on an empty pipe has delivered everything that was sent |
| Session.Link.EndIsOnFrameBoundary | gday_encryption/src/reader.rs:121-122 | an end of stream is on a frame boundary with every byte delivered, and at most one sealed frame was never sent |
| Session.Link.StepWriter | gday_encryption/src/writer.rs:75-112 | any poll of the writer keeps the invariants of both ends; exactly what the answer says is accepted; a finished flush has handed everything over; a refusal is one of the pipe |
| Session.Link.StepReader | gday_encryption/src/reader.rs:135-171 | any poll of the reader keeps the invariants of both ends and never breaks; exactly what the answer says is delivered; a refusal is one of the pipe |
| Session.Link.Run | gday_encryption/src/reader.rs:134-172 | conservation after any sequence of polls of both ends; the bytes accepted and delivered are those of the answers, in order; refusals are the pipe's; all polls are made unless the counter is used up or the pipe is closed |
| Session.Link.WriteAll | gday_encryption/src/tests.rs:14 | over any pipe exactly the bytes reported are accepted; it gives up only after as many refused polls as it has patience for; over a pipe that moves bytes when it can, all are, unless the counter runs out |
| Session.Link.FlushAll | gday_encryption/src/tests.rs:15 | complete only with everything accepted handed to the pipe |
| Session.Link.ReadExact | gday_encryption/src/tests.rs:16 | over any pipe delivers the next bytes in order; it gives up only after as many refused polls as it has patience for; flushed bytes are read without waiting from a pipe that gives them |
| Session.Link.CopyBuf | gday_chat/src/file_transfer.rs:54-60 | the same by filling and consuming the buffer |
| Session.Link.Exchange | gday_encryption/src/tests.rs:13-18 | over any pipe, write, flush and read back that completes returns the very bytes; over one that moves bytes when it can it completes, unless the counter runs out |
| Session.Link.LeftToRead | gday_encryption/src/reader.rs:95-131 | once everything accepted is with the pipe, nothing is left for the reader exactly when every accepted byte is delivered; what it is promised and what is behind bound what is left, and with room for all of it all is promised |
| Session.Link.ReadAfterClose | gday_encryption/src/reader.rs:112-153 | on a closed link of any length a read gives the next bytes, as many as asked for if they are promised; it is empty exactly when every byte is delivered; asked for more than is left in a stream that fits in the buffer, it never returns; with 24576 bytes or more to go it returns |
| Session.Link.FillAfterClose | gday_encryption/src/reader.rs:112-167 | the same of `poll_fill_buf`, which never returns with anything left in a stream that fits in the buffer |
| Session.Link.WriteAndClose | gday_encryption/src/writer.rs:75-112 | over an open pipe that moves bytes, a write of what the frame has room for, a flush and a shutdown leave everything accepted with the pipe, in at most three frames more |
| Session.ReadOfOneMessage | gday_encryption/src/reader.rs:112-153 | from a fresh writer and reader: a message of one frame is written, flushed and closed; a read of no more than it gives its first bytes, and a read of more never returns |
| Session.ZeroReadOfNewReader | gday_encryption/src/reader.rs:128 | a zero-byte read of a new reader comes to the closing assertion with an empty buffer |
| GlobalState.State.CreateRoom | gday_hole_punch/src/server/global_state.rs:67-80 | a new room and its timer under the first unused number drawn |
| GlobalState.State.UpdateClient | gday_hole_punch/src/server/global_state.rs:86-113 | sets the slot of that role, kind and family, or reports that there is no such room |
| GlobalState.State.SetClientDone | gday_hole_punch/src/server/global_state.rs:117-147 | is the as-written "done" operation, whose runs are characterised by the lemmas below |
| GlobalState.State.ExpireRoom | gday_hole_punch/src/server/global_state.rs:150-157 | removes the room and drops the senders stored in it |
| Rooms.NothingIsExchanged | gday_hole_punch/src/server/global_state.rs:117-147 | in every run as written no sender is stored between lock sections, every receiver finds its sender gone, and there is exactly one timer for each room |
| Rooms.PresenceStep | gday_hole_punch/src/server/global_state.rs:67-80 | as written a room comes only by its creation and goes only by its timer |
| Rooms.LastAddrIsLast | gday_hole_punch/src/server/global_state.rs:103-110 | the logged address of a slot is that of the last matching update with no later one and no later creation |
| Rooms.ContactsFollowLog | gday_hole_punch/src/server/global_state.rs:86-113 | in every run each slot holds the last address logged for it since the room's creation |
| Rooms.OtherRoomsUntouched | gday_hole_punch/src/server/global_state.rs:93-95 | a lock section on one room leaves the others as they are |
| Rooms.RepairedIsWired | gday_hole_punch/src/server/global_state.rs:19-23 | in every run of the repair stored senders are live, stored once, at most one per room, and each room has a timer |
| Rooms.RepairedDone | gday_hole_punch/src/server/global_state.rs:132-144 | the repaired exchange gives both receivers the documented pair, own contact first, and removes the room |
| Rooms.AnswerStays | gday_hole_punch/src/server/global_state.rs:138-139 | with the repair nothing is sent twice |
| Rooms.RepairedForgetsNobody | gday_hole_punch/src/server/global_state.rs:115-131 | with the repair every receiver without an answer has its sender stored in a live room |
| Rooms.RepairedTellsBoth | gday_hole_punch/src/server/global_state.rs:19-23 | with the repair whoever is told a pair has a peer who is told its mirror image |
| Rooms.RepairedRendezvous | gday_hole_punch/src/server/global_state.rs:115-147 | with the repair two clients that are done, with any lock sections of others in between, get each other's current contacts |
| Rooms.RepairedRoomCanExpireEarly | gday_hole_punch/src/server/global_state.rs:142-157 | with the repair alone a reused room number can be expired by the timer of the exchanged room |
| Rooms.RepairedTimers | gday_hole_punch/src/server/global_state.rs:142-157 | in every run of the repair the timers of a number are its live room's and one for each exchanged room whose timer has not yet fired on no room |
| Rooms.RepairedExpiryIsOwnExactly | gday_hole_punch/src/server/global_state.rs:150-157 | with the repair a live room's only timer is its own exactly when every exchange of that number has been followed by a timer that found no room |
| ConnectionHandlers.InterleavingsReplay | gday_hole_punch/src/server/connection_handler.rs:19-101 | every interleaving of handlers and timers is a legal run of lock sections |
| ConnectionHandlers.OnlyRealRoomsAreEntered | gday_hole_punch/src/server/connection_handler.rs:22-49 | a handler enters only a room it has just created or that is there, and says so only then |
| ConnectionHandlers.FirstIsAnswered | gday_hole_punch/src/server/connection_handler.rs:22-49 | a first message creates the room drawn, joins a room exactly when it is there, and is refused otherwise; each with its one reply and next state |
| ConnectionHandlers.NextIsAnswered | gday_hole_punch/src/server/connection_handler.rs:64-101 | each later message: what it does to the shared state, the one reply or none, and where the handler goes on or ends |
| ConnectionHandlers.PrivateIsAnswered | gday_hole_punch/src/server/connection_handler.rs:71-73 | the private address is stored in a lock section of its own, or the missing room is reported |
| ConnectionHandlers.ResumeIsAnswered | gday_hole_punch/src/server/connection_handler.rs:77-85 | a waiting handler goes on waiting, ends with RoomTimedOut, or shares exactly the pair in its channel |
| ConnectionHandlers.RepairedConversation | gday_hole_punch/src/server/connection_handler.rs:75-85 | with the repair two handlers of a room that say done are each sent their own and the other's current contact, and nothing else, whatever others do in between |
| ConnectionHandlers.WritersHaveEntered | gday_hole_punch/src/server/connection_handler.rs:22-74 | no handler writes before it has entered a room of that number, always in that role, and it enters at most once |
| ConnectionHandlers.InterleavedContacts | gday_hole_punch/src/server/connection_handler.rs:66-74 | after any interleaving each slot is the last address that any handler sent for it |
| ConnectionHandlers.AddressesAreStored | gday_hole_punch/src/server/connection_handler.rs:67-74 | one message stores the peer's own address as public and then, after any steps of others, which leave the handler alone, its content as private, or reports that the room is gone |
| ConnectionHandlers.GoneRoomIsReported | gday_hole_punch/src/server/connection_handler.rs:86-88 | a handler whose room goes while others work is told so once, at its next address or "done", ends, and changes no room |
| ConnectionHandlers.OthersLeaveAlone | gday_hole_punch/src/server/connection_handler.rs:58-61 | steps of others and timers neither move a handler nor send its client anything |
| ConnectionHandlers.NeverShares | gday_hole_punch/src/server/connection_handler.rs:75-85 | in every interleaving as written no reply shares contacts and all receivers are dropped |
| ConnectionHandlers.EveryDoneTimesOut | gday_hole_punch/src/server/connection_handler.rs:75-86 | in every interleaving as written contacts are never shared and any waiting handler that looks at its channel ends with RoomTimedOut |
| ConnectionHandlers.DoneEndsInTimeout | gday_hole_punch/src/server/connection_handler.rs:75-86 | in every interleaving as written a handler in a live room that says "done" is told nothing and ends with RoomTimedOut, whatever others do meanwhile |
| ConnectionHandlers.SameRoomExactly | gday_hole_punch/src/server/global_state.rs:67-80 | a room there at two moments of a run is the same room exactly when it has not expired in between, and exactly when none was created in between |
| ConnectionHandlers.WriteReachesRoomEnteredExactly | gday_hole_punch/src/server/connection_handler.rs:107-117 | in every interleaving as written every write is by a handler that entered a room of that number, and the room it reaches is the one entered exactly when no timer of that number has fired since |
| ConnectionHandlers.StaleHandlerWritesToNewRoom | gday_hole_punch/src/server/connection_handler.rs:107-117 | from any state, a handler whose room expired writes into a new room of the same number |
| ConnectionHandlers.StaleWriteIsReachable | gday_hole_punch/src/server/global_state.rs:93-95 | every interleaving as written with a handler in a live room has a continuation in which it writes into another's room |
| AcceptGate.BlockedAddressesHaveTimers | gday_hole_punch/src/server.rs:70-93 | in every reachable state the timer of the latest insert of a blocked address is asleep or about to be spawned |
| AcceptGate.ConnectionIsServed | gday_hole_punch/src/server.rs:60-100 | a connection from an address that is not blocked is served at once and blocks its address for five seconds |
| AcceptGate.ConnectionIsQueued | gday_hole_punch/src/server.rs:60-63 | one from a blocked address is queued and replaces what was queued |
| AcceptGate.UnreadableIsDropped | gday_hole_punch/src/server.rs:71-77 | a stream without a peer address is dropped and blocks nothing |
| AcceptGate.TimerServesQueue | gday_hole_punch/src/server.rs:83-94 | a timer that is due serves what is queued and blocks its address anew, or unblocks it |
| AcceptGate.QueuedIsServed | gday_hole_punch/src/server.rs:79-94 | from every reachable state a queued stream can be served within five seconds without another connection |
| AcceptGate.EveryStreamIsAccountedFor | gday_hole_punch/src/server.rs:51-93 | in every reachable state each accepted stream is in exactly one place: service, queue, a task's hand, dropped |
| AcceptGate.NewestStreamIsQueued | gday_hole_punch/src/server.rs:60-66 | in every reachable state streams are queued, held and served under their own address, and a queued one is the newest of its address |
| AcceptGate.SpacedUnlessInterrupted | gday_hole_punch/src/server.rs:79-93 | services of one address are five seconds apart in every run without an interruption |
| AcceptGate.InterruptionBreaksSpacing | gday_hole_punch/src/server.rs:61-66 | an interruption can lead to two services of one address at the same moment |
| AcceptGate.InterruptsExactly | gday_hole_punch/src/server.rs:60-93 | in a state reached without interruption, a step is an interruption exactly when finishing what is under way after it can bring two services of one address closer than five seconds |
| AcceptGate.InterruptionIsReachable | gday_hole_punch/src/server.rs:79-93 | for every address there is a run without interruption after which a connection interrupts |
| Base32.DigitOfAlphabet | gday/src/base32.rs:10 | looking up a character of the alphabet gives its position |
| Base32.AlphabetExactly | gday/src/base32.rs:1 | the digit of each value, written without the alphabet |
| Base32.TypedExactly | gday/src/base32.rs:4-10 | a character is read as a digit exactly when it is that digit, its lower-case letter, or I or L in either case for 1 |
| Base32.PlaceValueWraps | gday/src/base32.rs:19 | the place value is the true power modulo 2^32, and overflows from the eighth digit on |
| Base32.StrToU32 | gday/src/base32.rs:3-32 | the loop from the right computes the positional value, with every failure and overflow case |
| Base32.ExactDecoding | gday/src/base32.rs:8-50 | a word of at most seven characters is a number exactly when all are digits and the value is below 2^32, and prints back without leading zeros |
| Base32.EighthDigit | gday/src/base32.rs:18-19 | with an eighth digit a checked build overflows and an unchecked one ignores it |
| Base32.U32ToStr | gday/src/base32.rs:34-50 | the loop prints the digits, most significant first |
| Base32.EncodeIsParsed | gday/src/base32.rs:34-50 | a printed 32-bit number has one to seven digits and parses to itself |
| Base32.ParsedIsEncoded | gday/src/base32.rs:34-50 | printing the value of a word gives the word without its leading zeros |
| Base32.ToString | gday/src/base32.rs:52-62 | the words joined by dots |
| Base32.RoundTrip | gday/src/base32.rs:3-74 | every non-empty list of 32-bit numbers is read back, in any letter case, with I or L for 1 and with blanks around |
| Base32.RoundTripExactly | gday/src/base32.rs:64-74 | the empty list is the one that is not |
| Base32.TrimExactly | gday/src/base32.rs:5 | trimming takes away the white space at both ends, all of it and nothing else |
| Base32.SplitExactly | gday/src/base32.rs:66 | the parts have no dots and give the text back when joined by dots |
| Base32.FromStringExactly | gday/src/base32.rs:64-74 | a code is read exactly when every part is a number, one value for each part; otherwise the first part that is none stops the program |
| Base32.RoomCodeLength | gday/src/main.rs:124-125 | a room code is at most ten characters |
| FileTransfer.BothEndsSelectAlike | gday_chat/src/lib.rs:62-67 | both ends select the same files in the same order, for answers of any length |
| FileTransfer.SelectedByRank | gday_chat/src/lib.rs:62-67 | exactly the accepted files are selected, each after as many as were accepted before it |
| FileTransfer.SelectedByTrues | gday_chat/src/file_dialog.rs:51-52 | k accepting answers select the first k files, so option 3 selects all |
| FileTransfer.SelectedByFalses | gday_chat/src/file_dialog.rs:53-54 | refusing answers select none |
| FileTransfer.SendFiles | gday_chat/src/file_transfer.rs:22-33 | sends the contents in order; stops exactly at the first file that is missing |
| FileTransfer.ReceiveFiles | gday_chat/src/file_transfer.rs:46-61 | cuts the stream by the sizes offered |
| FileTransfer.PortionsAreThePrefix | gday_chat/src/file_transfer.rs:54-60 | the pieces are in order, lose nothing, and are full unless the stream ends |
| FileTransfer.AlignedExactly | gday_chat/src/file_transfer.rs:39-63 | files and chat are recovered for every chat exactly when every file has its offered size |
| FileTransfer.FileExistsExactly | gday_chat/src/file_dialog.rs:58-69 | a file counts as saved exactly at its path with its size |
| FileTransfer.TransferAligned | gday_chat/src/lib.rs:97-105 | each chosen file is saved exactly and the next byte is the first of the chat |
| FileTransfer.ConfirmReceive | gday_chat/src/file_dialog.rs:10-56 | the answer of each option; option 2 has one entry for each file offered that is not saved at its path with its size |
| FileTransfer.OptionTwoExactly | gday_chat/src/file_dialog.rs:17-26 | option 2 selects the first k files; these are the new ones exactly when no saved file comes before a new one |
| FileTransfer.NewFirstExactly | gday_chat/src/file_dialog.rs:17-26 | no saved file comes before a new one exactly when the first k files are new, k being how many are |
| FileTransfer.OptionTwoCanPickTheWrongFile | gday_chat/src/file_dialog.rs:21-26 | a saved file followed by a new one: option 2 takes the saved one |
| FileDialog.FindOverlap | gday_chat/src/file_dialog.rs:83-94 | finds what should be found: the first overlapping pair in loop order or the first path that cannot be made canonical, whichever the loops meet first, or neither |
| FileDialog.OverlapExactly | gday_chat/src/file_dialog.rs:87 | two paths overlap exactly when they agree as far as both go, so that one is at or below the other |
| FileDialog.FoundIsUnique | gday_chat/src/file_dialog.rs:83-94 | there is never more than one thing to find |
| FileDialog.WalkInto | gday_chat/src/file_dialog.rs:127-150 | appends the walk of the tree to the list, and fails exactly when something in the tree cannot be read |
| FileDialog.WalkFinds | gday_chat/src/file_dialog.rs:135-148 | a file is listed exactly when it is there and readable, with its size and public path |
| FileDialog.WalkUnique | gday_chat/src/file_dialog.rs:135-148 | a walk lists no file twice |
| FileDialog.GetFileMetadatas | gday_chat/src/file_dialog.rs:116-125 | the walks of all paths in order, or a failure exactly when one of them fails |
| FileDialog.ConfirmSend | gday_chat/src/file_dialog.rs:82-114 | files are offered exactly when all paths are canonical, walkable and disjoint and the answer is a beginning of "yes"; then all of them, each once; otherwise the refusal is the one that the check or the walk found |
| FileDialog.NoFileTwice | gday_chat/src/file_dialog.rs:82-96 | after the overlap check no file is offered twice |
| FileDialog.PublicPathStartsAtName | gday_chat/src/file_dialog.rs:119-141 | the public path of a file is the last name of the path given and what is below it |
| FileDialog.PublicPathsExactly | gday_chat/src/file_dialog.rs:119-146 | public paths are distinct exactly when no two paths given end in the same name and hold a file at the same place |
| FileDialog.ClashIsPossible | gday_chat/src/file_dialog.rs:119-146 | two files of one name in two directories pass the overlap check and get the same public path |
| EndToEnd.ReceiveOverLink | gday_chat/src/file_transfer.rs:46-61 | a take of each size, filled and consumed from the link, saves exactly the files and leaves exactly the chat |
| EndToEnd.TransferOverLink | gday_chat/src/file_transfer.rs:14-63 | over any pipe a transfer that completes has saved the chosen files exactly with exactly the chat to come; over one that moves bytes when it can it completes, unless the counter runs out |

## Left out

- The cipher, key agreement and hashing themselves, and the 8-byte nonce that opens each stream: the cipher is a parameter with laws, shared by both ends.
- Use of the writer or reader after a sealing error, a decryption error or a compaction out of range: the early return has dropped part of a buffer, and the model ends there.
- An inner writer that answers Ready with zero bytes: the drain loop of the source makes no progress on it, so the pipe takes at least one byte.
- Which of two ways a read of a stream at hand to its end finishes when it wants more than fits behind the cleartext, the ciphertext buffer with its read part and the stream to come reach 16384 bytes, and less than that is behind the frames that fit: never, or with cleartext and a full ciphertext buffer. It depends on how the inner reads cut the stream (two full frames read at once fill the buffer, read one by one they do not); every other outcome on such a stream is decided before the call.
- Frames of more than 8192 bytes, which this writer never makes: the reader's contracts cover them as far as outcomes go, but safety and the absence of empty successes are claimed for clean input only.
- Heap sharing of the two halves of a split buffer: a handle is a value with its address range and capacity; reallocation, proved never to happen, is modelled with the least capacity.
- TLS, sockets, the client's contact sharing and peer connection, and the command line: input and output around the parts modelled.
- Message encoding and the size limits of messages: library payloads behind a length prefix.
- Random choice of room numbers: the numbers drawn are a parameter, and the endless retry when all numbers are taken is not modelled.
- The second, unused set of blocked addresses in the room state: nothing calls it.
- Wall-clock time of room expiry: a room's timer may fire at any moment after its creation, which covers ten minutes.
- Progress bars, printing, prompts, and the size totals that are only printed.
- Non-ASCII text in room codes, symbolic links and the path rules of operating systems: text is ASCII and trees have no links.
- FileDialog.ConfirmSend: the response is the trimmed line in lower case, and an error in listing one entry counts as an error at that entry.
- FileTransfer.ConfirmReceive: the response is the trimmed line, and the saved files are a map from path to size.
- FileTransfer.ReceiveFiles: returns the pieces and does not model creating directories or overwriting equal paths.
- ConnectionHandlers.EveryDoneTimesOut: says what happens when a waiting handler looks at its channel, not that it is scheduled.
