# Omarchy Connect: verified model

A Dafny model of the parts of Omarchy Connect that carry its promises: the
file transfer protocol and the dispatchers that run it both ways over one
stream, the wire codec and its framing, the incremental H.264 access-unit
splitter, the monitor layout and pointer arithmetic, the latest-frame inbox,
the PIN throttle, and the pixel conversion.

`dafny verify dfyconfig.toml` checks everything. Code that works by changing
things in place is a class or a method with loops (`WireIo`, `Framing`,
`FileSenders`, `FileReceivers`, `Dispatchers`, `PushBytes`, `PixelLayout`,
`Pointer`, `SlotList` in `FrameInbox`, `Lockout` in `PinLockout`, `I420`); each
method is proved to compute a function on values, and the properties are
proved about those functions.

| Topic | Modules |
|---|---|
| Bytes, UTF-8, byte vectors, arithmetic | `Bytes`, `Utf8`, `Utf8Scalars`, `ByteVecs`, `Arithmetic` |
| Codec and framing | `Wire`, `WireLayout`, `DecodeErrors`, `WireIo`, `Framing` |
| File names | `FileNames` |
| Sender and receiver, each against any peer | `FileSending`, `FileSenders`, `FileReceiving`, `FileReceivers` |
| Dispatchers, and whole sessions against any peer | `Dispatching`, `Dispatchers`, `PeerSessions` |
| One transfer between honest ends; the two-way session; both over the wire | `TransferLink`, `Duplex`, `Carriage` |
| Annex-B and access units | `AnnexB`, `AccessUnits`, `Pictures`, `PushBytes` |
| Monitors and pointer | `PixelLayout`, `Pointer`, `PointerWidths` |
| Frame inbox | `FrameInbox` |
| PIN throttle | `PinLockout` |
| Pixels | `I420` |

SHA-256 is an arbitrary function passed as a parameter. The download
directory is a map from names to contents, and only the receiver changes it.
The clock of the throttle and the outcome of a PIN check are parameters. The
inbox is a state machine whose steps are the atomic actions of the lock, the
notifier and the flag.

Where the code does not do what its documentation or a reader may expect, the
code is modelled and the exact condition is proved:

- A receiver that cancels by itself is never taken out of the incoming slot,
  so every later offer is refused (`Dispatching.CancelledSlotSticks`; reached
  by two messages in `Dispatching.StuckReached`, and by exactly which ones in
  `Dispatching.SlotStuck`).
- Ids are apart only between honest ends: an offer under the id of our own
  outgoing transfer is taken, and the peer's cancel or completion of it then
  reaches the outgoing transfer (`Dispatching.OwnIdCollides`; the guard is part
  of `Dispatching.SlotFreed`, `Dispatching.SlotStuck` and `Dispatching.CancelSent`).
- A hash mismatch is documented to produce a cancel, but the code drops it:
  the slot is freed and the peer hears nothing (`Dispatching.MismatchSilent`;
  exactly what is answered with a cancel in `Dispatching.CancelSent`).
- A peer's completion confirms a transfer with any hash as long as the sender
  has not announced its own (`FileSending.ConfirmedExactly`; with nothing sent
  but the offer in `FileSending.ConfirmedUnsent`).
- `close` on the inbox can be missed by a receiver that is about to wait
  (`FrameInbox.CloseCanBeLost`, exactly when in `FrameInbox.CloseReleases`).
- A frame published before the close can be left behind by a receiver that
  has seen the list empty and then sees the flag (`FrameInbox.FrameCanBeLost`,
  exactly when in `FrameInbox.FilledIsReceived`).
- Text over 4096 bytes is cut at a byte, so a message may arrive shortened or
  not at all (`Wire.LongTextCut`); the round trip holds exactly for
  well-formed messages (`Wire.RoundTrip`).
- A pointer position is computed in 64 bits and narrowed to 32. Every move is
  written where it should be exactly when both axis ranges are below 2^31 and
  no sum overflows (`PointerWidths.WrittenExactly`); pixels a display really
  has are safe below 2^31 (`PointerWidths.PixelsWritten`).
- A refused client is told the time left rounded down, so it can come back too
  early (`PinLockout.RetryTooEarly`, exactly when in `PinLockout.RetryExactly`).
- The pointer map tells all pixels apart exactly up to 8 pixels in a logical
  unit (`Pointer.AxisIncreasing`).

## Model

| member | source | states |
|---|---|---|
| TransferLink.ExactlyDelivered | crates/protocol/src/file.rs:108-196 | Every run of an honest sender and receiver over first-in first-out queues takes at most, and ends after exactly, 2*ceil(size/16384)+4 deliveries per file; it has nothing in flight if and only if all of them were made, and then the directory is the old one with every file saved byte for byte, in turn, and their partial files gone |
| TransferLink.RunConserves | crates/protocol/src/file.rs:281-335 | In any run, in any order of deliveries: deliveries made plus deliveries left is the exact total of the files started, and the directory to come is the old one with those files saved |
| TransferLink.StepConserves | crates/protocol/src/file.rs:108-335 | Every enabled step keeps the whole-run invariant, takes one off the deliveries left (or adds a file's whole cost) and leaves the directory to come as it was (or adds the file) |
| TransferLink.AlwaysInFlight | crates/protocol/src/file.rs:107-156 | A transfer under way always has a message in flight, so no run gets stuck with empty queues before it completes, and something is left to deliver only while one is under way |
| TransferLink.InFlightOrder | crates/protocol/src/file.rs:130-178 | acked <= received <= sent <= size at every moment; the receiver holds exactly the first `received` bytes in its hash and on disk; the chunks in flight are exactly the bytes between received and sent; acks in flight strictly climb from acked to received |
| TransferLink.NeverFails | crates/protocol/src/file.rs:286-335 | Between honest ends no cancel is ever sent and no failure or hash mismatch is ever reported: whatever is delivered next, the dispatcher that reads it takes it without an error |
| TransferLink.RunNeverFails | crates/protocol/src/file.rs:286-335 | The same at every moment of every run from an idle link, and every chunk in flight is full or ends its file |
| TransferLink.FullInFlight | crates/protocol/src/file.rs:133-148 | At every moment of a transfer every chunk in flight is a full 16384 bytes or the one that ends the file |
| TransferLink.ChunksFull | crates/protocol/src/file.rs:133-148 | Of the chunks between two aligned offsets every one is full but the one that ends the file |
| TransferLink.StartStep | crates/host/src/session.rs:475-484 | Starting a file on an idle link puts exactly its offer on the queue and makes all its deliveries due |
| TransferLink.DeliverOffer | crates/protocol/src/file.rs:231-255 | An offer opens an empty partial file under the sender's own name, and exactly an accept comes back |
| TransferLink.DeliverAccept | crates/protocol/src/file.rs:161-164 | An accept makes the sender put out exactly the chunks of one window, or its hash at once for an empty file |
| TransferLink.DeliverChunk | crates/protocol/src/file.rs:286-304 | Each chunk in flight is the one the receiver expects next; it is appended to the partial file and exactly its ack comes back |
| TransferLink.DeliverAck | crates/protocol/src/file.rs:165-178 | Each ack moves the window on by its chunk, and then exactly the bytes from the receiver to the window's edge are in flight; the last one brings out the hash |
| TransferLink.DeliverComplete | crates/protocol/src/file.rs:305-324 | The announced hash matches, the partial file becomes the final one, the slot is free and the hash is echoed |
| TransferLink.DeliverEcho | crates/host/src/session.rs:662-668 | The echo ends the transfer and leaves the link idle with the directory as it is |
| Duplex.StepRefines | crates/host/src/session.rs:653-709 | Every step of a two-way session is one step of the host's transfer or one of the client's and leaves the other as it is, or leaves both |
| Duplex.SessionRefines | crates/client/src/net.rs:531-618 | Every interleaving of a session projects onto a run of the one-way link of either side |
| Duplex.SessionDelivers | crates/host/src/session.rs:653-720 | Any number of files both ways, mixed in any order with each other and other messages: once no file message is in flight every slot is free and each side holds what it had plus every file the other sent |
| Duplex.NeverRefused | crates/host/src/session.rs:678-685 | In no session of honest ends does a dispatcher of either side report an error at any step, refuse an offer or send a cancel |
| Duplex.SessionCost | crates/host/src/session.rs:492-531 | In any session the messages about files that are read never exceed 2*ceil(size/16384)+4 for each file sent either way, and are exactly that many if and only if no more is on its way |
| Duplex.ReportsGood | crates/host/src/session.rs:517-526 | At every step of a session the dispatcher that reads reports no error |
| Carriage.LinkSurvives | crates/protocol/src/message.rs:472-506 | Everything a link has in flight fits the wire: framed as bytes it is read back exactly |
| Carriage.SessionSurvives | crates/protocol/src/message.rs:472-506 | In every session whose sides say nothing the wire cannot carry, both queues survive framing and decoding exactly, at every moment |
| Carriage.RepliesAboutFiles | crates/host/src/session.rs:653-709 | A dispatcher answers with messages about files only |
| FileSending.AnyPeer | crates/protocol/src/file.rs:108-196 | Against any sequence of polls and peer messages: acked <= sent <= size, at most 65536 bytes unacked, the payload sent is exactly the file up to the next offset, and everything sent is at most one offer, then a gapless tiling, then at most one completion with the hash of the whole file, only after accept and with all bytes acked |
| FileSending.PollFills | crates/protocol/src/file.rs:130-155 | A poll of an accepted transfer reads on until 65536 bytes are unacked or the file ends, in chunks of 16384 bytes and a last one that may be shorter, and completes if and only if every byte is acked |
| FileSending.ChunkSizes | crates/protocol/src/file.rs:133-148 | Chunks between two offsets are 16384 bytes but for the one that ends at the second |
| FileSending.OnPeerExactly | crates/protocol/src/file.rs:158-196 | What each answer does to its transfer: accept, stale ack, ack, ack past the sent bytes, wrong hash, cancel, with the reasons reported |
| FileSending.FailedSilent | crates/protocol/src/file.rs:109-111 | A failed transfer sends nothing more |
| FileSending.OpenNamed | crates/protocol/src/file.rs:57-61 | The name offered is that of the file made clean, or "file.bin" |
| FileSending.RunSent | crates/protocol/src/file.rs:108-156 | Everything ever sent is the offer, then chunks that tile the file in order, then the completion |
| FileSending.AckedGrows | crates/protocol/src/file.rs:165-178 | Acks only move forward over any run against any peer |
| FileSending.StepInv | crates/protocol/src/file.rs:108-196 | Each call on the sender keeps its invariant, whatever the peer says |
| FileSending.OnPeer | crates/protocol/src/file.rs:158-196 | A message is for this transfer if and only if it is an answer that carries its id; otherwise nothing changes |
| FileSending.ConfirmedExactly | crates/protocol/src/file.rs:179-186 | The exact condition under which a peer's completion confirms: it carries the right hash, or the sender has not sent its own yet and then any hash will do |
| FileSending.ConfirmedUnsent | crates/protocol/src/file.rs:179-186 | An instance: a transfer that has sent nothing but its offer is confirmed by a completion with any hash |
| Dispatching.FreedUnsent | crates/host/src/session.rs:660-668 | What follows at the sender: the slot is freed as if the file had arrived |
| FileSenders.FileSender.constructor | crates/protocol/src/file.rs:54-77 | A new sender is in the initial state with the name reduced |
| FileSenders.FileSender.Poll | crates/protocol/src/file.rs:108-156 | The fields and messages after `poll` are those of the sender the theorems are about |
| FileSenders.FileSender.FillWindow | crates/protocol/src/file.rs:130-149 | The chunk loop reads and hashes exactly up to the edge of the window, in chunks of 16384 bytes and a last shorter one: 65536 bytes past the last ack or the end of the file |
| FileSenders.FileSender.ReadChunks | crates/protocol/src/file.rs:130-149 | The loop itself: offsets, bytes hashed and chunks put out |
| FileSenders.FileSender.FinishHash | crates/protocol/src/file.rs:198-209 | The hash is computed once and announced |
| FileSenders.FileSender.OnPeer | crates/protocol/src/file.rs:158-196 | The fields and result after `on_peer` are those of the sender the theorems are about, in every error case |
| FileReceiving.AnyPeer | crates/protocol/src/file.rs:231-350 | Against any messages: the partial file is the data of the acked chunks, never longer than offered; the final name changes only when all bytes are there and their hash was announced, and then holds exactly them; no other file is touched; a failed transfer leaves no partial file |
| PeerSessions.AnySession | crates/host/src/session.rs:653-709 | Over a whole session with an arbitrary peer: a name that is not as it was before is that of a partial file, gone unless its transfer is the one under way, or a clean name that holds bytes whose hash the peer announced |
| PeerSessions.OnePartialLeft | crates/host/src/session.rs:653-709 | Of all partial files of a session at most one is left at any moment |
| PeerSessions.ServeInv | crates/host/src/session.rs:653-709 | Every message read and every file started keeps that |
| FileReceiving.HandleInv | crates/protocol/src/file.rs:281-335 | Every message keeps the receiver's invariant over fields and directory |
| FileReceiving.HandleData | crates/protocol/src/file.rs:286-324 | The bytes hashed grow by exactly the acked data, and only the matching completion ends a transfer |
| FileReceiving.CancelReasons | crates/protocol/src/file.rs:287-313 | When a receiver cancels, with which reason, and what the peer is sent |
| FileReceiving.DoneAbsorbs | crates/protocol/src/file.rs:282-284 | A finished or failed receiver reacts to nothing |
| FileReceivers.FileReceiver.constructor | crates/protocol/src/file.rs:231-255 | Accepting an offer creates the partial file and the initial state |
| FileReceivers.FileReceiver.Handle | crates/protocol/src/file.rs:281-335 | Fields, directory and result after `handle` are those of the receiver the theorems are about, in every error case |
| FileReceivers.FileReceiver.Cancel | crates/protocol/src/file.rs:337-344 | Cancelling removes the partial file and tells the peer why |
| FileReceivers.FileReceiver.Cleanup | crates/protocol/src/file.rs:346-349 | The handle is closed and the partial file is gone, nothing else |
| FileNames.SanitizeClean | crates/protocol/src/file.rs:352-368 | Whatever name is offered, the one used is 1 to 120 letters, digits, dots, dashes and underscores without a dot at either end, so it cannot leave the directory |
| FileNames.SanitizeKeeps | crates/protocol/src/file.rs:352-368 | A name is kept as it is if and only if it is such a name |
| FileNames.SanitizeIdempotent | crates/protocol/src/file.rs:57-61 | Reducing twice is reducing once: the receiver saves under the name the sender offered |
| FileNames.SanitizeShape | crates/protocol/src/file.rs:361-367 | The result is the first 120 safe bytes of the last segment without the dots at its ends, or the fallback if nothing is left |
| FileNames.KeptByNumbers | crates/protocol/src/file.rs:357-362 | Which names are kept, in numbers: 1 to 120 ASCII letters, digits, dots, dashes and underscores with no dot at an end |
| FileNames.FallbackName | crates/protocol/src/file.rs:353-367 | The fallback is "file.bin" |
| FileNames.DotSegment | crates/protocol/src/file.rs:353-356 | A last segment that is a single dot does not count |
| FileNames.PartialBytes | crates/protocol/src/file.rs:239-239 | The partial file is a dot, the name, a dot, the id in decimal and ".partial" |
| FileNames.SafePartOf | crates/protocol/src/file.rs:357-361 | Of a segment, unsafe characters are dropped first and 120 of the others are kept |
| FileNames.KeepSafeEach | crates/protocol/src/file.rs:357-359 | Each byte is kept or dropped by itself, kept if and only if it is safe |
| FileNames.LastSegmentOnly | crates/protocol/src/file.rs:353-356 | Directories in front of the last segment and a slash behind it change nothing |
| FileNames.PartialInjective | crates/protocol/src/file.rs:239-239 | Two transfers share a partial file only if they share name and id |
| FileNames.PartialNotFinal | crates/protocol/src/file.rs:239-240 | A partial file never has the name of a saved one |
| Dispatching.Routed | crates/host/src/session.rs:660-707 | A message reaches the outgoing transfer if and only if it is an answer with its id, and then leaves the incoming one and the directory alone; otherwise the other way round |
| Dispatching.OutgoingReplies | crates/host/src/session.rs:660-668 | What the outgoing transfer writes carries its own id |
| Dispatching.IncomingReplies | crates/host/src/session.rs:678-708 | What is answered to a file message carries that message's id |
| Dispatching.OtherMessagesIgnored | crates/host/src/session.rs:660-708 | Messages that are not about files leave both transfers and the directory as they are |
| Dispatching.SlotFreed | crates/host/src/session.rs:691-707 | The exact messages that free the incoming slot at the dispatcher: the peer's cancel, and a completion once all bytes are there, unless the outgoing transfer has the same id |
| Dispatching.CancelledSlotSticks | crates/host/src/session.rs:679-700 | A receiver that cancelled by itself keeps the slot for the rest of the session, whatever is read or sent, and every later offer is refused |
| Dispatching.SlotStuck | crates/host/src/session.rs:691-707 | The exact messages that leave a failed transfer in the slot at the dispatcher: a chunk out of order or past the size offered, and a completion before all bytes that the outgoing transfer does not take for its own |
| Dispatching.StuckReached | crates/host/src/session.rs:678-707 | An instance: an offer of one byte and a chunk behind its end; from then on every offer is refused |
| Dispatching.CancelSent | crates/protocol/src/file.rs:286-324 | The exact messages the dispatcher answers with a cancel: a further offer and those that leave the slot stuck |
| Dispatching.BusyRefuses | crates/host/src/session.rs:678-685 | While a transfer holds the incoming slot a further offer changes nothing and is refused under its own id, with its reason |
| Dispatching.OwnIdCollides | crates/host/src/session.rs:660-690 | An instance of the same id on both sides: an offer under the id of our own outgoing transfer is taken, and the peer's cancel of it then ends the outgoing transfer while the incoming one stays |
| Dispatching.MismatchSilent | crates/protocol/src/file.rs:310-313 | A wrong hash frees the slot and deletes the partial file, but nothing is sent to the peer |
| Dispatching.IdsApart | crates/host/src/session.rs:711-720 | Ids the host gives and ids the client gives never meet |
| Dispatching.IdsExactly | crates/host/src/session.rs:711-720 | An id is the low 31 bits of the counter and bit 31 for the side, so different low bits give different ids |
| Dispatchers.TransferSlots.TakeFileReplies | crates/host/src/session.rs:653-709 | Slots, directory and replies after one message are those of the dispatcher the theorems are about |
| Dispatchers.TransferSlots.TakeIncoming | crates/client/src/net.rs:567-617 | The same for what the outgoing transfer left alone |
| Dispatchers.TransferSlots.QueueSend | crates/client/src/net.rs:417-444 | A send is refused while one is going out and otherwise takes the free slot with a fresh id; the incoming transfer is left alone |
| Dispatchers.IdCounter.Next | crates/host/src/session.rs:711-720 | Bit 31 of an id says who gave it; the counter wraps at 32 bits |
| Wire.RoundTrip | crates/protocol/src/message.rs:213-469 | Decoding what was encoded gives the message back if and only if the message is well-formed: text up to 4096 bytes, at most 16 displays of non-zero size and scale, payloads up to 8 MiB |
| Wire.DecodeEncode | crates/protocol/src/message.rs:213-337 | Every well-formed message survives the wire |
| Wire.EncodeDecode | crates/protocol/src/message.rs:339-469 | Only well-formed messages are ever accepted, and re-encoding gives back the bytes received but for the ignored flag bits of a video message |
| Wire.Accepted | crates/protocol/src/message.rs:339-469 | The language accepted: exactly the encodings of well-formed messages, up to the ignored flag bits |
| Wire.Limits | crates/protocol/src/message.rs:70-95 | What is well-formed, in numbers: 4096 bytes of text, 16 displays, none of their sizes 0, 8388608 bytes of payload |
| DecodeErrors.CutShort | crates/protocol/src/message.rs:339-469 | A message cut short at any byte is reported as truncated, never read as another one |
| DecodeErrors.Trailing | crates/protocol/src/message.rs:465-467 | A message with anything behind it is refused as invalid |
| DecodeErrors.UnknownKind | crates/protocol/src/message.rs:463-463 | A type byte of 0 or above 16 is reported as unknown, whatever follows |
| DecodeErrors.BadPressed | crates/protocol/src/message.rs:391-418 | A pressed flag above 1 is invalid |
| DecodeErrors.BadInput | crates/protocol/src/message.rs:384-420 | An input kind of 0 or above 4 is invalid |
| DecodeErrors.TooManyDisplays | crates/protocol/src/message.rs:348-352 | More than 16 displays are invalid |
| DecodeErrors.BadDisplay | crates/protocol/src/message.rs:364-366 | A display without width, height or scale is invalid |
| DecodeErrors.DataTooLong | crates/protocol/src/message.rs:555-561 | A payload announced as longer than 8388608 bytes is invalid |
| Utf8Scalars.ValidExactly | crates/protocol/src/message.rs:563-570 | Text is what Unicode scalar values encode to in UTF-8 (section 3 of RFC 3629), and nothing else is |
| Utf8Scalars.OneReading | crates/protocol/src/message.rs:563-570 | Only one list of scalar values encodes to a text |
| Utf8Scalars.StrExactly | crates/protocol/src/message.rs:563-570 | A string of at most 4096 bytes is read if and only if its bytes encode scalar values, and is refused as not UTF-8 otherwise |
| Utf8Scalars.StrTooLong | crates/protocol/src/message.rs:563-567 | A string announced as longer is invalid |
| Wire.DecodeNormal | crates/protocol/src/message.rs:371-382 | The other seven flag bits of a video message never change what is decoded |
| Wire.LongTextCut | crates/protocol/src/message.rs:594-599 | Text over 4096 bytes does not survive, in whichever message and however many: the peer sees the first 4096 bytes of each, or rejects the message when a cut falls inside a character |
| Wire.DisplayListCanonical | crates/protocol/src/message.rs:348-370 | A display list read is exactly the one written in those bytes, each display shown and named within the limit |
| Wire.PutDisplaysReads | crates/protocol/src/message.rs:224-236 | Displays written one after the other are read back in order |
| WireLayout.Layout | crates/protocol/src/message.rs:16-58 | Every message is written as the documented tables say: type byte, field order, widths, little-endian integers, length prefixes |
| WireLayout.InputLayout | crates/protocol/src/message.rs:49-58 | The same for the four kinds of input event |
| WireLayout.LengthsWrap | crates/protocol/src/message.rs:224-226 | A display count or payload length beyond its field is written modulo its range |
| WireLayout.PutDisplayFields | crates/protocol/src/message.rs:40-44 | The same for one display |
| Bytes.FromToLE | crates/protocol/src/message.rs:573-587 | A value in range is read back from its little-endian bytes |
| Bytes.ToFromLE | crates/protocol/src/message.rs:536-549 | Bytes read as a little-endian value are the bytes of that value |
| Bytes.LittleEndian | crates/protocol/src/message.rs:3-4 | Byte i of a value is its bits from 8*i on: the lowest byte comes first |
| Bytes.TwosComplement | crates/protocol/src/message.rs:585-587 | A negative number is written as its two's complement and read back |
| WireIo.EncodeTo | crates/protocol/src/message.rs:213-337 | The field-by-field writer appends exactly the encoding |
| WireIo.WriteDisplays | crates/protocol/src/message.rs:227-235 | The loop over displays appends exactly their encoding |
| WireIo.WriteInput | crates/protocol/src/message.rs:249-280 | The writer of input events appends exactly their encoding |
| WireIo.WriteStr | crates/protocol/src/message.rs:594-599 | A length and the first 4096 bytes are appended |
| WireIo.WriteData | crates/protocol/src/message.rs:589-592 | A 32-bit length, wrapped, and all bytes are appended |
| WireIo.DecodeFrom | crates/protocol/src/message.rs:339-469 | The cursor-based decoder returns exactly what the function on bytes does, in every error case |
| WireIo.Reader.Take | crates/protocol/src/message.rs:522-530 | The cursor moves over the bytes returned and not at all when too few are left |
| WireIo.Reader.Str | crates/protocol/src/message.rs:563-570 | Text is limited to 4096 bytes and must be UTF-8 |
| WireIo.Reader.Data | crates/protocol/src/message.rs:555-561 | A payload is limited to 8 MiB and must be there |
| WireIo.Reader.DisplayList | crates/protocol/src/message.rs:353-368 | The loop reads the displays in order and stops at the first bad one |
| WireIo.Reader.Input | crates/protocol/src/message.rs:383-422 | One input event is read, or the first error met |
| WireIo.Reader.Body | crates/protocol/src/message.rs:342-464 | One body is read by its type, or the first error met |
| Framing.ReadMessage | crates/protocol/src/message.rs:472-491 | One read takes exactly one frame off the stream, or reports which of length, end of file and body is wrong |
| Framing.WriteMessage | crates/protocol/src/message.rs:493-506 | A message that fits is appended as one frame; a larger one leaves the stream as it was |
| Framing.ReadFrame | crates/protocol/src/message.rs:472-491 | One frame is read back whole, whatever follows |
| Framing.BadLengths | crates/protocol/src/message.rs:484-487 | A length of 0 or above 8388608 is reported with that length, and nothing after it is read |
| Framing.GoodLengths | crates/protocol/src/message.rs:484-490 | A length from 1 to 8388608 whose body is there gives that body to the decoder |
| Framing.FrameBytes | crates/protocol/src/message.rs:497-503 | What is written in front of a message is its length in four bytes, low byte first, up to 8388608 |
| Framing.ReadCutFrame | crates/protocol/src/message.rs:476-489 | A frame missing its last byte or more is an error, never another message |
| Framing.CutStream | crates/protocol/src/message.rs:472-506 | Of a stream cut at any byte the reader gets exactly the messages whose frames are whole, then an error: a clean close when the cut leaves no whole length, a truncated body otherwise |
| Framing.WholeFrames | crates/protocol/src/message.rs:472-506 | Every cut has such a number of whole frames |
| Framing.WholeStream | crates/protocol/src/message.rs:472-506 | A whole stream comes back as it was sent if and only if every message is well-formed |
| AccessUnits.SlicingsAgree | crates/host/src/nal.rs:14-60 | Two ways of slicing the same stream give the same access units and the same rest |
| AccessUnits.AnySlicing | crates/host/src/nal.rs:14-60 | Any slicing of the pipe gives what one read of it all gives |
| AccessUnits.SplitGoesOn | crates/host/src/nal.rs:14-60 | Splitting what was kept together with new bytes goes on exactly where the first split ended |
| AccessUnits.Conserved | crates/host/src/nal.rs:39-59 | Units given up and the rest are the buffer from its first start code on; with fewer than two start codes nothing is given up or dropped |
| AccessUnits.Shape | crates/host/src/nal.rs:22-55 | Each unit has at most one NAL of types 1 to 5 and types 7 and 9 only in front, a new one begins only where it must, the open one stays, and the keyframe flag says whether a type 5 or 7 is inside |
| AccessUnits.EncodedStream | crates/host/src/nal.rs:14-60 | End to end: an encoder's NAL units, with start codes of its choice and any slicing, come out in the one grouping into access units they have, the last group and the last unit waiting for the next |
| Pictures.PicturesCome | crates/host/src/nal.rs:14-60 | End to end in the numbers of the headers an encoder wrote: parts with at most one type 1 to 5, types 7 and 9 in front only, each beginning only where it must, come out as one access unit each, a keyframe if and only if a header of it is 5 or 7; the last part stays with the last NAL unit |
| Pictures.Partition | crates/host/src/nal.rs:25-38 | Every list of NAL units has such parts |
| AccessUnits.ChainNumbers | crates/host/src/nal.rs:27-29 | The grouping, in the numbers of the types |
| AccessUnits.ChainUnique | crates/host/src/nal.rs:25-38 | There is only one way to group NAL units so that each group has at most one slice, opening types in front, and a new group only where it must begin |
| AccessUnits.HasChain | crates/host/src/nal.rs:25-38 | And there always is one |
| AccessUnits.Reopened | crates/host/src/nal.rs:39-42 | Starting again from the kept bytes regains the grouping state |
| AccessUnits.AddAllInv | crates/host/src/nal.rs:25-38 | The grouping invariant holds however many NAL units are added |
| AnnexB.StartCodes | crates/host/src/nal.rs:62-80 | The skipping scanner returns exactly the start-code positions, in order |
| AnnexB.StartsExactly | crates/host/src/nal.rs:62-80 | A position is returned if and only if a start code begins there; a zero byte in front of a short one belongs to it |
| AnnexB.StartBytes | crates/host/src/nal.rs:65-77 | A start code is 00 00 00 01, or 00 00 01 with no zero byte in front; every one is found and nothing else |
| AnnexB.KindBytes | crates/host/src/nal.rs:82-93 | The type is the low five bits of the byte after the start code, or 0 if there is none |
| AnnexB.StartsExtend | crates/host/src/nal.rs:62-80 | More bytes never change the codes already found |
| AnnexB.StartsRestart | crates/host/src/nal.rs:56-80 | Scanning again from a found code finds the same codes |
| AnnexB.RoundTrip | crates/host/src/nal.rs:62-93 | For legal NAL units (section 7.4.1 of ITU-T H.264), each behind a start code of either length (section B.1), the scanner returns exactly the prefix positions, the pieces between them are the units, and the type is the header's low five bits |
| AnnexB.KindOf | crates/host/src/nal.rs:82-93 | The type of a unit is its header's low five bits, whichever start code it has |
| PushBytes.Push | crates/host/src/nal.rs:14-60 | `push_bytes` on a growing, drained buffer returns and keeps exactly what the function the theorems are about does |
| PushBytes.Group | crates/host/src/nal.rs:22-38 | The loop over windows collects positions that are the grouping of all whole NAL units |
| PushBytes.GroupStep | crates/host/src/nal.rs:25-38 | One window is added to the open group, or closes it |
| PushBytes.UnitFrom | crates/host/src/nal.rs:44-54 | The slice from first to last position is the group's bytes, with its keyframe flag; it is never empty |
| PushBytes.UnitsFrom | crates/host/src/nal.rs:43-55 | One unit per closed group, in order |
| PushBytes.NalTypeIsKind | crates/host/src/nal.rs:82-93 | Between two start codes the type depends on the unit's own bytes only |
| PixelLayout.PixelsDisjoint | crates/host/src/capture/screencopy.rs:511-535 | Monitors disjoint in the logical layout are disjoint in the pixel layout, whatever their scales, and keep who is left of and above whom |
| PixelLayout.PlaceAxis | crates/host/src/capture/screencopy.rs:512-531 | The sort-and-place loop puts each region at the greatest edge of all regions wholly before it, in whatever order they are listed |
| PixelLayout.PixelOrigins | crates/host/src/capture/screencopy.rs:511-535 | Both axes are placed so, each by itself |
| PixelLayout.OneLayout | crates/host/src/capture/screencopy.rs:511-535 | The regions determine the pixel layout |
| PixelLayout.PlacesBounded | crates/host/src/capture/screencopy.rs:520-529 | Places and edges stay between the lowest base and the highest base plus all pixels, so they fit 32 bits while those do |
| PixelLayout.OnePlacement | crates/host/src/capture/screencopy.rs:515-530 | There is only one such placement: the visiting order does not show |
| PixelLayout.PermutedPlacement | crates/host/src/capture/screencopy.rs:515-530 | Permuting the regions permutes the origins |
| PixelLayout.SortByStart | crates/host/src/capture/screencopy.rs:515-516 | The order is a permutation of the indices by ascending start |
| PixelLayout.GreatestEdge | crates/host/src/capture/screencopy.rs:520-524 | The maximum over the filtered prefix, or nothing if it is empty |
| PixelLayout.LogicalRect | crates/host/src/capture/screencopy.rs:145-153 | The logical size is at least 1 by 1 and is the one reported when that is positive |
| PixelLayout.LogicalPosition | crates/host/src/capture/screencopy.rs:146-152 | The position is the logical one if there is one and that of the geometry otherwise, whatever else is reported |
| PixelLayout.LogicalSize | crates/host/src/capture/screencopy.rs:147-152 | A reported size counts, each part below 1 becoming 1 by itself; without size and mode it is 1920 by 1080 divided by the scale |
| PixelLayout.ScaledMode | crates/host/src/capture/screencopy.rs:146-152 | Without a reported logical size it is the mode divided by the scale, rounded down, and the position falls back to the geometry |
| PixelLayout.Apart | crates/host/src/capture/screencopy.rs:511-535 | Disjoint regions lie beside or above each other |
| Pointer.PositionsDiffer | crates/host/src/input.rs:178-184 | No two pixels of all displays together share a device position when displays are disjoint and none packs more than 8 pixels in a logical unit |
| Pointer.NeverClamped | crates/host/src/input.rs:178-184 | A pixel its display really has lands among that display's own eighths and the clamp changes nothing |
| PointerWidths.WrittenDiffer | crates/host/src/input.rs:178-184 | No two pixels of disjoint, coarse displays are written as the same position, while the axis ranges are below 2^32 and no 64-bit operation overflows |
| PointerWidths.WrittenExactly | crates/host/src/input.rs:40-47 | Every move a message can ask for is written where it should be if and only if both axis ranges are below 2^31 and the largest coordinate overflows on no display |
| PointerWidths.PixelsWritten | crates/host/src/input.rs:178-184 | Below 2^31 every pixel its display really has is computed without overflow and written where it should be |
| PointerWidths.ProductFits | crates/host/src/input.rs:42-43 | Below 2^31 the product of any coordinate never overflows 64 bits |
| PointerWidths.EnoughPixels | crates/host/src/input.rs:40-47 | Below 2^31 the sum does not either on a display of at least two pixels |
| PointerWidths.OnePixelOverflows | crates/host/src/input.rs:40-47 | On a display of one pixel it can |
| PointerWidths.NarrowKeeps | crates/host/src/input.rs:183-184 | Narrowing keeps every position of a range if and only if the range is below 2^31 |
| PointerWidths.CastsExactly | crates/host/src/input.rs:183-184 | Narrowing and wrapping change a number by a multiple of 2^32 and 2^64 only, into the range of the type |
| Pointer.AxisIncreasing | crates/host/src/input.rs:40-47 | Distinct pixels keep distinct positions in order if and only if there are at most 8 pixels to a logical unit |
| Pointer.AxisExact | crates/host/src/input.rs:40-47 | The position is exactly proportional, rounded down to an eighth |
| Pointer.PositionNumbers | crates/host/src/input.rs:40-51 | In numbers: a pixel goes to the eighth of a logical unit it begins in, counted from the corner of the range |
| Pointer.RangeNumbers | crates/host/src/input.rs:104-125 | The range holds every display and ends at displays, in eighths |
| Pointer.UnknownDisplay | crates/host/src/input.rs:179-184 | A move on a display the device does not know goes to the corner |
| Pointer.RegionById | crates/host/src/input.rs:158-158 | Of several regions with one id the last counts |
| Pointer.InsideAxis | crates/host/src/input.rs:40-47 | A pixel lands inside its region's range |
| Pointer.UinputDevice.constructor | crates/host/src/input.rs:98-125 | The device spans the bounding box of all regions and knows each by its id |
| Pointer.UinputDevice.MoveTo | crates/host/src/input.rs:178-184 | The position is computed in 64 bits, clamped, taken from the origin and narrowed to 32 bits; while an axis range is below 2^31 it is inside that range, and the right one if nothing overflows; a move on an unknown display goes to the origin |
| Pointer.LayoutFits | crates/host/src/input.rs:40-47 | Wrapping arithmetic gives the right position when neither product nor sum overflows |
| Pointer.Extent | crates/host/src/input.rs:104-125 | The range is the tightest one that holds all regions, and never empty |
| FrameInbox.AnyInterleaving | crates/host/src/capture/mod.rs:53-74 | Under every interleaving: slots are exactly the newest undelivered frame of each display, every delivery was such a frame, and a receiver that saw nothing while a slot is filled has a permit stored or a publisher about to notify |
| FrameInbox.StepInv | crates/host/src/capture/mod.rs:48-74 | Every atomic step of publishers, closers and receiver keeps that |
| FrameInbox.FilledIsReceived | crates/host/src/capture/mod.rs:64-73 | With a slot filled and its publisher done, the receiver returns the newest frame of a display within three steps of its own, if and only if it is not about to look at a flag already set; then it ends and leaves the frame |
| FrameInbox.ReceivedMeanwhile | crates/host/src/capture/mod.rs:53-73 | With publishers and notifiers acting in between and nobody closing: a receiver that is trying, or has a permit stored, returns the newest frame of a display by its third step |
| FrameInbox.FrameCanBeLost | crates/host/src/capture/mod.rs:64-73 | A reachable state in which the receiver has ended and a frame published before is still in its slot |
| FrameInbox.OnlyNotifyWakes | crates/host/src/capture/mod.rs:64-74 | A waiting receiver waits on, whatever is done, until somebody notifies |
| FrameInbox.DeliveredInOrder | crates/host/src/capture/mod.rs:53-67 | Per display the deliveries are a subsequence of the publishes, none twice, and the newest undelivered frame is still to come |
| FrameInbox.PutUpdates | crates/host/src/capture/mod.rs:53-60 | Publishing changes the map from displays to newest frames at one display only |
| FrameInbox.PopUpdates | crates/host/src/capture/mod.rs:66-68 | Receiving takes one display's frame out of the map and leaves the others |
| FrameInbox.CloseReleases | crates/host/src/capture/mod.rs:48-51 | The exact condition under which a closer's notification releases a receiver that then goes on alone: not when it has seen the flag unset, holds no permit and is not yet waiting; then it waits |
| FrameInbox.CloseCanBeLost | crates/host/src/capture/mod.rs:64-74 | A reachable state in which the inbox is closed, everybody has notified, and the receiver waits |
| FrameInbox.SlotList.Publish | crates/host/src/capture/mod.rs:53-60 | The search and replace in the list is the map update |
| FrameInbox.SlotList.Pop | crates/host/src/capture/mod.rs:66-68 | The last slot is taken |
| PinLockout.GuessRate | crates/host/src/lockout.rs:20-42 | In any run since the last right PIN, wrong PIN number n >= 10 comes at least 930 + 900*(n-10) seconds after the fifth |
| PinLockout.RunInv | crates/host/src/session.rs:373-411 | Over any run served one at a time, the state is that of the wrong PINs since the last right one; refused and abandoned attempts leave it unchanged |
| PinLockout.CounterCounts | crates/host/src/lockout.rs:27-41 | The counter is the number of wrong PINs since the last right one, and nothing is locked before the fifth |
| PinLockout.FailInv | crates/host/src/lockout.rs:27-36 | A wrong PIN tried when nothing is locked keeps the spacing |
| PinLockout.FirstLocks | crates/host/src/lockout.rs:9-11 | The first locks are 30, 60, 120, 240 and 480 seconds |
| PinLockout.FailTold | crates/host/src/session.rs:402-408 | The time told after a wrong PIN is that of the lock set: none before the fifth, then 30, 60, 120, 240 and 480 seconds, then 900 |
| PinLockout.LongestFromTen | crates/host/src/lockout.rs:32-33 | From the tenth wrong PIN on the lock is 15 minutes |
| PinLockout.RetryIsEnough | crates/host/src/session.rs:373-382 | Waiting the whole seconds told plus one is always enough |
| PinLockout.RetryExactly | crates/host/src/session.rs:373-382 | Waiting exactly the seconds told is enough if and only if the time left is whole seconds or less than one |
| PinLockout.RetryTooEarly | crates/host/src/session.rs:373-382 | An instance in which it is not |
| PinLockout.Lockout.TimeLeft | crates/host/src/lockout.rs:21-25 | Time left, never zero, or nothing |
| PinLockout.Lockout.RecordFailure | crates/host/src/lockout.rs:27-36 | State and lock length after a failure, the counter saturating at 32 bits |
| PinLockout.Lockout.RecordSuccess | crates/host/src/lockout.rs:38-41 | A right PIN forgets all failures |
| I420.FlippedFrame | crates/host/src/capture/screencopy.rs:412-437 | A frame that arrives upside down: each output Y, U and V comes from the mirrored source row, also when the height is odd |
| I420.PackedToI420 | crates/host/src/yuv.rs:14-53 | A frame is made if and only if size and stride allow it, and then it is the three planes the other rows describe; every read is in bounds |
| I420.AcceptsExactly | crates/host/src/yuv.rs:21-33 | What is accepted, in numbers: at least two by two pixels, and enough bytes in a row and in all |
| I420.ConvertRow | crates/host/src/yuv.rs:39-51 | The inner loop fills one row of Y and, on even rows, one of U and V |
| I420.ConvertPixel | crates/host/src/yuv.rs:41-49 | The body of the inner loop |
| I420.LumaByte | crates/host/src/yuv.rs:41-44 | Each Y comes from its own pixel |
| I420.LumaFrom | crates/host/src/yuv.rs:41-44 | In bytes, per pixel order: where a pixel begins, which of its bytes are red, green and blue, and the Y they give |
| I420.ChromaBytes | crates/host/src/yuv.rs:45-49 | Each U and V comes from the top left pixel of its two-by-two block |
| I420.ChromaFrom | crates/host/src/yuv.rs:45-49 | The same for U and V, from the top left pixel of the block, and where they are in the frame |
| I420.FrameSize | crates/host/src/yuv.rs:4-8 | The frame has `i420_size` bytes |
| I420.LimitedRange | crates/host/src/yuv.rs:165-177 | Y is in 16..235 and U and V in 16..240 for every colour (section 2.5 of ITU-R BT.601), so the clamp never does anything |
| I420.Greys | crates/host/src/yuv.rs:165-173 | Greys have no colour; black and white are the ends of the range |
| I420.FlipRows | crates/host/src/capture/screencopy.rs:537-542 | The rows are mirrored in place and the bytes after them left alone |
| I420.SwapSlices | crates/host/src/capture/screencopy.rs:539-540 | Two stretches of one buffer change places and nothing else changes |
| I420.FlipInvolution | crates/host/src/capture/screencopy.rs:537-542 | Flipping twice changes nothing |
| I420.FlippedPixel | crates/host/src/capture/screencopy.rs:422-430 | After a flip a pixel is that of the mirror row |
| I420.FlipBytes | crates/host/src/capture/screencopy.rs:537-542 | After a flip every byte of a row is that of the mirror row at the same place |
| I420.FlippedFrom | crates/host/src/capture/screencopy.rs:412-437 | The Y of a frame that arrives upside down, by the bytes of the mirror row |

## Left out

- FileSenders.FileSender.Poll: assumes that reading the source file succeeds and that the file does not change during the transfer. In the program an I/O error in the middle of `poll` drops chunks that are already counted in the next offset.
- FileReceivers.FileReceiver.Handle: assumes that writing, syncing and renaming succeed, and that nobody else touches the download directory.
- FileNames.LastSegmentOnly: models `Path::file_name` for Unix paths of bytes; other path syntaxes are not modelled.
- PixelLayout.PlaceAxis: the base of a region with nothing before it, which the program computes in floating point and rounds, is an arbitrary function of the region; no theorem depends on it.
- PixelLayout.PixelOrigins: uses unbounded integers where the program casts lengths and sums to `i32`; beyond the bound of PlacesBounded, wrapping is not modelled.
- Pointer.UinputDevice.MoveTo: covers pointer moves only, not buttons, wheel and keys. It does not promise a position inside the axis range when that range is 2^31 or more, since the program's narrowing wraps there. 64-bit overflow wraps in the model, as in a release build; a debug build stops instead.
- I420.PackedToI420: fills three plane arrays that are joined at the end, where the program splits one buffer into three slices; sizes are unbounded where the program saturates.
- Dispatchers.IdCounter.Next: ids repeat after 2^31 transfers of one process; no theorem needs them to be fresh.
- Framing.ReadMessage: a connection is its remaining bytes and an end; other I/O errors and partial progress of asynchronous reads are not modelled.
- FrameInbox.AnyInterleaving: one receiver, as the program has it, and `Notify` as its atomic steps: store or use one permit, wake the waiter. Nothing is said about fairness between displays, since the last slot is taken first.
- TLS, SPAKE2, HMAC and SHA-256: libraries.
- The handshake around `authenticate`: its timeout and the fixed delay after a wrong PIN, which only make guessing slower.
- Settings, status files, windows, the panel and the installer: no protocol behaviour.
- Capture, encoder and decoder back ends, Wayland, PipeWire, portal and uinput calls: foreign code.
- `nv12_to_i420`, `yuy2_to_i420` and `copy_i420`: the same index scheme as the conversion modelled here.
- Whether an access unit is a full picture when a picture has several slices: the splitter starts a new unit at every slice.
- UI events and logging in the client's dispatcher: they do not influence the transfers.
