# Verified model of the UART link and Minecraft server core

A Minecraft client reaches a microcontroller through a TCP-to-UART bridge. The Rust bridge and the C
firmware speak a small link protocol over a slow, lossy serial line; on top of it the firmware implements a
Minecraft 1.8 server core. This project models that stack in Dafny and proves what it promises: exactly
once, in-order delivery within an epoch, whole frames on the wire, agreement after a reset, two codecs and
two parsers that mean the same, a server whose outcome does not depend on how bytes are chunked, and number
conversions with exact error bounds.

The default firmware profile is modelled: protocol compression on, map chunks from the compressed image, a
512-byte staging buffer. `dafny verify dfyconfig.toml` checks everything.

## How it is organised

Where the source works by changing things step by step, there are two layers. A module of functions says
what an operation means on values, and the properties are proved about those functions. A second module,
usually named `...Loops`, holds classes, arrays and loops in the source's own form; every method there is
proved to perform exactly the transition of the first layer.

- Link codec: `Crc`, `CrcDivision` (the checksum as a remainder), `Cobs`, `CobsLoops`, `LinkCodec`.
- Link parsers: `LinkParser` (split at zero, and the byte automaton), `LinkParserLoops` (both parsers).
- Transmit side: `RingBuffer`, `TxMux` (two rings, control first), `TxRuns`, `TxPump`, `TxStale` (nothing from
  before a reset is sent), `MainLoopRuns`, `TxPumpLoops`.
- Session and protocol: `LinkSession`, `LinkSessionLoops`, `LinkSessionRuns`, `C2mSender`, `C2mProtocol`, `C2mProgress`, `Handshake`,
  `HandshakeRefines`, `M2c`.
- Movement filter of the bridge: `MovementFilter`.
- Server: `VarInt`, `Packet`, `Server`, `ServerReads` (packets given by their fields), `ServerFolds` (chunking), `ServerPartial`
  (incomplete frames), `ServerRuns` (invariants over runs), `ServerTicks` (what ticks get done), `ServerStream` (what arriving
  bytes bring about), `ClientView` (a reader for what the server sends), `ServerLoops`.
- Commands and numbers: `Commands`, `Text`, `Decimal`, `DecimalLoops`, `Fixed2`, `Div64`, `Arith`.

Protocols are step systems. In `C2mProtocol`, `Handshake` and `M2c` each direction is a FIFO channel from
which any frame may be lost at any time; the environment chooses losses, retransmissions, short reads and
when the server consumes. FIFO order is assumed, as the serial line gives it: credit is an absolute value,
so a reordered acknowledgement could overdraw it.

## Facts about the code worth knowing

- Delivery is exactly once per epoch, that is from a completed reset handshake to the next RESET, ERROR or
  failed receive. A reset that keeps pending bytes may send again what the firmware had already accepted.
- Sequence number 65535 is never used for data. Without that, the acknowledgement number 0 that every
  unsolicited credit frame carries could release a frame (`C2mProtocol.ZeroAckReleases` says exactly when).
- The movement filter reads the second VarInt as a data length even before compression is agreed: a Login
  Start whose name has three to six bytes is dropped, and no other (`MovementFilter.LoginStartForwarded`).
- A packet id above 0x7f is refused only if its frame arrives in pieces (`ServerFolds.SplitFiltered`);
  `ServerFolds.DrainIsFold` gives the exact condition under which a receive call succeeds.
- A gap of exactly 65536 lost M2C frames goes unnoticed (`M2c.LongGapBreaksPrefix` is such a run); every gap that is not a
  multiple of 65536 ends the session (`M2c.GapDetected`).
- `mc_round_shift_u64` rounds correctly except on a shift by 64 of a value above 2^63
  (`Fixed2.RoundShiftIsRounding`), and `mc_binary_to_fixed2` is exact except on three families of inputs
  (`Fixed2.BinaryIsExact`); its callers, with 53-bit and 24-bit mantissas, never get there.
- A client's handshake empties the server's own output ring, so not every byte that leaves the ring was framed;
  the main loop then also drops the data frames not yet begun.
- A handshake with an unknown next state is rejected but still resets the session, leaving old output in
  place; the framing invariant survives it.
- A Login Start whose name has no control bytes always logs in, but a name such as the bytes 0, 7, 7, 2 also reads
  as a handshake and is taken for one (`ServerReads.MistakenLogin`).
- A chat line that does not fit in 159 characters together with its author's name makes the receive call
  fail; every command is answered (`Commands.Answered`).

## Model

| member | source | states |
|---|---|---|
| Crc.UpdateLoop | core/src/mc_link.c:20-38 | the two loops on a 16-bit word compute the register update of the whole string |
| Crc.ShiftLoop | core/src/mc_link.c:28-34 | the inner loop on a 16-bit word is eight steps of the polynomial shift register |
| Crc.ShiftWordIsShift | core/src/mc_link.c:28-34 | shifting the word left and XORing 0x1021 if a bit fell out is, on its bits, one step of the shift register |
| Crc.UpdateAppend | core/src/mc_link.c:233-236 | a CRC taken piece by piece equals the CRC of the concatenation |
| Crc.UpdateIsLfsrRun | core/src/mc_link.c:20-38 | the update equals feeding the message bits, most significant first, into a feedback register |
| Crc.LfsrRunLinear | core/src/mc_link.c:20-57 | the register of a sum of two messages is the sum of the registers |
| Crc.BurstDetected | core/src/mc_link.c:20-57 | two equally long strings that differ only inside 16 consecutive bits never have the same CRC |
| CrcDivision.RunDivides | core/src/mc_link.c:20-38 | the shift register performs long division over GF(2) by x^16 + x^12 + x^5 + 1: quotient times divisor plus register is the message |
| CrcDivision.CrcIsRemainder | core/src/mc_link.c:6-57 | a word is the checksum of a message exactly if it is the remainder of the message, with 16 zero bits behind it and its first 16 bits complemented, on division by that polynomial |
| CrcDivision.CheckValue | core/src/mc_link.c:5-57 | the checksum of the digits 1 to 9 is 0x29B1, the published check value of CRC16/CCITT-FALSE |
| Cobs.DecodeEncode | core/src/mc_link.c:147-188 | decoding an encoding gives the data back, for all data |
| Cobs.EncodeHasNoZero | core/src/mc_link.c:59-145 | an encoding contains no zero byte |
| Cobs.EncodeLength | core/src/mc_link.c:59-145 | an encoding is longer than the data by at least one and at most one byte per started block of 254 |
| Cobs.StreamIsEncode | core/src/mc_link.c:88-145 | the streaming encoder, with its deferred code byte and its lazily opened block, gives the encoding defined by blocks |
| Cobs.FeedAppend | core/src/mc_link.c:114-126 | feeding the stream in pieces is feeding the concatenation |
| CobsLoops.StreamEncoder.WriteByte | core/src/mc_link.c:88-112 | one byte moves the encoder's buffer and indices to the next stream state, or reports a full buffer |
| CobsLoops.StreamEncoder.Write | core/src/mc_link.c:114-126 | a slice is written completely or the buffer was too small |
| CobsLoops.StreamEncoder.FinishBlock | core/src/mc_link.c:128-145 | the finished buffer holds the stream's encoding |
| CobsLoops.DecodeInto | core/src/mc_link.c:147-188 | the C decoder succeeds exactly when the string decodes and fits, and then writes the decoded bytes |
| CobsLoops.EncodeVector | bridge/src/link.rs:240-276 | the Rust encoder yields the same encoding for every input |
| CobsLoops.DecodeVector | bridge/src/link.rs:278-304 | the Rust decoder accepts the same strings with the same result |
| LinkCodec.WireShape | core/src/mc_link.c:190-254 | every frame fits 512 bytes and has its only zero byte at the end |
| LinkCodec.UnwireWire | core/src/mc_link.c:256-328 | every encoded frame decodes to its type, numbers and payload |
| LinkCodec.WireInjective | core/src/mc_link.c:190-254 | frames with equal bytes are equal |
| LinkCodec.BurstRejected | core/src/mc_link.c:303-308 | a frame whose content was changed inside 16 consecutive bits is rejected |
| LinkCodec.EncodeInto | core/src/mc_link.c:190-254 | the C encoder writes exactly the frame's bytes, failing with length 0 exactly on a long payload or a small buffer |
| LinkCodec.StreamPieces | core/src/mc_link.c:240-246 | header, payload and CRC streamed one after the other are the encoding of all three |
| LinkCodec.DecodeWithScratch | core/src/mc_link.c:256-319 | the C decoder accepts exactly the strings that unwire, with the same frame |
| LinkCodec.EncodeVector | bridge/src/link.rs:125-153 | the Rust encoder gives the same bytes as the C encoder, and refuses exactly long payloads and unknown types |
| LinkCodec.DecodeOne | bridge/src/link.rs:306-354 | the Rust decoder accepts the same strings with the same frame |
| LinkParser.ScanAppend | bridge/src/link.rs:203-237 | the byte automaton can be fed in any pieces |
| LinkParser.ScanIsSplit | bridge/src/link.rs:203-237 | the automaton finds what splitting at zero bytes, dropping segments of 512 or more and decoding the rest finds |
| LinkParser.Resynchronises | core/src/mc_link.c:386-453 | from any state, a delimiter followed by a valid frame yields that frame last and leaves nothing behind |
| LinkParser.WireScans | bridge/src/link.rs:203-237 | from a clean state a frame's bytes yield that frame and nothing else |
| LinkParserLoops.BridgeDecoder.Feed | bridge/src/link.rs:203-237 | the Rust decoder's events and new state are those of the automaton |
| LinkParserLoops.FirmwareParser.TryOne | core/src/mc_link.c:349-384 | the first delimited piece is consumed and decoded, an overfull buffer starts discarding, otherwise nothing changes |
| LinkParserLoops.FirmwareParser.Feed | core/src/mc_link.c:386-453 | one call returns the next buffered frame or the next frame of the input; the remainder is stashed without loss, or given up up to the next delimiter if it is longer than the buffer |
| LinkParserLoops.FirmwareParser.Receive | firmware/mc_link_session.c:317-346 | feed, then feed nothing until no frame comes: all frames of the chunk, and the automaton's state |
| LinkParserLoops.FirmwareFrames | core/src/mc_link.c:330-453 | for every stream in chunks of at most 512 bytes the C parser yields the frames of the split stream |
| LinkParserLoops.BridgeFrames | bridge/src/link.rs:192-238 | for every chunking the Rust decoder yields those same frames |
| RingBuffer.Ring.Push | core/src/mc_ringbuf.c:22-31 | appends one byte unless full |
| RingBuffer.Ring.Pop | core/src/mc_ringbuf.c:33-42 | takes the oldest byte |
| RingBuffer.Ring.Write | core/src/mc_ringbuf.c:44-51 | appends as much of the source as fits |
| RingBuffer.Ring.Read | core/src/mc_ringbuf.c:53-60 | what is read and what remains are the old contents |
| RingBuffer.Ring.Peek | core/src/mc_ringbuf.c:62-69 | the byte at an offset of the queue, without changing it |
| RingBuffer.Ring.Drop | core/src/mc_ringbuf.c:71-78 | forgets the oldest bytes |
| RingBuffer.Ring.Truncate | firmware/mc_link_session.c:169-176 | forgets the newest bytes |
| RingBuffer.Ring.Restore | core/src/mc_server.c:254-266 | after append-only writes, putting back head, tail and length recovers the saved contents |
| TxMux.ReadRefines | firmware/mc_link_session.c:400-447 | a partial read emits the next bytes of the frame begun, or of the next frame, control first |
| TxMux.EnqueueExactly | firmware/mc_link_session.c:42-61 | a frame is queued whole exactly if ring and frame together fit 2048 bytes |
| TxMux.SelectRefines | firmware/mc_link_session.c:400-430 | a frame is begun only when none is under way |
| TxMux.DropRefines | firmware/mc_link_session.c:189-216 | truncating a ring removes exactly the frames not yet begun |
| TxRuns.RunRefines | firmware/mc_link_session.c:400-472 | every run of the two rings is a run of the frame log with the same output |
| TxRuns.FrameAtomicity | firmware/mc_link_session.c:400-472 | for every interleaving of queueing, partial reads, resets and drops the output is whole frames and at most one frame prefix, each ring's frames in queued order |
| TxRuns.ReceiverFindsFinishedFrames | firmware/mc_link_session.c:400-447 | a receiver's parser finds exactly the finished frames and never an error |
| TxPump.PumpStepKeeps | firmware/main.c:219-302 | every pump call and every drop keeps the staged frame accounted for |
| TxPump.WritesAllItCan | firmware/main.c:219-302 | a write ends only because everything staged is out, the UART takes no more or the budget is used up, and keeps exactly the rest |
| TxPump.UartAtomicity | firmware/main.c:59-86 | with any budget and any short writes the UART sees whole encoded frames and at most one prefix of the staged one; a receiver's parser finds exactly those frames and no error; per ring they are queued frames in queued order, and no control frame begun is missing |
| TxStale.StagedDropped | firmware/main.c:59-86 | a staged data frame of which nothing was written is taken back; a frame that was begun and every control frame stay |
| TxStale.NothingStale | firmware/main.c:70-86 | over every run with a drop in it, each data frame the UART sees or that is staged was begun before the drop or queued after it |
| MainLoopRuns.StepIsPump | firmware/main.c:140-302 | every session call, pump tick, output reset and connection reset of the main loop is a run of the pump's operations with the same bytes written |
| MainLoopRuns.MainLoopAtomicity | firmware/main.c:140-324 | the same of the UART for every sequence of session calls, pump ticks, output resets and connection resets from initialisation |
| MainLoopRuns.ResetDropsStaged | firmware/main.c:70-143 | an output reset and a connection reset both empty the data ring and take back exactly a staged data frame that was not begun |
| MainLoopRuns.NothingStaleSent | firmware/main.c:70-324 | over every run of the main loop with either reset in it, each data frame on the UART was begun before that reset or queued after it |
| TxPumpLoops.MainLoop.PumpLinkTx | firmware/main.c:219-302 | the pump with its static buffer and position performs the modelled step |
| TxPumpLoops.MainLoop.StagedIsData | firmware/main.c:59-68 | recognises an unwritten staged data frame by decoding it |
| TxPumpLoops.MainLoop.DropStaleLinkTxData | firmware/main.c:70-86 | drops queued data, and a staged data frame only if none of it was written |
| LinkSessionRuns.CallIsRun | firmware/mc_link_session.c:281-472 | every call on a session acts on its rings as a run of multiplexer operations |
| LinkSessionRuns.SessionAtomicity | firmware/mc_link_session.c:281-472 | over every sequence of calls from initialisation the bytes read out are whole frames and at most one prefix, and a receiver's parser finds exactly the finished frames |
| LinkSessionRuns.ReachableBounded | firmware/mc_link_session.c:400-472 | in every reachable session at most 512 bytes of the frame begun are still to be sent |
| LinkSessionRuns.ResetAlwaysAnswered | firmware/mc_link_session.c:242-250 | in every reachable session RESET_ACK and READY fit the control ring behind the frame begun, counters and receive ring are cleared and nothing else is left to send |
| LinkSession.HandleKeepsValid | firmware/mc_link_session.c:281-315 | every handled frame keeps the session's bounds |
| LinkSession.HelloNegotiates | firmware/mc_link_session.c:218-240 | bytes 0-1, 2-3 and 4-5 of HELLO become payload limit, credit limit and rate profiles: refused exactly if one of the first two is 0, else the smaller payload and credit, the common profiles and always profile 0, under fresh counters |
| LinkSession.HelloRefused | firmware/mc_link_session.c:218-240 | refused is exactly a HELLO that is not six bytes long or asks for a payload or credit of 0 |
| LinkSession.DataAnswered | firmware/mc_link_session.c:252-279 | exactly which data frame is accepted, acknowledged again, or refused with which error, and which refusals end the receive call |
| LinkSession.ChunkGoesOn | firmware/mc_link_session.c:317-346 | the frames of a chunk are handled one after the other, and what comes behind a failure or a cleared parser is lost |
| LinkSession.ChunkOfOne | firmware/mc_link_session.c:218-250 | an answered RESET and an accepted, answered HELLO clear the parser, and no other frame does |
| LinkSessionLoops.Link.Queue | firmware/mc_link_session.c:42-61 | a frame is appended whole or not at all |
| LinkSessionLoops.Link.OnHello | firmware/mc_link_session.c:218-240 | the handler performs the HELLO transition, replies included, and clears the parser exactly on a valid HELLO |
| LinkSessionLoops.Link.OnReset | firmware/mc_link_session.c:242-250 | the handler performs the RESET transition and leaves a clean parser |
| LinkSessionLoops.Link.OnData | firmware/mc_link_session.c:252-279 | accept, duplicate, overflow, sequence and length cases each answer as modelled |
| LinkSessionLoops.Link.OnFrame | firmware/mc_link_session.c:281-315 | the dispatcher performs the modelled transition for every type |
| LinkSessionLoops.Link.ReceiveBytes | firmware/mc_link_session.c:317-346 | the frames of a chunk are handled in order, up to and including the first that fails or clears the parser; the parser ends clean after a clearing frame and where the chunk ends otherwise |
| LinkSessionLoops.Link.OnConsumed | firmware/mc_link_session.c:348-355 | queues an unsolicited credit with acknowledgement 0 |
| LinkSessionLoops.Link.OnServerError | firmware/mc_link_session.c:357-367 | queues the error, and if it fitted resets counters, rings and parser and queues READY; if not, nothing changes |
| LinkSessionLoops.Link.TakeServerTx | firmware/mc_link_session.c:369-398 | moves one frame's worth of server output into the data ring |
| LinkSessionLoops.Link.ReadTx | firmware/mc_link_session.c:400-447 | the read loop is the modelled multiplexer read |
| LinkSessionLoops.Link.DropQueuedData | firmware/mc_link_session.c:459-472 | drops queued data frames, keeping one already begun |
| C2mSender.Bridge.NextFrameToSend | bridge/src/c2m.rs:59-78 | a data frame with the first pending bytes and the next number, nothing while one is outstanding or no credit is left, and a refusal once number 65535 is reached |
| C2mSender.Bridge.Sent | bridge/src/c2m.rs:80-102 | the frame becomes outstanding and its credit is spent |
| C2mSender.Bridge.Acked | bridge/src/c2m.rs:104-127 | the method performs the modelled acknowledgement: credit first, then the release if the number matches |
| C2mSender.Bridge.PayloadLen | bridge/src/c2m.rs:153-168 | the least of pending bytes, credit and negotiated payload |
| C2mSender.Bridge.ResetLinkStatePreservingPending | bridge/src/c2m.rs:52-57 | unacknowledged bytes stay pending under fresh counters |
| C2mSender.SoundKept | bridge/src/c2m.rs:39-127 | pushing, sending, acknowledging and resetting keep the outstanding bytes the encoding of the first pending bytes |
| C2mSender.SentFrame | bridge/src/c2m.rs:59-102 | a sent frame is outstanding as it was sent, carries the first pending bytes under the next number, and is paid for out of the credit |
| C2mSender.AckGrants | bridge/src/c2m.rs:104-127 | every acknowledgement replaces the credit; only the one with the next number, modulo 65536, releases the bytes |
| C2mSender.Bridge.Retransmission | bridge/src/c2m.rs:133-143 | what is sent again decodes to the data frame with the outstanding number and the first pending bytes |
| C2mProtocol.NextKeeps | bridge/src/c2m.rs:59-127 | every step of sender, firmware, server and lossy channels keeps the protocol invariant |
| C2mProtocol.EpochDelivery | firmware/mc_link_session.c:252-279 | over every run the bytes written are an in-order, exactly-once prefix of the bytes pushed, bytes leave the sender only after being written, no error is ever raised, and an idle sender's credit is covered by free space |
| C2mProtocol.WritesOnlyOutstanding | firmware/mc_link_session.c:252-279 | nothing but the outstanding frame is ever written, whatever duplicates arrive |
| C2mProtocol.CreditTaken | bridge/src/c2m.rs:104-127 | in every state of an epoch the next acknowledgement's credit is the sender's credit afterwards, matching or not |
| C2mProtocol.EndsExactly | firmware/mc_link_session.c:252-279 | an epoch ends from inside exactly if the sender's numbers are used up or a reply does not fit the control ring; no lost, late or repeated frame ends it |
| C2mProtocol.CreditFrameReleasesNothing | firmware/mc_link_session.c:348-355 | an unsolicited credit frame never releases a frame |
| C2mProtocol.ZeroAckReleases | bridge/src/c2m.rs:59-78 | an acknowledgement of 0 would release a frame exactly if it had number 65535, which is never sent |
| C2mProgress.NextCanComplete | bridge/src/c2m.rs:59-127 | from every live state of an epoch with nothing outstanding, bytes pending and a number left, some course of events delivers the next bytes, once, unless the sender is stalled |
| C2mProgress.StalledForever | firmware/mc_link_session.c:348-355 | a stalled sender (no credit, ring empty, nothing under way that would bring credit) never delivers a byte again, whatever happens, so the condition is exact |
| C2mProgress.OutstandingCanComplete | bridge/src/session.rs:367-392 | from every live state of an epoch with a frame outstanding, whatever is under way or lost, some course of events completes that frame exactly once |
| C2mProgress.HandshakeCanComplete | bridge/src/handshake.rs:144-254 | from every state in which RESET has just been sent some course of events returns a ReadyState |
| Handshake.ReadyUsable | bridge/src/handshake.rs:17-35 | which READY payloads the bridge accepts, by their six fields, and what it takes over |
| Handshake.FirmwareReadyAccepted | bridge/src/handshake.rs:17-35 | every READY the firmware sends passes the bridge's checks with its own values |
| Handshake.AwaitReady | bridge/src/handshake.rs:144-254 | the wait returns at the first usable READY after the matching RESET_ACK, ignoring everything else |
| Handshake.NextKeeps | firmware/mc_link_session.c:189-250 | every step with arbitrary stale frames keeps the handshake invariant |
| Handshake.ResetAgreement | bridge/src/handshake.rs:144-254 | when the bridge returns, the firmware's counters are zero, all rings and channels are free of earlier traffic, the values agree, and the delivery guarantee starts, whatever the sender was in the middle of |
| Handshake.MessageIsFrame | bridge/src/link.rs:169-182 | the bridge treats a READY given by its fields as it treats the frame that carries their bytes |
| HandshakeRefines.HandlerRefines | firmware/main.c:151-178 | if the session's rings encode the handshake's queues, they still do after any received frame has been handled and the main loop has reset the connection where it must |
| HandshakeRefines.ConsumedRefines | firmware/mc_link_session.c:348-355 | the same when the server reads and credit is announced |
| HandshakeRefines.FailureRefines | firmware/main.c:180-200 | the same when the server fails on a packet, whatever of ERROR and READY fits |
| HandshakeRefines.QueueDataRefines | firmware/mc_link_session.c:369-398 | the same when server output becomes a data frame |
| HandshakeRefines.OutputResetRefines | firmware/main.c:205-222 | the same when the server's request to drop its output is carried out: queued data goes, a frame begun does not |
| HandshakeRefines.EmitRefines | firmware/mc_link_session.c:400-430 | the same when the next frame is begun, control first; that frame is the encoding of the message put on the wire |
| M2c.ServerBytesAreFramed | firmware/mc_link_session.c:369-398 | the link takes bytes from the server's ring only inside one complete queued frame |
| M2c.NextKeeps | bridge/src/session.rs:118-134 | producing, emptying, queueing, losing and taking keep the numbering invariant |
| M2c.ClientSeesPrefix | bridge/src/session.rs:40-56 | with gaps below 65536 frames while the session lives, the client's bytes are a prefix of the bytes that left the server's ring in frames |
| M2c.GapDetected | bridge/src/session.rs:40-56 | a gap ends the session exactly if it is not a multiple of 65536 |
| M2c.LongGapUnnoticed | bridge/src/session.rs:40-56 | after exactly 65536 lost frames the next one is written as if nothing were missing |
| M2c.LongGapBreaksPrefix | bridge/src/session.rs:40-56 | a concrete run: 65536 ones and a two are sent, all but the last frame are lost, and the client gets the two, which is no prefix |
| VarInt.DecodeEncode | core/src/mc_varint.c:3-43 | every 32-bit value reads back, with anything behind it |
| VarInt.EncodeLength | core/src/mc_varint.c:3-21 | one to five bytes, by size, and a fifth byte below 16 |
| VarInt.DecodeFits | core/src/mc_varint.c:23-43 | every accepted encoding is a 32-bit value |
| VarInt.EncodeInto | core/src/mc_varint.c:3-21 | the loop writes the encoding or reports a small buffer |
| VarInt.DecodeLoop | core/src/mc_varint.c:23-43 | the loop accepts and decodes exactly as defined |
| MovementFilter.ReadVarIntLoop | bridge/src/c2m.rs:231-246 | the bridge's own reader: value, incomplete or invalid |
| MovementFilter.Filter.PushFiltered | bridge/src/c2m.rs:170-208 | the drain loop forwards, drops and keeps exactly as the stream's cutting says |
| MovementFilter.CutAppend | bridge/src/c2m.rs:170-208 | cutting can stop at any byte and go on later |
| MovementFilter.FilterIsFramewise | bridge/src/c2m.rs:170-271 | for every chunking of a well-formed stream the forwarded bytes are the complete non-movement frames, the buffer is the tail, and nothing is lost or duplicated |
| MovementFilter.FrontExactly | bridge/src/c2m.rs:170-208 | a length of up to 8192 makes a frame as soon as its bytes are there, and a longer one is nonsense |
| MovementFilter.NonsensePassedOn | bridge/src/c2m.rs:210-214 | from the first bytes that are no frame on, everything is passed on unfiltered, nothing is kept, and every byte is accounted for |
| MovementFilter.DroppedExactly | bridge/src/c2m.rs:248-271 | of frames laid out by data length, packet id and rest, dropped are exactly those with data length 0 and id 3 to 6 |
| MovementFilter.ShortForwarded | bridge/src/c2m.rs:248-271 | frames that end before a packet id or whose numbers do not end are forwarded |
| MovementFilter.StatusForwarded | bridge/src/c2m.rs:248-271 | a status request and a status ping are forwarded |
| MovementFilter.LoginStartForwarded | bridge/src/c2m.rs:248-271 | a Login Start is forwarded exactly if its name does not have three to six bytes |
| Packet.ClassifyFrame | core/src/mc_server.c:1117-1136 | a frame is ready exactly when it can be read, with the same length |
| Packet.ReadyReads | core/src/mc_packet.c:275-292 | the two readers agree on every buffer and every length |
| Packet.ClassifyExtend | core/src/mc_server.c:1117-1136 | a verdict other than "need more" never changes |
| Packet.ReadFramed | core/src/mc_packet.c:129-143 | a framed body reads back whatever follows |
| Packet.CutContinues | core/src/mc_server.c:1185-1247 | cutting a stream into frames can stop anywhere and continue |
| Packet.CutFrameAll | core/src/mc_packet.c:129-143 | framing bodies and cutting the stream gives the bodies |
| Packet.FrameLenExact | core/src/mc_packet.c:145-168 | the length helpers give the exact frame size, and 0 exactly for what cannot be sent |
| Packet.CompressedReads | core/src/mc_packet.c:251-273 | a compressed-format packet gives back its data length and body |
| ServerReads.HandshakeUnderstood | core/src/mc_server.c:883-914 | outside play a handshake laid out by its fields always starts a fresh status or login session, or is rejected with a reset for any other next state |
| ServerReads.HandshakeAndMore | core/src/mc_server.c:883-914 | a handshake laid out by its fields gives back its next state, and with anything behind its last field it is no handshake |
| ServerReads.LoginUnderstood | core/src/mc_server.c:1015-1061 | for every name: a Login Start enters play under the name up to a NUL exactly if it is neither empty nor too long and both answers fit, unless its bytes also complete a handshake, and then it is one |
| ServerReads.NamesLogIn | core/src/mc_server.c:883-1061 | a name without control bytes, non-ASCII ones included, is never taken for a handshake |
| ServerReads.MistakenLogin | core/src/mc_server.c:883-914 | a concrete name that is |
| ServerReads.MovementUnderstood | core/src/mc_server.c:916-975 | each movement packet laid out by its fields stores exactly those fields |
| ServerReads.ChatUnderstood | core/src/mc_server.c:1081-1095 | a chat packet is carried out as its text is answered |
| ServerReads.CStringEnds | core/src/mc_server.c:69-82 | a name is what comes before its first NUL |
| ServerFolds.DrainIsFold | core/src/mc_server.c:1185-1247 | a receive succeeds exactly if the stream cuts, every frame is handled and the tail is not refused; the result is then the fold of the handler over the frames, and the tail |
| ServerFolds.ReceiveAllIsFold | core/src/mc_server.c:1185-1247 | a chunking succeeds exactly if at the end of every chunk the stream cuts, its frames are handled, its tail is not refused and the leftover left room; the result is then the fold and the tail |
| ServerFolds.Confluence | core/src/mc_server.c:1185-1247 | two chunkings of one stream without a failed call end in the same state, output and leftover |
| ServerFolds.WholeFramesNotFiltered | core/src/mc_server.c:1138-1183 | whole frames are never refused by the check on partial frames |
| ServerFolds.SplitFiltered | core/src/mc_server.c:1138-1183 | a concrete frame accepted whole and refused in pieces |
| ServerPartial.PlainPartArrives | core/src/mc_server.c:1138-1183 | outside play, for every frame and every place to cut it: the beginning is kept, or the call fails, exactly if the whole packet id is there and above 0x7f |
| ServerPartial.CompressedPartArrives | core/src/mc_server.c:1138-1183 | in play the same behind the data length, and also exactly if the data length is there and not 0 |
| ServerPartial.EndlessRefused | core/src/mc_server.c:1138-1183 | a packet id or data length that does not end after five bytes is refused |
| ServerPartial.EndlessLengthFails | core/src/mc_server.c:1117-1136 | neither may a frame's length go on for more than five bytes |
| ServerStream.UncompressedTaken | core/src/mc_server.c:1215-1234 | with compression on, data length 0 is read off a frame, the packet behind it is handled, and the stream goes on behind the frame |
| ServerStream.DeflatedRefused | core/src/mc_server.c:1215-1234 | with compression on, any nonzero data length fails the call and changes nothing else |
| ServerStream.NoDataLengthRefused | core/src/mc_server.c:1215-1234 | so does a frame whose data length is missing or does not end |
| ServerStream.PlainTaken | core/src/mc_server.c:1215-1234 | with compression off, the frame's body is the packet |
| ServerStream.KeepAliveArrives | core/src/mc_server.c:1063-1079 | on the bytes received: a keepalive answer with any id clears the pending keepalive, one with a byte too many is refused |
| ServerStream.OthersIgnored | core/src/mc_server.c:1097-1115 | on the bytes received: packets with ids of no use in play change nothing, whatever they carry |
| ServerStream.MovementsStored | core/src/mc_server.c:916-975 | on the bytes received: each movement packet laid out by its fields is stored in position, angles and ground flag, field by field |
| ServerStream.MovementsRefused | core/src/mc_server.c:916-975 | on the bytes received: a movement packet of any other length fails the call and changes nothing |
| ServerStream.ChatRefused | core/src/mc_server.c:94-111 | on the bytes received: chat with control bytes, of 160 bytes or more, or with bytes behind it fails the call and changes nothing |
| ServerStream.SaidArrives | core/src/mc_server.c:1081-1095 | from the bytes received to the client: chat that is no command is read by the client as the author's name in angle brackets and the message, and changes nothing |
| ServerStream.TeleportArrives | core/src/mc_server.c:696-740 | from the bytes received to the player: `/tp` puts x, y and z within 2^-27 of the three numbers typed, in that order, keeps the angles, and tells the client that very position; with a word that is no number up to 30000000 the player stays |
| ServerStream.TimeArrives | core/src/mc_server.c:696-775 | from the bytes received to the clock: `/time` sets the time its word names or numbers and tells the client, or changes nothing |
| ServerStream.WeatherArrives | core/src/mc_server.c:696-775 | from the bytes received to the sky over the client: `/weather` sets the weather its word names, or changes nothing |
| ServerStream.StatusArrives | core/src/mc_server.c:1005-1008 | on the bytes received: a status request queues the status exactly if it fits |
| ServerStream.PingArrives | core/src/mc_server.c:1010-1013 | on the bytes received: a ping queues a frame with the same eight bytes exactly if it fits |
| ServerStream.HandshakeArrives | core/src/mc_server.c:833-1003 | on the bytes received: a handshake starts a session with every field fresh and an empty output, and asks for the old output to be dropped; another next state resets the same way and fails |
| ServerStream.LoginArrives | core/src/mc_server.c:1015-1061 | on the bytes received: a Login Start without control bytes queues Set Compression plain and Login Success in compressed format and enters play under that name exactly if both fit |
| ServerRuns.PerformKeeps | core/src/mc_server.c:977-1115 | whatever a packet asks for, carried out or refused, the session invariant is kept |
| ServerRuns.GreetingKeeps | core/src/mc_server.c:883-914 | a handshake starts afresh, changes nothing, or resets with the old output in place, and the state before play stays valid |
| ServerRuns.StageStepKeeps | core/src/mc_server.c:1260-1333 | a bootstrap step sends the next packet and counts it, or changes nothing |
| ServerRuns.KeepaliveKeeps | core/src/mc_server.c:846-875 | a keepalive takes the next id, and a failed one takes none |
| ServerRuns.TickKeeps | core/src/mc_server.c:1256-1344 | every tick keeps the session invariant |
| ServerRuns.RunKeeps | core/src/mc_server.c:1185-1344 | the invariant holds after every sequence of receives, ticks, drains and restarts |
| ServerRuns.FramingMode | core/src/mc_server.c:192-246 | in every reachable state compression is on exactly in play, output is plain up to Set Compression and compressed-format after it, a client reads back every packet, and the ring is the undrained end |
| ServerRuns.BootstrapOnce | core/src/mc_server.c:1256-1344 | the bootstrap packets are a prefix of the fixed sequence without repeat or skip, no keepalive comes before the last one, and keepalive ids count up from 1 and wrap to 1 |
| ServerRuns.ReplyAllOrNothing | core/src/mc_server.c:696-775 | a reply and its change happen exactly if all its frames fit, else nothing happens |
| ServerRuns.ChatFits | core/src/mc_server.c:622-641 | the escape, JSON and body buffers are large enough for every chat text |
| ServerTicks.NextStepSent | core/src/mc_server.c:1256-1333 | with room for it, the first packet a tick queues is the next of the bootstrap |
| ServerTicks.NoChunkNoTick | core/src/mc_server.c:778-798 | behind the fixed packets, without a usable next chunk a tick fails and changes nothing |
| ServerTicks.BootstrapCompletes | core/src/mc_server.c:1256-1344 | from every reachable play session over a usable map, a client that goes on reading has the whole bootstrap after at most one tick per missing packet |
| ServerTicks.KeepaliveExactly | core/src/mc_server.c:846-875 | once the bootstrap is complete, a tick sends a keepalive exactly if one is due (none sent yet, or the interval has passed on a 32-bit counter), with the next id, or fails without a change for lack of room |
| ClientView.BootstrapSeen | core/src/mc_server.c:329-456 | the client reads the six fixed packets as join, spawn point, time, health, abilities and position, with these values |
| ClientView.LoginAnswersRead | core/src/mc_server.c:292-327 | Set Compression carries 8192, and Login Success the fixed identifier and the name |
| ClientView.ChatSeen | core/src/mc_server.c:609-641 | whatever its characters, the client reads the text of a chat line |
| ClientView.SkySeen | core/src/mc_server.c:458-528 | from any sky, the three packets of a weather change lead the client to that weather's sky |
| ServerLoops.Connection.Enqueue | core/src/mc_server.c:175-223 | a frame is written to the ring whole or not at all |
| ServerLoops.Connection.AppendAll | core/src/mc_server.c:658-667 | a batch that does not fit half-way is undone by the checkpoint |
| ServerLoops.Connection.Needed | core/src/mc_server.c:225-246 | the sum of the length helpers is the exact size of the batch, refused exactly if a frame cannot be sent or the sum overflows |
| ServerLoops.Connection.EnqueueBatch | core/src/mc_server.c:643-668 | all or nothing; after the length check no frame can be refused |
| ServerLoops.Connection.ResetLogical | core/src/mc_server.c:833-844 | every session field is back at its start and a reset of the output is requested |
| ServerLoops.Connection.Greet | core/src/mc_server.c:883-914 | the handshake parser resets and moves the phase as modelled |
| ServerLoops.Connection.OnLogin | core/src/mc_server.c:1015-1061 | Set Compression and Login Success go out together with the switch to play, or nothing changes |
| ServerLoops.Connection.Carry | core/src/mc_server.c:696-775 | on failure the ring, position, time and weather are as before |
| ServerLoops.Connection.OnChat | core/src/mc_server.c:1081-1095 | a chat packet is answered as the command model says |
| ServerLoops.Connection.Move | core/src/mc_server.c:916-975 | a movement packet is stored completely or refused |
| ServerLoops.Connection.OnPacket | core/src/mc_server.c:977-1115 | the dispatcher performs the modelled transition on the ring |
| ServerLoops.Connection.ReceiveBytes | core/src/mc_server.c:1185-1247 | accumulator, in-place shift and loop perform the modelled receive, and the loop ends |
| ServerLoops.Connection.KeepAliveTick | core/src/mc_server.c:846-875 | the keepalive performs the modelled transition |
| ServerLoops.Connection.Stages | core/src/mc_server.c:1256-1333 | the bootstrap loop, stopping before and after each chunk, performs the modelled transition |
| ServerLoops.Connection.TickAt | core/src/mc_server.c:1256-1344 | the tick performs the modelled transition |
| ServerLoops.ControlIn | core/src/mc_server.c:84-92 | finds a control byte exactly if there is one |
| Commands.WordsAfter | core/src/mc_commands.c:293-327 | words separated by any number of spaces are found again |
| Commands.ChangesExactly | core/src/mc_commands.c:699-751 | exactly which messages change anything: `/spawn` alone, and `/tp`, `/time` and `/weather` with words that mean something |
| Commands.OthersAnswered | core/src/mc_commands.c:699-751 | what `/spawn`, `/pos` and `/help` alone say, which commands are unknown, and which get a usage line |
| Commands.SpawnIs | core/src/mc_commands.c:524-533 | the spawn point is at 0.5, 32, 0.5 with zero angles |
| Commands.Answered | core/src/mc_commands.c:699-751 | every command is answered; a chat line is refused exactly if it does not fit with its author's name |
| Commands.PositionTold | core/src/mc_commands.c:569-604 | `/pos` always has an answer: the position if all of it is printable, that it is unavailable if not |
| Commands.PositionUnderstood | core/src/mc_commands.c:569-604 | read word by word, `/pos` says x, y, z, yaw and pitch, each label followed by its own value rounded to hundredths |
| Commands.TeleportAnswered | core/src/mc_commands.c:535-567 | coordinates a teleport accepts are printable and the angles are kept |
| Commands.TeleportUnderstood | core/src/mc_commands.c:535-567 | `/tp` teleports exactly if its three words are numbers of magnitude at most 30000000, and then to within 2^-27 of them, in order; else it says which of the two went wrong |
| Commands.TeleportThenPos | core/src/mc_commands.c:535-604 | after any teleport the coordinates are printable and `/pos` prints them, unless the client's own angles cannot be printed |
| Commands.TimeAnswered | core/src/mc_commands.c:618-648 | a time change is always within 0..24000 |
| Commands.TimeUnderstood | core/src/mc_commands.c:606-648 | day, noon, night and midnight are 1000, 6000, 13000 and 18000, a number up to 24000 is itself, and anything else is refused with its reason |
| Commands.WeatherUnderstood | core/src/mc_commands.c:650-682 | clear, rain and thunder set that weather and no other word does |
| Text.NumeralDenotes | core/src/mc_commands.c:81-103 | a printed numeral denotes the number |
| Text.NumeralOf | core/src/mc_commands.c:81-103 | producing digits backwards into ten places prints the numeral |
| Text.FixedTextDenotes | core/src/mc_commands.c:121-141 | printed hundredths read back, by the `/tp` grammar, as exactly that value |
| Text.EscapeReads | core/src/mc_server.c:570-620 | a JSON reader (section 7 of RFC 8259) recovers any text, and no text can end its string early |
| Text.EscapeText | core/src/mc_server.c:570-607 | escaping succeeds exactly if the result and its terminator fit |
| Decimal.TokenReads | core/src/mc_commands.c:404-464 | a sign or none, digits, and a point with digits or nothing are read as that number |
| Decimal.TokenLaidOut | core/src/mc_commands.c:404-464 | and nothing else is read as a number |
| Fixed2.RoundsToNearest | core/src/mc_commands.c:143-163 | the reference rounding is to nearest, ties to even |
| Fixed2.NearestIsUnique | core/src/mc_commands.c:143-163 | only one integer is nearest-even |
| Fixed2.RoundShiftIsRounding | core/src/mc_commands.c:143-163 | the shift rounds to nearest-even exactly if it is not a shift by 64 of more than half |
| Fixed2.BinaryIsExact | core/src/mc_commands.c:165-197 | for every 64-bit mantissa and every exponent: the hundredths are the exact value rounded, refused exactly above 3000000000, if and only if the input is in none of three families (zero shifted left by 64 or more, hundredths beyond 64 bits that a right shift would bring into range, a right shift by 64 of more than half) |
| Fixed2.OutOfReachInputs | core/src/mc_commands.c:143-197 | one input of each family |
| Fixed2.DoubleShownExactly | core/src/mc_commands.c:199-229 | the same for every finite double, subnormals included; infinities and NaNs are refused |
| Fixed2.FloatShownExactly | core/src/mc_commands.c:231-261 | the same for every float |
| Decimal.TableError | core/src/mc_commands.c:340-371 | the place table's error is within the sum of its per-digit errors |
| Decimal.FixedPointAccuracy | core/src/mc_commands.c:352-372 | the fixed-point value is within 15 units of 2^-32 of what was typed, however many digits |
| Decimal.FracMaxIs | core/src/mc_commands.c:340-350 | nine nines carry five units past the next integer and nothing carries further |
| Decimal.RoundedDouble | core/src/mc_commands.c:378-401 | the assembled bits are a double within 8 units of 2^-32 of the fixed-point value, carry included |
| Decimal.WithinLimit | core/src/mc_commands.c:329-402 | the result never exceeds 30000000 |
| Decimal.StoredAccurately | core/src/mc_commands.c:329-484 | every in-range token is stored within 2^-27, finite, with its sign, at most 30000000 |
| Decimal.InRangeMeans | core/src/mc_commands.c:466-471 | in range is exactly a typed magnitude of at most 30000000 |
| Decimal.TeleportedIsPrintable | core/src/mc_commands.c:535-604 | what `/tp` stores `/pos` can print |
| DecimalLoops.ParseDecimal | core/src/mc_commands.c:404-484 | invalid exactly on non-numbers, out of range exactly on large ones, else the stored double |
| DecimalLoops.ReadWhole | core/src/mc_commands.c:429-439 | the overflow guard flags exactly the whole parts above 30000000 |
| DecimalLoops.ReadFraction | core/src/mc_commands.c:445-460 | nine digits are kept and a discarded nonzero digit is remembered |
| DecimalLoops.DecimalToDouble | core/src/mc_commands.c:329-402 | digit extraction, place sum modulo 2^64, top bit and assembly give the modelled double for every whole part |
| DecimalLoops.TopBit | core/src/mc_commands.c:380-382 | the loop finds the most significant bit |
| DecimalLoops.ParseTimeTicks | core/src/mc_commands.c:486-508 | the sticking value decides 0..24000 correctly, is exact there, and never overflows |
| Div64.UDivMod | firmware/platform_compat.c:28-53 | dividend = quotient * divisor + remainder with remainder < divisor for every nonzero divisor, without overflow |
| Div64.Move | firmware/platform_compat.c:4-26 | overlapping ranges are moved correctly in either direction and nothing else changes |

## Left out

- UART, GPIO, PSRAM, timer and LED registers, logging, trace sinks and diagnostic counters: hardware, or no effect on protocol state.
- Sockets, serial ports, worker threads and wall-clock timeouts: they appear as steps the environment chooses.
- Rate calibration and the ten rate profiles of the bridge: timing does not affect delivery safety.
- The contents of map chunks and their generation: a chunk is any packet body the frame check accepts.
- Builds without compression or without the compressed map, and the world generator used there.
- Liveness under unbounded loss: an unsolicited credit frame is never sent again, so a sender at credit 0 can wait forever; exactly when is `C2mProgress.Stalled`. Otherwise `C2mProgress` says what can still happen, not that it does.
- Exactly-once delivery across epochs: the code does not provide it.
- Rings inside the link session are sequence fields of the session class; `RingBuffer` proves the ring itself, and the server class uses it directly.
- The frames of a single chunk of more than 512 bytes given to the C parser: no caller passes one, and what such a call loses is stated per call only (`LinkParserLoops.FirmwareParser.Feed`).
- Retry counters and send times of the bridge's sender: a retransmission may happen at any moment.
- `mc_server_tick`, which only numbers its own ticks, and `mc_writer_t` bound checks whose buffers are always large enough (`ServerRuns.ChatFits` for the one that depends on user input).
- The text builder and tokenizer of the command handler are modelled as functions on strings; their character loops are not, except for numerals.
