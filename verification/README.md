# Proofs about ziggurat's host-side protocols

ziggurat talks Spinel over a serial line to an IEEE 802.15.4 radio and speaks Zigbee through it. This project models the
byte protocols of the Rust crate `ziggurat`, and of its Python twin `zigpy_spinel` where that adds a second
implementation or a property of whole runs, and proves what they are for. `dafny verify dfyconfig.toml` checks all of it.

## How the model is laid out

| File | What it holds |
|---|---|
| `Bytes.dfy`, `Addresses.dfy` | bytes, fixed-width words in both byte orders, parser results, addresses |
| `Fcs.dfy`, `FcsPairs.dfy`, `Ieee802154.dfy` | the frame check sequence, its guarantee for two-bit errors, and the 802.15.4 frame |
| `Packed21.dfy`, `Hdlc.dfy`, `SpinelFrame.dfy` | packed integers, HDLC-Lite framing, Spinel frames |
| `SpinelStream.dfy`, `SpinelProtocol.dfy` | the inbound byte stream as a value, and the shared protocol object that consumes it |
| `RequestTable.dfy`, `SendCommand.dfy`, `Exchange.dfy` | the seven-slot request table, its concurrent callers, and a whole request and response |
| `NwkCodec.dfy`, `NwkRoutines.dfy` | the network-layer frame as a format, and the routines that read and write it |
| `Ccm.dfy`, `NwkSecurity.dfy` | CCM* and the securing of network-layer frames |
| `FrameCounter.dfy` | the outgoing frame counter over whole runs, and what arrives of what is built |
| `Vectors.dfy` | literal frames, fixing which bit and byte every field occupies |
| `PythonSpinel.dfy`, `PythonCcm.dfy`, `PythonSecurity.dfy` | the Python implementations of the framing, of CCM* and of securing a frame, and their agreement with the above |

A format is a pair of functions, and one lemma per format says that the reader returns a value exactly when the bytes are
the writing of that value. The routines of the program (loops over vectors, in-place block chaining, objects whose fields
change) are methods and classes proved equal to those functions. Concurrent callers are a state machine whose steps are the
stretches between two points where another task may run.

The block cipher is any function from a key and a 16-byte block to a 16-byte block; the HDLC check is any function from a
byte string to 16 bits. Nothing proved here depends on which.

Where the program indexes past the end of its data, or panics, the functions say so (`OutOfBounds`, `CanDecrypt`,
`Printable`), the methods demand that it does not happen, and for each reader and for decrypting what was read a lemma says
exactly when it would.

## What the code does that its text does not lead one to expect

- The receiver's `ignoring_until_next_flag` mark is cleared on the first flag without dropping the bytes before it, so those
  bytes are still offered to the decoder. `SpinelStream.Delivery` therefore allows one leading frame from left-over bytes.
- The bound of the packed integer is 2^21 itself, checked with `>`; the value 2^21 is written as four bytes that no decoder
  accepts. `Packed21.RoundTrip` gives the exact condition.
- A Spinel frame without payload is written but not read back: `SpinelFrame.RoundTrip`.
- The writer compares the relay count with the length of the list truncated to eight bits, so it lets lists of 256 relays
  and more through: `NwkCodec.PrintableRouteRoundTrip`.
- A request whose write fails leaves its entry in the table, so "no entry is ever displaced" is false even for callers that
  keep the window: `SendCommand.FailedWriteIsDisplaced` is such a run. `SendCommand.DisplacesExactly` says exactly when a
  preparation displaces an entry, and `SendCommand.DisplacedExactly` exactly which requests have been displaced.
- Resuming the frame counter 1000 above the saved value does not protect a session that was not closed:
  `FrameCounter.UnclosedSession`.
- `disconnect` saves the counter in memory whether or not one was loaded. A process that closes without having loaded
  therefore saves the initial counter, and a later session repeats counters, although every session was closed:
  `FrameCounter.ClosingUnloadedRepeats` is such a run, and `FrameCounter.SafeToCloseExactly` says exactly when closing is
  safe.
- The Python receive loop stops at an exception from a frame's handler, with the rest of the input still buffered. That
  delays payloads until the next read but neither loses nor repeats one: `PythonSpinel.ExceptionsOnlyDelay`.
- A route reply to a request without extended source announces a destination address it does not carry:
  `FrameCounter.BuiltIsSendable`.

## Model

| member | source | states |
|---|---|---|
| `Fcs.ComputeFcs` | ziggurat/src/ieee_802154.rs:299-312 | two nibble multiplications per byte compute the bit-serial CRC of section 7.2.1.9 of IEEE 802.15.4-2006 |
| `Fcs.ProductFits` | ziggurat/src/ieee_802154.rs:303-307 | the product with 0x1081 never overflows sixteen bits |
| `Fcs.NibblesAreBits` | ziggurat/src/ieee_802154.rs:303-307 | from any register value, the two nibble steps of a byte are eight clocks of the shift register |
| `Fcs.FcsLinear` | ziggurat/src/ieee_802154.rs:299-312 | the check sequence of the exclusive-or of two equal-length strings is the exclusive-or of theirs |
| `Fcs.CrcOfWindow` | ziggurat/src/ieee_802154.rs:299-312 | up to sixteen input bits act on the register as if xored into it before it is clocked with zeros |
| `Fcs.ResidueIsZero` | ziggurat/src/ieee_802154.rs:163-169 | data and trailing check sequence match if and only if the register ends at zero over both |
| `Fcs.UndetectedErrors` | ziggurat/src/ieee_802154.rs:163-169 | an error goes unseen if and only if the register over the error pattern itself ends at zero |
| `Fcs.BurstsAreDetected` | ziggurat/src/ieee_802154.rs:159-169 | any change within sixteen consecutive bits, anywhere in data or check sequence, fails the check |
| `Fcs.NeighbouringBytesAreDetected` | ziggurat/src/ieee_802154.rs:159-169 | any change confined to two adjacent bytes fails the check |
| `Fcs.OddErrorsAreDetected` | ziggurat/src/ieee_802154.rs:159-169 | any odd number of flipped bits, however scattered, fails the check |
| `Fcs.SeventeenBitBurstEscapes` | ziggurat/src/ieee_802154.rs:159-169 | sixteen is the limit: a seventeen-bit burst that passes |
| `FcsPairs.PairResidue` | ziggurat/src/ieee_802154.rs:159-169 | two flipped bits go unseen exactly when the register, clocked with zeros as often as they are apart, comes back from 1 to 1 |
| `FcsPairs.NoReturn` | ziggurat/src/ieee_802154.rs:299-312 | for no distance inside the longest frame does it come back |
| `FcsPairs.TwoBitErrorsAreDetected` | ziggurat/src/ieee_802154.rs:159-169 | any two flipped bits in a frame of up to 127 bytes fail the check |
| `Ieee802154.FrameControlExact` | ziggurat/src/ieee_802154.rs:64-101 | two bytes read as a frame control exactly when they are its writing, fields in range |
| `Ieee802154.FrameControlRefused` | ziggurat/src/ieee_802154.rs:64-85 | a control is refused exactly when it is short, or its bits name a frame type or addressing mode there is none of, with the error that says which |
| `Ieee802154.ReadFrame` | ziggurat/src/ieee_802154.rs:159-244 | the reading routine returns what the format says, error cases included |
| `Ieee802154.WriteFrame` | ziggurat/src/ieee_802154.rs:254-297 | the writing routine writes the format, check sequence included |
| `Ieee802154.CodecExact` | ziggurat/src/ieee_802154.rs:159-297 | bytes are accepted as a frame exactly when they are its writing, its optional fields are those announced and its check field is the computed one |
| `Ieee802154.ReadingIsInjective` | ziggurat/src/ieee_802154.rs:159-244 | two accepted byte strings never give the same frame |
| `Ieee802154.WithoutFcs` | ziggurat/src/ieee_802154.rs:246-252 | reading without a check sequence is reading the bytes as a frame body |
| `Ieee802154.OutOfBoundsExactly` | ziggurat/src/ieee_802154.rs:176-181 | the unchecked index fails exactly on a bare frame control that announces a sequence number |
| `Ieee802154.DamageIsRejected` | ziggurat/src/ieee_802154.rs:159-169 | damage within sixteen consecutive bits of an accepted frame is reported as a bad check sequence |
| `Packed21.Deserialize` | ziggurat/src/spinel.rs:221-237 | the loop reads one to three seven-bit groups, or fails when none of the first three ends the number |
| `Packed21.ToBytes` | ziggurat/src/spinel.rs:239-262 | the loop and the final correction write the groups, continuation bit on all but the last |
| `Packed21.RoundTrip` | ziggurat/src/spinel.rs:221-262 | of all values the writer accepts, exactly those below 2^21 are read back, before any suffix, from one to three bytes |
| `Packed21.TopValueUndecodable` | ziggurat/src/spinel.rs:244-246 | the value 2^21, which the writer accepts, is written as four bytes that no reader accepts, whatever follows them |
| `Packed21.EncodeIsShortest` | ziggurat/src/spinel.rs:239-262 | no shorter byte string reads as the same value |
| `Hdlc.FromBytes` | ziggurat/src/spinel.rs:286-336 | the unescaping loop and the check return what the format says, with the right error |
| `Hdlc.ToBytes` | ziggurat/src/spinel.rs:338-364 | the escaping loop writes the stuffing of data and check sequence |
| `Hdlc.ToBytesWithFlags` | ziggurat/src/spinel.rs:366-374 | the body between two flags |
| `Hdlc.StuffedBytes` | ziggurat/src/spinel.rs:338-364 | the five special bytes are written 7D 5E, 7D 5D, 7D 31, 7D 33 and 7D D8, every other byte as itself |
| `Hdlc.WrongCheckIsRejected` | ziggurat/src/spinel.rs:286-336 | stuffed data is accepted with the computed check value and reported as a bad check with any other |
| `Hdlc.BadEscapeIsRejected` | ziggurat/src/spinel.rs:297-310 | an escape before a byte that stands for no special one is reported as such, wherever it is |
| `Hdlc.ShortIsRejected` | ziggurat/src/spinel.rs:286-323 | fewer than two bytes, before or after unescaping, are reported as a bad length |
| `Hdlc.DecodeEncode` | ziggurat/src/spinel.rs:286-364 | decoding an encoding is the identity, for all data and any check function |
| `Hdlc.EncodedBody` | ziggurat/src/spinel.rs:338-364 | the body holds no flag, XON, XOFF or vendor byte and is between n+2 and 2(n+2) bytes long |
| `Hdlc.DecodeExactly` | ziggurat/src/spinel.rs:286-336 | exactly which chunks are accepted, and as what |
| `Hdlc.ConformingChunksAreEncodings` | ziggurat/src/spinel.rs:286-364 | among chunks a conforming sender can produce, the encoding is the only one that decodes to given data |
| `SpinelFrame.HeaderRoundTrip` | ziggurat/src/spinel.rs:384-403 | header fields in range survive the header byte |
| `SpinelFrame.RoundTrip` | ziggurat/src/spinel.rs:418-449 | a frame is read back exactly when it has the Spinel flag and a payload |
| `SpinelFrame.PrintParse` | ziggurat/src/spinel.rs:418-449 | exactly which byte strings are frames, and writing an accepted one gives it back |
| `SpinelFrame.RefusedExactly` | ziggurat/src/spinel.rs:419-438 | fewer than three bytes and a wrong flag are refused, each with its own error |
| `SpinelStream.SegmentationIsUnique` | ziggurat/src/spinel.rs:519-552 | segments and rest are the only way to read a stream as flag-terminated, flag-free pieces and a flag-free rest |
| `SpinelStream.FeedTwice` | ziggurat/src/spinel.rs:510-555 | two reads are one read of both, from any state |
| `SpinelStream.ChunkInvariance` | ziggurat/src/spinel.rs:510-562 | however a stream is cut into reads, frames, order and final state are those of a single read |
| `SpinelStream.PayloadInvariance` | ziggurat/src/spinel.rs:528-546 | the payloads handed to the frame parser do not depend on how the stream is cut either |
| `SpinelStream.FeedWireAll` | ziggurat/src/spinel.rs:510-555 | from any state between reads, a list of framed messages yields what was left over, then the list |
| `SpinelStream.Delivery` | ziggurat/src/spinel.rs:510-555 | end to end: after any past, in any chunking, a sent list arrives complete and in order after at most one left-over frame, and none if nothing was left over |
| `SpinelProtocol.SpinelProtocol.constructor` | ziggurat/src/spinel.rs:487-496 | the initial receiver and the initial table |
| `SpinelProtocol.SpinelProtocol.SetPropertyUpdateReceiver` | ziggurat/src/spinel.rs:502-508 | updates of the property go to this channel from now on, in place of any registered before |
| `SpinelProtocol.SpinelProtocol.ParseFramesFromBytesInto` | ziggurat/src/spinel.rs:510-555 | the position-and-drain loop ends, appends the frames of the decodable segments of buffer plus input in order, counts them, and keeps the flag-free rest; the payloads it decodes are exactly those of the segments |
| `SpinelProtocol.SpinelProtocol.ParseFramesFromBytes` | ziggurat/src/spinel.rs:557-562 | the same into an empty list |
| `SpinelProtocol.SpinelProtocol.HandleInboundBytes` | ziggurat/src/spinel.rs:564-570 | every decoded frame is applied to the table, in order |
| `SpinelProtocol.SpinelProtocol.HandleInboundFrame` | ziggurat/src/spinel.rs:572-604 | a frame settles the request pending under its id and takes its entry, updates a listened property, or changes nothing |
| `SpinelProtocol.SpinelProtocol.PrepareRequest` | ziggurat/src/spinel.rs:606-632 | the request takes the next id in the cycle and its slot, dropping whoever held it, and the frame carries that same id, flag 2, link 0, command and payload |
| `SpinelProtocol.SpinelProtocol.CancelRequest` | ziggurat/src/spinel.rs:634-636 | the entry under an id is removed, whoever it belongs to |
| `RequestTable.PrepareKeepsValid` | ziggurat/src/spinel.rs:606-632 | preparing keeps the table's invariant |
| `RequestTable.InboundKeepsValid` | ziggurat/src/spinel.rs:572-604 | an inbound frame keeps it |
| `RequestTable.CancelKeepsValid` | ziggurat/src/spinel.rs:634-636 | a cancel keeps it |
| `RequestTable.Conservation` | ziggurat/src/spinel.rs:572-636 | over every interleaving each request is pending, or answered, displaced or cancelled exactly once; answers carry its id; ids stay in 1 to 7; a slot holds the newest request with its id |
| `SendCommand.RunKeepsConsistent` | ziggurat/src/spinel_client.rs:179-218 | every state of every run of concurrent callers satisfies the table's invariant, one caller per request |
| `SendCommand.CallersMoveOn` | ziggurat/src/spinel_client.rs:197-217 | in every run a waiting caller returns a response taken for its own request, or gives up on a timeout with nothing settled or a channel closed without response; one that gave up removes the entry under its id and returns that reason |
| `SendCommand.AnsweredCallerReturns` | ziggurat/src/spinel_client.rs:203-204 | once a response was taken for a waiting caller, returning that response is all it can do |
| `SendCommand.OutcomesHold` | ziggurat/src/spinel_client.rs:197-217 | in every state of every run a returned response was taken for that request, a returned failure was decided before, and a write error follows writing |
| `SendCommand.WindowTheorem` | ziggurat/src/spinel_client.rs:184-217 | if every caller finishes before the seventh later request, no channel is ever seen closed, a cancel finds its own entry or none, and cancelled and displaced entries are ones whose own caller timed out or failed to write |
| `SendCommand.DisplacesExactly` | ziggurat/src/spinel.rs:611-629 | within the window, a preparation displaces an entry if and only if the request seven before was abandoned by a failed write and has not been answered |
| `SendCommand.DisplacedExactly` | ziggurat/src/spinel_client.rs:184-217 | within the window, a request has been displaced if and only if its write failed, nobody answered it and seven more were prepared |
| `SendCommand.NothingDisplaced` | ziggurat/src/spinel_client.rs:184-217 | nothing is displaced if and only if there is no such request, in particular when no write fails |
| `SendCommand.FailedWriteIsDisplaced` | ziggurat/src/spinel_client.rs:197-200 | a run from the beginning that keeps the window and displaces an entry: one failed write, then seven preparations |
| `SendCommand.OutsideWindow` | ziggurat/src/spinel_client.rs:203-216 | seven is the limit: one request later a waiting caller is displaced, sees its channel closed, and cancels a stranger's request |
| `SendCommand.OutsideWindowIsReached` | ziggurat/src/spinel_client.rs:203-216 | such a state is reached from the beginning: the first caller waits while six more requests are prepared |
| `SendCommand.DisplacedIsSevenBefore` | ziggurat/src/spinel.rs:611-629 | preparing can only ever displace the request prepared seven before |
| `Exchange.RequestArrives` | ziggurat/src/spinel.rs:606-632 | a prepared request with a payload arrives at a fresh receiver as the one frame with flag 2, link 0, its slot's id, command and payload, in any chunking |
| `Exchange.ResponseReachesCaller` | ziggurat/src/spinel.rs:564-636 | the first frame sent back with a request's id is the answer its caller gets, once and for all, whatever is sent before and after it, however the bytes are cut, and whatever other callers prepare, cancel or register in between within the window |
| `Exchange.CallIsAnswered` | ziggurat/src/spinel.rs:564-636 | a whole call: the other end answers under the id it read, and of all it sends back the first frame with that id is the answer the caller gets |
| `Exchange.UpdateIsDelivered` | ziggurat/src/spinel.rs:576-590 | a frame with id 0, command 6, a packed property id and a value is sent, once, to the channel registered for that property, and nowhere when there is none |
| `Exchange.UpdateAnnounces` | ziggurat/src/spinel.rs:576-590 | such a frame announces its value about its own property and nothing about any other |
| `Exchange.UpdatesReachChannel` | ziggurat/src/spinel.rs:502-590 | from its registration until another replaces it, a channel gets the value of every update of its property that is sent, each once and in order, whatever else happens and however the bytes are cut |
| `NwkCodec.FrameControlExact` | ziggurat/src/zigbee_nwk.rs:73-109 | two bytes read as a frame control exactly when they are its writing, fields in range |
| `NwkCodec.FrameControlRefused` | ziggurat/src/zigbee_nwk.rs:73-93 | a control is refused exactly when it is short, or its bits name a frame type or route discovery there is none of, with the error that says which |
| `NwkCodec.RelaysExact` | ziggurat/src/zigbee_nwk.rs:131-137 | the relay loop reads a list exactly when it has the announced length and the bytes are its writing |
| `NwkCodec.SourceRouteExact` | ziggurat/src/zigbee_nwk.rs:119-161 | the same for the source route with its count |
| `NwkCodec.PrintableRouteRoundTrip` | ziggurat/src/zigbee_nwk.rs:146-161 | what the writer's own check lets through is read back exactly when there are fewer than 256 relays |
| `NwkCodec.HeaderExact` | ziggurat/src/zigbee_nwk.rs:178-279 | bytes read as a header and a rest exactly when they are the writing of a well-formed header and that rest |
| `NwkCodec.ControlExact` | ziggurat/src/zigbee_nwk.rs:342-366 | the same for the security control byte |
| `NwkCodec.AuxExact` | ziggurat/src/zigbee_nwk.rs:377-428 | the same for the auxiliary header |
| `NwkCodec.CodecExact` | ziggurat/src/zigbee_nwk.rs:556-591 | bytes read as a frame exactly when they are its writing, it is well formed, and it is marked encrypted as its security bit says |
| `NwkCodec.PrintParse` | ziggurat/src/zigbee_nwk.rs:556-591 | writing any accepted frame gives the original bytes |
| `NwkCodec.HeaderSize` | ziggurat/src/zigbee_nwk.rs:472-478 | well-formed headers, with up to 255 relays, make between 14 and 551 authenticated bytes |
| `NwkRoutines.ReadSourceRoute` | ziggurat/src/zigbee_nwk.rs:119-144 | the loop that rebinds the unread rest reads the relay list |
| `NwkRoutines.WriteSourceRoute` | ziggurat/src/zigbee_nwk.rs:146-161 | the loop writes the relay list |
| `NwkRoutines.ReadHeader` | ziggurat/src/zigbee_nwk.rs:178-250 | the reading routine returns what the format says |
| `NwkRoutines.WriteHeader` | ziggurat/src/zigbee_nwk.rs:252-279 | the writing routine writes the format |
| `NwkRoutines.ReadAux` | ziggurat/src/zigbee_nwk.rs:378-412 | the same for the auxiliary header |
| `NwkRoutines.WriteAux` | ziggurat/src/zigbee_nwk.rs:414-427 | the same for writing it |
| `NwkRoutines.ReadFrame` | ziggurat/src/zigbee_nwk.rs:556-577 | the same for the frame |
| `NwkRoutines.WriteFrame` | ziggurat/src/zigbee_nwk.rs:579-591 | the same for writing it |
| `NwkRoutines.HeaderOutOfBoundsExactly` | ziggurat/src/zigbee_nwk.rs:218-222 | the unchecked index fails exactly when a multicast control is announced and no byte is left for it |
| `NwkRoutines.AuxOutOfBoundsExactly` | ziggurat/src/zigbee_nwk.rs:398-402 | the unchecked index fails exactly on thirteen bytes that announce an extended source |
| `NwkRoutines.FrameOutOfBoundsExactly` | ziggurat/src/zigbee_nwk.rs:556-577 | the frame reader indexes past the end exactly in those two cases |
| `Ccm.RightPadToMultipleOf16` | ziggurat/src/zigbee_nwk.rs:430-450 | the loop over full chunks and the remainder give the padded blocks |
| `Ccm.PaddingIsZeros` | ziggurat/src/zigbee_nwk.rs:430-450 | laid end to end, the padded blocks are the data and the fewest zeros that reach a multiple of sixteen |
| `Ccm.EncryptDecrypt` | ziggurat/src/zigbee_nwk.rs:505-542 | the padded block loop computes section 2.3 of RFC 3610 byte by byte: byte i with byte i mod 16 of the cipher on counter block 1 + i/16, the tag with block 0 |
| `Ccm.CryptTwice` | ziggurat/src/zigbee_nwk.rs:505-542 | it is its own inverse at every length |
| `Ccm.EncryptBlocks` | ziggurat/src/zigbee_nwk.rs:496-498 | chaining the buffer in place leaves the cipher-block chain of what it held |
| `Ccm.ComputeMac` | ziggurat/src/zigbee_nwk.rs:464-503 | the routine computes the chained tag X_{n+1} of section 2.2 of RFC 3610 over its blocks |
| `Ccm.FormattingIsRfc3610` | ziggurat/src/zigbee_nwk.rs:472-493 | its blocks are those of section 2.2 of RFC 3610 exactly when the authenticated data is non-empty and shorter than 0xFF00 |
| `Ccm.FormattingIsInjective` | ziggurat/src/zigbee_nwk.rs:472-493 | the blocks determine nonce, authenticated data (shorter than 2^16) and plaintext of any length |
| `Ccm.CounterBlocksDiffer` | ziggurat/src/zigbee_nwk.rs:521-527 | counter blocks of numbers below 2^16 are distinct, across nonces too |
| `Ccm.CounterBlockIsNoFirstBlock` | ziggurat/src/zigbee_nwk.rs:481-524 | no counter block is ever the first block of an authentication |
| `NwkSecurity.GetNonce` | ziggurat/src/zigbee_nwk.rs:604-622 | the nonce is source, counter and control byte, the auxiliary header's own source first |
| `NwkSecurity.NonceLayout` | ziggurat/src/zigbee_nwk.rs:604-622 | the nonce is, of the bytes written, the extended source of the auxiliary header whenever it has one and of the network header otherwise, then the frame counter, then the security control |
| `NwkSecurity.NonceLevel` | ziggurat/src/zigbee_nwk.rs:593-602 | its last byte is the security control on the air with the three level bits replaced by 5 |
| `NwkSecurity.NonceIsInjective` | ziggurat/src/zigbee_nwk.rs:604-622 | a nonce determines the source, counter and security control it was made from |
| `NwkSecurity.ComputeFrameMac` | ziggurat/src/zigbee_nwk.rs:464-478 | the authenticated data is the written header and auxiliary header |
| `NwkSecurity.SplitMacTag` | ziggurat/src/zigbee_nwk.rs:455-462 | ciphertext and tag together are the payload |
| `NwkSecurity.EncryptFrame` | ziggurat/src/zigbee_nwk.rs:656-680 | the routine is the encryption function, its error included |
| `NwkSecurity.DecryptFrame` | ziggurat/src/zigbee_nwk.rs:630-654 | the routine is the decryption function, its errors included |
| `NwkSecurity.ReceivedCanDecrypt` | ziggurat/src/zigbee_nwk.rs:604-654 | decrypting a frame that was read stops the program exactly when it is secured and has no source address or a payload shorter than a tag |
| `NwkSecurity.DecryptIsInverse` | ziggurat/src/zigbee_nwk.rs:630-680 | a frame decrypts to f if and only if it is the encryption of f; re-encrypting gives back every byte, tag and on-air level included |
| `NwkSecurity.SecuredWire` | ziggurat/src/zigbee_nwk.rs:556-680 | bytes are read and decrypted to f if and only if f can be sent secured and they are the writing of its encryption |
| `NwkSecurity.SecuredWireRoundTrip` | ziggurat/src/zigbee_nwk.rs:556-680 | for every cipher, key and sendable frame: encrypt, write, read, decrypt gives the frame |
| `NwkSecurity.LevelIsOnlyCarried` | ziggurat/src/zigbee_nwk.rs:593-602 | the on-air security level is carried along and changes neither tag nor ciphertext |
| `NwkSecurity.AuthenticatedContent` | ziggurat/src/zigbee_nwk.rs:464-503 | the authenticated blocks determine the header, the modified auxiliary header and the plaintext of a frame |
| `NwkSecurity.TagIsRfc3610` | ziggurat/src/zigbee_nwk.rs:464-503 | the tag of every frame with a well-formed header is the CBC-MAC of RFC 3610; the two-byte length form is always the right one |
| `NwkSecurity.CounterBlockIsRfc3610` | ziggurat/src/zigbee_nwk.rs:521-527 | the counter block is A_i of section 2.3 of RFC 3610: L - 1, nonce, and the block number in L bytes |
| `NwkSecurity.SecuredIsRfc3610` | ziggurat/src/zigbee_nwk.rs:656-680 | securing changes payload and mark only; every payload byte is the one of sections 2.2 and 2.3 of RFC 3610, message first and the masked tag after it |
| `NwkSecurity.RefusedExactly` | ziggurat/src/zigbee_nwk.rs:630-680 | each error is reported exactly when it should be; a bad tag exactly for encrypted frames that no encryption under the key makes |
| `FrameCounter.ControllerApplication.constructor` | zigpy_spinel/zigbee/application.py:23-29 | a new process starts with the initial counter and the file as it is |
| `FrameCounter.ControllerApplication.Restarted` | zigpy_spinel/zigbee/application.py:23-29 | a restart is the step that resets the counter in memory and keeps the file and what was sent |
| `FrameCounter.ControllerApplication.Transmit` | zigpy_spinel/zigbee/application.py:123-210 | a send increments the counter, builds with it, logs and returns the encryption of what was built, or burns the counter when building fails |
| `FrameCounter.ControllerApplication.Close` | zigpy_spinel/zigbee/application.py:49-52 | closing saves the counter |
| `FrameCounter.ControllerApplication.Load` | zigpy_spinel/zigbee/application.py:565-599 | loading resumes exactly 1000 above the saved counter |
| `FrameCounter.BuiltForm` | zigpy_spinel/zigbee/application.py:174-189 | every built frame carries the counter it was built with, the node's address and the fixed security control |
| `FrameCounter.BuiltIsSendable` | zigpy_spinel/zigbee/application.py:344-366 | a built frame can be sent secured, except exactly the reply to a route request without extended source |
| `FrameCounter.BuiltIsReceived` | zigpy_spinel/zigbee/application.py:328-393 | a built frame, encrypted and written, is read and decrypted to what was built if and only if it is not a reply to a route request without extended source |
| `FrameCounter.PacketArrives` | zigpy_spinel/zigbee/application.py:123-210 | a packet arrives, exactly when counter and length fit, with its payload, destination, source and sequence number, radius 30 when none is given, the counter and the node's address |
| `FrameCounter.AcknowledgementArrives` | zigpy_spinel/zigbee/application.py:418-505 | an acknowledgement arrives with the inbound addresses exchanged, one less radius, the same sequence number and its payload |
| `FrameCounter.ReplyArrives` | zigpy_spinel/zigbee/application.py:328-393 | a route reply arrives as built exactly when counter and extended source allow: to the requester, from the node, radius 30, with the command bytes |
| `FrameCounter.SessionCountsOn` | zigpy_spinel/zigbee/application.py:420-477 | over a session of any length, in any order of its tasks, counters only grow from where it began |
| `FrameCounter.SafeToBuildExactly` | zigpy_spinel/zigbee/application.py:130-184 | every session from here on keeps counters increasing if and only if no frame was built with a counter above the present one |
| `FrameCounter.SafeToLoadExactly` | zigpy_spinel/zigbee/application.py:565-599 | loading keeps counters increasing in every later session if and only if no frame was built with a counter above the saved one plus 1000 |
| `FrameCounter.SafeToCloseExactly` | zigpy_spinel/zigbee/application.py:49-52 | closing and later loading does so if and only if no frame was built with a counter above the one in memory plus 1000 |
| `FrameCounter.ClosingUnloadedExactly` | zigpy_spinel/zigbee/application.py:49-52 | for a restarted process that closes without having loaded: if and only if no frame was ever built with a counter above 1000 |
| `FrameCounter.ClosingUnloadedRepeats` | zigpy_spinel/zigbee/application.py:49-52 | a run from the beginning, all its sessions closed, whose first frame carries the saved value plus 1001 and whose second carries 1001 |
| `FrameCounter.UnclosedSession` | zigpy_spinel/zigbee/application.py:565-599 | after a session that was not closed, loading is safe if and only if that session built nothing |
| `FrameCounter.CleanRunIsFresh` | zigpy_spinel/zigbee/application.py:49-52 | through any number of restarts, runs in which each process loads before it builds or closes, and loads only what was saved after the last build, keep all counters increasing |
| `FrameCounter.NoncesDiffer` | zigpy_spinel/zigbee_types.py:439-446 | frames of one node with different counters have different nonces |
| `FrameCounter.WholeRunFreshness` | zigpy_spinel/zigbee/application.py:123-477 | in every such run no two frames share a nonce and no block that masks anything is used twice |
| `PythonSpinel.FromBytes` | zigpy_spinel/spinel_types.py:291-320 | the Python decoder accepts the same chunks with the same data as the Rust one |
| `PythonSpinel.Serialize` | zigpy_spinel/spinel_types.py:271-288 | the Python encoder writes the same bytes |
| `PythonSpinel.SpinelReceiver.DataReceived` | zigpy_spinel/spinel.py:36-60 | the partition loop hands on the payloads of the decodable segments, in order, and keeps the flag-free rest; if the handler raises, it stops right after that payload with every later byte still buffered |
| `PythonSpinel.ExceptionsOnlyDelay` | zigpy_spinel/spinel.py:36-70 | reads that end in an exception lose and repeat nothing: what was handed on and what is buffered stay, in order, the payloads of the stream |
| `PythonSpinel.ReceiversAgree` | zigpy_spinel/spinel.py:36-70 | on every byte stream, each cut in its own way, both receivers decode the same payloads in the same order and keep the same bytes |
| `PythonCcm.PadToMultipleOf16` | zigpy_spinel/zigbee_types.py:382-386 | padding a byte string is the padded blocks laid end to end |
| `PythonCcm.Encrypt` | zigpy_spinel/zigbee_types.py:473-502 | the Python counter-mode loop gives the same tag and text, or fails exactly when block numbers need a third byte |
| `PythonCcm.ComputeMac` | zigpy_spinel/zigbee_types.py:448-471 | padding the joined data gives the same tag, or fails exactly when a length does not fit in two bytes |
| `PythonSecurity.Encrypt` | zigpy_spinel/zigbee_types.py:544-571 | Python secures a frame as Rust does, and fails exactly when the auxiliary header has no source of its own or a length does not fit in two bytes |
| `Vectors.PackedInteger` | ziggurat/src/spinel.rs:648-659 | the packed integer 0x1FD7FC, both ways |
| `Vectors.SpinelBytes` | ziggurat/src/spinel.rs:729-743 | where header fields, command and payload stand |
| `Vectors.HdlcBytes` | ziggurat/src/spinel.rs:746-748 | a framed message with its check value, low byte first |
| `Vectors.AckFcs` | ziggurat/src/ieee_802154.rs:405-438 | the check sequence of the acknowledgement frame |
| `Vectors.AckFrame` | ziggurat/src/ieee_802154.rs:405-438 | the acknowledgement frame is read with these fields |
| `Vectors.DataFrame` | ziggurat/src/ieee_802154.rs:441-468 | where every field of a compressed data frame stands |
| `Vectors.LongFrame` | ziggurat/src/ieee_802154.rs:254-297 | the same with an extended address, both networks and the other control bits |
| `Vectors.MacCodes` | ziggurat/src/ieee_802154.rs:7-45 | the numbers of frame types and addressing modes |
| `Vectors.NetworkCodes` | ziggurat/src/zigbee_nwk.rs:19-331 | the numbers of frame types, route discoveries, key ids and security levels |
| `Vectors.UnicastFrame` | ziggurat/src/zigbee_nwk.rs:689-733 | the secured unicast frame is read with these headers and payload |
| `Vectors.UnicastNonce` | ziggurat/src/zigbee_nwk.rs:604-622 | its thirteen nonce bytes |
| `Vectors.UnicastBlocks` | ziggurat/src/zigbee_nwk.rs:464-493 | the four blocks that authenticate it |
| `Vectors.RoutedHeader` | ziggurat/src/zigbee_nwk.rs:755-786 | the header of the source-routed frame |
| `Vectors.FullHeader` | ziggurat/src/zigbee_nwk.rs:252-279 | where every optional header field stands |
| `Vectors.FullAux` | ziggurat/src/zigbee_nwk.rs:414-427 | where the auxiliary fields stand without an extended source |

## Left out

- The serial port, tokio tasks and locks, asyncio, logging, pcap and command-line tools: plumbing around the steps modelled.
- AES and the two CRC libraries: parameters. The Rust and Python HDLC checks are taken to be the same function.
- Constant-time comparison of tags: modelled as equality.
- SendCommand.WindowTheorem: `send_command` is a state machine over its atomic steps, not a method. A caller whose future is
  dropped while it waits is not a step, and the write is one step that succeeds or fails.
- SpinelProtocol.SpinelProtocol.HandleInboundFrame: a property update is recorded when a receiver is registered; whether
  that receiver's channel is full is not modelled, nor is sending into a channel whose reader is gone told apart.
  `unsolicited_frame_receiver` is set in the program but never used, so it is not in the model.
- FrameCounter.ControllerApplication.Transmit: stands for the three places that build frames (packets, route replies, APS
  acknowledgements), each atomic because the program does not wait between increment and construction. The APS payload and
  the decision to reply are inputs; the 802.15.4 frame around it and the repeated sends of one built frame are not modelled.
- FrameCounter.ControllerApplication.constructor: zigpy's own initial counter is taken to be 0; its source is not part of
  this model.
- FrameCounter.WholeRunFreshness: node address and key are fixed for the run, as the network data in the program are;
  `write_network_info`, which could replace them or the counter, is not a step. A counter of 2^32 or more is taken to be
  refused by zigpy's 32-bit type, whose source is not part of this model.
- PythonSpinel.SpinelReceiver.DataReceived: ends at the decoded payload. Its handler is any function that says whether it
  raises; what it does is not modelled. It is not the Rust one: it takes frames without payload, serves property updates
  under any transaction id, and raises when an id is answered twice.
- PythonSecurity.Encrypt: the Python header writers are taken to write what the Rust ones write.
- The Python 802.15.4 codec: its uncompressed command frames (the beacon-request case) have no counterpart on the read side.
- The Python packed integer: undefined at 0; the Rust form is the one modelled.
- The APS frame: it is read little-endian and written big-endian, and is otherwise fixed-offset copying.
- Transmit and receive metadata, property and status enumerations, permit-join timers and the other small value types.
