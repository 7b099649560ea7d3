# Protocol cores of the LegendsApp pods

The app's own code draws screens. What is intricate in its repository is vendored C and C++: BoringSSL's DTLS
handshake transport, its TLS write path and handshake machines, and nanopb's codec. This project models these in
Dafny, in the form they have there (classes whose methods change their fields, arrays changed in place, loops), and
proves what they are for.

`dafny verify dfyconfig.toml` checks all of it.

## The parts

**DTLS handshake transport** (`ReplayWindow`, `Reassembly`, `HandshakeReceiver`, `RecordWriter`, `FlightSender`,
`DtlsTransport`, `Provenance`). The replay window's 64-bit map represents the set of all numbers recorded, so no
record is opened twice. The reassembly mask, a byte array changed in place, represents the set of bytes received. The
receiver's ring of seven partly received messages refines a specification on values (`AcceptRecord`). The sender's
position walks through a flight so that its fragments tile every message, within the MTU, and the record writer never
uses a nonce twice, also when retransmissions under the previous epoch interleave. `DtlsTransport` puts sender and
receiver together, with a network that loses, repeats and reorders: what is delivered is a beginning of what was sent,
and what has to arrive for a message to be complete is stated exactly (RFC 6347, sections 4.1.2.6 and 4.2.2 to 4.2.4).
`Provenance` is about input that does not come from such a sender: whatever arrives, no message is put together from
fragments that contradict each other.

**nanopb** (`Pb…`). `PbSchema` says what the encoding of a message is; `PbEncode` has the encoder's routines on a
stream that writes or only counts, and proves that both emit exactly that. `PbDecodeSpec` says what decoding does to
byte sequences; `PbDecode` has the decoder on streams, with the cyclic field iterator and the bitset of required
fields, and proves that it does that. `PbRoundTrip` proves, for every schema tree and every well-formed message, that
decoding an encoding gives what was written, exactly when every length prefix is below 2 to the 32: sizes in the
struct are 32 bits, but the encoding of a struct can be longer than 4 GiB, and then the decoder, which reads lengths
with 32 bits, refuses it. `PbKept` says exactly when that is the message itself: when every proto3 singular field is
written or holds what the decoder initialises it to. `PbMerge` proves exactly when decoding composes, and that unknown
fields do no harm. `PbFormat` states the wire format in its own terms, and that what is written is of it; `PbArrays`,
`PbAgain` and `PbForeign` are about input that the encoder would not write: arrays in parts, fields that occur again,
and those of another descriptor; and `PbSettled` is about any input at all.

**TLS write path** (`SslBuffer`, `TlsWriter`). The invariant of every method of `Writer` is that the bytes the
transport has taken, then `write_buffer`, then what is left of `pending_flight`, are all sealed records in sealing
order. It holds until the buffer's 16-bit offset wraps with something left (`Buffer.wrapped`). That takes a buffer
that was asked for 65530 to 65535 bytes (`Buffer.cramped`), by a record together with what is left of a flight; for
each of these sizes `OrderBreaks` has a writer that sends its bytes out of order.

**Cipher choice and premaster selection** (`CipherChoice`, `ConstantTime`, `Premaster`). The loop with its running
minimum against an order on ciphers; the computation on masks against decoding with branches.

**TLS 1.0 to 1.2 handshake** (`HandshakeCore`, `HandshakeScript`, `ClientMachine`, `ServerMachine`, `Lockstep`,
`HandshakeRun`, `HandshakeLoop`, `HandshakeAlone`, `ClientAlone`, `ServerAlone`). `HandshakeScript` is the order of
messages that the flags determine (section 7.3 of RFC 5246, section 3.3 of RFC 5077, and the next-protocol and Channel
ID extensions). Both machines are functions on the fields of the handshake, one per `do_` routine, with everything
that callbacks, keys and memory decide left open. A Finished carries the transcript it is computed over in place of a
MAC, so that checking it is comparing transcripts. In every run, with flights sent in parts and any waiting, one side
is behind the other by exactly what is on the way to it; so neither rejects the other, the transcripts agree, and both
can get done. `HandshakeLoop` is `ssl_run_handshake` itself, each call of which is such a run. `HandshakeAlone`,
`ClientAlone` and `ServerAlone` are about one side and a peer that may send anything: when the side gets done, it has
been through a whole handshake.

## Where the code differs from what it says

- A fragment numbered exactly seven past the next message is not ignored like one further in the future but is an
  error (`LegendsApp/Pods/BoringSSL-GRPC/ssl/d1_both.cc:267-271`, after the test in lines 380-385).
  `DtlsTransport.AcceptGenuine` has it as one of the three cases in which a genuine record is refused.
- `pb_decode_varint32` accepts values that do not fit 32 bits. `PbWire.Varint32Decodes` says exactly which, for
  canonical encodings; `PbWire.UncanonicalAccepted` is one that is not canonical.
- A singular field whose default is not zero loses a zero, which the encoder takes for nothing to write
  (`LegendsApp/Pods/nanopb/pb_encode.c:319-330`): `PbKept.ZeroBecomesFive`.
- The proto3 default check takes the first word of an array of fixed count, which has no counter, for its count
  (`LegendsApp/Pods/nanopb/pb_encode.c:218-229`): `PbKept.PairLost`. The encoder's two passes agree all the same.
- Decoding a concatenation is not always decoding one part and then the other, although `pb_decode_noinit` is
  documented to merge that way (`LegendsApp/Pods/nanopb/pb_decode.h:74-75`): an array of fixed count that is complete
  takes no more entries. `PbMerge.DecodingComposes` has the exact case.

## Model

| member | source | states |
|---|---|---|
| ReplayWindow.Bitmap.Stale | LegendsApp/Pods/BoringSSL-GRPC/ssl/dtls_record.cc:140-150 | a number is stale exactly when it is at most the maximum and either 64 or more behind it or in the set of all numbers recorded in the epoch |
| ReplayWindow.Bitmap.Record | LegendsApp/Pods/BoringSSL-GRPC/ssl/dtls_record.cc:155-175 | the 64-bit map and the maximum go on representing that set, with the number added, however far the window slides |
| ReplayWindow.SlideRepresents | LegendsApp/Pods/BoringSSL-GRPC/ssl/dtls_record.cc:155-175 | shifting the map by the distance to a new maximum keeps exactly the recorded numbers that are still in the window |
| ReplayWindow.MarkRepresents | LegendsApp/Pods/BoringSSL-GRPC/ssl/dtls_record.cc:170-175 | setting one bit adds one number and no other |
| ReplayWindow.ToU64Be | LegendsApp/Pods/BoringSSL-GRPC/ssl/dtls_record.cc:128-136 | shifting in eight bytes loses nothing: the result is their big-endian value |
| ReplayWindow.LeadingU16 | LegendsApp/Pods/BoringSSL-GRPC/ssl/dtls_record.cc:213-226 | the epoch in the first two bytes is the value's upper 16 bits, so numbers of different epochs never collide |
| ReplayWindow.AcceptIsNew | LegendsApp/Pods/BoringSSL-GRPC/ssl/dtls_record.cc:225-259 | what the window lets through has never been accepted before, in any epoch |
| ReplayWindow.RecordLayout | LegendsApp/Pods/BoringSSL-GRPC/ssl/dtls_record.cc:188-202 | exactly the inputs with a whole record of at most 16704 bytes parse, and each field of its header is read from where section 4.1 of RFC 6347 puts it |
| ReplayWindow.RecordReader.OpenRecord | LegendsApp/Pods/BoringSSL-GRPC/ssl/dtls_record.cc:177-272 | which records are let through, in both directions: of a version from 0xfe00 to 0xfeff before there are keys and of the version of the keys afterwards, of the current epoch, new, and authentic; what each of the other cases returns and consumes; and that no epoch and number is accepted twice as long as the epoch has not wrapped |
| ReplayWindow.RecordReader.AcceptPlaintext | LegendsApp/Pods/BoringSSL-GRPC/ssl/dtls_record.cc:246-272 | a new and authentic record: too long a plaintext is an error and is not recorded; any other is recorded and returned as alert or data |
| ReplayWindow.RecordReader.SetReadState | LegendsApp/Pods/BoringSSL-GRPC/ssl/dtls_method.cc:81-95 | an epoch change is refused while handshake data is left over; otherwise the next epoch starts with an empty window |
| Reassembly.ParseEncoded | LegendsApp/Pods/BoringSSL-GRPC/ssl/d1_both.cc:459-473 | parsing undoes the encoding of a fragment header, and takes exactly the fragment's body |
| Reassembly.FragmentLayout | LegendsApp/Pods/BoringSSL-GRPC/ssl/d1_both.cc:459-473 | exactly the inputs with a whole fragment parse, and each field of its header is read from where section 4.2.2 of RFC 6347 puts it |
| Reassembly.BitRangeBits | LegendsApp/Pods/BoringSSL-GRPC/ssl/d1_both.cc:203-205 | the byte for a range of bits has exactly those bits, for all 64 ranges |
| Reassembly.MarkMaskBit | LegendsApp/Pods/BoringSSL-GRPC/ssl/d1_both.cc:211-240 | marking a byte range sets exactly the bits of the range in addition to those set before |
| Reassembly.MarkRepresents | LegendsApp/Pods/BoringSSL-GRPC/ssl/d1_both.cc:211-240 | the mask represents the union of the byte ranges marked, and no bit at or past the message length is ever set |
| Reassembly.FullMeansComplete | LegendsApp/Pods/BoringSSL-GRPC/ssl/d1_both.cc:242-250 | the test of whole bytes and of the last partial byte holds exactly when every byte of the message has been received |
| Reassembly.SetRange | LegendsApp/Pods/BoringSSL-GRPC/ssl/d1_both.cc:219-239 | in place, within the array, and only the bytes of the range change |
| Reassembly.IsFull | LegendsApp/Pods/BoringSSL-GRPC/ssl/d1_both.cc:242-250 | answers whether all bits of the message are set |
| Reassembly.HmFragment.constructor | LegendsApp/Pods/BoringSSL-GRPC/ssl/d1_both.cc:152-199 | a new message has its rebuilt header, nothing received, and no mask exactly when it is empty |
| Reassembly.HmFragment.Mark | LegendsApp/Pods/BoringSSL-GRPC/ssl/d1_both.cc:211-251 | the received bytes become the union with the range; the mask is dropped exactly when that makes the message complete |
| Reassembly.HmFragment.Accept | LegendsApp/Pods/BoringSSL-GRPC/ssl/d1_both.cc:387-402 | a fragment's body is copied and marked unless the message is complete already, and nothing else changes |
| HandshakeReceiver.SlotMatchesNumber | LegendsApp/Pods/BoringSSL-GRPC/ssl/d1_both.cc:265-295 | in every valid ring, an occupied slot found for a number in the window holds that very number, across the wrap of the 16-bit counter: the assertion never fails |
| HandshakeReceiver.AdvanceValid | LegendsApp/Pods/BoringSSL-GRPC/ssl/d1_both.cc:426-438 | giving up the current message keeps every slot in the place and in the window it belongs to |
| HandshakeReceiver.Receiver.GetIncomingMessage | LegendsApp/Pods/BoringSSL-GRPC/ssl/d1_both.cc:265-295 | for every number: an internal error outside the window, and inside it the slot's message or a blank one, unless the fragment contradicts the type or length that arrived first |
| HandshakeReceiver.Receiver.AcceptOne | LegendsApp/Pods/BoringSSL-GRPC/ssl/d1_both.cc:364-402 | one fragment: ignored, refused or filled in as the specification of the ring says |
| HandshakeReceiver.Receiver.OpenHandshake | LegendsApp/Pods/BoringSSL-GRPC/ssl/d1_both.cc:297-406 | all fragments of a record, in order, and what is returned for records of other types |
| HandshakeReceiver.WholeRecord | LegendsApp/Pods/BoringSSL-GRPC/ssl/d1_both.cc:349-405 | a record of several fragments is accepted like so many records of one, with the same ring and outcome; and when what stands behind them does not parse, that is a decode error, unless one of them has failed before |
| HandshakeReceiver.GroupingDoesNotMatter | LegendsApp/Pods/BoringSSL-GRPC/ssl/d1_both.cc:349-405 | however fragments are put together to records, the ring and the outcome are the same |
| Provenance.EveryByteArrived | LegendsApp/Pods/BoringSSL-GRPC/ssl/d1_both.cc:265-438 | whatever arrives, genuine or not, in any order: for each byte of a message that is given out a fragment has arrived with this byte in this place, and with the type, length and number that stand in the message's header |
| HandshakeReceiver.Receiver.IsCurrentComplete | LegendsApp/Pods/BoringSSL-GRPC/ssl/d1_both.cc:255-259 | whether the current message has all its bytes |
| HandshakeReceiver.Receiver.GetMessage | LegendsApp/Pods/BoringSSL-GRPC/ssl/d1_both.cc:408-424 | the whole current message, header included, exactly when it is complete |
| HandshakeReceiver.Receiver.NextMessage | LegendsApp/Pods/BoringSSL-GRPC/ssl/d1_both.cc:426-438 | releases the current message and moves the window by one; nothing else changes |
| HandshakeReceiver.Receiver.HasUnprocessedData | LegendsApp/Pods/BoringSSL-GRPC/ssl/d1_both.cc:440-457 | whether anything is held apart from a current message that has been handed out |
| RecordWriter.FreshInNextEpoch | LegendsApp/Pods/BoringSSL-GRPC/ssl/dtls_method.cc:97-107 | an epoch change leaves every nonce ahead unused, also those of the epoch before |
| RecordWriter.FreshAfterUse | LegendsApp/Pods/BoringSSL-GRPC/ssl/dtls_record.cc:294-351 | sealing under the current or the previous epoch leaves the next nonces of both unused |
| RecordWriter.Writer.SetWriteState | LegendsApp/Pods/BoringSSL-GRPC/ssl/dtls_method.cc:97-107 | the epoch counts up and starts at zero, and the previous epoch's sequence is kept for retransmission |
| RecordWriter.HeaderParses | LegendsApp/Pods/BoringSSL-GRPC/ssl/dtls_record.cc:294-351 | a reader that accepts the record's length reads back its type, version, epoch, 48-bit number and ciphertext, whatever follows in the datagram |
| RecordWriter.Writer.SealRecord | LegendsApp/Pods/BoringSSL-GRPC/ssl/dtls_record.cc:294-351 | each attempt uses the nonce that is next, never one used before, until sealing fails or an epoch or sequence wraps; the header names it; overlapping input is refused; the output is at most the stated overhead longer |
| FlightSender.BuiltIsMessage | LegendsApp/Pods/BoringSSL-GRPC/ssl/d1_both.cc:511-537 | a finished message parses as one unfragmented message with the header it was given |
| FlightSender.WalkTiles | LegendsApp/Pods/BoringSSL-GRPC/ssl/d1_both.cc:644-780 | any sequence of records that the sender's position walks through tiles every message it passes with contiguous fragments that do not overlap |
| FlightSender.TilesCover | LegendsApp/Pods/BoringSSL-GRPC/ssl/d1_both.cc:644-734 | tiles carry a message's body exactly; an empty body has exactly one empty fragment |
| FlightSender.TilesUnderEpoch | LegendsApp/Pods/BoringSSL-GRPC/ssl/d1_both.cc:650-656 | every tile of a message is sealed under the epoch in which the message was added |
| FlightSender.WalkProgress | LegendsApp/Pods/BoringSSL-GRPC/ssl/d1_both.cc:739-780 | a packet with any record moves the position strictly forward |
| FlightSender.Sender.AddOutgoing | LegendsApp/Pods/BoringSSL-GRPC/ssl/d1_both.cc:555-594 | adds a message to the flight and the transcript under the current epoch, starts a new flight after a complete one, and refuses the eighth |
| FlightSender.Sender.AddMessage | LegendsApp/Pods/BoringSSL-GRPC/ssl/d1_both.cc:511-537 | the message added carries the next number, and the numbers count up |
| FlightSender.Sender.SealNextMessage | LegendsApp/Pods/BoringSSL-GRPC/ssl/d1_both.cc:644-734 | the next fragment is genuine, sealed under the epoch in which its message was added, moves the position by what it carries, and is only cut where the room ends; there is no progress exactly when there is no room for one byte of it, and otherwise an error |
| FlightSender.Sender.SealNextPacket | LegendsApp/Pods/BoringSSL-GRPC/ssl/d1_both.cc:739-780 | a packet is at most the MTU, has a fragment, carries on exactly where the sender was, and ends before the flight does only when a message is cut or the room does not do for the next one; it fails only when sealing does, when the flight has a message of another epoch or that is no message, or when the MTU does not do for one byte |
| FlightSender.Sender.SendPacket | LegendsApp/Pods/BoringSSL-GRPC/ssl/d1_both.cc:797-818 | a packet the transport refuses is rewound, position and all |
| FlightSender.Sender.SendPackets | LegendsApp/Pods/BoringSSL-GRPC/ssl/d1_both.cc:797-818 | the loop terminates, carries on from the position, every packet within the MTU, and is at the end of the flight when it is through; it is blocked only when the transport refuses, and fails only for the reasons that a packet does |
| FlightSender.Sender.SendFlight | LegendsApp/Pods/BoringSSL-GRPC/ssl/d1_both.cc:782-827 | what is sent carries on from the position, every packet within the MTU; on success the flight is at its end; it is blocked only when the transport refuses, and fails only when the connection is shut down or a packet fails |
| FlightSender.Sender.FlushFlight | LegendsApp/Pods/BoringSSL-GRPC/ssl/d1_both.cc:829-834 | the flight is complete and is sent as far as the transport takes it |
| FlightSender.Sender.Retransmit | LegendsApp/Pods/BoringSSL-GRPC/ssl/d1_both.cc:836-845 | starts over, and when it gets through its packets tile every message of the flight, each under the epoch in which it was added |
| FlightSender.Sender.UpdateMtu | LegendsApp/Pods/BoringSSL-GRPC/ssl/d1_both.cc:615-632 | an MTU that is too small is replaced by the transport's answer or the default |
| FlightSender.Sender.NoteReply | LegendsApp/Pods/BoringSSL-GRPC/ssl/d1_both.cc:434-437 | a message taken after a complete flight is noted as the reply to it |
| FlightSender.Sender.OnHandshakeComplete | LegendsApp/Pods/BoringSSL-GRPC/ssl/dtls_method.cc:71-79 | a flight that has been answered is dropped, and one that has not is kept for retransmission |
| DtlsTransport.AcceptGenuine | LegendsApp/Pods/BoringSSL-GRPC/ssl/d1_both.cc:297-406 | a genuine record is refused in exactly three cases and otherwise marks exactly its own bytes, whatever arrived before |
| DtlsTransport.StepKeeps | LegendsApp/Pods/BoringSSL-GRPC/ssl/d1_both.cc:297-438 | every step of sender, network and receiver, which delivers records of one or several fragments, keeps the two in agreement |
| DtlsTransport.DeliveredIsPrefix | LegendsApp/Pods/BoringSSL-GRPC/ssl/d1_both.cc:408-438 | in every run with arbitrary loss, repetition and reordering, the messages released are, in order and byte for byte, headers included, a beginning of those added |
| DtlsTransport.BatchAccepted | LegendsApp/Pods/BoringSSL-GRPC/ssl/d1_both.cc:297-406 | a batch of records, each of any number of the sender's fragments, is accepted if and only if none of them is, by its header, one of those three cases |
| DtlsTransport.CoverageCompletes | LegendsApp/Pods/BoringSSL-GRPC/ssl/d1_both.cc:242-259 | a message is complete once fragments that together carry all its bytes have arrived, in any order, however overlapping and in whichever records, among any others that are not among those three cases |
| DtlsTransport.PassCompletes | LegendsApp/Pods/BoringSSL-GRPC/ssl/d1_both.cc:644-845 | once the fragments of one pass over a message have arrived, in whichever records, and none that is to be refused, the receiver has that message, byte for byte |
| PbWire.VarintLength | LegendsApp/Pods/nanopb/pb_encode.c:574-594 | a value takes at most n bytes if and only if it is below 2 to the 7n |
| PbWire.VarintRoundTrip | LegendsApp/Pods/nanopb/pb_decode.c:250-270 | decoding undoes encoding for every 64-bit value, in at most 10 bytes, and takes exactly those bytes |
| PbFormat.ReadsEveryVarint | LegendsApp/Pods/nanopb/pb_decode.c:250-270 | every varint of at most ten bytes, canonical or not, is read as the low 64 bits of the number in its seven-bit digits, and takes exactly its bytes; a longer one is refused |
| PbFormat.ReadsExactlyVarints | LegendsApp/Pods/nanopb/pb_decode.c:250-270 | and nothing else is read: input without a last byte in the first ten is refused |
| PbWire.Varint32Decodes | LegendsApp/Pods/nanopb/pb_decode.c:182-242 | for every 64-bit value, what the 32-bit decoder makes of its canonical encoding: its low 32 bits, if and only if it is below 2 to the 32, or has bits 31 and 63 set and each seven-bit digit at bits 35 to 62 is all zeros or all ones; otherwise it is refused |
| PbWire.Varint32RoundTrip | LegendsApp/Pods/nanopb/pb_decode.c:182-242 | on values below 2 to the 63 that is the value if it fits and refusal otherwise |
| PbWire.Varint32SignExtended | LegendsApp/Pods/nanopb/pb_decode.c:211-237 | a negative 32-bit number in its 64-bit encoding comes back as its low 32 bits |
| PbWire.UncanonicalAccepted | LegendsApp/Pods/nanopb/pb_decode.c:194-237 | six bytes that encode 7 times 2 to the 32, uncanonically, and that the 32-bit decoder reads as zero |
| PbWire.ZigZagRoundTrip | LegendsApp/Pods/nanopb/pb_decode.c:1240-1252 | the zigzag pair is the identity on all signed 64-bit numbers, and maps them as the format says |
| PbWire.FixedRoundTrip | LegendsApp/Pods/nanopb/pb_encode.c:607-632 | little-endian decoding undoes encoding at every width |
| PbStreams.OStream.Write | LegendsApp/Pods/nanopb/pb_encode.c:101-119 | a stream that counts and one that writes advance alike; a buffer that is too small is refused, and what stands outside the written range does not change |
| PbStreams.OStream.EncodeVarint | LegendsApp/Pods/nanopb/pb_encode.c:574-594 | emits the canonical encoding, byte by byte from the digits laid out in place |
| PbStreams.OStream.EncodeSvarint | LegendsApp/Pods/nanopb/pb_encode.c:596-605 | emits the zigzag encoding |
| PbStreams.OStream.EncodeFixed | LegendsApp/Pods/nanopb/pb_encode.c:607-632 | emits the little-endian bytes |
| PbStreams.OStream.EncodeString | LegendsApp/Pods/nanopb/pb_encode.c:674-680 | emits the length and the bytes |
| PbStreams.IStream.Read | LegendsApp/Pods/nanopb/pb_decode.c:100-132 | takes exactly the bytes asked for, or none when there are fewer |
| PbStreams.IStream.DecodeVarint | LegendsApp/Pods/nanopb/pb_decode.c:250-270 | the loop computes the varint at the front of the input, or fails with it |
| PbStreams.IStream.DecodeVarint32 | LegendsApp/Pods/nanopb/pb_decode.c:182-242 | the same for the 32-bit decoder, with its treatment of digits past bit 32 |
| PbStreams.IStream.MakeSubstream | LegendsApp/Pods/nanopb/pb_decode.c:367-380 | the substream is exactly the bytes the length announces, and what is left is exactly what follows |
| PbStreams.IStream.CloseSubstream | LegendsApp/Pods/nanopb/pb_decode.c:382-395 | the parent goes on behind the substream, however much of it was read |
| PbFieldIter.SameSlotSamePlace | LegendsApp/Pods/nanopb/pb_common.c:39-70 | fields that share a slot of the model share their place in the struct; and the other way round, when no field from the one up to the other is of size zero |
| PbFieldIter.FieldIter.Begin | LegendsApp/Pods/nanopb/pb_common.c:8-18 | starts at the first field |
| PbFieldIter.FieldIter.Next | LegendsApp/Pods/nanopb/pb_common.c:20-76 | moves on by one field or wraps around; the data position stays the prefix sum of the layout and the index the count of required fields before |
| PbFieldIter.FieldIter.Find | LegendsApp/Pods/nanopb/pb_common.c:78-95 | from any position, in one lap, finds a tag exactly when the descriptor has it |
| PbEncode.EncodeVal | LegendsApp/Pods/nanopb/pb_encode.c:734-868 | each field encoder emits exactly its value's encoding, or fails with it |
| PbEncode.EncodeSubmessage | LegendsApp/Pods/nanopb/pb_encode.c:682-730 | for every schema, sizing first and writing then agree: the check for a changed size never fails |
| PbEncode.EncodeArray | LegendsApp/Pods/nanopb/pb_encode.c:126-211 | packed or one tag per entry; a packed array's size computed in advance is the size written |
| PbEncode.EncodeField | LegendsApp/Pods/nanopb/pb_encode.c:307-392 | what each kind of field writes, and when it writes nothing |
| PbEncode.Encode | LegendsApp/Pods/nanopb/pb_encode.c:494-516 | emits the encodings of all fields in the order of the descriptor |
| PbEncode.GetEncodedSize | LegendsApp/Pods/nanopb/pb_encode.c:533-542 | the size is that of the encoding, and there is one exactly when there is an encoding |
| PbEncode.EncodeToBuffer | LegendsApp/Pods/nanopb/pb_encode.c:84-119 | encoding into a buffer succeeds exactly when the message has an encoding and it fits, and then the buffer starts with it |
| PbFormat.ValuesOnWire | LegendsApp/Pods/nanopb/pb_encode.c:574-680 | what is written for a field is of the wire format: the tag is eight times the number and 0, 1, 2 or 5 by type; integers are varints in seven-bit digits, negative ones modulo two to the 64 or with the sign in the last bit; fixed widths are little-endian; the rest is a length and as many bytes |
| PbDecode.SignedCasts | LegendsApp/Pods/nanopb/pb_decode.c:1289-1324 | casting to 32 bits, then to the field's width, and comparing, is the range check on the sign-corrected value |
| PbDecode.DecodeSigned | LegendsApp/Pods/nanopb/pb_decode.c:1289-1324 | the value read, if it is in the field's range |
| PbDecode.DecodeUnsigned | LegendsApp/Pods/nanopb/pb_decode.c:1326-1348 | the same for unsigned fields |
| PbDecode.DecodeZigZag | LegendsApp/Pods/nanopb/pb_decode.c:1350-1372 | the same for zigzag fields |
| PbDecode.DecodeFixed | LegendsApp/Pods/nanopb/pb_decode.c:1254-1287 | the four or eight bytes at the front, little-endian |
| PbDecode.DecodeBytes | LegendsApp/Pods/nanopb/pb_decode.c:1391-1426 | the bytes announced, if they fit behind the size field of the destination |
| PbDecode.DecodeString | LegendsApp/Pods/nanopb/pb_decode.c:1428-1461 | the bytes up to the first zero, if they fit with a terminator |
| PbDecode.DecodeFixedBytes | LegendsApp/Pods/nanopb/pb_decode.c:1487-1508 | exactly the bytes of the field, or zeros for an empty value |
| PbFormat.BlobsRead | LegendsApp/Pods/nanopb/pb_decode.c:1391-1508 | what is read behind a length: bytes if they fit with their size, a string up to its first zero if it fits with a terminator, and bytes of fixed length if they have it or are none, which stands for zeros; and exactly then |
| PbDecode.DecodeSubmessage | LegendsApp/Pods/nanopb/pb_decode.c:1463-1485 | a nested message, into what is there already or, for array entries, into defaults; what is left of the substream is skipped |
| PbDecode.DecodePacked | LegendsApp/Pods/nanopb/pb_decode.c:418-444 | entries until the bytes or the places run out; bytes left over are an error |
| PbDecode.DecodeEntryField | LegendsApp/Pods/nanopb/pb_decode.c:445-456 | a single entry of an array, appended or in its place, or refused when the array is full |
| PbDecode.DecodeStatic | LegendsApp/Pods/nanopb/pb_decode.c:401-475 | what each kind of field does with its slot |
| PbDecode.DecodeTag | LegendsApp/Pods/nanopb/pb_decode.c:293-314 | field number and wire type, or a zero that ends the message |
| PbDecode.SkipFieldOf | LegendsApp/Pods/nanopb/pb_decode.c:316-326 | does to the stream what the skipping of a field does to its bytes, and fails for a wire type that cannot be skipped |
| PbForeign.SkipsValue | LegendsApp/Pods/nanopb/pb_decode.c:316-326 | skipping undoes encoding: for every field and value with fitting lengths, by the field's wire type, exactly the value's bytes are skipped, whatever follows them |
| PbDecode.SetToDefaults | LegendsApp/Pods/nanopb/pb_decode.c:812-895 | every slot gets its default, through the iterator |
| PbDecode.NoteField | LegendsApp/Pods/nanopb/pb_decode.c:961-986 | the array of fixed count being filled and the bitset of required fields are kept up |
| PbDecode.CheckRequired | LegendsApp/Pods/nanopb/pb_decode.c:1006-1045 | counting to the end of the descriptor and comparing words of bits tells whether all of the first 64 required fields were seen |
| PbDecode.DecodeTurn | LegendsApp/Pods/nanopb/pb_decode.c:918-996 | one field of the input: known, unknown, or the end |
| PbDecode.DecodeNoinit | LegendsApp/Pods/nanopb/pb_decode.c:901-1049 | the stream decoder computes the decoding specified on byte sequences, and fails exactly with it |
| PbDecode.Decode | LegendsApp/Pods/nanopb/pb_decode.c:1051-1063 | the same from defaults |
| PbRequired.AllSeen | LegendsApp/Pods/nanopb/pb_decode.c:1024-1045 | the comparison of whole words and of the last partial word holds exactly when every number below the count was seen |
| PbRequired.CountedIsSeen | LegendsApp/Pods/nanopb/pb_decode.c:1006-1045 | the check on numbers below the count is the check on the required fields |
| PbRequired.RequiredFieldsOccur | LegendsApp/Pods/nanopb/pb_decode.c:988-1045 | decoding succeeds exactly when the loop does, the last array of fixed count is complete, and each of the first 64 required fields occurs in the input |
| PbRoundTrip.ValDecodes | LegendsApp/Pods/nanopb/pb_decode.c:1289-1508 | every value of every type decodes to what was written of it, whatever follows it, if the lengths in it fit |
| PbRoundTrip.PackedDecodes | LegendsApp/Pods/nanopb/pb_decode.c:418-444 | a packed array decodes to its entries, appended or in their places |
| PbRoundTrip.TaggedDecodes | LegendsApp/Pods/nanopb/pb_decode.c:445-456 | so does an array with a tag for each entry, whether it could have been packed or not |
| PbArrays.ArrayInParts | LegendsApp/Pods/nanopb/pb_decode.c:401-456 | an array of numbers that comes in parts, each packed or one entry at a time, decodes to all their entries in order, whatever the parts are |
| PbArrays.OverflowRefused | LegendsApp/Pods/nanopb/pb_decode.c:418-456 | a part with more entries than there are places left is refused, packed or not |
| PbRoundTrip.FieldDecodes | LegendsApp/Pods/nanopb/pb_decode.c:901-1049 | what one field wrote, decoded in any state that earlier fields lead to, settles that field and nothing else; and a field with a length that does not fit fails |
| PbRoundTrip.MsgDecodes | LegendsApp/Pods/nanopb/pb_decode.c:901-1063 | under every schema every well-formed message has an encoding; decoding it gives what was written, with defaults for the rest, and consumes it all, if and only if every length in it is below 2 to the 32, and fails otherwise |
| PbRoundTrip.SmallFits | LegendsApp/Pods/nanopb/pb_encode.c:682-730 | in an encoding below 4 GiB every length fits |
| PbKept.KeptExactly | LegendsApp/Pods/nanopb/pb_encode.c:215-303 | what comes back is the message if and only if every proto3 singular field in it, at any depth, is written or holds what the decoder initialises it to |
| PbKept.RoundTrip | LegendsApp/Pods/nanopb/pb_decode.c:1051-1063 | decoding the encoding of a message gives back the message, if and only if every length fits and every singular field is kept in that sense |
| PbKept.PlainKept | LegendsApp/Pods/nanopb/pb_encode.c:215-303 | which they all are, in every message, when singular fields default to zero and singular submessages hold no array of fixed count |
| PbKept.PlainRoundTrip | LegendsApp/Pods/nanopb/pb_decode.c:1051-1063 | under such schemas every message with an encoding below 4 GiB comes back |
| PbKept.ZeroBecomesFive | LegendsApp/Pods/nanopb/pb_encode.c:319-330 | a singular field with a default pointer to five: a zero in it is not written, and decodes to five |
| PbKept.PairLost | LegendsApp/Pods/nanopb/pb_encode.c:218-229 | a singular submessage that holds an array of two 32-bit numbers without a counter: it is lost exactly when the first number is zero and the second is not, and comes back as zeros |
| PbKept.LargeArrayRefused | LegendsApp/Pods/nanopb/pb_decode.c:367-380 | an array of 2 to the 29 bytes, all -1, has an encoding, which the decoder refuses |
| PbMerge.LoopGoesOn | LegendsApp/Pods/nanopb/pb_decode.c:918-996 | decoding is stable under appending: the loop that came to the end of its input goes on with what follows |
| PbMerge.Composes | LegendsApp/Pods/nanopb/pb_decode.h:70-79 | unless the two clash over an array of fixed count, a concatenation decodes exactly when its second part does on top of the first and both together have the required fields, with the second part's result |
| PbMerge.DecodingComposes | LegendsApp/Pods/nanopb/pb_decode.h:70-79 | decoding one part to its end and another on top of it is decoding the two in one, if and only if the last array of fixed count in the one is not the first in the other, or has no entries; otherwise the two in one are refused |
| PbMerge.LastMet | LegendsApp/Pods/nanopb/pb_decode.c:961-986 | the array of fixed count that the loop has noted at its end is the last one that it met in the input |
| PbMerge.FixedCountsClash | LegendsApp/Pods/nanopb/pb_decode.c:961-986 | an input that decodes on top of anything, but not twice in a row |
| PbMerge.UnknownFieldsHarmless | LegendsApp/Pods/nanopb/pb_decode.c:273-326 | inserting any well-formed unknown fields at field boundaries never changes what a message decodes to |
| PbForeign.ForeignFieldHarmless | LegendsApp/Pods/nanopb/pb_decode.c:273-326 | what the encoder writes for a field that the reader's descriptor does not have never changes what a message decodes to |
| PbForeign.OlderReader | LegendsApp/Pods/nanopb/pb_decode.c:918-996 | so a reader gets all that it knows of a message from a writer that knows more fields, wherever between its own the others stand |
| PbAgain.LastWins | LegendsApp/Pods/nanopb/pb_decode.c:445-475 | a second occurrence of a field overrides the first, and so does another member of the same union |
| PbAgain.SubmessagesMerge | LegendsApp/Pods/nanopb/pb_decode.c:1463-1485 | a second occurrence of a submessage is merged into the first: the two decode like one with the bytes of both, if and only if those do not clash over an array of fixed count; if they do, that one is refused |
| PbAgain.ZeroEnds | LegendsApp/Pods/nanopb/pb_decode.c:293-314 | a zero in place of a tag ends the message, whatever follows it |
| PbAgain.SubmessageEnds | LegendsApp/Pods/nanopb/pb_decode.c:382-395 | and in a submessage what follows it in its bytes is passed over |
| PbSettled.MsgStays | LegendsApp/Pods/nanopb/pb_decode.c:901-1063 | whatever the input, what a struct holds after decoding fits its fields: numbers in range, strings terminated, bytes and arrays in their places |
| PbSettled.DecodedEncodes | LegendsApp/Pods/nanopb/pb_decode.c:901-1063 | so whatever has been decoded has an encoding |
| PbSettled.PlainDecodedEncodes | LegendsApp/Pods/nanopb/pb_decode.c:901-1063 | and, under plain schemas and below 4 GiB, that encoding decodes to the same again |
| SslBuffer.ContentsSurvive | LegendsApp/Pods/BoringSSL-GRPC/ssl/ssl_buffer.cc:47-97 | an allocation keeps its contents, wherever its window starts, whatever is in it and however much is consumed, if and only if its capacity is at most 65529 |
| SslBuffer.Buffer.EnsureCap | LegendsApp/Pods/BoringSSL-GRPC/ssl/ssl_buffer.cc:47-81 | the contents survive growing; it fails exactly when more than 65535 bytes are asked for, or more than there are and memory has none; and the buffer becomes one whose offset can wrap only if it was asked to be that large |
| SslBuffer.Buffer.Append | LegendsApp/Pods/BoringSSL-GRPC/ssl/ssl_buffer.cc:83-88 | what is written behind the contents is appended to them |
| SslBuffer.Buffer.Consume | LegendsApp/Pods/BoringSSL-GRPC/ssl/ssl_buffer.cc:90-97 | what the contents are afterwards, in every case: the rest of them, or, when the 16-bit offset wraps with something left, as many bytes from the start of the array |
| TlsWriter.Writer.AddRecordToFlight | LegendsApp/Pods/BoringSSL-GRPC/ssl/s3_both.cc:135-165 | one sealed record at the end of the flight, or none; bytes sent, buffer and flight stay the records in sealing order |
| TlsWriter.Writer.AddMessage | LegendsApp/Pods/BoringSSL-GRPC/ssl/s3_both.cc:184-205 | a message becomes records that carry it in order, all but the last of full size; an empty one becomes one record; and that fails only when sealing does |
| TlsWriter.Writer.OfferTaken | LegendsApp/Pods/BoringSSL-GRPC/ssl/ssl_buffer.cc:239-252 | what the transport gets is a beginning of the contents; the order of all bytes is kept until an offset wraps with something left, and only then not |
| TlsWriter.Writer.FlushBuffer | LegendsApp/Pods/BoringSSL-GRPC/ssl/ssl_buffer.cc:239-252 | whatever part the transport takes, nothing is lost, repeated or reordered, unless an offset wraps; on success the buffer is empty, and without it the transport has refused |
| TlsWriter.Writer.FlushFlight | LegendsApp/Pods/BoringSSL-GRPC/ssl/s3_both.cc:231-279 | the buffer goes before the flight; when it is through with a flight, the transport has every record ever sealed, unless an offset has wrapped; when it is not, the transport has refused, or the write side is shut down or the flight too long, and then nothing is sent |
| TlsWriter.Writer.QueueRecord | LegendsApp/Pods/BoringSSL-GRPC/ssl/s3_pkt.cc:236-268 | what is left of the flight goes in front of the new record, in the buffer |
| TlsWriter.Writer.DoWrite | LegendsApp/Pods/BoringSSL-GRPC/ssl/s3_pkt.cc:221-289 | completes the interrupted write, or seals one new record, or does nothing, and says which; an offset can wrap later only if the record and what was left of the flight needed more than 65529 bytes |
| TlsWriter.OrderBreaks | LegendsApp/Pods/BoringSSL-GRPC/ssl/s3_pkt.cc:236-268 | for every capacity from 65530 to 65535 a writer that has been asked for it, by three full handshake records and one of data, sends something that is not a beginning of its records |
| TlsWriter.Writer.WritePending | LegendsApp/Pods/BoringSSL-GRPC/ssl/s3_pkt.cc:202-218 | an interrupted write is completed only by a call that repeats it, and by such a call unless the transport refuses |
| TlsWriter.WriteSeals | LegendsApp/Pods/BoringSSL-GRPC/ssl/s3_pkt.cc:178-199 | one write moves the sealed part of the input forward by exactly what is reported now or will be reported by the retry |
| TlsWriter.Writer.WriteAppData | LegendsApp/Pods/BoringSSL-GRPC/ssl/s3_pkt.cc:129-200 | across failures and retries exactly the reported part of the input is sealed, and what an interrupted write will report, in records that are full but for the one with the end of the input; without partial writes the count returned is the whole input; early data never exceeds what the ticket allows, and when no more is allowed the handshake has to go on; once the write side is shut down it answers -1 and changes nothing; and in any case nothing is reported written only for one of the reasons listed: a refusal by transport, AEAD or memory, another interrupted write, a length already passed, or no room |
| TlsWriter.Writer.StaysClosed | LegendsApp/Pods/BoringSSL-GRPC/ssl/s3_pkt.cc:136-139 | after a closing or fatal alert has been raised, no sequence of further writes and other events seals any application data |
| TlsWriter.Writer.SendAlert | LegendsApp/Pods/BoringSSL-GRPC/ssl/s3_pkt.cc:377-403 | nothing after a closing alert; otherwise the side is closed, by a notice or an error as the alert says, and the alert is dispatched at once exactly when the buffer is empty, as one record with its two bytes |
| TlsWriter.Writer.DispatchAlert | LegendsApp/Pods/BoringSSL-GRPC/ssl/s3_pkt.cc:405-423 | the alert is sealed once, as one record, and application data is untouched |
| TlsWriter.Writer.Interludes | LegendsApp/Pods/BoringSSL-GRPC/ssl/s3_pkt.cc:377-423 | any number of flushes, handshake messages, key changes and alerts of any level, in any order, leave the application data sealed and what an interrupted write will report as they are |
| TlsWriter.Writer.WriteAll | LegendsApp/Pods/BoringSSL-GRPC/ssl/s3_pkt.cc:129-200 | a caller that keeps retrying, with any of that happening in between: when told that all is written, the whole input has been sealed, each byte once; until then a beginning of it |
| CipherChoice.BestIsUnique | LegendsApp/Pods/BoringSSL-GRPC/ssl/internal.h:1860-1893 | the order by groups, and inside a group by the client's list, singles out one cipher |
| CipherChoice.BestWithoutGroups | LegendsApp/Pods/BoringSSL-GRPC/ssl/handshake_server.cc:357-424 | without groups the best cipher is the first acceptable one |
| CipherChoice.Scan | LegendsApp/Pods/BoringSSL-GRPC/ssl/handshake_server.cc:389-421 | the loop with its running minimum finds the best cipher of the grouped list, and nothing exactly when none is acceptable |
| CipherChoice.SharedGroup | LegendsApp/Pods/BoringSSL-GRPC/ssl/t1_lib.cc:303-336 | the first group in the order of preference that the other side has, if there is one |
| CipherChoice.UsableIsServed | LegendsApp/Pods/BoringSSL-GRPC/ssl/handshake_server.cc:323-355 | the two masks let exactly the ciphers through whose key exchange and authentication the server has what it needs for |
| CipherChoice.ChooseCipher | LegendsApp/Pods/BoringSSL-GRPC/ssl/handshake_server.cc:357-424 | none exactly when the server can serve no common cipher; otherwise one in both lists that it can serve in this version, with its key, a shared group or its callback: by server preference the best of the server's groups, otherwise the client's first acceptable cipher |
| ConstantTime.MsbW | LegendsApp/Pods/BoringSSL-GRPC/crypto/internal.h:244-246 | all ones exactly when the top bit is set, for all 64-bit words |
| ConstantTime.IsZeroW | LegendsApp/Pods/BoringSSL-GRPC/crypto/internal.h:303-316 | all ones exactly for zero |
| ConstantTime.EqW | LegendsApp/Pods/BoringSSL-GRPC/crypto/internal.h:325-328 | all ones exactly for equal words |
| ConstantTime.Select8 | LegendsApp/Pods/BoringSSL-GRPC/crypto/internal.h:351-362 | the first byte under a mask of ones, the second under zeros, also after widening |
| Premaster.FixedPlaces | LegendsApp/Pods/BoringSSL-GRPC/ssl/handshake_server.cc:1142-1178 | for a block of sufficient length, the checks at fixed places are PKCS #1 decoding (section 7.2.2 of RFC 3447) with a 48-byte message that begins with the client's version |
| Premaster.UnpadExactly | LegendsApp/Pods/BoringSSL-GRPC/ssl/handshake_server.cc:1142-1170 | exactly the blocks that are 00 02, at least eight padding bytes without a zero, a zero and a message decode, each to that message |
| Premaster.CheckPadding | LegendsApp/Pods/BoringSSL-GRPC/ssl/handshake_server.cc:1142-1170 | the mask accumulated without branches is all ones exactly when every check passes |
| Premaster.SelectPremaster | LegendsApp/Pods/BoringSSL-GRPC/ssl/handshake_server.cc:1130-1178 | the premaster is the decoded message if there is one of the right form and the random secret otherwise (section 7.4.7.1 of RFC 5246), and short blocks are refused |
| HandshakeScript.OrderOfMessages | LegendsApp/Pods/BoringSSL-GRPC/ssl/handshake_client.cc:1707-1789 | every handshake has, in the order of figures 1 and 2 of RFC 5246 with the extensions' messages in their places, exactly the messages for which there is a reason in the flags |
| ClientMachine.StepMoves | LegendsApp/Pods/BoringSSL-GRPC/ssl/handshake_client.cc:535-1789 | every step of the client consumes the message that the order of the handshake has next, or sends what it has next, or neither |
| ClientMachine.StepKeepsFacts | LegendsApp/Pods/BoringSSL-GRPC/ssl/handshake_client.cc:1073-1672 | the client is done only with its Finished sent and the server's checked, and knows from the server's messages whether a certificate is wanted |
| ClientMachine.StepRests | LegendsApp/Pods/BoringSSL-GRPC/ssl/handshake_client.cc:1707-1789 | a step never blames the peer, and waits for a message only where the server is to send one |
| ClientMachine.FinishedMoves | LegendsApp/Pods/BoringSSL-GRPC/ssl/handshake_client.cc:1457-1512 | ChangeCipherSpec, next protocol, Channel ID and Finished, in this order, the Finished over all before it |
| ClientMachine.EarlyReturns | LegendsApp/Pods/BoringSSL-GRPC/ssl/handshake_client.cc:1538-1564 | a False Start is asked for only in a full handshake with an ephemeral key exchange, with our Finished and all before it sent, and the server's not yet checked |
| ClientMachine.TakesOnlyItsOwn | LegendsApp/Pods/BoringSSL-GRPC/ssl/handshake_client.cc:535-1672 | whatever message is at hand: a step takes only one of a kind that belongs to its state, a Finished only over the client's own transcript; what does not belong there is unexpected, exactly then, and changes nothing; and optional messages are passed over exactly where they may be missing |
| ClientMachine.CheckedIsGenuine | LegendsApp/Pods/BoringSSL-GRPC/ssl/handshake.cc:380-429 | the server's Finished counts as checked only when one over the client's transcript was at hand; a different one is blamed on the server and changes nothing |
| ClientMachine.NothingSlipsThrough | LegendsApp/Pods/BoringSSL-GRPC/ssl/tls_method.cc:84-95 | read keys change only with no message left over, and a server's certificate is passed only when its verification goes well |
| ClientAlone.DoneAlone | LegendsApp/Pods/BoringSSL-GRPC/ssl/handshake_client.cc:1707-1789 | against any peer at all: in every run in which the client gets done, what it has heard and said is a whole handshake, in order and each message once, with every record of the server under the keys current then, and every Finished over all that came before it |
| ServerMachine.StepMoves | LegendsApp/Pods/BoringSSL-GRPC/ssl/handshake_server.cc:426-1621 | every step of the server consumes the message that the order of the handshake has next, or sends what it has next, or neither |
| ServerMachine.StepKeepsFacts | LegendsApp/Pods/BoringSSL-GRPC/ssl/handshake_server.cc:940-1537 | the server is done only with its Finished sent and the client's checked, and expects a CertificateVerify exactly when the client sent a certificate |
| ServerMachine.StepRests | LegendsApp/Pods/BoringSSL-GRPC/ssl/handshake_server.cc:1539-1621 | a step never blames the peer, and waits for a message only where the client is to send one |
| ServerMachine.FinishedMoves | LegendsApp/Pods/BoringSSL-GRPC/ssl/handshake_server.cc:1463-1509 | the new ticket, ChangeCipherSpec and Finished, in this order, the Finished over all before it |
| ServerMachine.TakesOnlyItsOwn | LegendsApp/Pods/BoringSSL-GRPC/ssl/handshake_server.cc:426-1537 | whatever message is at hand: a step takes only one of a kind that belongs to its state, a Finished or CertificateVerify only over the server's own transcript; what does not belong there is unexpected, exactly then, and changes nothing |
| ServerMachine.CheckedIsGenuine | LegendsApp/Pods/BoringSSL-GRPC/ssl/handshake.cc:380-429 | the client's Finished counts as checked only when one over the server's transcript was at hand, and after a certificate only a CertificateVerify over it leads on; a different one is blamed on the client and changes nothing |
| ServerMachine.NothingSlipsThrough | LegendsApp/Pods/BoringSSL-GRPC/ssl/tls_method.cc:84-95 | read keys change only with no message left over, and a client's certificate is passed only when its verification goes well |
| ServerAlone.DoneAlone | LegendsApp/Pods/BoringSSL-GRPC/ssl/handshake_server.cc:1539-1621 | against any peer at all: in every run in which the server gets done, what it has heard and said is a whole handshake, as for the client; and a client that has shown a certificate has sent a CertificateVerify over all that came before it |
| HandshakeAlone.WholeIsScript | LegendsApp/Pods/BoringSSL-GRPC/ssl/handshake.cc:491-628 | the points that those runs go through are those of the order of messages |
| Lockstep.StepKeepsLockstep | LegendsApp/Pods/BoringSSL-GRPC/ssl/handshake.cc:380-476 | a step of either side keeps the two in lockstep: one is behind by exactly what is on the way to it, with the same transcript, keys and continuation behind that |
| Lockstep.LockstepExpects | LegendsApp/Pods/BoringSSL-GRPC/ssl/handshake.cc:165-174 | the message at hand is always the one that is expected, and a Finished or CertificateVerify is over the reader's own transcript |
| Lockstep.TakeKeyChange | LegendsApp/Pods/BoringSSL-GRPC/ssl/tls_method.cc:84-95 | the keys change at the same place in the stream on both sides, with no message left over |
| HandshakeRun.EventKeeps | LegendsApp/Pods/BoringSSL-GRPC/ssl/handshake.cc:491-628 | steps, flights sent in parts, flushes that fail, records read and resumed waits, in any order, keep the two in lockstep |
| HandshakeRun.NeverUnexpected | LegendsApp/Pods/BoringSSL-GRPC/ssl/handshake.cc:380-429 | in every run neither side finds a message out of order, a Finished over another transcript, or a record under other keys |
| HandshakeRun.SameTranscript | LegendsApp/Pods/BoringSSL-GRPC/ssl/handshake.cc:215-222 | in every run one side's transcript is a beginning of the other's |
| HandshakeRun.EveryMessageOnce | LegendsApp/Pods/BoringSSL-GRPC/ssl/handshake.cc:215-222 | in every run a side has hashed a beginning of the handshake's messages in order, and when done each of them exactly once |
| HandshakeRun.DoneMeansFinished | LegendsApp/Pods/BoringSSL-GRPC/ssl/handshake.cc:380-476 | a side that is done has sent its Finished and checked the other's |
| HandshakeRun.BothDone | LegendsApp/Pods/BoringSSL-GRPC/ssl/handshake.cc:380-476 | when both are done their transcripts are equal and nothing is left in any queue |
| HandshakeRun.CanFinish | LegendsApp/Pods/BoringSSL-GRPC/ssl/handshake.cc:491-628 | from every state that a run reaches, unless a side has given up, both can get done: the two never wait for each other |
| HandshakeLoop.Connection.RunMachine | LegendsApp/Pods/BoringSSL-GRPC/ssl/handshake_client.cc:1707-1789 | the loop over the machine's states is a run of steps that ends where the machine waits or is done |
| HandshakeLoop.Connection.RunHandshake | LegendsApp/Pods/BoringSSL-GRPC/ssl/handshake.cc:491-628 | the wait and resume loop terminates, is a run of events of its own side, fails only when the side itself gives up, returns early only in the state of a False Start, completes only when done with both Finished messages, and is blocked only when there is nothing to be read, the transport has not taken the flight, or a callback was waited for |

## Left out

- Cryptography: sealing returns any bytes within the stated overhead, or fails; opening, hashes, signatures, key
  exchange and certificates are answers from outside.
- Transport and clock: writes take any part of what they are offered or fail; DTLS timers are not modelled.
- Allocation failures, except where a method says that it may fail; reference counts; message and info callbacks.
- TLS 1.3, SSL 3.0, early data in the handshake, renegotiation, HelloVerifyRequest, V2ClientHello, handoff, and the
  session cache beyond the ticket flag.
- How the flags of the handshake are negotiated: they are given, the same on both sides. The contents of hello and key
  exchange messages, and the key computations, are not modelled.
- Alerts between the two sides of a handshake: a side that gives up sends nothing more in the model.
- HandshakeRun.EventKeeps: a record holds one whole message, and the transport takes whole records. The sender never
  puts two messages into one record, so that is what leaves it, except that a message longer than `max_send_fragment`
  takes several records; and a record of which the transport has only a part cannot be opened by the other side, so
  for it the record has not been sent.
- HandshakeCore.Received: the same for the reader, which does not see messages cut into several records or joined in
  one, as another sender might do.
- ClientAlone.DoneAlone: the client expects an OCSP response only with a cipher that uses certificates, which the
  parser of that extension checks (`LegendsApp/Pods/BoringSSL-GRPC/ssl/t1_lib.cc:1054-1058`), so the flags are like
  that.
- ServerAlone.DoneAlone: a record holds one whole message here, too, and a side that has failed does nothing more.
- The steps of both handshake machines are functions on the handshake's fields; the class has the loops around them.
- `dtls1_open_change_cipher_spec`.
- FlightSender.Sender: the flight is a sequence of at most seven messages, where the source has an array with a
  counter.
- DtlsTransport.PassCompletes: about batches without a record that the receiver refuses; with one, it is about the
  records in front of that.
- Records in `FlightSender` are known by header, plaintext and length; packets are sequences of records, not bytes.
- Lengths and counts of the nanopb streams are unbounded; a `size_t` that overflows is not modelled.
- nanopb's pointer fields, callbacks, extensions, custom streams, delimited and null-terminated messages, and builds
  without 64-bit integers.
- PbDecode.Decode: the destination struct is a value that is passed in and returned, so aliasing and padding are not
  captured, and what an array of fixed count holds before it is first filled is modelled as zeros.
- PbFieldIter.FieldIter.Begin: offsets are integers that add up to positions; which bytes a value has in the struct is
  not modelled.
- PbSchema.FirstWord: the word that the default check sees of an array of fixed count is known for numbers of 32 and
  64 bits and for bytes. For other entries it is arbitrary in what is encoded, and zero stands for it in what is
  decoded.
- PbRoundTrip.MsgDecodes: about encodings shorter than 2 to the 63 bytes.
- PbMerge.Composes: about a first part that ends with its arrays of fixed count complete.
- PbMerge.UnknownFieldsHarmless: about unknown fields of the outermost message; in a nested message they change its
  length prefix.
- `constant_time_lt_w` and `constant_time_ge_w`, which the premaster selection does not use.
- TlsWriter.Writer.WriteAppData: addresses are numbers that only serve to detect bad retries, and the handshake that
  runs first, when there is one, is an event in between.
- TlsWriter.Writer.FlushBuffer: the pending flight is a sequence with an offset; its memory is not modelled.
- The Swift views, and everything else in the repository.
