# Verified models of BoringSSL's handshake transport and nanopb's codec

This project models, in Dafny, the parts of the vendored libraries under `Market/Pods` that carry
protocol state, and proves what they are for. Each area has a model of the code's own data, operations
that follow the code branch by branch, and theorems over every input, run or interleaving.

* **DTLS handshake transport** (RFC 6347). `DtlsReassembly` is one message under reassembly with its
  bitmask, `DtlsReceiver` the ring of seven, `DtlsSender` a flight cut to the MTU with its rewinding
  cursor, `DtlsRecord` the replay window, `DtlsWriteNumbers` the two live write counters. Objects are
  changed in place and proved against values; `DtlsDelivery` puts sender, receiver and a network that
  loses, duplicates and reorders together, and `DtlsArrival` shows that nothing that arrives is lost.
* **Protocol Buffers codec**. `PbVarint` and `PbSchema` are the numbers and descriptors, `PbWire` the
  wire form and its meaning as functions, `PbRoundTrip` the laws between the two. `PbKept` says what comes
  back field by field, `PbReencode` that any decoded input re-encodes, `PbMerge` how pieces merge,
  `PbRequired` which inputs are refused, and `PbFormat` what the bytes are. `PbIterator`,
  `PbEncoder` and `PbDecoder` are the streams, the two-pass encoder and the decoder with its substreams
  and bitmap, proved to compute exactly those functions.
* **TLS handshake machines** for TLS 1.2 and below. `TlsFlow` states the message flows of RFC 5246 from
  outside, `TlsConnection` what a machine sees of its connection together with a history of what has
  passed, `TlsServer` and `TlsClient` the two machines, suspended and retried at will, and
  `TlsCompletion` what either end guarantees.
* **TLS records**. `TlsWrite` is the write path with its retries, `SslAead` the framing of nonces and
  additional data around an abstract AEAD.
* **Small protocols**. `RefCount` is the saturating reference count under concurrency, `CipherChoice`
  the choice among groups of equal preference, `ConstantTime` the branch-free removal of padding.

Outcomes that depend on the application, the peer's data, cryptography or the transport are arbitrary
values (`:= *`) or functions held by the model; nothing is assumed of them beyond what a lemma's
`requires` says. A handler whose parsing or policy can fail does so at an arbitrary point before it goes on.
An object that is `willing` is one on whose side nothing is refused, put off or found malformed; what such
an object must achieve is stated beside what every object keeps to.

Where the code does not do what one would expect, the model keeps the code:

* Once all 65536 message numbers have been used, a duplicate of an old message is handed out as a new one.
* A fragment exactly seven messages ahead passes the receiver's filter and is then a fatal error.
* A failed seal leaves the send cursor moved; what was sealed into that packet is lost until a rewind.
* A string that fills its field has no terminator: it encodes, and what it encodes to does not decode.
* The 32-bit varint decoder takes some values that are neither 32-bit nor sign-extended.
* In a message type without fields, field number 0 finds the terminator, and decoding fails.
* Only the first 64 required fields are checked.
* A write retried with less than was dealt with forgets the count, and the next one seals bytes again, or
  never succeeds if a record is waiting and the buffer may not move.
* The choice of a cipher relies on a list whose last group ends, which the code that builds lists sees to: in
  another list, ciphers of that group are never chosen.
* Channel ID still counts when the server decides whether to ask for a certificate, although it may be
  given up right after.

## Model

| member | source | states |
|---|---|---|
| DtlsDelivery.DeliveredInOrder | Market/Pods/BoringSSL-GRPC/ssl/d1_both.cc:297-438 | Over every run of one honest sender, one receiver and a network that loses, duplicates and reorders, the messages handed out are a prefix of those sent, in order, each with a raw form equal to the sender's finished message byte for byte, if and only if no more than the 65536 that have a number of their own have been handed out |
| DtlsDelivery.WrapHandsOutAgain | Market/Pods/BoringSSL-GRPC/ssl/d1_both.cc:426-438 | That bound is needed: a run in which, with every number used, a duplicate of the first message is handed out again |
| DtlsArrival.ReadyExactlyWhenArrived | Market/Pods/BoringSSL-GRPC/ssl/d1_both.cc:345-424 | Nothing that arrives in time is lost: over every run, while the connection lives and the counter has not wrapped, the next message can be handed out exactly if it was sent and each of its bytes (of an empty one, a fragment) was delivered while the message was within seven of the next |
| DtlsDelivery.CcsArrives | Market/Pods/BoringSSL-GRPC/ssl/d1_both.cc:319-338 | A ChangeCipherSpec delivered in the clear can then be taken, and every message held stays where it is |
| DtlsDelivery.NetworkIsFree | Market/Pods/BoringSSL-GRPC/ssl/d1_both.cc:297-337 | The network is bound to nothing: what was sent may come at any time, any number of times, as long as the connection lives |
| DtlsDelivery.DeathHasACause | Market/Pods/BoringSSL-GRPC/ssl/d1_both.cc:330-395 | With an honest sender, and before the counter wraps, the connection dies only for an oversized message, a wrong number in the encrypted epoch, a fragment exactly seven ahead, or a ChangeCipherSpec under a cipher |
| DtlsDelivery.HonestRecord | Market/Pods/BoringSSL-GRPC/ssl/d1_both.cc:335-401 | Any slice of a sent message, whatever else has come, is discarded, kept in its slot without disturbing the others, or fatal for one of those causes |
| DtlsSender.FinishedIsUnfragmented | Market/Pods/BoringSSL-GRPC/ssl/d1_both.cc:525-537 | A finished message is framed as one whole fragment, and cutting it from offset 0 to its end gives it back: the form that both transcripts hash |
| DtlsDelivery.FlightRecordsAreAllowed | Market/Pods/BoringSSL-GRPC/ssl/d1_both.cc:644-735 | Every handshake record that tiles a flight made of messages sent is one that the network model lets through, as a transmission of one of those messages |
| DtlsDelivery.ObjectSendsAllowed | Market/Pods/BoringSSL-GRPC/ssl/d1_both.cc:509-600 | The sending object makes its flights of such messages, numbered as it goes, so that whatever it has sealed is let through |
| DtlsSender.TilesCarryTheFlight | Market/Pods/BoringSSL-GRPC/ssl/d1_both.cc:644-827 | Records that tile a flight carry exactly its bytes up to the cursor: no gap, no overlap |
| DtlsSender.AcceptedTilesIffNothingLost | Market/Pods/BoringSSL-GRPC/ssl/d1_both.cc:739-827 | What the transport accepted since the last rewind tiles the flight up to the cursor if and only if no record went into a packet given up for a failed seal (the cursor is not restored then) |
| DtlsSender.SomethingCanBeLost | Market/Pods/BoringSSL-GRPC/ssl/d1_both.cc:739-780 | And something can be lost: a flight whose cursor has passed a record that never went out |
| DtlsSender.StepMoves | Market/Pods/BoringSSL-GRPC/ssl/d1_both.cc:695-735 | Each fragment moves the cursor strictly forward over exactly the bytes it carries |
| DtlsSender.DtlsFlight.AddOutgoing | Market/Pods/BoringSSL-GRPC/ssl/d1_both.cc:555-594 | Appends a message or ChangeCipherSpec under the current epoch, starting a new flight if the last one was complete, at most seven to a flight |
| DtlsSender.DtlsFlight.AddMessage | Market/Pods/BoringSSL-GRPC/ssl/d1_both.cc:509-600 | A message is built under the next number, finished and added, so that the flight stays one of messages sent under consecutive numbers |
| DtlsSender.DtlsFlight.AddChangeCipherSpec | Market/Pods/BoringSSL-GRPC/ssl/d1_both.cc:600-602 | A ChangeCipherSpec is added without a number, and the flight stays one of messages sent |
| DtlsSender.DtlsFlight.SealNextMessage | Market/Pods/BoringSSL-GRPC/ssl/d1_both.cc:644-737 | The next fragment: its record continues the tiling, carries the full length of its message, fits the room given, and moves the cursor; no progress exactly for want of room for one body byte, and no seal outside the two live epochs |
| DtlsSender.DtlsFlight.SealedInItsEpoch | Market/Pods/BoringSSL-GRPC/ssl/d1_both.cc:650-656 | A message is sealed with the cipher of the epoch it was queued in, current or previous, until the epoch counter wraps |
| DtlsSender.DtlsFlight.LeastMtuSuffices | Market/Pods/BoringSSL-GRPC/ssl/d1_both.cc:615-633 | The minimum MTU has room for progress on every message that was built for the flight and is of a live epoch, if neither cipher adds more than 202 bytes |
| DtlsSender.DtlsFlight.SealNextPacket | Market/Pods/BoringSSL-GRPC/ssl/d1_both.cc:739-780 | A packet of records that continue the tiling and together fit; a failed seal leaves the cursor moved |
| DtlsSender.DtlsFlight.SendPacket | Market/Pods/BoringSSL-GRPC/ssl/d1_both.cc:797-821 | A packet the transport refuses is rewound; one given up for a failed seal is not |
| DtlsSender.DtlsFlight.SendFlight | Market/Pods/BoringSSL-GRPC/ssl/d1_both.cc:782-827 | The MTU is brought up to the minimum, and the loop ends, by messages left and then bytes left; packets are each within the MTU; after success what the transport accepted since the last rewind is the whole flight, tiled, if and only if nothing was lost to a failed seal since then; it succeeds if the flight can be sealed within the MTU and neither sealing nor the transport refuses |
| DtlsSender.DtlsFlight.FlushFlight | Market/Pods/BoringSSL-GRPC/ssl/d1_both.cc:829-834 | The flight is sent as far as it goes and closed: what is added next starts another |
| DtlsSender.DtlsFlight.Retransmit | Market/Pods/BoringSSL-GRPC/ssl/d1_both.cc:836-845 | A retransmission that succeeds sends the bodies of the whole flight again, from the first byte |
| DtlsSender.DtlsFlight.UpdateMtu | Market/Pods/BoringSSL-GRPC/ssl/d1_both.cc:615-633 | The MTU ends up at least the minimum, unless it was below and may not be queried |
| DtlsReassembly.MarkedIsUnion | Market/Pods/BoringSSL-GRPC/ssl/d1_both.cc:211-251 | After any fragments in range, a byte has arrived exactly if one of them covers it, and the message is whole exactly if they cover it all |
| DtlsReassembly.MarkedByteIsLast | Market/Pods/BoringSSL-GRPC/ssl/d1_both.cc:386-395 | A byte that has arrived is that of the last fragment to cover it before the message was whole; later ones are ignored |
| DtlsReassembly.SlicesAgree | Market/Pods/BoringSSL-GRPC/ssl/d1_both.cc:386-395 | Fragments that are slices of one body leave nothing but bytes of that body |
| DtlsReassembly.AgreeingContents | Market/Pods/BoringSSL-GRPC/ssl/d1_both.cc:235-251 | Once complete, such a message is that body |
| DtlsReassembly.BitRangeBit | Market/Pods/BoringSSL-GRPC/ssl/d1_both.cc:203-206 | The mask built for a range of bits has exactly those bits |
| DtlsReassembly.LowBitsIsShift | Market/Pods/BoringSSL-GRPC/ssl/d1_both.cc:203-206 | The table of low bits that the mask is built from is the low octet of a shifted one, less one |
| DtlsReassembly.SetBits | Market/Pods/BoringSSL-GRPC/ssl/d1_both.cc:211-234 | Sets, in place, exactly the bits of the range |
| DtlsReassembly.AllSet | Market/Pods/BoringSSL-GRPC/ssl/d1_both.cc:236-247 | Whether every bit of the message is set, none beyond it counting |
| DtlsReassembly.HmFragment.Mark | Market/Pods/BoringSSL-GRPC/ssl/d1_both.cc:211-251 | The bitmask gains exactly the marked range, and reassembly is dropped exactly when every byte has arrived |
| DtlsReassembly.HmFragment.Receive | Market/Pods/BoringSSL-GRPC/ssl/d1_both.cc:386-395 | Copying a fragment in and marking it overlays its bytes on those that had arrived |
| DtlsReassembly.ParseInvertsFraming | Market/Pods/BoringSSL-GRPC/ssl/d1_both.cc:459-473 | A parsed fragment header is the one that was written, with the bytes after the body left over |
| DtlsReassembly.FramingInvertsParse | Market/Pods/BoringSSL-GRPC/ssl/d1_both.cc:459-473 | And whatever parses was framed so |
| DtlsReassembly.HeaderOctets | Market/Pods/BoringSSL-GRPC/ssl/d1_both.cc:459-473 | The twelve octets of a header, by position, as RFC 6347, section 4.2.2, lays them out |
| DtlsReceiver.AcceptKeepsRing | Market/Pods/BoringSSL-GRPC/ssl/d1_both.cc:265-295 | Accepting a fragment keeps every occupied slot in its place in the window of seven from the next number, wrap of the 16-bit number included |
| DtlsReceiver.FragmentsKeepRing | Market/Pods/BoringSSL-GRPC/ssl/d1_both.cc:335-401 | So does a record of any number of fragments, well formed or not |
| DtlsReceiver.RecordKeepsRing | Market/Pods/BoringSSL-GRPC/ssl/d1_both.cc:297-406 | So does any record at all |
| DtlsReceiver.NextKeepsRing | Market/Pods/BoringSSL-GRPC/ssl/d1_both.cc:426-438 | Handing out a message frees its slot and moves the window by one, across wrap |
| DtlsReceiver.OccupiedSlotMatches | Market/Pods/BoringSSL-GRPC/ssl/d1_both.cc:274-276 | The slot found for a number in the window holds that very number, so that the assertion in the code never fires |
| DtlsReceiver.EpochAdvancesWhenDrained | Market/Pods/BoringSSL-GRPC/ssl/dtls_method.cc:81-95 | The read epoch advances, by one and over the wrap of its 16 bits, exactly when no ChangeCipherSpec is flagged and no message but the one being processed is held |
| DtlsReceiver.SevenAheadIsFatal | Market/Pods/BoringSSL-GRPC/ssl/d1_both.cc:380-385 | Outside the encrypted epoch, where only the next message is allowed, a well-formed fragment of a new message is fatal exactly if it is seven ahead: it passes the filter and is then refused |
| DtlsReceiver.FaultExactly | Market/Pods/BoringSSL-GRPC/ssl/d1_both.cc:263-395 | Exactly which fragments are fatal and with which alert: out of range, another message than the next in the encrypted epoch, exactly seven ahead, or at odds in type or length with what is held under their number |
| DtlsReceiver.CcsIsFlagged | Market/Pods/BoringSSL-GRPC/ssl/d1_both.cc:319-338 | A ChangeCipherSpec in the clear succeeds, is flagged, and changes nothing else |
| DtlsReceiver.CcsIsTakenOnce | Market/Pods/BoringSSL-GRPC/ssl/d1_both.cc:475-491 | Whoever waits for one gets past it, whether it comes now or came before, and on nothing else; it counts once |
| DtlsReceiver.DtlsInbox.TakeFragment | Market/Pods/BoringSSL-GRPC/ssl/d1_both.cc:345-395 | One fragment does to the ring in place what the value model says, or raises the alert it says |
| DtlsReceiver.DtlsInbox.OpenHandshake | Market/Pods/BoringSSL-GRPC/ssl/d1_both.cc:297-406 | A record does to the inbox in place what the value model says: application data and unknown types change nothing, a ChangeCipherSpec is flagged exactly in the clear and as the single octet 1, and handshake records are taken fragment by fragment |
| DtlsReceiver.DtlsInbox.OpenCcs | Market/Pods/BoringSSL-GRPC/ssl/d1_both.cc:475-493 | A ChangeCipherSpec flagged earlier is taken at once; one that comes now is taken or refused with its alert, and the inbox is left as it was |
| DtlsReceiver.DtlsInbox.GetMessage | Market/Pods/BoringSSL-GRPC/ssl/d1_both.cc:408-424 | The complete message at the front of the ring, if there is one, with its raw form |
| DtlsReceiver.DtlsInbox.NextMessage | Market/Pods/BoringSSL-GRPC/ssl/d1_both.cc:426-438 | Releases that message |
| DtlsReceiver.DtlsInbox.SetReadState | Market/Pods/BoringSSL-GRPC/ssl/dtls_method.cc:81-95 | The epoch change, refused while data is left |
| DtlsRecord.DiscardIsExact | Market/Pods/BoringSSL-GRPC/ssl/dtls_record.cc:140-150 | A number is discarded exactly if it was recorded or is at least 64 below the greatest recorded |
| DtlsRecord.RecordRepresents | Market/Pods/BoringSSL-GRPC/ssl/dtls_record.cc:155-175 | Recording a number that is not stale adds exactly it to what the window stands for |
| DtlsRecord.NoReplay | Market/Pods/BoringSSL-GRPC/ssl/dtls_record.cc:225-259 | Over every run of arrivals and fewer than 2^16 epoch changes, no record number is accepted twice |
| DtlsRecord.WrapForgets | Market/Pods/BoringSSL-GRPC/ssl/dtls_method.cc:89-91 | That bound is needed: a run of 2^16 epoch changes in which a number is accepted, and accepted again |
| DtlsRecord.AcceptedExactly | Market/Pods/BoringSSL-GRPC/ssl/dtls_record.cc:225-259 | And nothing else is refused: after any run of arrivals a record is accepted exactly if it is of the current epoch, authentic and not too long, has not been accepted before, and is not 64 or more below one of its epoch that has |
| DtlsRecord.ParseInvertsOctets | Market/Pods/BoringSSL-GRPC/ssl/dtls_record.cc:190-206 | A record parses to the type, version, epoch, counter and body that its octets were made of, whatever follows it, unless its body is longer than any may be |
| DtlsRecord.DtlsReader.ProcessAlert | Market/Pods/BoringSSL-GRPC/ssl/tls_record.cc:551-600 | What becomes of an alert, by its level and description: close_notify closes, the fifth warning in a row and every fatal or malformed alert end the connection |
| DtlsRecord.DtlsReader.BitmapShouldDiscard | Market/Pods/BoringSSL-GRPC/ssl/dtls_record.cc:140-150 | The check on the fields of the bitmap is the check on the window they stand for |
| DtlsRecord.DtlsReader.BitmapRecord | Market/Pods/BoringSSL-GRPC/ssl/dtls_record.cc:155-175 | Shifting and setting the bit in place is recording in the window |
| DtlsRecord.DtlsReader.OpenRecord | Market/Pods/BoringSSL-GRPC/ssl/dtls_record.cc:177-272 | Closed side, header checks, epoch, replay, opening and the plaintext limit, in order; the window moves only for what is accepted; alerts are processed and anything else handed on |
| DtlsRecord.DtlsReader.ChangeCipher | Market/Pods/BoringSSL-GRPC/ssl/dtls_method.cc:89-94 | The epoch goes up and the window is forgotten |
| DtlsWriteNumbers.NumbersAreUnique | Market/Pods/BoringSSL-GRPC/ssl/dtls_record.cc:294-342 | Over any interleaving of seals in the current and the previous epoch and epoch changes, the records that go out have distinct (epoch, counter) pairs while neither wraps |
| DtlsWriteNumbers.CounterWrapReuses | Market/Pods/BoringSSL-GRPC/ssl/dtls_record.cc:325-330 | That bound is needed: after the seal that fails on the last value, the next one uses 0 |
| DtlsWriteNumbers.SequenceUpdate | Market/Pods/BoringSSL-GRPC/ssl/tls_record.cc:154-163 | Adds one to a big-endian counter in place and touches nothing else; false and all zeros exactly on wrap |
| DtlsWriteNumbers.DtlsWriter.SealRecord | Market/Pods/BoringSSL-GRPC/ssl/dtls_record.cc:294-342 | A record goes out exactly if it is sealed, its length fits 16 bits and the counter does not wrap; octet by octet it carries the type, the version, the epoch and counter of the epoch asked for and the sealed body, and the reader's parser takes just those from it, whatever follows; the counters move even when the record fails |
| DtlsWriteNumbers.DtlsWriter.SetWriteState | Market/Pods/BoringSSL-GRPC/ssl/dtls_method.cc:97-108 | The current counter becomes the previous one and starts over |
| PbVarint.Varint64RoundTrip | Market/Pods/nanopb/pb_decode.c:250-271 | Every 64-bit value, encoded and followed by anything, decodes to itself with what followed left over |
| PbVarint.VarintFitsBuffer | Market/Pods/nanopb/pb_encode.c:574-594 | The encoding of a 64-bit value has at most ten bytes, the size of the buffer it is built in |
| PbVarint.DecodersAgree | Market/Pods/nanopb/pb_decode.c:182-271 | On at most ten bytes, when both decoders succeed the 32-bit result is the 64-bit one modulo 2^32, and the same bytes are left |
| PbVarint.Varint32OfCanonical | Market/Pods/nanopb/pb_decode.c:182-242 | Exactly which canonical encodings the 32-bit decoder takes, and to what |
| PbVarint.Int32Accepted | Market/Pods/nanopb/pb_decode.c:182-242 | It takes every value below 2^32 and every sign-extended negative 32-bit number |
| PbVarint.MoreThanInt32Accepted | Market/Pods/nanopb/pb_decode.c:206-218 | A value that is neither and is taken all the same |
| PbVarint.ZigZagInverse | Market/Pods/nanopb/pb_decode.c:1240-1252 | Zigzag and its inverse, over all signed 64-bit numbers |
| PbVarint.SvarintRoundTrip | Market/Pods/nanopb/pb_encode.c:596-605 | Signed varints round-trip, over all signed 64-bit numbers |
| PbRoundTrip.RoundTrip | Market/Pods/nanopb/pb_decode.c:1051-1063 | A message that encodes, with lengths that can be read back and room for every string's terminator, decodes, at any nesting, to the same value in every present field and the default in every other |
| PbRoundTrip.SmallMessageFits | Market/Pods/nanopb/pb_decode.c:367-380 | Every length in it can be read back if the whole encoding is below 4 GiB |
| PbRoundTrip.DecodesIffTerminated | Market/Pods/nanopb/pb_decode.c:1428-1461 | Exactly when: a message that encodes comes back if and only if every string in a present field leaves room for its terminator; else decoding fails |
| PbRoundTrip.RoundTripAmongUnknowns | Market/Pods/nanopb/pb_decode.c:316-326 | So does such a message with any well-formed unknown fields before, between and after its own, and so in every message inside it |
| PbRoundTrip.RoundTripNullTerminated | Market/Pods/nanopb/pb_encode.c:523-531 | So does such a message behind a terminating zero, whatever follows |
| PbRoundTrip.PresentKeptAbsentDefault | Market/Pods/nanopb/pb_encode.c:307-392 | What the rebuilt message holds in a slot outside oneofs: the value if the field was present, its default if not |
| PbRoundTrip.OneofMemberKept | Market/Pods/nanopb/pb_encode.c:376-386 | And in the slot of a oneof: the member that was set, or unset if its number is that of no member |
| PbRoundTrip.SingularNumberKept | Market/Pods/nanopb/pb_encode.c:213-302 | A proto3 number loses nothing by being left out when it is zero |
| PbKept.RequiredKept | Market/Pods/nanopb/pb_encode.c:342-351 | What comes back of a message that was encoded, field by field: a required field keeps its value |
| PbKept.OptionalKept | Market/Pods/nanopb/pb_encode.c:353-362 | An optional field that is set keeps its value, and one that is not is at its default |
| PbKept.RepeatedKept | Market/Pods/nanopb/pb_encode.c:364-374 | An array keeps its entries, in order and number, also if it has none |
| PbKept.ItemsKept | Market/Pods/nanopb/pb_encode.c:182-207 | Entry by entry: a scalar as it was, a message as it would come back by itself |
| PbKept.SingularTextKept | Market/Pods/nanopb/pb_encode.c:241-260 | A proto3 field without presence keeps every string and run of bytes, though empty ones are not written |
| PbKept.SingularMessageKept | Market/Pods/nanopb/pb_encode.c:261-280 | And a message in one comes back as it would by itself, though one in which all is zero is not written |
| PbKept.DefaultsInFull | Market/Pods/nanopb/pb_decode.c:812-895 | What each kind of field holds in a message that has only been initialised |
| PbReencode.DecodedMessage | Market/Pods/nanopb/pb_decode.c:901-1049 | Whatever the input, valid or canonical or not, a message that decodes holds only what its descriptor allows: values in range, arrays within bounds, strings with room for their terminator, oneofs with a number of their own |
| PbReencode.DecodedComesBack | Market/Pods/nanopb/pb_decode.c:1051-1063 | So that it can be encoded again, and what it encodes to decodes to the very same message |
| PbMerge.DecodingJoins | Market/Pods/nanopb/pb_decode.c:966-1010 | Decoding two inputs one after the other into one message is decoding them joined |
| PbMerge.SubmessageMerges | Market/Pods/nanopb/pb_decode.c:1463-1485 | A message inside a message that comes in two records is merged, as if one record had held both |
| PbMerge.OthersStartAfresh | Market/Pods/nanopb/pb_decode.c:458-471 | An array entry and a oneof member start from defaults instead |
| PbMerge.LastOneCounts | Market/Pods/nanopb/pb_decode.c:410-417 | Of any other single field only the last record counts |
| PbFormat.VarintGroups | Market/Pods/nanopb/pb_encode.c:574-594 | A varint is its number in base 128, lowest group first, in no more bytes than needed, with the top bit on all but the last |
| PbFormat.ZigZagIsShift | Market/Pods/nanopb/pb_encode.c:596-605 | Zigzag is the 64-bit number shifted left by one, complemented if it is negative |
| PbFormat.SignedIsTwosComplement | Market/Pods/nanopb/pb_encode.c:734-755 | Other signed fields go out as 64-bit two's complement, whatever their size |
| PbFormat.SingleRecord | Market/Pods/nanopb/pb_encode.c:635-672 | A single value stands behind its field number times eight plus the documented wire type |
| PbFormat.PackedRecord | Market/Pods/nanopb/pb_encode.c:139-181 | An array of numbers is one length-prefixed run of wire type 2 |
| PbFormat.EntryRecords | Market/Pods/nanopb/pb_encode.c:182-207 | Any other array has one record for each entry, in order |
| PbFormat.EncodesExactly | Market/Pods/nanopb/pb_encode.c:734-869 | Exactly which values of each type and size encode |
| PbFormat.AnyValueIsSkipped | Market/Pods/nanopb/pb_decode.c:316-326 | Any value of any type under an unknown number is skipped to its end and no further |
| PbFormat.NoSuchWireType | Market/Pods/nanopb/pb_decode.c:316-326 | Wire types that do not exist are errors, and fixed ones have four and eight bytes |
| PbFormat.UnpackedEntry | Market/Pods/nanopb/pb_decode.c:446-456 | A number that comes outside a packed run is one entry more, exactly if there is room |
| PbFormat.PackedRun | Market/Pods/nanopb/pb_decode.c:418-445 | Packed runs may come in pieces: each adds its entries, exactly if there is room |
| PbFormat.UpperHalfIgnored | Market/Pods/nanopb/pb_decode.c:1289-1324 | In a signed field of 32 bits or fewer only the low half of a varint counts |
| PbFormat.HoldsWhatFits | Market/Pods/nanopb/pb_decode.c:1326-1372 | Unsigned and zigzag fields take exactly what they can hold |
| PbFormat.CutAtZero | Market/Pods/nanopb/pb_decode.c:1428-1461 | A string in memory ends at its first zero byte |
| PbRequired.RefusedExactlyIfMissing | Market/Pods/nanopb/pb_decode.c:1026-1046 | Over every input: a message decodes exactly if all its records do and each required field with fewer than 64 required ones before it has one among them |
| PbRequired.MissingFieldIsRefused | Market/Pods/nanopb/pb_decode.c:1026-1046 | For records in a row, known and unknown: refused exactly if none of them carries some such field |
| PbRequired.NothingDecodes | Market/Pods/nanopb/pb_decode.c:1012-1046 | The empty input is a message exactly of the types without required fields |
| PbRequired.RequiredCounted | Market/Pods/nanopb/pb_common.c:60-71 | The number a required field is counted under is how many come before it |
| PbWire.FieldZero | Market/Pods/nanopb/pb_decode.c:923-960 | A record of field number 0 is skipped, except in a message type without fields, where it is an error |
| PbWire.SixtyFifthUnchecked | Market/Pods/nanopb/pb_decode.c:1012-1046 | Whether a required field after the 64th has come makes no difference to the check |
| PbIterator.FieldIter.Next | Market/Pods/nanopb/pb_common.c:20-76 | At every position, through wraparound, the data pointer is the field's own slot and the count is the number of required fields before it |
| PbIterator.FieldIter.Seek | Market/Pods/nanopb/pb_common.c:78-93 | Ends having visited each field at most once, from where it stood around to there; finds the number exactly if a field has it; a failed search leaves the iterator where it was |
| PbIterator.FieldIter.CountRequired | Market/Pods/nanopb/pb_decode.c:1012-1024 | From wherever it stands, walking to the end counts all required fields, the last one included |
| PbEncoder.OStream.Write | Market/Pods/nanopb/pb_encode.c:101-119 | Bytes go out, and are counted, exactly if they fit; a counting stream only counts |
| PbEncoder.OStream.PutMessage | Market/Pods/nanopb/pb_encode.c:494-516 | At any nesting succeeds exactly if the wire form exists and fits, leaves exactly the wire form in the buffer, counts its bytes, touches nothing outside its allowance, and never reports a changed size |
| PbEncoder.OStream.PutSubmessage | Market/Pods/nanopb/pb_encode.c:682-730 | The same for a message behind its length, sized first and then written into a stream of exactly that size: the mismatch error is unreachable |
| PbEncoder.OStream.PutArray | Market/Pods/nanopb/pb_encode.c:126-211 | The same for an array, packed where its entries allow |
| PbEncoder.OStream.SizePacked | Market/Pods/nanopb/pb_encode.c:145-168 | The size of a packed array, found by multiplying or by counting, is that of its wire form |
| PbEncoder.OStream.PutNullTerminated | Market/Pods/nanopb/pb_encode.c:523-531 | The same for a message and its terminating zero |
| PbEncoder.VarintGroups | Market/Pods/nanopb/pb_encode.c:585-593 | The loop over groups of seven bits gives the canonical varint, within ten bytes |
| PbEncoder.FixedArraySize | Market/Pods/nanopb/pb_encode.c:145-152 | Four or eight bytes an entry is the size of a packed fixed-width array |
| PbEncoder.AtDefaultValue | Market/Pods/nanopb/pb_encode.c:215-302 | The recursive check for a proto3 zero value decides the predicate that the wire form is defined with |
| PbEncoder.GetEncodedSize | Market/Pods/nanopb/pb_encode.c:533-543 | The size found is the length of the wire form, and it is found exactly if there is one |
| PbEncoder.EncodeToFit | Market/Pods/nanopb/pb_encode.c:533-543 | A buffer of exactly the size found always suffices for the encoding |
| PbDecoder.IStream.GetVarint32 | Market/Pods/nanopb/pb_decode.c:182-242 | The loop, with its 8-bit bit position, reads what the wire model says of the remaining bytes |
| PbDecoder.IStream.GetVarint64 | Market/Pods/nanopb/pb_decode.c:250-271 | The same for 64 bits |
| PbDecoder.IStream.SkipField | Market/Pods/nanopb/pb_decode.c:316-326 | Skipping leaves what the wire model leaves |
| PbDecoder.IStream.MakeSubstream | Market/Pods/nanopb/pb_decode.c:367-380 | A substream of exactly the length-prefixed bytes, taken out of the parent's allowance |
| PbDecoder.IStream.CloseSubstream | Market/Pods/nanopb/pb_decode.c:382-395 | The parent goes on after all of them, read or not |
| PbDecoder.IStream.GetField | Market/Pods/nanopb/pb_decode.c:401-475 | One record of a known field does to its slot what the wire model says |
| PbDecoder.IStream.GetMessageNoinit | Market/Pods/nanopb/pb_decode.c:901-1049 | The loop over records, with substreams, wrapping iterator and bitmap, computes the wire model's result for every input, valid or not, the check for required fields included |
| PbDecoder.IStream.GetMessage | Market/Pods/nanopb/pb_decode.c:1051-1063 | The same after setting every field to its default |
| PbDecoder.IStream.GetDelimited | Market/Pods/nanopb/pb_decode.c:1080-1093 | The same for a message behind its length |
| PbDecoder.SetToDefaults | Market/Pods/nanopb/pb_decode.c:812-895 | Walking the fields gives every slot its default, oneof members sharing theirs |
| PbDecoder.CheckBitmap | Market/Pods/nanopb/pb_decode.c:1029-1046 | The test of whole words and remaining bits passes exactly if each of the first 64 required fields was seen |
| TlsFlow.UptoIsFlow | Market/Pods/BoringSSL-GRPC/ssl/handshake_server.cc:1539-1621 | Going through the numbered places of the flow message by message gives the message flows of RFC 5246, section 7.3 |
| TlsFlow.InOrder | Market/Pods/BoringSSL-GRPC/ssl/handshake_server.cc:1539-1621 | Every message stands in its place, so that none occurs twice and the order is that of the figures |
| TlsConnection.ReplayMessages | Market/Pods/BoringSSL-GRPC/ssl/ssl_transcript.cc:236-252 | The transcript of a history is its handshake messages end to end, each once; ChangeCipherSpec is not in it |
| TlsConnection.RightAt | Market/Pods/BoringSSL-GRPC/ssl/handshake.cc:380-429 | In a history that is right each Finished and CertificateVerify covered exactly what came before it, and messages were protected exactly from ChangeCipherSpec on |
| TlsConnection.HashMessage | Market/Pods/BoringSSL-GRPC/ssl/handshake.cc:215-222 | Puts the current message into whichever of buffer and hash are live, without consuming it |
| TlsConnection.NextMessage | Market/Pods/BoringSSL-GRPC/ssl/handshake.cc:427-428 | Consumes it, if it is what the flow expects next and has been checked |
| TlsConnection.AddMessage | Market/Pods/BoringSSL-GRPC/ssl/s3_both.cc:184-205 | Puts a message the flow expects next into the flight and the transcript |
| TlsConnection.ChangeReadKeys | Market/Pods/BoringSSL-GRPC/ssl/tls_method.cc:80-91 | Keys for reading change only after the peer's ChangeCipherSpec and with no message left under the old ones |
| TlsConnection.GetFinished | Market/Pods/BoringSSL-GRPC/ssl/handshake.cc:380-429 | Succeeds exactly if the current message is the Finished that the transcript so far calls for |
| TlsConnection.SendFinished | Market/Pods/BoringSSL-GRPC/ssl/handshake.cc:431-476 | Sends the Finished over the transcript so far |
| TlsConnection.StartOver | Market/Pods/BoringSSL-GRPC/ssl/handshake_client.cc:517-529 | HelloVerifyRequest is consumed and the transcript starts over without it and what preceded it |
| TlsServer.ServerHandshake.DoSelectParameters | Market/Pods/BoringSSL-GRPC/ssl/handshake_server.cc:572-684 | Decides resumption and client authentication, sets up the hash, hashes and consumes the ClientHello once whatever retries came before, and keeps the buffer exactly if a CertificateVerify may come |
| TlsServer.ServerHandshake.DecideResumption | Market/Pods/BoringSSL-GRPC/ssl/handshake_server.cc:588-655 | A certificate is requested exactly in a full handshake with a certificate cipher by a server that verifies its peers, unless a Channel ID on offer excuses the client |
| TlsServer.ServerHandshake.DoSendServerKeyExchange | Market/Pods/BoringSSL-GRPC/ssl/handshake_server.cc:842-912 | Sends the parameters once, however often signing has to be retried |
| TlsServer.ServerHandshake.DoReadClientCertificate | Market/Pods/BoringSSL-GRPC/ssl/handshake_server.cc:949-1040 | Waits exactly if nothing has come, hashes and consumes the client's Certificate, and keeps the buffer exactly if it is not empty |
| TlsServer.ServerHandshake.DoReadClientKeyExchange | Market/Pods/BoringSSL-GRPC/ssl/handshake_server.cc:1058-1267 | Waits exactly if nothing has come, takes no other message, hashes it before deriving the master secret, and consumes it once whatever retries come first |
| TlsServer.ServerHandshake.DoReadClientCertificateVerify | Market/Pods/BoringSSL-GRPC/ssl/handshake_server.cc:1269-1363 | Required exactly if there is a client key, and accepted exactly if it is right over all the messages before it: the buffer it is checked over is still whole |
| TlsServer.ServerHandshake.DoProcessChangeCipherSpec | Market/Pods/BoringSSL-GRPC/ssl/handshake_server.cc:1370-1377 | Changes the read keys, only once ChangeCipherSpec has come, and never while anything under the old keys is left, be it part of a message |
| TlsServer.ServerHandshake.DoReadClientFinished | Market/Pods/BoringSSL-GRPC/ssl/handshake_server.cc:1439-1461 | Waits exactly if nothing has come, goes on only past a Finished that is right over all the messages before it, and refuses such a one only where Channel ID cannot be recorded; back to sending in a full handshake, to the end in a resumed one |
| TlsServer.ServerHandshake.DoSendServerFinished | Market/Pods/BoringSSL-GRPC/ssl/handshake_server.cc:1463-1509 | Ticket, ChangeCipherSpec and Finished, in their places in either kind of handshake |
| TlsServer.ServerHandshake.Handshake | Market/Pods/BoringSSL-GRPC/ssl/handshake_server.cc:1539-1621 | From any state that can be reached the machine stops, done or waiting, and keeps its invariant: each step that goes on lowers a rank, although resumption moves backwards in the enumeration; one that refuses nothing stops only after a flight, where it needs the peer, or where what came is not what the state calls for |
| TlsServer.ServerHandshake.Run | Market/Pods/BoringSSL-GRPC/ssl/handshake.cc:491-629 | Over any number of turns, with any suspensions and retries, and messages and ChangeCipherSpec coming in whenever the transport lets them, the invariant holds, and an error is final; if nothing is refused, an error means that what came was out of place |
| TlsServer.OutOfPlaceIsOutOfFlow | Market/Pods/BoringSSL-GRPC/ssl/handshake_server.cc:1539-1621 | What being out of place means: no certificate to send, something left under the old keys, another message than the flow has here, or a Finished or CertificateVerify that is not right over the messages before it |
| TlsClient.ClientHandshake.DoReadHelloVerifyRequest | Market/Pods/BoringSSL-GRPC/ssl/handshake_client.cc:491-533 | Only a HelloVerifyRequest restarts the transcript, and only it and the first ClientHello are left out |
| TlsClient.ClientHandshake.DoReadServerHello | Market/Pods/BoringSSL-GRPC/ssl/handshake_client.cc:535-759 | Resumes or not, sets up the hash, hashes and consumes the ServerHello, and keeps the buffer exactly if the server may ask for a certificate |
| TlsClient.ClientHandshake.DoReadCertificateStatus | Market/Pods/BoringSSL-GRPC/ssl/handshake_client.cc:821-869 | Consumes a status exactly if one is expected and comes, and leaves any other message to the next state |
| TlsClient.ClientHandshake.DoReadServerKeyExchange | Market/Pods/BoringSSL-GRPC/ssl/handshake_client.cc:891-1071 | Taken exactly if it comes, and required unless the cipher makes it optional; with certificates, its parameters are signed |
| TlsClient.ClientHandshake.DoReadCertificateRequest | Market/Pods/BoringSSL-GRPC/ssl/handshake_client.cc:1073-1143 | Takes a request and keeps the buffer, or leaves ServerHelloDone to the next state and frees it; any other message is an error |
| TlsClient.ClientHandshake.DoReadServerHelloDone | Market/Pods/BoringSSL-GRPC/ssl/handshake_client.cc:1145-1167 | Goes on exactly past an empty ServerHelloDone |
| TlsClient.ClientHandshake.DoSendClientCertificate | Market/Pods/BoringSSL-GRPC/ssl/handshake_client.cc:1169-1215 | Answers a request exactly if there was one, and keeps the buffer for it exactly if there is a certificate |
| TlsClient.ClientHandshake.DoSendClientCertificateVerify | Market/Pods/BoringSSL-GRPC/ssl/handshake_client.cc:1373-1455 | Signs the buffer, which is still whole, and sends the signature once however often signing is retried |
| TlsClient.ClientHandshake.DoSendClientFinished | Market/Pods/BoringSSL-GRPC/ssl/handshake_client.cc:1457-1509 | Everything that may have to be retried comes before ChangeCipherSpec; then the rest of the flight, once |
| TlsClient.ClientHandshake.DoReadSessionTicket | Market/Pods/BoringSSL-GRPC/ssl/handshake_client.cc:1566-1647 | Consumes the ticket if one was announced, empty or not |
| TlsClient.ClientHandshake.DoProcessChangeCipherSpec | Market/Pods/BoringSSL-GRPC/ssl/handshake_client.cc:1649-1656 | Changes the read keys, only once ChangeCipherSpec has come, and never while anything under the old keys is left, be it part of a message |
| TlsClient.ClientHandshake.DoReadServerFinished | Market/Pods/BoringSSL-GRPC/ssl/handshake_client.cc:1658-1672 | Goes on exactly past a Finished that is right over all the messages before it; to its own Finished in a resumed handshake, to the end in a full one |
| TlsClient.ClientHandshake.Handshake | Market/Pods/BoringSSL-GRPC/ssl/handshake_client.cc:1707-1789 | The client's machine stops and keeps its invariant, by a rank of its own, and likewise stops only where it must if it refuses nothing |
| TlsClient.ClientHandshake.Run | Market/Pods/BoringSSL-GRPC/ssl/handshake.cc:491-629 | The same over any number of turns |
| TlsClient.OutOfPlaceIsOutOfFlow | Market/Pods/BoringSSL-GRPC/ssl/handshake_client.cc:1707-1789 | The same for the client, to which a CertificateRequest and ServerHelloDone may come in the same place |
| TlsCompletion.FinishedVerifiedOnce | Market/Pods/BoringSSL-GRPC/ssl/handshake.cc:380-429 | Whoever reaches the end has accepted exactly one Finished of the peer's, protected by the new keys, over exactly the messages before it |
| TlsCompletion.TranscriptIsWhole | Market/Pods/BoringSSL-GRPC/ssl/ssl_transcript.cc:236-252 | At the end the live parts of the transcript are every message of the flow once and in order, and every message that arrived is accounted for |
| TlsCompletion.ServerCompletes | Market/Pods/BoringSSL-GRPC/ssl/handshake_server.cc:1511-1537 | All of that for a server that is done, whose choices are such as the standard allows |
| TlsCompletion.ServerVerifiedClient | Market/Pods/BoringSSL-GRPC/ssl/handshake_server.cc:1269-1363 | A server done with a client certificate had accepted its chain and checked a CertificateVerify over the messages before it, ahead of Finished |
| TlsCompletion.ServerFlow | Market/Pods/BoringSSL-GRPC/ssl/handshake_server.cc:572-947 | Which messages a full handshake with the server had, by its configuration alone: certificate, stapled status, key exchange, the request and the answer to it, next protocol, Channel ID |
| TlsCompletion.ServerResumed | Market/Pods/BoringSSL-GRPC/ssl/handshake_server.cc:746-750 | A resumed one had no certificate of either side and no key exchange |
| TlsCompletion.ServerRequiredClient | Market/Pods/BoringSSL-GRPC/ssl/handshake_server.cc:949-1040 | A server that fails without a certificate, and whose client no Channel ID excuses, has checked a CertificateVerify in every full handshake that it completes |
| TlsCompletion.ClientKeyUnlessExcused | Market/Pods/BoringSSL-GRPC/ssl/handshake_server.cc:640-650 | That excuse is exact: such a server ends with a client's key if and only if it does not apply |
| TlsCompletion.ServerNeverAsks | Market/Pods/BoringSSL-GRPC/ssl/handshake_server.cc:640-650 | A server that does not verify its peers, or whose client is excused, has at no time asked for a certificate or taken one |
| TlsCompletion.ClientCompletes | Market/Pods/BoringSSL-GRPC/ssl/handshake_client.cc:1674-1705 | All of that for a client that is done, which in a full handshake has also authenticated the server |
| TlsCompletion.ClientFlow | Market/Pods/BoringSSL-GRPC/ssl/handshake_client.cc:784-1215 | Which messages a full handshake with the client had: what its configuration asks for, and an answer exactly where there was a request; the server's chain accepted and its parameters signed |
| TlsCompletion.SessionHashIsPrefix | Market/Pods/BoringSSL-GRPC/ssl/handshake_server.cc:1252-1264 | The master secret is derived over the messages through ClientKeyExchange |
| TlsCompletion.TranscriptsAgree | Market/Pods/BoringSSL-GRPC/ssl/handshake.cc:380-476 | If the Finished one side accepted is the one the other sent, both have the same transcript up to it |
| TlsWrite.SslBuffer.EnsureCap | Market/Pods/BoringSSL-GRPC/ssl/ssl_buffer.cc:47-81 | Makes room, up to 0xffff, and keeps the contents whether or not it moves them |
| TlsWrite.SslBuffer.Consume | Market/Pods/BoringSSL-GRPC/ssl/ssl_buffer.cc:90-97 | Drops exactly the first bytes |
| TlsWrite.TlsWriter.Flush | Market/Pods/BoringSSL-GRPC/ssl/ssl_buffer.cc:239-252 | What has been sent and what is in the buffer stay the same bytes in the same order, however little the transport takes |
| TlsWrite.TlsWriter.AddToFlight | Market/Pods/BoringSSL-GRPC/ssl/s3_both.cc:135-165 | Handshake data is left behind what is there, to go ahead of the next application data |
| TlsWrite.TlsWriter.QueueRecord | Market/Pods/BoringSSL-GRPC/ssl/s3_pkt.cc:237-273 | Into the buffer goes all of that handshake data and then the record, in this order and nothing else |
| TlsWrite.TlsWriter.DoWrite | Market/Pods/BoringSSL-GRPC/ssl/s3_pkt.cc:221-289 | Seals the data once, or only finishes the record before; says how much once it is out |
| TlsWrite.TlsWriter.WriteAppData | Market/Pods/BoringSSL-GRPC/ssl/s3_pkt.cc:129-200 | Over any pattern of short and blocked writes and retries the sealed plaintexts are the reported bytes, what was sealed before, and then the caller's next ones, and no handshake data left with the writer is lost; if the caller's buffer starts with what was sealed, each byte goes once and a count returned is exactly what was sealed; a retry shorter than the record in the buffer fails and changes nothing; the accounts stay right exactly if the retry is not shorter than what was dealt with; a valid retry succeeds if neither sealing nor the transport refuses |
| TlsWrite.TlsWriter.RetryAfterBadLength | Market/Pods/BoringSSL-GRPC/ssl/s3_pkt.cc:144-159 | After a retry that was shorter than what was dealt with the count is forgotten: the next write that succeeds seals the data again from its beginning, or, with a record waiting, from that record's length on; with a record waiting and a buffer that may not move and has not, it cannot succeed once anything had been dealt with |
| TlsWrite.TlsWriter.EveryRecordFits | Market/Pods/BoringSSL-GRPC/ssl/s3_pkt.cc:166-182 | No record that was ever queued holds more than the fragment limit, and none is empty |
| SslAead.Create | Market/Pods/BoringSSL-GRPC/ssl/ssl_aead_ctx.cc:57-149 | A context exactly if the cipher has an AEAD and the key sizes are its own, which are given for each kind of cipher and version, in the mode that goes with them |
| SslAead.NonceLengths | Market/Pods/BoringSSL-GRPC/ssl/ssl_aead_ctx.cc:57-149 | How long the nonce of each kind of cipher is |
| SslAead.AeadContext.GetAdditionalData | Market/Pods/BoringSSL-GRPC/ssl/ssl_aead_ctx.cc:203-223 | The additional data of RFC 5246, section 6.2.3.3, less what the mode leaves out, within its thirteen bytes |
| SslAead.AeadContext.AssembleNonce | Market/Pods/BoringSSL-GRPC/ssl/ssl_aead_ctx.cc:254-285 | Fixed part before the variable one, or both padded and xored in place |
| SslAead.AeadContext.NonceOctets | Market/Pods/BoringSSL-GRPC/ssl/ssl_aead_ctx.cc:254-285 | Octet by octet: RFC 5288, section 3, and RFC 7905, section 2 |
| SslAead.XorBit | Market/Pods/BoringSSL-GRPC/ssl/ssl_aead_ctx.cc:279-285 | A bit of an exclusive or is set exactly if one of the two bits is |
| SslAead.AeadContext.AdditionalDataOctets | Market/Pods/BoringSSL-GRPC/ssl/ssl_aead_ctx.cc:203-223 | The additional data octet by octet, with what each mode omits |
| SslAead.AeadContext.Seal | Market/Pods/BoringSSL-GRPC/ssl/ssl_aead_ctx.cc:296-405 | The record is the explicit nonce, if any, and the sealed text; there is one exactly if the AEAD works and it fits the room given |
| SslAead.AeadContext.Open | Market/Pods/BoringSSL-GRPC/ssl/ssl_aead_ctx.cc:225-294 | Rebuilds nonce and additional data from the record alone, refusing what is too short |
| SslAead.AeadContext.OpenInvertsSeal | Market/Pods/BoringSSL-GRPC/ssl/ssl_aead_ctx.cc:225-405 | In every mode, opening what was sealed under the same type, version and sequence number gives back the text |
| SslAead.AeadContext.DistinctNonces | Market/Pods/BoringSSL-GRPC/ssl/ssl_aead_ctx.cc:254-285 | Where nonces are not random, distinct sequence numbers have distinct nonces |
| SslAead.AeadContext.AdditionalDataBinds | Market/Pods/BoringSSL-GRPC/ssl/ssl_aead_ctx.cc:203-223 | Equal additional data means equal sequence number, type, version and length, as far as the mode includes them |
| RefCount.CasRefinesAtomic | Market/Pods/BoringSSL-GRPC/crypto/refcount_c11.c:37-65 | For any number of threads, interleaving and spurious failures, every call takes effect exactly once before it returns, as one atomic saturating operation with that result |
| RefCount.LockRefinesAtomic | Market/Pods/BoringSSL-GRPC/crypto/refcount_lock.c:29-51 | The same of the version under a lock |
| RefCount.UndisturbedFinishes | Market/Pods/BoringSSL-GRPC/crypto/refcount_c11.c:37-65 | A call that nobody disturbs takes effect and is through after one look at the count |
| RefCount.FailsOnlyIfChanged | Market/Pods/BoringSSL-GRPC/crypto/refcount_c11.c:40-47 | An exchange that does not fail spuriously fails only because the count has changed since it was seen |
| RefCount.HolderFinishes | Market/Pods/BoringSSL-GRPC/crypto/refcount_lock.c:29-51 | A call that gets the lock takes effect |
| RefCount.SaturationIsForever | Market/Pods/BoringSSL-GRPC/crypto/internal.h:402-416 | Once the count is 0xffffffff it never changes |
| RefCount.CountIsReferences | Market/Pods/BoringSSL-GRPC/crypto/internal.h:402-416 | Until then it is the number of references that balanced callers hold |
| RefCount.NeverFoundZero | Market/Pods/BoringSSL-GRPC/crypto/refcount_c11.c:53-54 | Balanced callers never abort |
| RefCount.ZeroIsLastReference | Market/Pods/BoringSSL-GRPC/crypto/refcount_c11.c:53-62 | A decrement returns one exactly if it gave up the last reference of a count that never saturated |
| RefCount.ZeroAtMostOnce | Market/Pods/BoringSSL-GRPC/crypto/refcount_c11.c:53-62 | At most one decrement ever does, and no operation comes after it |
| RefCount.CasOneAtMostOnce | Market/Pods/BoringSSL-GRPC/crypto/refcount_c11.c:49-65 | Over any run, with balanced callers, at most one call returns one, and it gave up the last reference |
| RefCount.LockOneAtMostOnce | Market/Pods/BoringSSL-GRPC/crypto/refcount_lock.c:38-51 | The same of the version under a lock |
| CipherChoice.Choose | Market/Pods/BoringSSL-GRPC/ssl/handshake_server.cc:357-424 | From the first group with an acceptable cipher, the acceptable one that is earliest in the other list; none if and only if every acceptable cipher is in a last group that never ends |
| CipherChoice.BestIsUnique | Market/Pods/BoringSSL-GRPC/ssl/handshake_server.cc:357-424 | That pins down one choice |
| CipherChoice.NoneAcceptable | Market/Pods/BoringSSL-GRPC/ssl/internal.h:1869-1889 | With well-formed groups there is no choice exactly if nothing is acceptable |
| CipherChoice.UnendedGroupIsLost | Market/Pods/BoringSSL-GRPC/ssl/handshake_server.cc:404-424 | Why the last group has to end, as it does in every list the library builds: otherwise an acceptable cipher may go unchosen |
| CipherChoice.ParseClientCiphers | Market/Pods/BoringSSL-GRPC/ssl/handshake_server.cc:298-324 | The client's list in order without those unknown, none for an odd number of bytes |
| CipherChoice.KnownInOrder | Market/Pods/BoringSSL-GRPC/ssl/handshake_server.cc:293-321 | Every two bytes, high byte first, add the cipher they stand for or nothing |
| CipherChoice.FirstFitting | Market/Pods/BoringSSL-GRPC/ssl/handshake_server.cc:357-424 | Without groups the choice is the first cipher of the ranking list that fits and is on the other list |
| CipherChoice.ChooseCipher | Market/Pods/BoringSSL-GRPC/ssl/handshake_server.cc:357-424 | Whichever side ranks, what is chosen is the best of its choice, usable and in both lists; nothing is chosen exactly if the list is malformed or every acceptable cipher is in a last group that never ends |
| ConstantTime.IsZeroWord | Market/Pods/BoringSSL-GRPC/crypto/internal.h:297-315 | The branch-free test for zero |
| ConstantTime.IsEqual | Market/Pods/BoringSSL-GRPC/crypto/internal.h:317-337 | The branch-free test for equality |
| ConstantTime.Selects | Market/Pods/BoringSSL-GRPC/crypto/internal.h:345-352 | The branch-free choice |
| ConstantTime.SelectPremaster | Market/Pods/BoringSSL-GRPC/ssl/handshake_server.cc:1142-1178 | The decrypted tail exactly if padding (RFC 3447, section 7.2.2) and version are right, else the random secret; none for a block too small |

## Left out

- PbRoundTrip.RoundTrip: for encodings in which every packed array and submessage is below 4 GiB, because the decoder reads their lengths in 32 bits; the same is asked of the other round trips.
- DtlsDelivery.DeliveredInOrder: runs that queue more than 65536 messages in one handshake, in which the sender's counter wraps too.
- SslAead.AeadContext.OpenInvertsSeal: the AEAD is a function of nonce, additional data and text, so the CBC modes of TLS 1.0 and SSL 3.0, whose AEAD chains its IV from record to record, are covered only as far as framing goes.
- DtlsReceiver, DtlsSender: handshake data under an abstract cipher; timers and the path MTU query itself are left out, and alerts end with the record layer.
- DtlsRecord: the 64-bit bitmap word is 64 booleans, lowest first, rather than a machine word.
- PbVarint: `|` and `<<` are functions on numbers with the truncation of the 32- or 64-bit word written out.
- PbDecoder: what a failed decode has already stored in the destination; the destination is a value that is replaced slot by slot.
- PbDecoder, PbEncoder: callbacks, extensions, pointer-allocated fields, fixed-count arrays and the raw layout of structs; a slot or value of a shape that C's types rule out is an error of its own (`Malformed` or no result).
- PbEncoder: sizes are unbounded, so that the overflow of `size_t` is not modelled; messages are sized as in the build with 32-bit field sizes.
- TlsServer, TlsClient: TLS 1.3, early data, SSL 3.0 and V2ClientHello special cases, renegotiation, session lookup and extension parsing; negotiated flags are fixed inputs and the results of parsing arbitrary.
- TlsConnection: cryptography is three functions of the transcript; the master secret is identified with what it is derived over; the handshake hash is modelled by the bytes that went into it.
- TlsClient: that a server certificate chain is never empty and its leaf fits the cipher are part of the arbitrary result of parsing it.
- TlsServer: that the client's key is known exactly if its chain is not empty, which parsing the chain establishes, is built in.
- PbReencode.DecodedComesBack: for message types whose defaults can themselves be encoded, and where the lengths that the encoding needs can be read back in 32 bits.
- TlsWrite: the overflow checks on lengths, which unbounded numbers cannot fail, and the allocation failures of the buffer.
- SslAead: sealing into scattered buffers, extra input and the checks for aliasing; record versions are parameters.
- RefCount: memory orders; every atomic access is one indivisible step. A step the program does not have is a step that changes nothing.
- ConstantTime: the comparisons `lt` and `ge`, which the code modelled does not use; that the time taken does not depend on secrets, which a model of values cannot show.
- CipherChoice: how the key exchanges and authentications on offer follow from certificate, groups and callbacks.
- The Swift application, ASN.1 serialisation, hand-off, custom extensions, SRTP and platform glue: no protocol state of their own, or only easy members.
