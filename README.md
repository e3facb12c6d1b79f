# Teltonika AVL TCP server — a Dafny model

This project models `main.py`, a small TCP server for Teltonika GPS
trackers. A device connects and sends a two-byte preamble whose second byte
is the length of its IMEI. The IMEI follows, and the server acknowledges it
with the single byte 0x01. After that the device sends AVL packets, each
after a big-endian u32 length. A packet starts with a codec tag:
- 0x08 is Codec 8;
- 0x8E is Codec 8 Extended.

The tag is followed by a record count and then the records. Each record is:
- an 8-byte millisecond timestamp;
- a priority byte;
- a 15-byte GPS element;
- an IO element whose layout depends on the codec.

The server answers each packet it can decode with the number of records,
as a big-endian u32. A short read, a timeout, an undecodable packet or an
unsupported codec ends the session, and the socket is closed on every path.

The model has seven modules:
- `Bytes` (`bytes.dfy`): big-endian unsigned decoding and encoding. It also
  has the two's-complement reinterpretations that `struct.unpack('!i')` and
  `'!h'` perform.
- `Avl` (`avl.dfy`): the decoded values (`Gps`, `Record`, `Frame`) and the
  decode outcome `Result`. A failure names the Python exception it stands
  for: an `IndexError` or `struct.error` is `OutOfRange`; the error that
  `datetime.utcfromtimestamp` raises past the year 9999 is `TimestampRange`;
  `UnsupportedCodec` is the unsupported-codec return.
- `GpsElement` (`gps.dfy`): `parse_gps_element`, with an encoder and round
  trips in both directions.
- `IoElement` (`io.dfy`): `parse_io_element`.
  - `DecodeIo` is the specification.
  - The methods `ParseIoElement` and `ReadBucket` are the imperative decoder,
    with the source's loops and cursor, proved equal to `DecodeIo`.
  - An encoder from an abstract `IoBlock` comes with a round trip,
    layout-size laws and the last-write-wins behaviour of the dictionary.
- `Records` (`records.dfy`): `parse_record` and `process_avl_data`.
  - `DecodeRecord` and `DecodeFrame` are the specifications.
  - The methods `ParseRecord`, `ProcessAvlData`, `ReadRecords` and
    `NextRecord` carry the cursor loop. It is proved through the `Chain`
    invariant: every record decoded so far sits at the offset the earlier
    sizes imply.
  - Lemmas give the record layout, the frame header, where record `j`
    starts, and the round trip of record and frame encoders.
- `Sockets` (`stream.dfy`): the client socket and `receive_all`.
  - The peer's behaviour is a script of `Event`s: a delivered chunk, an
    orderly close (`Data([])`) or a timeout.
  - `ReceiveAll` is the `while` loop of the source. It is proved to deliver
    exactly the next `length` bytes of the stream, or `None` when fewer
    arrive.
- `Session` (`session.dfy`): `handle_client`.
  - `Session` and `Frames` state what it sends as a function of the bytes
    the device delivers.
  - The method `HandleClient` is split the way its body is: `Handshake`,
    then `ReadPacket`, then `ServeFrame` with `ServePacket` and
    `AcknowledgePacket` for each turn of the packet loop. It is proved to
    send exactly that and to close the socket.
  - Lemmas state the acknowledgement rules and an end-to-end round trip for
    a well-formed session.

Where the code and the protocol description disagree, the model follows the
code:
- **Codec 8E IO layout.** The code reads a one-byte property count, and
  each property has a one-byte id and a one-byte value length. The
  protocol's Codec 8 Extended layout uses two-byte ids and counts.
- **IMEI length 0.** The handshake fails: `receive_all(sock, 0)` returns
  `b''`, which the `not imei_data` test rejects.
- **Timeouts.** They are not told apart from closes: `receive_all`
  swallows `socket.timeout` and returns `None`.

## Model

| member | source | states |
|---|---|---|
| Bytes.BeUintBound | main.py:240-288 | an `n`-byte big-endian value is below 256^n, so '!H', '!I' and '!Q' give at most 2^16 - 1, 2^32 - 1 and 2^64 - 1 |
| Bytes.BeAtSlice | main.py:240-288 | the `w`-byte value read in place at `offset` is the unpack of the slice `data[offset:offset+w]` |
| Bytes.BeBytes | main.py:79 | `struct.pack` of a width-`n` format writes exactly `n` bytes |
| Bytes.Int32 | main.py:185-186 | '!i' maps an unsigned 32-bit pattern into [-2^31, 2^31), and keeps the value exactly when the sign bit is clear |
| Bytes.Int16 | main.py:189 | '!h' maps an unsigned 16-bit pattern into [-2^15, 2^15), and keeps the value exactly when the sign bit is clear |
| Bytes.U32Be | main.py:79 | `struct.pack('!I', n)` for `n < 2^32` is four bytes whose big-endian value is `n` |
| Bytes.BeBytesRoundTrip | main.py:54 | decoding the big-endian encoding of `v` in `n` bytes gives back `v` when `v < 256^n` |
| Bytes.BeUintRoundTrip | main.py:192-198 | re-encoding a big-endian decoded field in its own width gives back the same bytes |
| Bytes.Int32RoundTrip | main.py:185-186 | the signed 32-bit reading of the unsigned encoding of an in-range integer is that integer |
| Bytes.Int16RoundTrip | main.py:189 | the signed 16-bit reading of the unsigned encoding of an in-range integer is that integer |
| GpsElement.ParseGps | main.py:178-207 | the GPS element decodes exactly when at least 15 bytes are present; each field is in the range of its width; every failure is an out-of-range read |
| GpsElement.GpsRoundTrip | main.py:184-198 | encoding an in-range GPS element and decoding it gives the element back |
| GpsElement.GpsBytesRoundTrip | main.py:184-198 | any 15 bytes decode, and re-encoding the decoded element gives those same bytes |
| IoElement.Bucket | main.py:227-232 | a run of Codec 8 entries that decodes moves the cursor forward and stays within the data; every failure is an out-of-range read |
| IoElement.CountedBucket | main.py:225-232 | a Codec 8 bucket with its count byte moves the cursor past at least that byte; every failure is an out-of-range read |
| IoElement.Buckets | main.py:224-262 | the four Codec 8 buckets read in turn from a cursor: a decode moves the cursor forward and stays within the data; every failure is an out-of-range read |
| IoElement.Props | main.py:273-294 | every failure of the Codec 8E property loop is an out-of-range read |
| IoElement.DecodeIo | main.py:209-301 | every failure is an out-of-range read; an unknown codec yields an empty map and size 0 |
| IoElement.ReadBucket | main.py:224-262 | the bucket loop with its mutable cursor and dictionary returns the bucket-decoder result, failure included |
| IoElement.ParseIoElement | main.py:209-301 | the imperative IO parser returns exactly `DecodeIo`: map, consumed size and failure |
| IoElement.BucketSize | main.py:227-262 | a bucket of `k` entries of width `w` decodes exactly when `k * (1 + w)` bytes fit, and then consumes exactly that many |
| IoElement.CountedBucketSize | main.py:225-262 | a counted bucket decodes exactly when its count byte is present and its entries fit, and ends `1 + count * (1 + w)` bytes later |
| IoElement.Codec8Layout | main.py:216-262 | a Codec 8 IO element decodes exactly when all four buckets fit where their count bytes put them; its size is 2 + (1 + 2 n1) + (1 + 3 n2) + (1 + 5 n4) + (1 + 9 n8) |
| IoElement.Io8Length | main.py:216-262 | an encoded Codec 8 block has the length 2 + (1 + 2 n1) + (1 + 3 n2) + (1 + 5 n4) + (1 + 9 n8) |
| IoElement.IoRoundTrip | main.py:209-301 | an encoded IO block followed by anything decodes to the block's map and consumes exactly the encoding; the Codec 8E size counts skipped entries too |
| IoElement.AssignLastWins | main.py:232 | in the id-to-value dictionary, an entry with no later entry for the same id decides that id's value |
| IoElement.Codec8Map | main.py:227-262 | the Codec 8 map's keys are exactly the ids of all four buckets, and the last entry for an id wins |
| IoElement.Codec8EKeys | main.py:278-294 | the Codec 8E map's keys are exactly the ids of entries of width 1, 2, 4 or 8; an entry of any other width adds no key |
| IoElement.SupportedIds | main.py:290-293 | the entries kept from a Codec 8E list are exactly those of supported width |
| IoElement.SkipAny | main.py:290-293 | for any data, an entry of unsupported width moves the cursor by 2 plus its declared length without reading those bytes, whether or not they exist; as the last entry it ends the decode with the map unchanged at that offset |
| IoElement.SkipPastEnd | main.py:290-293 | an instance of `SkipAny`: an unsupported-width entry whose declared length runs past the data still succeeds, with a size larger than the data |
| IoElement.SkipThenDecode | main.py:290-294 | an instance of `SkipAny`: an entry of unsupported width is skipped whole, and the entry after it is still decoded |
| Records.DecodeRecord | main.py:144-176 | a decoded record took at least the 24 fixed bytes, its size is at least 24, and its timestamp is before year 10000 |
| Records.DecodeRecords | main.py:130-137 | a successful record loop yields exactly as many records as it was asked for |
| Records.DecodeFrame | main.py:106-142 | a decoded frame has a supported codec, which is its first byte; its header fits; and it holds exactly as many records as the header declares, fewer than 65536, so the count always packs as a u32 |
| Records.DeclaredCount | main.py:118-123 | the record count read from the header is below 65536 |
| Records.ParseRecord | main.py:144-176 | the imperative record parser returns exactly `DecodeRecord`, failure included |
| Records.RecordLayout | main.py:144-176 | a record decodes exactly when 24 bytes are present, its timestamp is before year 10000 and its IO element decodes; the fields come from bytes 0-7, 8 and 9-23, and its size is 24 plus the IO size |
| Records.RecordErrors | main.py:151-166 | fewer than 8 bytes is an out-of-range read; a timestamp past year 9999 is the datetime error; every other failure is an out-of-range read |
| Records.RecordRoundTrip | main.py:144-176 | an encoded record followed by anything decodes to the record and consumes exactly its encoding |
| Records.NextRecord | main.py:130-137 | one loop turn: a failing record makes the whole frame decode fail with that error; a decoded one extends the chain of records at the next offset |
| Records.ReadRecords | main.py:130-142 | the record loop returns the frame that the declared number of records, read back to back from the header, gives |
| Records.ProcessAvlData | main.py:106-142 | the imperative `process_avl_data` returns exactly `DecodeFrame`: the frame, or the failure with its cause |
| Records.ChainDecodes | main.py:130-137 | a chain of `k` records read back to back is what the record decoder produces for `k` records |
| Records.ChainFails | main.py:133-135 | a record that fails after a chain of good ones makes the whole decode fail with its error |
| Records.DecodedChain | main.py:130-137 | a successful decode of `k` records yields exactly `k`, each starting where the previous one ended |
| Records.DecodedAt | main.py:130-137 | record `j` of a successful decode is what the decoder reads at the header offset plus the sizes of records `0..j-1` |
| Records.FrameHeader | main.py:114-123 | Codec 8 reads a one-byte count at byte 1 with records from byte 2; Codec 8E reads a big-endian u16 count at bytes 1-2 with records from byte 3 |
| Records.FrameUnsupported | main.py:124-126 | the decode fails as unsupported exactly when the first byte is neither 0x08 nor 0x8E, and then it names that codec; no partial records are returned |
| Records.RecordsRoundTrip | main.py:130-137 | encoded records placed back to back decode, in order, to the records encoded |
| Records.FrameRoundTrip | main.py:106-142 | an encoded frame followed by anything (the CRC) decodes to its codec and all its records |
| Records.RecordSkipPastEnd | main.py:144-176 | for any data, a Codec 8E record whose single IO entry has an unsupported width decodes, with size 28 plus the declared length, also when that runs past the data |
| Records.FrameSkipPastEnd | main.py:106-142 | for any data, a Codec 8E frame declaring one such record decodes to a frame of one record, also when the record's declared size runs past the packet |
| Sockets.RecvEvent | main.py:98 | one `recv(n)` returns at most `n` bytes |
| Sockets.RecvAvailable | main.py:98-101 | a non-empty `recv` returns the next bytes of the stream and leaves the rest; an empty one or a timeout means nothing more is available |
| Sockets.ReadExact | main.py:91-104 | a read that succeeds returns exactly `length` bytes, beginning with the bytes already accumulated |
| Sockets.ReadExactAvailable | main.py:91-104 | the read succeeds exactly when `length` bytes arrive; it then returns exactly those next bytes in order and leaves the rest of the stream |
| Sockets.ReceiveAll | main.py:91-104 | the imperative loop returns `length` bytes, the next ones in order, exactly when that many arrive before a close or timeout, and otherwise `None`; nothing is sent |
| Session.Frames | main.py:47-81 | every acknowledgement the packet loop sends is four bytes long |
| Session.NextFrame | main.py:49-81 | every acknowledgement sent from one turn of the packet loop on is four bytes long |
| Session.Session | main.py:17-81 | whatever the session sends begins with 0x01, and every later message is four bytes long |
| Session.HandleClient | main.py:17-89 | everything sent is what `Session` prescribes for the bytes the device delivers, and the socket is closed on every path |
| Session.Handshake | main.py:26-44 | the handshake succeeds exactly when a complete preamble and a complete non-empty IMEI of the announced length arrive; then 0x01 alone is sent and the bytes after the IMEI remain; otherwise nothing is sent and the session ends |
| Session.ReadPacket | main.py:48-65 | the length-prefixed read: a zero length is a keep-alive; a packet is the announced number of bytes after the length; a stream that ends early ends the session |
| Session.ServeFrame | main.py:47-81 | a turn stops exactly when the length is short, or the packet is short, or the packet does not decode; so a keep-alive (`continue`) and an accepted packet always go on. A turn that goes on consumed the four-byte length and that many packet bytes, and sent nothing for a keep-alive or the packet's record count for an accepted packet. A turn that stops sent nothing, which is all the prescribed output had left |
| Session.ServePacket | main.py:62-80 | a packet that decodes is acknowledged with its record count and the loop goes on; one that does not ends the session with nothing sent, as the prescribed output says |
| Session.AcknowledgePacket | main.py:67-80 | `process_avl_data` then `send`: exactly the big-endian u32 record count is sent when the packet decodes, and nothing when it does not |
| Session.FrameStep | main.py:49-81 | one turn of the packet loop, by how the length, the packet and the decode end |
| Session.ImeiAcknowledged | main.py:27-44 | a preamble whose second byte is the length of a non-empty IMEI, then that IMEI: the session sends 0x01, then the packet loop's output for the bytes after the IMEI |
| Session.ImeiRefused | main.py:27-37 | an empty or one-byte stream, an IMEI length of 0, or an IMEI cut short by the end of the stream: the session sends nothing |
| Session.KeepAliveSilent | main.py:57-59 | a zero length sends nothing, and the loop reads on |
| Session.PacketAcknowledged | main.py:62-80 | an accepted packet is acknowledged with its record count as one big-endian u32, and the loop reads on; a rejected one ends the session with nothing sent |
| Session.AcknowledgementsAreCounts | main.py:68-80 | every acknowledgement after the handshake is the big-endian u32 record count of a stretch of the input that the decoder accepted |
| Session.PacketsAcknowledged | main.py:47-81 | a run of accepted packets is acknowledged packet by packet, in order |
| Session.SessionAcknowledged | main.py:17-81 | after the handshake, accepted packets get 0x01 and then one count per packet |
| Session.WireDecodes | main.py:68 | an encoded packet decodes to its codec and its records |
| Session.WiresAccepted | main.py:68-79 | encoded packets are all accepted, and their acknowledgements are their record counts |
| Session.SessionRoundTrip | main.py:17-89 | a device sending a preamble, a non-empty IMEI and well-formed packets gets 0x01 and then each packet's record count as a big-endian u32, in order |

## Left out

- Sockets, `accept`, threads and `start_server` are not modelled. The
  socket is a script of peer events passed in, and every `send` takes its
  whole buffer.
- `settimeout(60)`: only its effect is modelled. A `Timeout` event is a
  `socket.timeout` from `recv`, and the 60-second value plays no part.
- `print` and all logging are left out.
- The UTF-8 decode of the IMEI does not affect what is sent, so it is left
  out.
- Longitude and latitude are kept as raw signed integers. The division by
  10^7, which produces a Python float, is not modelled.
- The timestamp is kept as raw milliseconds. `utcfromtimestamp(...)` and
  `.isoformat()` are modelled only by their failure for instants at or past
  253402300800000 ms (year 10000). Float rounding at that boundary is not
  modelled.
- The CRC field and any bytes after the last record are never read, as in
  the source. `FrameRoundTrip` allows any trailing bytes.
- The event id and the element-count bytes of the IO element are read and
  discarded, as in the source. The encoder writes them but decoding does
  not check them.
- `except Exception` in `handle_client` is modelled as the session ending
  for the `IndexError`, `struct.error` and datetime errors of decoding,
  which show up as a `Fail` result. A `struct.pack` error for counts of 2^32
  or more is in `NextFrame`, though `DecodeFrame`'s contract shows it cannot
  occur.
- An `OSError` from `recv`, such as a connection reset, also reaches
  `except Exception` and ends the session. The model has no event for it.
  A reset is modelled like an orderly close (`Data([])`), which ends the
  session the same way, with nothing more sent.
- Errors from `send` are not modelled, `OSError` or `socket.timeout` alike,
  because every `send` takes its whole buffer. Such an error would end the
  session after the failed send and is caught by the `except` clauses.
- Session.Frames, Session.Session and Session.HandleClient do not model
  data that arrives after the device goes silent or times out. They speak
  of the bytes the peer delivers before its first timeout or close, because
  `receive_all` ends the session at that point anyway.
- IoElement.SkipAny: the Codec 8E skip of an unsupported width is not
  bounds-checked in the source, so a record or frame can "succeed" on
  truncated data with a size past its end (`RecordSkipPastEnd`,
  `FrameSkipPastEnd`). The model keeps that behaviour and states it as
  lemmas rather than correcting it.
