# Kafka Produce subset: a verified model

This project models the Kafka Produce subset of the client SDK (`kafka/codec.go`,
`kafka/wire.go`, `kafka/client.go`) and proves what it is for: the wire formats undo and
agree with each other, damage to messages is detected, a reply is never misread, and
concurrent calls on one client never see each other's replies.

| file | what it holds |
|---|---|
| `Types.dfy` | Go's integers and conversions, slices that may be nil, errors |
| `BigEndian.dfy` | big-endian two's complement integers of any width, wrapping included |
| `Automata.dfy`, `Crc32c.dfy` | runs of bit automata; CRC-32C (section 12.1 of RFC 3720) as one, and its burst detection |
| `Streams.dfy` | `io.Reader`, `io.Writer` and `net.Conn` with short reads, short writes and failures; `io.ReadFull`, `writeFull` |
| `Codec.dfy` | the stream codecs of `codec.go` |
| `Messages.dfy` | the checksummed message: parsing, printing, round trips, error detection |
| `Wire.dfy`, `Agreement.dfy` | the in-memory cursor and append buffer; the two codecs compared |
| `MessageSets.dfy` | message sets, including the slice-bounds panic |
| `Frames.dfy` | streams of frames, whole and cut short |
| `Requests.dfy`, `Replies.dfy` | what `Produce` prints, and its scan of the reply |
| `Clients.dfy` | the client object: mutex, connection, counter |
| `Runs.dfy` | every interleaving of concurrent calls, byte by byte, against a server |
| `Limits.dfy`, `Vectors.dfy` | one concrete input for each limit of the formats; a frame and a reply written out |

How to read it:

- A Go slice that may be nil is `Nullable`: `Nil` and `Slice([])` differ. Strings are byte
  sequences. Go's `int` has 64 bits, so lengths are unbounded here; conversions to `int16`,
  `int32` and `uint32` wrap, and `Put(n, v)` writes the two's complement of any `v`.
- Imperative code is a class or a method with loops. Its contract ties the result to a function
  of the bytes: `Take...` for streams, `Cursor...` for the cursor, `Decode`, `DecodeSet`,
  `ScanReply`. The properties are lemmas about those functions.
- `Stream.Read` and `Stream.Write` move a number of bytes that is not determined, but make
  progress or report an error. On a stream that is not `reliable` any call may fail; `faults`
  counts the calls that did, so every error is either the expected one or traced to a failure.

Results that show a limit of the code, each with its exact condition and an input:

- `DecodeMessage(EncodeMessage(k, v))` gives back k and v if and only if both lengths fit an
  `int32`: `appendNullableBytes` does not check (`MessageRoundTrip`, `OversizedValueExample`).
- `decodeMessageSetV1` panics if and only if it reaches an entry with a negative size
  (`PanicIff`, `PanicExample`).
- A produce request parses as the intended request if and only if the topic has at most 32767
  bytes: the error of `WriteString` is dropped (`RequestRoundTrip`, `LongTopicExample`).
- `ReadString` and `readString` differ on exactly the inputs with a negative length
  (`StringReadersAgree`, `NegativeLengthExample`).
- A stream that ends right behind a frame's length prefix gives the same plain EOF as one that
  ends between frames (`CutStream`, `CutBehindLengthExample`).
- `Produce` reports an entry as missing also from some damaged replies: those that end inside a
  block of another topic, whose read errors it drops (`MissingIff`, `AbsentNotCutOff`,
  `CutBehindName`).
- On an I/O failure `Produce` calls `Close` while it holds the mutex that `Close` locks, so it
  never returns. The model keeps this: the outcome is `Blocked`. On every connection it blocks if
  and only if the request is too large for a frame, a read or write failed during the call, or no
  reply frame can be read (`Produce`). In the runs this is the phase `Stuck`, which a first call
  can reach (`StuckReached`) and no later step leaves (`StuckForever`); every run property is
  proved both for the code as written and for a `repaired` client that closes the connection in
  place there.

## Model

| member | source | states |
|---|---|---|
| BigEndian.GetPut | kafka/codec.go:34-80 | Reading an n-byte big-endian integer undoes writing it, for every signed value of the width and every width |
| BigEndian.PutGet | kafka/codec.go:34-80 | Conversely every byte sequence is what writing its signed value gives |
| BigEndian.PutAt | kafka/codec.go:44-80 | Byte i of an n-byte integer is its digit of weight 256^(n-1-i), so the most significant byte comes first, for every width and value |
| BigEndian.PutBytes | kafka/codec.go:44-64 | The bytes of one-, two- and four-byte integers written out |
| BigEndian.OrderExample | kafka/codec.go:51-64 | 0x01020304 is written as 1, 2, 3, 4 and read back from it |
| BigEndian.PutWraps | kafka/codec.go:136 | Writing sees a value only modulo the width, so truncating conversions of lengths may be left out of the wire form |
| BigEndian.SameUint32 | kafka/codec.go:205 | Comparing the stored checksum as an unsigned number is comparing its four bytes |
| Automata.WindowInjective | kafka/codec.go:240 | If looking back costs one level per step and different inputs never agree below level n, then different inputs of at most n bits lead one state to different states |
| Crc32c.BurstDetected | kafka/codec.go:10 | Every change confined to 32 consecutive bits changes the checksum, for data of any length |
| Crc32c.WindowIsBurst | kafka/codec.go:239-242 | Replacing at most four consecutive bytes is such a change |
| Crc32c.CheckValue | kafka/codec.go:10 | The modelled checksum agrees with two published vectors of CRC-32C: the letter "a" and the digits "123456789" |
| Crc32c.BitAt | kafka/codec.go:10 | The register is fed every byte's bits in order, the least significant first |
| Crc32c.RawAppend | kafka/codec.go:10 | It starts with all ones, and one more byte feeds it that byte's eight bits |
| Streams.Stream.ReadFull | kafka/codec.go:21-27 | However the stream splits its bytes, a full read is the next n bytes with exactly those consumed; unless a Read failed, an error means the stream ended: EOF with nothing read, UnexpectedEOF with something; a Read that failed gives an error |
| Streams.Stream.WriteFull | kafka/codec.go:300-309 | Terminates for every writer that makes progress or fails; nil error means exactly b was appended; an error means that a Write failed and a prefix of b was appended |
| Codec.ReadInt8 | kafka/codec.go:21-27 | A success is the value at the front of the stream with one byte consumed; an error means that this byte is missing or a Read failed |
| Codec.ReadInt16 | kafka/codec.go:35-41 | The same for a big-endian int16 |
| Codec.ReadInt32 | kafka/codec.go:51-57 | The same for a big-endian int32 |
| Codec.ReadInt64 | kafka/codec.go:67-73 | The same for a big-endian int64 |
| Codec.ReadString | kafka/codec.go:83-99 | A success is the string whose wire form starts the stream; a negative length is an error |
| Codec.ReadBytes | kafka/codec.go:116-129 | A success is the slice whose wire form starts the stream; any negative length is nil |
| Codec.ReadRequestHeader | kafka/codec.go:146-162 | A success is the header whose wire form starts the stream, with exactly it consumed |
| Codec.ReadFrame | kafka/codec.go:165-178 | A success is the payload of the frame that starts the stream, with exactly that frame consumed |
| Codec.WriteInt8 | kafka/codec.go:30-32 | Appends the byte; an error means that a Write failed and a prefix was appended |
| Codec.WriteInt16 | kafka/codec.go:44-48 | The same with the two's complement big-endian form in two bytes |
| Codec.WriteInt32 | kafka/codec.go:60-64 | The same with four bytes |
| Codec.WriteInt64 | kafka/codec.go:76-80 | The same with eight bytes |
| Codec.WriteString | kafka/codec.go:102-113 | A string over 32767 bytes is refused with nothing written; any other is written in wire form |
| Codec.WriteBytes | kafka/codec.go:132-143 | nil is written as length -1; a slice of any length is written behind its wrapped length |
| Codec.WriteFrame | kafka/codec.go:181-189 | A payload over 2^31-1 bytes is refused with nothing written; any other becomes one frame |
| Codec.TakeStringWire | kafka/codec.go:83-113 | Reading a written string gives it back and leaves exactly what follows |
| Codec.TakeBytesWire | kafka/codec.go:116-143 | Reading a written slice gives it back, nil apart from empty, and leaves exactly what follows |
| Codec.TakeHeaderWire | kafka/codec.go:146-162 | Reading a written request header gives it back and leaves exactly what follows |
| Codec.TakeFrameWire | kafka/codec.go:165-189 | Reading a written frame gives its payload back and leaves exactly what follows |
| Codec.StringBytes | kafka/codec.go:102-113 | A written string is its length in two bytes, high byte first, and its bytes |
| Codec.SliceBytes | kafka/codec.go:132-143 | A written slice is its length in four bytes and its bytes; nil is ff ff ff ff |
| Codec.FrameBytes | kafka/codec.go:181-189 | A frame is its length in four bytes and its payload |
| Codec.TakeBytesIff | kafka/codec.go:116-129 | Exactly when a slice can be read, and at which bytes; every negative length is nil |
| Codec.HeaderFields | kafka/codec.go:146-162 | At which bytes the fields of a request header lie |
| Codec.FrameErrors | kafka/codec.go:165-178 | A negative frame size is refused with that size; a payload cut short is EOF when none of it arrives, else UnexpectedEOF |
| Messages.DecodeMessage | kafka/codec.go:201-251 | On every byte sequence parsing ends with the message or the first failed check, within bounds |
| Messages.ReadNullableBytesAt | kafka/codec.go:271-288 | Finds the slice at an offset, or says which underflow stops it, never reading past the end |
| Messages.DecodeIffLayout | kafka/codec.go:201-251 | A byte sequence is accepted as m exactly if it is the checksum, magic 0 or 1, attributes, timestamp for magic 1, and the two length-prefixed fields of m, with any negative length for nil |
| Messages.DecodeTiles | kafka/codec.go:201-251 | The fields of an accepted message tile it: 14 bytes (22 for magic 1) plus key and value |
| Messages.DecodeIffFields | kafka/codec.go:201-251 | A message is accepted as m exactly if its magic, attributes and timestamp lie at their fixed bytes, reading a slice twice behind them gives key and value with nothing left, and the first four bytes are the checksum of the rest |
| Messages.DecodeErrors | kafka/codec.go:202-237 | Exactly when a message is too short, of unsupported magic (and which), or has trailing bytes |
| Messages.NullableErrors | kafka/codec.go:271-281 | Exactly when a field's length, or its payload, underflows |
| Messages.CrcMismatchIff | kafka/codec.go:239-242 | The checksum error is reported exactly if the stored checksum is wrong and recomputing it would make the message acceptable |
| Messages.AppendNullableBytes | kafka/codec.go:290-298 | Appends the length (four 0xff bytes for nil, wrapped for oversized slices) and the bytes |
| Messages.EncodeMessage | kafka/codec.go:254-269 | Builds the magic 1 message of key and value with its checksum in front |
| Messages.EncodedBytes | kafka/codec.go:254-269 | Behind the big-endian checksum of the rest come magic 1, attributes 0, eight zero bytes, and key and value as a slice writer prints them |
| Messages.MessageRoundTrip | kafka/codec.go:201-298 | Decoding an encoded message gives key, value, magic 1, attributes 0 and timestamp 0 if and only if both lengths fit an int32 |
| Messages.MessageCanonical | kafka/codec.go:201-298 | An accepted message equals the re-encoding of its key and value byte for byte exactly if it is magic 1 with zero attributes and timestamp and writes each nil as -1 |
| Messages.DamageRejected | kafka/codec.go:201-251 | If a message is accepted, every same-length one with a damaged stored checksum, or with one burst of at most 32 bits in the checksummed part, is rejected |
| Messages.WindowRejected | kafka/codec.go:201-251 | So is every one that replaces at most four consecutive bytes on either side of the checksum boundary |
| Messages.ByteRejected | kafka/codec.go:201-251 | So is every one that differs in exactly one byte, at any index |
| Wire.ByteReader.ReadInt8 | kafka/wire.go:29-36 | The value at the cursor, which then stands one byte on; an error does not move it |
| Wire.ByteReader.ReadInt16 | kafka/wire.go:38-45 | The same for two bytes |
| Wire.ByteReader.ReadInt32 | kafka/wire.go:47-54 | The same for four bytes |
| Wire.ByteReader.ReadInt64 | kafka/wire.go:56-63 | The same for eight bytes |
| Wire.ByteReader.ReadBytes | kafka/wire.go:65-80 | The slice at the cursor, nil for a negative length; an underflow leaves the cursor behind the length |
| Wire.ByteReader.ReadString | kafka/wire.go:82-96 | The string at the cursor, empty for a negative length; an underflow leaves the cursor behind the length |
| Wire.ParseRequestHeader | kafka/wire.go:149-166 | The header at the front of a body and exactly the rest of the body |
| Wire.HeaderAt | kafka/wire.go:149-166 | At which bytes the fields of the header lie; a client id of negative length is empty |
| Wire.CallDiscipline | kafka/wire.go:25-96 | A failed fixed-width read does not move the cursor, a failed length-prefixed read moves it by its prefix at most, a success passes the prefix |
| Wire.CursorDiscipline | kafka/wire.go:16-96 | Over any sequence of calls, failed or not, the cursor only advances, over the same bytes, and never past the end |
| Wire.ByteWriter.WriteInt8 | kafka/wire.go:110-112 | Appends the form the stream writer of that width writes |
| Wire.ByteWriter.WriteInt16 | kafka/wire.go:114-118 | The same for two bytes |
| Wire.ByteWriter.WriteInt32 | kafka/wire.go:120-124 | The same for four bytes |
| Wire.ByteWriter.WriteInt64 | kafka/wire.go:126-130 | The same for eight bytes |
| Wire.ByteWriter.WriteBytes | kafka/wire.go:132-135 | Appends the wrapped length and the bytes; nil is written as empty |
| Wire.ByteWriter.WriteString | kafka/wire.go:137-140 | Appends the length wrapped to 16 bits and the bytes, without a length check |
| Wire.EncodeResponse | kafka/wire.go:168-174 | The wrapped size, the correlation id and the payload |
| Agreement.IntReadersAgree | kafka/codec.go:35-73 | Stream and cursor readers of integers succeed on the same inputs with the same value and rest |
| Agreement.BytesReadersAgree | kafka/wire.go:65-80 | So do the readers of byte slices |
| Agreement.StringReadersAgree | kafka/wire.go:82-96 | So do the readers of strings if and only if the length is not negative; what each does otherwise |
| Agreement.HeaderReadersAgree | kafka/wire.go:149-166 | So do the readers of request headers if and only if the client id's length is not negative |
| Agreement.BytesWritersAgree | kafka/wire.go:132-135 | The two writers of byte slices emit the same bytes if and only if the slice is not nil |
| Agreement.CompareStringWriters | kafka/wire.go:137-140 | The two writers of strings emit the same bytes if and only if the string has at most 32767 bytes |
| Agreement.StringReadsBack | kafka/wire.go:82-96 | readString gives a written string back, with exactly what follows left, if and only if it has at most 32767 bytes |
| Agreement.ResponseIsFrame | kafka/wire.go:168-174 | encodeResponse of c and p is the frame of c followed by p, and ReadFrame then readInt32 gives c with p left if and only if the size fits |
| MessageSets.DecodeMessageSetV1 | kafka/wire.go:177-200 | On every byte sequence the loop ends with the values, the first error, or a panic |
| MessageSets.NextMessage | kafka/wire.go:181-192 | One entry at the cursor, a short read, or a negative size; an entry is passed exactly |
| MessageSets.EntryAt | kafka/wire.go:181-192 | At which bytes an entry's offset, size and message lie, and exactly when there is one |
| MessageSets.SetIff | kafka/wire.go:177-200 | It returns values exactly if the bytes are entries that each hold an acceptable message, and the values are theirs in order |
| MessageSets.SetHomomorphism | kafka/wire.go:177-200 | A decodable prefix contributes its values in front of whatever the rest gives: values, error or panic |
| MessageSets.PanicIff | kafka/wire.go:188-191 | It panics exactly if, behind entries that decode, there is an entry header with a negative size |
| MessageSets.SetAccounting | kafka/wire.go:177-200 | A decoded set has 12 bytes per value plus its messages' bytes, and at least 26 per value |
| MessageSets.EncodeMessageSetV1 | kafka/wire.go:202-209 | The entry of offset 0 that holds the encoded message of the value with a nil key |
| MessageSets.EncodedSetEntry | kafka/wire.go:202-209 | What is sent reads back as an entry of offset 0 whose message has magic 1, attributes 0, timestamp 0, a nil key and the value |
| MessageSets.EncodedSetBytes | kafka/wire.go:202-209 | The same byte by byte around the checksum |
| MessageSets.SetsRoundTrip | kafka/wire.go:177-209 | Decoding any concatenation of encoded sets returns the original list of values, nil apart from empty |
| MessageSets.SetRoundTrip | kafka/wire.go:177-209 | For one value that holds if and only if its message's size fits an int32 |
| Frames.WriteFrames | kafka/codec.go:181-189 | Repeated WriteFrame over any short writes leaves the frames one after the other; an error means that a Write failed and a prefix of them was sent, or that a payload is too large |
| Frames.ReadFrames | kafka/codec.go:165-178 | Repeated ReadFrame over any short reads never returns a wrong frame, and unless a Read failed returns what cutting the bytes into frames gives |
| Frames.WholeStream | kafka/codec.go:165-189 | Cutting frames written one after the other gives exactly the list of payloads and then EOF |
| Frames.CutStream | kafka/codec.go:165-189 | Cutting a part of them gives exactly the frames before the end and then an error, and which error that is |
| Frames.Transfer | kafka/codec.go:165-189 | Payloads written to one stream are read back in order from whatever part of its output arrives: exactly those whose frames arrived whole, then an error; only the first few if a Read failed |
| Requests.PrintRequest | kafka/client.go:67-80 | The request body for topic, partition, value and correlation id, without the topic when it is too long for WriteString |
| Requests.RequestFields | kafka/client.go:67-80 | Parsed, the body has api key 0, version 1, the correlation id, client id "iomesh-kafka-client", acks 1, timeout 5000, one topic and one partition |
| Requests.RequestBytes | kafka/client.go:67-80 | The body byte by byte, for every topic, also one that is not written |
| Requests.SizeCheckProtects | kafka/codec.go:182 | If WriteFrame accepts the body, no earlier length conversion of value, message or record set has wrapped |
| Requests.RequestRoundTrip | kafka/client.go:67-82 | Read with the repository's own readers, every frame Produce writes gives back the intended request with nothing left over if and only if the topic has at most 32767 bytes |
| Replies.ScanResponse | kafka/client.go:91-143 | The nested loops terminate on every byte sequence with the scan's result |
| Replies.ScanTopicBlock | kafka/client.go:104-140 | One turn of the outer loop decides the result or leaves exactly the rest of the scan to do |
| Replies.ScanPartitions | kafka/client.go:121-140 | The inner loop stops at the first entry of the partition, at a read error, or behind the announced entries |
| Replies.SkipOtherTopic | kafka/client.go:109-114 | Skipping another topic's entries with all errors dropped |
| Replies.ScanIsLookup | kafka/client.go:91-143 | For every reply with the matching correlation id made of topic blocks (repeated ones, negative lengths and counts included) and then any bytes, the result is that of looking up the first record of this topic and partition |
| Replies.LookupFirst | kafka/client.go:134-139 | That lookup answers for the first matching record of the whole reply: its offset, or its code as an error |
| Replies.SuccessIsGenuine | kafka/client.go:103-140 | For every byte sequence, an offset is returned exactly if whole topic blocks without a match precede a block of the topic whose first entry for the partition lies inside the frame with code 0 and that offset |
| Replies.BrokerErrorIsGenuine | kafka/client.go:103-140 | A broker error is returned exactly if such an entry holds that non-zero code |
| Replies.ReadEntry | kafka/client.go:122-133 | The three reads of an entry stop at the first error |
| Replies.EntryFields | kafka/client.go:122-133 | At which bytes an entry's partition, code and offset lie |
| Replies.SkipLeaves | kafka/client.go:110-114 | How many bytes skipping one entry moves, for every number of bytes left |
| Replies.PassedIff | kafka/client.go:104-140 | The scan gets past a block exactly if it is whole and holds no match, or is a block of another topic that the reply ends inside |
| Replies.MissingIff | kafka/client.go:103-143 | For every byte sequence, the entry is reported missing exactly if all announced blocks are whole and none matches, or whole blocks without a match precede a foreign block that is cut off, and what its skip leaves passes for the remaining announced blocks |
| Replies.AbsentNotCutOff | kafka/client.go:103-143 | No reply is of both kinds, so the report is genuine exactly for the first |
| Replies.CutBehindName | kafka/client.go:108-115 | A reply that ends behind the name of its one foreign block is reported as lacking the entry |
| Replies.ScanOutcomes | kafka/client.go:91-143 | A scan ends with an offset, a broker error, a missing entry, a correlation mismatch or a short read and nothing else; a mismatch exactly if the first four bytes are another id |
| Replies.SkipFound | kafka/client.go:109-114 | A skip that leaves 8 bytes or more has parsed every entry completely |
| Replies.ShortTopics | kafka/client.go:103-140 | With fewer than 20 bytes left no entry can be reported any more |
| Clients.Client.constructor | kafka/client.go:22-24 | A new client has no connection and a free mutex |
| Clients.Client.Close | kafka/client.go:27-39 | Waits if the mutex is held; otherwise the connection is closed and dropped, and its error returned, nil if there was none |
| Clients.Client.ConnOrDial | kafka/client.go:41-52 | Keeps a present connection, otherwise dials, and stores nothing if dialling fails |
| Clients.Exchange | kafka/client.go:82-143 | One whole request out and one whole reply in and scanned; None exactly if the request is too large, a call on the connection failed, or no reply frame can be read |
| Clients.Client.ProduceLocked | kafka/client.go:62-143 | With the mutex held: dials if needed, advances the counter, exchanges; an I/O failure waits for the mutex it holds |
| Clients.Client.Produce | kafka/client.go:55-144 | A call that returns has written one whole request, read one whole reply and reports its scan, keeping the connection aligned; it gives the mutex back exactly if it returns; a held mutex or missing address changes nothing; on every connection it blocks if and only if the request is too large, a call on the connection failed, or no reply frame can be read |
| Clients.BlocksExactly | kafka/client.go:82-90 | On no connection can a call both have exchanged a request and a reply and have met an I/O failure |
| Clients.StaysAligned | kafka/client.go:82-102 | Whatever the scan reported, afterwards output and consumed input are equally many whole frames |
| Runs.StartInv | kafka/client.go:13-24 | A new client shared by any set of threads satisfies the invariant |
| Runs.StepInv | kafka/client.go:27-98 | Every lock, dial, short write, answer, short read, failure and unlock keeps it, as written and repaired |
| Runs.RunSafe | kafka/client.go:27-98 | In every run at most one call is between Lock and Unlock, nothing is in flight or outstanding while the mutex is free, and every reply read is the server's answer to the reader's own request, so no correlation mismatch occurs |
| Runs.StuckForever | kafka/client.go:82-90 | As written, a call that failed keeps the mutex in every continuation, and no request is ever begun on its half-used connection |
| Runs.StuckReached | kafka/client.go:82-90 | As written, any first call of a new client can end so |
| Runs.TooLargeSticks | kafka/client.go:82-84 | A request too large for a frame ends so with nothing written |
| Runs.RepairedReturns | kafka/client.go:82-90 | Repaired, it drops the connection and returns the failure |
| Runs.CallReturns | kafka/client.go:59-60 | A call with its result frees the mutex and keeps connection and counter |
| Runs.CloseDrops | kafka/client.go:27-39 | A Close that gets the mutex drops the connection and changes nothing else |
| Runs.DialFailure | kafka/client.go:62-65 | A call that cannot dial reports it, without a connection and with the counter unchanged |
| Runs.Progress | kafka/client.go:55-144 | In every reachable state the holder of the mutex can go on, or the server can answer it, unless its own Close is stuck |
| Runs.WritesSplit | kafka/codec.go:300-309 | A write of any size up to what is unsent is possible, no other, and so is a failure |
| Runs.ReadsSplit | kafka/codec.go:165-178 | A read of any size up to what has arrived is possible, but none across the end of the length prefix, and so is a failure |
| Runs.AnswersAny | kafka/client.go:86 | Any answer that fits a frame is possible |
| Runs.CallCompletes | kafka/client.go:55-144 | From every reachable state with a free mutex, with or without a connection, and for every answer that fits a frame, a call can run to its end, having read that answer, with its scan as result |
| Runs.FirstCallCompletes | kafka/client.go:55-144 | In particular the first call on a new client can |
| Runs.AcknowledgedCall | kafka/client.go:55-144 | Answered with one block holding one entry of code 0, the call returns that entry's offset |
| Limits.PanicExample | kafka/wire.go:188-191 | Twelve bytes on which decodeMessageSetV1 panics |
| Limits.NegativeLengthExample | kafka/wire.go:82-96 | Two bytes on which ReadString fails and readString returns the empty string |
| Limits.CutBehindLengthExample | kafka/codec.go:165-178 | Four bytes of a cut frame that read like an empty stream |
| Limits.OversizedValueExample | kafka/codec.go:295 | The shortest zero-filled value that does not survive encoding and decoding |
| Limits.LongTopicExample | kafka/client.go:77 | The shortest zero-filled topic whose request does not parse as intended |
| Vectors.FrameExample | kafka/codec.go:181-189 | A one-byte frame written out |
| Vectors.ReplyExample | kafka/client.go:91-143 | A reply of two topics written out, and what a call gets from it for each partition, for one that is not there, and for another correlation id |
| Vectors.NegativeCounts | kafka/client.go:103-121 | A negative count of topics or entries announces none |

## Left out

- `iomeshclient/`, `connectorsdk/`, `envelope/`, `cuid/`, `examples/`: JSON over HTTP, string formatting, environment reading and calls into libraries; none of it takes part in the Kafka protocol.
- TCP dialling, context cancellation, deadlines and real sockets: a dial succeeds or fails, and a connection is an input and an output byte sequence.
- A nil `*Client` receiver (`kafka/client.go:28` and `kafka/client.go:56`): Dafny has no method call on null.
- The tables and hardware paths of `hash/crc32`: its mathematical function is used.
- 32-bit platforms: `int` is taken to be wide enough for every length.
- Memory exhaustion: `make` with a size from the wire always succeeds here.
- Error message texts, `ErrUnknownTopic` in `kafka/errors.go`, and the constants no function uses.
- A header or frame returned next to an error: errors carry no partial value here.
- Conformance to other brokers: the code uses CRC-32C for this message format, where the usual legacy format has CRC-32.
- The server: it is only assumed to answer each whole request once, in order, for the correlation id it read; its payloads are arbitrary.
- Fairness between calls: the runs state safety, that the holder of the mutex can always go on, and that a call can complete.
