# logback-gelf: chunking, framing and field mapping in Dafny

logback-gelf is a logback appender that sends log events to a Graylog server as
GELF messages. This project models its core and proves properties of that model:

* **Framing.**
  * A GELF message too large for one UDP datagram is cut into chunks.
  * Each chunk carries the magic bytes `0x1e 0x0f`, a message id, a sequence
    number and a sequence count.
  * The count and number are two bytes each (`0, n, 0, k`) in the padded
    layout of Graylog 0.9.5, and one byte each in the unpadded layout.
* **Chunkers.** There are two generations of chunker (`me.moocar.logbackgelf`
  and `org.logbackgelf`) and the older `PacketCreator`.
  * The newer chunker stops after `maxChunks`, comparing a *signed byte*
    counter, and the model keeps that comparison exactly.
  * The older ones never stop, so the sequence number wraps modulo 256.
  * Every slice is zero-padded to the full threshold.
* **Streaming writer.** `GelfChunkingOutputStream` (and the identical
  `GelfUDPOutputStream`) buffers bytes in a packet array.
  * Byte `maxPacketSize + 1` switches it into chunk mode. It then fetches one
    8-byte id and replays the buffer into the rows of a two-dimensional chunk
    array.
  * `flush` back-fills the sequence counts, sends the chunks and always resets.
  * A message needing more than 128 chunks is dropped.
  * The class is proved against `StreamFormat.Datagrams`, a function of the
    bytes written.
  * `GelfUDPOutputStream` (src/main/java/me/moocar/logbackgelf/GelfUDPOutputStream.java)
    differs only in inlining `flushChunked` and `reset`, so the one class
    `ChunkingStream.GelfChunkingOutputStream` models both; the table cites the
    chunking writer's lines.
* **Dispatch.** The executors send a payload below the chunk threshold as is,
  and chunk anything else. The org `GelfAppender.append` also switches the id
  layout for server version 0.9.6.
* **Transports.**
  * TCP sends null-terminated frames and reconnects when the socket is unusable.
  * AMQP publishes with a `gelf<millis><uuid>` message id, and retries until
    the confirm arrives or until `maxRetries + 1` attempts (without bound for a
    negative `maxRetries` or `Integer.MAX_VALUE`, where the counter wraps).
* **Fields.** These build the GELF field map:
  * the converters and layouts (short-message truncation, static fields, MDC
    fields renamed via `additionalFields`, the logger and thread names, file
    and line);
  * the `key:value` parsing of `addAdditionalField` and `addFieldType`.

## How the model is written

* **Bytes.** Java `byte` is `JavaLang.byte` (0..255). A cast `(byte) x` is
  `ToByte(x) = x % 256`, and the signed value of a byte counter is `JavaByte`.
  `Arrays.copyOf` and `copyOfRange` pad with zeros, as in Java.
* **Classes.**
  * The streaming writer is a class over `array<byte>` and `array2<byte>`. The
    socket is the ghost list `sent`.
  * The TCP and AMQP transports, `BaseAppender`, the org `GelfAppender`, the org
    `GelfLayout` and the access layouts are classes whose methods update their
    fields.
  * Chunk building, splitting and field mapping are functions.
* **Loops.** Every loop of the source is a `method` with a `while` loop, proved
  equal to a specification function: `SplitPayload`, `CreateChunks`,
  `ToStackTraceString`, the MDC and static-field loops, `WriteHeader`,
  `FillInSequenceCounts`, sending the chunks, the TCP write loop and the AMQP
  retry loop.
* **Inputs.** These become parameters:
  * the id provider: the MD5 digest of the org chunkers, the 8-byte `nextId`
    of the writer;
  * the clock and the host name;
  * the UUID;
  * the iteration order of Java hash maps: an `order` sequence holding each
    key once;
  * whether a socket is closed or connected, and whether connecting works;
  * where a send throws (`failAt`, `writes`, the `Failure` of the org appender);
  * the AMQP connection and publish outcomes, one per attempt.
* **Field maps.** A GELF field map is `map<string, Value>`, where `Value` is
  text, an integer, seconds since the epoch (kept as milliseconds), or null.

## Model

| member | source | states |
|---|---|---|
| ChunkFactory.SeqNumbers | src/main/java/me/moocar/logbackgelf/ChunkFactory.java:54-57 | two bytes `[seq, count]` unpadded, four `[0, seq, 0, count]` padded |
| ChunkFactory.ConcatArrays | src/main/java/me/moocar/logbackgelf/ChunkFactory.java:38-45 | the result is the first array followed by the second, inputs untouched |
| ChunkFactory.Create | src/main/java/me/moocar/logbackgelf/ChunkFactory.java:26-29 | a chunk is magic, id, sequence field and body in that order; header is `2 + |id| + 2/4` bytes and the body follows it |
| ChunkFactory.ParseCreate | src/main/java/me/moocar/logbackgelf/ChunkFactory.java:26-29 | a decoder reading the header back recovers id, number, count and body of every created chunk |
| ChunkFactory.CreateParse | src/main/java/org/logbackgelf/ChunkFactory.java:18-20 | conversely every chunk the decoder accepts is the chunk `create` builds from its fields |
| ChunkFactory.PaddedOffsets | src/main/java/org/logbackgelf/ChunkFactory.java:42-44 | padded layout, 8-byte id: sequence number at byte 11, count at byte 13, zeros at 10 and 12 |
| ChunkFactory.UnpaddedOffsets | src/main/java/me/moocar/logbackgelf/GelfChunkingOutputStream.java:122-130 | unpadded layout, 8-byte id: magic at 0-1, sequence number at 10, count at 11 |
| ChunkFactory.PaddedOffsets32 | src/main/java/org/logbackgelf/PacketCreator.java:62-64 | padded layout, 32-byte id: sequence number at 35, count at 37 |
| PayloadChunker.NumSlicesCover | src/main/java/me/moocar/logbackgelf/PayloadChunker.java:70-86 | the number of slices is `ceil(n / t)`: the slices cover the payload with less than one slice to spare; none only for an empty payload |
| PayloadChunker.ExtractSubPayload | src/main/java/me/moocar/logbackgelf/PayloadChunker.java:95-97 | slice `i` is exactly `t` bytes: payload bytes from `i * t`, zeros past the end |
| PayloadChunker.SliceBoundsFitInt | src/main/java/me/moocar/logbackgelf/PayloadChunker.java:95-97 | while `n + t - 1` fits in a Java `int`, the slice bounds `i * t` and `(i + 1) * t` of every slice do not wrap |
| PayloadChunker.LastSliceEndWraps | src/main/java/me/moocar/logbackgelf/PayloadChunker.java:95-97 | beyond that bound they do: `2^31 - 10` bytes at threshold 1000 give a last slice whose wrapped end is negative, below its start |
| PayloadChunker.SliceStart | src/main/java/me/moocar/logbackgelf/PayloadChunker.java:70-86 | every slice starts inside the payload |
| PayloadChunker.SplitPayload | src/main/java/me/moocar/logbackgelf/PayloadChunker.java:70-86 | for every `int` threshold (slice bounds computed without `int` wrap-around) the result is `splitPayload`'s outcome: the slice list `Slices` for a positive one, a throw for zero, and for a negative one no slices when it divides the length, else a throw |
| PayloadChunker.SplitNonPositive | src/main/java/me/moocar/logbackgelf/PayloadChunker.java:70-86 | a non-positive threshold throws iff it is zero or does not divide the length, and otherwise yields no slices |
| PayloadChunker.SlicesShape | src/main/java/me/moocar/logbackgelf/PayloadChunker.java:70-86 | `ceil(n/t)` slices, each `t` bytes long; no slice iff the payload is empty |
| PayloadChunker.SlicesFlatten | src/main/java/me/moocar/logbackgelf/PayloadChunker.java:70-86 | the slices joined are the payload zero-padded to `k * t` |
| PayloadChunker.SlicesRecoverPayload | src/main/java/org/logbackgelf/PayloadChunker.java:106-122 | the slices joined are the payload followed by fewer than `t` zeros only |
| PayloadChunker.Produced | src/main/java/me/moocar/logbackgelf/PayloadChunker.java:47-62 | the number of chunks made is at most the number of slices (the signed-byte cap) |
| PayloadChunker.ProducedIsFirstHit | src/main/java/me/moocar/logbackgelf/PayloadChunker.java:54-58 | the loop stops exactly at the first index whose signed byte value equals `maxChunks` |
| PayloadChunker.ChunksStep | src/main/java/me/moocar/logbackgelf/PayloadChunker.java:47-62 | one loop step appends the chunk for slice `i` with number `(byte) i` |
| PayloadChunker.CreateChunks | src/main/java/me/moocar/logbackgelf/PayloadChunker.java:47-62 | the loop with its `break` produces exactly the capped chunk list |
| PayloadChunker.ChunkIt | src/main/java/me/moocar/logbackgelf/PayloadChunker.java:35-38 | for every threshold, the outcome of splitting then chunking under one message id (`None` when `splitPayload` throws) |
| PayloadChunker.ChunkOutcomeCases | src/main/java/me/moocar/logbackgelf/PayloadChunker.java:35-38 | a positive threshold gives the chunk list `ChunkList`; a negative one dividing the length gives no chunks; any other non-positive threshold throws |
| PayloadChunker.ChunkListDecodes | src/main/java/me/moocar/logbackgelf/PayloadChunker.java:35-38 | chunk `i` decodes to the one shared id, number `(byte) i`, count `(byte) k` and slice `i` |
| PayloadChunker.ChunkListCount | src/main/java/me/moocar/logbackgelf/PayloadChunker.java:47-62 | with `0 <= maxChunks <= 127` there are `min(k, maxChunks)` chunks |
| PayloadChunker.ChunkListLengths | src/main/java/me/moocar/logbackgelf/PayloadChunker.java:35-38 | every chunk is header plus `payloadThreshold` bytes |
| PayloadChunker.ChunkListReassembles | src/main/java/me/moocar/logbackgelf/PayloadChunker.java:35-38 | when nothing is cut the chunk bodies joined are the payload plus zero padding only |
| PayloadChunker.FiveBytesTwoChunks | src/test/java/me/moocar/logbackgelf/ChunkTest.java:30-49 | threshold 3: five bytes give two 17-byte chunks numbered 0 and 1 with count 2 |
| PayloadChunker.NineBytesThreeChunks | src/test/java/me/moocar/logbackgelf/ChunkTest.java:51-60 | threshold 3: nine bytes give three chunks |
| PayloadChunker.MassivePayloadIsCut | src/test/java/me/moocar/logbackgelf/ChunkTest.java:73-85 | a payload needing more than 127 chunks yields exactly 127 |
| OrgPayloadChunker.CreateMessageId | src/main/java/org/logbackgelf/PayloadChunker.java:58-78 | the id is 32 bytes; a 16-byte MD5 digest is followed by 16 zero bytes |
| OrgPayloadChunker.CreateChunk | src/main/java/org/logbackgelf/PayloadChunker.java:83-85 | magic, id, `0, seq, 0, count`, body |
| OrgPayloadChunker.AllChunksStep | src/main/java/org/logbackgelf/PayloadChunker.java:39-50 | one loop step appends the chunk of slice `i` |
| OrgPayloadChunker.CreateChunks | src/main/java/org/logbackgelf/PayloadChunker.java:39-50 | the loop builds one chunk per slice, all with the same id |
| OrgPayloadChunker.Go | src/main/java/org/logbackgelf/PayloadChunker.java:28-31 | for every threshold, `go`'s outcome: the split payload chunked under the digest's 32-byte id, or `None` when splitting throws |
| OrgPayloadChunker.GoOutcomeCases | src/main/java/org/logbackgelf/PayloadChunker.java:28-31 | a positive threshold gives `GoOutput`; a negative one dividing the length gives no chunks; any other non-positive threshold throws |
| OrgPayloadChunker.GoChunks | src/main/java/org/logbackgelf/PayloadChunker.java:28-31 | `ceil(n/t)` chunks, chunk `i` decoding to the id, `(byte) i`, `(byte) k` and slice `i` |
| OrgPayloadChunker.AllChunksIsUncapped | src/main/java/org/logbackgelf/PayloadChunker.java:39-50 | the older loop is the capped one with no cap |
| OrgPayloadChunker.SeqNumWraps | src/main/java/org/logbackgelf/PayloadChunker.java:39-50 | the sequence byte wraps: chunk 128 carries 0x80 and chunk 256 is numbered 0 again, like chunk 0 |
| PacketCreator.Go | src/main/java/org/logbackgelf/PacketCreator.java:23-96 | for every threshold: data no longer than it is the one packet of the data; longer data under a positive threshold becomes the chunks; otherwise the outcome of `splitData` (`None` when it throws, no packets when a negative threshold divides the length) |
| PacketCreator.GoFailsIff | src/main/java/org/logbackgelf/PacketCreator.java:72-96 | `go` throws iff the data is longer than a non-positive threshold that is zero or does not divide its length |
| PacketCreator.ZeroThreshold | src/main/java/org/logbackgelf/PacketCreator.java:23-32 | threshold 0: empty data is one empty packet, other data throws (division by zero) |
| PacketCreator.NegativeThreshold | src/main/java/org/logbackgelf/PacketCreator.java:72-96 | a negative threshold: no packets when it divides the length, empty data included; otherwise `copyOfRange` throws |
| PacketCreator.ShortDataIsOnePacket | src/main/java/org/logbackgelf/PacketCreator.java:23-32 | data up to the threshold (inclusive) is sent as itself |
| PacketCreator.LongDataIsChunked | src/main/java/org/logbackgelf/PacketCreator.java:34-44 | longer data is `ceil(n/t) >= 2` packets |
| PacketCreator.LongDataLayout | src/main/java/org/logbackgelf/PacketCreator.java:34-64 | each packet is `38 + t` bytes: magic, the shared id at 2..34, number at 35, count at 37 |
| PacketCreator.LongDataReassembles | src/main/java/org/logbackgelf/PacketCreator.java:72-96 | packet bodies joined are the data followed by fewer than `t` zeros only |
| PacketCreator.ThreeBytesUnchunked | src/test/java/logbackgelf/ChunkTest.java:25-34 | threshold 10000: three bytes are one packet `[1, 2, 3]` |
| PacketCreator.ThresholdThreeInstances | src/test/java/logbackgelf/ChunkTest.java:36-96 | threshold 3: five bytes give two 41-byte packets numbered 0, 1 with count 2; nine bytes give three 41-byte packets |
| StreamFormat.BlocksFlatten | src/main/java/me/moocar/logbackgelf/GelfChunkingOutputStream.java:107-120 | the chunk bodies joined in order are the bytes written |
| StreamFormat.BlocksLengths | src/main/java/me/moocar/logbackgelf/GelfChunkingOutputStream.java:107-120 | all bodies are full except the last, which holds 1 to `maxPacketSize - 12` bytes |
| StreamFormat.BlocksUnique | src/main/java/me/moocar/logbackgelf/GelfChunkingOutputStream.java:107-120 | any list of bodies of that shape joining to the bytes is the block list |
| StreamFormat.DatagramsAreChunks | src/main/java/me/moocar/logbackgelf/GelfChunkingOutputStream.java:132-156 | a message over one datagram and within 128 chunks is sent as its chunks |
| StreamFormat.DatagramsUnchunked | src/main/java/me/moocar/logbackgelf/GelfChunkingOutputStream.java:132-156 | nothing written sends nothing; up to `maxPacketSize` bytes is one datagram of them; over 128 chunks sends nothing |
| StreamFormat.DatagramsChunkedShape | src/main/java/me/moocar/logbackgelf/GelfChunkingOutputStream.java:158-176 | 2 to 128 datagrams, all but the last exactly `maxPacketSize` bytes, bodies joining to the message |
| StreamFormat.DatagramsChunked | src/main/java/me/moocar/logbackgelf/GelfChunkingOutputStream.java:158-171 | datagram `i` decodes to the one id, number `(byte) i`, the datagram count and block `i` |
| StreamFormat.DatagramsChunkedOffsets | src/main/java/me/moocar/logbackgelf/GelfChunkingOutputStream.java:19-22 | magic at 0-1, number at 10, count at `SEQ_COUNT_POSITION` 11 |
| StreamFormat.ChunkedCount | src/main/java/me/moocar/logbackgelf/GelfChunkingOutputStream.java:107-120 | a message over one block and within 128 blocks has 2 to 128 blocks |
| ChunkingStream.GelfChunkingOutputStream.Row | src/main/java/me/moocar/logbackgelf/GelfChunkingOutputStream.java:173-176 | the bytes `sendBytes` sends from one chunk row, of the given length |
| ChunkingStream.GelfChunkingOutputStream.RowIsChunk | src/main/java/me/moocar/logbackgelf/GelfChunkingOutputStream.java:122-130 | a row holding a header and its body is the chunk the chunk factory would build |
| ChunkingStream.GelfChunkingOutputStream.constructor | src/main/java/me/moocar/logbackgelf/GelfChunkingOutputStream.java:59-66 | empty, unchunked writer with nothing written or sent |
| ChunkingStream.GelfChunkingOutputStream.Write | src/main/java/me/moocar/logbackgelf/GelfChunkingOutputStream.java:74-85 | each write appends `(byte) b` to the message and sends nothing; exactly one id is fetched, on byte `maxPacketSize + 1` |
| ChunkingStream.GelfChunkingOutputStream.StartChunking | src/main/java/me/moocar/logbackgelf/GelfChunkingOutputStream.java:96-105 | the buffered bytes are replayed into chunk rows in order under the new id |
| ChunkingStream.GelfChunkingOutputStream.WriteChunked | src/main/java/me/moocar/logbackgelf/GelfChunkingOutputStream.java:107-120 | the byte is stored at the next row position, or the limit of 128 chunks is flagged |
| ChunkingStream.GelfChunkingOutputStream.NextChunk | src/main/java/me/moocar/logbackgelf/GelfChunkingOutputStream.java:109-116 | a full row opens the next row and stores the byte there |
| ChunkingStream.GelfChunkingOutputStream.OpenRow | src/main/java/me/moocar/logbackgelf/GelfChunkingOutputStream.java:109-114 | the next row gets its header; earlier rows are untouched |
| ChunkingStream.GelfChunkingOutputStream.StoreByte | src/main/java/me/moocar/logbackgelf/GelfChunkingOutputStream.java:117-118 | the byte extends the current row's body |
| ChunkingStream.GelfChunkingOutputStream.WriteHeader | src/main/java/me/moocar/logbackgelf/GelfChunkingOutputStream.java:122-130 | the row starts with magic, id and `(byte) chunkIndex`; nothing else in the arrays changes |
| ChunkingStream.GelfChunkingOutputStream.Flush | src/main/java/me/moocar/logbackgelf/GelfChunkingOutputStream.java:132-156 | sends exactly `Datagrams` of the bytes written (a prefix of them up to the failing send), then always resets |
| ChunkingStream.GelfChunkingOutputStream.FlushChunked | src/main/java/me/moocar/logbackgelf/GelfChunkingOutputStream.java:158-165 | sends the chunked datagrams in order, stopping at a failing send |
| ChunkingStream.GelfChunkingOutputStream.SendChunks | src/main/java/me/moocar/logbackgelf/GelfChunkingOutputStream.java:160-164 | full rows first, then the current row cut at `position` |
| ChunkingStream.GelfChunkingOutputStream.RowsAreDatagrams | src/main/java/me/moocar/logbackgelf/GelfChunkingOutputStream.java:158-171 | once counts are filled in, the rows are exactly the chunked datagrams of the message |
| ChunkingStream.GelfChunkingOutputStream.FillInSequenceCounts | src/main/java/me/moocar/logbackgelf/GelfChunkingOutputStream.java:167-171 | every begun row's count byte is `(byte) (chunkIndex + 1)` |
| ChunkingStream.GelfChunkingOutputStream.Reset | src/main/java/me/moocar/logbackgelf/GelfChunkingOutputStream.java:178-183 | back to the empty unchunked state; id, sent datagrams and id count kept |
| Dispatch.AppendRoutes | src/main/java/me/moocar/logbackgelf/AppenderExecutor.java:32-46 | for every chunker threshold: the payload itself iff it is below the chunk threshold, independent of the id; else the chunk list for a positive chunker threshold, and for a non-positive one an empty list when it divides the length or no call at all (the chunker throws) |
| Dispatch.AppendDelivers | src/main/java/me/moocar/logbackgelf/AppenderExecutor.java:32-46 | a call is always made when the payload is short or the chunker threshold is positive and nothing is cut, and what the transport receives reassembles to the payload (plus zero padding when chunked) |
| Dispatch.AppendWithEventForwards | src/main/java/me/moocar/logbackgelf/UDPAppenderExecutor.java:34-47 | the same call, or none exactly when the plain executor makes none, with the event passed along unchanged |
| Dispatch.OrgAppendRoutes | src/main/java/org/logbackgelf/AppenderExecutor.java:33-47 | below the threshold the payload goes alone whatever the chunker; else no call iff the chunker throws, and otherwise its output goes as one list (the plain `Executor.append` at src/main/java/org/logbackgelf/Executor.java lines 28-37 routes the same way) |
| Dispatch.AppendIsOrgAppend | src/main/java/org/logbackgelf/Executor.java:28-37 | for every threshold, the org routing given the capped chunker's outcome is the newer executor |
| OrgGelfAppender.GelfAppender.constructor | src/main/java/org/logbackgelf/GelfAppender.java:18-28 | source defaults: facility GELF, host localhost, port 12201, short length 255, threshold 1000, version 0.9.5, 32-byte padded ids, no fields |
| OrgGelfAppender.GelfAppender.SetGraylog2ServerVersion | src/main/java/org/logbackgelf/GelfAppender.java:186-188 | only the version field changes |
| OrgGelfAppender.GelfAppender.Append | src/main/java/org/logbackgelf/GelfAppender.java:37-64 | version 0.9.6 switches to 8-byte unpadded ids for good; one send with the digest cut to the id length unless an exception strikes first; any exception adds one error |
| OrgGelfAppender.AppendCallShape | src/main/java/org/logbackgelf/GelfAppender.java:47-58 | below the threshold the payload alone, else at most 127 chunks |
| TcpTransport.NullTerminated | src/main/java/me/moocar/logbackgelf/TcpTransport.java:80-83 | the packet followed by one zero byte |
| TcpTransport.UnframeOne | src/main/java/me/moocar/logbackgelf/TcpTransport.java:80-83 | a reader splitting at zero bytes reads one null-free packet back |
| TcpTransport.FramesAppend | src/main/java/me/moocar/logbackgelf/TcpTransport.java:65-78 | framing a list is framing its parts in order |
| TcpTransport.UnframeFrames | src/main/java/me/moocar/logbackgelf/TcpTransport.java:65-78 | null-free packets framed and split at zeros come back exactly |
| TcpTransport.UnframePrefix | src/main/java/me/moocar/logbackgelf/TcpTransport.java:65-78 | whatever follows a run of frames, the reader reads the framed packets first |
| TcpTransport.UnframeUnterminated | src/main/java/me/moocar/logbackgelf/TcpTransport.java:80-83 | bytes with no null terminator are never read as a packet |
| TcpTransport.CutFrameJoinsNext | src/main/java/me/moocar/logbackgelf/TcpTransport.java:80-83 | a packet whose null byte was never written is not read; the next frame on the same stream is read glued to it |
| TcpTransport.TcpTransport.constructor | src/main/java/me/moocar/logbackgelf/TcpTransport.java:16-19 | no socket, nothing written |
| TcpTransport.TcpTransport.EnsureConnected | src/main/java/me/moocar/logbackgelf/TcpTransport.java:36-58 | an invalid socket is closed and dropped; a missing one is opened when connecting works, else stays missing and nothing else changes |
| TcpTransport.TcpTransport.SendList | src/main/java/me/moocar/logbackgelf/TcpTransport.java:65-78 | when a socket is usable its stream grows by the frames of the packets sent before a failure, plus the failed packet's bytes when only its null byte failed; the socket survives a write failure; the stream of a new connection holds just that |
| TcpTransport.TcpTransport.WriteAll | src/main/java/me/moocar/logbackgelf/TcpTransport.java:70-73 | the stream grows by the frames of the first `failAt` packets, then the unterminated bytes of packet `failAt` when its null byte is what failed |
| TcpTransport.TcpTransport.Send | src/main/java/me/moocar/logbackgelf/TcpTransport.java:23-34 | one null-terminated frame when connected and both writes work, the bare data when only `write(0)` fails, nothing when `write(data)` fails or connecting fails |
| AmqpTransport.MessageIdInjective | src/main/java/me/moocar/logbackgelf/AMQPTransport.java:41-42 | for UUIDs of one length, two ids are equal iff both the clock and the UUID are: sends in different milliseconds or with different UUIDs never share an id |
| AmqpTransport.PublishCount | src/main/java/me/moocar/logbackgelf/AMQPTransport.java:60-63 | at most one publish per attempt |
| AmqpTransport.Repeat | src/main/java/me/moocar/logbackgelf/AMQPTransport.java:60-63 | exactly `k` publishes, each of them the one publish |
| AmqpTransport.PublishStep | src/main/java/me/moocar/logbackgelf/AMQPTransport.java:39-69 | one more attempt adds its publish, if any, to the published list |
| AmqpTransport.AMQPTransport.constructor | src/main/java/me/moocar/logbackgelf/AMQPTransport.java:25-32 | exchange, key and retries stored; no channel |
| AmqpTransport.AMQPTransport.Send | src/main/java/me/moocar/logbackgelf/AMQPTransport.java:39-69 | attempts end at the first success or, when `maxRetries` bounds the loop (`0 <= maxRetries < Integer.MAX_VALUE`), after `maxRetries + 1`; every publish has the same id and properties; the channel is kept iff the last attempt succeeded |
| AmqpTransport.AMQPTransport.Retry | src/main/java/me/moocar/logbackgelf/AMQPTransport.java:44-68 | the retry loop on the wrapping `int` counter: first success, or retries exhausted when `maxRetries` bounds the loop |
| AmqpTransport.LoopTest | src/main/java/me/moocar/logbackgelf/AMQPTransport.java:66-68 | the `do`-`while` test on the wrapped counter goes on exactly when the loop is unbounded or fewer than `maxRetries` attempts failed |
| AmqpTransport.MaxRetriesWraps | src/main/java/me/moocar/logbackgelf/AMQPTransport.java:66-68 | with `maxRetries == Integer.MAX_VALUE` the counter wraps to `Integer.MIN_VALUE`, so the loop is unbounded |
| AmqpTransport.AMQPTransport.Pass | src/main/java/me/moocar/logbackgelf/AMQPTransport.java:46-67 | attempt number `tries` succeeds exactly as the connection and confirm outcomes say, records its publish, and keeps a channel only on success |
| AmqpTransport.AMQPTransport.Attempt | src/main/java/me/moocar/logbackgelf/AMQPTransport.java:48-67 | a channel is created only when none exists; success iff a channel exists and the confirm arrives; any failure drops the channel |
| GelfFields.Truncate | src/main/java/me/moocar/logbackgelf/GelfConverter.java:144-149 | a prefix of length `min(|s|, n)` |
| GelfFields.TruncateProperties | src/main/java/me/moocar/logbackgelf/GelfConverter.java:144-149 | identity iff short enough; idempotent; a looser cut first changes nothing |
| GelfFields.TruncateTo | src/main/java/org/logbackgelf/GelfConverter.java:130-142 | a negative length throws (None); otherwise a prefix of at most `n` characters, the whole string when short enough |
| GelfFields.ParseKeyValueSound | src/main/java/me/moocar/logbackgelf/BaseAppender.java:165-175 | an accepted `key:value` has a non-empty value and neither part holds a colon |
| GelfFields.ParseKeyValueJoin | src/main/java/me/moocar/logbackgelf/BaseAppender.java:165-175 | `k + ":" + v` is parsed back to `(k, v)` |
| GelfFields.ParseKeyValueNoColon | src/main/java/me/moocar/logbackgelf/BaseAppender.java:165-175 | no colon is refused |
| GelfFields.ParseKeyValueMissingValue | src/main/java/me/moocar/logbackgelf/BaseAppender.java:165-175 | `k:` is refused (split drops trailing empty strings) |
| GelfFields.ParseKeyValueTrailingColon | src/main/java/me/moocar/logbackgelf/BaseAppender.java:165-175 | `k:v:` is accepted as `(k, v)` |
| GelfFields.ParseKeyValueThreeParts | src/main/java/me/moocar/logbackgelf/BaseAppender.java:165-175 | `k:v:w` is refused |
| GelfFields.AddMdcFields | src/main/java/me/moocar/logbackgelf/GelfConverter.java:119-142 | the MDC loop, or the map unchanged without an MDC |
| GelfFields.MdcFieldsHit | src/main/java/me/moocar/logbackgelf/GelfConverter.java:119-142 | each MDC key with a renaming sets the renamed field to its value |
| GelfFields.MdcFieldsMiss | src/main/java/me/moocar/logbackgelf/GelfConverter.java:119-142 | every other field is left as it was |
| GelfFields.AddStaticFields | src/main/java/me/moocar/logbackgelf/GelfLayoutAccessLog.java:141-146 | the static-fields loop |
| GelfFields.StaticFieldsOverlay | src/main/java/me/moocar/logbackgelf/GelfLayoutAccessLog.java:141-146 | the result is the map overlaid with every static field as text |
| GelfFields.StaticFieldsPrefix | src/main/java/me/moocar/logbackgelf/GelfLayoutAccess.java:107-112 | a loop over any list of static keys overlays exactly the keys it visited |
| GelfConverter.MapFields | src/main/java/me/moocar/logbackgelf/GelfConverter.java:73-101 | the `mapFields` steps in order |
| GelfConverter.FieldsFail | src/main/java/me/moocar/logbackgelf/GelfConverter.java:144-149 | it throws iff the short message length is negative |
| GelfConverter.KeptField | src/main/java/me/moocar/logbackgelf/GelfConverter.java:119-142 | a field no MDC entry is renamed onto keeps its standard value |
| GelfConverter.MessageFieldsHold | src/main/java/me/moocar/logbackgelf/GelfConverter.java:73-101 | facility and host as configured, full message the rendered message, short message its truncation |
| GelfConverter.HeaderFieldsHold | src/main/java/me/moocar/logbackgelf/GelfConverter.java:73-101 | version 1.0, the event's level and its timestamp |
| GelfConverter.FileFieldHolds | src/main/java/me/moocar/logbackgelf/GelfConverter.java:103-111 | `file` is present iff the event has caller data, and then names the file and line of its first frame |
| GelfConverter.NameFieldsHold | src/main/java/me/moocar/logbackgelf/GelfConverter.java:73-101 | `_loggerName` iff `useLoggerName`, `_threadName` iff `useThreadName` |
| GelfConverter.MdcFieldsWin | src/main/java/me/moocar/logbackgelf/GelfConverter.java:119-142 | a renamed MDC entry overrides any standard field |
| GelfConverter.NoMdcNoExtraFields | src/main/java/me/moocar/logbackgelf/GelfConverter.java:119-142 | without an MDC the renaming table has no effect |
| OrgGelfConverter.ToStackTraceString | src/main/java/org/logbackgelf/GelfConverter.java:93-99 | the stack lines concatenated in order |
| OrgGelfConverter.CreateMessage | src/main/java/org/logbackgelf/GelfConverter.java:62-91 | the `createMessage` steps in order |
| OrgGelfConverter.KeptField | src/main/java/org/logbackgelf/GelfConverter.java:109-128 | fields no MDC entry is renamed onto are kept |
| OrgGelfConverter.FieldsFail | src/main/java/org/logbackgelf/GelfConverter.java:130-142 | it throws iff the short message length is negative |
| OrgGelfConverter.MessagesHold | src/main/java/org/logbackgelf/GelfConverter.java:73-82 | full message is the long text (message plus stack trace) cut to 4096 characters, short message the short text cut to the short length; without a throwable both texts are the formatted message |
| OrgGelfConverter.HeaderFieldsHold | src/main/java/org/logbackgelf/GelfConverter.java:62-91 | facility, host, version 1.0, level and timestamp |
| OrgGelfConverter.LoggerNameHolds | src/main/java/org/logbackgelf/GelfConverter.java:109-128 | `_loggerName` iff `useLoggerName` |
| OrgGelfConverter.MdcFieldsWin | src/main/java/org/logbackgelf/GelfConverter.java:109-128 | a renamed MDC entry overrides any field |
| OrgGelfLayout.GelfLayout.constructor | src/main/java/org/logbackgelf/GelfLayout.java:20-22 | Java defaults: no facility, no logger name, no field table, short length 0 |
| OrgGelfLayout.GelfLayout.CreateMessage | src/main/java/org/logbackgelf/GelfLayout.java:73-93 | the layout's `createMessage` |
| OrgGelfLayout.LayoutFails | src/main/java/org/logbackgelf/GelfLayout.java:103-122 | with an MDC and no field table it throws |
| OrgGelfLayout.LayoutMessagesHold | src/main/java/org/logbackgelf/GelfLayout.java:73-93 | full message and its truncation, facility as configured |
| OrgGelfLayout.LayoutHeaderFieldsHold | src/main/java/org/logbackgelf/GelfLayout.java:73-93 | host, timestamp, version 1.0, level; `_loggerName` iff `useLoggerName` |
| OrgGelfLayout.LayoutIgnoresFieldsWithoutMdc | src/main/java/org/logbackgelf/GelfLayout.java:103-122 | without an MDC the field table is irrelevant |
| AccessLayouts.AccessFieldsOverlay | src/main/java/me/moocar/logbackgelf/GelfLayoutAccessLog.java:97-114 | the access-log map is the base fields overlaid with the static fields |
| AccessLayouts.BaseFieldsHold | src/main/java/me/moocar/logbackgelf/GelfLayoutAccessLog.java:97-114 | host, messages, timestamp, version 1.1; `_threadName` iff `useThreadName` |
| AccessLayouts.ParseFieldType | src/main/java/me/moocar/logbackgelf/GelfLayoutAccessLog.java:277-291 | accepted iff a valid `key:type` whose type is primitive |
| AccessLayouts.FieldTypeAccepted | src/main/java/me/moocar/logbackgelf/GelfLayoutAccessLog.java:41-51 | every primitive type name is accepted |
| AccessLayouts.FieldTypeRefused | src/main/java/me/moocar/logbackgelf/GelfLayoutAccessLog.java:277-291 | any other type name is refused |
| AccessLayouts.GelfLayoutAccessLog.constructor | src/main/java/me/moocar/logbackgelf/GelfLayoutAccessLog.java:28-33 | empty tables, the local host name |
| AccessLayouts.BuildFields | src/main/java/me/moocar/logbackgelf/GelfLayoutAccessLog.java:97-114 | the body both layouts share builds `AccessFields`: the base entries, then the static fields laid over them in the loop's order |
| AccessLayouts.GelfLayoutAccessLog.MapFields | src/main/java/me/moocar/logbackgelf/GelfLayoutAccessLog.java:97-114 | the access-log map; additional fields and field types play no part |
| AccessLayouts.GelfLayoutAccessLog.AddAdditionalField | src/main/java/me/moocar/logbackgelf/GelfLayoutAccessLog.java:237-247 | a valid pair sets one entry; a bad one changes nothing |
| AccessLayouts.GelfLayoutAccessLog.AddStaticAdditionalField | src/main/java/me/moocar/logbackgelf/GelfLayoutAccessLog.java:256-267 | a valid pair sets one static field; a bad one changes nothing |
| AccessLayouts.GelfLayoutAccessLog.AddStaticField | src/main/java/me/moocar/logbackgelf/GelfLayoutAccessLog.java:273-275 | sets one static field |
| AccessLayouts.GelfLayoutAccessLog.AddFieldType | src/main/java/me/moocar/logbackgelf/GelfLayoutAccessLog.java:277-291 | a valid primitive type sets one entry; every stored type is primitive or was there before |
| AccessLayouts.GelfLayoutAccess.constructor | src/main/java/me/moocar/logbackgelf/GelfLayoutAccess.java:27-30 | no statics, the local host name |
| AccessLayouts.GelfLayoutAccess.MapFields | src/main/java/me/moocar/logbackgelf/GelfLayoutAccess.java:75-92 | base fields overlaid with the static fields |
| AccessLayouts.GelfLayoutAccess.AddStaticField | src/main/java/me/moocar/logbackgelf/GelfLayoutAccess.java:166-168 | sets one static field |
| BaseAppender.IdLayout | src/main/java/me/moocar/logbackgelf/BaseAppender.java:48-53 | version 0.9.5 gives padded 32-byte ids (38-byte header), any other 8-byte unpadded (12) |
| BaseAppender.BaseAppender.constructor | src/main/java/me/moocar/logbackgelf/BaseAppender.java:20-33 | the source defaults |
| BaseAppender.BaseAppender.InitExecutor | src/main/java/me/moocar/logbackgelf/BaseAppender.java:48-53 | only the 0.9.5 version changes the id layout |
| BaseAppender.BaseAppender.AddAdditionalField | src/main/java/me/moocar/logbackgelf/BaseAppender.java:165-175 | a valid pair sets one entry; a bad one changes nothing |
| BaseAppender.BaseAppender.AddStaticAdditionalField | src/main/java/me/moocar/logbackgelf/BaseAppender.java:183-194 | the same for static fields |
| BaseAppender.AddedFieldEffect | src/main/java/me/moocar/logbackgelf/BaseAppender.java:165-175 | adding `k:v` maps `k` to `v` and leaves other keys |

## Left out

- The UDP transports (`Transport`, `UDPTransport`, org `Transport`) and sockets themselves: sending is a ghost list or a parameter saying where it fails.
- `MessageIdProvider`: MD5, `nanoTime` and the host name are inputs (`digest`, `nextId`), so id uniqueness across messages is not proved.
- Concurrency: the TCP transport's lock, `SocketEncoderAppender` and `JmsAppender` are not modelled.
- Gzip, JSON serialisation, `PatternLayout` rendering and `LevelToSyslogSeverity`: the rendered message and the severity are inputs.
- Floating-point timestamps: seconds are kept as the integer milliseconds they come from.
- `convertFieldType` is not modelled, and neither is the host lookup in `InternetUtils`.
- The org converter and org layout look the host name up for every message and throw a `RuntimeException` when the lookup fails (src/main/java/org/logbackgelf/GelfConverter.java:101-107, src/main/java/org/logbackgelf/GelfLayout.java:95-101). The model takes the host name as an input, so `OrgGelfConverter.FieldsFail` and `OrgGelfLayout.LayoutFails` leave that failure out.
- GelfFields.Truncate: lengths count Unicode code points, while Java's `length` and `substring` count UTF-16 code units. Text outside the Basic Multilingual Plane is therefore cut at a different place: Java cuts `"😀a"` to length 2 as the emoji alone, the model keeps both characters. Lone surrogates cannot be represented. The short message of `GelfConverter.Fields` is cut this way.
- GelfFields.TruncateTo: counts code points in the same way, so the org converter's 4096-character cut and the org layout's short-message cut differ from Java's on text outside the Basic Multilingual Plane. This affects `OrgGelfConverter.Fields` and `OrgGelfLayout.LayoutFields`.
- The TCP transport swallows only `IOException`. The `IllegalArgumentException` or `SecurityException` that `new Socket` may throw reaches the caller in Java; the model has no such failure.
- The `includeFullMDC` flag is stored but never read. Lifecycle `start`/`stop` is not modelled; plain getters and setters are plain fields.
- ChunkingStream.GelfChunkingOutputStream.constructor: requires `maxPacketSize > 12`; a smaller packet cannot hold the header, and `writeHeader` would overflow the row.
- TcpTransport.TcpTransport.WriteAll: a failure inside `write(packet)` itself is taken to write none of that packet's bytes; a stream that fails part way through an array is not modelled.
- TcpTransport.TcpTransport.Send: the same: a failing `write(data)` writes none of `data`.
- AmqpTransport.AMQPTransport.Send: requires that some attempt succeeds when `maxRetries` is negative or `Integer.MAX_VALUE`; otherwise the source loops forever.
- PayloadChunker.SplitPayload: the slice bounds `i * t` and `(i + 1) * t` are unbounded integers, while Java computes them in 32-bit `int`. They agree while `n + t - 1 <= 2^31 - 1` (`SliceBoundsFitInt`). For a longer payload whose length `t` does not divide, the end of the last slice wraps negative and `copyOfRange` throws, while the model returns the slice (`LastSliceEndWraps`). The same holds for `PayloadChunker.ExtractSubPayload`, `PayloadChunker.ChunkIt`, `OrgPayloadChunker.Go` and `PacketCreator.Go`; such payloads are far beyond any datagram.
- PayloadChunker.ExtractSubPayload: the same unbounded slice bounds, exact only while `(i + 1) * t <= 2^31 - 1`.
- PayloadChunker.ChunkIt: inherits the unbounded slice bounds of the splitting it calls.
- OrgPayloadChunker.Go: inherits the unbounded slice bounds of the splitting it calls.
- PacketCreator.Go: inherits the unbounded slice bounds of the splitting it calls.
- AmqpTransport.AMQPTransport.Retry: the connection count is stated per attempt (by `Attempt`), not for the whole loop.
- OrgGelfAppender.GelfAppender.Append: `append` builds a `PayloadChunker` with four arguments (src/main/java/org/logbackgelf/GelfAppender.java:47) and calls its `go` (line 57), but src/main/java/org/logbackgelf/PayloadChunker.java has only a one-argument constructor (line 23). The capped chunker of the newer package (at most 127 chunks) stands in for it. Building the transport is not modelled. `Failure` says only where a runtime exception strikes.
- OrgGelfLayout.LayoutFields: a null message is not modelled.
- GelfConverter.Fields: the host name is a constructor field and the rendered message is an input.
