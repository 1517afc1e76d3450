# MongoDB request-message framing, modelled in Dafny

This project models how the C# MongoDB driver frames an outbound request message
(`MongoRequestMessage`) into a `MemoryStream`. The message records the stream position
where it starts, writes the header (its first field is the int32 message length) and then
the body, and measures how many bytes it wrote. It then seeks back, overwrites the length
field with that count as a little-endian int32, and seeks forward again so that the next
message can be appended to the same stream. The class also writes protocol strings
(zero-terminated UTF-8, refusing text whose encoding contains 0x00), and it materializes
its stream lazily, once.

Modules, leaf first:

- `Wrappers`: `Option`, and `Outcome` for a thrown exception.
- `Bytes`: the `byte` type. `Int32LE` and `DecodeInt32LE` give what `BinaryWriter.Write(int)` emits, with round trips in both directions. `Contains` is the byte scan used by the string writer.
- `Utf8`: the UTF-8 encoder of RFC 3629 section 3 over Unicode scalar values, and a strict decoder. Decoding inverts encoding in both directions, and the encoding holds a 0x00 byte exactly when the text holds U+0000.
- `Streams`: the `MemoryStream` class, holding `data: seq<byte>` and `position: nat`. `Overwrite` states what writing at a position does: it overwrites the bytes there, extends the buffer past its end, and reads any gap past the old end as zeros. Lemmas compose consecutive writes and overwrites of a region that was just written.
- `Wire`: the layouts as values. `Framed` is a header and body with the length in the first four bytes. `ReadFrame` and `SplitFrames` read frames that were written back to back. `CString` gives a protocol string's bytes, and `ReadCString` reads one back.
- `RequestMessages`: the class `MongoRequestMessage`, with fields `memoryStream`, `messageStart` and `messageLength`. Its methods each say exactly what the stream and the fields hold afterwards. Two client methods show what a caller can conclude: two messages framed into one stream land back to back, and materializing twice returns the same stream.

The header writer belongs to the base class `MongoMessage`, and the per-kind body writers belong to the subclasses. Neither is part of this model. Each message instead carries the bytes they would produce: `header`, which is at least the 4-byte length placeholder, and `body`. The two writers write those bytes at the stream position. A ghost counter, `bodyWrites`, records how often the body writer ran.

Three consequences of the C# code (MongoRequestMessage.cs, lines 43-60):
- `AsMemoryStream` returns the stream object itself, not a byte copy.
- If `WriteTo` already ran on a caller's stream, `AsMemoryStream` returns that stream as it stands, without framing again.
- `WriteTo` writes at the stream's current position, which need not be its end. So framing into the middle of a stream overwrites what is there, and `WriteTo`'s contract covers that case too.

## Model

| member | source | states |
|---|---|---|
| `Bytes.Int32LE` | MongoDBClient/Internal/MongoRequestMessage.cs:70 | the int32 length field is exactly four bytes |
| `Bytes.DecodeInt32LE` | MongoDBClient/Internal/MongoRequestMessage.cs:70 | four bytes read back as a value in int32 range, non-negative exactly when the top bit of the last byte is clear |
| `Bytes.DecodeEncodeInt32` | MongoDBClient/Internal/MongoRequestMessage.cs:70 | reading back the four bytes written for an int32 gives that int32 |
| `Bytes.EncodeDecodeInt32` | MongoDBClient/Internal/MongoRequestMessage.cs:70 | every four-byte string is the encoding of the int32 it reads as (the encoding is onto) |
| `Bytes.Contains` | MongoDBClient/Internal/MongoRequestMessage.cs:83 | the scan reports true exactly when the byte occurs in the sequence |
| `Utf8.EncodeScalar` | MongoDBClient/Internal/MongoRequestMessage.cs:82 | a scalar takes 1, 2, 3 or 4 bytes by the ranges of RFC 3629; its lead byte is 0 only for U+0000; every later byte is a continuation byte |
| `Utf8.Encode` | MongoDBClient/Internal/MongoRequestMessage.cs:82 | a string encodes to at least one byte per scalar |
| `Utf8.DecodeFirst` | MongoDBClient/Internal/MongoRequestMessage.cs:82 | a decoded scalar consumes between 1 and the available number of bytes |
| `Utf8.DecodeFirstEncodeScalar` | MongoDBClient/Internal/MongoRequestMessage.cs:82 | the encoding of a scalar, followed by anything, decodes to that scalar and its length |
| `Utf8.EncodeScalarDecodeFirst` | MongoDBClient/Internal/MongoRequestMessage.cs:82 | whatever the decoder accepts is exactly the encoding of the scalar it returns (no overlong or alternative forms) |
| `Utf8.TwoByteForm` | MongoDBClient/Internal/MongoRequestMessage.cs:82 | a well-formed two-byte sequence is the encoding of the scalar it denotes |
| `Utf8.ThreeByteForm` | MongoDBClient/Internal/MongoRequestMessage.cs:82 | a well-formed three-byte sequence is the encoding of the scalar it denotes |
| `Utf8.FourByteForm` | MongoDBClient/Internal/MongoRequestMessage.cs:82 | a well-formed four-byte sequence is the encoding of the scalar it denotes |
| `Utf8.DecodeEncode` | MongoDBClient/Internal/MongoRequestMessage.cs:82 | decoding the UTF-8 of any text gives back that text |
| `Utf8.EncodeDecode` | MongoDBClient/Internal/MongoRequestMessage.cs:82 | well-formed UTF-8 is the encoding of what it decodes to |
| `Utf8.ZeroByteIffNul` | MongoDBClient/Internal/MongoRequestMessage.cs:82-83 | the encoded bytes contain 0x00 if and only if the text contains U+0000 |
| `Streams.Overwrite` | MongoDBClient/Internal/MongoRequestMessage.cs:69-71 | after a write at a position, the buffer is as long as the larger of its old length and the write's end; each written byte is there, every other byte is the old one, and any gap past the old end is 0 |
| `Streams.OverwritePastEnd` | MongoDBClient/Internal/MongoRequestMessage.cs:86-87 | a write at or past the end of the buffer appends zeros up to the position, then the bytes |
| `Streams.OverwriteAtEnd` | MongoDBClient/Internal/MongoRequestMessage.cs:86-87 | writing at the end of the buffer appends |
| `Streams.OverwriteWithin` | MongoDBClient/Internal/MongoRequestMessage.cs:69-70 | a write inside the buffer keeps its length and every byte before and after the written range |
| `Streams.OverwriteSequential` | MongoDBClient/Internal/MongoRequestMessage.cs:57-58 | two writes, the second starting where the first ended, equal one write of both |
| `Streams.OverwritePrefix` | MongoDBClient/Internal/MongoRequestMessage.cs:69-70 | overwriting the start of a region just written replaces only that prefix of it |
| `Streams.MemoryStream.constructor` | MongoDBClient/Internal/MongoRequestMessage.cs:45 | a new stream is empty and positioned at 0 |
| `Streams.MemoryStream.Seek` | MongoDBClient/Internal/MongoRequestMessage.cs:69-71 | seeking sets the position and leaves the bytes unchanged |
| `Streams.MemoryStream.Write` | MongoDBClient/Internal/MongoRequestMessage.cs:86 | writing bytes overwrites or extends at the position and advances it by their count |
| `Streams.MemoryStream.WriteByte` | MongoDBClient/Internal/MongoRequestMessage.cs:87 | writing one byte overwrites or extends at the position and advances it by one |
| `Streams.MemoryStream.WriteInt32` | MongoDBClient/Internal/MongoRequestMessage.cs:70 | writing an int32 writes its four little-endian bytes at the position and advances it by four |
| `Wire.Framed` | MongoDBClient/Internal/MongoRequestMessage.cs:67-70 | a frame is header plus body long; after its first four bytes it is the rest of the header, then the body |
| `Wire.FramedLengthField` | MongoDBClient/Internal/MongoRequestMessage.cs:67-70 | a frame's length field reads as the frame's own length, header plus body |
| `Wire.EmptyBodyFrame` | MongoDBClient/Internal/MongoRequestMessage.cs:67-68 | with an empty body the length field equals the header size |
| `Wire.ReadFrame` | MongoDBClient/Internal/MongoRequestMessage.cs:67-70 | a frame read by its length field is a well-formed frame, and it and the remainder together make up the buffer |
| `Wire.SplitFlatten` | MongoDBClient/Internal/MongoRequestMessage.cs:55 | frames appended back to back are recovered one by one from their length fields |
| `Wire.CString` | MongoDBClient/Internal/MongoRequestMessage.cs:78-88 | a protocol string is refused exactly when the text contains U+0000; otherwise it is its UTF-8 and one 0x00 |
| `Wire.FindZero` | MongoDBClient/Internal/MongoRequestMessage.cs:87 | part of the protocol-string reader: finds the first 0x00 at or after an index (the terminator written by the source), or reports that there is none |
| `Wire.CStringRoundTrip` | MongoDBClient/Internal/MongoRequestMessage.cs:82-87 | reading a written protocol string back, whatever follows it, gives the original text and consumes exactly its bytes |
| `Wire.NameExample` | MongoDBClient/Internal/MongoRequestMessage.cs:86-87 | "name" is written as 6E 61 6D 65 00 |
| `RequestMessages.MongoRequestMessage.constructor` | MongoDBClient/Internal/MongoRequestMessage.cs:33-39 | a new message has no stream yet and has not run its body writer |
| `RequestMessages.MongoRequestMessage.AsMemoryStream` | MongoDBClient/Internal/MongoRequestMessage.cs:43-49 | on the first call, a fresh stream holding exactly the frame, positioned at its end, with messageStart 0 and the body writer run once; on later calls, the cached stream, with the message and stream unchanged |
| `RequestMessages.MongoRequestMessage.WriteTo` | MongoDBClient/Internal/MongoRequestMessage.cs:51-60 | remembers the stream; messageStart is the entry position, not 0; the frame is written at that position, and the position ends just after it; messageLength equals header plus body; the body writer runs once |
| `RequestMessages.MongoRequestMessage.BackpatchMessageLength` | MongoDBClient/Internal/MongoRequestMessage.cs:64-72 | messageLength is the position minus messageStart; its four little-endian bytes overwrite those at messageStart, and the position is restored to where it was |
| `RequestMessages.BackpatchInPlace` | MongoDBClient/Internal/MongoRequestMessage.cs:69-71 | a backpatch of a field inside the buffer keeps the buffer's length, every byte before messageStart and every byte from messageStart + 4 on, and the field reads back as the length written |
| `RequestMessages.MongoRequestMessage.WriteMessageHeaderTo` | MongoDBClient/Internal/MongoRequestMessage.cs:57 | the header is written at the position, which advances past it |
| `RequestMessages.MongoRequestMessage.WriteBodyTo` | MongoDBClient/Internal/MongoRequestMessage.cs:74-76 | the body is written at the position, which advances past it; the body writer's run is counted |
| `RequestMessages.MongoRequestMessage.WriteCStringTo` | MongoDBClient/Internal/MongoRequestMessage.cs:78-88 | it fails exactly when the UTF-8 bytes (equivalently the text) contain a zero. On failure stream and position are unchanged. On success the UTF-8 and a 0x00 are written at the position, which advances by their count |
| `RequestMessages.FramedWrite` | MongoDBClient/Internal/MongoRequestMessage.cs:57-70 | header, body and then the length patched over the first field amount to one write of the frame |
| `RequestMessages.FramedWriteLengthField` | MongoDBClient/Internal/MongoRequestMessage.cs:67-70 | wherever a frame was written, the four bytes at its start read as header plus body, the value messageLength holds after WriteTo |
| `RequestMessages.WriteBackToBack` | MongoDBClient/Internal/MongoRequestMessage.cs:55 | a second message framed into the same stream starts where the first ended; on a stream positioned at its end, both frames are appended in order |
| `RequestMessages.AsMemoryStreamTwice` | MongoDBClient/Internal/MongoRequestMessage.cs:43-49 | materializing twice returns the same stream holding the frame, and the body writer runs once |

The C# class only writes bytes; nothing in it decodes them. The readers `Bytes.DecodeInt32LE`, `Utf8.DecodeFirst`, `Utf8.Decode`, `Wire.ReadFrame`, `Wire.SplitFrames`, `Wire.Flatten`, `Wire.FindZero` and `Wire.ReadCString` are reference definitions: they say what the written bytes mean. Their rows cite the lines that write the bytes they read. The round-trip lemmas above connect them to the writers.

## Left out

- Text is modelled as a sequence of Unicode scalar values. A C# string is UTF-16, so surrogate pairs are taken as already combined. `Encoding.UTF8` replaces lone surrogates with U+FFFD, and that replacement is left out: lone surrogates are not scalar values.
- The BSON encoding of body documents and the subclasses' `WriteBodyTo` implementations (insert, query, update, delete, kill-cursors) are not part of this model. A body is an arbitrary byte string, fixed when the message is constructed.
- The header fields (request id, response-to id, opcode) and how they are allocated belong to `MongoMessage`, which is not part of this model. The header is an arbitrary byte string of at least four bytes, whose first four bytes are the placeholder.
- The `collection` field and the opcode constructor argument are only stored by this class, and the model does not carry them.
- `MemoryStream.Seek`: takes a non-negative offset. The IOException for a negative offset is not modelled, because the framer only seeks to positions it has read from the stream.
- `MemoryStream` capacity growth, its 2 GB length limit and `BinaryWriter` buffering are left out. The transport that sends the stream and thread safety are left out too; the class has no synchronization.
- `BackpatchMessageLength`: requires that position minus messageStart fits an int32. The `(int)` cast that would truncate a longer message is not modelled. For the same reason, `WriteTo` and a first `AsMemoryStream` require header plus body to be at most 2^31 - 1 bytes.
- The header and body writers here cannot fail, so this model has no framing that stops part-way through a message and leaves a wrong length.
