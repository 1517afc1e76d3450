/**
 * A request message of the MongoDB driver and the framing it performs: header, body,
 * then the length backpatched into the header's first field, into a MemoryStream.
 */
module RequestMessages {
  import opened Wrappers
  import opened Bytes
  import Utf8
  import opened Streams
  import opened Wire

  /** The exception WriteCStringTo throws. */
  datatype MongoException = MongoException(message: string)

  class MongoRequestMessage {
    /** What the inherited header writer emits, its first four bytes being the length placeholder. */
    const header: Header
    /** What this message kind's body writer emits. */
    const body: seq<byte>

    var memoryStream: MemoryStream?
    var messageStart: nat
    var messageLength: int
    /** How many times the body writer has run. */
    ghost var bodyWrites: nat

    constructor (header: Header, body: seq<byte>)
      ensures this.header == header && this.body == body
      ensures memoryStream == null && messageStart == 0 && messageLength == 0 && bodyWrites == 0
    {
      this.header := header;
      this.body := body;
      memoryStream := null;
      messageStart := 0;
      messageLength := 0;
      bodyWrites := 0;
    }

    /** The stream holding this message, framed on the first call only. */
    method AsMemoryStream() returns (s: MemoryStream)
      requires memoryStream == null ==> FitsLengthField(header, body)
      modifies this
      ensures old(memoryStream) != null ==> s == old(memoryStream) && unchanged(this) && unchanged(s)
      ensures old(memoryStream) == null ==>
        && fresh(s) && memoryStream == s
        && s.data == Framed(header, body) && s.position == |s.data|
        && messageStart == 0 && messageLength == |s.data|
        && bodyWrites == old(bodyWrites) + 1
    {
      if memoryStream == null {
        var stream := new MemoryStream();
        OverwriteAtEnd([], Framed(header, body));
        WriteTo(stream);
      }
      s := memoryStream;
    }

    /** Frames this message into stream at its current position and leaves the position after it. */
    method WriteTo(stream: MemoryStream)
      requires FitsLengthField(header, body)
      modifies this, stream
      ensures memoryStream == stream
      ensures messageStart == old(stream.position)
      ensures messageLength == |header| + |body|
      ensures stream.data == Overwrite(old(stream.data), messageStart, Framed(header, body))
      ensures stream.position == messageStart + messageLength
      ensures bodyWrites == old(bodyWrites) + 1
    {
      memoryStream := stream;
      messageStart := stream.position;
      ghost var before := stream.data;
      WriteMessageHeaderTo(stream);
      WriteBodyTo(stream);
      BackpatchMessageLength(stream);
      FramedWrite(before, messageStart, header, body);
    }

    /** Writes the length of what was written since messageStart into the message's first four bytes. */
    method BackpatchMessageLength(stream: MemoryStream)
      requires IsInt32(stream.position - messageStart)
      modifies this`messageLength, stream
      ensures messageLength == old(stream.position) - messageStart
      ensures stream.data == Overwrite(old(stream.data), messageStart, Int32LE(messageLength))
      ensures stream.position == old(stream.position)
    {
      var currentPosition := stream.position;
      messageLength := currentPosition - messageStart;
      stream.Seek(messageStart);
      stream.WriteInt32(messageLength);
      stream.Seek(currentPosition);
    }

    /** The header writer of the base message: writes the header at the position. */
    method WriteMessageHeaderTo(stream: MemoryStream)
      modifies stream
      ensures stream.data == Overwrite(old(stream.data), old(stream.position), header)
      ensures stream.position == old(stream.position) + |header|
    {
      stream.Write(header);
    }

    /** This message kind's body writer: writes the body at the position. */
    method WriteBodyTo(stream: MemoryStream)
      modifies this`bodyWrites, stream
      ensures stream.data == Overwrite(old(stream.data), old(stream.position), body)
      ensures stream.position == old(stream.position) + |body|
      ensures bodyWrites == old(bodyWrites) + 1
    {
      stream.Write(body);
      bodyWrites := bodyWrites + 1;
    }

    /** Writes value as a protocol string, or fails before writing anything if its UTF-8 holds 0x00. */
    method WriteCStringTo(stream: MemoryStream, value: seq<Utf8.Scalar>) returns (r: Outcome<MongoException>)
      modifies stream
      ensures r.Fail? <==> 0 in Utf8.Encode(value)
      ensures r.Fail? <==> 0 in value
      ensures r.Fail? ==> unchanged(stream)
      ensures r.Pass? ==>
        && CString(value).Some?
        && stream.data == Overwrite(old(stream.data), old(stream.position), CString(value).value)
        && stream.position == old(stream.position) + |Utf8.Encode(value)| + 1
    {
      var utf8Bytes := Utf8.Encode(value);
      Utf8.ZeroByteIffNul(value);
      var hasZero := Contains(utf8Bytes, 0);
      if hasZero {
        return Fail(MongoException("A cstring cannot contain 0x00"));
      }
      ghost var start := stream.position;
      stream.Write(utf8Bytes);
      stream.WriteByte(0);
      OverwriteSequential(old(stream.data), start, utf8Bytes, [0]);
      return Pass;
    }
  }

  /**
   * Backpatching a length field that lies inside the buffer changes those four bytes only:
   * the buffer keeps its length and every byte before and after them, and the field reads back as n.
   */
  lemma BackpatchInPlace(data: seq<byte>, start: nat, n: int)
    requires IsInt32(n) && start + 4 <= |data|
    ensures var r := Overwrite(data, start, Int32LE(n));
      && |r| == |data|
      && r[..start] == data[..start]
      && r[start + 4..] == data[start + 4..]
      && DecodeInt32LE(r[start..start + 4]) == n
  {
    OverwriteWithin(data, start, Int32LE(n));
    DecodeEncodeInt32(n);
  }

  /** Header, then body, then the length over the header's first field: together one write of the frame. */
  lemma FramedWrite(data: seq<byte>, start: nat, header: Header, body: seq<byte>)
    requires FitsLengthField(header, body)
    ensures var n := |header| + |body|;
      Overwrite(Overwrite(Overwrite(data, start, header), start + |header|, body), start, Int32LE(n))
      == Overwrite(data, start, Framed(header, body))
  {
    var n := |header| + |body|;
    OverwriteSequential(data, start, header, body);
    OverwritePrefix(data, start, header + body, Int32LE(n));
    assert (header + body)[4..] == header[4..] + body;
  }

  /** In a buffer a frame was written into, the four bytes at the frame's start read as its length. */
  lemma FramedWriteLengthField(data: seq<byte>, start: nat, header: Header, body: seq<byte>)
    requires FitsLengthField(header, body)
    ensures var r := Overwrite(data, start, Framed(header, body));
      start + 4 <= |r| && DecodeInt32LE(r[start..start + 4]) == |header| + |body|
  {
    var f := Framed(header, body);
    var r := Overwrite(data, start, f);
    FramedLengthField(header, body);
    assert r[start..start + 4] == f[..4] by {
      forall i | 0 <= i < 4 ensures r[start..start + 4][i] == f[..4][i] {
        assert r[start + i] == ByteAfterWrite(data, start, f, start + i);
      }
    }
  }

  /**
   * Two messages framed one after the other into one stream: the second starts where the
   * first ended, and on a stream positioned at its end both frames are appended back to back.
   */
  method WriteBackToBack(m1: MongoRequestMessage, m2: MongoRequestMessage, stream: MemoryStream)
    requires m1 != m2
    requires FitsLengthField(m1.header, m1.body) && FitsLengthField(m2.header, m2.body)
    modifies m1, m2, stream
    ensures m1.messageStart == old(stream.position)
    ensures m2.messageStart == m1.messageStart + m1.messageLength
    ensures stream.position == m2.messageStart + m2.messageLength
    ensures old(stream.position) == |old(stream.data)| ==>
      stream.data == old(stream.data) + Framed(m1.header, m1.body) + Framed(m2.header, m2.body)
  {
    m1.WriteTo(stream);
    m2.WriteTo(stream);
    if old(stream.position) == |old(stream.data)| {
      OverwriteAtEnd(old(stream.data), Framed(m1.header, m1.body));
      OverwriteAtEnd(old(stream.data) + Framed(m1.header, m1.body), Framed(m2.header, m2.body));
    }
  }

  /** Materializing twice yields the same stream with the same bytes, and the body is written once. */
  method AsMemoryStreamTwice(m: MongoRequestMessage) returns (s1: MemoryStream, s2: MemoryStream)
    requires m.memoryStream == null && FitsLengthField(m.header, m.body)
    modifies m
    ensures s1 == s2 && s2.data == Framed(m.header, m.body)
    ensures m.bodyWrites == old(m.bodyWrites) + 1
  {
    s1 := m.AsMemoryStream();
    s2 := m.AsMemoryStream();
  }
}
