/**
 * The byte layouts the framer produces, stated as values: a length-prefixed frame
 * and a zero-terminated string, each with the reader that recovers what was written.
 */
module Wire {
  import opened Wrappers
  import opened Bytes
  import Utf8

  /** A header as the header writer emits it: at least the 4-byte length field. */
  type Header = h: seq<byte> | 4 <= |h| witness [0, 0, 0, 0]

  /** Largest message whose length still fits the int32 length field. */
  predicate FitsLengthField(header: Header, body: seq<byte>) {
    |header| + |body| <= Int32Max
  }

  /** A frame: header and body, with the header's first four bytes replaced by the total length. */
  function Framed(header: Header, body: seq<byte>): (r: seq<byte>)
    requires FitsLengthField(header, body)
    ensures |r| == |header| + |body|
    ensures r[4..] == header[4..] + body
  {
    Int32LE(|header| + |body|) + header[4..] + body
  }

  /** The length field of a frame reads back as the frame's own length. */
  lemma FramedLengthField(header: Header, body: seq<byte>)
    requires FitsLengthField(header, body)
    ensures IsFrame(Framed(header, body))
  {
    var n := |header| + |body|;
    assert Framed(header, body)[..4] == Int32LE(n);
    DecodeEncodeInt32(n);
  }

  /** With an empty body the length field holds exactly the header size. */
  lemma EmptyBodyFrame(header: Header)
    requires FitsLengthField(header, [])
    ensures DecodeInt32LE(Framed(header, [])[..4]) == |header|
  {
    FramedLengthField(header, []);
  }

  /** A byte string that starts with a 4-byte length field giving its own length. */
  predicate IsFrame(f: seq<byte>) {
    4 <= |f| && DecodeInt32LE(f[..4]) == |f|
  }

  /** Reads the frame at the start of buf by its length field, with what follows it. */
  function ReadFrame(buf: seq<byte>): (r: Option<(seq<byte>, seq<byte>)>)
    ensures r.Some? ==> IsFrame(r.value.0) && buf == r.value.0 + r.value.1
  {
    if |buf| < 4 then None
    else
      var n := DecodeInt32LE(buf[..4]);
      if n < 4 || |buf| < n then None
      else
        assert buf[..n][..4] == buf[..4];
        assert buf == buf[..n] + buf[n..];
        Some((buf[..n], buf[n..]))
  }

  /** Splits a buffer into the frames written back to back into it. */
  function SplitFrames(buf: seq<byte>): Option<seq<seq<byte>>>
    decreases |buf|
  {
    if buf == [] then Some([])
    else match ReadFrame(buf)
      case None => None
      case Some((f, rest)) =>
        match SplitFrames(rest)
        case None => None
        case Some(fs) => Some([f] + fs)
  }

  function Flatten(fs: seq<seq<byte>>): seq<byte> {
    if fs == [] then [] else fs[0] + Flatten(fs[1..])
  }

  /** Frames appended one after another can be told apart again from their length fields alone. */
  lemma {:induction false} SplitFlatten(fs: seq<seq<byte>>)
    requires forall i :: 0 <= i < |fs| ==> IsFrame(fs[i])
    ensures SplitFrames(Flatten(fs)) == Some(fs)
  {
    if fs != [] {
      var buf := Flatten(fs);
      assert buf[..4] == fs[0][..4];
      assert buf[..|fs[0]|] == fs[0];
      assert buf[|fs[0]|..] == Flatten(fs[1..]);
      SplitFlatten(fs[1..]);
      assert [fs[0]] + fs[1..] == fs;
    }
  }

  /** The bytes of a protocol string: UTF-8 and one 0x00 terminator, or None when the terminator would be ambiguous. */
  function CString(value: seq<Utf8.Scalar>): (r: Option<seq<byte>>)
    ensures r.None? <==> 0 in value
  {
    Utf8.ZeroByteIffNul(value);
    var utf8 := Utf8.Encode(value);
    if 0 in utf8 then None else Some(utf8 + [0])
  }

  /** Index of the first 0x00 at or after i. */
  function FindZero(b: seq<byte>, i: nat): (r: Option<nat>)
    requires i <= |b|
    ensures r.Some? ==>
      i <= r.value < |b| && b[r.value] == 0 && forall j :: i <= j < r.value ==> b[j] != 0
    ensures r.None? ==> forall j :: i <= j < |b| ==> b[j] != 0
    decreases |b| - i
  {
    if i == |b| then None
    else if b[i] == 0 then Some(i)
    else FindZero(b, i + 1)
  }

  /** Reads a protocol string at the start of b: the text before the first 0x00 and the bytes consumed. */
  function ReadCString(b: seq<byte>): Option<(seq<Utf8.Scalar>, nat)> {
    match FindZero(b, 0)
    case None => None
    case Some(k) =>
      match Utf8.Decode(b[..k])
      case None => None
      case Some(s) => Some((s, k + 1))
  }

  /** A protocol string read back gives the text it was written from, and consumes just its bytes. */
  lemma CStringRoundTrip(value: seq<Utf8.Scalar>, rest: seq<byte>)
    requires CString(value).Some?
    ensures ReadCString(CString(value).value + rest) == Some((value, |CString(value).value|))
  {
    var utf8 := Utf8.Encode(value);
    var b := utf8 + [0] + rest;
    assert forall j :: 0 <= j < |utf8| ==> b[j] == utf8[j];
    assert b[|utf8|] == 0;
    assert b[..|utf8|] == utf8;
    Utf8.DecodeEncode(value);
  }

  /** The string "name" goes on the wire as 6E 61 6D 65 00. */
  lemma NameExample()
    ensures CString([0x6E, 0x61, 0x6D, 0x65]) == Some([0x6E, 0x61, 0x6D, 0x65, 0x00])
  {
    var name: seq<Utf8.Scalar> := [0x6E, 0x61, 0x6D, 0x65];
    assert Utf8.Encode(name[3..]) == [0x65];
    assert Utf8.Encode(name[2..]) == [0x6D, 0x65];
    assert Utf8.Encode(name[1..]) == [0x61, 0x6D, 0x65];
    assert Utf8.Encode(name) == [0x6E, 0x61, 0x6D, 0x65];
    assert 0 !in Utf8.Encode(name);
    assert CString(name) == Some(Utf8.Encode(name) + [0]);
    assert Utf8.Encode(name) + [0] == [0x6E, 0x61, 0x6D, 0x65, 0x00];
  }
}
