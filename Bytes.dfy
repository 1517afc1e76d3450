/** Bytes and the little-endian 32-bit integers that a .NET BinaryWriter writes. */
module Bytes {

  type byte = b: int | 0 <= b < 0x100

  const Int32Min: int := -0x8000_0000
  const Int32Max: int := 0x7FFF_FFFF

  /** True when v fits a signed 32-bit integer (a C# `int`). */
  predicate IsInt32(v: int) {
    Int32Min <= v <= Int32Max
  }

  /** Byte i of u, counting from the least significant. */
  function LeByte(u: nat, i: int): byte
    decreases i
  {
    if i <= 0 then u % 0x100 else LeByte(u / 0x100, i - 1)
  }

  /** v as an unsigned 32-bit pattern (two's complement). */
  function Unsigned32(v: int): (u: nat)
    requires IsInt32(v)
    ensures u < 0x1_0000_0000
  {
    if v < 0 then v + 0x1_0000_0000 else v
  }

  /** The four bytes that BinaryWriter.Write(int) emits for v: two's complement, least significant byte first. */
  function Int32LE(v: int): (r: seq<byte>)
    requires IsInt32(v)
    ensures |r| == 4
  {
    seq(4, i => LeByte(Unsigned32(v), i))
  }

  /** Reads four bytes, least significant first, as a signed 32-bit integer. */
  function DecodeInt32LE(b: seq<byte>): (v: int)
    requires |b| == 4
    ensures IsInt32(v)
    ensures 0 <= v <==> b[3] < 0x80
  {
    var u := b[0] as int + 0x100 * (b[1] as int + 0x100 * (b[2] as int + 0x100 * b[3] as int));
    if u <= Int32Max then u else u - 0x1_0000_0000
  }

  /** Decoding what Int32LE wrote gives back the integer. */
  lemma DecodeEncodeInt32(v: int)
    requires IsInt32(v)
    ensures DecodeInt32LE(Int32LE(v)) == v
  {
    var u := Unsigned32(v);
    var q1 := u / 0x100;
    var q2 := q1 / 0x100;
    var b := Int32LE(v);
    assert b[0] == u % 0x100;
    assert b[1] == LeByte(q1, 0) == q1 % 0x100;
    assert b[2] == LeByte(q1, 1) == LeByte(q2, 0) == q2 % 0x100;
    assert b[3] == LeByte(q1, 2) == LeByte(q2, 1) == LeByte(q2 / 0x100, 0) == q2 / 0x100;
    assert u == q1 * 0x100 + u % 0x100;
    assert q1 == q2 * 0x100 + q1 % 0x100;
    assert q2 == (q2 / 0x100) * 0x100 + q2 % 0x100;
  }

  /** Every four-byte sequence is what Int32LE writes for the integer it decodes to. */
  lemma EncodeDecodeInt32(b: seq<byte>)
    requires |b| == 4
    ensures Int32LE(DecodeInt32LE(b)) == b
  {
    var q2 := b[2] as int + 0x100 * b[3] as int;
    var q1 := b[1] as int + 0x100 * q2;
    var u := b[0] as int + 0x100 * q1;
    assert Unsigned32(DecodeInt32LE(b)) == u;
    assert u / 0x100 == q1 && u % 0x100 == b[0];
    assert q1 / 0x100 == q2 && q1 % 0x100 == b[1];
    assert q2 / 0x100 == b[3] && q2 % 0x100 == b[2];
    var r := Int32LE(DecodeInt32LE(b));
    assert r[1] == LeByte(q1, 0);
    assert r[2] == LeByte(q1, 1) == LeByte(q2, 0);
    assert r[3] == LeByte(q1, 2) == LeByte(q2, 1) == LeByte(b[3], 0);
  }

  /** Scans for x as IEnumerable.Contains does. */
  method Contains(bytes: seq<byte>, x: byte) returns (found: bool)
    ensures found <==> x in bytes
  {
    found := false;
    var i := 0;
    while i < |bytes| && !found
      invariant 0 <= i <= |bytes|
      invariant found <==> x in bytes[..i]
    {
      found := bytes[i] == x;
      i := i + 1;
    }
    assert !found ==> bytes[..i] == bytes;
  }
}
