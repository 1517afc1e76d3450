/**
 * The part of .NET's MemoryStream and BinaryWriter that message framing relies on:
 * a byte buffer with a position; a write at the position overwrites what is there
 * and extends the buffer past its end, and Seek moves the position.
 */
module Streams {
  import opened Bytes

  function Zeros(n: nat): (r: seq<byte>)
    ensures |r| == n && forall i :: 0 <= i < n ==> r[i] == 0
  {
    seq(n, _ => 0)
  }

  function Max(a: int, b: int): int {
    if a < b then b else a
  }

  /** Byte i of the buffer after bytes are written into data at pos: gaps past the old end read as 0. */
  function ByteAfterWrite(data: seq<byte>, pos: nat, bytes: seq<byte>, i: int): byte {
    if pos <= i < pos + |bytes| then bytes[i - pos]
    else if 0 <= i < |data| then data[i]
    else 0
  }

  /**
   * The buffer after bytes are written into data at pos, as MemoryStream.Write leaves it:
   * byte by byte, ByteAfterWrite.
   */
  function Overwrite(data: seq<byte>, pos: nat, bytes: seq<byte>): (r: seq<byte>)
    ensures |r| == Max(|data|, pos + |bytes|)
  {
    seq(Max(|data|, pos + |bytes|), i => ByteAfterWrite(data, pos, bytes, i))
  }

  /** Writing at or past the end of the buffer appends zeros up to the position, then the bytes. */
  lemma OverwritePastEnd(data: seq<byte>, pos: nat, bytes: seq<byte>)
    requires |data| <= pos
    ensures Overwrite(data, pos, bytes) == data + Zeros(pos - |data|) + bytes
  {
    var r := Overwrite(data, pos, bytes);
    var s := data + Zeros(pos - |data|) + bytes;
    assert |r| == |s|;
    forall i | 0 <= i < |r| ensures r[i] == s[i] {
      if i < |data| {
        assert s[i] == data[i];
      } else if i < pos {
        assert s[i] == Zeros(pos - |data|)[i - |data|] == 0;
      } else {
        assert s[i] == bytes[i - pos];
      }
    }
  }

  /** Writing at the end of the buffer appends. */
  lemma OverwriteAtEnd(data: seq<byte>, bytes: seq<byte>)
    ensures Overwrite(data, |data|, bytes) == data + bytes
  {
    var r := Overwrite(data, |data|, bytes);
    assert forall i :: 0 <= i < |r| ==> r[i] == (data + bytes)[i];
  }

  /** Writing inside the buffer keeps its length and every byte outside the written range. */
  lemma OverwriteWithin(data: seq<byte>, pos: nat, bytes: seq<byte>)
    requires pos + |bytes| <= |data|
    ensures var r := Overwrite(data, pos, bytes);
      && |r| == |data|
      && r[..pos] == data[..pos]
      && r[pos..pos + |bytes|] == bytes
      && r[pos + |bytes|..] == data[pos + |bytes|..]
  {
    var r := Overwrite(data, pos, bytes);
    assert forall i :: 0 <= i < pos ==> r[..pos][i] == data[..pos][i];
    assert forall i :: 0 <= i < |bytes| ==> r[pos..pos + |bytes|][i] == bytes[i];
    forall i | pos + |bytes| <= i < |data| ensures r[i] == data[i] { }
  }

  /** Two writes, the second starting where the first ended, are one write of both. */
  lemma OverwriteSequential(data: seq<byte>, pos: nat, a: seq<byte>, b: seq<byte>)
    ensures Overwrite(Overwrite(data, pos, a), pos + |a|, b) == Overwrite(data, pos, a + b)
  {
    var d1 := Overwrite(data, pos, a);
    var r := Overwrite(d1, pos + |a|, b);
    var s := Overwrite(data, pos, a + b);
    assert |r| == |s|;
    forall i | 0 <= i < |r| ensures r[i] == s[i] {
      if i < pos + |a| {
        assert r[i] == d1[i];
      }
    }
  }

  /** Overwriting the start of a region just written replaces that prefix of what was written. */
  lemma OverwritePrefix(data: seq<byte>, pos: nat, a: seq<byte>, c: seq<byte>)
    requires |c| <= |a|
    ensures Overwrite(Overwrite(data, pos, a), pos, c) == Overwrite(data, pos, c + a[|c|..])
  {
    var d1 := Overwrite(data, pos, a);
    var r := Overwrite(d1, pos, c);
    var s := Overwrite(data, pos, c + a[|c|..]);
    assert |r| == |s|;
    forall i | 0 <= i < |r| ensures r[i] == s[i] {
      if pos + |c| <= i < pos + |a| {
        assert r[i] == d1[i] == a[i - pos];
        assert s[i] == (c + a[|c|..])[i - pos];
      }
    }
  }

  class MemoryStream {
    var data: seq<byte>
    var position: nat

    /** An empty stream positioned at 0, as `new MemoryStream()`. */
    constructor ()
      ensures data == [] && position == 0
    {
      data := [];
      position := 0;
    }

    /** Seek(offset, SeekOrigin.Begin): moves the position and leaves the bytes alone. */
    method Seek(offset: nat)
      modifies this
      ensures data == old(data) && position == offset
    {
      position := offset;
    }

    /** Write(byte[]): writes bytes at the position and moves past them. */
    method Write(bytes: seq<byte>)
      modifies this
      ensures data == Overwrite(old(data), old(position), bytes)
      ensures position == old(position) + |bytes|
    {
      data := Overwrite(data, position, bytes);
      position := position + |bytes|;
    }

    /** Write(byte). */
    method WriteByte(b: byte)
      modifies this
      ensures data == Overwrite(old(data), old(position), [b])
      ensures position == old(position) + 1
    {
      Write([b]);
    }

    /** Write(int): four bytes, little-endian. */
    method WriteInt32(v: int)
      requires IsInt32(v)
      modifies this
      ensures data == Overwrite(old(data), old(position), Int32LE(v))
      ensures position == old(position) + 4
    {
      Write(Int32LE(v));
    }
  }
}
