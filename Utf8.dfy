/**
 * UTF-8 as section 3 of RFC 3629 defines it, over Unicode scalar values
 * (code points other than the surrogates U+D800..U+DFFF).
 * Encode plays the part of .NET's Encoding.UTF8.GetBytes on a well-formed string;
 * Decode is the strict inverse, used to state what an encoded string means.
 */
module Utf8 {
  import opened Wrappers
  import opened Bytes

  type Scalar = c: int | 0 <= c < 0xD800 || 0xE000 <= c < 0x11_0000

  /** A trailing byte of a multi-byte sequence: 10xxxxxx. */
  predicate IsContinuation(b: byte) {
    0x80 <= b < 0xC0
  }

  /** The one to four bytes of c, chosen by the table of RFC 3629 section 3. */
  function EncodeScalar(c: Scalar): (r: seq<byte>)
    ensures |r| == 1 <==> c < 0x80
    ensures |r| == 2 <==> 0x80 <= c < 0x800
    ensures |r| == 3 <==> 0x800 <= c < 0x1_0000
    ensures |r| == 4 <==> 0x1_0000 <= c
    ensures r[0] == 0 <==> c == 0
    ensures forall i :: 0 < i < |r| ==> IsContinuation(r[i])
  {
    if c < 0x80 then [c]
    else if c < 0x800 then [0xC0 + c / 0x40, 0x80 + c % 0x40]
    else if c < 0x1_0000 then [0xE0 + c / 0x1000, 0x80 + c / 0x40 % 0x40, 0x80 + c % 0x40]
    else [0xF0 + c / 0x4_0000, 0x80 + c / 0x1000 % 0x40, 0x80 + c / 0x40 % 0x40, 0x80 + c % 0x40]
  }

  /** The concatenated encodings of the scalars of s, in order. */
  function Encode(s: seq<Scalar>): (r: seq<byte>)
    ensures |r| >= |s|
  {
    if s == [] then [] else EncodeScalar(s[0]) + Encode(s[1..])
  }

  /**
   * Decodes the scalar that starts b, with the number of bytes it takes.
   * Rejects truncated sequences, stray continuation bytes, overlong forms,
   * surrogates and values past U+10FFFF.
   */
  function DecodeFirst(b: seq<byte>): (r: Option<(Scalar, nat)>)
    ensures r.Some? ==> 1 <= r.value.1 <= |b|
  {
    if |b| == 0 then None
    else
      var b0 := b[0] as int;
      if b0 < 0x80 then Some((b0, 1))
      else if 0xC2 <= b0 < 0xE0 then
        if |b| < 2 || !IsContinuation(b[1]) then None
        else Some(((b0 - 0xC0) * 0x40 + (b[1] as int - 0x80), 2))
      else if 0xE0 <= b0 < 0xF0 then
        if |b| < 3 || !IsContinuation(b[1]) || !IsContinuation(b[2]) then None
        else
          var c := (b0 - 0xE0) * 0x1000 + (b[1] as int - 0x80) * 0x40 + (b[2] as int - 0x80);
          if c < 0x800 || 0xD800 <= c < 0xE000 then None else Some((c, 3))
      else if 0xF0 <= b0 < 0xF5 then
        if |b| < 4 || !IsContinuation(b[1]) || !IsContinuation(b[2]) || !IsContinuation(b[3]) then None
        else
          var c := (b0 - 0xF0) * 0x4_0000 + (b[1] as int - 0x80) * 0x1000
                   + (b[2] as int - 0x80) * 0x40 + (b[3] as int - 0x80);
          if c < 0x1_0000 || 0x11_0000 <= c then None else Some((c, 4))
      else None
  }

  /** Decodes all of b, or None when b is not well-formed UTF-8. */
  function Decode(b: seq<byte>): Option<seq<Scalar>>
    decreases |b|
  {
    if b == [] then Some([])
    else match DecodeFirst(b)
      case None => None
      case Some((c, n)) =>
        match Decode(b[n..])
        case None => None
        case Some(rest) => Some([c] + rest)
  }

  /** Decoding the encoding of c, whatever follows it, gives back c and its length. */
  lemma DecodeFirstEncodeScalar(c: Scalar, rest: seq<byte>)
    ensures DecodeFirst(EncodeScalar(c) + rest) == Some((c, |EncodeScalar(c)|))
  {
    var q1 := c / 0x40;
    var q2 := q1 / 0x40;
    assert c == q1 * 0x40 + c % 0x40;
    assert q1 == q2 * 0x40 + q1 % 0x40;
    assert c / 0x1000 == q2;
    assert q2 == (q2 / 0x40) * 0x40 + q2 % 0x40;
    assert c / 0x4_0000 == q2 / 0x40;
  }

  /** What DecodeFirst accepts is exactly the encoding of the scalar it returns. */
  lemma EncodeScalarDecodeFirst(b: seq<byte>)
    requires DecodeFirst(b).Some?
    ensures var (c, n) := DecodeFirst(b).value; b[..n] == EncodeScalar(c)
  {
    var (c, n) := DecodeFirst(b).value;
    if n == 2 {
      TwoByteForm(b[0], b[1], c);
      assert b[..n] == [b[0], b[1]];
    } else if n == 3 {
      ThreeByteForm(b[0], b[1], b[2], c);
      assert b[..n] == [b[0], b[1], b[2]];
    } else if n == 4 {
      FourByteForm(b[0], b[1], b[2], b[3], c);
      assert b[..n] == [b[0], b[1], b[2], b[3]];
    }
  }

  /** A valid two-byte form is the encoding of the scalar it denotes. */
  lemma TwoByteForm(b0: byte, b1: byte, c: Scalar)
    requires 0xC2 <= b0 < 0xE0 && IsContinuation(b1)
    requires c == (b0 as int - 0xC0) * 0x40 + (b1 as int - 0x80)
    ensures EncodeScalar(c) == [b0, b1]
  {
    assert c / 0x40 == b0 - 0xC0 && c % 0x40 == b1 - 0x80;
  }

  /** A valid three-byte form is the encoding of the scalar it denotes. */
  lemma ThreeByteForm(b0: byte, b1: byte, b2: byte, c: Scalar)
    requires 0xE0 <= b0 < 0xF0 && IsContinuation(b1) && IsContinuation(b2)
    requires c == (b0 as int - 0xE0) * 0x1000 + (b1 as int - 0x80) * 0x40 + (b2 as int - 0x80)
    requires 0x800 <= c
    ensures EncodeScalar(c) == [b0, b1, b2]
  {
    var m, t := b1 as int - 0x80, b2 as int - 0x80;
    var q1 := (b0 as int - 0xE0) * 0x40 + m;
    assert c == q1 * 0x40 + t;
    assert c / 0x40 == q1 && c % 0x40 == t;
    assert q1 / 0x40 == b0 - 0xE0 && q1 % 0x40 == m;
    assert c / 0x1000 == b0 - 0xE0;
  }

  /** A valid four-byte form is the encoding of the scalar it denotes. */
  lemma FourByteForm(b0: byte, b1: byte, b2: byte, b3: byte, c: Scalar)
    requires 0xF0 <= b0 < 0xF5 && IsContinuation(b1) && IsContinuation(b2) && IsContinuation(b3)
    requires c == (b0 as int - 0xF0) * 0x4_0000 + (b1 as int - 0x80) * 0x1000
                  + (b2 as int - 0x80) * 0x40 + (b3 as int - 0x80)
    requires 0x1_0000 <= c
    ensures EncodeScalar(c) == [b0, b1, b2, b3]
  {
    var h, m, t := b1 as int - 0x80, b2 as int - 0x80, b3 as int - 0x80;
    var q2 := (b0 as int - 0xF0) * 0x40 + h;
    var q1 := q2 * 0x40 + m;
    assert c == q1 * 0x40 + t;
    assert c / 0x40 == q1 && c % 0x40 == t;
    assert q1 / 0x40 == q2 && q1 % 0x40 == m;
    assert q2 / 0x40 == b0 - 0xF0 && q2 % 0x40 == h;
    assert c / 0x1000 == q2;
    assert c / 0x4_0000 == b0 - 0xF0;
  }

  /** Decode inverts Encode. */
  lemma {:induction false} DecodeEncode(s: seq<Scalar>)
    ensures Decode(Encode(s)) == Some(s)
  {
    if s != [] {
      var e := EncodeScalar(s[0]);
      DecodeFirstEncodeScalar(s[0], Encode(s[1..]));
      assert (e + Encode(s[1..]))[|e|..] == Encode(s[1..]);
      DecodeEncode(s[1..]);
      assert [s[0]] + s[1..] == s;
    }
  }

  /** Encode inverts Decode: a well-formed byte string is the encoding of what it decodes to. */
  lemma {:induction false} EncodeDecode(b: seq<byte>)
    requires Decode(b).Some?
    ensures Encode(Decode(b).value) == b
    decreases |b|
  {
    if b != [] {
      var (c, n) := DecodeFirst(b).value;
      EncodeScalarDecodeFirst(b);
      EncodeDecode(b[n..]);
      var s := Decode(b).value;
      assert s[0] == c && s[1..] == Decode(b[n..]).value;
      assert b == b[..n] + b[n..];
    }
  }

  /** The encoding holds a zero byte exactly when the text holds U+0000. */
  lemma {:induction false} ZeroByteIffNul(s: seq<Scalar>)
    ensures 0 in Encode(s) <==> 0 in s
  {
    if s != [] {
      ZeroByteIffNul(s[1..]);
      var e := EncodeScalar(s[0]);
      assert 0 in e <==> s[0] == 0 by {
        if 0 in e {
          var i :| 0 <= i < |e| && e[i] == 0;
          assert i == 0;
        }
      }
      assert s == [s[0]] + s[1..];
    }
  }
}
