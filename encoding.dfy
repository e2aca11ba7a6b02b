/**
 * Byte-level encodings used by the PNG chunk engine: the C# `int` type,
 * the big-endian byte order of every multi-byte PNG field (length and CRC),
 * the little-endian order `BitConverter.GetBytes` produces before it is
 * reversed, and the ASCII codec that turns chunk-type strings into bytes and back.
 */
module Encoding {

  /** A value, or none where the source throws or finds nothing. */
  datatype Option<T> = None | Some(value: T)

  /** A C# `byte`. */
  newtype byte = x: int | 0 <= x < 0x100

  /** The C# `int` (System.Int32). */
  newtype int32 = x: int | -0x8000_0000 <= x < 0x8000_0000

  /** The 32-bit two's-complement pattern of a signed integer, as an unsigned number. */
  function Unsigned(x: int32): (u: nat)
    ensures u < 0x1_0000_0000
    ensures x >= 0 ==> u == x as int
    ensures x < 0 ==> u >= 0x8000_0000
  {
    if x < 0 then x as int + 0x1_0000_0000 else x as int
  }

  /** Reads a 32-bit pattern as a signed integer, as `BitConverter.ToInt32` does. */
  function Signed(u: nat): (x: int32)
    requires u < 0x1_0000_0000
    ensures Unsigned(x) == u
    ensures x >= 0 <==> u < 0x8000_0000
  {
    if u < 0x8000_0000 then u as int32 else (u - 0x1_0000_0000) as int32
  }

  lemma SignedOfUnsigned(x: int32)
    ensures Signed(Unsigned(x)) == x
  {
  }

  /** The 4 bytes of a 32-bit value, most significant first. */
  function BigEndian(u: nat): (b: seq<byte>)
    requires u < 0x1_0000_0000
    ensures |b| == 4
  {
    [(u / 0x100_0000) as byte, (u / 0x1_0000 % 0x100) as byte, (u / 0x100 % 0x100) as byte, (u % 0x100) as byte]
  }

  /** The 4 bytes of a 32-bit value, least significant first. */
  function LittleEndian(u: nat): (b: seq<byte>)
    requires u < 0x1_0000_0000
    ensures |b| == 4
  {
    [(u % 0x100) as byte, (u / 0x100 % 0x100) as byte, (u / 0x1_0000 % 0x100) as byte, (u / 0x100_0000) as byte]
  }

  /** The value of 4 bytes read most significant first. */
  function FromBigEndian(b: seq<byte>): (u: nat)
    requires |b| == 4
    ensures u < 0x1_0000_0000
    ensures u < 0x8000_0000 <==> b[0] < 0x80
  {
    b[0] as nat * 0x100_0000 + b[1] as nat * 0x1_0000 + b[2] as nat * 0x100 + b[3] as nat
  }

  /** Decoding undoes encoding, in both directions. */
  lemma FromBigEndianOfBigEndian(u: nat)
    requires u < 0x1_0000_0000
    ensures FromBigEndian(BigEndian(u)) == u
  {
    var q1, q2, q3 := u / 0x100, u / 0x1_0000, u / 0x100_0000;
    assert u == q1 * 0x100 + u % 0x100;
    assert q2 == q1 / 0x100 && q1 == q2 * 0x100 + q1 % 0x100;
    assert q3 == q2 / 0x100 && q2 == q3 * 0x100 + q2 % 0x100;
  }

  lemma BigEndianOfFromBigEndian(b: seq<byte>)
    requires |b| == 4
    ensures BigEndian(FromBigEndian(b)) == b
  {
    var u := FromBigEndian(b);
    var b0, b1, b2, b3 := b[0] as int, b[1] as int, b[2] as int, b[3] as int;
    DivOfSum(b0, b1 * 0x1_0000 + b2 * 0x100 + b3, 0x100_0000);
    DivOfSum(b0 * 0x100 + b1, b2 * 0x100 + b3, 0x1_0000);
    DivOfSum(b0, b1, 0x100);
    DivOfSum(b0 * 0x1_0000 + b1 * 0x100 + b2, b3, 0x100);
    DivOfSum(b0 * 0x100 + b1, b2, 0x100);
  }

  /** Dividing `hi * d + lo` by `d` recovers both parts when `lo` is a remainder. */
  lemma DivOfSum(hi: int, lo: int, d: int)
    requires d == 0x100 || d == 0x1_0000 || d == 0x100_0000
    requires 0 <= lo < d
    ensures (hi * d + lo) / d == hi && (hi * d + lo) % d == lo
  {
    if d == 0x100 {
      assert (hi * 0x100 + lo) / 0x100 == hi;
    } else if d == 0x1_0000 {
      assert (hi * 0x1_0000 + lo) / 0x1_0000 == hi;
    } else {
      assert (hi * 0x100_0000 + lo) / 0x100_0000 == hi;
    }
  }

  /** The little-endian bytes are the big-endian bytes reversed (`Array.Reverse`). */
  lemma LittleEndianIsReversed(u: nat)
    requires u < 0x1_0000_0000
    ensures LittleEndian(u) == [BigEndian(u)[3], BigEndian(u)[2], BigEndian(u)[1], BigEndian(u)[0]]
  {
  }

  /** `BitConverter.GetBytes(x)` followed by `Array.Reverse`: the big-endian bytes of an int. */
  function Int32Bytes(x: int32): (b: seq<byte>)
    ensures |b| == 4
  {
    BigEndian(Unsigned(x))
  }

  /** `BitConverter.ToInt32` applied to the reversed big-endian bytes of a field. */
  function Int32Of(b: seq<byte>): (x: int32)
    requires |b| == 4
    ensures x >= 0 <==> b[0] < 0x80
  {
    Signed(FromBigEndian(b))
  }

  /** Reading back the bytes of an int gives the int; the bytes of a field are determined by its value. */
  lemma Int32RoundTrip(x: int32, b: seq<byte>)
    requires |b| == 4
    ensures Int32Of(Int32Bytes(x)) == x
    ensures Int32Bytes(Int32Of(b)) == b
  {
    FromBigEndianOfBigEndian(Unsigned(x));
    SignedOfUnsigned(x);
    BigEndianOfFromBigEndian(b);
  }

  /** `Encoding.ASCII` on one character: code points from 128 up become '?'. */
  function AsciiByte(c: char): byte
  {
    if c as int < 128 then (c as int) as byte else 63
  }

  /** `Encoding.ASCII` on one byte: bytes from 128 up decode to '?'. */
  function AsciiChar(b: byte): char
  {
    if b < 128 then (b as int) as char else '?'
  }

  /** `Encoding.ASCII.GetBytes`. */
  function AsciiBytes(s: string): (b: seq<byte>)
    ensures |b| == |s|
  {
    seq(|s|, i requires 0 <= i < |s| => AsciiByte(s[i]))
  }

  /** `Encoding.ASCII.GetString`. */
  function AsciiString(b: seq<byte>): (s: string)
    ensures |s| == |b|
  {
    seq(|b|, i requires 0 <= i < |b| => AsciiChar(b[i]))
  }

  predicate IsAscii(s: string)
  {
    forall i :: 0 <= i < |s| ==> s[i] as int < 128
  }

  /** On 7-bit text the codec is lossless in both directions; a decoded byte string
      that contains no '?' came from 7-bit bytes only. */
  lemma AsciiRoundTrip(s: string, b: seq<byte>)
    ensures IsAscii(s) ==> AsciiString(AsciiBytes(s)) == s
    ensures (forall i :: 0 <= i < |b| ==> AsciiString(b)[i] != '?') ==> AsciiBytes(AsciiString(b)) == b
  {
    if IsAscii(s) {
      assert forall i :: 0 <= i < |s| ==> AsciiString(AsciiBytes(s))[i] == s[i];
    }
    if forall i :: 0 <= i < |b| ==> AsciiString(b)[i] != '?' {
      assert forall i :: 0 <= i < |b| ==> AsciiBytes(AsciiString(b))[i] == b[i];
    }
  }
}
