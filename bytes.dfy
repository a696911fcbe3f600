/** Byte-level reads and writes shared by the checksum engine, the frame scanner
    and the field decoder.

    The receiver's log format is little-endian throughout. The reads below are
    the ones .NET's BitConverter performs on a byte array (ToUInt16, ToUInt32,
    ToInt32); each comes with the write that inverts it, so that the decoder's
    field layout can be checked against an encoder of the same layout. */
module Bytes {

  /** One octet of the receiver's output: the C# `byte`, an unsigned 8-bit value. */
  type byte = b: int | 0 <= b < 0x100

  /** BitConverter.ToUInt16: the unsigned 16-bit value whose low byte comes first. */
  function U16(lo: byte, hi: byte): (r: nat)
    ensures r < 0x1_0000
  {
    lo as int + 0x100 * hi as int
  }

  /** BitConverter.ToUInt32 as a mathematical integer. */
  function U32(b: seq<byte>): (r: nat)
    requires |b| == 4
    ensures r < 0x1_0000_0000
  {
    b[0] as int + 0x100 * (b[1] as int + 0x100 * (b[2] as int + 0x100 * b[3] as int))
  }

  /** BitConverter.ToInt32: the same four bytes read as a two's-complement value. */
  function I32(b: seq<byte>): (r: int)
    requires |b| == 4
    ensures -0x8000_0000 <= r < 0x8000_0000
    ensures r < 0 <==> b[3] >= 0x80
    ensures (r - U32(b)) % 0x1_0000_0000 == 0
  {
    var u := U32(b);
    if u < 0x8000_0000 then u else u - 0x1_0000_0000
  }

  /** BitConverter.GetBytes of an unsigned 16-bit value: low byte first. */
  function U16Bytes(u: nat): (b: seq<byte>)
    requires u < 0x1_0000
    ensures |b| == 2
  {
    [u % 0x100, u / 0x100]
  }

  /** BitConverter.GetBytes of an unsigned 32-bit value: low byte first. */
  function U32Bytes(u: nat): (b: seq<byte>)
    requires u < 0x1_0000_0000
    ensures |b| == 4
  {
    [u % 0x100, u / 0x100 % 0x100, u / 0x1_0000 % 0x100, u / 0x100_0000]
  }

  /** BitConverter.GetBytes of a signed 32-bit value: its two's-complement bytes. */
  function I32Bytes(v: int): (b: seq<byte>)
    requires -0x8000_0000 <= v < 0x8000_0000
    ensures |b| == 4
  {
    U32Bytes(if v < 0 then v + 0x1_0000_0000 else v)
  }

  lemma U16RoundTrip(u: nat)
    requires u < 0x1_0000
    ensures U16(U16Bytes(u)[0], U16Bytes(u)[1]) == u
  {
  }

  /** The inverse direction: two bytes read and written back are the same bytes. */
  lemma U16BytesRoundTrip(lo: byte, hi: byte)
    ensures U16Bytes(U16(lo, hi)) == [lo, hi]
  {
  }

  lemma U32RoundTrip(u: nat)
    requires u < 0x1_0000_0000
    ensures U32(U32Bytes(u)) == u
  {
    var q1 := u / 0x100;
    var q2 := q1 / 0x100;
    assert u / 0x1_0000 == q2;
    assert u / 0x100_0000 == q2 / 0x100;
  }

  lemma U32BytesRoundTrip(b: seq<byte>)
    requires |b| == 4
    ensures U32Bytes(U32(b)) == b
  {
    var u := U32(b);
    assert u / 0x100 == b[1] as int + 0x100 * (b[2] as int + 0x100 * b[3] as int);
    assert u / 0x1_0000 == b[2] as int + 0x100 * b[3] as int;
    assert u / 0x100_0000 == b[3];
  }

  /** Reading back what I32Bytes wrote gives the value written. */
  lemma I32RoundTrip(v: int)
    requires -0x8000_0000 <= v < 0x8000_0000
    ensures I32(I32Bytes(v)) == v
  {
    U32RoundTrip(if v < 0 then v + 0x1_0000_0000 else v);
  }

  /** Two 4-byte fields that read as the same u32 are the same bytes. */
  lemma U32Injective(t: seq<byte>, u: seq<byte>)
    requires |t| == 4 && |u| == 4
    requires U32(t) == U32(u)
    ensures t == u
  {
    U32BytesRoundTrip(t);
    U32BytesRoundTrip(u);
  }
}
