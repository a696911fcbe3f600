/** The checksum engine: the 32-bit CRC the receiver appends to every binary log.

    It is the bit-reflected CRC over the polynomial 0xEDB88320, computed a byte at
    a time. The byte's table entry is not looked up but recomputed by CRC32Value
    (eight shift-and-conditionally-xor rounds). The accumulator starts at 0 and
    the result is not complemented. The C# code keeps the accumulator in a 64-bit
    `ulong` and passes the table index as a 32-bit `int`; the model keeps both
    widths (bv64 and bv32) and proves that the upper half of the accumulator
    stays clear. */
module Crc32 {
  import opened Bytes

  /** CRC32_POLYNOMIAL in CRC32Value. */
  const Crc32Polynomial: bv64 := 0xEDB8_8320

  /** One pass of CRC32Value's inner loop. */
  function ReflectRound(c: bv64): bv64 {
    if c & 1 == 1 then (c >> 1) ^ Crc32Polynomial else c >> 1
  }

  /** The accumulator of CRC32Value after n passes of its inner loop. */
  function Reflect(c: bv64, n: nat): bv64
    decreases n
  {
    if n == 0 then c else ReflectRound(Reflect(c, n - 1))
  }

  /** The C# conversion `(ulong)i` of a 32-bit int: sign extension. */
  function ToULong(i: bv32): bv64 {
    if i & 0x8000_0000 == 0 then i as bv64 else (i as bv64) | 0xFFFF_FFFF_0000_0000
  }

  /** The value CRC32Value returns for the int whose bits are i. */
  function Crc32ValueOf(i: bv32): bv64 {
    Reflect(ToULong(i), 8)
  }

  /** CRC32Value: eight reflection rounds on the index. For the indices 0..255
      that CalculateBlockCRC32 passes, the result fits in 32 bits. */
  method Crc32Value(i: bv32) returns (ulCRC: bv64)
    ensures ulCRC == Crc32ValueOf(i)
    ensures i < 0x100 ==> ulCRC < 0x1_0000_0000
  {
    ulCRC := ToULong(i);
    var j := 8;
    while j > 0
      invariant 0 <= j <= 8
      invariant ulCRC == Reflect(ToULong(i), 8 - j)
    {
      ghost var before := ulCRC;
      if ulCRC & 1 == 1 {
        ulCRC := (ulCRC >> 1) ^ Crc32Polynomial;
      } else {
        ulCRC := ulCRC >> 1;
      }
      assert ulCRC == ReflectRound(before);
      assert Reflect(ToULong(i), 9 - j) == ReflectRound(Reflect(ToULong(i), 8 - j));
      j := j - 1;
    }
    if i < 0x100 {
      TableEntryBound(i);
    }
  }

  /** The index CalculateBlockCRC32 passes to CRC32Value:
      `((int)ulCRC ^ buffer[i]) & 0xff`. */
  function TableIndex(acc: bv64, b: byte): (i: bv32)
    ensures i < 0x100
    ensures i == ((acc & 0xFF) as bv32) ^ (b as bv32)
  {
    (((acc & 0xFFFF_FFFF) as bv32) ^ (b as bv32)) & 0xFF
  }

  /** One iteration of CalculateBlockCRC32's loop. */
  function CrcStep(acc: bv64, b: byte): (next: bv64)
    ensures acc < 0x1_0000_0000 ==> next < 0x1_0000_0000
  {
    TableEntryBound(TableIndex(acc, b));
    ((acc >> 8) & 0x00FF_FFFF) ^ Crc32ValueOf(TableIndex(acc, b))
  }

  /** The accumulator after folding CrcStep over data, starting from seed. The
      non-empty case is CrcAfter, a separate member of the recursion, so that
      the verifier opens one layer at a time and never unrolls the bit-level
      table computation where only the shape of the fold is needed. */
  function CrcFrom(seed: bv64, data: seq<byte>): bv64
    decreases |data|, 1
  {
    if data == [] then seed else CrcAfter(seed, data)
  }

  /** The accumulator after the last byte of a non-empty block. */
  function CrcAfter(seed: bv64, data: seq<byte>): bv64
    requires data != []
    decreases |data|, 0
  {
    CrcStep(CrcFrom(seed, data[..|data| - 1]), data[|data| - 1])
  }

  /** The checksum of a whole block. */
  function BlockCrc(data: seq<byte>): bv64 {
    CrcFrom(0, data)
  }

  /** CalculateBlockCRC32. */
  method CalculateBlockCrc32(buffer: array<byte>) returns (ulCRC: bv64)
    ensures ulCRC == BlockCrc(buffer[..])
  {
    ulCRC := 0;
    ghost var data := buffer[..];
    for i := 0 to buffer.Length
      invariant ulCRC == CrcFrom(0, data[..i])
    {
      var ulTemp1 := (ulCRC >> 8) & 0x00FF_FFFF;
      var ulTemp2 := Crc32Value(TableIndex(ulCRC, buffer[i]));
      CrcFromPrefix(0, data, i);
      ulCRC := ulTemp1 ^ ulTemp2;
    }
    assert data[..buffer.Length] == data;
  }

  lemma CrcFromPrefix(seed: bv64, data: seq<byte>, i: nat)
    requires i < |data|
    ensures CrcFrom(seed, data[..i + 1]) == CrcStep(CrcFrom(seed, data[..i]), data[i])
  {
    assert data[..i + 1][..i] == data[..i];
  }

  // ---------------------------------------------------------------------------
  // Bounds: the accumulator never leaves the low 32 bits.

  /** Every table entry CalculateBlockCRC32 can ask for fits in 32 bits. */
  lemma TableEntryBound(i: bv32)
    requires i < 0x100
    ensures Crc32ValueOf(i) < 0x1_0000_0000
  {
  }

  /** CRC32Value agrees with the published table of the reflected CRC-32 over
      0xEDB88320 at its first, middle and last non-zero entries. */
  lemma KnownTableEntries()
    ensures Crc32ValueOf(0) == 0
    ensures Crc32ValueOf(1) == 0x7707_3096
    ensures Crc32ValueOf(0x80) == 0xEDB8_8320
    ensures Crc32ValueOf(0xFF) == 0x2D02_EF8D
  {
    EightRounds(0);
    EightRounds(1);
    EightRounds(0x80);
    EightRounds(0xFF);
  }

  /** The checksum of the three-byte block "123": the known answer of the
      reflected CRC-32 over 0xEDB88320 started at 0 and not complemented, which
      is what CalculateBlockCRC32 returns for it. */
  lemma KnownBlockCrc()
    ensures BlockCrc([0x31, 0x32, 0x33]) == 0x7709_BAC0
  {
    ThreeByteBlock(0x31, 0x32, 0x33);
    KnownSteps();
  }

  /** A three-byte block is three loop iterations from 0. */
  lemma ThreeByteBlock(x: byte, y: byte, z: byte)
    ensures BlockCrc([x, y, z]) == CrcStep(CrcStep(CrcStep(0, x), y), z)
  {
    var d := [x, y, z];
    assert d[..0] == [];
    CrcFromPrefix(0, d, 0);
    CrcFromPrefix(0, d, 1);
    CrcFromPrefix(0, d, 2);
    assert d[..3] == d;
  }

  /** The three loop iterations over "123", one accumulator at a time. */
  lemma KnownSteps()
    ensures CrcStep(0, 0x31) == 0x51DE_003A
    ensures CrcStep(0x51DE_003A, 0x32) == 0x0E8A_5632
    ensures CrcStep(0x0E8A_5632, 0x33) == 0x7709_BAC0
  {
    EightRounds(0x31);
    EightRounds(0x08);
    EightRounds(0x01);
  }

  /** Reflect for eight rounds, written out. */
  lemma EightRounds(c: bv64)
    ensures Reflect(c, 8) == ReflectRound(ReflectRound(ReflectRound(ReflectRound(
              ReflectRound(ReflectRound(ReflectRound(ReflectRound(c))))))))
  {
    assert Reflect(c, 1) == ReflectRound(c);
    assert Reflect(c, 2) == ReflectRound(Reflect(c, 1));
    assert Reflect(c, 3) == ReflectRound(Reflect(c, 2));
    assert Reflect(c, 4) == ReflectRound(Reflect(c, 3));
    assert Reflect(c, 5) == ReflectRound(Reflect(c, 4));
    assert Reflect(c, 6) == ReflectRound(Reflect(c, 5));
    assert Reflect(c, 7) == ReflectRound(Reflect(c, 6));
  }

  /** From a 32-bit accumulator one step leads to a 32-bit accumulator, and the
      `& 0x00FFFFFF` after `>> 8` removes nothing. */
  lemma CrcStepBound(acc: bv64, b: byte)
    requires acc < 0x1_0000_0000
    ensures (acc >> 8) & 0x00FF_FFFF == acc >> 8
    ensures CrcStep(acc, b) < 0x1_0000_0000
  {
    TableEntryBound(TableIndex(acc, b));
  }

  lemma {:induction false} CrcFromBound(seed: bv64, data: seq<byte>)
    requires seed < 0x1_0000_0000
    ensures CrcFrom(seed, data) < 0x1_0000_0000
    decreases |data|
  {
    if data != [] {
      CrcFromBound(seed, data[..|data| - 1]);
      CrcStepBound(CrcFrom(seed, data[..|data| - 1]), data[|data| - 1]);
    }
  }

  /** The checksum of any block is a 32-bit value; that of the empty block is 0. */
  lemma BlockCrcBound(data: seq<byte>)
    ensures BlockCrc(data) < 0x1_0000_0000
    ensures data == [] ==> BlockCrc(data) == 0
  {
    CrcFromBound(0, data);
  }

  // ---------------------------------------------------------------------------
  // Fold structure.

  /** The checksum of a + b is the loop continued over b from the checksum of a. */
  lemma {:induction false} CrcAppend(seed: bv64, a: seq<byte>, b: seq<byte>)
    ensures CrcFrom(seed, a + b) == CrcFrom(CrcFrom(seed, a), b)
    decreases |b|
  {
    if b == [] {
      assert a + b == a;
    } else {
      assert (a + b)[..|a + b| - 1] == a + b[..|b| - 1];
      CrcAppend(seed, a, b[..|b| - 1]);
    }
  }
}
