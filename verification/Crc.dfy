/** The reflected CRC-32 of IEEE 802.3 (clause 3.2.9), also the CRC of gzip
    (section 8 of RFC 1952): generator polynomial 0x04C11DB7 processed least
    significant bit first (0xEDB88320 reflected), register preset to 0xFFFFFFFF
    and complemented at the end.  It stands in for the external crc-32 package
    whose CRC32.buf the controller calls; the reference definition below is
    bit-serial, one shift of the register per message bit. */
module Crc {
  import opened Bytes

  /** The generator polynomial 0x04C11DB7 with its bits reversed. */
  const ReflectedPolynomial: bv32 := 0xEDB88320

  /** Register preset and final complement mask. */
  const AllOnes: bv32 := 0xFFFF_FFFF

  /** One bit of polynomial division on the reflected register. */
  function Shift(c: bv32): bv32 {
    if c & 1 == 1 then (c >> 1) ^ ReflectedPolynomial else c >> 1
  }

  /** n bits of polynomial division. */
  function ShiftN(c: bv32, n: nat): bv32
    decreases n
  {
    if n == 0 then c else Shift(ShiftN(c, n - 1))
  }

  /** Feeds one message byte, least significant bit first. */
  function UpdateByte(c: bv32, b: byte): bv32 {
    ShiftN(c ^ b as bv32, 8)
  }

  /** The register after feeding every byte of data, in order, from c. */
  function Update(c: bv32, data: seq<byte>): bv32
    decreases |data|
  {
    if |data| == 0 then c else UpdateByte(Update(c, data[..|data| - 1]), data[|data| - 1])
  }

  /** The CRC-32 of data, as an unsigned 32-bit value. */
  function Crc32(data: seq<byte>): (crc: bv32)
    ensures data == [] ==> crc == 0
  {
    Update(AllOnes, data) ^ AllOnes
  }

  /** Bit-serial CRC-32 of data: an accumulator updated byte by byte,
      with no lookup table. */
  method Crc32Buf(data: seq<byte>) returns (crc: bv32)
    ensures crc == Crc32(data)
  {
    var c: bv32 := AllOnes;
    var i := 0;
    while i < |data|
      invariant 0 <= i <= |data|
      invariant c == Update(AllOnes, data[..i])
    {
      UpdateSnoc(AllOnes, data, i);
      c := FeedByte(c, data[i]);
      i := i + 1;
    }
    assert data[..|data|] == data;
    crc := c ^ AllOnes;
  }

  /** Feeds one byte into the register: eight shifts, each dividing out the
      polynomial when the bit leaving the register is set. */
  method FeedByte(c: bv32, b: byte) returns (x: bv32)
    ensures x == UpdateByte(c, b)
  {
    x := c ^ b as bv32;
    var k := 0;
    while k < 8
      invariant 0 <= k <= 8
      invariant x == ShiftN(c ^ b as bv32, k)
    {
      x := Shift(x);
      k := k + 1;
    }
  }

  /** Extending a prefix by one byte feeds that byte. */
  lemma UpdateSnoc(c: bv32, data: seq<byte>, i: nat)
    requires i < |data|
    ensures Update(c, data[..i + 1]) == UpdateByte(Update(c, data[..i]), data[i])
  {
    assert data[..i + 1][..i] == data[..i];
  }

  /** Feeding a message in two pieces is feeding it whole, so a CRC can be
      computed over a header followed by a body without joining them. */
  lemma {:induction false} UpdateAppend(c: bv32, a: seq<byte>, b: seq<byte>)
    ensures Update(c, a + b) == Update(Update(c, a), b)
    decreases |b|
  {
    if |b| == 0 {
      assert a + b == a;
    } else {
      var b' := b[..|b| - 1];
      assert (a + b)[..|a + b| - 1] == a + b';
      UpdateAppend(c, a, b');
    }
  }

  /** Three steps of a computation of the register over a known message. */
  lemma UpdateThreeSteps(c: bv32, data: seq<byte>, i: nat, r0: bv32, r1: bv32, r2: bv32, r3: bv32)
    requires i + 3 <= |data|
    requires Update(c, data[..i]) == r0
    requires UpdateByte(r0, data[i]) == r1
    requires UpdateByte(r1, data[i + 1]) == r2
    requires UpdateByte(r2, data[i + 2]) == r3
    ensures Update(c, data[..i + 3]) == r3
  {
    UpdateSnoc(c, data, i);
    UpdateSnoc(c, data, i + 1);
    UpdateSnoc(c, data, i + 2);
  }

  /** The register after each of digits 1 to 3 of the check message. */
  lemma CheckValueRegistersFirst()
    ensures UpdateByte(AllOnes, 0x31) == 0x7C23_1048
    ensures UpdateByte(0x7C23_1048, 0x32) == 0xB0AC_BB32
    ensures UpdateByte(0xB0AC_BB32, 0x33) == 0x77B7_9C2D
  {
  }

  /** The register after each of digits 4 to 6 of the check message. */
  lemma CheckValueRegistersSecond()
    ensures UpdateByte(0x77B7_9C2D, 0x34) == 0x641C_1F5C
    ensures UpdateByte(0x641C_1F5C, 0x35) == 0x340A_C5E3
    ensures UpdateByte(0x340A_C5E3, 0x36) == 0xF68D_2C9E
  {
  }

  /** The register after each of digits 7 to 9 of the check message. */
  lemma CheckValueRegistersLast()
    ensures UpdateByte(0xF68D_2C9E, 0x37) == 0xAFFC_9660
    ensures UpdateByte(0xAFFC_9660, 0x38) == 0x651F_2550
    ensures UpdateByte(0x651F_2550, 0x39) == 0x340B_C6D9
  {
  }

  /** The published check value of this CRC: the nine ASCII digits
      "123456789" give 0xCBF43926. */
  lemma CheckValue(d: seq<byte>)
    requires d == [0x31, 0x32, 0x33, 0x34, 0x35, 0x36, 0x37, 0x38, 0x39]
    ensures Crc32(d) == 0xCBF4_3926
  {
    assert d[..0] == [];
    CheckValueRegistersFirst();
    UpdateThreeSteps(AllOnes, d, 0, AllOnes, 0x7C23_1048, 0xB0AC_BB32, 0x77B7_9C2D);
    CheckValueRegistersSecond();
    UpdateThreeSteps(AllOnes, d, 3, 0x77B7_9C2D, 0x641C_1F5C, 0x340A_C5E3, 0xF68D_2C9E);
    CheckValueRegistersLast();
    UpdateThreeSteps(AllOnes, d, 6, 0xF68D_2C9E, 0xAFFC_9660, 0x651F_2550, 0x340B_C6D9);
    assert d[..9] == d;
  }
}
