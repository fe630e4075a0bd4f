/** Bytes as the Node.js Buffer API sees them: 8-bit cells, the ToUint8
    conversion applied when a number is stored into a cell, and the
    little-endian 32-bit layout written by Buffer.writeUInt32LE. */
module Bytes {

  /** One cell of a Buffer. */
  type byte = bv8

  /** A number stored into a Buffer cell keeps its value modulo 256
      (the ECMAScript ToUint8 conversion, here for integral numbers). */
  function ToUint8(v: int): (b: byte)
    ensures b as int == v % 256
  {
    var m := v % 256;
    var b := m as byte;
    assert b as int == m;
    b
  }

  /** A number in the byte range is stored unchanged. */
  lemma ToUint8InRange(v: int)
    requires 0 <= v < 256
    ensures ToUint8(v) as int == v
  {
    assert v % 256 == v;
    var b := v as byte;
    assert b as int == v;
  }

  /** The four bytes Buffer.writeUInt32LE writes for v, least significant first. */
  function LittleEndian32(v: bv32): (bs: seq<byte>)
    ensures |bs| == 4
  {
    [(v & 0xFF) as byte,
     ((v >> 8) & 0xFF) as byte,
     ((v >> 16) & 0xFF) as byte,
     ((v >> 24) & 0xFF) as byte]
  }

  /** The unsigned 32-bit value four bytes denote when read least significant
      first (what Buffer.readUInt32LE returns). */
  function FromLittleEndian32(bs: seq<byte>): bv32
    requires |bs| == 4
  {
    (bs[0] as bv32) | ((bs[1] as bv32) << 8) | ((bs[2] as bv32) << 16) | ((bs[3] as bv32) << 24)
  }

  /** Reading back what was written gives the written value. */
  lemma ReadWrittenLittleEndian32(v: bv32)
    ensures FromLittleEndian32(LittleEndian32(v)) == v
  {
  }

  /** Any four bytes are the little-endian image of the value they denote. */
  lemma WriteReadLittleEndian32(bs: seq<byte>)
    requires |bs| == 4
    ensures LittleEndian32(FromLittleEndian32(bs)) == bs
  {
  }
}
