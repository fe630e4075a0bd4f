/** The output side of the DualSense HID codec: the "set LED colour" report
    built by DualSense.setColor, reportUSB, reportBT and report in main.js.
    The connection mode, which the controller keeps in isBluetooth, is an
    explicit parameter, and the report buffer is returned rather than sent. */
module Encoder {
  import opened Bytes
  import opened Crc

  /** How the controller is attached. */
  datatype Mode = Usb | Bluetooth

  /** A device whose HID interface number is -1 is reached over Bluetooth. */
  function ModeOf(deviceInterface: int): (m: Mode)
    ensures m == Bluetooth <==> deviceInterface == -1
  {
    if deviceInterface == -1 then Bluetooth else Usb
  }

  /** Length of an output report in each mode. */
  function ReportLength(mode: Mode): nat {
    if mode == Bluetooth then 78 else 64
  }

  /** Byte prefixed to a Bluetooth report for the checksum only (it is not sent). */
  const BluetoothHeader: byte := 0xA2

  /** Offset of the four-byte checksum trailer of a Bluetooth report;
      the checksum covers the bytes before it. */
  const TrailerOffset: nat := 74

  /** One entry of a report template: store value at offset. */
  datatype FieldWrite = FieldWrite(offset: nat, value: int)

  /** A zero-filled buffer of n bytes, as Buffer.alloc(n, 0) gives. */
  function Zeros(n: nat): (z: seq<byte>)
    ensures |z| == n
    ensures forall k :: 0 <= k < n ==> z[k] == 0
  {
    seq(n, _ => 0)
  }

  /** Stores one field: a typed-array store keeps the value modulo 256 and
      ignores an offset past the end of the buffer. */
  function Put(buf: seq<byte>, w: FieldWrite): (r: seq<byte>)
    ensures |r| == |buf|
    ensures w.offset < |buf| ==> r[w.offset] == ToUint8(w.value)
    ensures forall k :: 0 <= k < |buf| && k != w.offset ==> r[k] == buf[k]
  {
    if w.offset < |buf| then buf[w.offset := ToUint8(w.value)] else buf
  }

  /** buf after the writes of the template, applied in list order. */
  function ApplyWrites(buf: seq<byte>, writes: seq<FieldWrite>): (r: seq<byte>)
    ensures |r| == |buf|
    decreases |writes|
  {
    if |writes| == 0 then buf
    else Put(ApplyWrites(buf, writes[..|writes| - 1]), writes[|writes| - 1])
  }

  /** Write j is the last write of the template that targets offset k. */
  predicate IsLastWriteTo(writes: seq<FieldWrite>, k: nat, j: nat) {
    j < |writes| && writes[j].offset == k &&
    forall i :: j < i < |writes| ==> writes[i].offset != k
  }

  /** No write of the template targets offset k. */
  predicate NeverWritten(writes: seq<FieldWrite>, k: nat) {
    forall i :: 0 <= i < |writes| ==> writes[i].offset != k
  }

  /** Last write wins: the byte at k holds the value of the last write to k. */
  lemma {:induction false} LastWriteWins(buf: seq<byte>, writes: seq<FieldWrite>, k: nat, j: nat)
    requires k < |buf|
    requires IsLastWriteTo(writes, k, j)
    ensures ApplyWrites(buf, writes)[k] == ToUint8(writes[j].value)
    decreases |writes|
  {
    var n := |writes| - 1;
    if j < n {
      assert IsLastWriteTo(writes[..n], k, j);
      LastWriteWins(buf, writes[..n], k, j);
    }
  }

  /** A byte no write targets keeps its value. */
  lemma {:induction false} UnwrittenUnchanged(buf: seq<byte>, writes: seq<FieldWrite>, k: nat)
    requires k < |buf|
    requires NeverWritten(writes, k)
    ensures ApplyWrites(buf, writes)[k] == buf[k]
    decreases |writes|
  {
    if |writes| > 0 {
      var n := |writes| - 1;
      assert NeverWritten(writes[..n], k);
      UnwrittenUnchanged(buf, writes[..n], k);
    }
  }

  /** The report before any checksum: the template applied to a zero-filled buffer. */
  function Body(mode: Mode, writes: seq<FieldWrite>): (body: seq<byte>)
    ensures |body| == ReportLength(mode)
  {
    ApplyWrites(Zeros(ReportLength(mode)), writes)
  }

  /** What the Bluetooth checksum is computed over: the header byte, then
      the bytes before the trailer. */
  function ChecksumInput(buf: seq<byte>): seq<byte>
    requires |buf| >= TrailerOffset
  {
    [BluetoothHeader] + buf[..TrailerOffset]
  }

  /** The report that report() returns for a template.  Over Bluetooth the
      last four bytes are replaced by the little-endian checksum. */
  function ReportBytes(mode: Mode, writes: seq<FieldWrite>): (r: seq<byte>)
    ensures |r| == ReportLength(mode)
  {
    var body := Body(mode, writes);
    if mode == Bluetooth then body[..TrailerOffset] + LittleEndian32(Crc32(ChecksumInput(body)))
    else body
  }

  /** Buffer.writeUInt32LE: the four bytes of v, least significant first, at offset. */
  method WriteUInt32LE(buf: array<byte>, v: bv32, offset: nat)
    requires offset + 4 <= buf.Length
    modifies buf
    ensures buf[..] == old(buf[..offset]) + LittleEndian32(v) + old(buf[offset + 4..])
  {
    buf[offset] := (v & 0xFF) as byte;
    buf[offset + 1] := ((v >> 8) & 0xFF) as byte;
    buf[offset + 2] := ((v >> 16) & 0xFF) as byte;
    buf[offset + 3] := ((v >> 24) & 0xFF) as byte;
  }

  /** DualSense.report: allocate a zero-filled buffer of the mode's length,
      store the template's fields in order and, over Bluetooth, write the
      checksum trailer. */
  method Report(mode: Mode, writes: seq<FieldWrite>) returns (buf: array<byte>)
    ensures fresh(buf)
    ensures buf[..] == ReportBytes(mode, writes)
  {
    var length := ReportLength(mode);
    buf := new byte[length](_ => 0);
    ghost var zeros := Zeros(length);
    assert buf[..] == zeros;
    var i := 0;
    while i < |writes|
      invariant 0 <= i <= |writes|
      invariant buf.Length == length
      invariant buf[..] == ApplyWrites(zeros, writes[..i])
    {
      assert writes[..i + 1][..i] == writes[..i];
      var w := writes[i];
      if w.offset < buf.Length {
        buf[w.offset] := ToUint8(w.value);
      }
      i := i + 1;
    }
    assert writes[..|writes|] == writes;
    if mode == Bluetooth {
      ghost var body := buf[..];
      var crcBuffer := [BluetoothHeader] + buf[..TrailerOffset];
      var crc := Crc32Buf(crcBuffer);
      WriteUInt32LE(buf, crc, TrailerOffset);
      assert body[TrailerOffset + 4..] == [];
    }
  }

  /** Every report has the mode's length; the bytes before the trailer that
      the template never writes are zero. */
  lemma ReportZeroFill(mode: Mode, writes: seq<FieldWrite>, k: nat)
    requires k < ReportLength(mode)
    requires mode == Bluetooth ==> k < TrailerOffset
    requires NeverWritten(writes, k)
    ensures |ReportBytes(mode, writes)| == ReportLength(mode)
    ensures ReportBytes(mode, writes)[k] == 0
  {
    UnwrittenUnchanged(Zeros(ReportLength(mode)), writes, k);
  }

  /** The bytes before the trailer hold the last value written to them. */
  lemma ReportLastWriteWins(mode: Mode, writes: seq<FieldWrite>, k: nat, j: nat)
    requires k < ReportLength(mode)
    requires mode == Bluetooth ==> k < TrailerOffset
    requires IsLastWriteTo(writes, k, j)
    ensures ReportBytes(mode, writes)[k] == ToUint8(writes[j].value)
  {
    LastWriteWins(Zeros(ReportLength(mode)), writes, k, j);
  }

  /** A Bluetooth report verifies: reading bytes 74..77 little-endian gives the
      CRC-32 of the header byte and bytes 0..73 of the report itself, and
      those bytes are the template's, untouched by the checksum step. */
  lemma BluetoothTrailer(writes: seq<FieldWrite>)
    ensures var r := ReportBytes(Bluetooth, writes);
      && r[..TrailerOffset] == Body(Bluetooth, writes)[..TrailerOffset]
      && FromLittleEndian32(r[TrailerOffset..]) == Crc32(ChecksumInput(r))
  {
  }

  /** The CRC register after the header byte 0xA2 alone. */
  const HeaderRegister: bv32 := 0x1525_D2B6

  /** The Bluetooth checksum is the CRC of bytes 0..73 fed from the register
      the header byte leaves, so the header need not be joined to the body. */
  lemma ChecksumAfterHeader(body: seq<byte>)
    requires |body| >= TrailerOffset
    ensures Crc32(ChecksumInput(body)) == Update(HeaderRegister, body[..TrailerOffset]) ^ AllOnes
  {
    assert Update(AllOnes, [BluetoothHeader]) == HeaderRegister by {
      assert [BluetoothHeader][..0] == [];
    }
    UpdateAppend(AllOnes, [BluetoothHeader], body[..TrailerOffset]);
  }

  // ---------------------------------------------------------------------
  // The LED colour report

  /** Why setColor refuses a colour. */
  datatype EncodeError = OutOfRange

  datatype Result<T> = Ok(value: T) | Err(error: EncodeError)

  /** No two writes of a field table target the same offset. */
  predicate DistinctOffsets(writes: seq<FieldWrite>) {
    forall i, j :: 0 <= i < j < |writes| ==> writes[i].offset != writes[j].offset
  }

  /** A colour channel setColor accepts. */
  predicate ValidChannel(v: int) {
    0 <= v <= 255
  }

  /** The template reportUSB passes to report: report ID 0x02, the flag byte
      0x04 at offset 2 selecting the light bar, then red, green and blue. */
  function UsbColorWrites(r: int, g: int, b: int): (ws: seq<FieldWrite>)
    ensures |ws| == 5 && DistinctOffsets(ws)
    ensures forall i :: 0 <= i < |ws| ==> ws[i].offset < ReportLength(Usb)
  {
    [FieldWrite(0, 0x02), FieldWrite(2, 0x04),
     FieldWrite(45, r), FieldWrite(46, g), FieldWrite(47, b)]
  }

  /** The template reportBT passes to report: report ID 0x31, 0x10 at offset 2,
      the flag byte 0xF7 at offset 4, then red, green and blue at 47..49. */
  function BluetoothColorWrites(r: int, g: int, b: int): (ws: seq<FieldWrite>)
    ensures |ws| == 6 && DistinctOffsets(ws)
    ensures forall i :: 0 <= i < |ws| ==> ws[i].offset < TrailerOffset
  {
    [FieldWrite(0, 0x31), FieldWrite(2, 0x10), FieldWrite(4, 0xF7),
     FieldWrite(47, r), FieldWrite(48, g), FieldWrite(49, b)]
  }

  /** The report setColor produces for an accepted colour in each mode. */
  function ColorReport(mode: Mode, r: int, g: int, b: int): (rep: seq<byte>)
    ensures |rep| == ReportLength(mode)
  {
    if mode == Bluetooth then ReportBytes(mode, BluetoothColorWrites(r, g, b))
    else ReportBytes(mode, UsbColorWrites(r, g, b))
  }

  /** DualSense.reportUSB. */
  method ReportUsb(mode: Mode, r: int, g: int, b: int) returns (buf: array<byte>)
    ensures fresh(buf)
    ensures buf[..] == ReportBytes(mode, UsbColorWrites(r, g, b))
  {
    buf := Report(mode, UsbColorWrites(r, g, b));
  }

  /** DualSense.reportBT. */
  method ReportBluetooth(mode: Mode, r: int, g: int, b: int) returns (buf: array<byte>)
    ensures fresh(buf)
    ensures buf[..] == ReportBytes(mode, BluetoothColorWrites(r, g, b))
  {
    buf := Report(mode, BluetoothColorWrites(r, g, b));
  }

  /** DualSense.setColor: refuses a channel outside 0..255 before any buffer
      exists, otherwise builds the report of the connection's layout. */
  method SetColor(mode: Mode, r: int, g: int, b: int) returns (res: Result<array<byte>>)
    ensures res.Err? <==> !(ValidChannel(r) && ValidChannel(g) && ValidChannel(b))
    ensures res.Err? ==> res.error == OutOfRange
    ensures res.Ok? ==> fresh(res.value) && res.value[..] == ColorReport(mode, r, g, b)
  {
    if r > 255 || g > 255 || b > 255 || r < 0 || g < 0 || b < 0 {
      return Err(OutOfRange);
    }
    var buf;
    if mode == Bluetooth {
      buf := ReportBluetooth(mode, r, g, b);
    } else {
      buf := ReportUsb(mode, r, g, b);
    }
    return Ok(buf);
  }

  /** The USB colour report: 64 bytes, report ID 0x02, 0x04 at offset 2, the
      colour at 45, 46, 47, every other byte zero and no checksum. */
  lemma UsbColorLayout(r: int, g: int, b: int)
    requires ValidChannel(r) && ValidChannel(g) && ValidChannel(b)
    ensures var rep := ColorReport(Usb, r, g, b);
      && |rep| == 64
      && rep == ApplyWrites(Zeros(64), UsbColorWrites(r, g, b))
      && rep[0] as int == 0x02 && rep[2] as int == 0x04
      && rep[45] as int == r && rep[46] as int == g && rep[47] as int == b
      && forall k :: 0 <= k < 64 && k !in {0, 2, 45, 46, 47} ==> rep[k] == 0
  {
    var writes := UsbColorWrites(r, g, b);
    ReportLastWriteWins(Usb, writes, 0, 0);
    ReportLastWriteWins(Usb, writes, 2, 1);
    ReportLastWriteWins(Usb, writes, 45, 2);
    ReportLastWriteWins(Usb, writes, 46, 3);
    ReportLastWriteWins(Usb, writes, 47, 4);
    ToUint8InRange(0x02);
    ToUint8InRange(0x04);
    ToUint8InRange(r);
    ToUint8InRange(g);
    ToUint8InRange(b);
    forall k | 0 <= k < 64 && k !in {0, 2, 45, 46, 47}
      ensures ColorReport(Usb, r, g, b)[k] == 0
    {
      ReportZeroFill(Usb, writes, k);
    }
  }

  /** The bytes the Bluetooth colour template writes. */
  lemma BluetoothColorFields(r: int, g: int, b: int)
    requires ValidChannel(r) && ValidChannel(g) && ValidChannel(b)
    ensures var rep := ColorReport(Bluetooth, r, g, b);
      && rep[0] as int == 0x31 && rep[2] as int == 0x10 && rep[4] as int == 0xF7
      && rep[47] as int == r && rep[48] as int == g && rep[49] as int == b
  {
    var writes := BluetoothColorWrites(r, g, b);
    ReportLastWriteWins(Bluetooth, writes, 0, 0);
    ReportLastWriteWins(Bluetooth, writes, 2, 1);
    ReportLastWriteWins(Bluetooth, writes, 4, 2);
    ReportLastWriteWins(Bluetooth, writes, 47, 3);
    ReportLastWriteWins(Bluetooth, writes, 48, 4);
    ReportLastWriteWins(Bluetooth, writes, 49, 5);
    ToUint8InRange(0x31);
    ToUint8InRange(0x10);
    ToUint8InRange(0xF7);
    ToUint8InRange(r);
    ToUint8InRange(g);
    ToUint8InRange(b);
  }

  /** The bytes before the trailer that the Bluetooth colour template leaves zero. */
  lemma BluetoothColorZeros(r: int, g: int, b: int)
    ensures var rep := ColorReport(Bluetooth, r, g, b);
      forall k :: 0 <= k < TrailerOffset && k !in {0, 2, 4, 47, 48, 49} ==> rep[k] == 0
  {
    var writes := BluetoothColorWrites(r, g, b);
    forall k | 0 <= k < TrailerOffset && k !in {0, 2, 4, 47, 48, 49}
      ensures ColorReport(Bluetooth, r, g, b)[k] == 0
    {
      ReportZeroFill(Bluetooth, writes, k);
    }
  }

  /** The Bluetooth colour report: 78 bytes, report ID 0x31, 0x10 at offset 2,
      0xF7 at offset 4, the colour at 47, 48, 49, every other byte before the
      trailer zero, and the trailer the checksum of what precedes it. */
  lemma BluetoothColorLayout(r: int, g: int, b: int)
    requires ValidChannel(r) && ValidChannel(g) && ValidChannel(b)
    ensures var rep := ColorReport(Bluetooth, r, g, b);
      && |rep| == 78
      && rep[0] as int == 0x31 && rep[2] as int == 0x10 && rep[4] as int == 0xF7
      && rep[47] as int == r && rep[48] as int == g && rep[49] as int == b
      && (forall k :: 0 <= k < TrailerOffset && k !in {0, 2, 4, 47, 48, 49} ==> rep[k] == 0)
      && rep[TrailerOffset..] == LittleEndian32(Crc32(ChecksumInput(rep)))
  {
    var rep := ColorReport(Bluetooth, r, g, b);
    BluetoothColorFields(r, g, b);
    BluetoothColorZeros(r, g, b);
    BluetoothTrailer(BluetoothColorWrites(r, g, b));
    WriteReadLittleEndian32(rep[TrailerOffset..]);
  }
}
