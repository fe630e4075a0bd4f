# DualSense HID report codec, modelled in Dafny

This project models the report codec of the `DualSense` class in `main.js`
(an Electron app that sets the light-bar colour of a Sony DualSense
controller through `node-hid`). The codec has two halves.

- **Encoder** (`Encoder.dfy`). `setColor` checks the colour. `reportUSB` and
  `reportBT` pick the field table for the connection. `report` allocates a
  zero-filled buffer, 64 bytes over USB or 78 over Bluetooth, and stores the
  table's `(offset, value)` fields in list order. Over Bluetooth it then
  writes a little-endian CRC-32 into bytes 74–77. That CRC covers the header
  byte `0xA2` followed by bytes 0–73. `report` is modelled as a method over
  an `array<byte>` with a loop invariant. It is proved equal to the function
  `ReportBytes`, and the lemmas about `ReportBytes` state the layout.
- **CRC-32** (`Crc.dfy`). This is the reflected CRC-32 of IEEE 802.3
  (clause 3.2.9), which gzip also uses (section 8 of RFC 1952). The source
  gets it from the `crc-32` package. Here `Crc32` is a bit-serial reference
  definition, and `Crc32Buf` is a table-free loop proved equal to it. The
  published check value (`"123456789"` gives `0xCBF43926`) is proved about
  the reference definition.
- **Decoder** (`Decoder.dfy`). `processInput` branches on the report ID.
  Report `0x01` gives the left stick from bytes 1/2, Cross from bit `0x20` of
  byte 8 and the battery from byte 53. Report `0x31` gives the stick from
  bytes 2/3, Cross from byte 9, and the battery and charging flag from
  byte 54. Any other ID gives nothing.
- **Bytes** (`Bytes.dfy`). This holds the `Buffer` semantics the codec
  relies on. A stored number is kept modulo 256, and `writeUInt32LE` uses a
  little-endian layout.

The connection mode (`isBluetooth`, `main.js:69`) is passed in as a
parameter. The encoder returns the buffer and never sends it.

Where the model departs from the code:
- `processInput` returns nothing. It logs what it decodes only for a `0x31`
  report on a Bluetooth connection, and that log leaves out the charging
  flag. The model returns the decoded fields of both reports as a
  `Snapshot`. The code never calls `processInput`: its subscription to the
  device's `data` events (`main.js:80-82`) is commented out.
- The code reads input bytes without checking the length. In a short report
  only the fields past the end come out wrong. A `0x01` report of 9 to 53
  bytes still yields the real stick and Cross values, with a battery level
  of 5. A `0x31` report of 10 to 54 bytes yields the real stick and Cross
  values, a battery level of 5 and a charging flag of `false`. In a
  shorter report a missing stick byte reads as `undefined`, while a missing
  button byte makes Cross read as `false`, since `undefined & 0x20` is 0.
  The model returns `Truncated` whenever a known report is shorter than the
  bytes its layout reads: 54 for `0x01`, 55 for `0x31`.
- An empty buffer has no ID byte. It matches neither ID, so the result is
  `Unrecognized`, as in the code.
- `setColor` throws on a bad channel. The model returns `Err(OutOfRange)`.
- `SetColor`, `Report`, `ReportUsb` and `ReportBluetooth` return a fresh
  `array<byte>`, as `Buffer.alloc` does. The layout they produce is stated
  through the functions `ReportBytes` and `ColorReport`, and the lemmas are
  about those functions.

## Model

| member | source | states |
|---|---|---|
| `Bytes.ToUint8InRange` | main.js:104 | storing a number in 0..255 into a buffer cell keeps it unchanged |
| `Bytes.ReadWrittenLittleEndian32` | main.js:115 | reading back the four bytes `writeUInt32LE` writes gives the written value |
| `Bytes.ToUint8` | main.js:104 | a number stored into a buffer cell is kept modulo 256 |
| `Bytes.LittleEndian32` | main.js:115 | `writeUInt32LE` writes exactly four bytes; the two round-trip lemmas above state that they are the value least significant byte first |
| `Bytes.WriteReadLittleEndian32` | main.js:115 | every four bytes are the little-endian image of the value they denote |
| `Crc.Crc32Buf` | main.js:112 | the byte-by-byte accumulator loop computes exactly the reference CRC-32 of its input |
| `Crc.Crc32` | main.js:112 | the CRC of the empty input is 0 (the initial all-ones register XORed with the final all-ones mask); its value on other inputs is stated by `CheckValue` and matched by `Crc32Buf` |
| `Crc.FeedByte` | main.js:112 | eight shift-and-divide steps feed one byte into the CRC register |
| `Crc.UpdateAppend` | main.js:108-112 | CRC-ing a header followed by a body is CRC-ing the body from the register the header left |
| `Crc.CheckValue` | main.js:43 | the CRC standing in for the `crc-32` package has that CRC's published check value `0xCBF43926` on `"123456789"` |
| `Encoder.ModeOf` | main.js:68-69 | a device is reached over Bluetooth exactly when its interface number is -1 |
| `Encoder.Zeros` | main.js:102 | the freshly allocated buffer has the requested length and every byte is 0 |
| `Encoder.ApplyWrites` | main.js:103-105 | storing fields never changes the buffer's length |
| `Encoder.LastWriteWins` | main.js:103-105 | after the field stores, a byte holds the value (mod 256) of the last field written to its offset |
| `Encoder.UnwrittenUnchanged` | main.js:102-105 | a byte that no field targets keeps its previous value |
| `Encoder.Put` | main.js:104 | one field store replaces the byte at its offset with the value mod 256, ignores an offset past the end, and leaves every other byte and the length unchanged |
| `Encoder.Body` | main.js:100-105 | the report before the checksum is 78 bytes over Bluetooth and 64 otherwise |
| `Encoder.ReportBytes` | main.js:99-116 | the returned report is 78 bytes over Bluetooth and 64 otherwise |
| `Encoder.WriteUInt32LE` | main.js:115 | the four little-endian bytes of the value replace bytes offset..offset+3; all other bytes are unchanged |
| `Encoder.Report` | main.js:99-116 | the method returns a fresh buffer whose contents are `ReportBytes`: zero-filled, fields stored in order, and over Bluetooth a CRC trailer over `0xA2` and bytes 0..73 |
| `Encoder.ReportZeroFill` | main.js:100-105 | every byte no field writes is 0 (over Bluetooth: every such byte before the trailer), and the report has the mode's length |
| `Encoder.ReportLastWriteWins` | main.js:103-105 | every written byte before the trailer holds the last value written to it |
| `Encoder.BluetoothTrailer` | main.js:107-116 | bytes 74..77 read little-endian equal the CRC-32 of `0xA2` followed by bytes 0..73 of the returned report, and the checksum step leaves bytes 0..73 as the fields made them |
| `Encoder.ChecksumAfterHeader` | main.js:108-112 | the CRC over `0xA2` followed by bytes 0..73 equals the CRC of bytes 0..73 fed from the register `0x1525D2B6` that the header byte alone leaves |
| `Encoder.ReportUsb` | main.js:161-171 | returns the report for the USB colour table |
| `Encoder.ReportBluetooth` | main.js:146-158 | returns the report for the Bluetooth colour table |
| `Encoder.SetColor` | main.js:136-144 | fails with `OutOfRange` exactly when some channel is below 0 or above 255; otherwise returns a fresh buffer holding the colour report of the connection's layout |
| `Encoder.ColorReport` | main.js:141-143 | the colour report chosen by the connection has that connection's report length, 64 bytes over USB and 78 over Bluetooth |
| `Encoder.UsbColorWrites` | main.js:163-169 | the USB colour table writes five fields, no two at the same offset, all inside the 64-byte report |
| `Encoder.BluetoothColorWrites` | main.js:148-156 | the Bluetooth colour table writes six fields, no two at the same offset, all before byte 74, so none reaches the CRC trailer |
| `Encoder.UsbColorLayout` | main.js:161-171 | the USB colour report is 64 bytes: byte 0 is 0x02, byte 2 is 0x04, bytes 45/46/47 are r/g/b, every other byte is 0, and no checksum is added |
| `Encoder.BluetoothColorFields` | main.js:146-158 | the Bluetooth colour report has byte 0 = 0x31, byte 2 = 0x10, byte 4 = 0xF7 and bytes 47/48/49 = r/g/b |
| `Encoder.BluetoothColorZeros` | main.js:146-158 | every other byte of the Bluetooth colour report before the trailer is 0 |
| `Encoder.BluetoothColorLayout` | main.js:99-158 | the Bluetooth colour report is 78 bytes with the fields above, zeros elsewhere before byte 74, and the little-endian CRC-32 of `0xA2` and bytes 0..73 as its last four bytes |
| `Decoder.BatteryLevel` | main.js:188-189 | the battery level lies in 5..100; it is 100 exactly when the low nibble is 10 or more, and otherwise ten times the low nibble plus five |
| `Decoder.CrossPressed` | main.js:185-186 | Cross is pressed exactly when bit 5 (0x20) of the button byte is set |
| `Decoder.Charging` | main.js:198-200 | charging is reported exactly when the high nibble of the battery byte is non-zero |
| `Decoder.ProcessInput` | main.js:175-203 | the result is a snapshot exactly for ID 0x01 or 0x31 with enough bytes, `Truncated` for a known ID that is too short, and `Unrecognized` for an empty buffer or any other ID; a snapshot carries the ID and the length, and has a charging flag exactly for ID 0x31 |
| `Decoder.BatteryIgnoresHighNibble` | main.js:188-189 | every battery byte gives the same level as its low nibble alone, so the high nibble, which carries the charging flag in report 0x31, never changes the level |
| `Decoder.BatteryExamples` | main.js:189 | battery bytes 0x07 and 0x17 both give 75, 0x0F is clamped to 100, and 0x00 gives 5 |
| `Decoder.BasicReportLayout` | main.js:180-189 | a 0x01 report of at least 54 bytes decodes the stick from bytes 1/2, Cross from bit 5 of byte 8 and the battery from byte 53, with no charging flag |
| `Decoder.ExtendedReportLayout` | main.js:190-200 | a 0x31 report of at least 55 bytes decodes the stick from bytes 2/3, Cross from bit 5 of byte 9, and the battery and charging flag from byte 54 |
| `Decoder.DecodeReadsOnlyLayout` | main.js:175-203 | two reports with the same ID, the same length and the same bytes at the layout's offsets decode identically, so no other byte affects the result |

## Left out

- The Electron shell (`main.js:1-39`, `main.js:217-221`) is not modelled. This covers window creation, app lifecycle, the `set-led-color` IPC handler and the start-up `setTimeout`. It is UI and event plumbing.
- `preload.js` is not modelled. It is IPC glue with no logic.
- Device enumeration and opening in the constructor (`main.js:47-87`) are left out because they are calls into `node-hid`. Only the interface-to-mode rule of line 69 is modelled, as `ModeOf`.
- Sending to the device is left out: `sendData` (`main.js:91-97`), the `sendData` flag and the `controller.write` branch of `report` (`main.js:129-131`). The encoder returns the buffer.
- The console output is left out: the byte map printed by `report` (`main.js:118-127`) and the input log in `processInput` (`main.js:205-213`). Neither affects a result.
- The `crc-32` package is not part of this model. Its `CRC32.buf` is replaced by the specified `Crc.Crc32`. The package returns a signed 32-bit number that `>>> 0` makes unsigned. `Crc32` is unsigned from the start, so that conversion has no counterpart.
- JavaScript numbers are modelled as mathematical integers. Non-integral or `NaN` colour channels are not modelled. Neither are negative or non-integral field offsets: every offset the tables use is a small natural number.
- `Decoder.ProcessInput` does not reproduce the code's partial output on a short report. It returns `Truncated` instead and so discards the stick and Cross values the code still computes from a report that reaches bytes 8 or 9 but not the battery byte (see above).
