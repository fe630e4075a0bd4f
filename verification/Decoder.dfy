/** The input side of the DualSense HID codec: DualSense.processInput in
    main.js, which reads the left stick, the Cross button and the battery
    state out of an input report.  Each report is decoded on its own. */
module Decoder {
  import opened Bytes

  datatype Option<T> = None | Some(value: T)

  /** The fields processInput extracts from one report.  charging is present
      only for the extended report 0x31. */
  datatype Snapshot = Snapshot(
    reportId: byte,
    reportSize: nat,
    stickLeftX: byte,
    stickLeftY: byte,
    crossPressed: bool,
    batteryLevel: nat,
    charging: Option<bool>)

  /** Outcome of decoding: a snapshot, a report ID this decoder does not know
      (processInput returns early), or a known report too short for the bytes
      its layout reads. */
  datatype Decoded = Decoded(snapshot: Snapshot) | Unrecognized | Truncated

  /** Report ID of the basic input report. */
  const BasicReportId: byte := 0x01

  /** Report ID of the extended input report. */
  const ExtendedReportId: byte := 0x31

  /** Bytes a report must have for every offset its layout reads to exist:
      the basic report reads up to byte 53, the extended one up to byte 54. */
  function MinimumLength(reportId: byte): nat {
    if reportId == ExtendedReportId then 55 else 54
  }

  /** Battery percentage from the battery byte: ten percent per step of the
      low nibble, plus five, never above 100. */
  function BatteryLevel(batteryByte: byte): (level: nat)
    ensures 5 <= level <= 100
    ensures level == 100 <==> batteryByte as int % 16 >= 10
    ensures level < 100 ==> level == batteryByte as int % 16 * 10 + 5
  {
    LowNibble(batteryByte);
    var steps := (batteryByte & 0x0F) as int;
    if steps * 10 + 5 < 100 then steps * 10 + 5 else 100
  }

  /** The low nibble of a byte, read as a number. */
  lemma LowNibble(b: byte)
    ensures (b & 0x0F) as int == b as int % 16
  {
  }

  /** The Cross button is bit 5 of the button byte. */
  function CrossPressed(buttons: byte): (pressed: bool)
    ensures pressed <==> buttons as int / 32 % 2 == 1
  {
    buttons & 0x20 != 0
  }

  /** The controller reports charging in the high nibble of the battery byte. */
  function Charging(batteryByte: byte): (charging: bool)
    ensures charging <==> batteryByte as int >= 16
  {
    (batteryByte & 0xF0) >> 4 != 0
  }

  /** DualSense.processInput, returning what it decodes. */
  function ProcessInput(data: seq<byte>): (d: Decoded)
    ensures d.Decoded? <==>
      |data| > 0 && data[0] in {BasicReportId, ExtendedReportId} && |data| >= MinimumLength(data[0])
    ensures d.Truncated? <==>
      |data| > 0 && data[0] in {BasicReportId, ExtendedReportId} && |data| < MinimumLength(data[0])
    ensures d.Unrecognized? <==> |data| == 0 || data[0] !in {BasicReportId, ExtendedReportId}
    ensures d.Decoded? ==> d.snapshot.reportId == data[0] && d.snapshot.reportSize == |data|
    ensures d.Decoded? ==> (d.snapshot.charging.Some? <==> data[0] == ExtendedReportId)
  {
    if |data| == 0 then Unrecognized
    else if data[0] == BasicReportId then
      if |data| < MinimumLength(BasicReportId) then Truncated
      else Decoded(Snapshot(
        reportId := data[0],
        reportSize := |data|,
        stickLeftX := data[1],
        stickLeftY := data[2],
        crossPressed := CrossPressed(data[8]),
        batteryLevel := BatteryLevel(data[53]),
        charging := None))
    else if data[0] == ExtendedReportId then
      if |data| < MinimumLength(ExtendedReportId) then Truncated
      else Decoded(Snapshot(
        reportId := data[0],
        reportSize := |data|,
        stickLeftX := data[2],
        stickLeftY := data[3],
        crossPressed := CrossPressed(data[9]),
        batteryLevel := BatteryLevel(data[54]),
        charging := Some(Charging(data[54]))))
    else Unrecognized
  }

  /** The high nibble of the battery byte never changes the battery level:
      a byte reads as its low nibble alone. */
  lemma BatteryIgnoresHighNibble(b: byte)
    ensures BatteryLevel(b) == BatteryLevel(b & 0x0F)
  {
    LowNibble(b);
    LowNibble(b & 0x0F);
  }

  /** Sample battery bytes: 0x07 and 0x17 both read as 75 percent, 0x0F is
      clamped to 100 and 0x00 reads as 5. */
  lemma BatteryExamples()
    ensures BatteryLevel(0x07) == 75
    ensures BatteryLevel(0x17) == 75
    ensures BatteryLevel(0x0F) == 100
    ensures BatteryLevel(0x00) == 5
  {
  }

  /** A basic report (ID 0x01) of at least 54 bytes: the stick is bytes 1
      and 2, Cross is bit 5 of byte 8, the battery comes from byte 53 and
      there is no charging flag. */
  lemma BasicReportLayout(data: seq<byte>)
    requires |data| >= 54 && data[0] == BasicReportId
    ensures ProcessInput(data).Decoded?
    ensures var s := ProcessInput(data).snapshot;
      && s.stickLeftX == data[1] && s.stickLeftY == data[2]
      && (s.crossPressed <==> data[8] as int / 32 % 2 == 1)
      && 5 <= s.batteryLevel <= 100
      && s.batteryLevel == (if data[53] as int % 16 >= 10 then 100 else data[53] as int % 16 * 10 + 5)
      && s.charging == None
  {
  }

  /** An extended report (ID 0x31) of at least 55 bytes: the stick is bytes
      2 and 3, Cross is bit 5 of byte 9, and byte 54 gives the battery in its
      low nibble and charging in its high nibble. */
  lemma ExtendedReportLayout(data: seq<byte>)
    requires |data| >= 55 && data[0] == ExtendedReportId
    ensures ProcessInput(data).Decoded?
    ensures var s := ProcessInput(data).snapshot;
      && s.stickLeftX == data[2] && s.stickLeftY == data[3]
      && (s.crossPressed <==> data[9] as int / 32 % 2 == 1)
      && 5 <= s.batteryLevel <= 100
      && s.batteryLevel == (if data[54] as int % 16 >= 10 then 100 else data[54] as int % 16 * 10 + 5)
      && s.charging == Some(data[54] as int >= 16)
  {
  }

  /** The offsets a report's layout reads. */
  function LayoutOffsets(reportId: byte): set<nat> {
    if reportId == ExtendedReportId then {2, 3, 9, 54} else {1, 2, 8, 53}
  }

  /** Decoding looks at nothing but the report ID, the length and the bytes
      of its layout: reports that agree on those decode alike. */
  lemma DecodeReadsOnlyLayout(a: seq<byte>, b: seq<byte>)
    requires |a| == |b| && |a| > 0 && a[0] == b[0]
    requires forall k :: k in LayoutOffsets(a[0]) && k < |a| ==> a[k] == b[k]
    ensures ProcessInput(a) == ProcessInput(b)
  {
  }
}
