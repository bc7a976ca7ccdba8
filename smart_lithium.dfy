/**
  The Smart Lithium battery frame.

  A decrypted payload is a 128-bit structure of big-endian fields packed most
  significant bit first: 32 bits of BMS flags, 16 bits of error flags, eight
  7-bit cell-voltage codes, a 12-bit battery voltage, a 4-bit balancer status,
  a 7-bit battery temperature and one unused pad bit. Parsing turns it into a
  map of six named, normalised fields; voltages are integer centivolts.
*/
module SmartLithium {
  import opened Wrappers
  import opened Frames

  /** Field widths in bits, in frame order: bms_flags, error_flags, the eight
      cell codes, battery_voltage, balancer_status, battery_temperature and the
      pad bit. */
  const PacketLayout: seq<nat> := [32, 16, 7, 7, 7, 7, 7, 7, 7, 7, 12, 4, 7, 1]

  /** The bit structure reads exactly this many bytes. */
  const FrameBytes: nat := 16

  const CellCount: nat := 8

  /** Raw battery voltage meaning "unknown". */
  const BatteryVoltageUnknown: nat := 0x0FFF

  /** Raw battery temperature meaning "unknown". */
  const TemperatureUnknown: nat := 0x7F

  /** Raw battery temperature is degrees Celsius plus this bias. */
  const TemperatureOffset: nat := 40

  /** The shape of the frame layout: fourteen fields adding up to the 128
      bits of a 16-byte frame, each starting where the previous one ends.
      The field lemmas below are stated for any layout of this shape, so
      that they reason about these facts alone. */
  predicate LayoutShape(ws: seq<nat>) {
    && |ws| == 14 && Sum(ws) == 8 * FrameBytes
    && ws[0] == 32 && Start(ws, 0) == 0
    && ws[1] == 16 && Start(ws, 1) == 32
    && (forall k :: 2 <= k < 2 + CellCount ==> ws[k] == 7 && Start(ws, k) == 48 + 7 * (k - 2))
    && ws[10] == 12 && Start(ws, 10) == 104
    && ws[11] == 4 && Start(ws, 11) == 116
    && ws[12] == 7 && Start(ws, 12) == 120
    && ws[13] == 1 && Start(ws, 13) == 127
  }

  /** The widths of the frame layout add up to the frame. */
  lemma LayoutWidth()
    ensures |PacketLayout| == 14 && Sum(PacketLayout) == 8 * FrameBytes
  {
    LayoutOffsets();
  }

  /** The frame layout has that shape. */
  lemma LayoutOffsets()
    ensures LayoutShape(PacketLayout)
  {
  }

  /** The named fields of a frame as the bit structure reads them; the pad
      bit is read but not kept. */
  datatype Packet = Packet(
    bmsFlags: nat,
    errorFlags: nat,
    cellVoltages: seq<nat>,
    batteryVoltage: nat,
    balancerStatus: nat,
    batteryTemperature: nat)
  {
    /** Every field fits its declared width. */
    predicate Valid() {
      && bmsFlags < 0x1_0000_0000
      && errorFlags < 0x1_0000
      && |cellVoltages| == CellCount
      && (forall c <- cellVoltages :: c < 0x80)
      && batteryVoltage < 0x1000
      && balancerStatus < 0x10
      && batteryTemperature < 0x80
    }
  }

  /** The layout parse of a decrypted payload. A payload shorter than the
      frame is a stream error; bytes after the frame are not read. */
  function DecodePacket(decrypted: seq<Byte>): (r: Result<Packet, Error>)
    ensures r.Failure? <==> |decrypted| < FrameBytes
    ensures r.Failure? ==> r.error == StreamError
    ensures r.Success? ==> |r.value.cellVoltages| == CellCount
  {
    if |decrypted| < FrameBytes then Failure(StreamError)
    else
      LayoutWidth();
      Success(PacketOf(ReadBitFields(BytesToBits(decrypted[..FrameBytes]), 0, PacketLayout)))
  }

  /** The packet whose fields, in layout order, are `vs`; the last value is
      the pad bit, which is dropped. */
  function PacketOf(vs: seq<nat>): Packet
    requires |vs| == |PacketLayout|
  {
    Packet(vs[0], vs[1], vs[2..10], vs[10], vs[11], vs[12])
  }

  /** The unsigned integer in bits `offset` .. `offset + width - 1` of the
      frame, bit 0 being the most significant bit of the first byte. */
  function RawField(decrypted: seq<Byte>, offset: nat, width: nat): nat
    requires |decrypted| >= FrameBytes && offset + width <= 8 * FrameBytes
  {
    BitField(BytesToBits(decrypted[..FrameBytes]), offset, width)
  }

  /** The fields of a 128-bit string, read from their absolute bit
      positions. */
  function BitsPacket(bits: seq<Bit>): Packet
    requires |bits| == 8 * FrameBytes
  {
    Packet(
      BitField(bits, 0, 32),
      BitField(bits, 32, 16),
      seq(CellCount, i requires 0 <= i < CellCount => BitField(bits, 48 + 7 * i, 7)),
      BitField(bits, 104, 12),
      BitField(bits, 116, 4),
      BitField(bits, 120, 7))
  }

  /** The fields of a payload at least `FrameBytes` long, read from their
      absolute bit positions. */
  function FramePacket(decrypted: seq<Byte>): Packet
    requires |decrypted| >= FrameBytes
  {
    BitsPacket(BytesToBits(decrypted[..FrameBytes]))
  }

  /** Field values that fit the widths of a layout of the frame's shape
      make a valid packet. */
  lemma PacketOfValid(vs: seq<nat>, ws: seq<nat>)
    requires LayoutShape(ws) && FitsBits(vs, ws)
    ensures PacketOf(vs).Valid()
  {
    Pow2Values();
    forall c <- vs[2..10]
      ensures c < 0x80
    {
      var i :| 0 <= i < CellCount && vs[2..10][i] == c;
      assert vs[2 + i] == c && ws[2 + i] == 7;
    }
  }

  /** Every packet the layout parse returns is valid. */
  lemma DecodedValid(decrypted: seq<Byte>)
    ensures DecodePacket(decrypted).Success? ==> DecodePacket(decrypted).value.Valid()
  {
    if |decrypted| >= FrameBytes {
      var bits := BytesToBits(decrypted[..FrameBytes]);
      DecodePacketOfBits(decrypted);
      LayoutOffsets();
      ReadBitFieldsFit(bits, 0, PacketLayout);
      PacketOfValid(ReadBitFields(bits, 0, PacketLayout), PacketLayout);
    }
  }

  /** The parse of a frame is the packet of the fields read from its 128
      bits. */
  lemma DecodePacketOfBits(decrypted: seq<Byte>)
    requires |decrypted| >= FrameBytes
    ensures Sum(PacketLayout) == |BytesToBits(decrypted[..FrameBytes])|
    ensures DecodePacket(decrypted)
      == Success(PacketOf(ReadBitFields(BytesToBits(decrypted[..FrameBytes]), 0, PacketLayout)))
  {
    LayoutWidth();
  }

  /** The cursor parse of a frame finds every field at its absolute bit
      position. */
  lemma DecodePacketFields(decrypted: seq<Byte>)
    requires |decrypted| >= FrameBytes
    ensures DecodePacket(decrypted) == Success(FramePacket(decrypted))
  {
    DecodePacketOfBits(decrypted);
    LayoutOffsets();
    FieldsAt(BytesToBits(decrypted[..FrameBytes]), PacketLayout);
  }

  /** The cursor parse of a 128-bit string with a layout of the frame's
      shape finds every field at its absolute bit position. */
  lemma FieldsAt(bits: seq<Bit>, ws: seq<nat>)
    requires |bits| == 8 * FrameBytes && LayoutShape(ws)
    ensures PacketOf(ReadBitFields(bits, 0, ws)) == BitsPacket(bits)
  {
    var vs := ReadBitFields(bits, 0, ws);
    HeadFieldsAt(bits, ws);
    TailFieldsAt(bits, ws);
    forall i | 0 <= i < CellCount
      ensures vs[2..10][i] == BitsPacket(bits).cellVoltages[i]
    {
      CellFieldAt(bits, ws, i);
    }
    assert vs[2..10] == BitsPacket(bits).cellVoltages;
  }

  /** The flag fields of a 128-bit string. */
  lemma HeadFieldsAt(bits: seq<Bit>, ws: seq<nat>)
    requires |bits| == 8 * FrameBytes && LayoutShape(ws)
    ensures ReadBitFields(bits, 0, ws)[0] == BitField(bits, 0, 32)
    ensures ReadBitFields(bits, 0, ws)[1] == BitField(bits, 32, 16)
  {
    ReadBitFieldsAt(bits, 0, ws, 0);
    ReadBitFieldsAt(bits, 0, ws, 1);
  }

  /** Cell code `i` of a 128-bit string. */
  lemma CellFieldAt(bits: seq<Bit>, ws: seq<nat>, i: nat)
    requires |bits| == 8 * FrameBytes && LayoutShape(ws) && i < CellCount
    ensures ReadBitFields(bits, 0, ws)[2 + i] == BitField(bits, 48 + 7 * i, 7)
  {
    ReadBitFieldsAt(bits, 0, ws, 2 + i);
  }

  /** The battery fields of a 128-bit string. */
  lemma TailFieldsAt(bits: seq<Bit>, ws: seq<nat>)
    requires |bits| == 8 * FrameBytes && LayoutShape(ws)
    ensures ReadBitFields(bits, 0, ws)[10] == BitField(bits, 104, 12)
    ensures ReadBitFields(bits, 0, ws)[11] == BitField(bits, 116, 4)
    ensures ReadBitFields(bits, 0, ws)[12] == BitField(bits, 120, 7)
  {
    ReadBitFieldsAt(bits, 0, ws, 10);
    ReadBitFieldsAt(bits, 0, ws, 11);
    ReadBitFieldsAt(bits, 0, ws, 12);
  }

  /** A parsed map holds the normalised fields at their absolute positions. */
  lemma ParsedFrame(decrypted: seq<Byte>, d: SmartLithiumData)
    requires ParseDecrypted(decrypted) == Success(d.data)
    ensures |decrypted| >= FrameBytes
    ensures FramePacket(decrypted).Valid()
    ensures d.data == Normalise(FramePacket(decrypted))
  {
    DecodePacketFields(decrypted);
    DecodedValid(decrypted);
  }

  // ---------------------------------------------------------------------
  // Cell voltages.
  // ---------------------------------------------------------------------

  /** A cell reading: below the measurable range, above it, not present, or
      a voltage in centivolts. */
  datatype CellVoltage = NegInf | PosInf | NotApplicable | Centivolts(value: int)

  /** The three-way sentinel rule for a cell code: 0x00 is below 2.61 V,
      0x7E is above 3.85 V, 0x7F is not applicable, and any other code is
      2.60 V plus one centivolt per unit. */
  function ParseCellVoltage(payload: int): (c: CellVoltage)
    ensures c == NegInf <==> payload == 0x00
    ensures c == PosInf <==> payload == 0x7E
    ensures c == NotApplicable <==> payload == 0x7F
    ensures c.Centivolts? ==> c.value == 260 + payload
  {
    if payload == 0x00 then NegInf
    else if payload == 0x7E then PosInf
    else if payload == 0x7F then NotApplicable
    else Centivolts(260 + payload)
  }

  /** Every measured reading of a 7-bit code lies in 2.61 V .. 3.85 V, and
      the two ends are reached by codes 0x01 and 0x7D. */
  lemma CellVoltageRange(code: nat)
    requires code < 0x80
    ensures ParseCellVoltage(code).Centivolts? ==> 261 <= ParseCellVoltage(code).value <= 385
    ensures ParseCellVoltage(0x01) == Centivolts(261)
    ensures ParseCellVoltage(0x7D) == Centivolts(385)
  {
  }

  /** The code a cell reading is transmitted as. */
  function CellCode(c: CellVoltage): int {
    match c
    case NegInf => 0x00
    case PosInf => 0x7E
    case NotApplicable => 0x7F
    case Centivolts(v) => v - 260
  }

  /** No two 7-bit codes give the same reading: the code can be recovered. */
  lemma CellCodeRoundTrip(code: nat)
    requires code < 0x80
    ensures CellCode(ParseCellVoltage(code)) == code
  {
  }

  // ---------------------------------------------------------------------
  // The parsed map and its view.
  // ---------------------------------------------------------------------

  /** A value stored under one key of the parsed map. */
  datatype Field =
    | Int(n: int)
    | Cells(cells: seq<CellVoltage>)
    | Optional(reading: Option<int>)

  const Keys: set<string> := {
    "bms_flags", "error_flags", "cell_voltages",
    "battery_voltage", "balancer_status", "battery_temperature"
  }

  /** The shape of a parsed map: exactly the six keys, each holding its kind
      of value, with one reading per cell. */
  predicate IsParsed(data: map<string, Field>) {
    && data.Keys == Keys
    && data["bms_flags"].Int?
    && data["error_flags"].Int?
    && data["cell_voltages"].Cells?
    && |data["cell_voltages"].cells| == CellCount
    && data["battery_voltage"].Optional?
    && data["balancer_status"].Int?
    && data["battery_temperature"].Optional?
  }

  /** Parses a decrypted payload into its six normalised fields. */
  function ParseDecrypted(decrypted: seq<Byte>): (r: Result<map<string, Field>, Error>)
    ensures r.Failure? <==> |decrypted| < FrameBytes
    ensures r.Failure? ==> r.error == StreamError
    ensures r.Success? ==> IsParsed(r.value)
  {
    var pkt :- DecodePacket(decrypted);
    Success(Normalise(pkt))
  }

  /** The parsed map of a packet. The battery voltage sentinel 0x0FFF and the
      temperature sentinel 0x7F become absent values; the temperature loses
      its bias of 40; each cell code goes through the cell rule; the other
      fields pass through. */
  function Normalise(pkt: Packet): (m: map<string, Field>)
    ensures m.Keys == Keys
    ensures m["bms_flags"] == Int(pkt.bmsFlags)
    ensures m["error_flags"] == Int(pkt.errorFlags)
    ensures m["cell_voltages"].Cells?
    ensures |m["cell_voltages"].cells| == |pkt.cellVoltages|
    ensures forall i :: 0 <= i < |pkt.cellVoltages| ==>
      m["cell_voltages"].cells[i] == ParseCellVoltage(pkt.cellVoltages[i])
    ensures m["battery_voltage"] == Optional(
      if pkt.batteryVoltage == BatteryVoltageUnknown then None else Some(pkt.batteryVoltage))
    ensures m["balancer_status"] == Int(pkt.balancerStatus)
    ensures m["battery_temperature"] == Optional(
      if pkt.batteryTemperature == TemperatureUnknown then None
      else Some(pkt.batteryTemperature - TemperatureOffset))
    ensures IsParsed(m) <==> |pkt.cellVoltages| == CellCount
  {
    map[
      "bms_flags" := Int(pkt.bmsFlags),
      "error_flags" := Int(pkt.errorFlags),
      "cell_voltages" := Cells(seq(|pkt.cellVoltages|,
                                   i requires 0 <= i < |pkt.cellVoltages| => ParseCellVoltage(pkt.cellVoltages[i]))),
      "battery_voltage" := Optional(
        if pkt.batteryVoltage != BatteryVoltageUnknown then Some(pkt.batteryVoltage) else None),
      "balancer_status" := Int(pkt.balancerStatus),
      "battery_temperature" := Optional(
        if pkt.batteryTemperature != TemperatureUnknown
        then Some(pkt.batteryTemperature - TemperatureOffset)
        else None)
    ]
  }

  /** The typed view of a parsed frame. */
  datatype SmartLithiumData = SmartLithiumData(modelId: nat, data: map<string, Field>)

  function GetBmsFlags(d: SmartLithiumData): (r: int)
    requires IsParsed(d.data)
    ensures d.data["bms_flags"] == Int(r)
  {
    d.data["bms_flags"].n
  }

  function GetErrorFlags(d: SmartLithiumData): (r: int)
    requires IsParsed(d.data)
    ensures d.data["error_flags"] == Int(r)
  {
    d.data["error_flags"].n
  }

  /** Battery voltage in centivolts, absent when unknown. */
  function GetBatteryVoltage(d: SmartLithiumData): (r: Option<int>)
    requires IsParsed(d.data)
    ensures d.data["battery_voltage"] == Optional(r)
  {
    d.data["battery_voltage"].reading
  }

  /** Battery temperature in degrees Celsius, absent when unknown. */
  function GetBatteryTemperature(d: SmartLithiumData): (r: Option<int>)
    requires IsParsed(d.data)
    ensures d.data["battery_temperature"] == Optional(r)
  {
    d.data["battery_temperature"].reading
  }

  function GetCellVoltages(d: SmartLithiumData): (r: seq<CellVoltage>)
    requires IsParsed(d.data)
    ensures |r| == CellCount
    ensures d.data["cell_voltages"] == Cells(r)
  {
    d.data["cell_voltages"].cells
  }

  function GetBalancerStatus(d: SmartLithiumData): (r: int)
    requires IsParsed(d.data)
    ensures d.data["balancer_status"] == Int(r)
  {
    d.data["balancer_status"].n
  }

  // ---------------------------------------------------------------------
  // What the getters return for a frame.
  // ---------------------------------------------------------------------

  /** The flag fields and the balancer status are the raw integers of bits
      0..31, 32..47 and 116..119, within 32, 16 and 4 bits. */
  lemma FlagsOfFrame(decrypted: seq<Byte>, d: SmartLithiumData)
    requires ParseDecrypted(decrypted) == Success(d.data)
    ensures GetBmsFlags(d) == RawField(decrypted, 0, 32) < 0x1_0000_0000
    ensures GetErrorFlags(d) == RawField(decrypted, 32, 16) < 0x1_0000
    ensures GetBalancerStatus(d) == RawField(decrypted, 116, 4) < 0x10
  {
    ParsedFrame(decrypted, d);
    Pow2Values();
  }

  /** Cell `i` is the reading of the 7-bit code at bit 48 + 7 * i; every
      measured reading lies in 2.61 V .. 3.85 V. */
  lemma CellVoltagesOfFrame(decrypted: seq<Byte>, d: SmartLithiumData)
    requires ParseDecrypted(decrypted) == Success(d.data)
    ensures forall i :: 0 <= i < CellCount ==>
      GetCellVoltages(d)[i] == ParseCellVoltage(RawField(decrypted, 48 + 7 * i, 7))
    ensures forall i :: 0 <= i < CellCount && GetCellVoltages(d)[i].Centivolts? ==>
      261 <= GetCellVoltages(d)[i].value <= 385
  {
    ParsedFrame(decrypted, d);
    CellsOfPacket(FramePacket(decrypted), d);
    FrameCells(decrypted);
  }

  /** Cell code `i` of a frame is at bit 48 + 7 * i. */
  lemma FrameCells(decrypted: seq<Byte>)
    requires |decrypted| >= FrameBytes
    ensures forall i :: 0 <= i < CellCount ==>
      FramePacket(decrypted).cellVoltages[i] == RawField(decrypted, 48 + 7 * i, 7)
  {
  }

  /** The cells of a parsed packet, one reading per 7-bit code. */
  lemma CellsOfPacket(pkt: Packet, d: SmartLithiumData)
    requires pkt.Valid() && d.data == Normalise(pkt)
    ensures forall i :: 0 <= i < CellCount ==>
      GetCellVoltages(d)[i] == ParseCellVoltage(pkt.cellVoltages[i])
    ensures forall i :: 0 <= i < CellCount && GetCellVoltages(d)[i].Centivolts? ==>
      261 <= GetCellVoltages(d)[i].value <= 385
  {
    forall i | 0 <= i < CellCount
      ensures GetCellVoltages(d)[i].Centivolts? ==> 261 <= GetCellVoltages(d)[i].value <= 385
    {
      assert pkt.cellVoltages[i] in pkt.cellVoltages;
      CellVoltageRange(pkt.cellVoltages[i]);
    }
  }

  /** The battery voltage is absent exactly when bits 104..115 hold 0x0FFF,
      and otherwise is those bits in centivolts, 0 .. 40.94 V. */
  lemma BatteryVoltageOfFrame(decrypted: seq<Byte>, d: SmartLithiumData)
    requires ParseDecrypted(decrypted) == Success(d.data)
    ensures GetBatteryVoltage(d).None? <==> RawField(decrypted, 104, 12) == 0x0FFF
    ensures GetBatteryVoltage(d).Some? ==>
      GetBatteryVoltage(d).value == RawField(decrypted, 104, 12) && 0 <= GetBatteryVoltage(d).value <= 4094
  {
    ParsedFrame(decrypted, d);
    Pow2Values();
  }

  /** The temperature is absent exactly when bits 120..126 hold 0x7F, and
      otherwise is those bits less 40, within -40 .. 86 degrees; code 0x28
      is 0 degrees. */
  lemma BatteryTemperatureOfFrame(decrypted: seq<Byte>, d: SmartLithiumData)
    requires ParseDecrypted(decrypted) == Success(d.data)
    ensures GetBatteryTemperature(d).None? <==> RawField(decrypted, 120, 7) == 0x7F
    ensures GetBatteryTemperature(d).Some? ==>
      GetBatteryTemperature(d).value == RawField(decrypted, 120, 7) - 40
      && -40 <= GetBatteryTemperature(d).value <= 86
    ensures RawField(decrypted, 120, 7) == 0x28 ==> GetBatteryTemperature(d) == Some(0)
  {
    ParsedFrame(decrypted, d);
    Pow2Values();
  }

  /** Bytes after the 16-byte frame do not change the parse. */
  lemma TrailingBytesIgnored(decrypted: seq<Byte>, trailing: seq<Byte>)
    requires |decrypted| >= FrameBytes
    ensures ParseDecrypted(decrypted + trailing) == ParseDecrypted(decrypted)
  {
    assert (decrypted + trailing)[..FrameBytes] == decrypted[..FrameBytes];
  }

  /** The pad bit (the last bit of the frame) does not change the parse. */
  lemma PadBitIgnored(a: seq<Byte>, b: seq<Byte>)
    requires |a| >= FrameBytes && |b| >= FrameBytes
    requires BytesToBits(a[..FrameBytes])[..127] == BytesToBits(b[..FrameBytes])[..127]
    ensures ParseDecrypted(a) == ParseDecrypted(b)
  {
    DecodePacketFields(a);
    DecodePacketFields(b);
    BitsPacketAgree(BytesToBits(a[..FrameBytes]), BytesToBits(b[..FrameBytes]));
  }

  /** The pad bit is the least significant bit of the last frame byte: two
      payloads that differ at most in that bit, or after the frame, parse to
      the same map. */
  lemma LastByteLowBitIgnored(a: seq<Byte>, b: seq<Byte>)
    requires |a| >= FrameBytes && |b| >= FrameBytes
    requires a[..FrameBytes - 1] == b[..FrameBytes - 1]
    requires a[FrameBytes - 1] / 2 == b[FrameBytes - 1] / 2
    ensures ParseDecrypted(a) == ParseDecrypted(b)
  {
    var x, y := BytesToBits(a[..FrameBytes]), BytesToBits(b[..FrameBytes]);
    forall i | 0 <= i < 8 * FrameBytes - 1
      ensures x[i] == y[i]
    {
      LeadingBitAgrees(a[..FrameBytes], b[..FrameBytes], i);
    }
    assert x[..127] == y[..127];
    PadBitIgnored(a, b);
  }

  /** Bit `i` of two frames that differ at most in the last bit. */
  lemma LeadingBitAgrees(a: seq<Byte>, b: seq<Byte>, i: nat)
    requires |a| == |b| == FrameBytes && i < 8 * FrameBytes - 1
    requires a[..FrameBytes - 1] == b[..FrameBytes - 1]
    requires a[FrameBytes - 1] / 2 == b[FrameBytes - 1] / 2
    ensures BytesToBits(a)[i] == BytesToBits(b)[i]
  {
    BytesToBitsAt(a, i);
    BytesToBitsAt(b, i);
    if i / 8 == FrameBytes - 1 {
      var k := 7 - i % 8;
      assert Pow2(k) == 2 * Pow2(k - 1);
      HalveDiv(a[FrameBytes - 1], Pow2(k - 1));
      HalveDiv(b[FrameBytes - 1], Pow2(k - 1));
    } else {
      assert a[i / 8] == a[..FrameBytes - 1][i / 8];
    }
  }

  /** Two 128-bit strings that agree on their first 127 bits have the same
      fields. */
  lemma BitsPacketAgree(x: seq<Bit>, y: seq<Bit>)
    requires |x| == 8 * FrameBytes && |y| == 8 * FrameBytes && x[..127] == y[..127]
    ensures BitsPacket(x) == BitsPacket(y)
  {
    forall offset: nat, width: nat | offset + width <= 127
      ensures BitField(x, offset, width) == BitField(y, offset, width)
    {
      BitFieldAgree(x, y, 127, offset, width);
    }
    var cx, cy := BitsPacket(x).cellVoltages, BitsPacket(y).cellVoltages;
    forall i | 0 <= i < CellCount
      ensures cx[i] == cy[i]
    {
      assert cx[i] == BitField(x, 48 + 7 * i, 7);
    }
    assert cx == cy;
  }

  // ---------------------------------------------------------------------
  // Encoding, for the round trip.
  // ---------------------------------------------------------------------

  /** The field values of a packet in layout order, with the pad bit. */
  function FieldValues(p: Packet, pad: Bit): seq<nat> {
    [p.bmsFlags, p.errorFlags] + p.cellVoltages + [p.batteryVoltage, p.balancerStatus, p.batteryTemperature, pad]
  }

  /** The 16-byte frame that carries a packet. */
  function Pack(p: Packet, pad: Bit): (frame: seq<Byte>)
    requires p.Valid()
    ensures |frame| == FrameBytes
  {
    LayoutOffsets();
    BitsToBytes(WriteBitFields(FieldValues(p, pad), PacketLayout))
  }

  /** A valid packet's values fit a layout of the frame's shape and make up
      the packet again. */
  lemma FieldValuesFit(p: Packet, pad: Bit, ws: seq<nat>)
    requires p.Valid() && LayoutShape(ws)
    ensures FitsBits(FieldValues(p, pad), ws)
    ensures PacketOf(FieldValues(p, pad)) == p
  {
    Pow2Values();
    var vs := FieldValues(p, pad);
    forall k | 0 <= k < |ws|
      ensures vs[k] < Pow2(ws[k])
    {
      if k < 2 {
      } else if k < 10 {
        assert ws[2 + (k - 2)] == 7;
        assert vs[k] == p.cellVoltages[k - 2];
        assert p.cellVoltages[k - 2] in p.cellVoltages;
      } else if k == 10 {
      } else if k == 11 {
      } else if k == 12 {
      } else {
      }
    }
    assert vs[2..10] == p.cellVoltages;
  }

  /** Writing a valid packet's fields and reading them back gives the
      packet. */
  lemma WrittenPacket(p: Packet, pad: Bit, ws: seq<nat>)
    requires p.Valid() && LayoutShape(ws)
    ensures PacketOf(ReadBitFields(WriteBitFields(FieldValues(p, pad), ws), 0, ws)) == p
  {
    var vs := FieldValues(p, pad);
    FieldValuesFit(p, pad, ws);
    ReadWriteBitFields([], vs, ws, []);
    assert [] + WriteBitFields(vs, ws) + [] == WriteBitFields(vs, ws);
  }

  /** Parsing the frame that carries a packet, followed by any bytes, gives
      back the packet, whatever the pad bit. */
  lemma PackRoundTrip(p: Packet, pad: Bit, trailing: seq<Byte>)
    requires p.Valid()
    ensures DecodePacket(Pack(p, pad) + trailing) == Success(p)
  {
    LayoutOffsets();
    var bits := WriteBitFields(FieldValues(p, pad), PacketLayout);
    var frame := Pack(p, pad);
    assert (frame + trailing)[..FrameBytes] == frame;
    DecodePacketOfBits(frame + trailing);
    BytesToBitsOfBitsToBytes(bits);
    WrittenPacket(p, pad, PacketLayout);
  }
}
