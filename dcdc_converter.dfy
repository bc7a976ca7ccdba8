/**
  The DC-DC converter frame.

  A decrypted payload is a byte-aligned little-endian structure: an 8-bit
  device state, an 8-bit charger error, an unsigned 16-bit input voltage, a
  signed 16-bit output voltage and an unsigned 32-bit off reason, followed by
  any number of bytes that are read and dropped. Parsing turns it into a map
  of five named fields: three enumerated codes and two voltages, here in
  integer centivolts (the raw unit of both voltage fields).
*/
module DcDcConverter {
  import opened Wrappers
  import opened Frames

  /** Field widths in bytes, in frame order: device_state, charger_error,
      input_voltage, output_voltage, off_reason. */
  const PacketLayout: seq<nat> := [1, 1, 2, 2, 4]

  /** The bytes the fixed fields take; the rest of a payload is trailing. */
  const FixedBytes: nat := 10

  /** The shape of the frame layout: five fields of 1, 1, 2, 2 and 4 bytes
      at offsets 0, 1, 2, 4 and 6, making up the 10 fixed bytes. The field
      lemmas below are stated for any layout of this shape, so that they
      reason about these facts alone. */
  predicate LayoutShape(ws: seq<nat>) {
    && |ws| == 5 && Sum(ws) == FixedBytes
    && ws[0] == 1 && Start(ws, 0) == 0
    && ws[1] == 1 && Start(ws, 1) == 1
    && ws[2] == 2 && Start(ws, 2) == 2
    && ws[3] == 2 && Start(ws, 3) == 4
    && ws[4] == 4 && Start(ws, 4) == 6
  }

  /** The frame layout has that shape. */
  lemma LayoutOffsets()
    ensures LayoutShape(PacketLayout)
  {
    assert Start(PacketLayout, 5) == 10;
  }

  /** The unsigned 16-bit little-endian value of two bytes. */
  function U16(lo: Byte, hi: Byte): (v: nat)
    ensures v < 0x1_0000
  {
    lo + 0x100 * hi
  }

  /** The unsigned 32-bit little-endian value of four bytes. */
  function U32(b0: Byte, b1: Byte, b2: Byte, b3: Byte): (v: nat)
    ensures v < 0x1_0000_0000
  {
    b0 + 0x100 * b1 + 0x1_0000 * b2 + 0x100_0000 * b3
  }

  /** The named fields of a frame as the byte structure reads them. */
  datatype Packet = Packet(
    deviceState: nat,
    chargerError: nat,
    inputVoltage: nat,
    outputVoltage: int,
    offReason: nat)
  {
    /** Every field fits its declared type. */
    predicate Valid() {
      && deviceState < 0x100
      && chargerError < 0x100
      && inputVoltage < 0x1_0000
      && -0x8000 <= outputVoltage < 0x8000
      && offReason < 0x1_0000_0000
    }
  }

  /** The fields of a payload at least `FixedBytes` long, read from their
      absolute byte positions. */
  function FramePacket(decrypted: seq<Byte>): Packet
    requires |decrypted| >= FixedBytes
  {
    Packet(
      decrypted[0],
      decrypted[1],
      U16(decrypted[2], decrypted[3]),
      Int16(U16(decrypted[4], decrypted[5])),
      U32(decrypted[6], decrypted[7], decrypted[8], decrypted[9]))
  }

  /** The layout parse of a decrypted payload: a stream error when the fixed
      fields do not fit, otherwise the fields at their byte positions, the
      output voltage read as two's complement. */
  function DecodePacket(decrypted: seq<Byte>): (r: Result<Packet, Error>)
    ensures r.Failure? <==> |decrypted| < FixedBytes
    ensures r.Failure? ==> r.error == StreamError
    ensures r.Success? ==> r.value == FramePacket(decrypted) && r.value.Valid()
  {
    if |decrypted| < FixedBytes then Failure(StreamError)
    else
      LayoutOffsets();
      ReadFixedFields(decrypted, PacketLayout);
      var vs := ReadLeFields(decrypted, 0, PacketLayout);
      Success(Packet(vs[0], vs[1], vs[2], Int16(vs[3]), vs[4]))
  }

  /** The layout reader finds each field at its byte position. */
  lemma ReadFixedFields(decrypted: seq<Byte>, ws: seq<nat>)
    requires |decrypted| >= FixedBytes && LayoutShape(ws)
    ensures Sum(ws) <= |decrypted|
    ensures var vs := ReadLeFields(decrypted, 0, ws);
      && vs[0] == decrypted[0]
      && vs[1] == decrypted[1]
      && vs[2] == U16(decrypted[2], decrypted[3])
      && vs[3] == U16(decrypted[4], decrypted[5])
      && vs[4] == U32(decrypted[6], decrypted[7], decrypted[8], decrypted[9])
  {
    var d := decrypted;
    var vs := ReadLeFields(d, 0, ws);
    assert vs[0] == d[0] by { ReadLeFieldsAt(d, 0, ws, 0); LeField1(d, 0); }
    assert vs[1] == d[1] by { ReadLeFieldsAt(d, 0, ws, 1); LeField1(d, 1); }
    assert vs[2] == U16(d[2], d[3]) by { ReadLeFieldsAt(d, 0, ws, 2); LeField2(d, 2); }
    assert vs[3] == U16(d[4], d[5]) by { ReadLeFieldsAt(d, 0, ws, 3); LeField2(d, 4); }
    assert vs[4] == U32(d[6], d[7], d[8], d[9]) by { ReadLeFieldsAt(d, 0, ws, 4); LeField4(d, 6); }
  }

  lemma LeField1(bs: seq<Byte>, i: nat)
    requires i + 1 <= |bs|
    ensures LeField(bs, i, 1) == bs[i]
  {
  }

  lemma LeField2(bs: seq<Byte>, i: nat)
    requires i + 2 <= |bs|
    ensures LeField(bs, i, 2) == U16(bs[i], bs[i + 1])
  {
    assert bs[i..i + 2] == [bs[i], bs[i + 1]];
    LeUint2(bs[i], bs[i + 1]);
  }

  lemma LeField4(bs: seq<Byte>, i: nat)
    requires i + 4 <= |bs|
    ensures LeField(bs, i, 4) == U32(bs[i], bs[i + 1], bs[i + 2], bs[i + 3])
  {
    assert bs[i..i + 4] == [bs[i], bs[i + 1], bs[i + 2], bs[i + 3]];
    LeUint4(bs[i], bs[i + 1], bs[i + 2], bs[i + 3]);
  }

  lemma LeUint2(lo: Byte, hi: Byte)
    ensures LeUint([lo, hi]) == U16(lo, hi)
  {
  }

  lemma LeUint4(b0: Byte, b1: Byte, b2: Byte, b3: Byte)
    ensures LeUint([b0, b1, b2, b3]) == U32(b0, b1, b2, b3)
  {
    assert [b0, b1, b2, b3][1..] == [b1, b2, b3];
    assert [b1, b2, b3][1..] == [b2, b3];
    LeUint2(b2, b3);
  }

  // ---------------------------------------------------------------------
  // Enumerated fields.
  // ---------------------------------------------------------------------

  /** The codes each enumeration declares. The enumerations are defined
      outside this model, so their code sets are a parameter. */
  datatype EnumTables = EnumTables(operationModes: set<nat>, chargerErrors: set<nat>, offReasons: set<nat>)

  /** Charge-state codes documented beside the layout: off, bulk, absorption
      and float. */
  const DocumentedChargeStates: set<nat> := {0, 3, 4, 5}

  /** Enum construction: a declared code becomes that member, any other code
      is an error naming the enumeration and the code. */
  function ToEnum(known: set<nat>, enumName: string, code: nat): (r: Result<nat, Error>)
    ensures r.Success? <==> code in known
    ensures r.Success? ==> r.value == code
    ensures r.Failure? ==> r.error == UnknownEnumValue(enumName, code)
  {
    if code in known then Success(code) else Failure(UnknownEnumValue(enumName, code))
  }

  // ---------------------------------------------------------------------
  // The parsed map and its view.
  // ---------------------------------------------------------------------

  /** A value stored under one key of the parsed map. */
  datatype Field =
    | OperationMode(mode: nat)
    | ChargerError(error: nat)
    | Voltage(centivolts: int)
    | OffReason(reason: nat)

  const Keys: set<string> := {"device_state", "charger_error", "input_voltage", "output_voltage", "off_reason"}

  /** The shape of a parsed map: exactly the five keys, each holding its kind
      of value. */
  predicate IsParsed(data: map<string, Field>) {
    && data.Keys == Keys
    && data["device_state"].OperationMode?
    && data["charger_error"].ChargerError?
    && data["input_voltage"].Voltage?
    && data["output_voltage"].Voltage?
    && data["off_reason"].OffReason?
  }

  /** The typed view of a parsed frame. */
  datatype DcDcConverterData = DcDcConverterData(modelId: nat, data: map<string, Field>)

  /** Parses a decrypted payload. A short payload is a stream error; then the
      device state, the charger error and the off reason are converted to
      their enumerations in that order, and the first unknown code is the
      error; otherwise the map holds the three members and the two voltages. */
  function Parse(decrypted: seq<Byte>, modelId: nat, enums: EnumTables): (r: Result<DcDcConverterData, Error>)
    ensures |decrypted| < FixedBytes ==> r == Failure(StreamError)
    ensures |decrypted| >= FixedBytes && decrypted[0] !in enums.operationModes ==>
      r == Failure(UnknownEnumValue("OperationMode", decrypted[0]))
    ensures (|decrypted| >= FixedBytes && decrypted[0] in enums.operationModes
             && decrypted[1] !in enums.chargerErrors) ==>
      r == Failure(UnknownEnumValue("ChargerError", decrypted[1]))
    ensures (|decrypted| >= FixedBytes && decrypted[0] in enums.operationModes
             && decrypted[1] in enums.chargerErrors
             && U32(decrypted[6], decrypted[7], decrypted[8], decrypted[9]) !in enums.offReasons) ==>
      r == Failure(UnknownEnumValue("OffReason", U32(decrypted[6], decrypted[7], decrypted[8], decrypted[9])))
    ensures r.Success? <==>
      && |decrypted| >= FixedBytes
      && decrypted[0] in enums.operationModes
      && decrypted[1] in enums.chargerErrors
      && U32(decrypted[6], decrypted[7], decrypted[8], decrypted[9]) in enums.offReasons
    ensures r.Success? ==> r.value.modelId == modelId && IsParsed(r.value.data)
  {
    var pkt :- DecodePacket(decrypted);
    var deviceState :- ToEnum(enums.operationModes, "OperationMode", pkt.deviceState);
    var chargerError :- ToEnum(enums.chargerErrors, "ChargerError", pkt.chargerError);
    var offReason :- ToEnum(enums.offReasons, "OffReason", pkt.offReason);
    Success(DcDcConverterData(modelId, map[
      "device_state" := OperationMode(deviceState),
      "charger_error" := ChargerError(chargerError),
      "input_voltage" := Voltage(pkt.inputVoltage),
      "output_voltage" := Voltage(pkt.outputVoltage),
      "off_reason" := OffReason(offReason)
    ]))
  }

  function GetChargeState(d: DcDcConverterData): (r: nat)
    requires IsParsed(d.data)
    ensures d.data["device_state"] == OperationMode(r)
  {
    d.data["device_state"].mode
  }

  function GetChargerError(d: DcDcConverterData): (r: nat)
    requires IsParsed(d.data)
    ensures d.data["charger_error"] == ChargerError(r)
  {
    d.data["charger_error"].error
  }

  /** Input voltage in centivolts. */
  function GetInputVoltage(d: DcDcConverterData): (r: int)
    requires IsParsed(d.data)
    ensures d.data["input_voltage"] == Voltage(r)
  {
    d.data["input_voltage"].centivolts
  }

  /** The value the output-voltage accessor compares the stored reading
      with. The stored reading is already scaled to volts, so the comparison
      with 0x7FFF is, in centivolts, a comparison with 0x7FFF * 100. */
  const OutputVoltageSentinel: int := 0x7FFF * 100

  /** Output voltage in centivolts, or 0 when the stored reading is the
      sentinel. */
  function GetOutputVoltage(d: DcDcConverterData): (r: int)
    requires IsParsed(d.data)
    ensures d.data["output_voltage"].centivolts == OutputVoltageSentinel ==> r == 0
    ensures d.data["output_voltage"].centivolts != OutputVoltageSentinel ==> r == d.data["output_voltage"].centivolts
  {
    var reading := d.data["output_voltage"].centivolts;
    if reading == OutputVoltageSentinel then 0 else reading
  }

  function GetOffReason(d: DcDcConverterData): (r: nat)
    requires IsParsed(d.data)
    ensures d.data["off_reason"] == OffReason(r)
  {
    d.data["off_reason"].reason
  }

  // ---------------------------------------------------------------------
  // What the getters return for a frame.
  // ---------------------------------------------------------------------

  /** The enumerated fields hold the codes of byte 0, byte 1 and the
      little-endian word of bytes 6..9, each declared by its enumeration. */
  lemma EnumsOfFrame(decrypted: seq<Byte>, enums: EnumTables, d: DcDcConverterData)
    requires Parse(decrypted, d.modelId, enums) == Success(d)
    ensures GetChargeState(d) == decrypted[0] && GetChargeState(d) in enums.operationModes
    ensures GetChargerError(d) == decrypted[1] && GetChargerError(d) in enums.chargerErrors
    ensures GetOffReason(d) == U32(decrypted[6], decrypted[7], decrypted[8], decrypted[9])
    ensures GetOffReason(d) in enums.offReasons
  {
  }

  /** The input voltage is the unsigned little-endian word of bytes 2..3, in
      centivolts, 0 .. 655.35 V. */
  lemma InputVoltageOfFrame(decrypted: seq<Byte>, enums: EnumTables, d: DcDcConverterData)
    requires Parse(decrypted, d.modelId, enums) == Success(d)
    ensures GetInputVoltage(d) == U16(decrypted[2], decrypted[3])
    ensures 0 <= GetInputVoltage(d) <= 0xFFFF
  {
  }

  /** The output voltage is the signed little-endian word of bytes 4..5, in
      centivolts, -327.68 .. 327.67 V. The stored reading never equals the
      sentinel, so the accessor always returns it unchanged. */
  lemma OutputVoltageOfFrame(decrypted: seq<Byte>, enums: EnumTables, d: DcDcConverterData)
    requires Parse(decrypted, d.modelId, enums) == Success(d)
    ensures d.data["output_voltage"].centivolts != OutputVoltageSentinel
    ensures GetOutputVoltage(d) == d.data["output_voltage"].centivolts
    ensures GetOutputVoltage(d) == Int16(U16(decrypted[4], decrypted[5]))
    ensures -0x8000 <= GetOutputVoltage(d) <= 0x7FFF
  {
  }

  /** A raw output word of 0x7FFF is reported as 327.67 V, not as 0. */
  lemma RawSentinelPassesThrough(decrypted: seq<Byte>, enums: EnumTables, d: DcDcConverterData)
    requires Parse(decrypted, d.modelId, enums) == Success(d)
    requires decrypted[4] == 0xFF && decrypted[5] == 0x7F
    ensures GetOutputVoltage(d) == 0x7FFF
  {
    OutputVoltageOfFrame(decrypted, enums, d);
  }

  /** When the enumeration declares the documented charge states, a frame
      whose device state is one of them never fails on that field: it parses
      exactly when its other two codes are declared. */
  lemma DocumentedChargeStatesParse(decrypted: seq<Byte>, modelId: nat, enums: EnumTables)
    requires DocumentedChargeStates <= enums.operationModes
    requires |decrypted| >= FixedBytes && decrypted[0] in DocumentedChargeStates
    ensures Parse(decrypted, modelId, enums).Success? <==>
      decrypted[1] in enums.chargerErrors
      && U32(decrypted[6], decrypted[7], decrypted[8], decrypted[9]) in enums.offReasons
  {
  }

  /** Bytes after the fixed fields do not change the parse. */
  lemma TrailingBytesIgnored(decrypted: seq<Byte>, trailing: seq<Byte>, modelId: nat, enums: EnumTables)
    requires |decrypted| >= FixedBytes
    ensures Parse(decrypted + trailing, modelId, enums) == Parse(decrypted, modelId, enums)
  {
    assert (decrypted + trailing)[..FixedBytes] == decrypted[..FixedBytes];
  }

  // ---------------------------------------------------------------------
  // Encoding, for the round trip.
  // ---------------------------------------------------------------------

  /** The 10 bytes that carry a packet; the output voltage is written as its
      16-bit two's-complement word. */
  function Encode(p: Packet): (frame: seq<Byte>)
    requires p.Valid()
    ensures |frame| == FixedBytes
  {
    LayoutOffsets();
    WriteLeFields([p.deviceState, p.chargerError, p.inputVoltage, p.outputVoltage % 0x1_0000, p.offReason],
                  PacketLayout)
  }

  /** Reading back the fields written for a packet with a layout of the
      frame's shape gives its values, whatever follows them. */
  lemma EncodedFields(p: Packet, ws: seq<nat>, trailing: seq<Byte>)
    requires p.Valid() && LayoutShape(ws)
    ensures var vs := [p.deviceState, p.chargerError, p.inputVoltage, p.outputVoltage % 0x1_0000, p.offReason];
      && Sum(ws) <= |WriteLeFields(vs, ws) + trailing|
      && ReadLeFields(WriteLeFields(vs, ws) + trailing, 0, ws) == vs
      && Int16(vs[3]) == p.outputVoltage
  {
    var vs := [p.deviceState, p.chargerError, p.inputVoltage, p.outputVoltage % 0x1_0000, p.offReason];
    assert FitsBytes(vs, ws) by {
      assert Pow256(1) == 0x100 && Pow256(2) == 0x1_0000 && Pow256(4) == 0x1_0000_0000;
    }
    ReadWriteLeFields([], vs, ws, trailing);
    assert [] + WriteLeFields(vs, ws) + trailing == WriteLeFields(vs, ws) + trailing;
  }

  /** Parsing the bytes that carry a packet, followed by any bytes, gives
      back the packet. */
  lemma EncodeRoundTrip(p: Packet, trailing: seq<Byte>)
    requires p.Valid()
    ensures DecodePacket(Encode(p) + trailing) == Success(p)
  {
    LayoutOffsets();
    EncodedFields(p, PacketLayout, trailing);
  }
}
