# Victron BLE frame decoding: Smart Lithium and DC-DC converter

This project is a Dafny model of how the `victron_ble` library turns the
decrypted payload of an advertisement into named, normalised readings, for
two device families.

- **Smart Lithium** (module `SmartLithium`, `smart_lithium.dfy`).
  - The payload is a 128-bit bit-packed frame, read most significant bit
    first. Each field is a big-endian unsigned integer.
  - The fields are a 32-bit BMS flag word, a 16-bit error flag word, eight
    7-bit cell-voltage codes, a 12-bit battery voltage, a 4-bit balancer
    status, a 7-bit temperature and one pad bit.
  - `ParseDecrypted` builds the six-key map:
    - battery voltage `0x0FFF` becomes absent;
    - temperature loses its bias of 40, and `0x7F` becomes absent;
    - every cell code goes through the three-way rule of `ParseCellVoltage`.
  - `SmartLithiumData` and its getters give the typed view of that map.
- **DC-DC converter** (module `DcDcConverter`, `dcdc_converter.dfy`).
  - The payload is a byte-aligned little-endian structure: u8 device
    state, u8 charger error, u16 input voltage, s16 output voltage and u32
    off reason. Any bytes after those are read and dropped.
  - `Parse` converts the three coded fields into their enumerations. An
    unknown code fails the parse, and the first failing field, in field
    order, names the error.
  - `DcDcConverterData` and its getters give the typed view. This includes
    the output-voltage accessor and its comparison with `0x7FFF`.
- **Frames** (`frames.dfy`) gives the meaning of the two kinds of layout.
  - A cursor reads a list of field widths over a bit string
    (`ReadBitFields`) or over a byte string (`ReadLeFields`).
  - Each reader has an encoder for the round-trip lemmas.
  - Lemmas state where each field lands (`ReadBitFieldsAt`,
    `ReadLeFieldsAt`).
- **Wrappers** (`wrappers.dfy`) holds `Option` and `Result`.

Voltages are exact integers in centivolts, so `2.60 + payload / 100.0`
becomes `260 + payload`, and `/ 100` of a raw reading is the raw reading
itself. The infinite cell readings are the constructors `NegInf` and `PosInf`
of `CellVoltage`. "Not applicable" is `NotApplicable`.

A decrypted payload that is too short for its layout is a `StreamError`.
This is the stream error the structure parser raises.

Three behaviours of the code are worth stating outright:

- **Length of the bit-packed frame.** `BitStruct` reads the first 16 bytes
  of the payload and ignores any bytes after them. It never checks that the
  payload is exactly 16 bytes long, so longer payloads parse
  (`SmartLithium.TrailingBytesIgnored`).
- **Trailing bytes of the DC-DC frame.** The unnamed `GreedyBytes` field
  reads every byte after the fixed fields and drops them, so they reach no
  field of the parsed map (`DcDcConverter.TrailingBytesIgnored`).
- **Output-voltage sentinel.** The accessor compares the stored value,
  already divided by 100, with `0x7FFF`, and no 16-bit reading divided by
  100 equals that. The model keeps the comparison as written:
  - `DcDcConverter.OutputVoltageSentinel` is `0x7FFF * 100` centivolts;
  - `DcDcConverter.OutputVoltageOfFrame` proves that the 0 branch is never
    taken for a parsed frame;
  - `DcDcConverter.RawSentinelPassesThrough` shows that a raw `0x7FFF` is
    reported as 327.67 V.

## Model

| member | source | states |
|---|---|---|
| SmartLithium.LayoutOffsets | victron_ble/devices/smart_lithium.py:50-59 | the widths 32, 16, eight 7s, 12, 4, 7 and 1 sum to exactly 128 bits (16 bytes); each field starts where the previous one ends, at bits 0, 32, 48+7i, 104, 116, 120 and 127 |
| SmartLithium.DecodePacket | victron_ble/devices/smart_lithium.py:50-62 | parsing fails exactly when the payload is shorter than 16 bytes, and then with a stream error; a successful parse has eight cell codes |
| SmartLithium.DecodePacketFields | victron_ble/devices/smart_lithium.py:50-59 | the cursor parse of the frame equals the packet whose fields are read at their absolute bit positions |
| SmartLithium.FieldsAt | victron_ble/devices/smart_lithium.py:50-59 | for any 128-bit string and any layout of the frame's shape, the field values the cursor reads are the integers at the absolute bit positions |
| SmartLithium.DecodedValid | victron_ble/devices/smart_lithium.py:51-58 | every decoded field fits its declared width: below 2^32, 2^16, 2^7 for each cell, 2^12, 2^4 and 2^7 |
| SmartLithium.PadBitIgnored | victron_ble/devices/smart_lithium.py:58 | two payloads whose first 127 bits agree parse to the same map: the pad bit is read and dropped |
| SmartLithium.LastByteLowBitIgnored | victron_ble/devices/smart_lithium.py:58 | the pad bit is the least significant bit of byte 15: payloads that agree on bytes 0..14 and on the upper seven bits of byte 15 parse to the same map |
| SmartLithium.TrailingBytesIgnored | victron_ble/devices/smart_lithium.py:62 | bytes after the 16-byte frame do not change the parsed map |
| SmartLithium.PackRoundTrip | victron_ble/devices/smart_lithium.py:50-59 | decoding the frame that carries any in-range packet, whatever its pad bit and trailing bytes, gives back that packet |
| SmartLithium.ParseCellVoltage | victron_ble/devices/smart_lithium.py:82-85 | code 0x00 gives negative infinity, 0x7E positive infinity and 0x7F not applicable, each if and only if; any other code c gives 260 + c centivolts |
| SmartLithium.CellVoltageRange | victron_ble/devices/smart_lithium.py:82-85 | a measured reading of a 7-bit code lies in 261..385 centivolts; 0x01 gives 2.61 V and 0x7D gives 3.85 V |
| SmartLithium.CellCodeRoundTrip | victron_ble/devices/smart_lithium.py:82-85 | the cell rule is injective on 7-bit codes: the code can be recovered from every reading |
| SmartLithium.Normalise | victron_ble/devices/smart_lithium.py:64-77 | the map has exactly the six keys; battery voltage 0x0FFF is absent and other values pass through; temperature 0x7F is absent and other values become raw − 40; each cell goes through the cell rule, in order; flags and balancer status pass through |
| SmartLithium.ParseDecrypted | victron_ble/devices/smart_lithium.py:61-79 | parsing fails exactly when the payload is shorter than 16 bytes, and then with a stream error; otherwise the result has the six keys with their kinds of value and eight cell readings |
| SmartLithium.FlagsOfFrame | victron_ble/devices/smart_lithium.py:65-71 | bms_flags, error_flags and balancer_status are the raw integers at bits 0..31, 32..47 and 116..119, below 2^32, 2^16 and 2^4 |
| SmartLithium.CellVoltagesOfFrame | victron_ble/devices/smart_lithium.py:67 | cell reading i is the cell rule applied to the 7-bit code at bit 48 + 7i, for i in 0..7; every measured reading lies in 261..385 centivolts |
| SmartLithium.BatteryVoltageOfFrame | victron_ble/devices/smart_lithium.py:68-70 | battery voltage is absent if and only if the 12-bit field at bit 104 is 0x0FFF; otherwise it is that field in centivolts, 0..4094 |
| SmartLithium.BatteryTemperatureOfFrame | victron_ble/devices/smart_lithium.py:72-76 | temperature is absent if and only if the 7-bit field at bit 120 is 0x7F; otherwise it is the field minus 40, within −40..86; raw 0x28 is 0 °C |
| SmartLithium.GetBmsFlags | victron_ble/devices/smart_lithium.py:9-13 | returns the integer stored under bms_flags, unchanged |
| SmartLithium.GetErrorFlags | victron_ble/devices/smart_lithium.py:15-19 | returns the integer stored under error_flags, unchanged |
| SmartLithium.GetBatteryVoltage | victron_ble/devices/smart_lithium.py:21-25 | returns the optional reading stored under battery_voltage, unchanged |
| SmartLithium.GetBatteryTemperature | victron_ble/devices/smart_lithium.py:27-31 | returns the optional reading stored under battery_temperature, unchanged |
| SmartLithium.GetCellVoltages | victron_ble/devices/smart_lithium.py:33-37 | returns the stored list of cell readings, unchanged, which has exactly eight entries |
| SmartLithium.GetBalancerStatus | victron_ble/devices/smart_lithium.py:39-43 | returns the integer stored under balancer_status, unchanged |
| DcDcConverter.LayoutOffsets | victron_ble/devices/dcdc_converter.py:48-63 | the fixed fields are 1, 1, 2, 2 and 4 bytes at offsets 0, 1, 2, 4 and 6, 10 bytes in all |
| DcDcConverter.ReadFixedFields | victron_ble/devices/dcdc_converter.py:53-61 | the little-endian cursor reads byte 0, byte 1, the u16 of bytes 2..3, the u16 of bytes 4..5 and the u32 of bytes 6..9 |
| DcDcConverter.DecodePacket | victron_ble/devices/dcdc_converter.py:48-67 | parsing fails exactly when the payload is shorter than 10 bytes, and then with a stream error; otherwise the fields come from their byte positions, the output voltage as two's complement, each within its width |
| DcDcConverter.ToEnum | victron_ble/devices/dcdc_converter.py:70-74 | enum construction succeeds if and only if the code is declared, and then keeps the code; otherwise the error names the enumeration and the code |
| DcDcConverter.Parse | victron_ble/devices/dcdc_converter.py:65-77 | a short payload is a stream error; then an unknown device state, charger error or off reason fails, in that order, naming the code; the parse succeeds if and only if all three are declared, and then holds the model id and exactly the five keys |
| DcDcConverter.EnumsOfFrame | victron_ble/devices/dcdc_converter.py:70-74 | device_state is byte 0, charger_error is byte 1 and off_reason is the u32 of bytes 6..9, each a code its enumeration declares |
| DcDcConverter.InputVoltageOfFrame | victron_ble/devices/dcdc_converter.py:72 | input_voltage is the unsigned u16 of bytes 2..3 in centivolts, 0..65535 |
| DcDcConverter.OutputVoltageOfFrame | victron_ble/devices/dcdc_converter.py:73 | output_voltage is the signed s16 of bytes 4..5 in centivolts, −32768..32767; it never equals the accessor's sentinel, so the accessor returns it unchanged |
| DcDcConverter.GetOutputVoltage | victron_ble/devices/dcdc_converter.py:31-38 | returns 0 when the stored reading equals 0x7FFF volts, and the stored reading otherwise |
| DcDcConverter.RawSentinelPassesThrough | victron_ble/devices/dcdc_converter.py:35-38 | a raw output word of 0x7FFF is reported as 32767 centivolts, not as 0 |
| DcDcConverter.DocumentedChargeStatesParse | victron_ble/devices/dcdc_converter.py:49-52 | when the operation-mode enumeration declares the documented states 0, 3, 4 and 5, a frame with one of them parses if and only if its charger error and off reason are declared |
| DcDcConverter.TrailingBytesIgnored | victron_ble/devices/dcdc_converter.py:62 | bytes after the 10 fixed bytes do not change the parse |
| DcDcConverter.EncodeRoundTrip | victron_ble/devices/dcdc_converter.py:48-63 | decoding the bytes that carry any in-range packet, followed by any bytes, gives back that packet, including negative output voltages |
| DcDcConverter.GetChargeState | victron_ble/devices/dcdc_converter.py:13-17 | returns the member stored under device_state, unchanged |
| DcDcConverter.GetChargerError | victron_ble/devices/dcdc_converter.py:19-23 | returns the member stored under charger_error, unchanged |
| DcDcConverter.GetInputVoltage | victron_ble/devices/dcdc_converter.py:25-29 | returns the reading stored under input_voltage, unchanged |
| DcDcConverter.GetOffReason | victron_ble/devices/dcdc_converter.py:40-44 | returns the member stored under off_reason, unchanged |
| Frames.BytesToBits | victron_ble/devices/smart_lithium.py:50 | a payload of n bytes is a bit string of 8n bits, each byte contributing its bits most significant first |
| Frames.BytesToBitsAt | victron_ble/devices/smart_lithium.py:50 | bit i of the bit string is bit 7 − i mod 8, counting from the least significant, of byte i / 8 |
| Frames.BitField | victron_ble/devices/smart_lithium.py:51-58 | a `BitsInteger` field of w bits is a big-endian unsigned integer below 2^w |
| Frames.ReadBitFields | victron_ble/devices/smart_lithium.py:50-59 | the bit structure's cursor yields one value per declared width, in layout order |
| Frames.ReadBitFieldsFit | victron_ble/devices/smart_lithium.py:50-59 | every value the bit cursor reads fits its declared width |
| Frames.ReadBitFieldsAt | victron_ble/devices/smart_lithium.py:50-59 | in a bit-packed structure, field k is the big-endian integer of its width starting at the sum of the widths before it |
| Frames.ReadWriteBitFields | victron_ble/devices/smart_lithium.py:50-59 | reading back fields written at their widths gives the values, whatever bits come before or after |
| Frames.BitsToIntOfIntToBits | victron_ble/devices/smart_lithium.py:50-59 | a value below 2^w survives being written as w big-endian bits and read back |
| Frames.BytesToBitsOfBitsToBytes | victron_ble/devices/smart_lithium.py:50-59 | splitting bytes into bits, most significant first, undoes packing whole bytes from bits |
| Frames.LeField | victron_ble/devices/dcdc_converter.py:53-61 | an `Int8ul`, `Int16ul` or `Int32ul` field of w bytes is a little-endian unsigned integer below 256^w |
| Frames.ReadLeFields | victron_ble/devices/dcdc_converter.py:48-63 | the byte structure's cursor yields one value per declared width, in layout order |
| Frames.ReadLeFieldsAt | victron_ble/devices/dcdc_converter.py:48-63 | in a byte structure, field k is the little-endian integer of its width starting at the sum of the widths before it |
| Frames.ReadWriteLeFields | victron_ble/devices/dcdc_converter.py:48-63 | reading back fields written little-endian at their widths gives the values, whatever bytes come before or after |
| Frames.LeUintOfLeBytes | victron_ble/devices/dcdc_converter.py:57-61 | a value below 256^n survives being written as n little-endian bytes and read back |
| Frames.Int16 | victron_ble/devices/dcdc_converter.py:59 | the signed reading of a 16-bit word lies in −32768..32767 and is congruent to the word modulo 2^16 |

## Left out

- Decryption (`self.decrypt`), the `Device` and `DeviceData` base classes
  and `get_model_id`: `victron_ble/devices/base.py` is not part of this
  model, and decryption uses AES in counter mode from an external library.
  The decrypted bytes are the model's input, and the model id is a
  parameter of `DcDcConverter.Parse`.
- The member lists of `OperationMode`, `ChargerError` and `OffReason`: these
  enumerations are defined in `victron_ble/devices/base.py`. Their declared
  codes are the `EnumTables` parameter. An enum member is represented by its
  code.
- Floating-point arithmetic: `/ 100`, `/ 100.0` and `2.60 + payload / 100.0`
  are modelled as exact integer centivolts, so float rounding is not
  modelled. The IEEE infinities become the `NegInf` and `PosInf`
  constructors.
- The internals of the `construct` library: only the meaning of
  `BitStruct`, `BitsInteger`, `Array`, `Padding`, `Struct`, the little-endian
  integer types and `GreedyBytes` is modelled. Construct's own exception
  types and messages are reduced to `StreamError`.
- BLE scanning, key provisioning, the command line and logging: none of
  these take part in frame decoding.
- DcDcConverter.GetOutputVoltage: states, in centivolts, the comparison of
  the stored value in volts with `0x7FFF`. Because float division is left
  out, a stored float that only rounds to that value is not modelled. No
  16-bit reading comes close to it.
