# CAN adapter codec of the OBD-II emulator

This project models the part of the OBD-II emulator that translates between
CAN frames and the fixed 20-byte packets of the USB CAN adapter. It also
proves properties of that model. There are two components:

- **`CanFrame`** (module `Frames`, `can_frame.dfy`) is an immutable value
  with an identifier, an extended/standard flag, a remote flag and 0 to 8
  payload bytes. `Make` is the constructor. It refuses a payload longer than
  8 bytes and an identifier wider than 11 bits for a standard frame or
  29 bits for an extended frame (the base and extended identifier formats
  of ISO 11898-1). The accessors `GetId`, `IsExtended`, `IsRemote`,
  `GetDataLength` and `GetData` return the fields.
- **`CanDriver`** (module `CanDriver`, `can_driver.dfy`) is the stateless
  codec:
  - `Serialize` writes a data packet: `AA`, header byte, identifier
    (2 or 4 bytes, little-endian), payload, terminator `55`, then zeros up
    to 20 bytes.
  - `Deserialize` reads a data packet back.
  - `GetConfiguration` builds the adapter's configuration packet
    `AA 55 12 <speed> <mode> …`. Its byte 19 is the 8-bit sum of bytes 2
    to 18.

`can_types.dfy` (module `CanTypes`) holds the machine types and the
failure type:
- `byte` is `uint8_t` and `uint32` is `uint32_t`, both as integer
  newtypes.
- `CanError` has the cases `InvalidFrame` and `MalformedPacket`.
- `Result` carries either a value or a `CanError`.

The model reports bad input as an `Err` value. No test exercises an error
path.

The header byte has the bits `1 1 E R L L L L`:
- the two base bits `0xC0`;
- `E` = `0x20`, set for an extended frame;
- `R` = `0x10`, set for a remote frame;
- the low nibble `L`, the payload length.

The three parts occupy disjoint bits, so their bitwise OR equals their sum.
The model packs the header as that sum, and `PackHeader`'s contract reads
each bit group back out of the packed byte. `SerializeHeaderIsBitwiseOr`
states the header of every serialized frame with the literal 8-bit `|`.

Decisions the tests leave open or settle:
- **Short packets.** The driver tests decode 13-byte and 15-byte packets and
  expect success (test/can_driver_test.cpp:88-94, 115-121). So `Deserialize`
  needs only the start byte, the header, the identifier field and the
  payload to be present.
- **Lenient tail.** Decoding checks the start byte and the length nibble.
  It does not check the header's base bits, the terminator or the padding.
- **Decoded identifier out of range.** Decoded fields go through `Make`. A
  standard packet whose two identifier bytes exceed `0x7FF` (or an extended
  one above `0x1FFFFFFF`) therefore yields `Err(InvalidFrame)`.
- **Remote frames.** The remote bit is `0x10` in both directions. A remote
  frame's payload is written like any other, so `Deserialize` inverts
  `Serialize` for remote frames too. No test shows a remote frame.

## Model

| member | source | states |
|---|---|---|
| `Frames.Make` | test/can_frame_test.cpp:16-44 | The constructor succeeds exactly when the payload has at most 8 bytes and the id is within the 11-bit or 29-bit range. On success `GetId`, `IsExtended`, `IsRemote` and `GetData` return the arguments, and `GetDataLength` is the payload's length. Otherwise the result is `InvalidFrame`. |
| `Frames.FixtureFrame` | test/can_frame_test.cpp:9-44 | The fixture frame (id 1, extended, not remote, data 0..7) constructs. Each accessor returns the fixture's value, and the data length is 8. |
| `Frames.MaxPayloadConstructs` | test/can_frame_test.cpp:12-16 | Any in-range frame with the maximum payload of 8 bytes constructs, and it carries exactly the given fields. |
| `CanDriver.PackHeader` | test/can_driver_test.cpp:41 | The packed header has both base bits set. Its extended bit is the extended flag, its remote bit is the remote flag, and its low nibble is the payload length. |
| `CanDriver.UnpackPackHeader` | test/can_driver_test.cpp:96-99 | Unpacking a packed header recovers the extended flag, the remote flag and the length. |
| `CanDriver.PackUnpackHeader` | test/can_driver_test.cpp:89 | Every byte with both base bits set is the packing of the header it unpacks to. |
| `CanDriver.LittleEndian` | test/can_driver_test.cpp:42 | Encoding a value in n little-endian bytes yields exactly n bytes. `FromLittleEndianOfLittleEndian` and `LittleEndianOfFromLittleEndian` tie it to its inverse. |
| `CanDriver.FromLittleEndian` | test/can_driver_test.cpp:90 | A value read from n little-endian bytes is below 256^n. |
| `CanDriver.FromLittleEndianOfLittleEndian` | test/can_driver_test.cpp:32 | Writing a value that fits in n bytes as n little-endian bytes and reading them back gives the value. |
| `CanDriver.LittleEndianOfFromLittleEndian` | test/can_driver_test.cpp:117 | Reading n little-endian bytes and writing the value back as n bytes gives the same bytes. |
| `CanDriver.IdFieldLayout` | test/can_driver_test.cpp:67 | Packet byte 2 + k holds byte k of the id (id / 256^k mod 256). That is two bytes for a standard frame and four for an extended one, and the payload follows right after. |
| `CanDriver.SerializeHeaderIsBitwiseOr` | test/can_driver_test.cpp:66 | For every valid frame the header byte equals the 8-bit bitwise OR `0xC0 \| (extended ? 0x20 : 0) \| (remote ? 0x10 : 0) \| length`. |
| `CanDriver.OrIsSum` | test/can_driver_test.cpp:41 | For lengths up to 8, OR-ing the base bits, the flag bits and the length gives the same byte as adding them. |
| `CanDriver.Serialize` | test/can_driver_test.cpp:40-52 | The packet is exactly 20 bytes: `AA`, the packed header, the little-endian id field, the payload in order, the terminator `55` right after the payload, and zeros to the end. |
| `CanDriver.SerializeHeaderByte` | test/can_driver_test.cpp:41 | For a non-remote frame the header byte is `0xC0 \| (extended ? 0x20 : 0) \| length`, written as a sum of disjoint bits. With 8 payload bytes it is `0xC8` for a standard frame and `0xE8` for an extended one. |
| `CanDriver.Deserialize` | test/can_driver_test.cpp:88-104 | `MalformedPacket` is returned exactly when the packet is shorter than 2 bytes, lacks `AA`, has a length nibble above 8, or is too short for its id field and payload. `InvalidFrame` is returned exactly when the decoded id is out of range. On success the header and the bytes from offset 2 are the frame's header, id field and payload, and the frame is valid. |
| `CanDriver.DeserializeSerialize` | test/can_driver_test.cpp:107-131 | `Deserialize(Serialize(f)) == Ok(f)` for every valid frame, standard or extended, remote or not, with 0 to 8 payload bytes. |
| `CanDriver.DeserializeIgnoresTail` | test/can_driver_test.cpp:88-94 | Decoding ignores everything after the payload. Replacing the terminator and padding by any bytes, or by none, gives the same result. |
| `CanDriver.DeserializeSerializePrefix` | test/can_driver_test.cpp:115-121 | A serialized frame cut anywhere between the end of its payload and byte 20 still decodes to the frame. |
| `CanDriver.SerializeDeserialize` | test/can_driver_test.cpp:88-94 | A canonical packet that decodes re-encodes to the same 20 bytes. Canonical means: base bits set, terminator after the payload, zeros after it. |
| `CanDriver.Checksum` | test/can_driver_test.cpp:19 | The 8-bit wrap-around running sum equals the arithmetic sum of the bytes modulo 256. |
| `CanDriver.SpeedCode` | test/can_driver_test.cpp:13 | The bus-speed table maps `Speed5kbps` to the wire code `0x0C`. |
| `CanDriver.ModeByte` | test/can_driver_test.cpp:14 | Configuration byte 4 is `0x02` exactly when extended frames are supported. |
| `CanDriver.GetConfiguration` | test/can_driver_test.cpp:11-21 | The packet is 20 bytes: `AA 55 12`, the speed code, the mode byte, zeros for filter, mask and mode (5-13), the flag `01` at 14, and zeros at 15-18. Byte 19 is the sum of bytes 2-18 modulo 256. |
| `CanDriver.PacketKindsDistinct` | test/can_driver_test.cpp:12 | Byte 1 of a data packet never equals byte 1 (`55`) of a configuration packet, so byte 1 tells the two kinds apart. |
| `CanDriver.ConfigurationVector` | test/can_driver_test.cpp:8-27 | `GetConfiguration(Speed5kbps, true)` is exactly `AA 55 12 0C 02 00×8 00 01 00×4 21`. |
| `CanDriver.StandardSerializeVector` | test/can_driver_test.cpp:30-52 | The validating constructor accepts standard frame `0x0123` with `11..88`, and the frame serializes to `AA C8 23 01 11 22 33 44 55 66 77 88 55` and seven zeros. |
| `CanDriver.ExtendedSerializeVector` | test/can_driver_test.cpp:55-77 | The validating constructor accepts extended frame `0x01234567` with `11..88`, and the frame serializes to `AA E8 67 45 23 01 11 … 88 55` and five zeros. |
| `CanDriver.StandardDeserializeVector` | test/can_driver_test.cpp:80-104 | The 13-byte standard packet decodes to id `0x0123`, standard, not remote, with the 8 payload bytes. |
| `CanDriver.ExtendedDeserializeVector` | test/can_driver_test.cpp:107-131 | The 15-byte extended packet decodes to id `0x01234567`, extended, not remote, with the 8 payload bytes. |

## Left out

- `obdemulator/can_driver.h` and `obdemulator/can_frame.h`, and the `.cpp` files that implement them, are not part of this model. The behaviour modelled is the behaviour the two test files fix byte by byte.
- The serial/USB transport, the OBD-PID response logic, the gtest fixtures and the `std::equal` comparisons are left out. The comparisons are modelled as sequence equality.
- `std::array<uint8_t, 20>` is modelled as a `seq<byte>` whose length is proved to be 20.
- Error paths are the model's choice: `Make` and `Deserialize` return `Err(…)` for a payload over 8 bytes, an id out of range, a bad start byte, a length nibble over 8 or a packet too short for its fields. No test exercises any of these, so how the source reports them is not modelled.
- Bus speeds other than 5 kbps are left out. Their wire codes do not appear in the source, so `BusSpeed` has the single enumerant `Speed5kbps` ↦ `0x0C`. With that table no speed lacks a code, so no unsupported-speed failure is modelled.
- ModeByte: with extended frames off, byte 4 is the named constant `ModeStandard` (`0x01`). The source does not fix this value.
- GetConfiguration: the acceptance filter and mask are fixed at zero (accept all). No configurable filter is modelled.
- The remote-request bit `0x10` is a named constant because no source shows it. The concrete vectors all use non-remote frames.
