# Wrench station: SM7Bit framing, packets and the wrench state machine

This project models the core of the torque-wrench base station in Dafny and
proves properties of the model.

The station talks to wrenches over a serial link. It also talks to a Redis
task queue.

- **SM7Bit codec.** Every packet on the serial link is framed by this codec.
  - A START byte `0x00` comes first.
  - Every following byte carries 7 data bits, most significant first. Its
    lowest bit is a stuffing bit, always 1.
  - The trailing bit slots are padding. The C and C++ encoders pad with ones.
    The Rust encoder pads with zeros.
  - An END byte `0x02` comes last.
  - There are two decoders:
    - The C++ decoder scans for START and then END. It fails on an empty
      body.
    - The Rust decoder is positional: it trusts the first and last byte.
- **C/C++ packet layer.** It wraps two packed structs as fixed-size images:
  - the WRC wrench packet (sequence id, MAC, flag byte, payload length, and a
    240-byte payload union);
  - the 12-byte USB-local packet.

  Its setters mask bit fields to their widths. Its constructors copy a
  decoded frame over the struct's storage.
- **Rust message layer.** It serialises and parses the same WRC and USB
  packets as typed values (`TryFrom` / `TryInto`).
- **Wrench registry.** The Rust `ComProcess` keeps one `WrenchContext` per
  known wrench and indexes them by serial number and by radio address. It
  handles:
  - packets from the wrenches (serial discovery, reconnection, status,
    joint results);
  - Redis requests (bind, connection check, task lists, cancellation).
- **Per-wrench state machine.** `WrenchContext` keeps:
  - a connection status;
  - a queue of tasks, a current task and the finished tasks;
  - the joint results received;
  - clocks for timeouts, reports and polls.

  A periodic `interval_update` times the wrench out, reports its status,
  polls for results, retires a finished task and starts the next one.
- **Legacy handler.** An older map-based handler (`message/com.rs`) does the
  same serial discovery and joint deduplication over plain maps.

Modules follow the program's layers:

- **Codec:** `SM7Bit` (the frame as a function of the data, and the decoders)
  and `Stuffing` (the encoder and decoder loops, proved against it). The
  entry points are `CppCodec`, `CCodec` and `RustCodec`.
- **C/C++ packet layer:** `WrcLayout`, `UsbLayout` and `BitFields` (struct
  and bit-field layout); `WrcImage` and `UsbImage` (field views of the byte
  image); `PacketStorage`, `WrcPacket` and `UsbPacket` (the C++ classes).
- **Rust message layer:**
  - `Messages` holds the typed values.
  - `RustWrc` and `RustUsb` are the serialisers and parsers.
  - `Bytes` covers little-endian integers and integer widths.
  - `RustText` covers `str::parse`.
- **Wrench logic:**
  - `Queries` builds the server queries.
  - `Scale` is `scale_up`.
  - `JointSort` is the sort by joint id.
  - `Tasks` covers task building, `assert_ok`, numbering and cancelling.
  - `WrenchSpec` and `Wrench` are the state machine as values and as a
    class.
  - `RegistrySpec` and `Registry` are the registry as values and as a
    class.
  - `LegacyCom` is the legacy handler.

The stateful parts are classes whose methods are proved against the
value-level step functions. Their lemmas state what each step does:
`Wrench.WrenchContext` against `WrenchSpec`, `Registry.ComProcess` against
`RegistrySpec`, and `LegacyCom.ComProcessData` against `LegacyCom.ComStep`.

**Conventions**

- Time and I/O:
  - Clocks are inputs. `now` is monotonic milliseconds (`Instant`). `wall`
    is the wall clock (`chrono`).
  - A message sent on a channel becomes an element of a returned sequence:
    `com` to the serial port, `redis` to Redis.
- Integer arithmetic follows the code's widths:
  - `last_task_id += 1` on `u16` wraps modulo 2^16.
  - `int_side *= 10` in `scale_up` wraps as `i32`.
  - The sequence number and the online time use the saturating operations
    the code calls.
- An InlineJointData payload is a single record in the packet enum
  (`src/hardware/message/wrc.rs:217`). The handlers iterate it as a list.
  `Messages.Incoming` carries either a parsed fixed packet or a list of
  records, and `Messages.Records` gives the list the handlers walk.
- Timeout and a completed task can fall in the same `interval_update` tick.
  The code then leaves the wrench Connected, or Working if another task is
  queued. The timeout message is still sent. `WrenchSpec.IntervalTimeout`
  states this as written.
- A decode shorter than the struct does not zero it:
  `lib/wrc/packet.cpp` and `lib/usb/packet.cpp` `memmove` the decoded bytes
  over whatever the storage held, and the model follows that
  (`PacketStorage.Received`).

## Model

| member | source | states |
|---|---|---|
| SM7Bit.Frame | src/sm7bit/encode.cpp:6-55 | the encoded frame of n data bytes has exactly `(8n+6)/7 + 2` bytes, for either padding |
| SM7Bit.DataBits | src/sm7bit/encode.cpp:26-44 | the data bit stream has 8 bits per input byte |
| SM7Bit.FrameBits | src/sm7bit/encode.cpp:14 | the frame's bit slots number 8 per frame byte |
| SM7Bit.Unpack | src/utils/decode.cpp:40-66 | unpacking a stuffed body for `t` bytes yields exactly `t` bytes |
| SM7Bit.StreamBits | src/utils/decode.cpp:51-57 | each stuffed byte contributes its 7 high bits to the recovered stream |
| SM7Bit.FindFrom | src/utils/decode.cpp:15-24 | the scan returns the first index at or after `from` that holds the byte, or the length when none does |
| SM7Bit.DecodeBody | src/utils/decode.cpp:32-41 | a successful body decode has `|body|*7/8` bytes, which is never zero |
| SM7Bit.FrameLenBounds | src/sm7bit/encode.cpp:14 | the frame's 7-bit capacity covers the 8n data bits with less than one byte to spare; a non-empty input gives at least 4 bytes; the decoder's length formula recovers n |
| SM7Bit.FrameShape | src/sm7bit/encode.cpp:24-52 | a frame starts with START and ends with END; every interior byte has stuffing bit 1, so it is never START or END |
| SM7Bit.FrameDataBit | src/sm7bit/encode.cpp:26-44 | input bit k lands in frame byte 1 + k/7 at bit position k%7, most significant first |
| SM7Bit.FramePadding | src/sm7bit/encode.cpp:47-50 | every slot after the data bits and before END holds the padding bit: 1 for C/C++, 0 for Rust |
| SM7Bit.UnpackFrame | src/utils/decode.cpp:43-66 | unpacking a frame's interior for n bytes gives the data back, whatever the padding |
| SM7Bit.DecodeFrameOfFrame | src/utils/decode.cpp:6-69 | the scanning decoder inverts the encoder: non-empty data round-trips; an empty input's frame `00 02` decodes to failure |
| SM7Bit.DecodePositionalOfFrame | src/hardware/sm7bits.rs:1-23 | the positional decoder inverts both encoders for every input, the empty one included |
| SM7Bit.DecodePositionalIgnoresMarkers | src/hardware/sm7bits.rs:2-5 | the positional decoder never looks at the values of the first and last byte |
| SM7Bit.FindFromFirst | src/utils/decode.cpp:15-19 | an index holding the byte with none of it before is what the scan finds |
| SM7Bit.UnpackIgnoresStuffingBits | src/utils/decode.cpp:51-57 | the decoded bytes do not depend on the stuffing bits of the interior |
| SM7Bit.DecodeFrameIgnoresTail | src/utils/decode.cpp:59-65 | bytes after the first END after the first START do not affect the result |
| SM7Bit.DecodeFrameIgnoresLeadingJunk | src/utils/decode.cpp:15-19 | prefixing bytes that contain no START does not change the result |
| SM7Bit.NoStartNoFrame | src/utils/decode.cpp:27-29 | input without a START byte decodes to failure |
| SM7Bit.NoEndNoFrame | src/utils/decode.cpp:27-29 | input with no END after its first START decodes to failure |
| SM7Bit.CppEncodeVector | tests/sm7bit/encode.cpp:4-26 | `CA FE BA BE` encodes to `00 CB 7F AF 57 EF 02` with ones padding; the empty input to `00 02` |
| SM7Bit.RustEncodeVector | src/hardware/sm7bits.rs:70-79 | with zero padding the same bytes encode to `00 CB 7F AF 57 E1 02`; the empty input to `00 02` |
| SM7Bit.DecodeVector | tests/sm7bit/decode.cpp:4-22 | both decoders give `CA FE BA BE` from the `E1` frame; the scanning decoder also from the `EF` frame; empty input gives the empty result or failure |
| Stuffing.TestBit | src/utils/decode.cpp:51-57 | the mask test `b & (1 << (7-j))` reads bit j of the byte, most significant first |
| Stuffing.PutBit | src/sm7bit/encode.cpp:39-41 | setting a data bit at the cursor changes exactly that bit of that byte |
| Stuffing.WriteByte | src/sm7bit/encode.cpp:26-44 | writing one input byte places its 8 bits at the frame's slots and advances the cursor past the stuffing bits it crosses |
| Stuffing.WriteBit | src/sm7bit/encode.cpp:33-42 | one pass of the inner loop takes the cursor to the slot after the data bit, through the stuffing 1 when it sits on a least significant bit; the written prefix keeps agreeing with the frame and the END byte stays clear |
| Stuffing.PutStuffing | src/sm7bit/encode.cpp:33-38 | on a least significant bit the stuffing 1 is written and the cursor moves one slot; on any other slot nothing changes |
| Stuffing.PutDataBit | src/sm7bit/encode.cpp:39-42 | the data bit lands at the cursor, the cursor moves one slot, and the END byte is untouched |
| Stuffing.PlacedData | src/sm7bit/encode.cpp:32-43 | data bit k lies in the frame just before cursor After(k + 1), past a stuffing 1 exactly when After(k) is a least significant bit |
| Stuffing.WriteData | src/sm7bit/encode.cpp:26-44 | after the data loop the cursor is where the frame's data bits end, and every slot before it matches the frame |
| Stuffing.PadWithOnes | src/sm7bit/encode.cpp:47-50 | the padding loop fills the remaining slots before END with ones, as the frame prescribes |
| Stuffing.PadWithZeros | src/hardware/sm7bits.rs:43-50 | the Rust padding loop leaves zero data slots and sets each stuffing bit |
| Stuffing.PadZeroStep | src/hardware/sm7bits.rs:43-50 | one step of the Rust padding loop keeps the written prefix in agreement with the zero-padded frame |
| Stuffing.FillFrame | src/sm7bit/encode.cpp:21-52 | the C/C++ encoder fills the buffer with exactly `Frame(data, true)` |
| Stuffing.FillFrameZeroPadded | src/hardware/sm7bits.rs:25-55 | the Rust encoder builds exactly `Frame(data, false)` |
| Stuffing.Scan | src/utils/decode.cpp:15-24 | the scanning loop finds the same index as `FindFrom` |
| Stuffing.ReadData | src/utils/decode.cpp:43-66 | the decode loop fills the output with exactly `Unpack` of the bytes between START and END |
| Stuffing.ReadByte | src/utils/decode.cpp:43-66 | one stuffed byte contributes its 7 high bits at the next output positions, stopping when the output is full |
| CppCodec.Encode | src/sm7bit/encode.cpp:6-55 | a non-null output refuses with length 0 and is left alone; otherwise a fresh buffer holds the ones-padded frame and the length is its size |
| CppCodec.NonEmptyFrame | src/sm7bit/encode.cpp:17-19 | the computed target length is at least 2, so the `target_len <= 0` guard never fires |
| CppCodec.Decode | src/utils/decode.cpp:6-69 | a non-null output refuses; a missing frame or empty body gives null and 0; otherwise a fresh buffer holds the decoded bytes |
| CCodec.Handle.constructor | src/utils/encode.c:6-11 | the handle stands for the caller's `uint8_t **` and holds the given pointer |
| CCodec.Encode | src/utils/encode.c:6-56 | a null handle gives 0; a handle already holding a buffer gives 0 and keeps it; otherwise the handle gets a fresh buffer holding the ones-padded frame |
| RustCodec.Encode | src/hardware/sm7bits.rs:25-55 | `encode` returns the zero-padded frame of its input |
| RustCodec.Decode | src/hardware/sm7bits.rs:1-23 | `decode` returns the positional decoding, so it inverts `encode` on every input |
| BitFields.FlagBit | includes/hardware/wrc/payload.h:49-60 | a one-bit field of a flag byte reads 0 or 1, and reads 1 exactly when that bit of the byte is set |
| WrcLayout.Code | includes/hardware/wrc/packet.h:16-33 | every packet type's wire code is below 16 |
| WrcLayout.TypeOfCode | includes/hardware/wrc/packet.h:16-33 | a code names a type exactly when it is below 16, and decoding a type's code gives the type back |
| WrcLayout.CodeInjective | includes/hardware/wrc/packet.h:16-33 | distinct packet types have distinct codes |
| WrcLayout.PacketLayout | includes/hardware/wrc/packet.h:52-61 | sequence id 2, MAC 4, flag 1, payload length 1 and payload 240 bytes pack into 248 bytes at those offsets |
| WrcLayout.PacketFlagLayout | src/hardware/message/wrc.rs:220-227 | the Rust flag bit ranges name the same bits as the C bit-fields |
| WrcLayout.Direction | includes/hardware/wrc/packet.h:55-58 | the direction field is one bit |
| WrcLayout.VariableLen | includes/hardware/wrc/packet.h:55-58 | the variable-length field is one bit |
| WrcLayout.Type | includes/hardware/wrc/packet.h:55-58 | the type field is six bits |
| WrcLayout.WithDirection | includes/wrc/packet.h:43-50 | storing a direction keeps its low bit and leaves the other flag fields unchanged |
| WrcLayout.WithVariableLen | includes/wrc/packet.h:52-59 | storing variable_len keeps its low bit and leaves the other flag fields unchanged |
| WrcLayout.WithType | includes/wrc/packet.h:61-68 | storing a type keeps `t & 0x3F` and leaves direction and variable_len unchanged |
| WrcLayout.TypeKeepsLowBits | includes/wrc/packet.h:61-68 | writing the type field stores a type below 64 unchanged and a larger one modulo 64, and keeps `direction` and `variable_len` |
| WrcLayout.FlagFields | includes/hardware/wrc/packet.h:52-61 | the three flag fields determine the flag byte completely |
| WrcLayout.PayloadSize | includes/hardware/wrc/payload.h:7-104 | every payload variant fits the 240-byte union |
| WrcLayout.PayloadLayouts | includes/hardware/wrc/payload.h:21-74 | Network is 13 bytes, SetJoint 33 with its flag at offset 32, InlineJointData 15 with its flag at offset 8 |
| WrcLayout.SmallPayloadLayouts | includes/hardware/wrc/payload.h:7-104 | the sizes of the remaining payload structs, as packed |
| WrcLayout.JointFlagLayouts | includes/hardware/wrc/payload.h:70-73 | the joint flag packs mode, method and unit as 2-bit fields |
| WrcLayout.WithJointMode | src/hardware/message/wrc.rs:139-147 | storing a mode keeps `v & 3` and leaves method and unit unchanged |
| WrcLayout.WithJointMethod | src/hardware/message/wrc.rs:139-147 | storing a method keeps `v & 3` and leaves mode and unit unchanged |
| WrcLayout.WithJointUnit | src/hardware/message/wrc.rs:139-147 | storing a unit keeps `v & 3` and leaves mode and method unchanged |
| WrcLayout.OnlyFlag | includes/hardware/wrc/payload.h:90-104 | a GetInfo flag with only the serial bit is 1; with only the energy bit it is 4 |
| UsbLayout.Code | includes/hardware/usb/packet.h:7-12 | the USB packet type codes are 0 to 3 |
| UsbLayout.CodeInjective | includes/hardware/usb/packet.h:7-12 | distinct USB packet types have distinct codes |
| UsbLayout.PayloadSize | includes/hardware/usb/packet.h:14-31 | RFStatus is 3 bytes, RFControl 10, MACMode 1 |
| UsbLayout.PacketLayout | includes/hardware/usb/packet.h:33-41 | type and payload length take one byte each; the union is RFControl's 10 bytes; the packet is 12 bytes |
| WrcImage.Payload | includes/wrc/packet.h:79-86 | the payload view is the 240 bytes from offset 8 |
| WrcImage.Overwrite | includes/wrc/packet.h:25-86 | overwriting a field's bytes changes those bytes and no others |
| WrcImage.WithSequenceId | includes/wrc/packet.h:25-32 | the setter writes the id little-endian at offset 0 and keeps every other byte |
| WrcImage.WithMac | includes/wrc/packet.h:34-41 | the setter writes the MAC little-endian at offset 2 and keeps every other byte |
| WrcImage.WithDirectionBit | includes/wrc/packet.h:43-50 | the setter changes only the flag byte, storing the masked direction |
| WrcImage.WithVariableLenBit | includes/wrc/packet.h:52-59 | the setter changes only the flag byte, storing the masked variable_len |
| WrcImage.WithTypeBits | includes/wrc/packet.h:61-68 | the setter changes only the flag byte, storing `type & 0x3F` |
| WrcImage.WithPayloadLen | includes/wrc/packet.h:70-77 | the setter changes only byte 7 |
| WrcImage.WithPayload | includes/wrc/packet.h:79-86 | the setter replaces the 240 payload bytes and keeps the header |
| WrcImage.SequenceIdRoundTrip | includes/wrc/packet.h:25-32 | the getter returns what the setter stored |
| WrcImage.MacRoundTrip | includes/wrc/packet.h:34-41 | the getter returns what the setter stored |
| WrcImage.FlagSetters | includes/wrc/packet.h:43-68 | each flag getter returns the masked value its setter stored; the other two fields are unchanged |
| WrcImage.HeaderKept | includes/wrc/packet.h:79-86 | setting the payload leaves every header getter's value unchanged |
| WrcImage.PayloadLenRoundTrip | includes/wrc/packet.h:70-77 | the getter returns what the setter stored, and the other fields are kept |
| WrcImage.PayloadRoundTrip | includes/wrc/packet.h:79-86 | the getter returns the payload the setter stored |
| WrcImage.ZeroImage | includes/wrc/packet.h:18-21 | a zeroed image reads 0 in every field |
| UsbImage.Payload | includes/usb/packet.h:43-50 | the payload view is the 10 bytes from offset 2 |
| UsbImage.WithTypeByte | includes/usb/packet.h:25-32 | the setter changes only byte 0 and stores the value unmasked |
| UsbImage.WithPayloadLen | includes/usb/packet.h:34-41 | the setter changes only byte 1 |
| UsbImage.WithPayload | includes/usb/packet.h:43-50 | the setter replaces the payload and keeps the header |
| UsbImage.SetterRoundTrips | includes/usb/packet.h:25-50 | each getter returns what its setter stored, and the other fields are kept |
| UsbImage.ZeroImage | includes/usb/packet.h:18-21 | a zeroed image reads 0 in every field |
| PacketStorage.Received | lib/wrc/packet.cpp:16-22 | copying the decoded bytes over the storage keeps the storage's size |
| PacketStorage.ReceivedBytes | lib/wrc/packet.cpp:16-22 | the decoded bytes come first, and every byte past them is the storage's old content; a failed decode leaves the storage as it was |
| PacketStorage.ReceivedOwnFrame | lib/wrc/packet.cpp:5-29 | constructing from a packet's own encoding restores its image exactly |
| PacketStorage.Storage | lib/wrc/packet.cpp:16-22 | the struct storage starts with contents the constructor does not choose |
| PacketStorage.Load | lib/usb/packet.cpp:16-22 | `memmove` of the decoded frame over the storage leaves exactly the received image |
| WrcPacket.Packet.constructor | includes/wrc/packet.h:18-21 | the default constructor zeroes the 248-byte struct |
| WrcPacket.Packet.FromEncoded | lib/wrc/packet.cpp:16-29 | the byte constructors leave the received image of the decoded input over the uninitialised storage |
| WrcPacket.Packet.SetSequenceId | includes/wrc/packet.h:25-32 | the struct becomes `WithSequenceId` of the old struct |
| WrcPacket.Packet.SetMac | includes/wrc/packet.h:34-41 | the struct becomes `WithMac` of the old struct |
| WrcPacket.Packet.SetDirection | includes/wrc/packet.h:43-50 | the struct becomes the old struct with the masked direction bit |
| WrcPacket.Packet.SetVariableLen | includes/wrc/packet.h:52-59 | the struct becomes the old struct with the masked variable_len bit |
| WrcPacket.Packet.SetType | includes/wrc/packet.h:61-68 | the struct becomes the old struct with the type masked to 6 bits |
| WrcPacket.Packet.SetPayloadLen | includes/wrc/packet.h:70-77 | the struct becomes the old struct with the new payload length |
| WrcPacket.Packet.SetPayload | includes/wrc/packet.h:79-86 | the struct becomes the old header followed by the new payload |
| WrcPacket.Packet.Store | lib/wrc/packet.cpp:24-29 | the struct holds exactly the given image |
| WrcPacket.Packet.Encode | lib/wrc/packet.cpp:5-14 | the whole struct image is encoded with ones padding, giving 286 bytes |
| WrcPacket.DefaultEncoding | tests/wrc/packet.cpp:4-14 | the zeroed packet encodes to `00`, then `01` bytes, then `1F`, then `02` |
| UsbPacket.Packet.constructor | includes/usb/packet.h:18-21 | the default constructor zeroes the 12-byte struct |
| UsbPacket.Packet.FromEncoded | lib/usb/packet.cpp:16-29 | the byte constructors leave the received image of the decoded input over the uninitialised storage |
| UsbPacket.Packet.SetType | includes/usb/packet.h:25-32 | the struct becomes the old struct with the new type byte |
| UsbPacket.Packet.SetPayloadLen | includes/usb/packet.h:34-41 | the struct becomes the old struct with the new payload length |
| UsbPacket.Packet.SetPayload | includes/usb/packet.h:43-50 | the struct becomes the old header followed by the new payload |
| UsbPacket.Packet.Encode | lib/usb/packet.cpp:5-14 | the whole struct image is encoded with ones padding, giving 16 bytes |
| UsbPacket.DefaultEncoding | tests/usb/packet.cpp:4-14 | the zeroed packet encodes to `00`, then `01` bytes, then `07`, then `02` |
| Bytes.U16RoundTrip | src/hardware/message/wrc.rs:246-254 | `u16::from_le_bytes` inverts `to_le_bytes` |
| Bytes.U32RoundTrip | src/hardware/message/wrc.rs:246-254 | `u32::from_le_bytes` inverts `to_le_bytes` |
| Bytes.U128RoundTrip | src/hardware/message/wrc.rs:271-277 | `u128::from_le_bytes` inverts `to_le_bytes` |
| Bytes.I16RoundTrip | src/hardware/message/wrc.rs:341-385 | `i16::from_le_bytes` inverts `to_le_bytes` |
| Bytes.I32RoundTrip | src/hardware/message/wrc.rs:341-385 | `i32::from_le_bytes` inverts `to_le_bytes` |
| Bytes.I8RoundTrip | src/hardware/message/usb.rs:59-64 | `as i8` and `as u8` invert each other |
| Bytes.U16BytesOf | src/hardware/message/wrc.rs:469-472 | `to_le_bytes` inverts `u16::from_le_bytes` |
| Bytes.U32BytesOf | src/hardware/message/wrc.rs:469-472 | `to_le_bytes` inverts `u32::from_le_bytes` |
| Bytes.U128BytesOf | src/hardware/message/wrc.rs:479-481 | `to_le_bytes` inverts `u128::from_le_bytes` |
| Bytes.I16BytesOf | src/hardware/message/wrc.rs:503-516 | `to_le_bytes` inverts `i16::from_le_bytes` |
| Bytes.I32BytesOf | src/hardware/message/wrc.rs:503-516 | `to_le_bytes` inverts `i32::from_le_bytes` |
| Bytes.I8BytesOf | src/hardware/message/usb.rs:95-99 | `as u8` inverts `as i8` |
| Bytes.Unsigned | src/hardware/message/usb.rs:51-53 | the unsigned bit pattern of a signed value fits its width |
| Bytes.SignedUnsigned | src/hardware/message/usb.rs:51-53 | reading a signed value's unsigned pattern back as signed gives the value |
| Bytes.WrapI32 | src/hardware/com_process/wrench.rs:624-646 | i32 wrap-around leaves every value already in the i32 range unchanged |
| Bytes.WrapI32Step | src/hardware/com_process/wrench.rs:633-643 | wrapping after each step equals wrapping once at the end |
| RustWrc.TypeOf | src/hardware/message/wrc.rs:201-218 | every payload variant has a known packet type |
| RustWrc.SetJointBytes | src/hardware/message/wrc.rs:503-516 | a SetJoint payload serialises to 33 bytes |
| RustWrc.InlineJointBytes | src/hardware/message/wrc.rs:532-541 | an InlineJointData payload serialises to 15 bytes |
| RustWrc.PayloadSizes | src/hardware/message/wrc.rs:473-541 | each variant's serialised size matches its C struct |
| RustWrc.Encoding | src/hardware/message/wrc.rs:464-544 | a packet serialises to the 8-byte header plus its payload bytes |
| RustWrc.Serialize | src/hardware/message/wrc.rs:464-544 | the push loop builds exactly `Encoding` |
| RustWrc.PushPayload | src/hardware/message/wrc.rs:473-541 | the payload match appends exactly the payload's bytes |
| RustWrc.PushSetJoint | src/hardware/message/wrc.rs:503-516 | the SetJoint pushes append exactly its 33 bytes |
| RustWrc.PushNetwork | src/hardware/message/wrc.rs:490-499 | the Network pushes append exactly its 13 bytes |
| RustWrc.PushInlineJoint | src/hardware/message/wrc.rs:532-541 | the InlineJointData pushes append exactly its 15 bytes |
| RustWrc.FieldsType | src/hardware/message/wrc.rs:259-451 | a parsed payload has the type its code names |
| RustWrc.ParsePayload | src/hardware/message/wrc.rs:259-451 | code 0 and codes 16 and up are unknown types; any other failure is a short payload's out-of-bounds slice |
| RustWrc.Parse | src/hardware/message/wrc.rs:238-461 | fewer than 9 bytes is too short; a declared length other than the rest is a mismatch; unknown codes are refused; success gives the little-endian header fields |
| RustWrc.SetJointRoundTrip | src/hardware/message/wrc.rs:341-385 | parsing a SetJoint's bytes gives it back |
| RustWrc.InlineJointRoundTrip | src/hardware/message/wrc.rs:422-448 | parsing an InlineJointData's bytes gives it back |
| RustWrc.NetworkRoundTrip | src/hardware/message/wrc.rs:300-336 | parsing an InfoNetwork's bytes gives it back |
| RustWrc.PairRoundTrip | src/hardware/message/wrc.rs:261-299 | parsing the two-field info payloads gives them back |
| RustWrc.WordRoundTrip | src/hardware/message/wrc.rs:391-396 | parsing a one-word payload gives it back |
| RustWrc.ByteWordRoundTrip | src/hardware/message/wrc.rs:397-406 | parsing GetJointData's bytes gives it back |
| RustWrc.FieldsOfBytes | src/hardware/message/wrc.rs:259-451 | every payload variant's bytes parse back to that variant |
| RustWrc.ParseEncoding | src/hardware/message/wrc.rs:238-544 | a packet whose flag names its payload's type and whose length matches a non-empty payload parses back from its serialisation |
| RustWrc.ParseParts | src/hardware/message/wrc.rs:246-258 | a successful parse splits the input into header and payload at byte 8 |
| RustWrc.PayloadOfBytes | src/hardware/message/wrc.rs:259-451 | a successfully parsed payload re-serialises to the bytes it came from |
| RustWrc.HeaderFields | src/hardware/message/wrc.rs:246-254 | the header fields read back from the serialised header |
| RustWrc.SetJointBytesOf | src/hardware/message/wrc.rs:341-385 | re-serialising a parsed SetJoint gives its 33 bytes back |
| RustWrc.InlineJointBytesOf | src/hardware/message/wrc.rs:422-448 | re-serialising a parsed InlineJointData gives its bytes back |
| RustWrc.NetworkBytesOf | src/hardware/message/wrc.rs:300-336 | re-serialising a parsed InfoNetwork gives its bytes back |
| RustWrc.PairBytesOf | src/hardware/message/wrc.rs:261-299 | re-serialising a parsed two-field payload gives its bytes back |
| RustWrc.EnergyBytesOf | src/hardware/message/wrc.rs:289-299 | re-serialising a parsed InfoEnergy gives its bytes back |
| RustWrc.GetJointDataBytesOf | src/hardware/message/wrc.rs:397-406 | re-serialising a parsed GetJointData gives its bytes back |
| RustWrc.BytesOfFields | src/hardware/message/wrc.rs:259-451 | every parsed payload re-serialises to the bytes it came from |
| RustWrc.EncodingOfParse | src/hardware/message/wrc.rs:238-544 | a packet the parser accepts re-serialises to the input |
| RustWrc.HeaderBytesOf | src/hardware/message/wrc.rs:469-472 | re-serialising parsed header fields gives the header bytes |
| RustWrc.ParseFields | src/hardware/message/wrc.rs:238-461 | a successful parse's payload is what the payload parser gives for the type code |
| RustWrc.PayloadlessTooShort | src/hardware/message/wrc.rs:407-410 | types 10 to 13 serialise to the bare 8-byte header, which the parser refuses as too short |
| RustUsb.TypeOf | src/hardware/message/usb.rs:1-41 | every USB payload variant has a known packet type, never Unknown |
| RustUsb.PayloadBytes | src/hardware/message/usb.rs:91-115 | the payload bytes have the variant's size |
| RustUsb.Encoding | src/hardware/message/usb.rs:91-115 | a packet serialises to type, length and payload bytes |
| RustUsb.Serialize | src/hardware/message/usb.rs:91-115 | the push loop builds exactly `Encoding` |
| RustUsb.PushRFControl | src/hardware/message/usb.rs:100-108 | the RFControl pushes append exactly its 10 bytes |
| RustUsb.TypeOfCode | src/hardware/message/usb.rs:59-78 | codes 1 to 3 name a type and decoding a type's code gives it back |
| RustUsb.Fields | src/hardware/message/usb.rs:59-78 | the fields read at type t's fixed offsets form a payload of type t |
| RustUsb.ParsePayload | src/hardware/message/usb.rs:59-78 | an invalid type exactly when the code is not 1 to 3; out of bounds exactly when the payload is too short for the type |
| RustUsb.Parse | src/hardware/message/usb.rs:46-85 | fewer than 3 bytes is too short; a mismatch, including a negative length as `i8`, is a length mismatch; a bad code is an invalid type |
| RustUsb.FieldsOfBytes | src/hardware/message/usb.rs:59-78 | each variant's bytes parse back to it |
| RustUsb.ParseEncoding | src/hardware/message/usb.rs:46-115 | a packet whose length field matches its payload parses back from its serialisation |
| RustUsb.BytesOfFields | src/hardware/message/usb.rs:59-115 | a parsed payload re-serialises to its bytes |
| RustUsb.ParsedFields | src/hardware/message/usb.rs:46-85 | a successful parse's payload is what the payload parser gives |
| RustUsb.HeaderBytes | src/hardware/message/usb.rs:51-53 | the two header bytes read back as type and length |
| RustUsb.EncodingOfParse | src/hardware/message/usb.rs:46-115 | a packet the parser accepts re-serialises to the input |
| RustUsb.ShortestPacket | src/hardware/message/usb.rs:46-85 | `03 01 m` parses as MACMode(m); `03 02 m` is a length mismatch; `01 01 m` slices out of bounds |
| Queries.ServerFlag | src/hardware/com_process/message.rs:14-31 | a server flag has direction 1, variable_len 0 and type `t & 0x3F` |
| Queries.ServerFlagValues | src/hardware/com_process/wrench.rs:564-599 | the flags for GetInfo, SetJoint, GetJointData and ClearJointData are 25, 29, 37 and 41 |
| Queries.GetInfoPacket | src/hardware/com_process/message.rs:14-50 | a GetInfo query has sequence 0, one payload byte and a server flag of the GetInfo type |
| Queries.QuerySerial | src/hardware/com_process/message.rs:14-31 | the serial query has flag 25 and only the serial bit set |
| Queries.QueryEnergy | src/hardware/com_process/message.rs:33-50 | the energy query has flag 25 and only the energy bit set |
| Queries.QueriesOnWire | src/hardware/com_process/message.rs:14-50 | both queries parse back from their serialisation |
| RustText.DigitValue | src/hardware/com_process/wrench.rs:352-371 | a decimal digit's value is below 10 |
| RustText.HexDigitValue | src/hardware/com_process/redis.rs:41 | a hexadecimal digit's value is below 16 |
| RustText.Unsign | src/hardware/com_process/wrench.rs:626 | only a signed parse strips a leading minus |
| RustText.Apply | src/hardware/com_process/wrench.rs:626 | the sign is applied to the magnitude |
| RustText.ParseI32 | src/hardware/com_process/wrench.rs:626 | `parse::<i32>` succeeds exactly on an optional sign and one or more digits whose signed value fits i32, and gives that value |
| RustText.ParseUnsigned | src/hardware/com_process/wrench.rs:352-371 | an unsigned `parse` succeeds exactly on an optional `+` and one or more digits at most the maximum, gives their value, and refuses a leading minus |
| RustText.ParseHexU128 | src/hardware/com_process/redis.rs:41 | `from_str_radix(16)` succeeds exactly on an optional leading `+` followed by one or more hexadecimal digits whose value fits u128, and gives that value |
| RustText.DigitChar | src/hardware/com_process/wrench.rs:352-371 | the digit character for d has value d |
| RustText.HexDigitChar | src/hardware/com_process/redis.rs:41 | the hexadecimal character for d has value d |
| RustText.Decimal | src/hardware/com_process/wrench.rs:352-371 | the decimal text is non-empty digits with no leading zero |
| RustText.Hex | src/hardware/com_process/redis.rs:41 | the hexadecimal text is non-empty hex digits with no leading zero |
| RustText.DecimalValue | src/hardware/com_process/wrench.rs:352-371 | the digits of n read back as n |
| RustText.HexValue | src/hardware/com_process/redis.rs:41 | the hex digits of n read back as n |
| RustText.ParseDecimal | src/hardware/com_process/wrench.rs:352-371 | an unsigned parse reads n's digits, with or without `+`, as n |
| RustText.ParseSignedDecimal | src/hardware/com_process/wrench.rs:626 | `parse::<i32>` reads every i32's decimal text back |
| RustText.ParseHex | src/hardware/com_process/redis.rs:41 | the hex parse reads every u128's hex text back |
| RustText.Refused | src/hardware/com_process/wrench.rs:626 | empty text and a bare sign are refused, unsigned parses refuse `-1`, and 2^31 parses only with a minus |
| Scale.Piece | src/hardware/com_process/wrench.rs:625 | a piece of `split('.')` is a prefix without `.`, followed by `.` if shorter than the text |
| Scale.FracText | src/hardware/com_process/wrench.rs:630 | the decimal side contains no `.` |
| Scale.Lead | src/hardware/com_process/wrench.rs:637-642 | the next digit's value is below 10, a non-digit counting as 0 |
| Scale.Rest | src/hardware/com_process/wrench.rs:643 | dropping the first character shortens the decimal side unless it is empty |
| Scale.ScaleUpValue | src/hardware/com_process/wrench.rs:624-646 | `scale_up` fails exactly when the integer side does not parse as i32 |
| Scale.ScaledStep | src/hardware/com_process/wrench.rs:631-644 | one more round multiplies by ten and adds the next decimal digit |
| Scale.RoundStep | src/hardware/com_process/wrench.rs:633-642 | wrapping each i32 operation gives the wrapped exact result |
| Scale.ScaleUp | src/hardware/com_process/wrench.rs:624-646 | the loop computes exactly `ScaleUpValue` |
| Scale.FracDigits | src/hardware/com_process/wrench.rs:631-644 | k rounds read the first k decimal digits, padding with zeros past the end |
| Scale.ScaleUpDigits | src/hardware/com_process/wrench.rs:624-646 | the result is the i32 wrap of the integer times 10^k plus the first k decimal digits scaled to k places |
| Scale.PositiveExamples | src/hardware/com_process/wrench.rs:624-646 | `"12.5"` at 3 is 12500; `"7"` at 1 is 70 |
| Scale.NegativeExamples | src/hardware/com_process/wrench.rs:624-646 | the digits are added to a negative integer side: `"-1.5"` at 1 is -5 and `"-0.5"` at 1 is 5 |
| Scale.OddExamples | src/hardware/com_process/wrench.rs:624-646 | a third piece is ignored (`"1.2.3"` at 2 is 120); a non-numeric or empty integer side fails |
| JointSort.Insert | src/hardware/com_process/wrench.rs:139 | insertion adds exactly one record |
| JointSort.InsertSorted | src/hardware/com_process/wrench.rs:139 | inserting into a sorted list keeps it sorted by joint id |
| JointSort.SortById | src/hardware/com_process/wrench.rs:139 | `sort_by_key(joint_id)` gives a list sorted by joint id with the same records |
| JointSort.InsertWithId | src/hardware/com_process/wrench.rs:139 | an inserted record goes before the records already there with the same id, and the others with that id keep their order |
| JointSort.SortStable | src/hardware/com_process/wrench.rs:139 | the sort is stable: records with equal ids keep their order |
| Tasks.AssertOkWithin | src/hardware/com_process/wrench.rs:612-622 | a result passes exactly when its torque (mode 0), its angle (mode 1) or both (other modes) lie in the saturating tolerance ranges |
| Tasks.SetpointPasses | src/hardware/com_process/wrench.rs:612-622 | a result exactly at the setpoints passes when the tolerances are not negative |
| Tasks.AssertOkModes | src/hardware/com_process/wrench.rs:612-622 | mode 0 ignores the angle, mode 1 ignores the torque, and other modes need both |
| Tasks.PassedCount | src/hardware/com_process/wrench.rs:207-223 | the passed count is at most the number of results |
| Tasks.PassedCountAppend | src/hardware/com_process/wrench.rs:207-223 | a new result adds one to the count exactly when it passes |
| Tasks.PassedCountAll | src/hardware/com_process/wrench.rs:207-223 | every result passed exactly when the count equals the number of results |
| Tasks.TorquesOfFields | src/hardware/com_process/wrench.rs:324-351 | the torque fields parse exactly when each scales, and hold the scaled values |
| Tasks.AnglesOfFields | src/hardware/com_process/wrench.rs:324-351 | the angle fields parse exactly when each scales, and hold the values cast to i16 |
| Tasks.CountsOfFields | src/hardware/com_process/wrench.rs:352-371 | the counts parse exactly when each fits its width, and hold the parsed values |
| Tasks.Build | src/hardware/com_process/wrench.rs:323-396 | the loop yields at most one task per request |
| Tasks.BuildNumbers | src/hardware/com_process/wrench.rs:373-395 | the i-th built task is numbered `(last + i + 1) mod 2^16`, has no results and carries the message id |
| Tasks.BuildAll | src/hardware/com_process/wrench.rs:323-396 | all requests become tasks exactly when all parse, each with its request's fields |
| Tasks.BuildDrops | src/hardware/com_process/wrench.rs:323-396 | a request that does not parse leaves fewer tasks than requests |
| Tasks.LastTaskId | src/hardware/com_process/wrench.rs:301-318 | the last task number is the largest of the last finished, the current and the last queued task's, or 0 |
| Tasks.Retain | src/hardware/com_process/wrench.rs:275-277 | `retain` keeps exactly the tasks with a different Redis task id |
| Tasks.RetainConcat | src/hardware/com_process/wrench.rs:275-277 | retaining distributes over concatenation, so it keeps order |
| Tasks.RetainNone | src/hardware/com_process/wrench.rs:275-277 | with no task of that id the queue is unchanged |
| WrenchSpec.New | src/hardware/com_process/wrench.rs:85-104 | a new wrench is connected, consistent, with no tasks, no joints and send id 0 |
| WrenchSpec.ClearPacketShape | src/hardware/com_process/wrench.rs:408-431 | the clear packet has flag 41 and sequence 0 and declares no payload, so it serialises to a bare header the parser calls too short |
| WrenchSpec.TaskPacketShape | src/hardware/com_process/wrench.rs:564-599 | the task packet has flag 29 and 33 bytes; it carries the task number and setpoints, fdt and fda -1, the bolt count cut to 16 bits, and the masked mode fields; it takes the next sequence id and parses back |
| WrenchSpec.PollPacketShape | src/hardware/com_process/wrench.rs:478-501 | the poll has flag 37 and asks for one record from the given index; its sequence id saturates at 65535 |
| WrenchSpec.Invalidated | src/hardware/com_process/wrench.rs:419-426 | clearing keeps every result and sets its joint id to -1 |
| WrenchSpec.ClearTaskEffect | src/hardware/com_process/wrench.rs:408-431 | clear_task zeroes the send id and joint count, invalidates the current results when working, changes nothing else and sends the clear packet |
| WrenchSpec.ClearTaskConsistent | src/hardware/com_process/wrench.rs:408-431 | clear_task keeps the wrench consistent |
| WrenchSpec.AbsorbAppends | src/hardware/com_process/wrench.rs:145-228 | taking in records only appends to the task's results and counts each appended one |
| WrenchSpec.AbsorbDistinct | src/hardware/com_process/wrench.rs:184-187 | the duplicate check keeps the results' joint ids distinct |
| WrenchSpec.AbsorbIds | src/hardware/com_process/wrench.rs:140-187 | the results' ids become the old ids plus the ids of the records for this task |
| WrenchSpec.AbsorbOrigin | src/hardware/com_process/wrench.rs:161-182 | every appended result comes from a record of the current task; records of other tasks are not appended |
| WrenchSpec.AbsorbReports | src/hardware/com_process/wrench.rs:207-223 | each report names the task and carries its result and pass count |
| WrenchSpec.InlineEffect | src/hardware/com_process/wrench.rs:130-238 | joint data is ignored unless working; otherwise the results are extended by exactly the new ids of the current task's records, one report per appended result, nothing else changing |
| WrenchSpec.InlineReports | src/hardware/com_process/wrench.rs:207-223 | the k-th report is on the k-th appended result |
| WrenchSpec.ComUpdateEffect | src/hardware/com_process/wrench.rs:106-128 | the online time grows by the whole seconds since the last packet, saturating; the receive time becomes now; only InfoEnergy changes the voltage; only joint data touches the task |
| WrenchSpec.AppendPrepFacts | src/hardware/com_process/wrench.rs:297-299 | an idle wrench with no finished task is cleared first; the last task number is not affected |
| WrenchSpec.AppendTaskEffect | src/hardware/com_process/wrench.rs:279-406 | append_task keeps the invariant and replies whether the tasks were queued, which is exactly when the list is non-empty and every request parses; it changes only the queue and what the clear resets |
| WrenchSpec.AppendTaskQueued | src/hardware/com_process/wrench.rs:398-403 | when every request parses, the queue gains one task per request, in order, after the old queue |
| WrenchSpec.CancelEffect | src/hardware/com_process/redis.rs:71-82 | cancelling drops every queued task with that id; a current task with that id is cleared and dropped and the wrench becomes connected |
| WrenchSpec.RedisUpdateConsistent | src/hardware/com_process/wrench.rs:240-273 | every Redis request keeps the invariant; a connection check answers whether the wrench is not disconnected |
| WrenchSpec.TimeoutFacts | src/hardware/com_process/wrench.rs:457-463 | more than 20000 ms of silence marks the wrench disconnected and reports a timeout; otherwise nothing changes |
| WrenchSpec.ReportFacts | src/hardware/com_process/wrench.rs:465-476 | after 120000 ms a status report and an energy query go out and the report clock restarts |
| WrenchSpec.PollFacts | src/hardware/com_process/wrench.rs:478-501 | after 5000 ms a poll for the next result goes out, the send id steps and the send clock restarts |
| WrenchSpec.FinishFacts | src/hardware/com_process/wrench.rs:503-525 | a task whose passed results reach its bolt count moves to the finished tasks and the wrench becomes connected |
| WrenchSpec.StartFacts | src/hardware/com_process/wrench.rs:527-533 | a connected wrench with queued tasks starts the first one and sends it |
| WrenchSpec.EarlyPhases | src/hardware/com_process/wrench.rs:457-501 | the first three phases move no task |
| WrenchSpec.IntervalKeeps | src/hardware/com_process/wrench.rs:433-534 | interval_update keeps the invariant and only moves tasks from queued to current to finished, losing or adding none |
| WrenchSpec.IntervalDisconnected | src/hardware/com_process/wrench.rs:438-455 | a disconnected wrench heard from in the last 5000 ms is reconnected and Redis told; otherwise nothing changes |
| WrenchSpec.IntervalTimeout | src/hardware/com_process/wrench.rs:457-525 | a timeout is reported exactly when due, and marks the wrench disconnected unless its task completes in the same tick |
| WrenchSpec.IntervalReportPoll | src/hardware/com_process/wrench.rs:465-501 | the report and the poll go out exactly when due, and bump their clocks |
| WrenchSpec.IntervalStarts | src/hardware/com_process/wrench.rs:503-533 | with no task in progress the first queued task becomes current, and the tick's last packet hands it over |
| WrenchSpec.MacReconnectEffect | src/hardware/com_process/wrench.rs:536-562 | a wrench at a new address is rebound; a disconnected one with a task has it cleared and sent again, and Redis is told |
| Wrench.WrenchContext.constructor | src/hardware/com_process/wrench.rs:85-104 | the new wrench's state is `New` and consistent |
| Wrench.WrenchContext.ComUpdate | src/hardware/com_process/wrench.rs:106-128 | the state and the messages are those of `ComUpdateStep` |
| Wrench.WrenchContext.SeenInFinished | src/hardware/com_process/wrench.rs:161-182 | the search answers whether a finished task has that number |
| Wrench.WrenchContext.AbsorbRecord | src/hardware/com_process/wrench.rs:145-228 | one loop iteration is `AbsorbOne`, and the joint id set stays the set of the results' ids |
| Wrench.WrenchContext.ProcessInlineJointData | src/hardware/com_process/wrench.rs:130-238 | the state and the reports are those of `InlineStep` |
| Wrench.WrenchContext.ClearTask | src/hardware/com_process/wrench.rs:408-431 | the state and the packet are those of `ClearTaskStep` |
| Wrench.WrenchContext.SendTask | src/hardware/com_process/wrench.rs:564-599 | one task packet goes out exactly when there is a current task |
| Wrench.WrenchContext.ParseTorques | src/hardware/com_process/wrench.rs:324-351 | the torque parse is `TorquesOf` |
| Wrench.WrenchContext.ParseAngles | src/hardware/com_process/wrench.rs:324-351 | the angle parse is `AnglesOf` |
| Wrench.WrenchContext.ParseRequest | src/hardware/com_process/wrench.rs:324-371 | the request parse is `ParseTask` |
| Wrench.WrenchContext.CollectTasks | src/hardware/com_process/wrench.rs:323-396 | the loop gives `Build`'s tasks and last number |
| Wrench.WrenchContext.AppendTask | src/hardware/com_process/wrench.rs:279-406 | the state, packets and reply are those of `AppendTaskStep` |
| Wrench.WrenchContext.RetainTask | src/hardware/com_process/wrench.rs:275-277 | only the queue changes, to `Retain` of it |
| Wrench.WrenchContext.RedisUpdate | src/hardware/com_process/wrench.rs:240-273 | the state and the messages are those of `RedisUpdateStep` |
| Wrench.WrenchContext.TimeoutCheck | src/hardware/com_process/wrench.rs:457-463 | the timeout phase, as `TimeoutPhase` |
| Wrench.WrenchContext.ReportCheck | src/hardware/com_process/wrench.rs:465-476 | the report phase, as `ReportPhase` |
| Wrench.WrenchContext.PollCheck | src/hardware/com_process/wrench.rs:478-501 | the poll phase, as `PollPhase` |
| Wrench.WrenchContext.FinishCheck | src/hardware/com_process/wrench.rs:503-525 | the finish phase, as `FinishPhase` |
| Wrench.WrenchContext.StartCheck | src/hardware/com_process/wrench.rs:527-533 | the start phase, as `StartPhase` |
| Wrench.WrenchContext.IntervalUpdate | src/hardware/com_process/wrench.rs:433-534 | the state and the messages are those of `IntervalStep` |
| Wrench.WrenchContext.MacReconnect | src/hardware/com_process/wrench.rs:536-562 | the state and the messages are those of `MacReconnectStep` |
| RegistrySpec.Empty | src/hardware/com_process/mod.rs:216-221 | the empty registry is indexed and holds no wrench |
| RegistrySpec.Put | src/hardware/com_process/message.rs:89-95 | replacing one wrench keeps the others and both maps |
| RegistrySpec.PutIndexed | src/hardware/com_process/message.rs:89-95 | replacing a wrench by a consistent one with the same serial keeps the registry indexed |
| RegistrySpec.SerialsDistinct | src/hardware/com_process/message.rs:82-88 | registered wrenches have distinct serials |
| RegistrySpec.MacMatchesBound | src/hardware/com_process/message.rs:52-69 | an address matches a wrench exactly when it is bound in the address map |
| RegistrySpec.VerifyStep | src/hardware/com_process/message.rs:52-69 | updating a known wrench sends it nothing and keeps the number of wrenches |
| RegistrySpec.Register | src/hardware/com_process/message.rs:82-88 | registering appends a new wrench and points both maps at it |
| RegistrySpec.RegisterIndexed | src/hardware/com_process/message.rs:82-88 | registering a new non-zero serial keeps the registry indexed |
| RegistrySpec.MacReconnectSerial | src/hardware/com_process/wrench.rs:536-562 | reconnecting keeps the wrench's serial |
| RegistrySpec.ReconnectIndexed | src/hardware/com_process/message.rs:89-95 | rebinding an address to a reconnected wrench keeps the registry indexed |
| RegistrySpec.UpdateIndexed | src/hardware/com_process/message.rs:52-69 | updating a known wrench keeps the registry indexed |
| RegistrySpec.ComMessageIndexed | src/hardware/com_process/message.rs:71-102 | handling any packet keeps the registry indexed |
| RegistrySpec.ComReportEffect | src/hardware/com_process/message.rs:77-95 | serial 0 is ignored; a new serial registers a wrench and queries its energy; a known one rebinds the address, reconnects the wrench alone and ends with an energy query |
| RegistrySpec.ComPacketEffect | src/hardware/com_process/message.rs:96-99 | a packet from a bound address updates that wrench alone; from an unbound one it changes nothing and queries the serial |
| RegistrySpec.ParseSerial | src/hardware/com_process/redis.rs:41 | the serial is the hexadecimal parse, or 0 when it fails |
| RegistrySpec.FirstUnknown | src/hardware/com_process/redis.rs:40-57 | the first request whose serial is not registered, or the length when all are |
| RegistrySpec.FirstUnknownIs | src/hardware/com_process/redis.rs:40-57 | any index with all known before it and an unknown at it is the first unknown |
| RegistrySpec.FirstUnknownNext | src/hardware/com_process/redis.rs:40-57 | one loop step either moves past a known serial or stops at the unknown one |
| RegistrySpec.Group | src/hardware/com_process/redis.rs:40-57 | a wrench's group is at most all the requests |
| RegistrySpec.Serials | src/hardware/com_process/redis.rs:40-57 | the grouped serials have no duplicates |
| RegistrySpec.GroupMembers | src/hardware/com_process/redis.rs:40-57 | a group holds exactly the requests for that serial |
| RegistrySpec.SerialsMembers | src/hardware/com_process/redis.rs:40-57 | the serials are exactly those some request names |
| RegistrySpec.GroupEmpty | src/hardware/com_process/redis.rs:40-57 | a serial no request names has an empty group |
| RegistrySpec.GroupMapIs | src/hardware/com_process/redis.rs:40-57 | the map built by the loop has exactly the named serials as keys, each mapped to its group |
| RegistrySpec.GroupMapAt | src/hardware/com_process/redis.rs:40-57 | at each serial of the first-mention order, the map built by the loop holds that serial's group |
| RegistrySpec.GroupMapNext | src/hardware/com_process/redis.rs:40-57 | one loop step appends the request to its serial's entry |
| RegistrySpec.SerialsKnown | src/hardware/com_process/redis.rs:40-57 | when no request is unknown, every grouped serial is registered |
| RegistrySpec.SerialsGrouped | src/hardware/com_process/redis.rs:40-57 | every grouped serial has a non-empty group |
| RegistrySpec.Dispatch | src/hardware/com_process/redis.rs:59-69 | dispatching keeps both maps and the number of wrenches |
| RegistrySpec.DispatchLast | src/hardware/com_process/redis.rs:59-69 | dispatching to one more serial runs append_task on that wrench after the others |
| RegistrySpec.DispatchNext | src/hardware/com_process/redis.rs:59-69 | each dispatch step runs append_task on the serial's wrench |
| RegistrySpec.RedisUpdateSerial | src/hardware/com_process/wrench.rs:240-273 | a Redis request never changes a wrench's serial |
| RegistrySpec.DispatchIndexed | src/hardware/com_process/redis.rs:59-69 | dispatching keeps the registry indexed |
| RegistrySpec.RedisIndexed | src/hardware/com_process/redis.rs:28-86 | every Redis request keeps the registry indexed |
| RegistrySpec.SendTaskReply | src/hardware/com_process/wrench.rs:279-406 | a wrench's reply states whether its whole group parsed, and it only sends clear packets |
| RegistrySpec.DispatchWrenches | src/hardware/com_process/redis.rs:59-69 | each named wrench gets append_task of its group, and every other wrench is unchanged |
| RegistrySpec.Replies | src/hardware/com_process/redis.rs:59-69 | there is one reply per dispatched serial |
| RegistrySpec.RepliesAt | src/hardware/com_process/redis.rs:59-69 | the k-th reply names the k-th serial and whether its group parsed |
| RegistrySpec.DispatchReplies | src/hardware/com_process/redis.rs:59-69 | dispatch sends exactly those replies, and only clear packets go to the wrenches |
| RegistrySpec.UnparsedRefused | src/hardware/com_process/redis.rs:41-57 | a serial that is not hexadecimal reads as 0, which is never registered, so the list is refused |
| RegistrySpec.RefusalIs | src/hardware/com_process/redis.rs:40-57 | the refusal names the first unknown serial with status false |
| RegistrySpec.SendTaskRefused | src/hardware/com_process/redis.rs:40-57 | a refused list changes nothing and sends only the refusal |
| RegistrySpec.SendTaskEmpty | src/hardware/com_process/redis.rs:38-70 | an empty task list changes nothing and sends nothing |
| RegistrySpec.SendTaskAccepted | src/hardware/com_process/redis.rs:38-70 | when every serial is registered, each named wrench runs append_task on its group, the others are unchanged, and one reply per serial goes out |
| RegistrySpec.CancelRouted | src/hardware/com_process/redis.rs:71-82 | a cancel reaches only the wrench with the parsed serial; an unknown serial changes nothing |
| RegistrySpec.ConnectReplyStatus | src/hardware/com_process/redis.rs:7-26 | the check answers true exactly when a wrench with that serial is registered and not disconnected, echoing the request |
| RegistrySpec.BindQueued | src/hardware/com_process/redis.rs:34-36 | a bind request is queued and nothing else changes |
| Registry.ComProcess.Models | src/hardware/com_process/mod.rs:216-221 | the registry's value lists each wrench's state in order |
| Registry.ComProcess.Distinct | src/hardware/com_process/mod.rs:216-221 | the registry's wrench objects are distinct, so updating one leaves the others alone |
| Registry.ComProcess.constructor | src/hardware/com_process/mod.rs:216-221 | a new registry is valid and empty |
| Registry.ComProcess.VerifyMacSerial | src/hardware/com_process/message.rs:52-69 | succeeds exactly when the address is bound, then updates that wrench as `VerifyStep` does; otherwise changes nothing |
| Registry.ComProcess.Register | src/hardware/com_process/message.rs:82-88 | the registry becomes `Register` of the old one |
| Registry.ComProcess.Reconnect | src/hardware/com_process/message.rs:89-95 | the wrench is reconnected as `MacReconnectStep`, and the address rebound |
| Registry.ComProcess.ProcessComMessage | src/hardware/com_process/message.rs:71-102 | the registry and messages are those of `ComMessageStep` |
| Registry.ComProcess.CheckConnect | src/hardware/com_process/redis.rs:7-26 | the reply is `ConnectReply` |
| Registry.ComProcess.CollectTasks | src/hardware/com_process/redis.rs:40-57 | the loop stops at the first unknown serial and otherwise gives the serials and the group map |
| Registry.ComProcess.Forward | src/hardware/com_process/redis.rs:59-69 | one wrench runs `RedisUpdateStep` and the others are unchanged |
| Registry.ComProcess.DispatchTasks | src/hardware/com_process/redis.rs:59-69 | the registry and messages are those of `Dispatch` |
| Registry.ComProcess.SendTasks | src/hardware/com_process/redis.rs:38-70 | the registry and messages are those of the SendTask step |
| Registry.ComProcess.CancelTask | src/hardware/com_process/redis.rs:71-82 | the registry and messages are those of the TaskCancel step |
| Registry.ComProcess.ProcessMessageFromRedis | src/hardware/com_process/redis.rs:28-86 | the registry and messages are those of `RedisStep` |
| LegacyCom.QuerySerialSame | src/hardware/message/com.rs:11-25 | the legacy serial query is the same packet as the registry's |
| LegacyCom.Merge | src/hardware/message/com.rs:98-107 | merging keeps the old records and adds at most the new ones |
| LegacyCom.MergeExtends | src/hardware/message/com.rs:98-107 | the old records stay first and every added one comes from the message |
| LegacyCom.MergeIds | src/hardware/message/com.rs:98-107 | the merged ids are exactly the old ids and the message's ids |
| LegacyCom.MergeDistinct | src/hardware/message/com.rs:98-107 | merging keeps the stored joint ids distinct |
| LegacyCom.ComStepJoints | src/hardware/message/com.rs:98-107 | joint data merges into the sender's stored records |
| LegacyCom.ComStepDeduplicated | src/hardware/message/com.rs:98-107 | the stored records stay free of duplicate ids |
| LegacyCom.ComStepEffect | src/hardware/message/com.rs:27-111 | it records the heartbeat; InfoSerial binds both maps; an unknown address is queried and marked; InfoGeneric stores the joint count; joint data is stored without duplicates |
| LegacyCom.ComProcessData.constructor | src/hardware/com_process/mod.rs:223-237 | the maps start empty, so the stored records have no duplicates |
| LegacyCom.ComProcessData.AnyWithId | src/hardware/message/com.rs:98-107 | the search answers whether a stored record has that id |
| LegacyCom.ComProcessData.MergeRecords | src/hardware/message/com.rs:98-107 | the loop computes `Merge` |
| LegacyCom.ComProcessData.ProcessComMessage | src/hardware/message/com.rs:27-111 | the maps and the sent packets are those of `ComStep` |

## Left out

- WrcPacket.Packet.FromEncoded: requires that the decoded frame fits the struct. Without that, the source's `memmove` writes past the struct, which has no defined result to model.
- UsbPacket.Packet.FromEncoded: requires that the decoded frame fits the struct, for the same reason.
- PacketStorage.Load: carries the same fit requirement.
- Tasks.Build: the `u16` task number increment wraps modulo 2^16. This is release-build behaviour; a debug build panics on overflow.
- WrenchSpec.AbsorbOne: `total_joints += 1` on the `u16` field (src/hardware/com_process/wrench.rs, declared at line 77, incremented at lines 179 and 228) wraps modulo 2^16 through `WrapAddU16`, and so does `Wrench.WrenchContext.AbsorbRecord`. This is release-build behaviour; a debug build panics on overflow.
- RustWrc.ParsePayload: a payload too short for its type code gives `Err(OutOfBounds)`. The source's fixed-offset slice panics there and ends the port reader thread; the panic is not modelled.
- RustWrc.Parse: passes that `Err(OutOfBounds)` on where the source panics.
- RustUsb.ParsePayload: a payload too short for its type code gives `Err(OutOfBounds)`. The source's index `payload[0]` panics there and ends the port reader thread; the panic is not modelled.
- RustUsb.Parse: passes that `Err(OutOfBounds)` on where the source panics.
- WrcPacket.Packet.GetPayload: returns the payload as a value. The source's `get_payload()` returns a mutable reference that callers may write through; that aliasing is not modelled.
- Scale.ScaleUp: `int_side *= 10` and `+=` wrap as `i32`. This is release-build behaviour; a debug build panics on overflow.
- RegistrySpec.Dispatch: the registry visits its task groups in first-mention order. The source iterates a `HashMap`, whose order is unspecified.
- Registry.ComProcess.DispatchTasks: same order as `RegistrySpec.Dispatch`.
- Setter values too wide for the `bitfield` crate's field: the setters here mask them. The crate's own behaviour for such values is not part of this model.
- `malloc` failure in the C and C++ codecs: not modelled, because allocation always succeeds here.
- The serial port, threads and channels: not modelled, because they are I/O. Channel sends become returned sequences.
- The Redis reader and writer, and the main loops in `src/hardware/com_process/mod.rs` and `src/hardware/com_process.rs`: not modelled, because they are I/O.
- `BigFloat` text handling and `scale_down` formatting: not modelled, because they are floating-point text formatting. Raw torque and angle are kept.
- `Instant` and `chrono` clocks: not modelled, because they are system clocks. They become the inputs `now` and `wall`.
- Logging: not modelled, because it has no effect on state.
- `ComProcessData` maps that `process_com_message` never touches: not modelled, because no modelled operation reads them. These are `connection_pending`, `serial_to_name`, `name_to_serial`, `mac_to_tasks`, `mac_to_query_timestamp` and `mac_to_task_id_map`.
- The USB packet's union type is named `USBLocal_Payload`, which no header defines. The model takes it as the union of the three payload structs (10 bytes), as `includes/hardware/usb/packet.h` declares them.
- The alternative frame markers in `includes/hardware/sm7bit/type.h`: not modelled, because no codec uses them.
- The `ComProcess` struct is reconstructed from the fields that `message.rs` and `redis.rs` use.
