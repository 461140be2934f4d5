# LoRa level-2 frame codec, modelled in Dafny

This project models the link-layer protocol class `LoRaLevel2Protocol` of a
MicroPython LoRa node. A node has a 16-bit device id and an 8-bit sequence
counter. The node wraps a payload of at most 255 bytes into a frame with this layout:

    [0xAA][source id:2][destination id:2][sequence:1][length:1][payload][check:2][0x55]

Multi-byte fields are big-endian. The node also validates and parses received
frames, and it can return a retransmission configuration record.

Files:

- `wrappers.dfy`: `Option` (Python's `None`-or-value return) and `Result` (the raised `ValueError`).
- `bytes.dfy`: the `byte` and `uint16` types and big-endian `'>H'` packing and unpacking.
- `lora_l2.dfy`: the constants, the frame encoder `EncodeFrame`, the parser `ParseFrame`, `RetransmitStrategy`, and the class `Protocol`. The class holds `deviceId` and `sequenceNumber`. Its method `CreateFrame` advances the counter and builds the frame step by step.
- `lora_l2_properties.dfy`: the round trip, the counter's wrap-around, and what the check value does and does not protect.

The check value is modelled as a function `CheckFn` of the covered bytes, which run from the source id through the payload (`[1:-3]` of the frame). The encoder and the parser take this function as a parameter. The protocol itself computes the constant 1 (loraL2.py:60 and loraL2.py:101). This is `SourceCheck`, and `Protocol.CreateFrame` uses it. The round trip is proved for every check function, so it also holds for the constant.

What the parser and the check value actually do, as the model states it:

- The class docstring promises "error detection" (loraL2.py:10-11). The frame layout comment names the check field CRC16 (loraL2.py:44), and the code comments say "Calculate CRC16 for error detection" (loraL2.py:59) and "Verify CRC" (loraL2.py:98). But the code embeds and compares the constant 1 (loraL2.py:60, loraL2.py:101), so a change to the ids, sequence number, length byte or payload (bytes [1:-3]) is never detected; only damage to the delimiters or to the two check bytes is (`SourceCheckIgnoresCoveredBytes`). `AlteredPayloadDetectedIff` shows that a changed payload is caught exactly when the check function tells the covered bytes apart. `SourceCheckMissesBitFlip` exhibits a one-bit change that is delivered as if valid.
- The parser never compares the length byte with the buffer. It clips the payload slice at the end of the buffer, and the clipped slice can include the check bytes and the footer (`OverlongLengthAccepted`).
- A proper prefix of a valid frame can be accepted when the payload happens to contain the bytes 0x00 0x01 0x55 (`TruncatedFrameAccepted`).
- `retransmit_strategy` is described as a "Basic retransmission strategy for reliable transmission" (loraL2.py:118). It only returns its two arguments in a record, and nothing consults that record, so the model has no retry loop.

## Model

| member | source | states |
|---|---|---|
| `Bytes.PackBE16` | loraL2.py:49-50 | packs a 16-bit id into two bytes, most significant first, whose big-endian value is the id |
| `Bytes.UnpackBE16` | loraL2.py:86-87 | reads two bytes as a big-endian word: the high byte is the quotient by 256 and the low byte the remainder |
| `Bytes.UnpackPack` | loraL2.py:49-50 | unpacking a packed id gives the id back |
| `Bytes.PackUnpack` | loraL2.py:86-87 | every two-byte string is the packing of the word read from it |
| `LoRaL2.SourceCheck` | loraL2.py:59-61 | the check value the protocol computes is 1 whatever bytes it covers, so every frame carries the check bytes 0x00 0x01; the parser compares against the same constant (loraL2.py:99-101) |
| `LoRaL2.NextSeq` | loraL2.py:41 | the next sequence number is one more than the current one, except that 255 wraps to 0 |
| `LoRaL2.ChooseDeviceId` | loraL2.py:25 | a given non-zero id is kept; a missing id or the falsy id 0 falls back to the injected random value |
| `LoRaL2.Protocol.constructor` | loraL2.py:19-26 | a new endpoint's id is chosen as `ChooseDeviceId` says, and its sequence number starts at 0 |
| `LoRaL2.EncodeFrame` | loraL2.py:43-66 | frame length is payload length + 10; byte 0 is 0xAA and the last byte is 0x55; bytes 1-2 and 3-4 are the ids big-endian; byte 5 is the sequence number and byte 6 the payload length; the payload follows; the two bytes before the footer are the check of bytes [1:-3] |
| `LoRaL2.Protocol.CreateFrame` | loraL2.py:28-66 | a payload over 255 bytes fails with `PayloadTooLarge` and leaves the counter unchanged; otherwise the counter becomes (old + 1) mod 256 and the result is the encoded frame with the node's id, the destination, the new counter and the constant check value; the device id never changes |
| `LoRaL2.ParseFrame` | loraL2.py:68-114 | returns a frame exactly when the buffer has at least 10 bytes, starts with 0xAA, ends with 0x55 and carries the check of bytes [1:-3] at [-3:-1]; then the ids pack back to bytes 1-2 and 3-4, the sequence is byte 5, and the payload is the prefix of bytes [7:] of length min(length byte, buffer - 7) |
| `LoRaL2.RetransmitStrategy` | loraL2.py:116-127 | returns a record holding the two arguments unchanged |
| `LoRaL2.ExampleTransmission` | loraL2.py:190-210 | a frame built by a sender for a receiver's id parses to the sender's id, the receiver's id, the sender's new sequence number and the payload, and the sender's counter advances by one |
| `LoRaL2Properties.AdvanceBy` | loraL2.py:41 | after n successful frames the counter has moved by n modulo 256 |
| `LoRaL2Properties.SequenceWraps` | loraL2.py:41 | 256 more frames bring the counter back to the value it had, so after 256 frames it is back at its starting value |
| `LoRaL2Properties.SequenceNoEarlierRepeat` | loraL2.py:41 | between 1 and 255 frames never bring the counter back to its starting value |
| `LoRaL2Properties.RoundTrip` | loraL2.py:28-111 | for any check function, parsing an encoded frame returns its source id, destination id, sequence number and payload |
| `LoRaL2Properties.ReencodeParsed` | loraL2.py:86-111 | an accepted buffer whose length byte equals its length minus 10 is exactly the encoding of the parsed fields |
| `LoRaL2Properties.OverlongLengthAccepted` | loraL2.py:93-96 | a 10-byte buffer declaring a 5-byte payload is accepted, with the payload clipped to the last three bytes |
| `LoRaL2Properties.TruncatedFrameAccepted` | loraL2.py:76-104 | the first ten bytes of a valid 14-byte frame are accepted as a frame |
| `LoRaL2Properties.AlteredPayloadDetectedIff` | loraL2.py:99-104 | a frame whose payload was replaced is rejected if and only if the check values of the old and new covered bytes differ; if it is accepted, the new payload is delivered |
| `LoRaL2Properties.SourceCheckMissesBitFlip` | loraL2.py:59-61 | with the constant check value, a frame whose payload byte 0x41 became 0x40 parses with payload 0x40 |
| `LoRaL2Properties.SourceCheckIgnoresCoveredBytes` | loraL2.py:76-104 | with the constant check value, two buffers of equal length that agree on the first byte and the last three bytes are either both accepted or both rejected, whatever their ids, sequence number, length byte and payload |
| `LoRaL2Properties.DefaultRetransmitStrategy` | loraL2.py:116 | the defaults are 3 retries and a 2.0 timeout |

## Left out

- `get_modem`, `transmit`, `receive` and `example_transmission`'s printing (loraL2.py:129-218): radio-chip setup over SPI and GPIO, modem I/O and console output. Only the frame exchange of `example_transmission` is modelled, as `ExampleTransmission`.
- display.py: one-shot OLED display setup over I2C, with no protocol logic.
- `random.randint(0, 0xFFFF)` in the constructor: replaced by the parameter `randomId`.
- `timeout` in `RetransmitStrategy`: a Python float, modelled as a `real` that is only stored. No acknowledgement or retry loop exists in the code, so none is modelled.
- Protocol.CreateFrame: ids outside 0..0xFFFF are excluded by the `uint16` type. For such an id the code raises `struct.error` when it packs the id (loraL2.py:49-50), after the counter has already advanced (loraL2.py:41). That path is not modelled.
- ParseFrame: the `except (struct.error, IndexError)` branch is not modelled. It cannot be reached once the buffer has 10 bytes, because every slice and index used then lies inside the buffer.
- Payloads are modelled as byte sequences. Other `bytes`-like or `str` arguments are not modelled.
