/** The level-2 framing protocol of a LoRa node: the frame layout
      [0xAA][source:2][destination:2][sequence:1][length:1][payload][check:2][0x55]
    (multi-byte fields big-endian), the encoder that advances the node's
    8-bit sequence counter, the validating parser and the retransmission
    configuration record. */
module LoRaL2 {
  import opened Wrappers
  import opened Bytes

  /** Start-of-frame delimiter. */
  const FrameHeader: byte := 0xAA
  /** End-of-frame delimiter. */
  const FrameFooter: byte := 0x55
  /** Largest payload a frame carries; its length travels in one byte. */
  const MaxPayloadSize: nat := 255
  /** Header, two identifiers, sequence, length, check value and footer. */
  const MinFrameSize: nat := 10

  /** A check-value function over the covered bytes (source id through payload). */
  type CheckFn = seq<byte> -> uint16

  /** The check value the protocol actually computes: the constant 1,
      whatever the covered bytes are. */
  function SourceCheck(covered: seq<byte>): (c: uint16)
    ensures PackBE16(c) == [0x00, 0x01]
  {
    1
  }

  /** The error `create_frame` raises. */
  datatype FrameError = PayloadTooLarge

  /** The fields `parse_frame` returns for an accepted frame. */
  datatype ParsedFrame = ParsedFrame(sourceId: uint16, destinationId: uint16,
                                     sequenceNumber: byte, payload: seq<byte>)

  /** The retransmission configuration record. `timeout` is kept opaque. */
  datatype RetransmitConfig = RetransmitConfig(maxRetries: int, timeout: real)

  /** The smaller of two ints; clips the payload slice `[7:7+length]` at the
      end of the buffer, as Python slicing does. */
  function Min(a: int, b: int): (m: int)
  {
    if a <= b then a else b
  }

  /** The sequence number after one more frame: wraps from 255 to 0. */
  function NextSeq(s: byte): (r: byte)
    ensures s < 0xFF ==> r == s + 1
    ensures s == 0xFF ==> r == 0
  {
    (s + 1) % 0x100
  }

  /** Python's `device_id or random.randint(0, 0xFFFF)`: a missing id and
      the falsy id 0 both fall back to the injected random value. */
  function ChooseDeviceId(deviceIdArg: Option<uint16>, randomId: uint16): (id: uint16)
    ensures deviceIdArg.Some? && deviceIdArg.value != 0 ==> id == deviceIdArg.value
    ensures deviceIdArg.None? || deviceIdArg.value == 0 ==> id == randomId
  {
    match deviceIdArg
    case Some(v) => if v != 0 then v else randomId
    case None => randomId
  }

  /** The bytes the check value covers, in frame order. */
  function Covered(src: uint16, dst: uint16, seqNum: byte, payload: seq<byte>): (c: seq<byte>)
    requires |payload| <= MaxPayloadSize
  {
    PackBE16(src) + PackBE16(dst) + [seqNum, |payload|] + payload
  }

  /** The frame for the given fields, check value computed by `check`. */
  function EncodeFrame(check: CheckFn, src: uint16, dst: uint16, seqNum: byte, payload: seq<byte>): (f: seq<byte>)
    requires |payload| <= MaxPayloadSize
    ensures |f| == |payload| + MinFrameSize
    ensures f[0] == FrameHeader && f[|f| - 1] == FrameFooter
    ensures f[1..3] == PackBE16(src) && f[3..5] == PackBE16(dst)
    ensures f[5] == seqNum && f[6] == |payload|
    ensures f[7..7 + |payload|] == payload
    ensures f[|f| - 3..|f| - 1] == PackBE16(check(f[1..|f| - 3]))
  {
    var covered := Covered(src, dst, seqNum, payload);
    var f := [FrameHeader] + covered + PackBE16(check(covered)) + [FrameFooter];
    assert covered[6..] == payload;
    assert f[1..|f| - 3] == covered;
    f
  }

  /** `parse_frame`: None for a buffer shorter than a frame, wrong delimiters
      or an embedded check value (bytes [-3:-1]) that differs from `check`
      of bytes [1:-3]; otherwise the fields. The length byte is not compared
      with the buffer: the payload is bytes [7:7+length] cut at the end. */
  function ParseFrame(check: CheckFn, raw: seq<byte>): (r: Option<ParsedFrame>)
    ensures r.Some? <==>
              |raw| >= MinFrameSize && raw[0] == FrameHeader && raw[|raw| - 1] == FrameFooter &&
              PackBE16(check(raw[1..|raw| - 3])) == raw[|raw| - 3..|raw| - 1]
    ensures r.Some? ==>
              PackBE16(r.value.sourceId) == raw[1..3] &&
              PackBE16(r.value.destinationId) == raw[3..5] &&
              r.value.sequenceNumber == raw[5] &&
              |r.value.payload| == Min(raw[6], |raw| - 7) &&
              r.value.payload <= raw[7..]
  {
    if |raw| < MinFrameSize then None
    else if raw[0] != FrameHeader || raw[|raw| - 1] != FrameFooter then None
    else
      var sourceId := UnpackBE16(raw[1..3]);
      var destinationId := UnpackBE16(raw[3..5]);
      var seqNum := raw[5];
      var payloadLen: int := raw[6];
      var payload := raw[7..Min(7 + payloadLen, |raw|)];
      var receivedCheck := UnpackBE16(raw[|raw| - 3..|raw| - 1]);
      PackUnpack(raw[|raw| - 3..|raw| - 1]);
      PackUnpack(raw[1..3]);
      PackUnpack(raw[3..5]);
      if receivedCheck != check(raw[1..|raw| - 3]) then None
      else Some(ParsedFrame(sourceId, destinationId, seqNum, payload))
  }

  /** `retransmit_strategy`: the two arguments returned as a record;
      nothing in the protocol consults it. */
  function RetransmitStrategy(maxRetries: int := 3, timeout: real := 2.0): (c: RetransmitConfig)
    ensures c.maxRetries == maxRetries && c.timeout == timeout
  {
    RetransmitConfig(maxRetries, timeout)
  }

  /** One protocol endpoint: its identity and its wrapping sequence counter. */
  class Protocol {
    var deviceId: uint16
    var sequenceNumber: byte

    /** `randomId` stands for the value `random.randint(0, 0xFFFF)` would draw. */
    constructor (deviceIdArg: Option<uint16>, randomId: uint16)
      ensures deviceId == ChooseDeviceId(deviceIdArg, randomId)
      ensures sequenceNumber == 0
    {
      deviceId := ChooseDeviceId(deviceIdArg, randomId);
      sequenceNumber := 0;
    }

    /** `create_frame`: rejects an oversized payload before touching the
        counter; otherwise advances the counter and builds the frame field
        by field with the new sequence number and the source's check value. */
    method CreateFrame(destinationId: uint16, payload: seq<byte>) returns (r: Result<seq<byte>, FrameError>)
      modifies this`sequenceNumber
      ensures deviceId == old(deviceId)
      ensures |payload| > MaxPayloadSize ==>
                r == Failure(PayloadTooLarge) && sequenceNumber == old(sequenceNumber)
      ensures |payload| <= MaxPayloadSize ==>
                sequenceNumber == NextSeq(old(sequenceNumber)) &&
                r == Success(EncodeFrame(SourceCheck, deviceId, destinationId, sequenceNumber, payload))
    {
      if |payload| > MaxPayloadSize {
        return Failure(PayloadTooLarge);
      }
      sequenceNumber := (sequenceNumber + 1) % 0x100;

      var frame: seq<byte> := [];
      frame := frame + [FrameHeader];
      frame := frame + PackBE16(deviceId);
      frame := frame + PackBE16(destinationId);
      frame := frame + [sequenceNumber];
      frame := frame + [|payload|];
      frame := frame + payload;
      var crc := SourceCheck(frame[1..]);
      frame := frame + PackBE16(crc);
      frame := frame + [FrameFooter];

      r := Success(frame);
      assert frame == [FrameHeader] + Covered(deviceId, destinationId, sequenceNumber, payload)
                      + PackBE16(crc) + [FrameFooter];
    }
  }

  /** The sender/receiver exchange of the demonstration: the sender builds a
      frame for the receiver's id and the receiver parses it unchanged. */
  method ExampleTransmission(sender: Protocol, receiver: Protocol, payload: seq<byte>)
      returns (details: Option<ParsedFrame>)
    requires |payload| <= MaxPayloadSize
    modifies sender`sequenceNumber
    ensures sender.sequenceNumber == NextSeq(old(sender.sequenceNumber))
    ensures details == Some(ParsedFrame(sender.deviceId, old(receiver.deviceId), sender.sequenceNumber, payload))
  {
    var destination := receiver.deviceId;
    var frame := sender.CreateFrame(destination, payload);
    details := ParseFrame(SourceCheck, frame.value);
  }
}
