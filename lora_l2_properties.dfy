/** Properties of the LoRa level-2 codec: the round trip between encoder
    and parser, what the parser accepts, the wrap of the sequence counter,
    and how far the check value protects a frame. */
module LoRaL2Properties {
  import opened Wrappers
  import opened Bytes
  import opened LoRaL2

  /** The sequence number after `n` successful frames starting from `s`. */
  function Advance(s: byte, n: nat): (r: byte)
  {
    if n == 0 then s else NextSeq(Advance(s, n - 1))
  }

  /** Wrapping after each step is the same as wrapping once at the end. */
  lemma ModStep(x: nat)
    ensures (x % 0x100 + 1) % 0x100 == (x + 1) % 0x100
  {
  }

  /** Adding one full turn does not change a value modulo 256. */
  lemma ModShift(x: nat)
    ensures (x + 0x100) % 0x100 == x % 0x100
  {
  }

  /** `n` successful frames move the counter by `n` modulo 256. */
  lemma {:induction false} AdvanceBy(s: byte, n: nat)
    ensures Advance(s, n) == (s + n) % 0x100
  {
    if n > 0 {
      AdvanceBy(s, n - 1);
      ModStep(s + n - 1);
    }
  }

  /** The counter is periodic with period 256: 256 more frames bring it
      back to the value it had (with n = 0: back to its starting value). */
  lemma {:induction false} SequenceWraps(s: byte, n: nat)
    ensures Advance(s, n + 0x100) == Advance(s, n)
  {
    AdvanceBy(s, n);
    AdvanceBy(s, n + 0x100);
    ModShift(s + n);
  }

  /** No shorter period: fewer than 256 frames never bring the counter back. */
  lemma {:induction false} SequenceNoEarlierRepeat(s: byte, k: nat)
    requires 0 < k < 0x100
    ensures Advance(s, k) != s
  {
    AdvanceBy(s, k);
    if s + k < 0x100 {
      assert (s + k) % 0x100 == s + k;
    } else {
      assert (s + k) % 0x100 == s + k - 0x100;
    }
  }

  /** Parsing a frame built by the encoder gives back exactly its fields,
      whatever check function both ends share. */
  lemma RoundTrip(check: CheckFn, src: uint16, dst: uint16, seqNum: byte, payload: seq<byte>)
    requires |payload| <= MaxPayloadSize
    ensures ParseFrame(check, EncodeFrame(check, src, dst, seqNum, payload))
            == Some(ParsedFrame(src, dst, seqNum, payload))
  {
  }

  /** The converse on frames whose length byte matches the buffer: an
      accepted frame is exactly the encoding of the fields parsed from it. */
  lemma ReencodeParsed(check: CheckFn, raw: seq<byte>)
    requires ParseFrame(check, raw).Some?
    requires raw[6] as int == |raw| - MinFrameSize
    ensures var p := ParseFrame(check, raw).value;
            EncodeFrame(check, p.sourceId, p.destinationId, p.sequenceNumber, p.payload) == raw
  {
    var p := ParseFrame(check, raw).value;
    var f := EncodeFrame(check, p.sourceId, p.destinationId, p.sequenceNumber, p.payload);
    var n := |raw|;
    assert |f| == n;
    assert p.payload == raw[7..n - 3];
    assert f[1..n - 3] == raw[1..n - 3] by {
      assert f[1..n - 3] == f[1..3] + f[3..5] + [f[5], f[6]] + f[7..n - 3];
      assert raw[1..n - 3] == raw[1..3] + raw[3..5] + [raw[5], raw[6]] + raw[7..n - 3];
    }
    assert f == [f[0]] + f[1..n - 3] + f[n - 3..n - 1] + [f[n - 1]];
    assert raw == [raw[0]] + raw[1..n - 3] + raw[n - 3..n - 1] + [raw[n - 1]];
  }

  /** The parser accepts a frame whose length byte overstates the buffer and
      returns the clipped slice, which here runs into the check bytes and
      the footer. */
  lemma OverlongLengthAccepted()
    ensures ParseFrame(SourceCheck, [0xAA, 0x12, 0x34, 0x56, 0x78, 1, 5, 0, 1, 0x55])
            == Some(ParsedFrame(0x1234, 0x5678, 1, [0, 1, 0x55]))
  {
    var raw: seq<byte> := [0xAA, 0x12, 0x34, 0x56, 0x78, 1, 5, 0, 1, 0x55];
    assert raw[7..10] == [0, 1, 0x55];
    assert raw[8..9] == [1];
  }

  /** A proper prefix of an encoded frame can be accepted: with the constant
      check value, a payload holding 0x00 0x01 0x55 makes its first ten bytes
      look like a complete frame. */
  lemma TruncatedFrameAccepted()
    ensures var f := EncodeFrame(SourceCheck, 0x1234, 0x5678, 1, [0, 1, 0x55, 7]);
            |f| == 14 && ParseFrame(SourceCheck, f[..10]).Some?
  {
    var f := EncodeFrame(SourceCheck, 0x1234, 0x5678, 1, [0, 1, 0x55, 7]);
    assert f[7..11] == [0, 1, 0x55, 7];
    var t := f[..10];
    assert t[0] == 0xAA && t[9] == 0x55;
    assert t[7..9] == [0, 1] == PackBE16(SourceCheck(t[1..7]));
  }

  /** The frame `frame` with its payload bytes replaced by `q` (same length). */
  function ReplacePayload(frame: seq<byte>, q: seq<byte>): (g: seq<byte>)
    requires |frame| == |q| + MinFrameSize
  {
    frame[..7] + q + frame[7 + |q|..]
  }

  /** A frame whose payload was altered in transit is rejected exactly when
      the check function tells the two covered byte strings apart; an
      undetected change is delivered as the altered payload. */
  lemma AlteredPayloadDetectedIff(check: CheckFn, src: uint16, dst: uint16, seqNum: byte,
                                  p: seq<byte>, q: seq<byte>)
    requires |p| <= MaxPayloadSize && |q| == |p|
    ensures var g := ReplacePayload(EncodeFrame(check, src, dst, seqNum, p), q);
            (ParseFrame(check, g).None? <==>
               check(Covered(src, dst, seqNum, q)) != check(Covered(src, dst, seqNum, p))) &&
            (ParseFrame(check, g).Some? ==> ParseFrame(check, g).value.payload == q)
  {
    var f := EncodeFrame(check, src, dst, seqNum, p);
    var g := ReplacePayload(f, q);
    var n := |f|;
    assert f[1..n - 3] == Covered(src, dst, seqNum, p) by {
      assert f[1..n - 3] == f[1..3] + f[3..5] + [f[5], f[6]] + f[7..n - 3];
    }
    assert g[1..n - 3] == Covered(src, dst, seqNum, q) by {
      assert g[1..n - 3] == g[1..3] + g[3..5] + [g[5], g[6]] + g[7..n - 3];
      assert g[1..3] == f[1..3] && g[3..5] == f[3..5];
      assert g[7..n - 3] == q;
    }
    assert g[n - 3..n - 1] == f[n - 3..n - 1];
    PackUnpack(f[n - 3..n - 1]);
    UnpackPack(check(Covered(src, dst, seqNum, q)));
    if ParseFrame(check, g).Some? {
      assert g[7..] == q + g[n - 3..];
    }
  }

  /** Under the protocol's constant check value, flipping the low bit of the
      payload byte 'A' (0x41) into '@' (0x40) goes undetected. */
  lemma SourceCheckMissesBitFlip()
    ensures var f := EncodeFrame(SourceCheck, 0x1234, 0x5678, 1, [0x41]);
            ParseFrame(SourceCheck, f[7 := 0x40]) == Some(ParsedFrame(0x1234, 0x5678, 1, [0x40]))
  {
    var f := EncodeFrame(SourceCheck, 0x1234, 0x5678, 1, [0x41]);
    assert f[7 := 0x40] == ReplacePayload(f, [0x40]);
    AlteredPayloadDetectedIff(SourceCheck, 0x1234, 0x5678, 1, [0x41], [0x40]);
    RoundTrip(SourceCheck, 0x1234, 0x5678, 1, [0x40]);
    var g := ReplacePayload(f, [0x40]);
    assert g == EncodeFrame(SourceCheck, 0x1234, 0x5678, 1, [0x40]);
  }

  /** Under the protocol's constant check value, whether a buffer is accepted
      depends only on its length, its first byte and its last three bytes:
      the ids, sequence number, length byte and payload (bytes [1:-3]) can
      change arbitrarily without the parser noticing. */
  lemma SourceCheckIgnoresCoveredBytes(a: seq<byte>, b: seq<byte>)
    requires |a| == |b|
    requires |a| >= MinFrameSize ==> a[0] == b[0] && a[|a| - 3..] == b[|b| - 3..]
    ensures ParseFrame(SourceCheck, a).Some? <==> ParseFrame(SourceCheck, b).Some?
  {
  }

  /** With no argument the configuration holds 3 retries and a 2.0 timeout. */
  lemma DefaultRetransmitStrategy()
    ensures RetransmitStrategy() == RetransmitConfig(3, 2.0)
  {
  }
}
