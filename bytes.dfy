/** Byte-level helpers: the byte and 16-bit word types and the big-endian
    `'>H'` packing that the frame layout uses for identifiers and the check value. */
module Bytes {

  /** One octet of a `bytes`/`bytearray`. */
  type byte = x: int | 0 <= x < 0x100

  /** An unsigned 16-bit value, the range `struct.pack('>H', _)` accepts. */
  type uint16 = x: int | 0 <= x < 0x1_0000

  /** `struct.pack('>H', v)`: most significant byte first. */
  function PackBE16(v: uint16): (b: seq<byte>)
    ensures |b| == 2
    ensures b[0] as int * 0x100 + b[1] == v
  {
    [v / 0x100, v % 0x100]
  }

  /** `struct.unpack('>H', b)[0]` on a two-byte slice. */
  function UnpackBE16(b: seq<byte>): (v: uint16)
    requires |b| == 2
    ensures v / 0x100 == b[0] && v % 0x100 == b[1]
  {
    b[0] as int * 0x100 + b[1]
  }

  /** Unpacking undoes packing. */
  lemma UnpackPack(v: uint16)
    ensures UnpackBE16(PackBE16(v)) == v
  {
  }

  /** Packing undoes unpacking: every two-byte string is the image of one word. */
  lemma PackUnpack(b: seq<byte>)
    requires |b| == 2
    ensures PackBE16(UnpackBE16(b)) == b
  {
  }
}
