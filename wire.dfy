/** Fixed-width unsigned integers and their little-endian byte encodings,
    as they appear in the parameter bank and in the serial-link messages. */
module Wire {

  type byte = x: int | 0 <= x < 0x100
  type uint16 = x: int | 0 <= x < 0x1_0000
  type uint32 = x: int | 0 <= x < 0x1_0000_0000

  datatype Option<+T> = None | Some(value: T)

  /** `x++` on a uint32_t: wraps to 0 after 0xFFFF_FFFF. */
  function Inc32(x: uint32): (r: uint32)
    ensures x < 0xFFFF_FFFF ==> r == x + 1
    ensures x == 0xFFFF_FFFF ==> r == 0
  {
    (x + 1) % 0x1_0000_0000
  }

  /** The C++ `bool` stored in one byte. */
  function BoolByte(b: bool): (r: byte)
    ensures (r != 0) == b
  {
    if b then 1 else 0
  }

  function EncodeLE16(x: uint16): (r: seq<byte>)
    ensures |r| == 2
  {
    [x % 0x100, x / 0x100]
  }

  function DecodeLE16(s: seq<byte>): uint16
    requires |s| == 2
  {
    s[0] as int + 0x100 * s[1] as int
  }

  function EncodeLE32(x: uint32): (r: seq<byte>)
    ensures |r| == 4
  {
    [x % 0x100, (x / 0x100) % 0x100, (x / 0x1_0000) % 0x100, x / 0x100_0000]
  }

  function DecodeLE32(s: seq<byte>): uint32
    requires |s| == 4
  {
    s[0] as int + 0x100 * s[1] as int + 0x1_0000 * s[2] as int + 0x100_0000 * s[3] as int
  }

  lemma LE16RoundTrip(x: uint16)
    ensures DecodeLE16(EncodeLE16(x)) == x
  {
  }

  lemma LE32RoundTrip(x: uint32)
    ensures DecodeLE32(EncodeLE32(x)) == x
  {
  }
}
