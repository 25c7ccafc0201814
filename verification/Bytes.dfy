/** Bytes, and 32-bit fields stored in them. */
module Bytes {
  type byte = x: int | 0 <= x < 256

  const U32 := 0x1_0000_0000

  /** The four bytes of a 32-bit value, least significant first. */
  function PutU32(x: nat): (r: seq<byte>)
    ensures |r| == 4
  {
    [x % 0x100, x / 0x100 % 0x100, x / 0x1_0000 % 0x100, x / 0x100_0000 % 0x100]
  }

  function GetU32(b: seq<byte>): nat
    requires |b| == 4
  {
    b[0] as int + 0x100 * (b[1] as int) + 0x1_0000 * (b[2] as int) + 0x100_0000 * (b[3] as int)
  }

  lemma U32RoundTrip(x: nat)
    requires x < U32
    ensures GetU32(PutU32(x)) == x
  {
    var a, b, c := x / 0x100, x / 0x1_0000, x / 0x100_0000;
    assert a / 0x100 == b && b / 0x100 == c && c < 0x100;
  }
}
