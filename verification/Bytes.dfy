/** Bytes and the little-endian 32-bit length prefix of a queue record. */
module Bytes {

  type byte = x: int | 0 <= x < 256

  const TWO_TO_THE_32 := 0x1_0000_0000

  /** What `binary.LittleEndian.PutUint32` writes. */
  function U32LE(n: int): (b: seq<byte>)
    requires 0 <= n < TWO_TO_THE_32
    ensures |b| == 4
  {
    [n % 0x100, n / 0x100 % 0x100, n / 0x1_0000 % 0x100, n / 0x100_0000 % 0x100]
  }

  /** What `binary.LittleEndian.Uint32` reads. */
  function ReadU32(b: seq<byte>): (n: int)
    requires |b| == 4
    ensures 0 <= n < TWO_TO_THE_32
  {
    var b0: int, b1: int, b2: int, b3: int := b[0], b[1], b[2], b[3];
    b0 + 0x100 * b1 + 0x1_0000 * b2 + 0x100_0000 * b3
  }

  lemma U32RoundTrip(n: int)
    requires 0 <= n < TWO_TO_THE_32
    ensures ReadU32(U32LE(n)) == n
  {
    var q1 := n / 0x100;
    var q2 := q1 / 0x100;
    assert n / 0x1_0000 == q2;
    assert n / 0x100_0000 == q2 / 0x100;
  }
}
