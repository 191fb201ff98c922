/**
  Bytes and the 4-byte unsigned integer codec used for the length prefix.
  The prefix is written in the host's native byte order, so the byte order
  is a parameter of every operation rather than a fixed choice.
*/
module NativeEndian {

  type byte = b: int | 0 <= b < 256

  const U32_LIMIT: int := 0x1_0000_0000

  type u32 = n: int | 0 <= n < U32_LIMIT

  /** The byte order of the host platform. */
  datatype Endian = Little | Big

  /** Least-significant byte first. */
  function LittleBytes(n: u32): seq<byte>
  {
    [n % 256, (n / 256) % 256, (n / 0x1_0000) % 256, n / 0x100_0000]
  }

  /** Sum of four bytes, the first one least significant. */
  function LittleValue(b0: byte, b1: byte, b2: byte, b3: byte): u32
  {
    b0 + 256 * (b1 + 256 * (b2 + 256 * b3))
  }

  /** The 4 bytes that encode `n` in byte order `e`. */
  function EncodeU32(e: Endian, n: u32): (r: seq<byte>)
    ensures |r| == 4
  {
    var l := LittleBytes(n);
    match e
    case Little => l
    case Big => [l[3], l[2], l[1], l[0]]
  }

  /** The value of 4 bytes read in byte order `e`. */
  function DecodeU32(e: Endian, b: seq<byte>): (n: u32)
    requires |b| == 4
  {
    match e
    case Little => LittleValue(b[0], b[1], b[2], b[3])
    case Big => LittleValue(b[3], b[2], b[1], b[0])
  }

  /** Splitting off the low byte of `n` is unique. */
  lemma DivModByte(n: int, q: int, r: int)
    requires 0 <= r < 256 && n == 256 * q + r
    ensures n / 256 == q && n % 256 == r
  {
  }

  lemma LittleRoundTrip(n: u32)
    ensures var l := LittleBytes(n); LittleValue(l[0], l[1], l[2], l[3]) == n
  {
    var q1 := n / 256;
    var q2 := q1 / 256;
    var q3 := q2 / 256;
    assert n / 0x1_0000 == q2;
    assert n / 0x100_0000 == q3;
  }

  lemma LittleBytesOfValue(b0: byte, b1: byte, b2: byte, b3: byte)
    ensures LittleBytes(LittleValue(b0, b1, b2, b3)) == [b0, b1, b2, b3]
  {
    var n := LittleValue(b0, b1, b2, b3);
    var q1 := b1 + 256 * (b2 + 256 * b3);
    var q2 := b2 + 256 * b3;
    DivModByte(n, q1, b0);
    DivModByte(q1, q2, b1);
    DivModByte(q2, b3, b2);
    assert n / 0x1_0000 == q2;
    assert n / 0x100_0000 == b3;
  }

  /** Encoding then decoding gives back the value. */
  lemma EncodeDecodeU32(e: Endian, n: u32)
    ensures DecodeU32(e, EncodeU32(e, n)) == n
  {
    LittleRoundTrip(n);
  }

  /** Decoding then encoding 4 bytes gives back the same bytes: every 4-byte
      prefix is the encoding of exactly one value. */
  lemma DecodeEncodeU32(e: Endian, b: seq<byte>)
    requires |b| == 4
    ensures EncodeU32(e, DecodeU32(e, b)) == b
  {
    match e
    case Little =>
      LittleBytesOfValue(b[0], b[1], b[2], b[3]);
    case Big =>
      LittleBytesOfValue(b[3], b[2], b[1], b[0]);
  }

  /** Zero is all zero bytes in either byte order. */
  lemma EncodeU32Zero(e: Endian)
    ensures EncodeU32(e, 0) == [0, 0, 0, 0]
  {
    assert LittleBytes(0) == [0, 0, 0, 0];
  }

  /** Where the three parts of `a + b + c` sit. */
  lemma SplitThree(a: seq<byte>, b: seq<byte>, c: seq<byte>)
    ensures var w := a + b + c;
            && w[..|a|] == a
            && w[|a|..] == b + c
            && w[|a|..|a| + |b|] == b
            && w[|a| + |b|..] == c
            && (b + c)[..|b|] == b
            && (b + c)[|b|..] == c
  {
  }
}
