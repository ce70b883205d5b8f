/** Scalar types of the C code and the little-endian 32-bit trailer format. */
module Base {

  /** `uint8_t`: a byte as an integer in [0, 256). */
  type byte = x: int | 0 <= x < 0x100

  /** `uint16_t`, the type of the table index and of the directory cursor. */
  type uint16 = x: int | 0 <= x < 0x1_0000

  /** `uint32_t`. */
  type uint32 = x: int | 0 <= x < 0x1_0000_0000

  datatype Option<+T> = None | Some(value: T)

  /** Truncation of an integer to `uint32_t`: C's unsigned wrap-around. */
  function Wrap32(x: int): uint32
  {
    x % 0x1_0000_0000
  }

  /**
   * The value of four bytes read little-endian,
   * `p[0] | p[1] << 8 | p[2] << 16 | p[3] << 24`; the four fields do not
   * overlap, so the bitwise or is a sum.
   */
  function Le32(p: seq<byte>): (n: uint32)
    requires |p| == 4
  {
    p[0] as int + p[1] as int * 0x100 + p[2] as int * 0x1_0000 + p[3] as int * 0x100_0000
  }

  /** The four little-endian bytes of a `uint32_t`, as the build tool writes them. */
  function Le32Bytes(n: uint32): (p: seq<byte>)
    ensures |p| == 4
  {
    [n % 0x100, n / 0x100 % 0x100, n / 0x1_0000 % 0x100, n / 0x100_0000]
  }

  /** Reading back the trailer the build tool wrote gives its value. */
  lemma Le32Decode(n: uint32)
    ensures Le32(Le32Bytes(n)) == n
  {
    var q1 := n / 0x100;
    var q2 := n / 0x1_0000;
    var q3 := n / 0x100_0000;
    assert n == n % 0x100 + q1 * 0x100;
    assert q1 == q1 % 0x100 + q2 * 0x100;
    assert q2 == q2 % 0x100 + q3 * 0x100;
    assert q1 % 0x100 == n / 0x100 % 0x100;
    assert q2 % 0x100 == n / 0x1_0000 % 0x100;
  }

  /** Every four-byte trailer is the encoding of its own value. */
  lemma Le32Encode(p: seq<byte>)
    requires |p| == 4
    ensures Le32Bytes(Le32(p)) == p
  {
    var n := Le32(p);
    var a := p[1] as int + p[2] as int * 0x100 + p[3] as int * 0x1_0000;
    var b := p[2] as int + p[3] as int * 0x100;
    SplitByte(n, a, p[0]);
    SplitByte(a, b, p[1]);
    SplitByte(b, p[3], p[2]);
    assert n / 0x1_0000 == b;
    assert n / 0x100_0000 == p[3];
  }

  /** `x` is `k` bytes shifted up plus a low byte `s`. */
  lemma SplitByte(x: int, k: int, s: byte)
    requires x == k * 0x100 + s
    ensures x % 0x100 == s && x / 0x100 == k
  {
  }
}
