/** Little-endian field access over raw bytes and C unsigned-int arithmetic.
    ext2 stores every multi-byte on-disk field little-endian. */
module Bytes {

  const TWO16: nat := 0x1_0000
  const TWO32: nat := 0x1_0000_0000

  /** One byte of the disk image (a C `unsigned char`). */
  type Byte = x: int | 0 <= x < 256

  /** The values of a C `unsigned int` (`__u32`). */
  type U32 = x: int | 0 <= x < 0x1_0000_0000

  /** C `unsigned int` arithmetic: every result is taken modulo 2^32. */
  function Wrap32(x: int): (r: U32)
    ensures 0 <= x < TWO32 ==> r == x
  {
    x % TWO32
  }

  function U8At(s: seq<Byte>, off: nat): (v: nat)
    requires off < |s|
    ensures v < 256
  {
    s[off]
  }

  function U16At(s: seq<Byte>, off: nat): (v: nat)
    requires off + 2 <= |s|
    ensures v < TWO16
  {
    U8At(s, off) + 256 * U8At(s, off + 1)
  }

  function U32At(s: seq<Byte>, off: nat): (v: U32)
    requires off + 4 <= |s|
  {
    U8At(s, off) + 256 * (U8At(s, off + 1) + 256 * U16At(s, off + 2))
  }

  /** The encoder that `U16At` inverts: the two little-endian bytes of `v`. */
  function LeBytes16(v: nat): (r: seq<Byte>)
    requires v < TWO16
    ensures |r| == 2
  {
    [v % 256, v / 256]
  }

  lemma DecodeEncode16(v: nat)
    requires v < TWO16
    ensures U16At(LeBytes16(v), 0) == v
  {
  }

  /** The encoder that `U32At` inverts: the four little-endian bytes of `v`. */
  function LeBytes32(v: U32): (r: seq<Byte>)
    ensures |r| == 4
  {
    var q1 := v / 256;
    var q2 := q1 / 256;
    [v % 256, q1 % 256, q2 % 256, (q2 / 256) % 256]
  }

  /** Unsigned division, `n / b` in C for `unsigned` operands: the quotient brackets the
      dividend between two consecutive multiples of the divisor. */
  function FloorDiv(n: nat, b: nat): (q: nat)
    requires b > 0
    ensures q * b <= n < q * b + b
  {
    var q := n / b;
    assert n == q * b + n % b;
    q
  }

  lemma MulMonotone(a: nat, b: nat, m: nat)
    requires a <= b
    ensures a * m <= b * m
  {
    var k: nat := b - a;
    assert b * m == a * m + k * m;
  }

  /** Quotient and remainder are unique. */
  lemma QuotientUnique(x: nat, m: nat, q1: nat, r1: nat, q2: nat, r2: nat)
    requires m > 0 && r1 < m && r2 < m
    requires q1 * m + r1 == x && q2 * m + r2 == x
    ensures q1 == q2 && r1 == r2
  {
    if q1 < q2 {
      assert (q1 + 1) * m == q1 * m + m;
      MulMonotone(q1 + 1, q2, m);
    } else if q2 < q1 {
      assert (q2 + 1) * m == q2 * m + m;
      MulMonotone(q2 + 1, q1, m);
    }
  }

  /** Division by 256 is determined by a quotient and an in-range remainder. */
  lemma DivMod256(x: int, q: int, r: int)
    requires 0 <= r < 256 && x == q * 256 + r
    ensures x / 256 == q && x % 256 == r
  {
  }

  /** Decoding the encoding of a value gives the value back. */
  lemma {:induction false} DecodeEncode32(v: U32)
    ensures U32At(LeBytes32(v), 0) == v
  {
    var e := LeBytes32(v);
    var q1 := v / 256;
    var q2 := q1 / 256;
    var q3 := q2 / 256;
    assert v == q1 * 256 + v % 256;
    assert q1 == q2 * 256 + q1 % 256;
    assert q2 == q3 * 256 + q2 % 256;
    assert q3 < 256;
    assert U16At(e, 2) == q2;
  }

  /** Encoding the decoded value gives the four bytes back. */
  lemma {:induction false} EncodeDecode32(s: seq<Byte>, off: nat)
    requires off + 4 <= |s|
    ensures LeBytes32(U32At(s, off)) == s[off..off + 4]
  {
    var a: int, b: int, c: int, d: int := s[off], s[off + 1], s[off + 2], s[off + 3];
    var v := U32At(s, off);
    DivMod256(v, b + 256 * (c + 256 * d), a);
    DivMod256(v / 256, c + 256 * d, b);
    DivMod256(v / 256 / 256, d, c);
    DivMod256(d, 0, d);
  }

  /** Encoding the decoded two-byte value gives the two bytes back. */
  lemma EncodeDecode16(s: seq<Byte>, off: nat)
    requires off + 2 <= |s|
    ensures LeBytes16(U16At(s, off)) == s[off..off + 2]
  {
    DivMod256(U16At(s, off), s[off + 1], s[off]);
  }

  /** A four-byte field read from inside a longer record reads the bytes stored there. */
  lemma FieldAt32(s: seq<Byte>, off: nat, f: seq<Byte>)
    requires |f| == 4 && off + 4 <= |s| && s[off..off + 4] == f
    ensures U32At(s, off) == U32At(f, 0)
  {
    assert s[off] == f[0] && s[off + 1] == f[1] && s[off + 2] == f[2] && s[off + 3] == f[3];
  }

  /** A two-byte field read from inside a longer record reads the bytes stored there. */
  lemma FieldAt16(s: seq<Byte>, off: nat, f: seq<Byte>)
    requires |f| == 2 && off + 2 <= |s| && s[off..off + 2] == f
    ensures U16At(s, off) == U16At(f, 0)
  {
    assert s[off] == f[0] && s[off + 1] == f[1];
  }
}
