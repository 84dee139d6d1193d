/** The MD5 message digest as RFC 1321 defines it. */
module Md5Spec {
  import opened Bits

  type word = w: int | 0 <= w < 0x1_0000_0000

  /** Addition of words, modulo 2^32. */
  function Add(x: word, y: word): word {
    (x + y) % 0x1_0000_0000
  }

  /** The four registers A, B, C, D. */
  datatype State = State(a: word, b: word, c: word, d: word)

  const IV := State(0x67452301, 0xefcdab89, 0x98badcfe, 0x10325476)

  // Section 3.4: the auxiliary functions, on bits

  function FBits(x: bv32, y: bv32, z: bv32): bv32 { (x & y) | (!x & z) }
  function GBits(x: bv32, y: bv32, z: bv32): bv32 { (x & z) | (y & !z) }
  function HBits(x: bv32, y: bv32, z: bv32): bv32 { x ^ y ^ z }
  function IBits(x: bv32, y: bv32, z: bv32): bv32 { y ^ (x | !z) }

  function F(x: word, y: word, z: word): word { FBits(x as bv32, y as bv32, z as bv32) as int }
  function G(x: word, y: word, z: word): word { GBits(x as bv32, y as bv32, z as bv32) as int }
  function H(x: word, y: word, z: word): word { HBits(x as bv32, y as bv32, z as bv32) as int }
  function I(x: word, y: word, z: word): word { IBits(x as bv32, y as bv32, z as bv32) as int }

  function RotateBits(v: bv32, n: nat): bv32
    requires 0 < n < 32
  {
    (v << n) | (v >> (32 - n))
  }

  function RotateLeft(v: word, n: nat): word
    requires 0 < n < 32
  {
    RotateBits(v as bv32, n) as int
  }

  /** T[i + 1] of RFC 1321: the integer part of 4294967296 times abs(sin(i + 1)). */
  const T: seq<word> := T1 + T2 + T3 + T4

  const T1: seq<word> := [
    0xd76aa478, 0xe8c7b756, 0x242070db, 0xc1bdceee,
    0xf57c0faf, 0x4787c62a, 0xa8304613, 0xfd469501,
    0x698098d8, 0x8b44f7af, 0xffff5bb1, 0x895cd7be,
    0x6b901122, 0xfd987193, 0xa679438e, 0x49b40821
  ]
  const T2: seq<word> := [
    0xf61e2562, 0xc040b340, 0x265e5a51, 0xe9b6c7aa,
    0xd62f105d, 0x02441453, 0xd8a1e681, 0xe7d3fbc8,
    0x21e1cde6, 0xc33707d6, 0xf4d50d87, 0x455a14ed,
    0xa9e3e905, 0xfcefa3f8, 0x676f02d9, 0x8d2a4c8a
  ]
  const T3: seq<word> := [
    0xfffa3942, 0x8771f681, 0x6d9d6122, 0xfde5380c,
    0xa4beea44, 0x4bdecfa9, 0xf6bb4b60, 0xbebfbc70,
    0x289b7ec6, 0xeaa127fa, 0xd4ef3085, 0x04881d05,
    0xd9d4d039, 0xe6db99e5, 0x1fa27cf8, 0xc4ac5665
  ]
  const T4: seq<word> := [
    0xf4292244, 0x432aff97, 0xab9423a7, 0xfc93a039,
    0x655b59c3, 0x8f0ccc92, 0xffeff47d, 0x85845dd1,
    0x6fa87e4f, 0xfe2ce6e0, 0xa3014314, 0x4e0811a1,
    0xf7537e82, 0xbd3af235, 0x2ad7d2bb, 0xeb86d391
  ]

  /** The words used by the operations of each round, in the order of section 3.4. */
  const K1: seq<nat> := [0, 1, 2, 3, 4, 5, 6, 7, 8, 9, 10, 11, 12, 13, 14, 15]
  const K2: seq<nat> := [1, 6, 11, 0, 5, 10, 15, 4, 9, 14, 3, 8, 13, 2, 7, 12]
  const K3: seq<nat> := [5, 8, 11, 14, 1, 4, 7, 10, 13, 0, 3, 6, 9, 12, 15, 2]
  const K4: seq<nat> := [0, 7, 14, 5, 12, 3, 10, 1, 8, 15, 6, 13, 4, 11, 2, 9]

  function WordIndex(i: nat): (k: nat)
    requires i < 64
    ensures k < 16
  {
    WordTables(i % 16);
    match i / 16
    case 0 => K1[i % 16]
    case 1 => K2[i % 16]
    case 2 => K3[i % 16]
    case _ => K4[i % 16]
  }

  /** The tables in closed form. */
  lemma WordTables(j: nat)
    requires j < 16
    ensures |K1| == |K2| == |K3| == |K4| == 16
    ensures K1[j] == j && K2[j] == (5 * j + 1) % 16 && K3[j] == (3 * j + 5) % 16 && K4[j] == 7 * j % 16
  {
  }

  /** The shift amounts of each round. */
  const SHIFTS: seq<seq<nat>> := [[7, 12, 17, 22], [5, 9, 14, 20], [4, 11, 16, 23], [6, 10, 15, 21]]

  lemma Tables()
    ensures |T| == 64
    ensures |SHIFTS| == 4 && forall r :: 0 <= r < 4 ==> |SHIFTS[r]| == 4
    ensures forall r, j :: 0 <= r < 4 && 0 <= j < 4 ==> 0 < SHIFTS[r][j] < 32
  {
  }

  function Aux(round: nat, x: word, y: word, z: word): word
    requires round < 4
  {
    match round
    case 0 => F(x, y, z)
    case 1 => G(x, y, z)
    case 2 => H(x, y, z)
    case _ => I(x, y, z)
  }

  /** The value operation i computes, given the registers in the roles a, b, c, d. */
  function Operation(i: nat, x: seq<word>, a: word, b: word, c: word, d: word): word
    requires i < 64 && |x| == 16
  {
    Tables();
    Add(b, RotateLeft(Add(Add(Add(a, Aux(i / 16, b, c, d)), x[WordIndex(i)]), T[i]), SHIFTS[i / 16][i % 4]))
  }

  /** Operation i of section 3.4: the registers take the roles ABCD, DABC, CDAB, BCDA in turn. */
  function Step(i: nat, x: seq<word>, s: State): State
    requires i < 64 && |x| == 16
  {
    match i % 4
    case 0 => s.(a := Operation(i, x, s.a, s.b, s.c, s.d))
    case 1 => s.(d := Operation(i, x, s.d, s.a, s.b, s.c))
    case 2 => s.(c := Operation(i, x, s.c, s.d, s.a, s.b))
    case _ => s.(b := Operation(i, x, s.b, s.c, s.d, s.a))
  }

  /** The first n operations. */
  function Steps(n: nat, x: seq<word>, s: State): State
    requires n <= 64 && |x| == 16
  {
    if n == 0 then s else Step(n - 1, x, Steps(n - 1, x, s))
  }

  /** Section 2: four bytes are a word, low-order byte first. */
  function WordOf(b0: byte, b1: byte, b2: byte, b3: byte): word {
    (b0 as int) + 0x100 * b1 + 0x1_0000 * b2 + 0x100_0000 * b3
  }

  function Words(block: seq<byte>): (x: seq<word>)
    requires |block| == 64
    ensures |x| == 16
  {
    seq(16, j requires 0 <= j < 16 => WordOf(block[4 * j], block[4 * j + 1], block[4 * j + 2], block[4 * j + 3]))
  }

  /** What one block of 64 bytes does to the registers. */
  function Compress(s: State, block: seq<byte>): State
    requires |block| == 64
  {
    var t := Steps(64, Words(block), s);
    State(Add(s.a, t.a), Add(s.b, t.b), Add(s.c, t.c), Add(s.d, t.d))
  }

  /** All the whole blocks of a byte string. */
  function HashBlocks(s: State, m: seq<byte>): State
    decreases |m|
  {
    if |m| < 64 then s else HashBlocks(Compress(s, m[..64]), m[64..])
  }

  // Sections 3.1 and 3.2: padding

  function ZeroBytes(n: nat): (z: seq<byte>)
    ensures |z| == n
  {
    seq(n, i => 0)
  }

  /** The byte of weight 256^j. */
  function ByteOf(n: nat, j: nat): byte {
    if j == 0 then n % 256 else ByteOf(n / 256, j - 1)
  }

  /** 64 bits, low-order byte first. */
  function Length64(n: nat): (bytes: seq<byte>)
    ensures |bytes| == 8
  {
    seq(8, j requires 0 <= j => ByteOf(n, j))
  }

  /** Zero bytes between the byte 0x80 and the length. */
  function PadZeros(len: nat): (z: nat)
    ensures z < 64 && (len + 1 + z) % 64 == 56
  {
    (119 - len % 64) % 64
  }

  function Pad(m: seq<byte>): seq<byte> {
    m + ([0x80] + ZeroBytes(PadZeros(|m|)) + Length64(8 * |m| % 0x1_0000_0000_0000_0000))
  }

  /** A word as four bytes, low-order byte first. */
  function BytesOf(w: word): (bytes: seq<byte>)
    ensures |bytes| == 4
  {
    [w % 0x100, w / 0x100 % 0x100, w / 0x1_0000 % 0x100, w / 0x100_0000 % 0x100]
  }

  function DigestOf(s: State): (digest: seq<byte>)
    ensures |digest| == 16
  {
    BytesOf(s.a) + BytesOf(s.b) + BytesOf(s.c) + BytesOf(s.d)
  }

  function Md5(m: seq<byte>): (digest: seq<byte>)
    ensures |digest| == 16
  {
    DigestOf(HashBlocks(IV, Pad(m)))
  }

  /** Whole blocks first, then the rest. */
  lemma {:induction false} HashAppend(s: State, a: seq<byte>, b: seq<byte>)
    requires |a| % 64 == 0
    ensures HashBlocks(s, a + b) == HashBlocks(HashBlocks(s, a), b)
    decreases |a|
  {
    hide Compress;
    if a == [] {
      assert a + b == b;
    } else {
      HashAppend(Compress(s, a[..64]), a[64..], b);
      assert (a + b)[..64] == a[..64] && (a + b)[64..] == a[64..] + b;
    }
  }

  /** A padded message is a whole number of blocks. */
  lemma PadIsWhole(m: seq<byte>)
    ensures |Pad(m)| % 64 == 0
  {
  }
}
