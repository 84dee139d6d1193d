/** MD5 in terms of bits and numbers alone: its auxiliary functions as truth tables, and the digest of
  "abc" that appendix A.5 of RFC 1321 gives.
 */
module Md5Answer {
  import opened Bits
  import opened Md5Spec
  import opened Md5Transform

  // Truth tables: for which bits of x, y and z a bit of the result is set

  lemma TableOfF(x: bv32, y: bv32, z: bv32)
    ensures FBits(x, y, z) == (x & y & z) | (x & y & !z) | (!x & y & z) | (!x & !y & z)
  {
  }

  lemma TableOfG(x: bv32, y: bv32, z: bv32)
    ensures GBits(x, y, z) == (x & y & z) | (x & !y & z) | (x & y & !z) | (!x & y & !z)
  {
  }

  lemma TableOfH(x: bv32, y: bv32, z: bv32)
    ensures HBits(x, y, z) == (x & y & z) | (x & !y & !z) | (!x & y & !z) | (!x & !y & z)
  {
  }

  lemma TableOfI(x: bv32, y: bv32, z: bv32)
    ensures IBits(x, y, z) == (!x & y & z) | (x & !y & z) | (x & !y & !z) | (!x & !y & !z)
  {
  }

  // The block of "abc"

  /** The words of the padded message. */
  const ABC: seq<word> := [
    0x80636261, 0x00000000, 0x00000000, 0x00000000,
    0x00000000, 0x00000000, 0x00000000, 0x00000000,
    0x00000000, 0x00000000, 0x00000000, 0x00000000,
    0x00000000, 0x00000000, 0x00000018, 0x00000000
  ]

  lemma BlockIs()
    ensures |ABC| == 16 && ABC[0] == 0x80636261 && ABC[14] == 24
    ensures forall k :: 0 <= k < 16 && k != 0 && k != 14 ==> ABC[k] == 0
  {
  }

  /** The constants, round by round. */
  lemma Constants1()
    ensures |T| == 64
    ensures T[0] == 0xd76aa478 && T[1] == 0xe8c7b756 && T[2] == 0x242070db && T[3] == 0xc1bdceee
    ensures T[4] == 0xf57c0faf && T[5] == 0x4787c62a && T[6] == 0xa8304613 && T[7] == 0xfd469501
    ensures T[8] == 0x698098d8 && T[9] == 0x8b44f7af && T[10] == 0xffff5bb1 && T[11] == 0x895cd7be
    ensures T[12] == 0x6b901122 && T[13] == 0xfd987193 && T[14] == 0xa679438e && T[15] == 0x49b40821
  {
  }

  lemma Constants2()
    ensures |T| == 64
    ensures T[16] == 0xf61e2562 && T[17] == 0xc040b340 && T[18] == 0x265e5a51 && T[19] == 0xe9b6c7aa
    ensures T[20] == 0xd62f105d && T[21] == 0x02441453 && T[22] == 0xd8a1e681 && T[23] == 0xe7d3fbc8
    ensures T[24] == 0x21e1cde6 && T[25] == 0xc33707d6 && T[26] == 0xf4d50d87 && T[27] == 0x455a14ed
    ensures T[28] == 0xa9e3e905 && T[29] == 0xfcefa3f8 && T[30] == 0x676f02d9 && T[31] == 0x8d2a4c8a
  {
  }

  lemma Constants3()
    ensures |T| == 64
    ensures T[32] == 0xfffa3942 && T[33] == 0x8771f681 && T[34] == 0x6d9d6122 && T[35] == 0xfde5380c
    ensures T[36] == 0xa4beea44 && T[37] == 0x4bdecfa9 && T[38] == 0xf6bb4b60 && T[39] == 0xbebfbc70
    ensures T[40] == 0x289b7ec6 && T[41] == 0xeaa127fa && T[42] == 0xd4ef3085 && T[43] == 0x04881d05
    ensures T[44] == 0xd9d4d039 && T[45] == 0xe6db99e5 && T[46] == 0x1fa27cf8 && T[47] == 0xc4ac5665
  {
  }

  lemma Constants4()
    ensures |T| == 64
    ensures T[48] == 0xf4292244 && T[49] == 0x432aff97 && T[50] == 0xab9423a7 && T[51] == 0xfc93a039
    ensures T[52] == 0x655b59c3 && T[53] == 0x8f0ccc92 && T[54] == 0xffeff47d && T[55] == 0x85845dd1
    ensures T[56] == 0x6fa87e4f && T[57] == 0xfe2ce6e0 && T[58] == 0xa3014314 && T[59] == 0x4e0811a1
    ensures T[60] == 0xf7537e82 && T[61] == 0xbd3af235 && T[62] == 0x2ad7d2bb && T[63] == 0xeb86d391
  {
  }

  function Among(a: nat, b: nat, c: nat, d: nat, j: nat): nat {
    if j == 0 then a else if j == 1 then b else if j == 2 then c else d
  }

  function ShiftOf(i: nat): nat {
    if i < 16 then Among(7, 12, 17, 22, i % 4)
    else if i < 32 then Among(5, 9, 14, 20, i % 4)
    else if i < 48 then Among(4, 11, 16, 23, i % 4)
    else Among(6, 10, 15, 21, i % 4)
  }

  lemma ShiftsAre(i: nat)
    requires i < 64
    ensures Md5Shift(i) == ShiftOf(i)
  {
    ShiftTable(i);
    FirstShifts(i % 4);
  }

  function AuxBits(round: nat, x: bv32, y: bv32, z: bv32): bv32 {
    if round == 0 then FBits(x, y, z)
    else if round == 1 then GBits(x, y, z)
    else if round == 2 then HBits(x, y, z)
    else IBits(x, y, z)
  }

  lemma AuxOnBits(round: nat, x: bv32, y: bv32, z: bv32)
    requires round < 4
    ensures Aux(round, x as int, y as int, z as int) == AuxBits(round, x, y, z) as int
  {
    hide FBits, GBits, HBits, IBits;
  }

  lemma RotateOnBits(v: bv32, n: nat)
    requires 0 < n < 32
    ensures RotateLeft(v as int, n) == RotateBits(v, n) as int
  {
    hide RotateBits;
  }

  /** Operation i on registers a, b, c, d: its auxiliary function, its sum, what that is rotated, and the
      value that results. */
  lemma Turn(i: nat, k: nat, n: nat, a: bv32, b: bv32, c: bv32, d: bv32, f: bv32, sum: bv32, turned: bv32, v: bv32)
    requires i < 64 && |ABC| == 16 && |T| == 64
    requires k == (if i < 16 then i else if i < 32 then (5 * i + 1) % 16
                   else if i < 48 then (3 * i + 5) % 16 else 7 * i % 16)
    requires 0 < n < 32 && n == ShiftOf(i)
    requires f == AuxBits(i / 16, b, c, d)
    requires sum as int == ((a as int) + (f as int) + (ABC[k] as int) + (T[i] as int)) % 0x1_0000_0000
    requires turned == RotateBits(sum, n)
    requires v as int == ((b as int) + (turned as int)) % 0x1_0000_0000
    ensures Operation(i, ABC, a as int, b as int, c as int, d as int) == v as int
  {
    hide Aux, AuxBits, WordIndex, RotateLeft, RotateBits, Md5Shift, ShiftOf, ABC, T;
    ShiftsAre(i);
    ShiftTable(i);
    PicksWord(i);
    AuxOnBits(i / 16, b, c, d);
    RotateOnBits(sum, n);
    AddThree(a as int, f as int, ABC[k], T[i]);
  }

  lemma AddThree(a: word, f: word, x: word, t: word)
    ensures Add(Add(Add(a, f), x), t) == ((a as int) + (f as int) + (x as int) + (t as int)) % 0x1_0000_0000
  {
    AddTwo(Add(a, f), a + f, x);
    AddTwo(Add(Add(a, f), x), a + f + x, t);
  }

  lemma AddTwo(reduced: word, sum: nat, more: word)
    requires reduced == sum % 0x1_0000_0000
    ensures Add(reduced, more) == (sum + more) % 0x1_0000_0000
  {
  }

  lemma FourSteps(i: nat, x: seq<word>, s: State)
    requires i + 4 <= 64 && |x| == 16
    ensures Steps(i + 4, x, s) == Step(i + 3, x, Step(i + 2, x, Step(i + 1, x, Step(i, x, Steps(i, x, s)))))
  {
    hide Steps, Step;
    OneStep(i, x, s);
    OneStep(i + 1, x, s);
    OneStep(i + 2, x, s);
    OneStep(i + 3, x, s);
  }

  lemma OneStep(i: nat, x: seq<word>, s: State)
    requires i < 64 && |x| == 16
    ensures Steps(i + 1, x, s) == Step(i, x, Steps(i, x, s))
  {
    hide Step;
  }

  lemma NoSteps(x: seq<word>, s: State)
    requires |x| == 16
    ensures Steps(0, x, s) == s
  {
  }

  lemma After4()
    ensures Steps(4, ABC, IV) == State(0xd6d117b4, 0x7ad956f2, 0x2f6fbd72, 0x344a8432)
  {
    hide Steps, Operation, ABC, T;
    BlockIs();
    Constants1();
    NoSteps(ABC, IV);
    Turn(0, 0, 7, 0x67452301, 0xefcdab89, 0x98badcfe, 0x10325476, 0x98badcfe, 0x57ce06d8, 0xe7036c2b, 0xd6d117b4);
    Turn(1, 1, 12, 0x10325476, 0xd6d117b4, 0xefcdab89, 0x98badcfe, 0xceebcbca, 0xc7e5d796, 0x5d796c7e, 0x344a8432);
    Turn(2, 2, 17, 0x98badcfe, 0x344a8432, 0xd6d117b4, 0xefcdab89, 0xdfc52fb9, 0x9ca07d92, 0xfb253940, 0x2f6fbd72);
    Turn(3, 3, 22, 0xefcdab89, 0x2f6fbd72, 0x344a8432, 0xd6d117b4, 0xf4da86b6, 0xa666012d, 0x4b699980, 0x7ad956f2);
    FourSteps(0, ABC, IV);
  }

  lemma After8()
    ensures Steps(8, ABC, IV) == State(0xc73741ef, 0x928d99f6, 0x207dc67b, 0x8bac3051)
  {
    hide Steps, Operation, ABC, T;
    BlockIs();
    Constants1();
    After4();
    Turn(4, 4, 7, 0xd6d117b4, 0x7ad956f2, 0x2f6fbd72, 0x344a8432, 0x2e4b9472, 0xfa98bbd5, 0x4c5deafd, 0xc73741ef);
    Turn(5, 5, 12, 0x344a8432, 0xc73741ef, 0x7ad956f2, 0x2f6fbd72, 0x6a59fcf2, 0xe62c474e, 0xc474ee62, 0x8bac3051);
    Turn(6, 6, 17, 0x2f6fbd72, 0x8bac3051, 0xc73741ef, 0x7ad956f2, 0xf37546e3, 0xcb154a68, 0x94d1962a, 0x207dc67b);
    Turn(7, 7, 22, 0x7ad956f2, 0x207dc67b, 0x8bac3051, 0xc73741ef, 0xc72e01d5, 0x3f4dedc8, 0x720fd37b, 0x928d99f6);
    FourSteps(4, ABC, IV);
  }

  lemma After12()
    ensures Steps(12, ABC, IV) == State(0x854b3712, 0x5ed49596, 0x3020401c, 0x74e2f284)
  {
    hide Steps, Operation, ABC, T;
    BlockIs();
    Constants1();
    After8();
    Turn(8, 8, 7, 0xc73741ef, 0x928d99f6, 0x207dc67b, 0x8bac3051, 0x092da073, 0x39e57b3a, 0xf2bd9d1c, 0x854b3712);
    Turn(9, 9, 12, 0x8bac3051, 0x854b3712, 0x928d99f6, 0x207dc67b, 0xa03dd17b, 0xb72ef97b, 0xef97bb72, 0x74e2f284);
    Turn(10, 10, 17, 0x207dc67b, 0x74e2f284, 0x854b3712, 0x928d99f6, 0x864f3b72, 0xa6cc5d9e, 0xbb3d4d98, 0x3020401c);
    Turn(11, 11, 22, 0x928d99f6, 0x3020401c, 0x74e2f284, 0x854b3712, 0xb56b7706, 0xd155e8ba, 0x2eb4557a, 0x5ed49596);
    FourSteps(8, ABC, IV);
  }

  lemma After16()
    ensures Steps(16, ABC, IV) == State(0xdda9b9a6, 0x72aff2e0, 0xe396856b, 0xa1051895)
  {
    hide Steps, Operation, ABC, T;
    BlockIs();
    Constants1();
    After12();
    Turn(12, 12, 7, 0x854b3712, 0x5ed49596, 0x3020401c, 0x74e2f284, 0x30226214, 0x20fdaa48, 0x7ed52410, 0xdda9b9a6);
    Turn(13, 13, 12, 0x74e2f284, 0xdda9b9a6, 0x5ed49596, 0x3020401c, 0x7c80d19e, 0xeefc35b5, 0xc35b5eef, 0xa1051895);
    Turn(14, 14, 17, 0x3020401c, 0xa1051895, 0xdda9b9a6, 0x5ed49596, 0xdfd19d86, 0xb66b2148, 0x42916cd6, 0xe396856b);
    Turn(15, 15, 22, 0x5ed49596, 0xe396856b, 0xa1051895, 0xdda9b9a6, 0xbd2d3885, 0x65b5d63c, 0x8f196d75, 0x72aff2e0);
    FourSteps(12, ABC, IV);
  }

  lemma After20()
    ensures Steps(20, ABC, IV) == State(0x3e9e9126, 0xb5b204e4, 0xe25e1652, 0x4a1d804e)
  {
    hide Steps, Operation, ABC, T;
    BlockIs();
    Constants2();
    After16();
    Turn(16, 1, 5, 0xdda9b9a6, 0x72aff2e0, 0xe396856b, 0xa1051895, 0x629795ea, 0x365f74f2, 0xcbee9e46, 0x3e9e9126);
    Turn(17, 6, 9, 0xa1051895, 0x3e9e9126, 0x72aff2e0, 0xe396856b, 0x32bff3a2, 0x9405bf77, 0x0b7eef28, 0x4a1d804e);
    Turn(18, 11, 14, 0xe396856b, 0x4a1d804e, 0x3e9e9126, 0x72aff2e0, 0x4e1d8146, 0x58126102, 0x98409604, 0xe25e1652);
    Turn(19, 0, 20, 0x72aff2e0, 0xe25e1652, 0x4a1d804e, 0x3e9e9126, 0x621f104a, 0x3ee92d35, 0xd353ee92, 0xb5b204e4);
    FourSteps(16, ABC, IV);
  }

  lemma After24()
    ensures Steps(24, ABC, IV) == State(0x59a8ffda, 0x47092c07, 0xabfc7920, 0x6d002f1e)
  {
    hide Steps, Operation, ABC, T;
    BlockIs();
    Constants2();
    After20();
    Turn(20, 5, 5, 0x3e9e9126, 0xb5b204e4, 0xe25e1652, 0x4a1d804e, 0xa0521654, 0xb51fb7d7, 0xa3f6faf6, 0x59a8ffda);
    Turn(21, 10, 9, 0x4a1d804e, 0x59a8ffda, 0xb5b204e4, 0xe25e1652, 0x55a816f6, 0xa209ab97, 0x13572f44, 0x6d002f1e);
    Turn(22, 15, 14, 0xe25e1652, 0x6d002f1e, 0x59a8ffda, 0xb5b204e4, 0x6d08ff1e, 0x2808fbf1, 0x3efc4a02, 0xabfc7920);
    Turn(23, 4, 20, 0xb5b204e4, 0xabfc7920, 0x6d002f1e, 0x59a8ffda, 0x2da87904, 0xcb2e79b0, 0x9b0cb2e7, 0x47092c07);
    FourSteps(20, ABC, IV);
  }

  lemma After28()
    ensures Steps(28, ABC, IV) == State(0xb7f268cf, 0x786acb8f, 0xfe1623b1, 0x09388eff)
  {
    hide Steps, Operation, ABC, T;
    BlockIs();
    Constants2();
    After24();
    Turn(24, 9, 5, 0x59a8ffda, 0x47092c07, 0xabfc7920, 0x6d002f1e, 0xc7fc7c26, 0x438749e6, 0x70e93cc8, 0xb7f268cf);
    Turn(25, 14, 9, 0x6d002f1e, 0xb7f268cf, 0x47092c07, 0xabfc7920, 0xe7f16c07, 0x1828a313, 0x51462630, 0x09388eff);
    Turn(26, 3, 14, 0xabfc7920, 0x09388eff, 0xb7f268cf, 0x47092c07, 0xb1fa4ccf, 0x52cbd376, 0xf4dd94b2, 0xfe1623b1);
    Turn(27, 8, 20, 0x47092c07, 0xfe1623b1, 0x09388eff, 0xb7f268cf, 0xbe1aa6b1, 0x4a7de7a5, 0x7a54a7de, 0x786acb8f);
    FourSteps(24, ABC, IV);
  }

  lemma After32()
    ensures Steps(32, ABC, IV) == State(0x790a77fb, 0x726342d3, 0xa62884aa, 0x9f47e4f8)
  {
    hide Steps, Operation, ABC, T;
    BlockIs();
    Constants2();
    After28();
    Turn(28, 13, 5, 0xb7f268cf, 0x786acb8f, 0xfe1623b1, 0x09388eff, 0xfe2eab8f, 0x6004fd63, 0x009fac6c, 0x790a77fb);
    Turn(29, 2, 9, 0x09388eff, 0x790a77fb, 0x786acb8f, 0xfe1623b1, 0x786aebbf, 0x7e931eb6, 0x263d6cfd, 0x9f47e4f8);
    Turn(30, 7, 14, 0xfe1623b1, 0x9f47e4f8, 0x790a77fb, 0x786acb8f, 0x1942f4f8, 0x7ec81b82, 0x06e09fb2, 0xa62884aa);
    Turn(31, 12, 20, 0x786acb8f, 0xa62884aa, 0x9f47e4f8, 0x790a77fb, 0xa64d84aa, 0xabe29cc3, 0xcc3abe29, 0x726342d3);
    FourSteps(28, ABC, IV);
  }

  lemma After36()
    ensures Steps(36, ABC, IV) == State(0xb3707ebf, 0x3b0875c7, 0x8d212ff5, 0x60127b2e)
  {
    hide Steps, Operation, ABC, T;
    BlockIs();
    Constants3();
    After32();
    Turn(32, 5, 4, 0x790a77fb, 0x726342d3, 0xa62884aa, 0x9f47e4f8, 0x4b0c2281, 0xc410d3be, 0x410d3bec, 0xb3707ebf);
    Turn(33, 8, 11, 0x9f47e4f8, 0xb3707ebf, 0x726342d3, 0xa62884aa, 0x673bb8c6, 0x8df5943f, 0xaca1fc6f, 0x60127b2e);
    Turn(34, 11, 16, 0xa62884aa, 0x60127b2e, 0xb3707ebf, 0x726342d3, 0xa1014742, 0xb4c72d0e, 0x2d0eb4c7, 0x8d212ff5);
    Turn(35, 14, 23, 0x726342d3, 0x8d212ff5, 0x60127b2e, 0xb3707ebf, 0x5e432a64, 0xce8ba55b, 0xade745d2, 0x3b0875c7);
    FourSteps(32, ABC, IV);
  }

  lemma After40()
    ensures Steps(40, ABC, IV) == State(0x21b117b9, 0x5a2f5ea5, 0x3575227e, 0x6e7429d5)
  {
    hide Steps, Operation, ABC, T;
    BlockIs();
    Constants3();
    After36();
    Turn(36, 1, 4, 0xb3707ebf, 0x3b0875c7, 0x8d212ff5, 0x60127b2e, 0xd63b211c, 0x2e6a8a1f, 0xe6a8a1f2, 0x21b117b9);
    Turn(37, 4, 11, 0x60127b2e, 0x21b117b9, 0x3b0875c7, 0x8d212ff5, 0x97984d8b, 0x43899862, 0x4cc3121c, 0x6e7429d5);
    Turn(38, 7, 16, 0x8d212ff5, 0x6e7429d5, 0x21b117b9, 0x3b0875c7, 0x74cd4bab, 0xf8a9c700, 0xc700f8a9, 0x3575227e);
    Turn(39, 10, 23, 0x3b0875c7, 0x3575227e, 0x6e7429d5, 0x21b117b9, 0x7ab01c12, 0x74784e49, 0x24ba3c27, 0x5a2f5ea5);
    FourSteps(36, ABC, IV);
  }

  lemma After44()
    ensures Steps(44, ABC, IV) == State(0x11de1779, 0x4c6124f4, 0x31c465ca, 0xfadcaa38)
  {
    hide Steps, Operation, ABC, T;
    BlockIs();
    Constants3();
    After40();
    Turn(40, 13, 4, 0x21b117b9, 0x5a2f5ea5, 0x3575227e, 0x6e7429d5, 0x012e550e, 0x4b7aeb8d, 0xb7aeb8d4, 0x11de1779);
    Turn(41, 0, 11, 0x6e7429d5, 0x11de1779, 0x5a2f5ea5, 0x3575227e, 0x7e846ba2, 0x57fd1fd2, 0xe8fe92bf, 0xfadcaa38);
    Turn(42, 3, 16, 0x3575227e, 0xfadcaa38, 0x11de1779, 0x5a2f5ea5, 0xb12de3e4, 0xbb9236e7, 0x36e7bb92, 0x31c465ca);
    Turn(43, 6, 23, 0x5a2f5ea5, 0x31c465ca, 0xfadcaa38, 0x11de1779, 0xdac6d88b, 0x397e5435, 0x1a9cbf2a, 0x4c6124f4);
    FourSteps(40, ABC, IV);
  }

  lemma After48()
    ensures Steps(48, ABC, IV) == State(0x7f2e507b, 0x7beb9700, 0x8fae6399, 0x99d9679d)
  {
    hide Steps, Operation, ABC, T;
    BlockIs();
    Constants3();
    After44();
    Turn(44, 9, 4, 0x11de1779, 0x4c6124f4, 0x31c465ca, 0xfadcaa38, 0x8779eb06, 0x732cd2b8, 0x32cd2b87, 0x7f2e507b);
    Turn(45, 12, 11, 0xfadcaa38, 0x7f2e507b, 0x4c6124f4, 0x31c465ca, 0x028b1145, 0xe4435562, 0x1aab1722, 0x99d9679d);
    Turn(46, 15, 16, 0x31c465ca, 0x99d9679d, 0x7f2e507b, 0x4c6124f4, 0xaa961312, 0xfbfcf5d4, 0xf5d4fbfc, 0x8fae6399);
    Turn(47, 2, 23, 0x4c6124f4, 0x8fae6399, 0x99d9679d, 0x7f2e507b, 0x6959547f, 0x7a66cfd8, 0xec3d3367, 0x7beb9700);
    FourSteps(44, ABC, IV);
  }

  lemma After52()
    ensures Steps(52, ABC, IV) == State(0x7b201df8, 0x8bf025c4, 0xb298cefd, 0xf4e8e96e)
  {
    hide Steps, Operation, ABC, T;
    BlockIs();
    Constants4();
    After48();
    Turn(48, 0, 6, 0x7f2e507b, 0x7beb9700, 0x8fae6399, 0x99d9679d, 0xf041fcfb, 0xe3fcd21b, 0xff3486f8, 0x7b201df8);
    Turn(49, 7, 10, 0x99d9679d, 0x7b201df8, 0x7beb9700, 0x8fae6399, 0x009a0afe, 0xdd9e7232, 0x79c8cb76, 0xf4e8e96e);
    Turn(50, 14, 15, 0x8fae6399, 0xf4e8e96e, 0x7b201df8, 0x7beb9700, 0x8fdcf407, 0xcb1f7b5f, 0xbdafe58f, 0xb298cefd);
    Turn(51, 5, 21, 0x7beb9700, 0xb298cefd, 0xf4e8e96e, 0x7b201df8, 0x42370791, 0xbab63eca, 0xd95756c7, 0x8bf025c4);
    FourSteps(48, ABC, IV);
  }

  lemma After56()
    ensures Steps(56, ABC, IV) == State(0x06cc5e8a, 0x3bfa2c27, 0x7d632dd0, 0x5b0d97aa)
  {
    hide Steps, Operation, ABC, T;
    BlockIs();
    Constants4();
    After52();
    Turn(52, 12, 6, 0x7b201df8, 0x8bf025c4, 0xb298cefd, 0xf4e8e96e, 0x396ff928, 0x19eb70e3, 0x7adc38c6, 0x06cc5e8a);
    Turn(53, 3, 10, 0xf4e8e96e, 0x06cc5e8a, 0x8bf025c4, 0xb298cefd, 0xc41f5a4e, 0x4815104e, 0x54413920, 0x5b0d97aa);
    Turn(54, 10, 15, 0xb298cefd, 0x5b0d97aa, 0x06cc5e8a, 0x8bf025c4, 0x79c38131, 0x2c4c44ab, 0x22559626, 0x7d632dd0);
    Turn(55, 1, 21, 0x8bf025c4, 0x7d632dd0, 0x5b0d97aa, 0x06cc5e8a, 0xa67e3a5f, 0xb7f2bdf4, 0xbe96fe57, 0x3bfa2c27);
    FourSteps(52, ABC, IV);
  }

  lemma After60()
    ensures Steps(60, ABC, IV) == State(0x7f81cc35, 0x7327d604, 0x4f9dbe3f, 0x094454ab)
  {
    hide Steps, Operation, ABC, T;
    BlockIs();
    Constants4();
    After56();
    Turn(56, 8, 6, 0x06cc5e8a, 0x3bfa2c27, 0x7d632dd0, 0x5b0d97aa, 0xc29941a7, 0x390e1e80, 0x4387a00e, 0x7f81cc35);
    Turn(57, 15, 10, 0x5b0d97aa, 0x7f81cc35, 0x3bfa2c27, 0x7d632dd0, 0xc467f218, 0x1da270a2, 0x89c28876, 0x094454ab);
    Turn(58, 6, 15, 0x7d632dd0, 0x094454ab, 0x7f81cc35, 0x3bfa2c27, 0xb2c41bce, 0xd3288cb2, 0x46596994, 0x4f9dbe3f);
    Turn(59, 13, 21, 0x3bfa2c27, 0x4f9dbe3f, 0x094454ab, 0x7f81cc35, 0xc6bbeb54, 0x50be291c, 0x238a17c5, 0x7327d604);
    FourSteps(56, ABC, IV);
  }

  lemma After64()
    ensures Steps(64, ABC, IV) == State(0x310ade8f, 0xc08226b3, 0xe484b9d8, 0x624d8cb2)
  {
    hide Steps, Operation, ABC, T;
    BlockIs();
    Constants4();
    After60();
    Turn(60, 4, 6, 0x7f81cc35, 0x7327d604, 0x4f9dbe3f, 0x094454ab, 0xb822416b, 0x2ef78c22, 0xbde3088b, 0x310ade8f);
    Turn(61, 11, 10, 0x094454ab, 0x310ade8f, 0x7327d604, 0x4f9dbe3f, 0xc24d09cb, 0x88cc50ab, 0x3142ae23, 0x624d8cb2);
    Turn(62, 2, 15, 0x4f9dbe3f, 0x624d8cb2, 0x310ade8f, 0x7327d604, 0xdfd77374, 0x5a4d046e, 0x82372d26, 0xe484b9d8);
    Turn(63, 9, 21, 0x7327d604, 0xe484b9d8, 0x624d8cb2, 0x310ade8f, 0x8cb8354a, 0xeb66dedf, 0xdbfd6cdb, 0xc08226b3);
    FourSteps(60, ABC, IV);
  }

  /** The padded message is one block. */
  lemma PadOfAbc()
    ensures var p := Pad([0x61, 0x62, 0x63]);
            && |p| == 64 && p[0] == 0x61 && p[1] == 0x62 && p[2] == 0x63 && p[3] == 0x80 && p[56] == 24
            && forall i :: 4 <= i < 64 && i != 56 ==> p[i] == 0
  {
    var m: seq<byte> := [0x61, 0x62, 0x63];
    assert PadZeros(3) == 52;
    LengthOfAbc();
    var p := Pad(m);
    assert p == m + ([0x80] + ZeroBytes(52) + Length64(24));
    assert forall j :: 0 <= j < 8 ==> p[56 + j] == Length64(24)[j];
    assert forall i :: 4 <= i < 56 ==> p[i] == 0;
    forall i | 57 <= i < 64
      ensures p[i] == 0
    {
      assert p[56 + (i - 56)] == Length64(24)[i - 56];
    }
  }

  lemma LengthOfAbc()
    ensures Length64(24)[0] == 24 && forall j :: 1 <= j < 8 ==> Length64(24)[j] == 0
  {
    assert ByteOf(24, 0) == 24;
    forall j | 1 <= j < 8
      ensures Length64(24)[j] == 0
    {
      BytesOfZero(j - 1);
    }
  }

  lemma {:induction false} BytesOfZero(j: nat)
    ensures ByteOf(0, j) == 0
  {
    if j > 0 {
      BytesOfZero(j - 1);
    }
  }

  lemma WordsOfAbc()
    ensures Words(Pad([0x61, 0x62, 0x63])) == ABC
  {
    PadOfAbc();
    hide Pad;
    BlockIs();
    hide ABC, WordOf;
    var x := Words(Pad([0x61, 0x62, 0x63]));
    SomeWords();
    forall j | 0 <= j < 16
      ensures x[j] == ABC[j]
    {
    }
  }

  lemma SomeWords()
    ensures WordOf(0x61, 0x62, 0x63, 0x80) == 0x80636261 && WordOf(24, 0, 0, 0) == 24 && WordOf(0, 0, 0, 0) == 0
  {
  }

  /** The known answer: 900150983cd24fb0d6963f7d28e17f72. */
  lemma DigestOfAbc()
    ensures Md5([0x61, 0x62, 0x63]) ==
            [0x90, 0x01, 0x50, 0x98, 0x3c, 0xd2, 0x4f, 0xb0,
             0xd6, 0x96, 0x3f, 0x7d, 0x28, 0xe1, 0x7f, 0x72]
  {
    After64();
    WordsOfAbc();
    PadOfAbc();
    hide Pad, Words, Steps, ABC;
    var p := Pad([0x61, 0x62, 0x63]);
    var s := State(0x98500190, 0xb04fd23c, 0x7d3f96d6, 0x727fe128);
    assert p[..64] == p && p[64..] == [];
    assert Compress(IV, p) == s;
    assert HashBlocks(IV, p) == s by {
      hide Compress;
      assert HashBlocks(s, []) == s;
    }
  }
}
