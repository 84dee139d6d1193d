/** Numbers as big-endian bit strings: what shifting and masking an accumulator means. */
module Bits {
  import opened Sequences
  import opened Arith

  type byte = b: int | 0 <= b < 256

  /** The greatest size_t. */
  const SIZE_MAX: nat := 0xffff_ffff_ffff_ffff

  function Pow2(n: nat): (p: nat)
    ensures p > 0
  {
    if n == 0 then 1 else 2 * Pow2(n - 1)
  }

  lemma Powers()
    ensures Pow2(0) == 1 && Pow2(1) == 2 && Pow2(2) == 4 && Pow2(3) == 8 && Pow2(4) == 16 && Pow2(5) == 32
    ensures Pow2(6) == 64 && Pow2(7) == 128 && Pow2(8) == 256 && Pow2(12) == 4096 && Pow2(14) == 16384
  {
    assert Pow2(3) == 8 && Pow2(5) == 32 && Pow2(7) == 128 && Pow2(9) == 512;
    assert Pow2(11) == 2048 && Pow2(13) == 8192;
  }

  lemma LargePowers()
    ensures Pow2(40) == 0x100_0000_0000 && Pow2(63) == 0x8000_0000_0000_0000
  {
    assert Pow2(5) == 32 && Pow2(10) == 1024 && Pow2(15) == 0x8000;
    assert Pow2(20) == 0x10_0000 && Pow2(25) == 0x200_0000 && Pow2(30) == 0x4000_0000;
    assert Pow2(35) == 0x8_0000_0000 && Pow2(40) == 0x100_0000_0000 && Pow2(45) == 0x2000_0000_0000;
    assert Pow2(50) == 0x4_0000_0000_0000 && Pow2(55) == 0x80_0000_0000_0000 && Pow2(60) == 0x1000_0000_0000_0000;
  }

  /** The number a bit string denotes. */
  ghost function Num(bits: seq<bool>): (v: nat)
  {
    if bits == [] then 0 else
      var n := |bits| - 1;
      2 * Num(bits[..n]) + if bits[n] then 1 else 0
  }

  /** The last n bits of v. */
  ghost function BitsOf(v: nat, n: nat): (bits: seq<bool>)
    ensures |bits| == n
  {
    if n == 0 then [] else BitsOf(v / 2, n - 1) + [v % 2 == 1]
  }

  ghost function Zeros(n: nat): (bits: seq<bool>)
    ensures |bits| == n && forall k :: 0 <= k < n ==> !bits[k]
  {
    if n == 0 then [] else Zeros(n - 1) + [false]
  }

  lemma {:induction false} NumBound(bits: seq<bool>)
    ensures Num(bits) < Pow2(|bits|)
  {
    if bits != [] {
      NumBound(bits[..|bits| - 1]);
    }
  }

  lemma {:induction false} NumOfBits(v: nat, n: nat)
    requires v < Pow2(n)
    ensures Num(BitsOf(v, n)) == v
  {
    if n != 0 {
      NumOfBits(v / 2, n - 1);
      assert BitsOf(v, n)[..n - 1] == BitsOf(v / 2, n - 1);
    }
  }

  lemma {:induction false} BitsOfNum(bits: seq<bool>)
    ensures BitsOf(Num(bits), |bits|) == bits
  {
    if bits != [] {
      var n := |bits| - 1;
      BitsOfNum(bits[..n]);
      assert bits == bits[..n] + [bits[n]];
    }
  }

  lemma NumOfNone()
    ensures Num([]) == 0
  {
  }

  lemma NumSteps(bits: seq<bool>)
    requires bits != []
    ensures var n := |bits| - 1; Num(bits) == 2 * Num(bits[..n]) + if bits[n] then 1 else 0
  {
  }

  lemma {:induction false} NumAppend(a: seq<bool>, b: seq<bool>)
    ensures Num(a + b) == Pow2(|b|) * Num(a) + Num(b)
  {
    hide Num;
    NumOfNone();
    if b == [] {
      assert a + b == a;
    } else {
      var n := |b| - 1;
      NumAppend(a, b[..n]);
      NumSteps(a + b);
      NumSteps(b);
      assert (a + b)[..|a + b| - 1] == a + b[..n] && (a + b)[|a + b| - 1] == b[n];
      Double(Num(a), Pow2(n));
    }
  }

  lemma Double(a: nat, p: nat)
    ensures 2 * (p * a) == (2 * p) * a
  {
  }

  /** v << n */
  function Shl(v: nat, n: nat): nat {
    if n == 0 then v else 2 * Shl(v, n - 1)
  }

  /** v >> n */
  function Shr(v: nat, n: nat): nat {
    if n == 0 then v else Shr(v / 2, n - 1)
  }

  /** v & ((1 << n) - 1) */
  function Mask(v: nat, n: nat): nat {
    if n == 0 then 0 else 2 * Mask(v / 2, n - 1) + v % 2
  }

  /** Shifting left makes room for m more bits. */
  lemma {:induction false} BitsOfShift(v: nat, n: nat, w: nat, m: nat)
    requires w < Pow2(m)
    ensures BitsOf(Shl(v, m) + w, n + m) == BitsOf(v, n) + BitsOf(w, m)
  {
    if m == 0 {
      assert BitsOf(v, n) + [] == BitsOf(v, n);
    } else {
      BitsOfShift(v, n, w / 2, m - 1);
      assert (Shl(v, m) + w) / 2 == Shl(v, m - 1) + w / 2;
      assert BitsOf(v, n) + BitsOf(w, m) == (BitsOf(v, n) + BitsOf(w / 2, m - 1)) + [w % 2 == 1];
    }
  }

  /** Shifting right drops the last m bits. */
  lemma {:induction false} BitsOfSplit(v: nat, n: nat, m: nat)
    ensures BitsOf(v, n + m) == BitsOf(Shr(v, m), n) + BitsOf(v, m)
  {
    if m == 0 {
      assert BitsOf(v, n) + [] == BitsOf(v, n);
    } else {
      BitsOfSplit(v / 2, n, m - 1);
      assert BitsOf(Shr(v, m), n) + BitsOf(v, m) == (BitsOf(Shr(v, m), n) + BitsOf(v / 2, m - 1)) + [v % 2 == 1];
    }
  }

  /** Masking keeps the last n bits. */
  lemma {:induction false} BitsOfMask(v: nat, n: nat)
    ensures Mask(v, n) < Pow2(n) && BitsOf(Mask(v, n), n) == BitsOf(v, n)
    ensures Num(BitsOf(v, n)) == Mask(v, n)
  {
    if n != 0 {
      BitsOfMask(v / 2, n - 1);
      assert Mask(v, n) / 2 == Mask(v / 2, n - 1) && Mask(v, n) % 2 == v % 2;
      NumSnoc(BitsOf(v / 2, n - 1), v % 2 == 1);
    }
  }

  lemma NumSnoc(bits: seq<bool>, b: bool)
    ensures Num(bits + [b]) == 2 * Num(bits) + if b then 1 else 0
  {
    assert (bits + [b])[..|bits|] == bits;
  }

  /** Masking is a remainder, shifting right a quotient, shifting left a product. */
  lemma {:induction false} ShiftsAreArithmetic(v: nat, n: nat)
    ensures Mask(v, n) == v % Pow2(n) && Shr(v, n) == v / Pow2(n) && Shl(v, n) == Pow2(n) * v
  {
    if n != 0 {
      ShiftsAreArithmetic(v / 2, n - 1);
      ShiftsAreArithmetic(v, n - 1);
      HalveThenDivide(v, Pow2(n - 1));
      Double(v, Pow2(n - 1));
    }
  }

  lemma HalveThenDivide(v: nat, p: nat)
    requires p > 0
    ensures v / 2 / p == v / (2 * p) && 2 * (v / 2 % p) + v % 2 == v % (2 * p)
  {
    var q, r := DivideWithRest(v / 2, p);
    DivMod(v / 2, p, q, r);
    Double(q, p);
    DivMod(v, 2 * p, q, 2 * r + v % 2);
  }

  lemma {:induction false} NumZeros(n: nat)
    ensures Num(Zeros(n)) == 0
  {
    if n != 0 {
      NumZeros(n - 1);
      assert Zeros(n)[..n - 1] == Zeros(n - 1);
    }
  }

  lemma {:induction false} ZeroMeansZeros(bits: seq<bool>)
    requires Num(bits) == 0
    ensures bits == Zeros(|bits|)
  {
    if bits != [] {
      var n := |bits| - 1;
      ZeroMeansZeros(bits[..n]);
      assert bits == bits[..n] + [bits[n]];
    }
  }

  function FlatMap<A, B>(f: A -> seq<B>, xs: seq<A>): seq<B> {
    if xs == [] then [] else f(xs[0]) + FlatMap(f, xs[1..])
  }

  lemma {:induction false} FlatMapAppend<A, B>(f: A -> seq<B>, xs: seq<A>, ys: seq<A>)
    ensures FlatMap(f, xs + ys) == FlatMap(f, xs) + FlatMap(f, ys)
  {
    if xs == [] {
      assert xs + ys == ys;
    } else {
      FlatMapAppend(f, xs[1..], ys);
      assert (xs + ys)[0] == xs[0] && (xs + ys)[1..] == xs[1..] + ys;
      Regroup(f(xs[0]), FlatMap(f, xs[1..]), FlatMap(f, ys));
    }
  }

  lemma FlatMapCons<A, B>(f: A -> seq<B>, x: A, xs: seq<A>)
    ensures FlatMap(f, [x] + xs) == f(x) + FlatMap(f, xs)
    ensures FlatMap(f, [x]) == f(x)
  {
    assert ([x] + xs)[1..] == xs && [x][1..] == [];
    assert f(x) + [] == f(x);
  }

  // Bytes and sextets as bit strings

  ghost function Octet(b: byte): seq<bool> {
    BitsOf(b, 8)
  }

  ghost function BytesToBits(bytes: seq<byte>): seq<bool> {
    FlatMap(Octet, bytes)
  }

  /** The whole bytes at the front of a bit string. */
  ghost function BitsToBytes(bits: seq<bool>): (bytes: seq<byte>)
    ensures |bytes| == |bits| / 8
  {
    if |bits| < 8 then [] else
      NumBound(bits[..8]);
      Powers();
      [Num(bits[..8])] + BitsToBytes(bits[8..])
  }

  /** Reading whole bytes off a bit string gives back the bytes it was made of, whatever part of
      a byte follows. */
  lemma {:induction false} BytesRoundTrip(bytes: seq<byte>, tail: seq<bool>)
    requires |tail| < 8
    ensures BitsToBytes(BytesToBits(bytes) + tail) == bytes
  {
    var bits := BytesToBits(bytes) + tail;
    if bytes != [] {
      BytesRoundTrip(bytes[1..], tail);
      var first := BitsOf(bytes[0], 8);
      assert bits == first + (BytesToBits(bytes[1..]) + tail);
      assert bits[..8] == first && bits[8..] == BytesToBits(bytes[1..]) + tail;
      Powers();
      NumOfBits(bytes[0], 8);
    }
  }

  lemma {:induction false} BitsRoundTrip(bits: seq<bool>)
    ensures BytesToBits(BitsToBytes(bits)) == bits[..|bits| / 8 * 8]
  {
    if |bits| >= 8 {
      BitsRoundTrip(bits[8..]);
      BitsOfNum(bits[..8]);
      var bytes := BitsToBytes(bits);
      assert bytes[1..] == BitsToBytes(bits[8..]);
      assert bits[..|bits| / 8 * 8] == bits[..8] + bits[8..][..|bits[8..]| / 8 * 8];
    } else {
      assert bits[..0] == [];
    }
  }
}
