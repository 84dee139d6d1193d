/** Streaming MD5: MD5Init, MD5Update and MD5Final of src/data-types/md5.c. */
module Md5Stream {
  import opened Sequences
  import opened Arith
  import opened Bits
  import opened Md5Spec
  import opened Md5Transform

  const TWO32: nat := 0x1_0000_0000
  const TWO64: nat := 0x1_0000_0000_0000_0000

  /** Length of the whole blocks of a message of n bytes. */
  function Whole(n: nat): (k: nat)
    ensures k <= n < k + 64 && k % 64 == 0
  {
    n - n % 64
  }

  /** The registers after the whole blocks of a message. */
  ghost function HashWhole(m: seq<byte>): State {
    HashBlocks(IV, m[..Whole(|m|)])
  }

  /** The two words of the counter. */
  ghost predicate Counts(n: nat, count0: nat, count1: nat) {
    count0 == n % TWO32 && count1 == n / TWO32 % TWO32
  }

  /** Adding with carry, as MD5Update does it. */
  lemma CountMore(n: nat, count0: nat, count1: nat, len: nat)
    requires Counts(n, count0, count1) && len < TWO32
    ensures var bits := len * 8 % TWO32;
            var c0 := (count0 + bits) % TWO32;
            var carried := if c0 < bits then (count1 + 1) % TWO32 else count1;
            Counts(n + 8 * len, c0, (carried + len / 0x2000_0000) % TWO32)
  {
    var bits, high := len * 8 % TWO32, len / 0x2000_0000;
    assert 8 * len == TWO32 * high + bits;
    var q := n / TWO32;
    var carry := if count0 + bits >= TWO32 then 1 else 0;
    assert n + 8 * len == TWO32 * (q + high + carry) + (count0 + bits - TWO32 * carry);
    DivMod(n + 8 * len, TWO32, q + high + carry, count0 + bits - TWO32 * carry);
    DivMod(count0 + bits, TWO32, carry, count0 + bits - TWO32 * carry);
    CarryOver(q, carry, high);
  }

  lemma CarryOver(q: nat, carry: nat, high: nat)
    requires carry <= 1
    ensures (q + high + carry) % TWO32 == ((if carry == 1 then (q % TWO32 + 1) % TWO32 else q % TWO32) + high) % TWO32
  {
    AddTwice(q, 0, high);
    AddTwice(q, 0, 1);
    AddTwice(q, 1, high);
  }

  /** The position in the block buffer, taken from the low word of the counter. */
  lemma IndexOf(len: nat)
    ensures 8 * len % TWO32 / 8 % 64 == len % 64
  {
    var q, r := len / 0x2000_0000, len % 0x2000_0000;
    assert 8 * len == TWO32 * q + 8 * r;
    DivMod(8 * len, TWO32, q, 8 * r);
    LastSix(q, r);
  }

  lemma LastSix(q: nat, r: nat)
    ensures (0x2000_0000 * q + r) % 64 == r % 64
  {
    assert 0x2000_0000 * q + r == r + 64 * (0x80_0000 * q);
  }

  /** Where the loop of MD5Update over whole blocks of the input has to stop, for an input of len
      bytes after n others. */
  function LoopEnd(n: nat, len: nat): int {
    len - (n + len) % 64
  }

  /** It is where the message so far is a whole number of blocks, less than a block from the end. */
  lemma LoopEndIs(n: nat, len: nat)
    ensures var i := LoopEnd(n, len); (n + i) % 64 == 0 && i <= len < i + 64
  {
    var total, rest := n + len, (n + len) % 64;
    assert total == 64 * (total / 64) + rest;
  }

  /** Whether its guard i + 63 < inputLen, computed on 32 bits, is right when i gets there. */
  predicate GuardHolds(n: nat, len: nat) {
    len < TWO32 && (LoopEnd(n, len) + 63) % TWO32 >= len
  }

  /** The guard is wrong exactly for inputs so long that the sum wraps around; the loop then goes on
      beyond the end of the input.  Every input of at most 2^32 - 64 bytes is safe. */
  lemma GuardFailsOnWrap(n: nat, len: nat)
    requires len < TWO32
    ensures GuardHolds(n, len) <==> LoopEnd(n, len) + 63 < TWO32
    ensures len <= 0xffff_ffc0 ==> GuardHolds(n, len)
    ensures !GuardHolds(n, len) ==> var i := LoopEnd(n, len); 0 <= i && (i + 63) % TWO32 < len < i + 64
  {
    var i := LoopEnd(n, len);
    if i + 63 >= TWO32 {
      assert (i + 63) % TWO32 == i + 63 - TWO32;
    }
  }

  /** It takes an unaligned start: one byte, and then as many as can be given at once. */
  lemma GuardFailsHere()
    ensures !GuardHolds(1, TWO32 - 1)
  {
    assert LoopEnd(1, TWO32 - 1) == TWO32 - 1;
  }

  class Context {
    const state: array<word>
    var count0: nat
    var count1: nat
    const buffer: array<byte>
    // every byte passed to Update so far
    ghost var fed: seq<byte>

    ghost predicate Valid()
      reads this, state, buffer
    {
      Hashed() && Counts(8 * |fed|, count0, count1)
    }

    /** MD5Init */
    constructor ()
      ensures Valid() && fed == [] && fresh(state) && fresh(buffer)
    {
      var s := new word[4];
      s[0], s[1], s[2], s[3] := 0x67452301, 0xefcdab89, 0x98badcfe, 0x10325476;
      state, buffer := s, new byte[64];
      count0, count1, fed := 0, 0, [];
      new;
      assert state[..] == [0x67452301, 0xefcdab89, 0x98badcfe, 0x10325476];
    }

    /** A context built from registers alone, as hmac_md5_import does: the block of 64 bytes that led to
        them is counted, but not in the buffer. */
    constructor Resume(regs: seq<word>, ghost block: seq<byte>)
      requires |regs| == 4 && |block| == 64 && StateOf(regs) == HashWhole(block)
      ensures Valid() && fed == block && fresh(state) && fresh(buffer)
    {
      var s := new word[4];
      s[0], s[1], s[2], s[3] := regs[0], regs[1], regs[2], regs[3];
      state, buffer := s, new byte[64](_ => 0);
      count0, count1, fed := 64 * 8, 0, block;
      new;
      hide HashWhole, StateOf, Whole, Counts;
      assert state[..] == regs;
      OneBlock(fed, buffer[..]);
    }

    /** memcpy into the block buffer. */
    method Fill(index: nat, bytes: seq<byte>)
      requires buffer.Length == 64 && index + |bytes| <= 64
      modifies buffer
      ensures buffer[..index] == old(buffer[..index]) && buffer[index..index + |bytes|] == bytes
      ensures buffer[..index + |bytes|] == old(buffer[..index]) + bytes
    {
      forall k | 0 <= k < |bytes| {
        buffer[index + k] := bytes[k];
      }
    }

    /** The loop of MD5Update: whole blocks straight from the input, from position i0 on. */
    method TransformBlocks(input: seq<byte>, i0: nat) returns (i: nat)
      requires state.Length == 4 && i0 <= |input| < TWO32
      requires |input| - (|input| - i0) % 64 + 63 < TWO32
      modifies state
      ensures i0 <= i <= |input| < i + 64 && (i - i0) % 64 == 0
      ensures StateOf(state[..]) == HashBlocks(old(StateOf(state[..])), input[i0..i])
    {
      hide HashBlocks, Compress, StateOf;
      i := i0;
      ghost var s := StateOf(state[..]);
      ghost var done := [];
      HashNone(s);
      while (i + 63) % TWO32 < |input|
        invariant i0 <= i <= |input| && (i - i0) % 64 == 0
        invariant done == input[i0..i] && StateOf(state[..]) == HashBlocks(s, done)
        decreases |input| - i
      {
        Transform(state, input[i..i + 64]);
        HashAppend(s, done, input[i..i + 64]);
        HashOne(HashBlocks(s, done), input[i..i + 64]);
        done := done + input[i..i + 64];
        i := i + 64;
      }
    }

    /** The counter part of MD5Update. */
    method CountInput(len: nat)
      requires Counts(8 * |fed|, count0, count1) && len < TWO32
      modifies this`count0, this`count1
      ensures Counts(8 * (|fed| + len), count0, count1)
    {
      CountMore(8 * |fed|, count0, count1, len);
      var inputBits := len * 8 % TWO32;
      count0 := (count0 + inputBits) % TWO32;
      if count0 < inputBits {
        count1 := (count1 + 1) % TWO32;
      }
      count1 := (count1 + len / 0x2000_0000) % TWO32;
    }

    /** The registers and the block buffer are those of the bytes fed. */
    ghost predicate Hashed()
      reads this, state, buffer
    {
      && state.Length == 4 && buffer.Length == 64
      && StateOf(state[..]) == HashWhole(fed)
      && buffer[..|fed| % 64] == fed[Whole(|fed|)..]
    }

    /** An input that completes the buffered block: hashes that block and the whole blocks after it,
        up to position i of the input. */
    method AbsorbBlocks(input: seq<byte>, index: nat) returns (i: nat)
      requires Hashed() && index == |fed| % 64 && |input| >= 64 - index && GuardHolds(|fed|, |input|)
      modifies state, buffer
      ensures state.Length == 4 && buffer.Length == 64 && 64 - index <= i <= |input| < i + 64
      ensures StateOf(state[..]) == HashWhole(fed + input) && |fed + input| % 64 == |input| - i
      ensures (fed + input)[Whole(|fed + input|)..] == input[i..]
    {
      hide HashBlocks, Compress, HashWhole, Whole, StateOf;
      var partLen := 64 - index;
      Fill(index, input[..partLen]);
      ghost var block := fed[Whole(|fed|)..] + input[..partLen];
      assert buffer[..] == buffer[..64] == block;
      Transform(state, buffer[..]);
      GuardFailsOnWrap(|fed|, |input|);
      SameRest(|fed|, |input|);
      i := TransformBlocks(input, partLen);
      FullBlocks(fed, input, index, i);
    }

    /** The block part of MD5Update. */
    method Absorb(input: seq<byte>, index0: nat)
      requires Hashed() && index0 == |fed| % 64 && GuardHolds(|fed|, |input|)
      modifies this`fed, state, buffer
      ensures Hashed() && fed == old(fed) + input
    {
      hide HashWhole, Whole;
      var index := index0;
      var partLen := 64 - index;
      var i := 0;
      if |input| >= partLen {
        i := AbsorbBlocks(input, index);
        index := 0;
      } else {
        ShortInput(fed, input, index);
        assert input[0..] == input;
      }
      Fill(index, input[i..]);
      assert index == 0 ==> [] + input[i..] == input[i..];
      fed := fed + input;
    }

    /** MD5Update */
    method Update(input: seq<byte>)
      requires Valid() && GuardHolds(|fed|, |input|)
      modifies this`count0, this`count1, this`fed, state, buffer
      ensures Valid() && fed == old(fed) + input
    {
      hide HashWhole, Whole, Counts;
      if input == [] {
        assert fed + input == fed;
        return;
      }
      LowCount(8 * |fed|, count0, count1);
      IndexOf(|fed|);
      var index := count0 / 8 % 64;
      CountInput(|input|);
      Absorb(input, index);
    }

    /** md5_padding */
    static function Padding(): (bytes: seq<byte>)
      ensures |bytes| == 64
    {
      [0x80] + ZeroBytes(63)
    }

    /** MD5Final: the digest of everything fed; the context is wiped. */
    method Final() returns (digest: seq<byte>)
      requires Valid()
      modifies this, state, buffer
      ensures digest == Md5(old(fed))
      ensures count0 == count1 == 0 && (forall k :: 0 <= k < state.Length ==> state[k] == 0)
      ensures forall k :: 0 <= k < buffer.Length ==> buffer[k] == 0
    {
      hide HashBlocks, Counts, Pad, HashWhole, Length64, ZeroBytes;
      ghost var m := fed;
      IndexOf(|fed|);
      LowCount(8 * |fed|, count0, count1);
      var bits := StoreCount();
      var index := count0 / 8 % 64;
      var padLen := if index < 56 then 56 - index else 120 - index;
      GuardFailsOnWrap(|fed|, padLen);
      Update(Padding()[..padLen]);
      GuardFailsOnWrap(|fed|, 8);
      Update(bits);
      PaddedIsPad(m, index, padLen);
      PadIsWhole(m);
      HashOfPadded(fed);
      digest := StoreLe32(state);
      Cleanse();
    }

    /** md5_store_le32 on the two words of the counter. */
    method StoreCount() returns (bits: seq<byte>)
      requires Counts(8 * |fed|, count0, count1)
      ensures bits == Length64(8 * |fed| % TWO64)
    {
      CountBytes(8 * |fed|, count0, count1);
      bits := BytesOf(count0) + BytesOf(count1);
    }

    /** md5_cleanse */
    method Cleanse()
      modifies this, state, buffer
      ensures count0 == count1 == 0 && (forall k :: 0 <= k < state.Length ==> state[k] == 0)
      ensures forall k :: 0 <= k < buffer.Length ==> buffer[k] == 0
    {
      count0, count1 := 0, 0;
      forall k | 0 <= k < state.Length {
        state[k] := 0;
      }
      forall k | 0 <= k < buffer.Length {
        buffer[k] := 0;
      }
    }
  }

  /** The two words of the counter, stored one after the other, are its 64 bits. */
  lemma CountBytes(n: nat, count0: nat, count1: nat)
    requires Counts(n, count0, count1)
    ensures count0 < TWO32 && count1 < TWO32
    ensures BytesOf(count0) + BytesOf(count1) == Length64(n % TWO64)
  {
    var q, r := n / TWO64, n % TWO64;
    assert n == TWO32 * (TWO32 * q + r / TWO32) + r % TWO32;
    DivMod(n, TWO32, TWO32 * q + r / TWO32, r % TWO32);
    DivMod(TWO32 * q + r / TWO32, TWO32, q, r / TWO32);
    EightBytes(r);
  }

  lemma EightBytes(n: nat)
    requires n < TWO64
    ensures n / TWO32 < TWO32 && BytesOf(n % TWO32) + BytesOf(n / TWO32) == Length64(n)
  {
    var lo, hi := n % TWO32, n / TWO32;
    FourBytesOf(n);
    FourBytesOf(hi);
    UpperBytes(n, 3);
    UpperBytes(n, 2);
    UpperBytes(n, 1);
    UpperBytes(n, 0);
    LowBytes(n);
  }

  lemma FourBytesOf(n: nat)
    ensures ByteOf(n, 0) == n % 0x100 && ByteOf(n, 1) == n / 0x100 % 0x100
    ensures ByteOf(n, 2) == n / 0x1_0000 % 0x100 && ByteOf(n, 3) == n / 0x100_0000 % 0x100
  {
    assert ByteOf(n, 1) == ByteOf(n / 256, 0);
    assert ByteOf(n, 2) == ByteOf(n / 256, 1) == ByteOf(n / 256 / 256, 0);
    assert ByteOf(n, 3) == ByteOf(n / 256, 2) == ByteOf(n / 256 / 256, 1) == ByteOf(n / 256 / 256 / 256, 0);
    assert n / 256 / 256 == n / 0x1_0000 && n / 256 / 256 / 256 == n / 0x100_0000;
  }

  /** Dropping four bytes. */
  lemma UpperBytes(n: nat, j: nat)
    requires j < 4
    ensures ByteOf(n, j + 4) == ByteOf(n / TWO32, j)
  {
    assert n / 256 / 256 / 256 / 256 == n / TWO32;
    assert ByteOf(n, j + 4) == ByteOf(n / 256, j + 3) == ByteOf(n / 256 / 256, j + 2);
    assert ByteOf(n / 256 / 256, j + 2) == ByteOf(n / 256 / 256 / 256, j + 1) == ByteOf(n / 256 / 256 / 256 / 256, j);
  }

  lemma LowBytes(n: nat)
    ensures var lo := n % TWO32;
            && lo % 0x100 == n % 0x100 && lo / 0x100 % 0x100 == n / 0x100 % 0x100
            && lo / 0x1_0000 % 0x100 == n / 0x1_0000 % 0x100 && lo / 0x100_0000 % 0x100 == n / 0x100_0000 % 0x100
  {
    var lo, hi := n % TWO32, n / TWO32;
    LowByte(n, hi, lo, 1, 0x100_0000);
    LowByte(n, hi, lo, 0x100, 0x1_0000);
    LowByte(n, hi, lo, 0x1_0000, 0x100);
    LowByte(n, hi, lo, 0x100_0000, 1);
  }

  lemma LowByte(n: nat, hi: nat, lo: nat, p: nat, q: nat)
    requires n == TWO32 * hi + lo && p > 0 && p * (0x100 * q) == TWO32
    ensures n / p % 0x100 == lo / p % 0x100
  {
    var h, r := DivideWithRest(lo, p);
    var high := q * hi;
    assert p * (0x100 * high + h) + r == n by {
      assert p * (0x100 * high) == p * (0x100 * q) * hi;
      assert p * (0x100 * high + h) == p * (0x100 * high) + p * h;
    }
    DivMod(lo, p, h, r);
    DivMod(n, p, 0x100 * high + h, r);
    assert (0x100 * high + h) % 0x100 == h % 0x100;
  }

  /** What MD5Final feeds is the padding of sections 3.1 and 3.2. */
  lemma PaddedIsPad(m: seq<byte>, index: nat, padLen: nat)
    requires index == |m| % 64 && padLen == if index < 56 then 56 - index else 120 - index
    ensures (m + Context.Padding()[..padLen]) + Length64(8 * |m| % TWO64) == Pad(m)
  {
    hide Length64;
    var z := PadZeros(|m|);
    assert z == padLen - 1;
    assert Context.Padding()[..padLen] == [0x80] + ZeroBytes(z);
    Regroup(m, [0x80] + ZeroBytes(z), Length64(8 * |m| % TWO64));
  }

  lemma HashOfPadded(p: seq<byte>)
    requires |p| % 64 == 0
    ensures HashWhole(p) == HashBlocks(IV, p)
  {
    hide HashBlocks;
    assert p[..|p|] == p;
  }

  lemma OneBlock(fed: seq<byte>, buffer: seq<byte>)
    requires |fed| == 64 == |buffer|
    ensures buffer[..|fed| % 64] == fed[Whole(|fed|)..] && Counts(8 * |fed|, 64 * 8, 0)
  {
  }

  lemma SameRest(n: nat, len: nat)
    ensures (len - (64 - n % 64)) % 64 == (n + len) % 64
  {
    var x := len - (64 - n % 64);
    assert n + len == x + 64 * (n / 64 + 1);
  }

  lemma LowCount(n: nat, count0: nat, count1: nat)
    requires Counts(n, count0, count1)
    ensures count0 == n % TWO32
  {
  }

  lemma HashNone(s: State)
    ensures HashBlocks(s, []) == s
  {
  }

  lemma HashOne(s: State, block: seq<byte>)
    requires |block| == 64
    ensures HashBlocks(s, block) == Compress(s, block)
  {
    hide Compress;
    assert block[..64] == block && block[64..] == [];
  }

  /** When the input completes the buffered block: the registers and the bytes left over. */
  lemma FullBlocks(fed: seq<byte>, input: seq<byte>, index: nat, i: nat)
    requires index == |fed| % 64 && 64 - index <= i <= |input| < i + 64 && (i - (64 - index)) % 64 == 0
    ensures var p := 64 - index;
            var block := fed[Whole(|fed|)..] + input[..p];
            && |block| == 64
            && HashWhole(fed + input) == HashBlocks(Compress(HashWhole(fed), block), input[p..i])
            && (fed + input)[Whole(|fed + input|)..] == input[i..]
            && |fed + input| % 64 == |input| - i
  {
    hide HashBlocks, Compress, Whole;
    var p, w, all := 64 - index, Whole(|fed|), fed + input;
    var block := fed[w..] + input[..p];
    WholeIs(|fed|, w);
    assert Whole(|all|) == |fed| + i by {
      WholeIs(|all|, |fed| + i);
    }
    CutBlocks(fed, input, w, p, i);
    HashAppend(IV, fed[..w] + block, input[p..i]);
    HashAppend(IV, fed[..w], block);
    HashOne(HashWhole(fed), block);
  }

  lemma WholeIs(n: nat, k: nat)
    requires k <= n < k + 64 && k % 64 == 0
    ensures Whole(n) == k && n % 64 == n - k
  {
  }

  lemma CutBlocks(fed: seq<byte>, input: seq<byte>, w: nat, p: nat, i: nat)
    requires w <= |fed| && p <= i <= |input|
    ensures (fed + input)[..|fed| + i] == fed[..w] + (fed[w..] + input[..p]) + input[p..i]
    ensures (fed + input)[|fed| + i..] == input[i..]
  {
  }

  /** When it does not: the registers stay. */
  lemma ShortInput(fed: seq<byte>, input: seq<byte>, index: nat)
    requires index == |fed| % 64 && index + |input| < 64
    ensures HashWhole(fed + input) == HashWhole(fed)
    ensures (fed + input)[Whole(|fed + input|)..] == fed[Whole(|fed|)..] + input
    ensures |fed + input| % 64 == index + |input|
  {
    hide HashBlocks;
    WholeIs(|fed + input|, Whole(|fed|));
    assert (fed + input)[..Whole(|fed|)] == fed[..Whole(|fed|)];
  }
}
