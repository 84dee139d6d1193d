/** The loops of mutf7_decode (src/data-types/charconv.c) and the text they compute. */
module Mutf7Decoder {
  import opened Sequences
  import opened Options
  import opened Bits
  import opened Unicode
  import opened Mutf7

  datatype Status = NoError | ErrorMemory | ErrorConv


  /** mutf7_append_utf8: false for what is not a scalar value. */
  method AppendUtf8(output: array<byte>, outputLen: nat, cp: nat) returns (ok: bool, len: nat)
    requires outputLen + (if IsScalar(cp) then |Utf8(cp)| else 0) <= output.Length
    modifies output
    ensures ok <==> IsScalar(cp)
    ensures ok ==> len == outputLen + |Utf8(cp)| && output[..len] == old(output[..outputLen]) + Utf8(cp)
  {
    len := outputLen;
    if cp <= 0x7f {
      output[len] := cp;
      len := len + 1;
    } else if cp <= 0x7ff {
      output[len] := 0xc0 + cp / 64;
      output[len + 1] := 0x80 + cp % 64;
      len := len + 2;
    } else if cp <= 0xffff {
      if 0xd800 <= cp <= 0xdfff {
        return false, len;
      }
      output[len] := 0xe0 + cp / 4096;
      output[len + 1] := 0x80 + cp / 64 % 64;
      output[len + 2] := 0x80 + cp % 64;
      len := len + 3;
    } else if cp <= 0x10ffff {
      output[len] := 0xf0 + cp / 262144;
      output[len + 1] := 0x80 + cp / 4096 % 64;
      output[len + 2] := 0x80 + cp / 64 % 64;
      output[len + 3] := 0x80 + cp % 64;
      len := len + 4;
    } else {
      return false, len;
    }
    ok := true;
  }

  ghost function Utf8Of(cps: Option<seq<Scalar>>): Option<seq<byte>> {
    if cps.Some? then Some(Utf8All(cps.value)) else None
  }

  lemma ThenThen(a: seq<byte>, b: seq<byte>, rest: Option<seq<byte>>)
    ensures Then(a, Then(b, rest)) == Then(a + b, rest)
  {
    if rest.Some? {
      assert a + (b + rest.value) == (a + b) + rest.value;
    }
  }

  lemma Utf16Empty(out: seq<byte>)
    ensures Then(out, Utf8Of(DecodeUtf16([]))) == Some(out)
  {
    assert out + [] == out;
  }

  /** One step of decoding UTF-16. */
  lemma Utf16Step(bytes: seq<byte>)
    requires bytes != [] && DecodeUtf16Char(bytes).Some?
    ensures var d := DecodeUtf16Char(bytes).value;
            d.next <= |bytes| && IsScalar(d.cp) &&
            Utf8Of(DecodeUtf16(bytes)) == Then(Utf8(d.cp), Utf8Of(DecodeUtf16(bytes[d.next..])))
  {
    var d := DecodeUtf16Char(bytes).value;
    var rest := DecodeUtf16(bytes[d.next..]);
    if rest.Some? {
      FlatMapCons<Scalar, byte>(Utf8, d.cp, rest.value);
    }
  }

  lemma Utf16Fails(bytes: seq<byte>)
    requires bytes != [] && DecodeUtf16Char(bytes).None?
    ensures DecodeUtf16(bytes) == None
  {
  }

  lemma {:induction false} OddUtf16(bytes: seq<byte>)
    requires |bytes| % 2 == 1
    ensures DecodeUtf16(bytes) == None
  {
    if DecodeUtf16Char(bytes).Some? {
      OddUtf16(bytes[DecodeUtf16Char(bytes).value.next..]);
    }
  }

  /** The unit at position i, with the one after it when it is a high surrogate. */
  method ReadUnits(bytes: array<byte>, byteCount: nat, i: nat) returns (ok: bool, cp: nat, used: nat)
    requires i + 1 < byteCount <= bytes.Length
    ensures ok ==> used == 2 || used == 4
    ensures DecodeUtf16Char(bytes[i..byteCount]) == if ok then Some(Decoded(cp, used)) else None
  {
    ghost var rest := bytes[i..byteCount];
    assert rest[0] == bytes[i] && rest[1] == bytes[i + 1];
    var b0: int, b1: int := bytes[i], bytes[i + 1];
    cp, used, ok := b0 * 256 + b1, 2, true;
    if 0xd800 <= cp <= 0xdbff {
      if i + 3 >= byteCount {
        return false, 0, 0;
      }
      assert rest[2] == bytes[i + 2] && rest[3] == bytes[i + 3];
      var b2: int, b3: int := bytes[i + 2], bytes[i + 3];
      var low := b2 * 256 + b3;
      if low < 0xdc00 || low > 0xdfff {
        return false, 0, 0;
      }
      cp := 0x10000 + (cp - 0xd800) * 1024 + (low - 0xdc00);
      used := 4;
    } else if 0xdc00 <= cp <= 0xdfff {
      ok := false;
    }
  }

  /** mutf7_decode_utf16be: the first byteCount bytes, appended as UTF-8. */
  method DecodeUtf16be(bytes: array<byte>, byteCount: nat, output: array<byte>, outputLen: nat)
    returns (ok: bool, len: nat)
    requires bytes != output && byteCount <= bytes.Length && outputLen + 2 * byteCount <= output.Length
    modifies output
    ensures ok <==> DecodeUtf16(bytes[..byteCount]).Some?
    ensures ok ==> len <= outputLen + 2 * byteCount
    ensures ok ==> Some(output[..len]) == Then(old(output[..outputLen]), Utf8Of(DecodeUtf16(bytes[..byteCount])))
  {
    hide DecodeUtf16, DecodeUtf16Char, Utf8;
    ghost var goal := Then(output[..outputLen], Utf8Of(DecodeUtf16(bytes[..byteCount])));
    len := outputLen;
    if byteCount % 2 != 0 {
      OddUtf16(bytes[..byteCount]);
      return false, len;
    }
    var i := 0;
    ghost var rest := bytes[..byteCount];
    while i < byteCount
      invariant i <= byteCount && i % 2 == 0 && rest == bytes[i..byteCount]
      invariant outputLen <= len <= outputLen + 2 * i
      invariant goal == Then(output[..len], Utf8Of(DecodeUtf16(rest)))
      decreases byteCount - i
    {
      ghost var before := output[..len];
      var cp, used;
      ok, cp, used := ReadUnits(bytes, byteCount, i);
      if !ok {
        Utf16Fails(rest);
        return false, len;
      }
      Utf16Step(rest);
      ok, len := AppendUtf8(output, len, cp);
      if !ok {
        return false, len;
      }
      ThenThen(before, Utf8(cp), Utf8Of(DecodeUtf16(rest[used..])));
      rest := rest[used..];
      i := i + used;
    }
    Utf16Empty(output[..len]);
    ok := true;
  }

  /** The accumulator gives up a byte from its high end. */
  lemma EmitByte(bytes: seq<byte>, bits: nat, bitCount: nat)
    requires bitCount >= 8
    ensures var b := Mask(Shr(bits, bitCount - 8), 8);
            && b < 256
            && BytesToBits(bytes + [b]) + BitsOf(bits, bitCount - 8) == BytesToBits(bytes) + BitsOf(bits, bitCount)
  {
    Powers();
    BitsOfSplit(bits, 8, bitCount - 8);
    BitsOfMask(Shr(bits, bitCount - 8), 8);
    var b: byte := Mask(Shr(bits, bitCount - 8), 8);
    FlatMapAppend(Octet, bytes, [b]);
    FlatMapCons(Octet, b, []);
    Regroup(BytesToBits(bytes), Octet(b), BitsOf(bits, bitCount - 8));
  }

  /** A base64 character shifts its six bits in at the low end. */
  lemma ShiftIn(chars: seq<byte>, c: byte, bytes: seq<byte>, bits: nat, bitCount: nat)
    requires IsBase64(c) && bits < Pow2(bitCount) && bitCount < 8
    requires BytesToBits(bytes) + BitsOf(bits, bitCount) == RunBits(chars)
    ensures var bits' := Shl(bits, 6) + Base64Value(c);
            BytesToBits(bytes) + BitsOf(bits', bitCount + 6) == RunBits(chars + [c]) && bits' < 0x4000
  {
    hide BytesToBits, FlatMap, BitsOf, Base64Value;
    Powers();
    BitsOfShift(bits, bitCount, Base64Value(c), 6);
    FlatMapAppend(Sextet, chars, [c]);
    FlatMapCons(Sextet, c, []);
    Regroup(BytesToBits(bytes), BitsOf(bits, bitCount), Sextet(c));
    ShiftsAreArithmetic(bits, 6);
    Pow2Monotone(bitCount, 7);
  }

  lemma {:induction false} Pow2Monotone(a: nat, b: nat)
    requires a <= b
    ensures Pow2(a) <= Pow2(b)
  {
    if a < b {
      Pow2Monotone(a, b - 1);
    }
  }

  lemma {:induction false} RunLengthIs(s: seq<byte>, k: nat)
    requires k <= |s| && (forall j :: 0 <= j < k ==> IsBase64(s[j]))
    requires k < |s| ==> !IsBase64(s[k])
    ensures RunLength(s) == k
  {
    if k > 0 {
      RunLengthIs(s[1..], k - 1);
    }
  }

  lemma NoBits()
    ensures BytesToBits([]) + BitsOf(0, 0) == RunBits([]) && Pow2(0) == 1
  {
  }

  /** Moves the whole bytes out of the accumulator and masks what is left. */
  method Drain(bytes: array<byte>, byteCount0: nat, bits0: nat, bitCount0: nat)
    returns (byteCount: nat, bits: nat, bitCount: nat)
    requires bitCount0 <= 13 && 8 * byteCount0 + bitCount0 < 8 * bytes.Length
    modifies bytes
    ensures bitCount < 8 && bits < Pow2(bitCount) && 8 * byteCount + bitCount == 8 * byteCount0 + bitCount0
    ensures byteCount <= bytes.Length
    ensures BytesToBits(bytes[..byteCount]) + BitsOf(bits, bitCount) ==
            old(BytesToBits(bytes[..byteCount0])) + BitsOf(bits0, bitCount0)
  {
    byteCount, bits, bitCount := byteCount0, bits0, bitCount0;
    while bitCount >= 8
      invariant 8 * byteCount + bitCount == 8 * byteCount0 + bitCount0
      invariant byteCount <= bytes.Length
      invariant BytesToBits(bytes[..byteCount]) + BitsOf(bits, bitCount) ==
                old(BytesToBits(bytes[..byteCount0])) + BitsOf(bits0, bitCount0)
      decreases bitCount
    {
      ghost var was := bytes[..byteCount];
      EmitByte(was, bits, bitCount);
      bitCount := bitCount - 8;
      bytes[byteCount] := Mask(Shr(bits, bitCount), 8);
      byteCount := byteCount + 1;
      assert bytes[..byteCount] == was + [Mask(Shr(bits, bitCount), 8)];
    }
    BitsOfMask(bits, bitCount);
    bits := Mask(bits, bitCount);
  }

  /** The base64 loop of mutf7_decode, from position start on: whole bytes, and the bits left over. */
  method ReadRun(str: seq<byte>, start: nat)
    returns (bytes: array<byte>, byteCount: nat, bits: nat, bitCount: nat, i: nat)
    requires start <= |str|
    ensures fresh(bytes) && byteCount <= bytes.Length
    ensures i == start + RunLength(str[start..]) && i <= |str|
    ensures bitCount < 8 && bits < Pow2(bitCount) && 8 * byteCount <= 6 * (i - start)
    ensures BytesToBits(bytes[..byteCount]) + BitsOf(bits, bitCount) == RunBits(str[start..i])
  {
    hide RunBits, BytesToBits, BitsOf, RunLength, Shl, Base64Value;
    bytes := new byte[|str| + 1];
    byteCount, bits, bitCount, i := 0, 0, 0, start;
    ghost var chars := [];
    NoBits();
    while i < |str| && IsBase64(str[i])
      invariant start <= i <= |str| && chars == str[start..i] && byteCount <= bytes.Length == |str| + 1
      invariant forall k :: start <= k < i ==> IsBase64(str[k])
      invariant bitCount < 8 && bits < Pow2(bitCount) && 8 * byteCount + bitCount == 6 * (i - start)
      invariant BytesToBits(bytes[..byteCount]) + BitsOf(bits, bitCount) == RunBits(chars)
      decreases |str| - i
    {
      var value := Base64Value(str[i]);
      ShiftIn(chars, str[i], bytes[..byteCount], bits, bitCount);
      chars := chars + [str[i]];
      i := i + 1;
      bits := Shl(bits, 6) + value;
      bitCount := bitCount + 6;
      byteCount, bits, bitCount := Drain(bytes, byteCount, bits, bitCount);
    }
    RunLengthIs(str[start..], i - start);
  }

  /** What the checks after the base64 loop say about the run. */
  lemma RunChecks(chars: seq<byte>, bytes: seq<byte>, bits: nat, bitCount: nat)
    requires bitCount < 8 && bits < Pow2(bitCount)
    requires BytesToBits(bytes) + BitsOf(bits, bitCount) == RunBits(chars)
    ensures DecodeRun(chars) == if chars == [] || Mask(bits, bitCount) != 0 then None else DecodeUtf16(bytes)
  {
    BytesToBitsLength(bytes);
    BytesRoundTrip(bytes, BitsOf(bits, bitCount));
    BitsOfMask(bits, bitCount);
    assert RunBits(chars)[8 * |bytes|..] == BitsOf(bits, bitCount);
    assert |RunBits(chars)| / 8 * 8 == 8 * |bytes|;
  }

  /** One base64 run, from the character after '&' to the closing '-'. */
  method DecodeOneRun(str: seq<byte>, start: nat, output: array<byte>, outputLen: nat)
    returns (ok: bool, len: nat, i: nat)
    requires start <= |str| && outputLen + 2 * (|str| - start) <= output.Length
    modifies output
    ensures var k := RunLength(str[start..]);
            && (ok <==> DecodeRun(str[start..start + k]).Some?)
            && (ok ==>
                  && i == (if start + k < |str| && str[start + k] == DASH then start + k + 1 else start + k)
                  && len <= outputLen + 2 * (i - start) && start < i <= |str|
                  && output[..len] == old(output[..outputLen]) + Utf8All(DecodeRun(str[start..start + k]).value))
  {
    len := outputLen;
    var bytes, byteCount, bits, bitCount;
    bytes, byteCount, bits, bitCount, i := ReadRun(str, start);
    RunChecks(str[start..i], bytes[..byteCount], bits, bitCount);
    if i == start {
      return false, len, i;
    }
    if bitCount != 0 && Mask(bits, bitCount) != 0 {
      return false, len, i;
    }
    ok, len := DecodeUtf16be(bytes, byteCount, output, len);
    if ok && i < |str| && str[i] == DASH {
      i := i + 1;
    }
  }

  /** Decode of a text splits at a character that is neither in a run nor opens one. */
  lemma PassDirect(str: seq<byte>, i: nat, before: seq<byte>)
    requires i < |str| && str[i] != AMPERSAND && Decode(str) == Then(before, Decode(str[i..]))
    ensures Decode(str) == Then(before + [str[i]], Decode(str[i + 1..]))
  {
    assert str[i..][1..] == str[i + 1..];
    ThenThen(before, [str[i]], Decode(str[i + 1..]));
  }

  lemma PassAmpersand(str: seq<byte>, i: nat, before: seq<byte>)
    requires i + 1 < |str| && str[i] == AMPERSAND && str[i + 1] == DASH && Decode(str) == Then(before, Decode(str[i..]))
    ensures Decode(str) == Then(before + [AMPERSAND], Decode(str[i + 2..]))
  {
    assert str[i..][2..] == str[i + 2..];
    ThenThen(before, [AMPERSAND], Decode(str[i + 2..]));
  }

  lemma PassRun(str: seq<byte>, i: nat, k: nat)
    requires i < |str| && str[i] == AMPERSAND && !(i + 1 < |str| && str[i + 1] == DASH)
    requires k == RunLength(str[i + 1..])
    ensures var run := DecodeRun(str[i + 1..i + 1 + k]);
            Decode(str[i..]) ==
            if run.None? then None else Then(Utf8All(run.value), Decode(str[i + AfterRun(str[i..], k)..]))
  {
    hide *;
    Suffix(str, i, 1, 1 + k);
    DecodeRunStep(str[i..]);
    Suffix(str, i, AfterRun(str[i..], k), |str| - i);
  }

  lemma Suffix<T>(s: seq<T>, i: nat, a: nat, b: nat)
    requires i <= |s| && a <= b <= |s| - i
    ensures s[i..][a..] == s[i + a..] && s[i..][a..b] == s[i + a..i + b]
  {
  }

  lemma DecodeRunStep(s: seq<byte>)
    requires s != [] && s[0] == AMPERSAND && !(|s| > 1 && s[1] == DASH)
    ensures var k := RunLength(s[1..]);
            var run := DecodeRun(s[1..1 + k]);
            Decode(s) == if run.None? then None else Then(Utf8All(run.value), Decode(s[AfterRun(s, k)..]))
  {
    hide DecodeRun, RunLength;
  }

  /** mutf7_decode: succeeds on exactly the texts that stand for something, and writes what they
      stand for, NUL-terminated, within 4 * inputLen + 1 bytes. */
  method DecodeText(str: seq<byte>) returns (res: Status, output: array<byte>, outputLen: nat)
    ensures res.ErrorMemory? <==> |str| > (SIZE_MAX - 1) / 4
    ensures !res.ErrorMemory? ==> (res.NoError? <==> Decode(str).Some?)
    ensures res.NoError? ==> outputLen < output.Length == 4 * |str| + 1 && output[outputLen] == 0
    ensures res.NoError? ==> Decode(str) == Some(output[..outputLen])
  {
    hide Decode, DecodeRun, RunLength;
    outputLen := 0;
    if |str| > (SIZE_MAX - 1) / 4 {
      output := new byte[0];
      return ErrorMemory, output, 0;
    }
    output := new byte[|str| * 4 + 1];
    var i := 0;
    assert str[0..] == str;
    StartEmpty(str);
    while i < |str|
      invariant i <= |str| && outputLen <= 4 * i && output.Length == 4 * |str| + 1 && fresh(output)
      invariant Decode(str) == Then(output[..outputLen], Decode(str[i..]))
      decreases |str| - i
    {
      ghost var before := output[..outputLen];
      if str[i] != AMPERSAND {
        PassDirect(str, i, before);
        output[outputLen] := str[i];
        outputLen, i := outputLen + 1, i + 1;
        assert output[..outputLen] == before + [str[i - 1]];
      } else if i + 1 < |str| && str[i + 1] == DASH {
        PassAmpersand(str, i, before);
        output[outputLen] := AMPERSAND;
        outputLen, i := outputLen + 1, i + 2;
        assert output[..outputLen] == before + [AMPERSAND];
      } else {
        var ok, len, next := DecodeOneRun(str, i + 1, output, outputLen);
        ghost var k := RunLength(str[i + 1..]);
        PassRun(str, i, k);
        ghost var run := DecodeRun(str[i + 1..i + 1 + k]);
        if !ok {
          return ErrorConv, output, 0;
        }
        ThenThen(before, Utf8All(run.value), Decode(str[next..]));
        outputLen, i := len, next;
      }
    }
    assert str[i..] == [];
    DecodeEmpty(output[..outputLen]);
    output[outputLen] := 0;
    res := NoError;
  }

  lemma DecodeEmpty(out: seq<byte>)
    ensures Then(out, Decode([])) == Some(out)
  {
    assert out + [] == out;
  }

  lemma StartEmpty(str: seq<byte>)
    ensures Decode(str) == Then([], Decode(str))
  {
    if Decode(str).Some? {
      assert [] + Decode(str).value == Decode(str).value;
    }
  }
}
