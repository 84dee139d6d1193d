/** Which texts the encoder of modified UTF-7 produces (section 5.1.3 of RFC 3501): exactly the
  canonical ones, each for one sequence of code points only.
 */
module Mutf7Canonical {
  import opened Options
  import opened Bits
  import opened Unicode
  import opened Mutf7

  /** A shift into base64, as opposed to the escape "&-". */
  ghost predicate StartsRun(s: seq<byte>) {
    s != [] && s[0] == AMPERSAND && !(|s| > 1 && s[1] == DASH)
  }

  ghost predicate AllShifted(cps: seq<Scalar>) {
    forall k :: 0 <= k < |cps| ==> IsShifted(cps[k])
  }

  /** A run that decodes, to code points none of which could stand for itself, and is as short as
      possible. */
  ghost predicate CanonicalRun(chars: seq<byte>) {
    && DecodeRun(chars).Some? && AllShifted(DecodeRun(chars).value)
    && |RunBits(chars)| % 8 < 6
  }

  /** Printable ASCII; every run is canonical, closed by '-', and not followed by another run. */
  ghost predicate IsCanonical(s: seq<byte>)
    decreases |s|
  {
    if s == [] then true
    else if s[0] != AMPERSAND then IsDirect(s[0]) && IsCanonical(s[1..])
    else if !StartsRun(s) then IsCanonical(s[2..])
    else
      var k := RunLength(s[1..]);
      && 1 + k < |s| && s[1 + k] == DASH
      && CanonicalRun(s[1..1 + k])
      && !StartsRun(s[2 + k..])
      && IsCanonical(s[2 + k..])
  }

  lemma {:induction false} CanonicalIsPrintable(s: seq<byte>)
    requires IsCanonical(s)
    ensures forall k :: 0 <= k < |s| ==> 0x20 <= s[k] <= 0x7e
    decreases |s|
  {
    hide CanonicalRun, RunLength;
    if s == [] {
    } else if s[0] != AMPERSAND {
      CanonicalIsPrintable(s[1..]);
      assert s == [s[0]] + s[1..];
    } else if !StartsRun(s) {
      CanonicalIsPrintable(s[2..]);
      assert s == [s[0], s[1]] + s[2..];
    } else {
      var k := RunLength(s[1..]);
      RunIsBase64(s[1..]);
      CanonicalIsPrintable(s[2 + k..]);
      assert s == [s[0]] + s[1..][..k] + [s[1 + k]] + s[2 + k..];
    }
  }

  lemma {:induction false} RunIsBase64(s: seq<byte>)
    ensures forall k :: 0 <= k < RunLength(s) ==> IsBase64(s[k])
    ensures RunLength(s) < |s| ==> !IsBase64(s[RunLength(s)])
  {
    if s != [] && IsBase64(s[0]) {
      RunIsBase64(s[1..]);
      assert forall k :: 1 <= k < |s| ==> s[k] == s[1..][k - 1];
    }
  }

  lemma {:induction false} RunLengthPrefix(s: seq<byte>)
    ensures RunLength(s[..RunLength(s)]) == RunLength(s)
  {
    if s != [] && IsBase64(s[0]) {
      RunLengthPrefix(s[1..]);
      var k := RunLength(s[1..]);
      assert s[..1 + k][1..] == s[1..][..k];
    }
  }

  lemma {:induction false} ShiftIsMaximal(cps: seq<Scalar>)
    ensures AllShifted(cps[..ShiftLength(cps)])
    ensures ShiftLength(cps) < |cps| ==> !IsShifted(cps[ShiftLength(cps)])
  {
    if cps != [] && IsShifted(cps[0]) {
      ShiftIsMaximal(cps[1..]);
      var k := ShiftLength(cps[1..]);
      assert cps[..1 + k] == [cps[0]] + cps[1..][..k];
    }
  }

  /** What the encoder writes is canonical. */
  lemma {:induction false} EncodeIsCanonical(cps: seq<Scalar>)
    ensures IsCanonical(Encode(cps))
    ensures cps != [] ==> (StartsRun(Encode(cps)) <==> IsShifted(cps[0]))
    decreases |cps|
  {
    if cps == [] {
    } else if IsDirect(cps[0]) {
      EncodeIsCanonical(cps[1..]);
      assert Encode(cps)[1..] == Encode(cps[1..]);
    } else if cps[0] == 0x26 {
      EncodeIsCanonical(cps[1..]);
      assert Encode(cps)[2..] == Encode(cps[1..]);
    } else {
      var k := ShiftLength(cps);
      ShiftIsMaximal(cps);
      EncodeIsCanonical(cps[k..]);
      EncodedRunIsCanonical(cps[..k], Encode(cps[k..]));
    }
  }

  lemma EncodedRunIsCanonical(cps: seq<Scalar>, rest: seq<byte>)
    requires cps != [] && AllShifted(cps) && IsCanonical(rest) && !StartsRun(rest)
    ensures var s := [AMPERSAND] + Base64(BytesToBits(Utf16All(cps))) + [DASH] + rest;
            IsCanonical(s) && StartsRun(s)
  {
    EncodedRun(cps);
    RunFollowed(Base64(BytesToBits(Utf16All(cps))), rest);
  }

  lemma EncodedRun(cps: seq<Scalar>)
    requires cps != [] && AllShifted(cps)
    ensures var chars := Base64(BytesToBits(Utf16All(cps)));
            CanonicalRun(chars) && chars != [] && RunLength(chars) == |chars|
  {
    hide Base64, DecodeRun, RunBits, BytesToBits;
    var bits := BytesToBits(Utf16All(cps));
    RunRoundTrip(cps);
    Base64RoundTrip(bits);
    BytesToBitsLength(Utf16All(cps));
    assert |RunBits(Base64(bits))| % 8 < 6;
    EmptyRun();
  }

  lemma EmptyRun()
    ensures DecodeRun([]) == None
  {
  }

  /** A canonical text is what the encoder makes of the code points it stands for. */
  lemma {:induction false} CanonicalIsEncode(s: seq<byte>) returns (cps: seq<Scalar>)
    requires IsCanonical(s)
    ensures Encode(cps) == s
    decreases |s|
  {
    if s == [] {
      cps := [];
    } else if s[0] != AMPERSAND {
      var rest := CanonicalIsEncode(s[1..]);
      cps := [s[0]] + rest;
      assert cps[1..] == rest;
    } else if !StartsRun(s) {
      var rest := CanonicalIsEncode(s[2..]);
      cps := [0x26] + rest;
      assert cps[1..] == rest;
      assert s == [s[0], s[1]] + s[2..];
    } else {
      var k := RunLength(s[1..]);
      var rest := CanonicalIsEncode(s[2 + k..]);
      cps := DecodeRun(s[1..1 + k]).value + rest;
      ReencodeRun(s, k, rest);
    }
  }

  lemma ReencodeRun(s: seq<byte>, k: nat, rest: seq<Scalar>)
    requires s != [] && s[0] == AMPERSAND && k == RunLength(s[1..]) && 1 + k < |s| && s[1 + k] == DASH
    requires CanonicalRun(s[1..1 + k]) && !StartsRun(s[2 + k..]) && Encode(rest) == s[2 + k..]
    ensures Encode(DecodeRun(s[1..1 + k]).value + rest) == s
  {
    Unwrap(s, k);
    assert rest == [] || !IsShifted(rest[0]) by {
      EncodeIsCanonical(rest);
    }
    assert RunLength(s[1..1 + k]) == k by {
      RunLengthPrefix(s[1..]);
    }
    EncodeOfRun(s[1..1 + k], rest);
  }

  lemma Unwrap(s: seq<byte>, k: nat)
    requires 1 + k < |s|
    ensures s == [s[0]] + s[1..1 + k] + [s[1 + k]] + s[2 + k..]
    ensures s[1..][..k] == s[1..1 + k]
  {
  }

  lemma EncodeOfRun(chars: seq<byte>, rest: seq<Scalar>)
    requires CanonicalRun(chars) && RunLength(chars) == |chars|
    requires rest == [] || !IsShifted(rest[0])
    ensures Encode(DecodeRun(chars).value + rest) == [AMPERSAND] + chars + [DASH] + Encode(rest)
  {
    var cps := DecodeRun(chars).value;
    var bits := RunBits(chars);
    var whole := |bits| / 8 * 8;
    DecodeUtf16Sound(BitsToBytes(bits));
    BitsRoundTrip(bits);
    ZeroMeansZeros(bits[whole..]);
    assert bits == bits[..whole] + bits[whole..];
    RunIsBase64(chars);
    RunBitsLength(chars);
    Base64OfRun(chars, bits[..whole], |bits| - whole);
    ShiftLengthAppend(cps, rest);
    assert (cps + rest)[..|cps|] == cps && (cps + rest)[|cps|..] == rest;
  }

  lemma {:induction false} ShiftLengthAppend(cps: seq<Scalar>, rest: seq<Scalar>)
    requires AllShifted(cps) && (rest == [] || !IsShifted(rest[0]))
    ensures ShiftLength(cps + rest) == |cps|
  {
    if cps == [] {
      assert cps + rest == rest;
    } else {
      ShiftLengthAppend(cps[1..], rest);
      assert (cps + rest)[1..] == cps[1..] + rest;
    }
  }

  /** Base64 of the bits a run stands for, less its padding, is the run. */
  lemma {:induction false} Base64OfRun(chars: seq<byte>, data: seq<bool>, pad: nat)
    requires forall k :: 0 <= k < |chars| ==> IsBase64(chars[k])
    requires RunBits(chars) == data + Zeros(pad) && pad < 6
    ensures Base64(data) == chars
    decreases |chars|
  {
    RunBitsLength(chars);
    if chars == [] {
    } else {
      var c, rest := chars[0], chars[1..];
      assert RunBits(chars)[..6] == Sextet(c) && RunBits(chars)[6..] == RunBits(rest);
      if |data| < 6 {
        assert rest == [];
        SextetCharUnique(c, data + Zeros(6 - |data|));
      } else {
        assert data[..6] == Sextet(c) && data[6..] + Zeros(pad) == RunBits(rest);
        Base64OfRun(rest, data[6..], pad);
        SextetCharUnique(c, data[..6]);
      }
    }
  }

  lemma SextetCharUnique(c: byte, bits: seq<bool>)
    requires IsBase64(c) && Sextet(c) == bits
    ensures SextetChar(bits) == c
  {
    SextetCharIsAlphabet(bits);
    Powers();
    NumOfBits(Base64Value(c), 6);
    AlphabetRoundTrip();
  }

  lemma {:induction false} RunBitsLength(chars: seq<byte>)
    ensures |RunBits(chars)| == 6 * |chars|
  {
    if chars != [] {
      RunBitsLength(chars[1..]);
    }
  }

  /** The texts the encoder produces are the canonical ones. */
  lemma CanonicalIffEncoded(s: seq<byte>)
    ensures IsCanonical(s) <==> exists cps :: Encode(cps) == s
  {
    if IsCanonical(s) {
      var cps := CanonicalIsEncode(s);
      assert Encode(cps) == s;
    }
    if cps :| Encode(cps) == s {
      EncodeIsCanonical(cps);
    }
  }

  /** Two canonical texts that stand for the same bytes are equal. */
  lemma CanonicalIsUnique(s: seq<byte>, t: seq<byte>)
    requires IsCanonical(s) && IsCanonical(t) && Decode(s) == Decode(t)
    ensures s == t
  {
    var a := CanonicalIsEncode(s);
    var b := CanonicalIsEncode(t);
    EncodeDecode(a);
    EncodeDecode(b);
    assert Utf8All(a)[0..] == Utf8All(a) && Utf8All(b)[0..] == Utf8All(b);
    DecodeUtf8Complete(Utf8All(a), 0, a);
    DecodeUtf8Complete(Utf8All(b), 0, b);
  }

  /** Decoding ASCII yields well-formed UTF-8 whenever it succeeds. */
  lemma {:induction false} DecodeIsWellFormed(s: seq<byte>) returns (cps: seq<Scalar>)
    requires forall k :: 0 <= k < |s| ==> s[k] <= 0x7f
    requires Decode(s).Some?
    ensures Utf8All(cps) == Decode(s).value
    decreases |s|
  {
    if s == [] {
      cps := [];
    } else if s[0] != AMPERSAND {
      var rest := DecodeIsWellFormed(s[1..]);
      var c: Scalar := s[0];
      cps := [c] + rest;
      FlatMapCons<Scalar, byte>(Utf8, c, rest);
    } else if |s| > 1 && s[1] == DASH {
      var rest := DecodeIsWellFormed(s[2..]);
      cps := [0x26] + rest;
      FlatMapCons<Scalar, byte>(Utf8, 0x26, rest);
    } else {
      var k := RunLength(s[1..]);
      var run := DecodeRun(s[1..1 + k]).value;
      var rest := DecodeIsWellFormed(s[AfterRun(s, k)..]);
      cps := run + rest;
      FlatMapAppend(Utf8, run, rest);
    }
  }
}
