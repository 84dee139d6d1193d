/** The mailbox name encoding of section 5.1.3 of RFC 3501 (modified UTF-7): its definition on
  values, the round trip, and what makes an encoding canonical.

  Encode and Decode are definitions by recursion on the text; the loops of
  src/data-types/charconv.c are proved to compute them in modules Mutf7Decoder and Mutf7Encoder.
 */
module Mutf7 {
  import opened Options
  import opened Bits
  import opened Unicode

  const AMPERSAND: byte := 0x26
  const DASH: byte := 0x2d

  /** mutf7_is_direct: characters that stand for themselves. */
  predicate IsDirect(cp: int) {
    0x20 <= cp <= 0x7e && cp != 0x26
  }

  /** Code points that are written as base64. */
  predicate IsShifted(cp: int) {
    !IsDirect(cp) && cp != 0x26
  }

  /** The alphabet of the encoder: A-Z a-z 0-9 + and a comma in place of the slash. */
  function Alphabet(v: int): (c: byte)
    requires 0 <= v < 64
  {
    if v < 26 then 0x41 + v
    else if v < 52 then 0x61 + (v - 26)
    else if v < 62 then 0x30 + (v - 52)
    else if v == 62 then 0x2b
    else 0x2c
  }

  /** mutf7_base64_value */
  function Base64Value(ch: byte): (v: int)
    ensures -1 <= v < 64
  {
    if 0x41 <= ch <= 0x5a then ch - 0x41
    else if 0x61 <= ch <= 0x7a then ch - 0x61 + 26
    else if 0x30 <= ch <= 0x39 then ch - 0x30 + 52
    else if ch == 0x2b then 62
    else if ch == 0x2c then 63
    else -1
  }

  predicate IsBase64(ch: byte) {
    Base64Value(ch) >= 0
  }

  lemma AlphabetRoundTrip()
    ensures forall v :: 0 <= v < 64 ==> Base64Value(Alphabet(v)) == v
    ensures forall c: byte :: IsBase64(c) ==> Alphabet(Base64Value(c)) == c
  {
  }

  ghost function Sextet(c: byte): (bits: seq<bool>)
    ensures |bits| == 6
  {
    BitsOf(if IsBase64(c) then Base64Value(c) else 0, 6)
  }

  /** The bits a run of base64 characters stands for. */
  ghost function RunBits(chars: seq<byte>): seq<bool> {
    FlatMap(Sextet, chars)
  }

  /** A bit string in base64, the last sextet filled up with zero bits. */
  ghost function Base64(bits: seq<bool>): (chars: seq<byte>)
    decreases |bits|
  {
    if bits == [] then []
    else if |bits| < 6 then
      [SextetChar(bits + Zeros(6 - |bits|))]
    else
      [SextetChar(bits[..6])] + Base64(bits[6..])
  }

  /** The character for six bits. */
  ghost function SextetChar(bits: seq<bool>): (c: byte)
    requires |bits| == 6
    ensures IsBase64(c) && Sextet(c) == bits
  {
    SextetCharExists(bits);
    var c: byte :| IsBase64(c) && Sextet(c) == bits;
    c
  }

  lemma SextetCharExists(bits: seq<bool>)
    requires |bits| == 6
    ensures Num(bits) < 64 && IsBase64(Alphabet(Num(bits))) && Sextet(Alphabet(Num(bits))) == bits
  {
    NumBound(bits);
    Powers();
    BitsOfNum(bits);
    AlphabetRoundTrip();
  }

  /** It is the one the encoder takes from its table. */
  lemma SextetCharIsAlphabet(bits: seq<bool>)
    requires |bits| == 6
    ensures Num(bits) < 64 && SextetChar(bits) == Alphabet(Num(bits))
  {
    SextetCharExists(bits);
    var c := SextetChar(bits);
    Powers();
    NumOfBits(Base64Value(c), 6);
    AlphabetRoundTrip();
  }

  /** Length of the longest prefix of base64 characters. */
  ghost function RunLength(s: seq<byte>): (k: nat)
    ensures k <= |s|
  {
    if s == [] || !IsBase64(s[0]) then 0 else 1 + RunLength(s[1..])
  }

  /** Length of the longest prefix of code points written as base64. */
  ghost function ShiftLength(cps: seq<Scalar>): (k: nat)
    ensures k <= |cps|
  {
    if cps == [] || !IsShifted(cps[0]) then 0 else 1 + ShiftLength(cps[1..])
  }

  /** Every maximal run of code points that cannot stand for themselves becomes one base64 run
      over their UTF-16; '&' becomes "&-". */
  ghost function Encode(cps: seq<Scalar>): seq<byte>
    decreases |cps|
  {
    if cps == [] then []
    else if IsDirect(cps[0]) then [cps[0]] + Encode(cps[1..])
    else if cps[0] == 0x26 then [AMPERSAND, DASH] + Encode(cps[1..])
    else
      var k := ShiftLength(cps);
      [AMPERSAND] + Base64(BytesToBits(Utf16All(cps[..k]))) + [DASH] + Encode(cps[k..])
  }

  /** The code points of one base64 run: whole bytes, zero padding, well-formed UTF-16. */
  ghost function DecodeRun(chars: seq<byte>): (r: Option<seq<Scalar>>) {
    var bits := RunBits(chars);
    var whole := |bits| / 8 * 8;
    if chars == [] || Num(bits[whole..]) != 0 then None
    else DecodeUtf16(BitsToBytes(bits))
  }

  /** The bytes a text stands for, or None where it is malformed.  The '-' that closes a run may
      be missing, and bytes outside runs are taken over as they are. */
  ghost function Decode(s: seq<byte>): (r: Option<seq<byte>>)
    decreases |s|
  {
    if s == [] then Some([])
    else if s[0] != AMPERSAND then Then([s[0]], Decode(s[1..]))
    else if |s| > 1 && s[1] == DASH then Then([AMPERSAND], Decode(s[2..]))
    else
      var k := RunLength(s[1..]);
      match DecodeRun(s[1..1 + k])
      case None => None
      case Some(cps) => Then(Utf8All(cps), Decode(s[AfterRun(s, k)..]))
  }

  /** The position after a run of k characters that starts at s[1], and its closing '-' if any. */
  ghost function AfterRun(s: seq<byte>, k: nat): (i: nat)
    requires 1 + k <= |s|
    ensures 1 <= i <= |s|
  {
    if 1 + k < |s| && s[1 + k] == DASH then 2 + k else 1 + k
  }

  ghost function Then(first: seq<byte>, rest: Option<seq<byte>>): Option<seq<byte>> {
    if rest.Some? then Some(first + rest.value) else None
  }

  // Base64 runs

  ghost function Padding(n: nat): (pad: nat)
    ensures pad < 6 && (n + pad) % 6 == 0
  {
    if n % 6 == 0 then 0 else 6 - n % 6
  }

  lemma PaddingStep(n: nat)
    requires n >= 6
    ensures Padding(n) == Padding(n - 6)
  {
  }

  lemma {:induction false} Base64RoundTrip(bits: seq<bool>)
    ensures RunBits(Base64(bits)) == bits + Zeros(Padding(|bits|))
    decreases |bits|
  {
    if bits == [] {
    } else if |bits| < 6 {
      Base64Last(bits);
    } else {
      Base64RoundTrip(bits[6..]);
      PaddingStep(|bits|);
      Base64Step(bits, Zeros(Padding(|bits| - 6)));
    }
  }

  lemma Base64Last(bits: seq<bool>)
    requires 0 < |bits| < 6
    ensures RunBits(Base64(bits)) == bits + Zeros(6 - |bits|)
  {
    RunBitsCons(SextetChar(bits + Zeros(6 - |bits|)), [], bits + Zeros(6 - |bits|), []);
  }

  lemma Base64Step(bits: seq<bool>, tail: seq<bool>)
    requires |bits| >= 6 && RunBits(Base64(bits[6..])) == bits[6..] + tail
    ensures RunBits(Base64(bits)) == bits + tail
  {
    RunBitsCons(SextetChar(bits[..6]), Base64(bits[6..]), bits[..6], bits[6..] + tail);
    SplitAndAppend(bits, 6, tail);
  }

  lemma SplitAndAppend(bits: seq<bool>, k: nat, tail: seq<bool>)
    requires k <= |bits|
    ensures bits[..k] + (bits[k..] + tail) == bits + tail
  {
  }

  lemma RunBitsCons(c: byte, chars: seq<byte>, first: seq<bool>, rest: seq<bool>)
    requires Sextet(c) == first && RunBits(chars) == rest
    ensures RunBits([c] + chars) == first + rest
    ensures chars == [] ==> RunBits([c]) == first
  {
    FlatMapCons(Sextet, c, chars);
  }

  lemma {:induction false} Base64IsRun(bits: seq<bool>)
    ensures RunLength(Base64(bits)) == |Base64(bits)|
    decreases |bits|
  {
    if |bits| >= 6 {
      Base64IsRun(bits[6..]);
      assert Base64(bits)[1..] == Base64(bits[6..]);
    }
  }

  lemma {:induction false} RunLengthAppend(chars: seq<byte>, more: seq<byte>)
    requires RunLength(chars) == |chars| && (more == [] || !IsBase64(more[0]))
    ensures RunLength(chars + more) == |chars|
  {
    if chars == [] {
      assert chars + more == more;
    } else {
      RunLengthAppend(chars[1..], more);
      assert (chars + more)[1..] == chars[1..] + more;
    }
  }

  /** One run of code points survives base64. */
  lemma RunRoundTrip(cps: seq<Scalar>)
    requires cps != []
    ensures var chars := Base64(BytesToBits(Utf16All(cps)));
            RunLength(chars) == |chars| && DecodeRun(chars) == Some(cps)
  {
    var bytes := Utf16All(cps);
    var bits := BytesToBits(bytes);
    Base64RoundTrip(bits);
    Base64IsRun(bits);
    BytesToBitsLength(bytes);
    var chars := Base64(bits);
    var pad := Padding(|bits|);
    BytesRoundTrip(bytes, Zeros(pad));
    assert RunBits(chars)[|bits|..] == Zeros(pad);
    NumZeros(pad);
    Utf16RoundTrip(cps);
    assert |RunBits(chars)| / 8 * 8 == |bits|;
  }

  lemma {:induction false} BytesToBitsLength(bytes: seq<byte>)
    ensures |BytesToBits(bytes)| == 8 * |bytes|
  {
    if bytes != [] {
      BytesToBitsLength(bytes[1..]);
    }
  }

  /** Decoding undoes encoding, for every text. */
  lemma {:induction false} EncodeDecode(cps: seq<Scalar>)
    ensures Decode(Encode(cps)) == Some(Utf8All(cps))
    decreases |cps|
  {
    if cps == [] {
    } else if IsDirect(cps[0]) {
      EncodeDecode(cps[1..]);
      DecodeAtDirect(cps[0], Encode(cps[1..]));
    } else if cps[0] == 0x26 {
      EncodeDecode(cps[1..]);
      DecodeAtAmpersand(Encode(cps[1..]));
    } else {
      var k := ShiftLength(cps);
      EncodeDecode(cps[k..]);
      RunRoundTrip(cps[..k]);
      DecodeAtRun(Base64(BytesToBits(Utf16All(cps[..k]))), Encode(cps[k..]), cps[..k]);
      assert Utf8All(cps[..k]) + Utf8All(cps[k..]) == Utf8All(cps) by {
        FlatMapAppend(Utf8, cps[..k], cps[k..]);
        assert cps == cps[..k] + cps[k..];
      }
    }
  }

  lemma DecodeAtDirect(c: byte, rest: seq<byte>)
    requires c != AMPERSAND
    ensures Decode([c] + rest) == Then([c], Decode(rest))
  {
    assert ([c] + rest)[1..] == rest;
  }

  lemma DecodeAtAmpersand(rest: seq<byte>)
    ensures Decode([AMPERSAND, DASH] + rest) == Then([AMPERSAND], Decode(rest))
  {
    assert ([AMPERSAND, DASH] + rest)[2..] == rest;
  }

  lemma DecodeAtRun(chars: seq<byte>, rest: seq<byte>, cps: seq<Scalar>)
    requires RunLength(chars) == |chars| && DecodeRun(chars) == Some(cps)
    ensures Decode([AMPERSAND] + chars + [DASH] + rest) == Then(Utf8All(cps), Decode(rest))
  {
    RunFollowed(chars, rest);
  }

  /** Taking a closed run apart. */
  lemma RunFollowed(chars: seq<byte>, rest: seq<byte>)
    requires chars != [] && RunLength(chars) == |chars|
    ensures var s, k := [AMPERSAND] + chars + [DASH] + rest, |chars|;
            && s[0] == AMPERSAND && s[1] != DASH && 1 + k < |s| && RunLength(s[1..]) == k
            && s[1 + k] == DASH && s[1..1 + k] == chars && s[2 + k..] == rest
  {
    Wrapped(AMPERSAND, chars, DASH, rest);
    RunLengthAppend(chars, [DASH] + rest);
    assert IsBase64(chars[0]);
  }

  lemma Wrapped(open: byte, chars: seq<byte>, close: byte, rest: seq<byte>)
    ensures var s, k := [open] + chars + [close] + rest, |chars|;
            && s[1..] == chars + ([close] + rest) && s[1..1 + k] == chars
            && s[1 + k] == close && s[2 + k..] == rest && (k > 0 ==> s[1] == chars[0])
  {
  }
}
