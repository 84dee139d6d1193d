/** What the encoder of modified UTF-7 writes, in terms of numbers alone: which characters stand for
  themselves, base64 by groups of bytes, and answers that can be compared with section 5.1.3 of RFC 3501.
 */
module Mutf7Answers {
  import opened Sequences
  import opened Options
  import opened Bits
  import opened Unicode
  import opened Mutf7
  import opened Mutf7Canonical
  import opened Mutf7Encoder

  // Outside runs

  /** Printable ASCII other than the ampersand is written as it is. */
  lemma PrintableIsCopied(cp: Scalar, rest: seq<Scalar>)
    requires 0x20 <= cp <= 0x7e && cp != 0x26
    ensures Encode([cp] + rest) == [cp] + Encode(rest)
  {
    assert ([cp] + rest)[1..] == rest;
  }

  lemma AmpersandIsEscaped(rest: seq<Scalar>)
    ensures Encode([0x26] + rest) == [0x26, 0x2d] + Encode(rest)
  {
    assert ([0x26] + rest)[1..] == rest;
  }

  /** All others that stand together are one run. */
  lemma OthersAreOneRun(run: seq<Scalar>, rest: seq<Scalar>)
    requires run != [] && forall i :: 0 <= i < |run| ==> run[i] < 0x20 || run[i] > 0x7e
    requires rest != [] ==> 0x20 <= rest[0] <= 0x7e
    ensures Encode(run + rest) == [0x26] + (Base64(BytesToBits(Utf16All(run))) + ([0x2d] + Encode(rest)))
  {
    hide Base64, FlatMap;
    RunIsWhole(run, rest);
    var bits := BytesToBits(Utf16All(run));
    var cps := run + rest;
    assert cps[..|run|] == run && cps[|run|..] == rest;
    assert cps[0] == run[0];
    Regroup([AMPERSAND], Base64(bits), [DASH]);
    Regroup([AMPERSAND], Base64(bits) + [DASH], Encode(rest));
    Regroup(Base64(bits), [DASH], Encode(rest));
  }

  lemma {:induction false} RunIsWhole(run: seq<Scalar>, rest: seq<Scalar>)
    requires forall i :: 0 <= i < |run| ==> run[i] < 0x20 || run[i] > 0x7e
    requires rest != [] ==> 0x20 <= rest[0] <= 0x7e
    ensures ShiftLength(run + rest) == |run|
  {
    if run == [] {
      assert run + rest == rest;
    } else {
      assert (run + rest)[1..] == run[1..] + rest;
      RunIsWhole(run[1..], rest);
    }
  }

  ghost predicate NonePrintable(cps: seq<Scalar>) {
    forall i :: 0 <= i < |cps| ==> cps[i] < 0x20 || cps[i] > 0x7e
  }

  /** In a text every byte outside runs is printable, and no run holds a character that is. */
  ghost predicate RunsAreNeeded(s: seq<byte>)
    decreases |s|
  {
    if s == [] then true
    else if s[0] != 0x26 then 0x20 <= s[0] <= 0x7e && RunsAreNeeded(s[1..])
    else if |s| > 1 && s[1] == 0x2d then RunsAreNeeded(s[2..])
    else
      var k := RunLength(s[1..]);
      && 1 + k < |s| && s[1 + k] == 0x2d
      && DecodeRun(s[1..1 + k]).Some?
      && NonePrintable(DecodeRun(s[1..1 + k]).value)
      && RunsAreNeeded(s[2 + k..])
  }

  lemma {:induction false} CanonicalRunsAreNeeded(s: seq<byte>)
    requires IsCanonical(s)
    ensures RunsAreNeeded(s)
    decreases |s|
  {
    hide DecodeRun, RunBits;
    if s == [] {
    } else if s[0] != 0x26 {
      CanonicalRunsAreNeeded(s[1..]);
    } else if |s| > 1 && s[1] == 0x2d {
      CanonicalRunsAreNeeded(s[2..]);
    } else {
      var k := RunLength(s[1..]);
      CanonicalRunsAreNeeded(s[2 + k..]);
    }
  }

  // Base64 by bytes

  /** The alphabet: A to Z, a to z, 0 to 9, + and a comma. */
  lemma AlphabetIs(v: int)
    requires 0 <= v < 64
    ensures v < 26 ==> Alphabet(v) == 'A' as int + v
    ensures 26 <= v < 52 ==> Alphabet(v) == 'a' as int + v - 26
    ensures 52 <= v < 62 ==> Alphabet(v) == '0' as int + v - 52
    ensures v == 62 ==> Alphabet(v) == '+' as int
    ensures v == 63 ==> Alphabet(v) == ',' as int
  {
  }

  /** With v of k bits pending, a byte completes a character. */
  lemma CompletesOne(v: nat, k: nat, b: byte, more: seq<bool>)
    requires (k == 0 && v == 0) || (k == 2 && v < 4)
    ensures var w := 256 * v + (b as int);
            var n := k + 2;
            && 0 <= w / Pow2(n) < 64
            && Base64(BitsOf(v, k) + (Octet(b) + more)) ==
               [Alphabet(w / Pow2(n))] + Base64(BitsOf(w % Pow2(n), n) + more)
  {
    hide Base64, BitsOf, Shl, Shr, Mask, Alphabet;
    Powers();
    BitsOfShift(v, k, b, 8);
    ShiftsAreArithmetic(v, 8);
    Regroup(BitsOf(v, k), BitsOf(b, 8), more);
    var w, n := Shl(v, 8) + (b as int), k + 2;
    EmitChar(w, k + 8, more);
    ShiftsAreArithmetic(w, n);
    ShiftsAreArithmetic(w / Pow2(n), 6);
    BitsOfMask(w, n);
    assert w / Pow2(n) < 64;
  }

  /** With four bits pending, a byte completes two. */
  lemma CompletesTwo(v: nat, b: byte, more: seq<bool>)
    requires v < 16
    ensures Base64(BitsOf(v, 4) + (Octet(b) + more)) ==
            [Alphabet(v * 4 + b / 64)] + ([Alphabet(b % 64)] + Base64(more))
  {
    hide Base64, BitsOf, Shl, Shr, Mask, Alphabet;
    Powers();
    BitsOfShift(v, 4, b, 8);
    ShiftsAreArithmetic(v, 8);
    Regroup(BitsOf(v, 4), BitsOf(b, 8), more);
    var w := Shl(v, 8) + (b as int);
    EmitChar(w, 12, more);
    ShiftsAreArithmetic(w, 6);
    ShiftsAreArithmetic(w / 64, 6);
    EmitChar(w, 6, more);
    ShiftsAreArithmetic(w, 0);
    ShiftsAreArithmetic(w, 6);
    NoBitsLeft(w, more);
    assert w / 64 == v * 4 + b / 64 && w % 64 == b % 64;
  }

  lemma NoBitsLeft(w: nat, more: seq<bool>)
    ensures BitsOf(w, 0) + more == more && Pow2(0) == 1 && w / 1 == w
  {
  }

  /** Base64 as it is usually told: three bytes are four characters. */
  lemma ThreeBytes(a: byte, b: byte, c: byte, more: seq<bool>)
    ensures Base64(Octet(a) + (Octet(b) + (Octet(c) + more))) ==
            [Alphabet(a / 4)] + ([Alphabet(a % 4 * 16 + b / 16)]
              + ([Alphabet(b % 16 * 4 + c / 64)] + ([Alphabet(c % 64)] + Base64(more))))
  {
    hide Base64, BitsOf, Alphabet, Octet;
    FirstByte(a, Octet(b) + (Octet(c) + more));
    SecondByte(a % 4, b, Octet(c) + more);
    CompletesTwo(b % 16, c, more);
  }

  lemma FirstByte(a: byte, more: seq<bool>)
    ensures Base64(Octet(a) + more) == [Alphabet(a / 4)] + Base64(BitsOf(a % 4, 2) + more)
  {
    hide Base64, Alphabet, Octet;
    Powers();
    CompletesOne(0, 0, a, more);
    assert BitsOf(0, 0) + (Octet(a) + more) == Octet(a) + more;
  }

  lemma SecondByte(v: nat, b: byte, more: seq<bool>)
    requires v < 4
    ensures Base64(BitsOf(v, 2) + (Octet(b) + more)) == [Alphabet(v * 16 + b / 16)] + Base64(BitsOf(b % 16, 4) + more)
  {
    hide Base64, Alphabet, Octet, BitsOf;
    Powers();
    CompletesOne(v, 2, b, more);
    assert (256 * v + (b as int)) / 16 == v * 16 + b / 16 && (256 * v + (b as int)) % 16 == b % 16;
  }

  /** A last byte alone is two characters, the second one padded with zeros; and two last bytes are three. */
  lemma LastBytes(a: byte, b: byte)
    ensures Base64(Octet(a)) == [Alphabet(a / 4), Alphabet(a % 4 * 16)]
    ensures Base64(Octet(a) + Octet(b)) == [Alphabet(a / 4), Alphabet(a % 4 * 16 + b / 16), Alphabet(b % 16 * 4)]
  {
    hide Base64, Alphabet, Octet, BitsOf;
    assert Octet(a) + [] == Octet(a) && Octet(b) + [] == Octet(b);
    assert BitsOf(a % 4, 2) + [] == BitsOf(a % 4, 2) && BitsOf(b % 16, 4) + [] == BitsOf(b % 16, 4);
    FirstByte(a, []);
    FirstByte(a, Octet(b));
    SecondByte(a % 4, b, []);
    LastBits(a % 4, 2);
    LastBits(b % 16, 4);
  }

  lemma LastBits(v: nat, k: nat)
    requires (k == 2 && v < 4) || (k == 4 && v < 16)
    ensures var w := v * if k == 2 then 16 else 4; w < 64 && Base64(BitsOf(v, k)) == [Alphabet(w)]
  {
    hide Base64, Alphabet, BitsOf, Mask, Shl;
    LastValue(v, k);
    LastChar(v, k);
  }

  lemma LastValue(v: nat, k: nat)
    requires (k == 2 && v < 4) || (k == 4 && v < 16)
    ensures v < Pow2(k) && Mask(Shl(v, 6 - k), 6) == v * if k == 2 then 16 else 4
  {
    Powers();
    hide Mask, Shl, Pow2;
    ShiftsAreArithmetic(v, 6 - k);
    ShiftsAreArithmetic(Shl(v, 6 - k), 6);
  }

  // Answers

  /** UTF-16, high byte first; a surrogate pair beyond 0xffff. */
  lemma Utf16Is(cp: Scalar)
    ensures cp <= 0xffff ==> Utf16(cp) == [cp / 256, cp % 256]
    ensures cp > 0xffff ==>
              var u := cp - 0x10000;
              Utf16(cp) == [0xd8 + u / 0x4_0000, u / 0x400 % 0x100, 0xdc + u % 0x400 / 0x100, u % 0x100]
  {
    if cp > 0xffff {
      var u := cp - 0x10000;
      var high, low: nat := u / 0x400, u % 0x400;
      assert u == high * 0x400 + low;
      assert (0xd800 + high) / 256 == 0xd8 + high / 256 && (0xd800 + high) % 256 == high % 256;
      assert (0xdc00 + low) / 256 == 0xdc + low / 256 && (0xdc00 + low) % 256 == low % 256;
      Quotients(u);
    }
  }

  lemma Quotients(u: int)
    requires 0 <= u <= 0xf_ffff
    ensures u / 0x400 / 0x100 == u / 0x4_0000 && u % 0x400 % 0x100 == u % 0x100
  {
    assert u % 0x400 == u - 0x400 * (u / 0x400);
    assert u == 0x400 * (u / 0x400) + u % 0x400;
    assert u % 0x400 == 0x100 * (u % 0x400 / 0x100) + u % 0x400 % 0x100;
  }

  lemma FourBytesAsBits(a: byte, b: byte, c: byte, d: byte)
    ensures BytesToBits([a, b, c, d]) == Octet(a) + (Octet(b) + (Octet(c) + Octet(d)))
  {
    hide Octet;
    FlatMapCons(Octet, a, [b, c, d]);
    FlatMapCons(Octet, b, [c, d]);
    FlatMapCons(Octet, c, [d]);
    FlatMapCons(Octet, d, []);
    assert [a] + [b, c, d] == [a, b, c, d] && [b] + [c, d] == [b, c, d] && [c] + [d] == [c, d] && [d] + [] == [d];
    assert Octet(d) + [] == Octet(d);
  }

  /** Four bytes in base64: a group of three, and one more. */
  lemma FourBytesInBase64(a: byte, b: byte, c: byte, d: byte)
    ensures Base64(BytesToBits([a, b, c, d])) ==
            [Alphabet(a / 4), Alphabet(a % 4 * 16 + b / 16), Alphabet(b % 16 * 4 + c / 64), Alphabet(c % 64),
             Alphabet(d / 4), Alphabet(d % 4 * 16)]
  {
    hide Base64, Octet, Alphabet, FlatMap;
    FourBytesAsBits(a, b, c, d);
    ThreeBytes(a, b, c, Octet(d));
    LastBytes(d, d);
  }

  /** The name of RFC 3501 "&U,BTFw-", here between two slashes. */
  lemma TaipeiIsEncoded()
    ensures Encode([0x2f, 0x53f0, 0x5317, 0x2f]) == [47, 38, 85, 44, 66, 84, 70, 119, 45, 47]
  {
    hide Base64, Octet, Encode, FlatMap;
    var run: seq<Scalar>, slash: seq<Scalar> := [0x53f0, 0x5317], [0x2f];
    assert [0x2f] + (run + slash) == [0x2f, 0x53f0, 0x5317, 0x2f];
    PrintableIsCopied(0x2f, run + slash);
    OthersAreOneRun(run, slash);
    PrintableIsCopied(0x2f, []);
    assert slash + [] == slash;
    EncodeNothing();
    RunOfTwo(0x53f0, 0x5317);
    FourBytesInBase64(0x53, 0xf0, 0x53, 0x17);
  }

  lemma EncodeNothing()
    ensures Encode([]) == []
  {
  }

  lemma RunOfTwo(cp: Scalar, next: Scalar)
    requires cp <= 0xffff && next <= 0xffff
    ensures Utf16All([cp, next]) == [cp / 256, cp % 256, next / 256, next % 256]
  {
    Utf16Is(cp);
    Utf16Is(next);
    FlatMapCons<Scalar, byte>(Utf16, cp, [next]);
    FlatMapCons<Scalar, byte>(Utf16, next, []);
    assert [cp] + [next] == [cp, next] && [next] + [] == [next];
  }

  /** A code point beyond 0xffff, which takes a surrogate pair: "&2D3eAA-". */
  lemma SurrogatesAreEncoded()
    ensures Encode([0x1f600]) == [38, 50, 68, 51, 101, 65, 65, 45]
  {
    hide Base64, Octet, Encode, FlatMap;
    var run: seq<Scalar> := [0x1f600];
    assert run + [] == run;
    OthersAreOneRun(run, []);
    EncodeNothing();
    RunOfOne(0x1f600);
    Utf16Is(0x1f600);
    FourBytesInBase64(0xd8, 0x3d, 0xde, 0x00);
  }

  lemma RunOfOne(cp: Scalar)
    ensures Utf16All([cp]) == Utf16(cp)
  {
    FlatMapCons<Scalar, byte>(Utf16, cp, []);
    assert [cp] + [] == [cp] && Utf16(cp) + [] == Utf16(cp);
  }
}
