/** The loops of mutf7_encode (src/data-types/charconv.c) and the text they compute. */
module Mutf7Encoder {
  import opened Sequences
  import opened Options
  import opened Bits
  import opened Unicode
  import opened Mutf7
  import opened Mutf7Decoder

  /** The growing output of the encoder: output, output_size and output_len. */
  class Output {
    var data: array<byte>
    var len: nat

    ghost predicate Valid()
      reads this
    {
      0 < data.Length <= SIZE_MAX && len < data.Length
    }

    ghost function Contents(): seq<byte>
      requires Valid()
      reads this, data
    {
      data[..len]
    }

    constructor (size: nat)
      requires 0 < size <= SIZE_MAX
      ensures Valid() && fresh(data) && Contents() == []
    {
      data, len := new byte[size], 0;
    }

    /** mutf7_output_reserve: makes room for needed more bytes and a NUL, by doubling. */
    method Reserve(needed: nat) returns (ok: bool)
      requires Valid()
      modifies this`data
      ensures Valid() && len == old(len) && Contents() == old(Contents())
      ensures data == old(data) || fresh(data)
      ensures ok <==> len + needed + 1 <= SIZE_MAX
      ensures ok ==> len + needed + 1 <= data.Length
    {
      if len == SIZE_MAX || needed + len + 1 > SIZE_MAX {
        return false;
      }
      if len + needed + 1 <= data.Length {
        return true;
      }
      var newSize := data.Length;
      while len + needed + 1 > newSize
        invariant data.Length <= newSize <= SIZE_MAX
        decreases SIZE_MAX - newSize
      {
        if newSize > SIZE_MAX / 2 {
          newSize := len + needed + 1;
          break;
        }
        newSize := newSize * 2;
      }
      var newOutput := new byte[newSize];
      forall k | 0 <= k < data.Length {
        newOutput[k] := data[k];
      }
      assert newOutput[..len] == data[..len];
      data := newOutput;
      ok := true;
    }

    /** mutf7_output_char */
    method Put(ch: byte) returns (ok: bool)
      requires Valid()
      modifies this, data
      ensures Valid() && (data == old(data) || fresh(data))
      ensures ok <==> old(len) + 2 <= SIZE_MAX
      ensures ok ==> Contents() == old(Contents()) + [ch]
      ensures !ok ==> Contents() == old(Contents())
    {
      ok := Reserve(1);
      if ok {
        data[len] := ch;
        len := len + 1;
      }
    }
  }

  /** What is still to be written inside a run: the pending bits, the rest of the run, its '-',
      and the text after it. */
  ghost function EncodeRest(pending: seq<bool>, cps: seq<Scalar>): seq<byte> {
    var k := ShiftLength(cps);
    Base64(pending + BytesToBits(Utf16All(cps[..k]))) + [DASH] + Encode(cps[k..])
  }

  /** What is still to be written, given the code points that follow. */
  ghost function Todo(inShift: bool, bits: nat, bitCount: nat, cps: Option<seq<Scalar>>): Option<seq<byte>> {
    if cps.None? then None
    else if inShift then Some(EncodeRest(BitsOf(bits, bitCount), cps.value))
    else Some(Encode(cps.value))
  }

  /** What the encoder should return for a byte string. */
  ghost function EncodeUtf8(str: seq<byte>): Option<seq<byte>> {
    Todo(false, 0, 0, DecodeUtf8(str, 0))
  }

  /** The accumulator gives up a sextet from its high end. */
  lemma EmitChar(bits: nat, bitCount: nat, more: seq<bool>)
    requires bitCount >= 6
    ensures var v := Mask(Shr(bits, bitCount - 6), 6);
            && v < 64
            && Base64(BitsOf(bits, bitCount) + more) == [Alphabet(v)] + Base64(BitsOf(bits, bitCount - 6) + more)
  {
    hide Mask, Shr;
    Powers();
    BitsOfSplit(bits, 6, bitCount - 6);
    BitsOfMask(Shr(bits, bitCount - 6), 6);
    hide BitsOf, Num;
    var six, low := BitsOf(Shr(bits, bitCount - 6), 6), BitsOf(bits, bitCount - 6);
    SextetCharIsAlphabet(six);
    FirstSix(six, low + more);
    Regroup(six, low, more);
  }

  lemma FirstSix(six: seq<bool>, rest: seq<bool>)
    requires |six| == 6
    ensures Base64(six + rest) == [SextetChar(six)] + Base64(rest)
  {
    assert (six + rest)[..6] == six && (six + rest)[6..] == rest;
  }

  /** mutf7_encode_shift_byte */
  method ShiftByte(out: Output, bits0: nat, bitCount0: nat, b: byte, ghost more: seq<bool>)
    returns (ok: bool, bits: nat, bitCount: nat)
    requires out.Valid() && bitCount0 < 6 && bits0 < Pow2(bitCount0)
    modifies out, out.data
    ensures out.Valid() && (out.data == old(out.data) || fresh(out.data))
    ensures !ok ==> out.len + 2 > SIZE_MAX && out.len <= old(out.len) + 2
    ensures !ok ==> old(out.len) + |Base64(BitsOf(bits0, bitCount0) + (Octet(b) + more))| >= SIZE_MAX
    ensures ok ==> bitCount < 6 && bits < Pow2(bitCount) && 6 * out.len + bitCount == 6 * old(out.len) + bitCount0 + 8
    ensures ok ==> out.Contents() + Base64(BitsOf(bits, bitCount) + more) ==
                   old(out.Contents()) + Base64(BitsOf(bits0, bitCount0) + (Octet(b) + more))
  {
    hide Base64, BitsOf, Pow2, Shl, Shr, Mask, Alphabet;
    ghost var goal := out.Contents() + Base64(BitsOf(bits0, bitCount0) + (Octet(b) + more));
    Powers();
    BitsOfShift(bits0, bitCount0, b, 8);
    Regroup(BitsOf(bits0, bitCount0), BitsOf(b, 8), more);
    bits := Shl(bits0, 8) + b;
    bitCount := bitCount0 + 8;
    ok := true;
    while bitCount >= 6
      invariant out.Valid() && (out.data == old(out.data) || fresh(out.data))
      invariant 6 * out.len + bitCount == 6 * old(out.len) + bitCount0 + 8
      invariant out.Contents() + Base64(BitsOf(bits, bitCount) + more) == goal
      decreases bitCount
    {
      ghost var before := out.Contents();
      EmitChar(bits, bitCount, more);
      bitCount := bitCount - 6;
      var v := Mask(Shr(bits, bitCount), 6);
      ok := out.Put(Alphabet(v));
      if !ok {
        return;
      }
      Regroup(before, [Alphabet(v)], Base64(BitsOf(bits, bitCount) + more));
    }
    BitsOfMask(bits, bitCount);
    bits := Mask(bits, bitCount);
  }

  /** UTF-16BE of a code point or of a single unit. */
  ghost function Units(cp: int): seq<byte>
    requires 0 <= cp <= 0x10ffff
  {
    if cp <= 0xffff then UnitBytes(cp)
    else UnitBytes(0xd800 + (cp - 0x10000) / 1024) + UnitBytes(0xdc00 + (cp - 0x10000) % 1024)
  }

  lemma TwoOctets(a: byte, b: byte, more: seq<bool>)
    ensures Octet(a) + (Octet(b) + more) == BytesToBits([a, b]) + more
  {
    FlatMapCons(Octet, a, [b]);
    FlatMapCons(Octet, b, []);
    assert [a, b] == [a] + [b];
    Regroup(Octet(a), Octet(b), more);
  }

  lemma BytesToBitsAppend(a: seq<byte>, b: seq<byte>, more: seq<bool>)
    ensures BytesToBits(a) + (BytesToBits(b) + more) == BytesToBits(a + b) + more
  {
    FlatMapAppend(Octet, a, b);
    Regroup(BytesToBits(a), BytesToBits(b), more);
  }

  /** mutf7_encode_shift_codepoint: one unit, or the two units of a surrogate pair. */
  method ShiftCodepoint(out: Output, bits0: nat, bitCount0: nat, cp: nat, ghost more: seq<bool>)
    returns (ok: bool, bits: nat, bitCount: nat)
    requires out.Valid() && bitCount0 < 6 && bits0 < Pow2(bitCount0) && cp <= 0x10ffff
    modifies out, out.data
    ensures out.Valid() && (out.data == old(out.data) || fresh(out.data))
    ensures !ok ==> out.len + 2 > SIZE_MAX && out.len <= old(out.len) + 2 * |Units(cp)|
    ensures !ok ==> old(out.len) + |Base64(BitsOf(bits0, bitCount0) + (BytesToBits(Units(cp)) + more))| >= SIZE_MAX
    ensures ok ==> bitCount < 6 && bits < Pow2(bitCount)
    ensures ok ==> 6 * out.len + bitCount == 6 * old(out.len) + bitCount0 + 8 * |Units(cp)|
    ensures ok ==> out.Contents() + Base64(BitsOf(bits, bitCount) + more) ==
                   old(out.Contents()) + Base64(BitsOf(bits0, bitCount0) + (BytesToBits(Units(cp)) + more))
    decreases cp
  {
    hide Base64, BitsOf, Pow2, FlatMap;
    if cp <= 0xffff {
      var high: byte, low: byte := cp / 256, cp % 256;
      TwoOctets(high, low, more);
      ok, bits, bitCount := ShiftByte(out, bits0, bitCount0, high, Octet(low) + more);
      if ok {
        ok, bits, bitCount := ShiftByte(out, bits, bitCount, low, more);
      }
    } else {
      var value := cp - 0x10000;
      var high, low := 0xd800 + value / 1024, 0xdc00 + value % 1024;
      BytesToBitsAppend(UnitBytes(high), UnitBytes(low), more);
      ok, bits, bitCount := ShiftCodepoint(out, bits0, bitCount0, high, BytesToBits(UnitBytes(low)) + more);
      if ok {
        ok, bits, bitCount := ShiftCodepoint(out, bits, bitCount, low, more);
      }
    }
  }

  /** The last sextet of a run is filled up with zero bits. */
  lemma LastChar(bits: nat, bitCount: nat)
    requires 0 < bitCount < 6 && bits < Pow2(bitCount)
    ensures var v := Mask(Shl(bits, 6 - bitCount), 6);
            v < 64 && Base64(BitsOf(bits, bitCount)) == [Alphabet(v)]
  {
    hide Base64, BitsOf, Num, Mask, Shl, Pow2, Zeros, Alphabet;
    var n := 6 - bitCount;
    BitsOfZero(n);
    BitsOfShift(bits, bitCount, 0, n);
    BitsOfMask(Shl(bits, n), 6);
    SextetCharIsAlphabet(BitsOf(bits, bitCount) + Zeros(n));
    ShortBase64(BitsOf(bits, bitCount));
  }

  lemma ShortBase64(bits: seq<bool>)
    requires 0 < |bits| < 6
    ensures Base64(bits) == [SextetChar(bits + Zeros(6 - |bits|))]
  {
  }

  lemma {:induction false} BitsOfZero(n: nat)
    ensures BitsOf(0, n) == Zeros(n) && 0 < Pow2(n)
  {
    if n > 0 {
      BitsOfZero(n - 1);
    }
  }

  /** mutf7_flush_shift: closes a run. */
  method FlushShift(out: Output, bits: nat, bitCount: nat) returns (ok: bool)
    requires out.Valid() && bitCount < 6 && bits < Pow2(bitCount)
    modifies out, out.data
    ensures out.Valid() && (out.data == old(out.data) || fresh(out.data))
    ensures !ok ==> out.len + 2 > SIZE_MAX && out.len <= old(out.len) + 1
    ensures !ok ==> old(out.len) + |Base64(BitsOf(bits, bitCount)) + [DASH]| >= SIZE_MAX
    ensures ok ==> out.len <= old(out.len) + 2
    ensures ok ==> out.Contents() == old(out.Contents()) + (Base64(BitsOf(bits, bitCount)) + [DASH])
  {
    hide BitsOf, Num, Mask, Shl, Pow2, Alphabet;
    ghost var before := out.Contents();
    if bitCount != 0 {
      LastChar(bits, bitCount);
      hide Base64;
      var v := Mask(Shl(bits, 6 - bitCount), 6);
      ok := out.Put(Alphabet(v));
      if !ok {
        return;
      }
      Regroup(before, [Alphabet(v)], [DASH]);
    } else {
      assert Base64([]) + [DASH] == [DASH];
    }
    ok := out.Put(DASH);
  }

  /** Closes the run that is open, if any. */
  method CloseRun(out: Output, inShift: bool, bits: nat, bitCount: nat) returns (ok: bool)
    requires out.Valid() && bitCount < 6 && bits < Pow2(bitCount)
    modifies out, out.data
    ensures out.Valid() && (out.data == old(out.data) || fresh(out.data))
    ensures !ok ==> out.len + 2 > SIZE_MAX
    ensures !ok ==> old(out.len) + |Closing(inShift, BitsOf(bits, bitCount))| >= SIZE_MAX
    ensures out.len <= old(out.len) + (if inShift then 2 else 0)
    ensures ok ==> out.Contents() == old(out.Contents()) + Closing(inShift, BitsOf(bits, bitCount))
  {
    ok := true;
    if inShift {
      ok := FlushShift(out, bits, bitCount);
    } else {
      assert out.Contents() + [] == out.Contents();
    }
  }

  ghost function Closing(inShift: bool, pending: seq<bool>): seq<byte> {
    if inShift then Base64(pending) + [DASH] else []
  }

  /** What a code point that is not written as base64 becomes. */
  ghost function Plain(cp: Scalar): seq<byte>
    requires !IsShifted(cp)
  {
    if cp == 0x26 then [AMPERSAND, DASH] else [cp]
  }

  /** A code point that is not shifted closes the run that is open. */
  lemma TodoPlain(inShift: bool, bits: nat, bitCount: nat, cp: Scalar, rest: seq<Scalar>)
    requires !IsShifted(cp)
    ensures Todo(inShift, bits, bitCount, Some([cp] + rest)) ==
            Some(Closing(inShift, BitsOf(bits, bitCount)) + (Plain(cp) + Encode(rest)))
  {
    var cps, pending := [cp] + rest, BitsOf(bits, bitCount);
    assert cps[1..] == rest;
    assert Encode(cps) == Plain(cp) + Encode(rest);
    assert cps[..0] == [] && cps[0..] == cps;
    assert pending + BytesToBits(Utf16All([])) == pending;
    if !inShift {
      assert [] + Encode(cps) == Encode(cps);
    }
  }

  /** The end of the input closes the run that is open. */
  lemma TodoEnd(inShift: bool, bits: nat, bitCount: nat)
    ensures Todo(inShift, bits, bitCount, Some([])) == Some(Closing(inShift, BitsOf(bits, bitCount)))
  {
    var pending := BitsOf(bits, bitCount);
    var none: seq<Scalar> := [];
    assert none[..0] == [] && none[0..] == [];
    assert pending + BytesToBits(Utf16All([])) == pending;
    assert Closing(true, pending) + [] == Closing(true, pending);
  }

  /** A shifted code point joins the run. */
  lemma TodoShifted(pending: seq<bool>, cp: Scalar, rest: seq<Scalar>)
    requires IsShifted(cp)
    ensures var k := ShiftLength(rest);
            EncodeRest(pending, [cp] + rest) ==
            Base64(pending + (BytesToBits(Units(cp)) + BytesToBits(Utf16All(rest[..k])))) + ([DASH] + Encode(rest[k..]))
  {
    hide Base64, Encode, Utf16;
    var cps, k := [cp] + rest, ShiftLength(rest);
    assert cps[1..] == rest;
    assert ShiftLength(cps) == 1 + k;
    hide ShiftLength;
    assert cps[..1 + k] == [cp] + rest[..k] && cps[1 + k..] == rest[k..];
    FlatMapCons<Scalar, byte>(Utf16, cp, rest[..k]);
    FlatMapAppend(Octet, Utf16(cp), Utf16All(rest[..k]));
    UnitsAreUtf16(cp);
    hide FlatMap;
    Regroup(Base64(pending + BytesToBits(Utf16All(cps[..1 + k]))), [DASH], Encode(rest[k..]));
  }

  lemma UnitsAreUtf16(cp: Scalar)
    ensures Units(cp) == Utf16(cp)
  {
  }

  /** Outside a run, a shifted code point opens one. */
  lemma OpenRun(cps: seq<Scalar>)
    requires cps != [] && IsShifted(cps[0])
    ensures Encode(cps) == [AMPERSAND] + EncodeRest([], cps)
  {
    hide Base64, FlatMap, ShiftLength;
    var k := ShiftLength(cps);
    var bits := BytesToBits(Utf16All(cps[..k]));
    assert [] + bits == bits;
    assert k > 0 by {
      NonZeroShift(cps);
    }
    Regroup([AMPERSAND], Base64(bits), [DASH]);
    Regroup([AMPERSAND], Base64(bits) + [DASH], Encode(cps[k..]));
  }

  lemma NonZeroShift(cps: seq<Scalar>)
    requires cps != [] && IsShifted(cps[0])
    ensures ShiftLength(cps) > 0
  {
  }

  /** The loop invariant of the encoder: what is written and what is still to be written. */
  ghost predicate Encoding(goal: Option<seq<byte>>, out: seq<byte>, todo: Option<seq<byte>>) {
    goal == Then(out, todo)
  }

  /** An encoding that leaves no room for the NUL. */
  ghost predicate TooLong(goal: Option<seq<byte>>) {
    goal.Some? ==> |goal.value| >= SIZE_MAX
  }

  /** The code point at position i, and what that says about the rest of the input. */
  lemma SplitInput(str: seq<byte>, i: nat)
    requires i < |str|
    ensures DecodeUtf8Char(str, i).None? ==> DecodeUtf8(str, i) == None
    ensures DecodeUtf8Char(str, i).Some? ==>
              var d := DecodeUtf8Char(str, i).value;
              && IsScalar(d.cp) && i < d.next <= |str| && d.next - i == |Utf8(d.cp)|
              && DecodeUtf8(str, i) == match DecodeUtf8(str, d.next)
                                       case None => None
                                       case Some(cps) => Some([d.cp] + cps)
  {
    if DecodeUtf8Char(str, i).Some? {
      DecodeUtf8CharSound(str, i);
    }
  }

  ghost function Cons(cp: Scalar, rest: Option<seq<Scalar>>): Option<seq<Scalar>> {
    if rest.Some? then Some([cp] + rest.value) else None
  }

  /** A character that stands for itself, or "&-". */
  method EncodePlain(out: Output, inShift: bool, bits: nat, bitCount: nat, cp: Scalar,
                     ghost goal: Option<seq<byte>>, ghost rest: Option<seq<Scalar>>) returns (ok: bool)
    requires out.Valid() && bitCount < 6 && bits < Pow2(bitCount) && !IsShifted(cp)
    requires Encoding(goal, out.Contents(), Todo(inShift, bits, bitCount, Cons(cp, rest)))
    modifies out, out.data
    ensures out.Valid() && (out.data == old(out.data) || fresh(out.data))
    ensures out.len <= old(out.len) + (if inShift then 2 else 0) + 2
    ensures !ok ==> out.len + 3 > SIZE_MAX && TooLong(goal)
    ensures ok ==> Encoding(goal, out.Contents(), Todo(false, 0, 0, rest))
  {
    hide Todo, BitsOf, Pow2, Closing, TooLong;
    ghost var before := out.Contents();
    PlainIsWritten(goal, before, inShift, bits, bitCount, cp, rest);
    ok := CloseRun(out, inShift, bits, bitCount);
    if !ok {
      return;
    }
    ghost var closing := Closing(inShift, BitsOf(bits, bitCount));
    ghost var closed := out.Contents();
    if cp == 0x26 {
      ok := out.Reserve(2);
      if !ok {
        return;
      }
      out.data[out.len] := AMPERSAND;
      out.data[out.len + 1] := DASH;
      out.len := out.len + 2;
    } else {
      ok := out.Put(cp);
      if !ok {
        return;
      }
    }
    assert out.Contents() == closed + Plain(cp);
    PlainStep(goal, before, closing, inShift, bits, bitCount, cp, rest);
  }

  lemma PlainIsWritten(goal: Option<seq<byte>>, before: seq<byte>, inShift: bool, bits: nat, bitCount: nat,
                       cp: Scalar, rest: Option<seq<Scalar>>)
    requires !IsShifted(cp) && Encoding(goal, before, Todo(inShift, bits, bitCount, Cons(cp, rest)))
    ensures |before| + |Closing(inShift, BitsOf(bits, bitCount))| + |Plain(cp)| >= SIZE_MAX ==> TooLong(goal)
  {
    hide Encode, EncodeRest, Closing, BitsOf;
    if rest.Some? {
      TodoPlain(inShift, bits, bitCount, cp, rest.value);
    }
  }

  lemma PlainStep(goal: Option<seq<byte>>, before: seq<byte>, closing: seq<byte>, inShift: bool, bits: nat,
                  bitCount: nat,
                  cp: Scalar, rest: Option<seq<Scalar>>)
    requires !IsShifted(cp) && Encoding(goal, before, Todo(inShift, bits, bitCount, Cons(cp, rest)))
    requires closing == Closing(inShift, BitsOf(bits, bitCount))
    ensures Encoding(goal, before + closing + Plain(cp), Todo(false, 0, 0, rest))
  {
    hide Encode, EncodeRest, Closing, BitsOf;
    if rest.Some? {
      TodoPlain(inShift, bits, bitCount, cp, rest.value);
      Regroup(before, closing, Plain(cp) + Encode(rest.value));
      Regroup(before + closing, Plain(cp), Encode(rest.value));
    }
  }

  /** A code point written as base64, in the run that is open or in a new one. */
  method EncodeShifted(out: Output, inShift: bool, bits0: nat, bitCount0: nat, cp: Scalar,
                       ghost goal: Option<seq<byte>>, ghost rest: Option<seq<Scalar>>)
    returns (ok: bool, bits: nat, bitCount: nat)
    requires out.Valid() && bitCount0 < 6 && bits0 < Pow2(bitCount0) && IsShifted(cp)
    requires !inShift ==> bits0 == bitCount0 == 0
    requires Encoding(goal, out.Contents(), Todo(inShift, bits0, bitCount0, Cons(cp, rest)))
    modifies out, out.data
    ensures out.Valid() && (out.data == old(out.data) || fresh(out.data))
    ensures !ok ==> out.len + 2 > SIZE_MAX && out.len <= old(out.len) + 9 && TooLong(goal)
    ensures ok ==> bitCount < 6 && bits < Pow2(bitCount)
    ensures ok ==> out.len + (if inShift then 0 else 2) <= old(out.len) + 6 * |Utf8(cp)|
    ensures ok ==> Encoding(goal, out.Contents(), Todo(true, bits, bitCount, rest))
  {
    hide Base64, BitsOf, Pow2, FlatMap, Encode, TooLong;
    ghost var more := if rest.Some? then BytesToBits(Utf16All(rest.value[..ShiftLength(rest.value)])) else [];
    ghost var before := out.Contents();
    ok, bits, bitCount := true, bits0, bitCount0;
    if !inShift {
      OpenStep(goal, before, cp, rest);
      WrittenIsShorter(goal, before + [AMPERSAND], Todo(true, 0, 0, Cons(cp, rest)));
      ok := out.Put(AMPERSAND);
      if !ok {
        return;
      }
    }
    ShiftIsWritten(goal, out.Contents(), bits0, bitCount0, cp, rest);
    ghost var shifted := out.Contents();
    ok, bits, bitCount := ShiftCodepoint(out, bits0, bitCount0, cp, more);
    if ok {
      ShiftStep(goal, shifted, out.Contents(), bits0, bitCount0, bits, bitCount, cp, rest);
    }
  }

  lemma WrittenIsShorter(goal: Option<seq<byte>>, out: seq<byte>, todo: Option<seq<byte>>)
    requires Encoding(goal, out, todo)
    ensures |out| >= SIZE_MAX ==> TooLong(goal)
  {
  }

  lemma ShiftIsWritten(goal: Option<seq<byte>>, before: seq<byte>, bits: nat, bitCount: nat, cp: Scalar,
                       rest: Option<seq<Scalar>>)
    requires IsShifted(cp) && Encoding(goal, before, Todo(true, bits, bitCount, Cons(cp, rest)))
    ensures var more := if rest.Some? then BytesToBits(Utf16All(rest.value[..ShiftLength(rest.value)])) else [];
            |before| + |Base64(BitsOf(bits, bitCount) + (BytesToBits(Units(cp)) + more))| >= SIZE_MAX ==> TooLong(goal)
  {
    hide Base64, BitsOf, FlatMap, Encode, ShiftLength, Units;
    if rest.Some? {
      TodoShifted(BitsOf(bits, bitCount), cp, rest.value);
    }
  }

  lemma OpenStep(goal: Option<seq<byte>>, before: seq<byte>, cp: Scalar, rest: Option<seq<Scalar>>)
    requires IsShifted(cp) && Encoding(goal, before, Todo(false, 0, 0, Cons(cp, rest)))
    ensures Encoding(goal, before + [AMPERSAND], Todo(true, 0, 0, Cons(cp, rest)))
  {
    hide Encode, EncodeRest;
    if rest.Some? {
      var cps := [cp] + rest.value;
      OpenRun(cps);
      Regroup(before, [AMPERSAND], EncodeRest([], cps));
    }
  }

  lemma ShiftStep(goal: Option<seq<byte>>, before: seq<byte>, after: seq<byte>,
                  bits0: nat, bitCount0: nat, bits: nat, bitCount: nat, cp: Scalar, rest: Option<seq<Scalar>>)
    requires IsShifted(cp) && Encoding(goal, before, Todo(true, bits0, bitCount0, Cons(cp, rest)))
    requires var more := if rest.Some? then BytesToBits(Utf16All(rest.value[..ShiftLength(rest.value)])) else [];
             after + Base64(BitsOf(bits, bitCount) + more) ==
             before + Base64(BitsOf(bits0, bitCount0) + (BytesToBits(Units(cp)) + more))
    ensures Encoding(goal, after, Todo(true, bits, bitCount, rest))
  {
    hide Base64, BitsOf, FlatMap, Encode, ShiftLength, Units;
    if rest.Some? {
      var cps := rest.value;
      var k := ShiftLength(cps);
      var more, tail := BytesToBits(Utf16All(cps[..k])), [DASH] + Encode(cps[k..]);
      TodoShifted(BitsOf(bits0, bitCount0), cp, cps);
      Regroup(before, Base64(BitsOf(bits0, bitCount0) + (BytesToBits(Units(cp)) + more)), tail);
      Regroup(after, Base64(BitsOf(bits, bitCount) + more), tail);
      Regroup(Base64(BitsOf(bits, bitCount) + more), [DASH], Encode(cps[k..]));
    }
  }

  /** mutf7_encode: succeeds on exactly the well-formed UTF-8 strings whose encoding and first buffer have
      a size, and writes that encoding, NUL-terminated. */
  method EncodeText(str: seq<byte>) returns (res: Status, output: array<byte>, outputLen: nat)
    ensures res.ErrorMemory? ==> 6 * |str| + 16 > SIZE_MAX
    ensures DecodeUtf8(str, 0).Some? ==>
              (res.ErrorMemory? <==> |str| > (SIZE_MAX - 16) / 2 || |Encode(DecodeUtf8(str, 0).value)| >= SIZE_MAX)
    ensures res.ErrorConv? ==> DecodeUtf8(str, 0).None?
    ensures res.NoError? ==> outputLen < output.Length && output[outputLen] == 0
    ensures res.NoError? ==> DecodeUtf8(str, 0).Some? && output[..outputLen] == Encode(DecodeUtf8(str, 0).value)
  {
    hide DecodeUtf8, DecodeUtf8Char, Todo, Pow2, Utf8, IsShifted, Closing, EncodeUtf8, Encode;
    output, outputLen := new byte[0], 0;
    if |str| > (SIZE_MAX - 16) / 2 {
      return ErrorMemory, output, 0;
    }
    ghost var goal := EncodeUtf8(str);
    var out := new Output(|str| * 2 + 16);
    var i: nat, inShift, bits: nat, bitCount: nat := 0, false, 0, 0;
    StartEncoding(str);
    while i < |str|
      invariant i <= |str| && out.Valid() && fresh(out) && fresh(out.data)
      invariant bitCount < 6 && bits < Pow2(bitCount) && (!inShift ==> bits == bitCount == 0)
      invariant out.len + (if inShift then 2 else 0) <= 6 * i
      invariant Encoding(goal, out.Contents(), Todo(inShift, bits, bitCount, DecodeUtf8(str, i)))
      decreases |str| - i
    {
      SplitInput(str, i);
      var d := DecodeUtf8Char(str, i);
      if d.None? {
        TodoNone(str, inShift, bits, bitCount);
        return ErrorConv, output, 0;
      }
      var cp: Scalar := d.value.cp;
      ghost var rest := DecodeUtf8(str, d.value.next);
      i := d.value.next;
      var ok;
      if IsShifted(cp) {
        ok, bits, bitCount := EncodeShifted(out, inShift, bits, bitCount, cp, goal, rest);
        inShift := true;
      } else {
        ok := EncodePlain(out, inShift, bits, bitCount, cp, goal, rest);
        inShift, bits, bitCount := false, 0, 0;
        Powers();
      }
      if !ok {
        return ErrorMemory, output, 0;
      }
    }
    EndEncoding(str, out.Contents(), inShift, bits, bitCount);
    var closed := CloseRun(out, inShift, bits, bitCount);
    if !closed {
      return ErrorMemory, output, 0;
    }
    out.data[out.len] := 0;
    output, outputLen, res := out.data, out.len, NoError;
  }

  lemma StartEncoding(str: seq<byte>)
    ensures Encoding(EncodeUtf8(str), [], Todo(false, 0, 0, DecodeUtf8(str, 0))) && Pow2(0) == 1
    ensures DecodeUtf8(str, 0).Some? ==> EncodeUtf8(str) == Some(Encode(DecodeUtf8(str, 0).value))
  {
    var todo := Todo(false, 0, 0, DecodeUtf8(str, 0));
    if todo.Some? {
      assert [] + todo.value == todo.value;
    }
  }

  lemma TodoNone(str: seq<byte>, inShift: bool, bits: nat, bitCount: nat)
    ensures Todo(inShift, bits, bitCount, None) == None
    ensures EncodeUtf8(str) == None ==> DecodeUtf8(str, 0) == None
  {
  }

  lemma EndEncoding(str: seq<byte>, out: seq<byte>, inShift: bool, bits: nat, bitCount: nat)
    requires Encoding(EncodeUtf8(str), out, Todo(inShift, bits, bitCount, DecodeUtf8(str, |str|)))
    ensures DecodeUtf8(str, 0).Some?
    ensures Encode(DecodeUtf8(str, 0).value) == out + Closing(inShift, BitsOf(bits, bitCount))
  {
    TodoEnd(inShift, bits, bitCount);
  }

  /** A mailbox name survives encoding and decoding. */
  lemma MailboxNameRoundTrip(str: seq<byte>)
    requires DecodeUtf8(str, 0).Some?
    ensures Decode(Encode(DecodeUtf8(str, 0).value)) == Some(str)
  {
    DecodeUtf8Sound(str, 0);
    EncodeDecode(DecodeUtf8(str, 0).value);
    assert str[0..] == str;
  }
}
