/** UTF-8 and UTF-16 as the modified UTF-7 codec uses them (src/data-types/charconv.c). */
module Unicode {
  import opened Options
  import opened Bits

  predicate IsScalar(cp: int) {
    0 <= cp <= 0x10ffff && !(0xd800 <= cp <= 0xdfff)
  }

  type Scalar = cp: int | 0 <= cp <= 0x10ffff && !(0xd800 <= cp <= 0xdfff)

  /** The UTF-8 encoding of a scalar value (section 3 of RFC 3629). */
  function Utf8(cp: Scalar): (bytes: seq<byte>)
    ensures 1 <= |bytes| <= 4
  {
    if cp <= 0x7f then [cp]
    else if cp <= 0x7ff then [0xc0 + cp / 64, 0x80 + cp % 64]
    else if cp <= 0xffff then [0xe0 + cp / 4096, 0x80 + cp / 64 % 64, 0x80 + cp % 64]
    else [0xf0 + cp / 262144, 0x80 + cp / 4096 % 64, 0x80 + cp / 64 % 64, 0x80 + cp % 64]
  }

  function Utf8All(cps: seq<Scalar>): seq<byte> {
    FlatMap(Utf8, cps)
  }

  datatype Decoded = Decoded(cp: int, next: nat)

  /** mutf7_decode_utf8_char: the code point at position i and the position after it. */
  function DecodeUtf8Char(s: seq<byte>, i: nat): (r: Option<Decoded>)
    requires i < |s|
  {
    var ch: int := s[i];
    var c1: int, c2: int, c3: int :=
      if i + 1 < |s| then s[i + 1] else 0, if i + 2 < |s| then s[i + 2] else 0, if i + 3 < |s| then s[i + 3] else 0;
    if ch <= 0x7f then
      Some(Decoded(ch, i + 1))
    else if 0xc2 <= ch <= 0xdf then
      if i + 1 >= |s| then None
      else if c1 / 64 != 2 then None
      else Some(Decoded(ch % 32 * 64 + c1 % 64, i + 2))
    else if 0xe0 <= ch <= 0xef then
      if i + 2 >= |s| then None
      else if c1 / 64 != 2 || c2 / 64 != 2 then None
      else if ch == 0xe0 && c1 < 0xa0 then None
      else if ch == 0xed && c1 >= 0xa0 then None
      else Some(Decoded(ch % 16 * 4096 + c1 % 64 * 64 + c2 % 64, i + 3))
    else if 0xf0 <= ch <= 0xf4 then
      if i + 3 >= |s| then None
      else if c1 / 64 != 2 || c2 / 64 != 2 || c3 / 64 != 2 then None
      else if ch == 0xf0 && c1 < 0x90 then None
      else if ch == 0xf4 && c1 >= 0x90 then None
      else Some(Decoded(ch % 8 * 262144 + c1 % 64 * 4096 + c2 % 64 * 64 + c3 % 64, i + 4))
    else
      None
  }

  /** What the decoder accepts is the encoding of a scalar value, in its shortest form. */
  lemma DecodeUtf8CharSound(s: seq<byte>, i: nat)
    requires i < |s| && DecodeUtf8Char(s, i).Some?
    ensures var d := DecodeUtf8Char(s, i).value;
            IsScalar(d.cp) && i < d.next <= |s| && s[i..d.next] == Utf8(d.cp)
  {
    var ch: int := s[i];
    Slices(s, i);
    if ch <= 0x7f {
    } else if ch <= 0xdf {
      TwoBytes(ch, s[i + 1]);
    } else if ch <= 0xef {
      ThreeBytes(ch, s[i + 1], s[i + 2]);
    } else {
      FourBytes(ch, s[i + 1], s[i + 2], s[i + 3]);
    }
  }

  lemma Slices(s: seq<byte>, i: nat)
    requires i < |s|
    ensures s[i..i + 1] == [s[i]]
    ensures i + 1 < |s| ==> s[i..i + 2] == [s[i], s[i + 1]]
    ensures i + 2 < |s| ==> s[i..i + 3] == [s[i], s[i + 1], s[i + 2]]
    ensures i + 3 < |s| ==> s[i..i + 4] == [s[i], s[i + 1], s[i + 2], s[i + 3]]
  {
  }

  lemma TwoBytes(c0: int, c1: int)
    requires 0xc2 <= c0 <= 0xdf && c1 / 64 == 2
    ensures var cp := c0 % 32 * 64 + c1 % 64;
            0x80 <= cp <= 0x7ff && 0xc0 + cp / 64 == c0 && 0x80 + cp % 64 == c1
  {
  }

  lemma ThreeBytes(c0: int, c1: int, c2: int)
    requires 0xe0 <= c0 <= 0xef && c1 / 64 == 2 && c2 / 64 == 2
    requires !(c0 == 0xe0 && c1 < 0xa0) && !(c0 == 0xed && c1 >= 0xa0)
    ensures var cp := c0 % 16 * 4096 + c1 % 64 * 64 + c2 % 64;
            && 0x800 <= cp <= 0xffff && !(0xd800 <= cp <= 0xdfff)
            && 0xe0 + cp / 4096 == c0 && 0x80 + cp / 64 % 64 == c1 && 0x80 + cp % 64 == c2
  {
    var h, m, l := c0 - 0xe0, c1 - 0x80, c2 - 0x80;
    var cp := h * 4096 + m * 64 + l;
    assert cp / 64 == h * 64 + m;
    assert cp / 4096 == h;
  }

  lemma FourBytes(c0: int, c1: int, c2: int, c3: int)
    requires 0xf0 <= c0 <= 0xf4 && c1 / 64 == 2 && c2 / 64 == 2 && c3 / 64 == 2
    requires !(c0 == 0xf0 && c1 < 0x90) && !(c0 == 0xf4 && c1 >= 0x90)
    ensures var cp := c0 % 8 * 262144 + c1 % 64 * 4096 + c2 % 64 * 64 + c3 % 64;
            && 0x10000 <= cp <= 0x10ffff
            && 0xf0 + cp / 262144 == c0 && 0x80 + cp / 4096 % 64 == c1
            && 0x80 + cp / 64 % 64 == c2 && 0x80 + cp % 64 == c3
  {
    ContinuationDigit(c1);
    ContinuationDigit(c2);
    ContinuationDigit(c3);
    LeadDigit(c0);
    FourBase64Digits(c0 - 0xf0, c1 - 0x80, c2 - 0x80, c3 - 0x80);
  }

  lemma ContinuationDigit(c: int)
    requires c / 64 == 2
    ensures c % 64 == c - 0x80 && 0 <= c - 0x80 < 64
  {
  }

  lemma LeadDigit(c: int)
    requires 0xf0 <= c <= 0xf4
    ensures c % 8 == c - 0xf0
  {
  }

  lemma FourBase64Digits(h: int, k: int, m: int, l: int)
    requires 0 <= h < 8 && 0 <= k < 64 && 0 <= m < 64 && 0 <= l < 64
    ensures var cp := h * 262144 + k * 4096 + m * 64 + l;
            cp / 262144 == h && cp / 4096 % 64 == k && cp / 64 % 64 == m && cp % 64 == l
  {
    var cp := h * 262144 + k * 4096 + m * 64 + l;
    assert cp / 64 == h * 4096 + k * 64 + m;
    assert cp / 4096 == h * 64 + k;
    assert cp / 262144 == h;
  }

  /** The encoding of every scalar value is accepted. */
  lemma DecodeUtf8CharComplete(s: seq<byte>, i: nat, cp: Scalar)
    requires i + |Utf8(cp)| <= |s| && s[i..i + |Utf8(cp)|] == Utf8(cp)
    ensures DecodeUtf8Char(s, i) == Some(Decoded(cp, i + |Utf8(cp)|))
  {
    var u := Utf8(cp);
    assert s[i] == s[i..i + |u|][0];
    assert |u| > 1 ==> s[i + 1] == s[i..i + |u|][1];
    assert |u| > 2 ==> s[i + 2] == s[i..i + |u|][2];
    assert |u| > 3 ==> s[i + 3] == s[i..i + |u|][3];
    if cp <= 0x7f {
    } else if cp <= 0x7ff {
      TwoDigits(cp);
    } else if cp <= 0xffff {
      ThreeDigits(cp);
    } else {
      FourDigits(cp);
    }
  }

  lemma TwoDigits(cp: int)
    requires 0x80 <= cp <= 0x7ff
    ensures var c0, c1 := 0xc0 + cp / 64, 0x80 + cp % 64;
            0xc2 <= c0 <= 0xdf && c1 / 64 == 2 && c0 % 32 * 64 + c1 % 64 == cp
  {
  }

  lemma ThreeDigits(cp: int)
    requires 0x800 <= cp <= 0xffff && !(0xd800 <= cp <= 0xdfff)
    ensures var c0, c1, c2 := 0xe0 + cp / 4096, 0x80 + cp / 64 % 64, 0x80 + cp % 64;
            && 0xe0 <= c0 <= 0xef && c1 / 64 == 2 && c2 / 64 == 2
            && !(c0 == 0xe0 && c1 < 0xa0) && !(c0 == 0xed && c1 >= 0xa0)
            && c0 % 16 * 4096 + c1 % 64 * 64 + c2 % 64 == cp
  {
    assert cp / 64 == cp / 4096 * 64 + cp / 64 % 64;
  }

  lemma FourDigits(cp: int)
    requires 0x10000 <= cp <= 0x10ffff
    ensures var c0, c1, c2, c3 := 0xf0 + cp / 262144, 0x80 + cp / 4096 % 64, 0x80 + cp / 64 % 64, 0x80 + cp % 64;
            && 0xf0 <= c0 <= 0xf4 && c1 / 64 == 2 && c2 / 64 == 2 && c3 / 64 == 2
            && !(c0 == 0xf0 && c1 < 0x90) && !(c0 == 0xf4 && c1 >= 0x90)
            && c0 % 8 * 262144 + c1 % 64 * 4096 + c2 % 64 * 64 + c3 % 64 == cp
  {
    assert cp / 64 == cp / 4096 * 64 + cp / 64 % 64;
    assert cp / 4096 == cp / 262144 * 64 + cp / 4096 % 64;
  }

  /** The code points of a byte string, if it is well-formed UTF-8 from position i on. */
  function DecodeUtf8(s: seq<byte>, i: nat): (r: Option<seq<Scalar>>)
    requires i <= |s|
    decreases |s| - i
  {
    if i == |s| then Some([])
    else
      match DecodeUtf8Char(s, i)
      case None => None
      case Some(d) =>
        DecodeUtf8CharSound(s, i);
        match DecodeUtf8(s, d.next)
        case None => None
        case Some(cps) => Some([d.cp] + cps)
  }

  lemma {:induction false} DecodeUtf8Sound(s: seq<byte>, i: nat)
    requires i <= |s| && DecodeUtf8(s, i).Some?
    ensures Utf8All(DecodeUtf8(s, i).value) == s[i..]
    decreases |s| - i
  {
    hide DecodeUtf8Char, Utf8;
    if i < |s| {
      var d := DecodeUtf8Char(s, i).value;
      DecodeUtf8CharSound(s, i);
      DecodeUtf8Sound(s, d.next);
      FlatMapCons<Scalar, byte>(Utf8, d.cp, DecodeUtf8(s, d.next).value);
      assert s[i..] == s[i..d.next] + s[d.next..];
    }
  }

  lemma {:induction false} DecodeUtf8Complete(s: seq<byte>, i: nat, cps: seq<Scalar>)
    requires i <= |s| && s[i..] == Utf8All(cps)
    ensures DecodeUtf8(s, i) == Some(cps)
    decreases |cps|
  {
    hide DecodeUtf8Char, Utf8;
    if cps != [] {
      var n := |Utf8(cps[0])|;
      assert s[i..i + n] == s[i..][..n] == Utf8(cps[0]);
      assert s[i + n..] == s[i..][n..] == Utf8All(cps[1..]);
      DecodeUtf8CharComplete(s, i, cps[0]);
      DecodeUtf8Complete(s, i + n, cps[1..]);
      assert cps == [cps[0]] + cps[1..];
    } else {
      assert |s[i..]| == 0;
    }
  }

  // UTF-16, big-endian

  function UnitBytes(unit: int): (bytes: seq<byte>)
    requires 0 <= unit <= 0xffff
    ensures |bytes| == 2
  {
    [unit / 256, unit % 256]
  }

  /** A code point as UTF-16BE: one unit, or a surrogate pair (RFC 2781). */
  function Utf16(cp: Scalar): (bytes: seq<byte>)
    ensures |bytes| == 2 || |bytes| == 4
  {
    if cp <= 0xffff then UnitBytes(cp)
    else UnitBytes(0xd800 + (cp - 0x10000) / 1024) + UnitBytes(0xdc00 + (cp - 0x10000) % 1024)
  }

  function Utf16All(cps: seq<Scalar>): seq<byte> {
    FlatMap(Utf16, cps)
  }

  /** The unit at the head of a byte string, decoded together with the one after it when it is a
      high surrogate, and the number of bytes used. */
  function DecodeUtf16Char(bytes: seq<byte>): (r: Option<Decoded>)
    ensures r.Some? ==> IsScalar(r.value.cp) && 0 < r.value.next <= |bytes|
  {
    if |bytes| < 2 then None
    else
      var b0: int, b1: int := bytes[0], bytes[1];
      var unit := b0 * 256 + b1;
      if 0xd800 <= unit <= 0xdbff then
        if |bytes| < 4 then None
        else
          var b2: int, b3: int := bytes[2], bytes[3];
          var low := b2 * 256 + b3;
          if low < 0xdc00 || low > 0xdfff then None
          else Some(Decoded(0x10000 + (unit - 0xd800) * 1024 + (low - 0xdc00), 4))
      else if 0xdc00 <= unit <= 0xdfff then None
      else Some(Decoded(unit, 2))
  }

  function DecodeUtf16(bytes: seq<byte>): (r: Option<seq<Scalar>>) {
    if bytes == [] then Some([])
    else
      match DecodeUtf16Char(bytes)
      case None => None
      case Some(d) =>
        match DecodeUtf16(bytes[d.next..])
        case None => None
        case Some(cps) => Some([d.cp] + cps)
  }

  lemma Utf16CharRoundTrip(cp: Scalar, more: seq<byte>)
    ensures DecodeUtf16Char(Utf16(cp) + more) == Some(Decoded(cp, |Utf16(cp)|))
  {
  }

  lemma {:induction false} Utf16RoundTrip(cps: seq<Scalar>)
    ensures DecodeUtf16(Utf16All(cps)) == Some(cps)
  {
    if cps != [] {
      Utf16CharRoundTrip(cps[0], Utf16All(cps[1..]));
      assert Utf16All(cps)[|Utf16(cps[0])|..] == Utf16All(cps[1..]);
      Utf16RoundTrip(cps[1..]);
      assert cps == [cps[0]] + cps[1..];
    }
  }

  lemma Utf16CharSound(bytes: seq<byte>)
    requires DecodeUtf16Char(bytes).Some?
    ensures bytes[..DecodeUtf16Char(bytes).value.next] == Utf16(DecodeUtf16Char(bytes).value.cp)
  {
    UnitOfBytes(bytes[0], bytes[1]);
    if DecodeUtf16Char(bytes).value.next == 4 {
      UnitOfBytes(bytes[2], bytes[3]);
    }
  }

  lemma UnitOfBytes(b0: byte, b1: byte)
    ensures var h: int, l: int := b0, b1; UnitBytes(h * 256 + l) == [b0, b1]
  {
  }

  lemma {:induction false} DecodeUtf16Sound(bytes: seq<byte>)
    requires DecodeUtf16(bytes).Some?
    ensures Utf16All(DecodeUtf16(bytes).value) == bytes
  {
    hide DecodeUtf16Char, Utf16;
    if bytes != [] {
      var d := DecodeUtf16Char(bytes).value;
      Utf16CharSound(bytes);
      DecodeUtf16Sound(bytes[d.next..]);
      FlatMapCons<Scalar, byte>(Utf16, d.cp, DecodeUtf16(bytes[d.next..]).value);
      assert bytes == bytes[..d.next] + bytes[d.next..];
    }
  }
}
