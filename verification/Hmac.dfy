/** HMAC-MD5: the hmac_md5_* functions of src/data-types/md5.c against section 2 of RFC 2104. */
module Hmac {
  import opened Sequences
  import opened Bits
  import opened Md5Spec
  import opened Md5Transform
  import opened Md5Stream

  // Section 2 of RFC 2104

  function XorBits(a: bv8, b: bv8): bv8 { a ^ b }

  function Xor(a: byte, b: byte): byte { XorBits(a as bv8, b as bv8) as int }

  /** Exclusive or, as a truth table. */
  lemma TableOfXor(a: bv8, b: bv8)
    ensures XorBits(a, b) == (a & !b) | (!a & b)
  {
  }

  lemma XorOnBits(a: bv8, b: bv8)
    ensures Xor(a as int, b as int) == XorBits(a, b) as int
  {
    hide XorBits;
  }

  function XorAll(key: seq<byte>, pad: byte): (r: seq<byte>)
    ensures |r| == |key|
  {
    seq(|key|, i requires 0 <= i < |key| => Xor(key[i], pad))
  }

  /** The key as a block: hashed if it is longer than one, then filled up with zero bytes. */
  function KeyBlock(key: seq<byte>): (block: seq<byte>)
    ensures |block| == 64
  {
    var k := if |key| > 64 then Md5(key) else key;
    k + ZeroBytes(64 - |k|)
  }

  function InnerKey(key: seq<byte>): (block: seq<byte>)
    ensures |block| == 64
  {
    XorAll(KeyBlock(key), 0x36)
  }

  function OuterKey(key: seq<byte>): (block: seq<byte>)
    ensures |block| == 64
  {
    XorAll(KeyBlock(key), 0x5c)
  }

  /** H(K XOR opad, H(K XOR ipad, text)) */
  function HmacMd5(key: seq<byte>, text: seq<byte>): seq<byte> {
    Md5(OuterKey(key) + Md5(InnerKey(key) + text))
  }

  const INT_MAX := 0x7fff_ffff

  /** md5_nonnegative_len: a key or text given with a negative length is empty. */
  function NonNegativeLen(len: int): nat {
    if len > 0 then len else 0
  }

  /** htonl and ntohl on a host of either byte order. */
  function Swap(w: word): word {
    w % 0x100 * 0x100_0000 + w / 0x100 % 0x100 * 0x1_0000 + w / 0x1_0000 % 0x100 * 0x100 + w / 0x100_0000
  }

  function NetworkOrder(w: word, littleEndian: bool): word {
    if littleEndian then Swap(w) else w
  }

  lemma SwapTwice(w: word)
    ensures Swap(Swap(w)) == w
  {
    var b0, b1, b2, b3 := w % 0x100, w / 0x100 % 0x100, w / 0x1_0000 % 0x100, w / 0x100_0000;
    BytesOfSum(b3, b2, b1, b0);
    WordFromBytes(w);
  }

  /** In network byte order the high byte comes first. */
  lemma SwapReverses(b0: byte, b1: byte, b2: byte, b3: byte)
    ensures var w: int := (b3 as int) * 0x100_0000 + (b2 as int) * 0x1_0000 + (b1 as int) * 0x100 + b0;
            && 0 <= w < 0x1_0000_0000
            && NetworkOrder(w, true) == (b0 as int) * 0x100_0000 + (b1 as int) * 0x1_0000 + (b2 as int) * 0x100 + b3
            && NetworkOrder(w, false) == w
  {
    BytesOfSum(b0, b1, b2, b3);
  }

  lemma WordFromBytes(w: word)
    ensures w == w / 0x100_0000 * 0x100_0000 + w / 0x1_0000 % 0x100 * 0x1_0000 + w / 0x100 % 0x100 * 0x100 + w % 0x100
  {
    assert w / 0x1_0000 == w / 0x100_0000 * 0x100 + w / 0x1_0000 % 0x100;
    assert w / 0x100 == w / 0x1_0000 * 0x100 + w / 0x100 % 0x100;
  }

  lemma BytesOfSum(b0: byte, b1: byte, b2: byte, b3: byte)
    ensures var v: int := (b3 as int) * 0x100_0000 + (b2 as int) * 0x1_0000 + (b1 as int) * 0x100 + b0;
            && v % 0x100 == b0 && v / 0x100 % 0x100 == b1 && v / 0x1_0000 % 0x100 == b2 && v / 0x100_0000 == b3
  {
    var v: int := (b3 as int) * 0x100_0000 + (b2 as int) * 0x1_0000 + (b1 as int) * 0x100 + b0;
    assert v / 0x100 == (b3 as int) * 0x1_0000 + (b2 as int) * 0x100 + b1;
    assert v / 0x1_0000 == (b3 as int) * 0x100 + b2;
  }

  /** HMAC_MD5_STATE: the registers after the inner and outer key block, in network byte order. */
  datatype Precalc = Precalc(istate: seq<word>, ostate: seq<word>)

  class HmacContext {
    const ictx: Context
    const octx: Context

    /** Both hashes have been given their key block, the inner one also the text. */
    ghost predicate Valid(key: seq<byte>, text: seq<byte>)
      reads this, ictx, ictx.state, ictx.buffer, octx, octx.state, octx.buffer
    {
      && ictx.Valid() && octx.Valid() && Separate()
      && ictx.fed == InnerKey(key) + text && octx.fed == OuterKey(key)
    }

    ghost predicate Separate()
      reads this
    {
      ictx != octx && ictx.state != octx.state && ictx.buffer != octx.buffer
    }

    /** hmac_md5_init */
    constructor (key: seq<byte>)
      requires |key| <= INT_MAX
      ensures Valid(key, [])
      ensures fresh(ictx) && fresh(octx) && fresh(ictx.state) && fresh(octx.state)
      ensures fresh(ictx.buffer) && fresh(octx.buffer)
    {
      hide KeyBlock, Md5, XorAll, HashWhole, Whole, Counts, Context.Hashed;
      var k := ShortKey(key);
      var innerPad, outerPad := Pads(k, key);
      var i := ContextOf(innerPad);
      var o := ContextOf(outerPad);
      assert innerPad + [] == innerPad;
      ictx, octx := i, o;
    }

    /** hmac_md5_import: contexts whose block buffers hold nothing of the key. */
    constructor Import(state: Precalc, littleEndian: bool, ghost key: seq<byte>)
      requires IsPrecalc(state, littleEndian, key)
      ensures Valid(key, [])
      ensures fresh(ictx) && fresh(octx) && fresh(ictx.state) && fresh(octx.state)
      ensures fresh(ictx.buffer) && fresh(octx.buffer)
    {
      hide KeyBlock, Md5, XorAll, HashWhole, Whole, Counts, Context.Hashed;
      var i := new Context.Resume(Unswapped(state.istate, littleEndian), InnerKey(key));
      var o := new Context.Resume(Unswapped(state.ostate, littleEndian), OuterKey(key));
      assert InnerKey(key) + [] == InnerKey(key);
      ictx, octx := i, o;
    }

    /** MD5Update on the inner hash: more of the text. */
    method Update(more: seq<byte>, ghost key: seq<byte>, ghost text: seq<byte>)
      requires Valid(key, text) && GuardHolds(|ictx.fed|, |more|)
      modifies ictx, ictx.state, ictx.buffer
      ensures Valid(key, text + more)
    {
      ictx.Update(more);
      Regroup(InnerKey(key), text, more);
    }

    /** hmac_md5_final */
    method Final(ghost key: seq<byte>, ghost text: seq<byte>) returns (digest: seq<byte>)
      requires Valid(key, text)
      modifies ictx, ictx.state, ictx.buffer, octx, octx.state, octx.buffer
      ensures digest == HmacMd5(key, text)
    {
      digest := ictx.Final();
      GuardFailsOnWrap(|octx.fed|, |digest|);
      octx.Update(digest);
      digest := octx.Final();
    }
  }

  /** MD5Init followed by MD5Update. */
  method ContextOf(block: seq<byte>) returns (c: Context)
    requires |block| == 64
    ensures c.Valid() && c.fed == block && fresh(c) && fresh(c.state) && fresh(c.buffer)
  {
    hide HashWhole, Whole, Counts, GuardHolds;
    c := new Context();
    GuardFailsOnWrap(0, 64);
    c.Update(block);
    assert [] + block == block;
  }

  /** A key longer than a block is replaced by its digest. */
  method ShortKey(key: seq<byte>) returns (k: seq<byte>)
    requires |key| <= INT_MAX
    ensures k == if |key| > 64 then Md5(key) else key
  {
    k := key;
    if |key| > 64 {
      var context := new Context();
      GuardFailsOnWrap(0, |key|);
      context.Update(key);
      assert [] + key == key;
      k := context.Final();
    }
  }

  /** The loop of hmac_md5_init over both pads. */
  method Pads(k: seq<byte>, ghost key: seq<byte>) returns (innerPad: seq<byte>, outerPad: seq<byte>)
    requires k == if |key| > 64 then Md5(key) else key
    ensures innerPad == InnerKey(key) && outerPad == OuterKey(key)
  {
    hide Md5, Xor;
    var inner, outer := new byte[64](_ => 0), new byte[64](_ => 0);
    forall i | 0 <= i < |k| {
      inner[i] := k[i];
    }
    forall i | 0 <= i < |k| {
      outer[i] := k[i];
    }
    assert inner[..] == outer[..] == KeyBlock(key);
    for i := 0 to 64
      invariant forall j :: 0 <= j < i ==>
                  inner[j] == Xor(KeyBlock(key)[j], 0x36) && outer[j] == Xor(KeyBlock(key)[j], 0x5c)
      invariant forall j :: i <= j < 64 ==> inner[j] == outer[j] == KeyBlock(key)[j]
    {
      inner[i] := Xor(inner[i], 0x36);
      outer[i] := Xor(outer[i], 0x5c);
    }
    innerPad, outerPad := inner[..], outer[..];
  }

  /** The registers in one half of a precalculated state. */
  function Unswapped(s: seq<word>, littleEndian: bool): seq<word> {
    seq(|s|, i requires 0 <= i < |s| => NetworkOrder(s[i], littleEndian))
  }

  ghost predicate IsPrecalc(state: Precalc, littleEndian: bool, key: seq<byte>) {
    && |state.istate| == |state.ostate| == 4
    && StateOf(Unswapped(state.istate, littleEndian)) == HashWhole(InnerKey(key))
    && StateOf(Unswapped(state.ostate, littleEndian)) == HashWhole(OuterKey(key))
  }

  lemma SwappedBack(s: seq<word>, littleEndian: bool)
    ensures Unswapped(Unswapped(s, littleEndian), littleEndian) == s
  {
    var t := Unswapped(s, littleEndian);
    forall i | 0 <= i < |s| ensures Unswapped(t, littleEndian)[i] == s[i] {
      SwapTwice(s[i]);
    }
  }

  /** hmac_md5_precalc: what a key can be imported from later. */
  method PrecalcKey(key: seq<byte>, littleEndian: bool) returns (state: Precalc)
    requires |key| <= INT_MAX
    ensures IsPrecalc(state, littleEndian, key)
  {
    hide HashWhole;
    var hmac := new HmacContext(key);
    var istate, ostate := hmac.ictx.state[..], hmac.octx.state[..];
    state := Precalc(Unswapped(istate, littleEndian), Unswapped(ostate, littleEndian));
    SwappedBack(istate, littleEndian);
    SwappedBack(ostate, littleEndian);
    assert InnerKey(key) + [] == InnerKey(key);
  }

  /** hmac_md5: the whole computation, with the lengths the caller gives. */
  method ComputeHmac(text: seq<byte>, textLen: int, key: seq<byte>, keyLen: int) returns (digest: seq<byte>)
    requires textLen <= |text| && keyLen <= |key| && textLen <= INT_MAX && keyLen <= INT_MAX
    ensures digest == HmacMd5(if keyLen > 0 then key[..keyLen] else [], if textLen > 0 then text[..textLen] else [])
  {
    hide HmacMd5, GuardHolds;
    var k, t := key[..NonNegativeLen(keyLen)], text[..NonNegativeLen(textLen)];
    var hmac := new HmacContext(k);
    GuardFailsOnWrap(64, |t|);
    assert |hmac.ictx.fed| == 64;
    hmac.Update(t, k, []);
    assert [] + t == t;
    digest := hmac.Final(k, t);
  }

  /** The same with a context imported from the precalculated state of the key. */
  method ComputeImported(text: seq<byte>, key: seq<byte>, littleEndian: bool) returns (digest: seq<byte>)
    requires |text| <= INT_MAX && |key| <= INT_MAX
    ensures digest == HmacMd5(key, text)
  {
    hide HmacMd5, GuardHolds;
    var state := PrecalcKey(key, littleEndian);
    var hmac := new HmacContext.Import(state, littleEndian, key);
    GuardFailsOnWrap(64, |text|);
    assert |hmac.ictx.fed| == 64;
    hmac.Update(text, key, []);
    assert [] + text == text;
    digest := hmac.Final(key, text);
  }
}
