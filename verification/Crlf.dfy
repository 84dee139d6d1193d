/** Line ends and dot-stuffing as functions on byte strings: what sending does to a message
  (src/data-types/mailstream_helper.c) and what section 4.5.2 of RFC 5321 asks of it.
 */
module Crlf {
  import opened Sequences
  import opened Bits

  const CR: byte := 13
  const LF: byte := 10
  const DOT: byte := 46
  const NUL: byte := 0

  const CRLF: seq<byte> := [13, 10]

  /** What is written for message m: CR, LF and CRLF all become CRLF, and if quoted is set a dot at
      the beginning of a line (bol) is doubled. */
  ghost function Fix(m: seq<byte>, quoted: bool, bol: bool): seq<byte>
    decreases |m|
  {
    if m == [] then []
    else if m[0] == CR then
      CRLF + Fix(if |m| > 1 && m[1] == LF then m[2..] else m[1..], quoted, true)
    else if m[0] == LF then
      CRLF + Fix(m[1..], quoted, true)
    else
      (if quoted && bol && m[0] == DOT then [DOT] else []) + ([m[0]] + Fix(m[1..], quoted, false))
  }

  /** The message with canonical line ends. */
  ghost function Norm(m: seq<byte>): seq<byte> {
    Fix(m, false, true)
  }

  /** The message as it travels, with the line that ends it. */
  ghost function Wire(m: seq<byte>): seq<byte> {
    Fix(m, true, true) + (CRLF + ([DOT] + CRLF))
  }

  // The same, byte by byte

  /** CR LF, a CR before anything else, and an LF all become CR LF. */
  lemma LineEndIsFixed(rest: seq<byte>, quoted: bool, bol: bool)
    ensures Fix([13, 10] + rest, quoted, bol) == [13, 10] + Fix(rest, quoted, true)
    ensures Fix([10] + rest, quoted, bol) == [13, 10] + Fix(rest, quoted, true)
    ensures (rest != [] ==> rest[0] != 10) ==> Fix([13] + rest, quoted, bol) == [13, 10] + Fix(rest, quoted, true)
  {
    assert ([13, 10] + rest)[2..] == rest && ([10] + rest)[1..] == rest && ([13] + rest)[1..] == rest;
  }

  /** Any other byte stays, after another dot if it is a dot at the beginning of a line to be quoted. */
  lemma ByteIsFixed(b: byte, rest: seq<byte>, quoted: bool, bol: bool)
    requires b != 13 && b != 10
    ensures Fix([b] + rest, quoted, bol) ==
            (if quoted && bol && b == 46 then [46] else []) + ([b] + Fix(rest, quoted, false))
  {
    assert ([b] + rest)[1..] == rest;
  }

  /** A message of three lines, one with a dot in front and one without an end, as it travels. */
  lemma WireOfThreeLines()
    ensures Wire([97] + ([10] + ([46] + ([98] + ([13] + [99]))))) ==
            [97, 13, 10, 46, 46, 98, 13, 10, 99, 13, 10, 46, 13, 10]
  {
    hide Fix;
    var rest := [46] + ([98] + ([13] + [99]));
    ByteIsFixed(97, [10] + rest, true, true);
    LineEndIsFixed(rest, true, false);
    FixOfTwoLines();
  }

  lemma FixOfTwoLines()
    ensures Fix([46] + ([98] + ([13] + [99])), true, true) == [46, 46, 98, 13, 10, 99]
  {
    FixOfOneLine();
    hide Fix;
    ByteIsFixed(46, [98] + ([13] + [99]), true, true);
    ByteIsFixed(98, [13] + [99], true, false);
    LineEndIsFixed([99], true, false);
  }

  lemma FixOfOneLine()
    ensures Fix([99], true, true) == [99]
  {
    assert [99][1..] == [];
    assert Fix([], true, false) == [];
  }

  // The first line of a message

  predicate IsEol(b: byte) {
    b == CR || b == LF
  }

  /** Bytes of the first line of m before its line end. */
  function BodyLength(m: seq<byte>): (k: nat)
    ensures k <= |m|
  {
    if m == [] || IsEol(m[0]) then 0 else 1 + BodyLength(m[1..])
  }

  /** Length of the line end at position k. */
  function EolLength(m: seq<byte>, k: nat): (e: nat)
    requires k <= |m|
    ensures k + e <= |m| && (e == 0 <==> k == |m|)
  {
    if k == |m| then 0
    else if m[k] == CR && k + 1 < |m| && m[k + 1] == LF then 2
    else 1
  }

  ghost function Eol(e: nat): seq<byte> {
    if e == 0 then [] else CRLF
  }

  lemma {:induction false} BodyHasNoEol(m: seq<byte>)
    ensures forall k :: 0 <= k < BodyLength(m) ==> !IsEol(m[k])
    ensures BodyLength(m) < |m| ==> IsEol(m[BodyLength(m)])
  {
    if m != [] && !IsEol(m[0]) {
      BodyHasNoEol(m[1..]);
      assert forall k :: 1 <= k < |m| ==> m[k] == m[1..][k - 1];
    }
  }

  lemma {:induction false} BodyLengthIs(m: seq<byte>, k: nat)
    requires k <= |m| && (forall j :: 0 <= j < k ==> !IsEol(m[j])) && (k < |m| ==> IsEol(m[k]))
    ensures BodyLength(m) == k
  {
    if k > 0 {
      BodyLengthIs(m[1..], k - 1);
    }
  }

  /** Sending a message is sending its first line and then the rest. */
  lemma FixLine(m: seq<byte>, quoted: bool)
    requires m != []
    ensures var k := BodyLength(m);
            var e := EolLength(m, k);
            var dot := if quoted && m[0] == DOT then [DOT] else [];
            k + e > 0 && Fix(m, quoted, true) == dot + FixedLine(m, quoted)
  {
    FixRestOfLine(m, quoted);
    assert IsEol(m[0]) ==> [] + Fix(m, quoted, false) == Fix(m, quoted, false);
  }

  /** The first line of m and the rest, without a dot doubled at the start. */
  ghost function FixedLine(m: seq<byte>, quoted: bool): seq<byte> {
    var k := BodyLength(m);
    var e := EolLength(m, k);
    m[..k] + (Eol(e) + Fix(m[k + e..], quoted, true))
  }

  lemma {:induction false} FixRestOfLine(m: seq<byte>, quoted: bool)
    ensures Fix(m, quoted, false) == FixedLine(m, quoted)
  {
    if m == [] || IsEol(m[0]) {
      assert m[..0] == [];
      assert FixedLine(m, quoted) == Eol(EolLength(m, 0)) + Fix(m[EolLength(m, 0)..], quoted, true);
    } else {
      FixRestOfLine(m[1..], quoted);
      OneMoreOfLine(m, quoted);
    }
  }

  lemma OneMoreOfLine(m: seq<byte>, quoted: bool)
    requires m != [] && !IsEol(m[0])
    ensures FixedLine(m, quoted) == [m[0]] + FixedLine(m[1..], quoted)
  {
    hide Fix;
    var k := BodyLength(m);
    var e := EolLength(m, k);
    assert e == EolLength(m[1..], k - 1);
    hide BodyLength, EolLength;
    ShiftByOne(m, k, k + e);
    Regroup([m[0]], m[1..][..k - 1], Eol(e) + Fix(m[k + e..], quoted, true));
  }

  lemma ShiftByOne(m: seq<byte>, k: nat, l: nat)
    requires 0 < k <= l <= |m|
    ensures m[1..][l - 1..] == m[l..] && [m[0]] + m[1..][..k - 1] == m[..k]
  {
  }

  // Canonical line ends

  /** Every CR is followed by LF and every LF preceded by CR. */
  ghost predicate Paired(s: seq<byte>) {
    && (forall i :: 0 <= i < |s| && s[i] == CR ==> i + 1 < |s| && s[i + 1] == LF)
    && (forall i :: 0 <= i < |s| && s[i] == LF ==> 0 < i && s[i - 1] == CR)
  }

  lemma PairedCrlf(s: seq<byte>)
    requires Paired(s)
    ensures Paired(CRLF + s)
  {
    var t := CRLF + s;
    forall i | 0 <= i < |t| && t[i] == CR ensures i + 1 < |t| && t[i + 1] == LF {
      assert i >= 2 ==> t[i] == s[i - 2];
    }
    forall i | 0 <= i < |t| && t[i] == LF ensures 0 < i && t[i - 1] == CR {
      assert i >= 2 ==> t[i] == s[i - 2];
    }
  }

  lemma PairedOther(c: byte, s: seq<byte>)
    requires !IsEol(c)
    ensures Paired([c] + s) <==> Paired(s)
  {
    var t := [c] + s;
    assert forall i :: 0 <= i < |s| ==> t[i + 1] == s[i];
    if Paired(t) {
      forall i | 0 <= i < |s| && s[i] == CR ensures i + 1 < |s| && s[i + 1] == LF {
        assert t[i + 1] == CR;
      }
      forall i | 0 <= i < |s| && s[i] == LF ensures 0 < i && s[i - 1] == CR {
        assert t[i + 1] == LF && t[i] == CR;
      }
    }
    if Paired(s) {
      forall i | 0 <= i < |t| && t[i] == CR ensures i + 1 < |t| && t[i + 1] == LF {
        assert s[i - 1] == CR;
      }
      forall i | 0 <= i < |t| && t[i] == LF ensures 0 < i && t[i - 1] == CR {
        assert s[i - 1] == LF;
      }
    }
  }

  /** Sending makes line ends canonical. */
  lemma {:induction false} NormIsPaired(m: seq<byte>, bol: bool)
    ensures Paired(Fix(m, false, bol))
    decreases |m|
  {
    if m == [] {
    } else if m[0] == CR {
      var rest := if |m| > 1 && m[1] == LF then m[2..] else m[1..];
      NormIsPaired(rest, true);
      PairedCrlf(Fix(rest, false, true));
    } else if m[0] == LF {
      NormIsPaired(m[1..], true);
      PairedCrlf(Fix(m[1..], false, true));
    } else {
      NormIsPaired(m[1..], false);
      PairedOther(m[0], Fix(m[1..], false, false));
      assert Fix(m, false, bol) == [m[0]] + Fix(m[1..], false, false);
    }
  }

  /** Messages with canonical line ends are sent unchanged. */
  lemma {:induction false} PairedIsUnchanged(m: seq<byte>, bol: bool)
    requires Paired(m)
    ensures Fix(m, false, bol) == m
    decreases |m|
  {
    if m == [] {
    } else if IsEol(m[0]) {
      assert m[0] == CR && m[1] == LF;
      DropCrlf(m);
      PairedIsUnchanged(m[2..], true);
      assert m == CRLF + m[2..];
    } else {
      PairedOther(m[0], m[1..]);
      assert m == [m[0]] + m[1..];
      PairedIsUnchanged(m[1..], false);
    }
  }

  lemma DropCrlf(m: seq<byte>)
    requires Paired(m) && |m| >= 2 && m[0] == CR && m[1] == LF
    ensures Paired(m[2..])
  {
    var s := m[2..];
    forall i | 0 <= i < |s| && s[i] == CR ensures i + 1 < |s| && s[i + 1] == LF {
      assert m[i + 2] == CR;
    }
    forall i | 0 <= i < |s| && s[i] == LF ensures 0 < i && s[i - 1] == CR {
      assert m[i + 2] == LF;
    }
  }

  /** A message is unchanged by sending exactly when its line ends are canonical; in particular a
      message that has been through once goes through again unchanged. */
  lemma NormFixesExactlyPaired(m: seq<byte>)
    ensures Norm(m) == m <==> Paired(m)
    ensures Norm(Norm(m)) == Norm(m)
  {
    NormIsPaired(m, true);
    PairedIsUnchanged(Norm(m), true);
    if Paired(m) {
      PairedIsUnchanged(m, true);
    }
  }
}
