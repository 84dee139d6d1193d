/** The transparency procedure of section 4.5.2 of RFC 5321: what mailstream_read_multiline makes of
  what mailstream_send_data wrote (src/data-types/mailstream_helper.c).
 */
module Multiline {
  import opened Sequences
  import opened Bits
  import opened Crlf

  /** Length of the first line of s, through its LF if there is one. */
  ghost function LineEnd(s: seq<byte>): (n: nat)
    ensures n <= |s| && (s != [] ==> n > 0)
  {
    if s == [] then 0 else if s[0] == LF then 1 else 1 + LineEnd(s[1..])
  }

  /** remove_trailing_eol */
  function RemoveEol(line: seq<byte>): seq<byte> {
    var s := if |line| >= 1 && line[|line| - 1] == LF then line[..|line| - 1] else line;
    if |s| >= 1 && s[|s| - 1] == CR then s[..|s| - 1] else s
  }

  /** A line loses one LF at its end, and then one CR: it may end in either, in both, or in none. */
  lemma EveryLineEndIsRemoved(x: seq<byte>)
    requires x != [] ==> x[|x| - 1] != 10 && x[|x| - 1] != 13
    ensures RemoveEol(x) == x
    ensures RemoveEol(x + [10]) == x
    ensures RemoveEol(x + [13]) == x
    ensures RemoveEol(x + [13, 10]) == x
    ensures RemoveEol(x + [10, 13]) == x + [10]
  {
    RemoveEolSteps(x + [10], x, 10);
    RemoveEolSteps(x + [13], x, 13);
    RemoveEolSteps(x + [13, 10], x + [13], 10);
    RemoveEolSteps(x + [10, 13], x + [10], 13);
  }

  lemma RemoveEolSteps(line: seq<byte>, x: seq<byte>, last: byte)
    requires line == x + [last]
    ensures last == 10 ==> RemoveEol(line) == if x != [] && x[|x| - 1] == 13 then x[..|x| - 1] else x
    ensures last == 13 ==> RemoveEol(line) == x
    ensures forall b: byte :: (x + [b])[..|x|] == x
  {
    assert line[..|x|] == x;
  }

  /** A byte string read as a C string: it ends before its first NUL. */
  function CStr(s: seq<byte>): (c: seq<byte>)
    ensures |c| <= |s|
  {
    if s == [] || s[0] == NUL then [] else [s[0]] + CStr(s[1..])
  }

  /** mailstream_is_end_multiline */
  predicate IsEnd(line: seq<byte>) {
    CStr(line) == [DOT]
  }

  /** The line less a leading dot. */
  function Unstuff(line: seq<byte>): seq<byte> {
    var c := CStr(line);
    if c != [] && c[0] == DOT then c[1..] else c
  }

  datatype Text = Incomplete | Text(body: seq<byte>, rest: seq<byte>)

  /** The text up to the line that ends it, and the bytes after that line. */
  ghost function ReadText(s: seq<byte>): Text
    decreases |s|
  {
    if s == [] then Incomplete
    else
      var line, rest := RemoveEol(s[..LineEnd(s)]), s[LineEnd(s)..];
      if IsEnd(line) then Text([], rest)
      else
        match ReadText(rest)
        case Incomplete => Incomplete
        case Text(body, r) => Text(Unstuff(line) + (CRLF + body), r)
  }

  /** The loop of mailstream_read_multiline after some turns: it has returned, or goes on. */
  datatype Progress = Ended(body: seq<byte>, rest: seq<byte>) | Going(body: seq<byte>, rest: seq<byte>)

  /** That loop on a stream where s is pending, without a limit of its own: at the end of the stream
      a line is empty. */
  ghost function Turns(s: seq<byte>, n: nat): Progress {
    if n == 0 then Going([], s)
    else
      var line, rest := RemoveEol(s[..LineEnd(s)]), s[LineEnd(s)..];
      if IsEnd(line) then Ended([], rest)
      else
        match Turns(rest, n - 1)
        case Ended(body, r) => Ended(Unstuff(line) + (CRLF + body), r)
        case Going(body, r) => Going(Unstuff(line) + (CRLF + body), r)
  }

  /** A text that is ended is read in at most as many turns as there are bytes. */
  lemma {:induction false} TextIsRead(s: seq<byte>, n: nat)
    requires ReadText(s).Text? && n >= |s|
    ensures Turns(s, n) == Ended(ReadText(s).body, ReadText(s).rest)
    decreases |s|
  {
    hide IsEnd, Unstuff, RemoveEol, LineEnd;
    var line, rest := RemoveEol(s[..LineEnd(s)]), s[LineEnd(s)..];
    if !IsEnd(line) {
      TextIsRead(rest, n - 1);
    }
  }

  /** Without an end the loop is never done, and what it has read grows by two bytes or more each turn. */
  lemma {:induction false} IncompleteGoesOn(s: seq<byte>, n: nat)
    requires ReadText(s).Incomplete?
    ensures Turns(s, n).Going? && |Turns(s, n).body| >= 2 * n
    decreases n
  {
    hide Unstuff;
    if n > 0 {
      if s == [] {
        assert RemoveEol(s[..LineEnd(s)]) == [] && CStr([]) == [];
        assert s[LineEnd(s)..] == s;
        IncompleteGoesOn(s, n - 1);
      } else {
        IncompleteGoesOn(s[LineEnd(s)..], n - 1);
      }
    }
  }

  /** The loop ends exactly when the pending bytes hold a line that ends the text, and then within
      as many turns as there are bytes. */
  lemma EndsExactlyOnText(s: seq<byte>)
    ensures ReadText(s).Text? <==> exists n: nat :: Turns(s, n).Ended?
    ensures ReadText(s).Text? <==> Turns(s, |s|).Ended?
  {
    if ReadText(s).Text? {
      TextIsRead(s, |s|);
    } else {
      forall n: nat
        ensures Turns(s, n).Going?
      {
        IncompleteGoesOn(s, n);
      }
    }
  }

  /** On an exhausted stream the loop goes on for ever. */
  lemma NothingPendingGoesOn(n: nat)
    ensures Turns([], n).Going? && |Turns([], n).body| >= 2 * n
  {
    IncompleteGoesOn([], n);
  }

  /** What a C string is. */
  lemma {:induction false} CStrEndsAtNul(x: seq<byte>, y: seq<byte>)
    requires forall k :: 0 <= k < |x| ==> x[k] != 0
    ensures CStr(x) == x && CStr(x + ([0] + y)) == x
  {
    if x == [] {
      assert x + ([0] + y) == [0] + y;
    } else {
      CStrEndsAtNul(x[1..], y);
      assert (x + ([0] + y))[1..] == x[1..] + ([0] + y);
      assert x == [x[0]] + x[1..];
    }
  }

  /** Only a dot alone ends a text, and one leading dot is dropped from any other line. */
  lemma DotsAreRead(x: seq<byte>)
    requires forall k :: 0 <= k < |x| ==> x[k] != 0
    ensures IsEnd(x) <==> x == [46]
    ensures Unstuff(x) == if x != [] && x[0] == 46 then x[1..] else x
  {
    CStrEndsAtNul(x, []);
  }

  /** A line may end in LF alone: the text is the same. */
  lemma BareLfReads(x: seq<byte>, rest: seq<byte>)
    requires forall k :: 0 <= k < |x| ==> x[k] != 13 && x[k] != 10
    ensures ReadText(x + ([10] + rest)) == ReadText(x + ([13, 10] + rest))
    ensures ReadText(x + ([10] + rest)) ==
            (if IsEnd(x) then Text([], rest)
             else match ReadText(rest)
                  case Incomplete => Incomplete
                  case Text(body, r) => Text(Unstuff(x) + ([13, 10] + body), r))
  {
    hide IsEnd, Unstuff, CStr;
    var s := x + ([10] + rest);
    assert NoEol(x);
    ReadTextLine(x, rest);
    LineEndAtBareLf(x, rest);
    TakeBareLf(x, rest);
    hide LineEnd, RemoveEol;
  }

  lemma TakeBareLf(x: seq<byte>, rest: seq<byte>)
    requires NoEol(x)
    ensures var s := x + ([10] + rest);
            |s| >= |x| + 1 && RemoveEol(s[..|x| + 1]) == x && s[|x| + 1..] == rest
  {
    var s := x + ([10] + rest);
    EveryLineEndIsRemoved(x);
    assert s[..|x| + 1] == x + [10];
  }

  lemma {:induction false} LineEndAtBareLf(x: seq<byte>, rest: seq<byte>)
    requires NoEol(x)
    ensures LineEnd(x + ([10] + rest)) == |x| + 1
  {
    if x == [] {
      assert x + ([10] + rest) == [10] + rest;
    } else {
      LineEndAtBareLf(x[1..], rest);
      assert (x + ([10] + rest))[1..] == x[1..] + ([10] + rest);
    }
  }

  /** What the receiver gets for message m: each line as a C string, ended by CRLF. */
  ghost function Received(m: seq<byte>): seq<byte>
    decreases |m|
  {
    var k := BodyLength(m);
    var e := EolLength(m, k);
    if e == 0 then CStr(m) + CRLF
    else CStr(m[..k]) + (CRLF + Received(m[k + e..]))
  }

  ghost predicate NoEol(s: seq<byte>) {
    forall k :: 0 <= k < |s| ==> !IsEol(s[k])
  }

  lemma {:induction false} LineEndAfter(x: seq<byte>, rest: seq<byte>)
    requires NoEol(x)
    ensures LineEnd(x + (CRLF + rest)) == |x| + 2
  {
    if x == [] {
      assert x + (CRLF + rest) == CRLF + rest;
      assert (CRLF + rest)[1..] == [LF] + rest;
    } else {
      LineEndAfter(x[1..], rest);
      assert (x + (CRLF + rest))[1..] == x[1..] + (CRLF + rest);
    }
  }

  /** Reading a line that ends in CRLF and is not the last one. */
  lemma ReadTextLine(x: seq<byte>, rest: seq<byte>)
    requires NoEol(x)
    ensures var s := x + (CRLF + rest);
            ReadText(s) == if IsEnd(x) then Text([], rest)
                           else match ReadText(rest)
                                case Incomplete => Incomplete
                                case Text(body, r) => Text(Unstuff(x) + (CRLF + body), r)
  {
    hide IsEnd, Unstuff, CStr;
    var s := x + (CRLF + rest);
    LineEndAfter(x, rest);
    TakeLine(x, rest);
    hide LineEnd;
  }

  lemma TakeLine(x: seq<byte>, rest: seq<byte>)
    requires NoEol(x)
    ensures var s := x + (CRLF + rest);
            |s| >= |x| + 2 && RemoveEol(s[..|x| + 2]) == x && s[|x| + 2..] == rest
  {
    var s := x + (CRLF + rest);
    assert s[..|x| + 2] == x + CRLF;
    assert (x + CRLF)[..|x| + 1] == x + [CR];
    assert (x + [CR])[..|x|] == x;
  }

  /** The last line, which is the dot alone. */
  lemma ReadTextEnd(rest: seq<byte>)
    ensures ReadText([DOT] + (CRLF + rest)) == Text([], rest)
  {
    ReadTextLine([DOT], rest);
    assert CStr([DOT]) == [DOT] + CStr([]);
  }

  /** A dot doubled by the sender is removed by the receiver, and no line of a message is taken for
      the one that ends it. */
  lemma UnstuffLine(x: seq<byte>)
    ensures var dot := if x != [] && x[0] == DOT then [DOT] else [];
            !IsEnd(dot + x) && Unstuff(dot + x) == CStr(x)
  {
    if x != [] && x[0] == DOT {
      assert ([DOT] + x)[1..] == x;
      assert CStr([DOT] + x) == [DOT] + CStr(x) && CStr(x)[0] == DOT;
      assert |CStr([DOT] + x)| >= 2;
    } else {
      assert [] + x == x;
      assert CStr(x) != [] ==> CStr(x)[0] == x[0];
    }
  }

  /** For every message and whatever follows it on the wire, the receiver gets the message line by
      line and leaves exactly what follows. */
  lemma {:induction false} WireReadsBack(m: seq<byte>, f: seq<byte>)
    ensures ReadText(Wire(m) + f) == Text(Received(m), f)
    decreases |m|
  {
    hide ReadText, Fix, CStr, IsEnd, Unstuff, BodyLength;
    var k := BodyLength(m);
    var e := EolLength(m, k);
    BodyHasNoEol(m);
    var x := m[..k];
    var dot := if x != [] && x[0] == DOT then [DOT] else [];
    UnstuffLine(x);
    if e == 0 {
      LastLine(m, f);
      ReadTextEnd(f);
      ReadTextLine(dot + m, [DOT] + (CRLF + f));
      assert m[..k] == m && CRLF + [] == CRLF;
    } else {
      WireReadsBack(m[k + e..], f);
      WireLine(m, f);
      ReadTextLine(dot + x, Wire(m[k + e..]) + f);
    }
  }

  lemma LastLine(m: seq<byte>, f: seq<byte>)
    requires NoEol(m) && BodyLength(m) == |m|
    ensures var dot := if m != [] && m[0] == DOT then [DOT] else [];
            Wire(m) + f == (dot + m) + (CRLF + ([DOT] + (CRLF + f)))
  {
    if m != [] {
      FixLine(m, true);
      assert m[|m|..] == [] && m[..|m|] == m && Eol(0) + Fix([], true, true) == [];
      assert FixedLine(m, true) == m;
    }
    hide Fix;
    var dot := if m != [] && m[0] == DOT then [DOT] else [];
    AppendFollowing(dot + m, f);
  }

  lemma AppendFollowing(a: seq<byte>, f: seq<byte>)
    ensures (a + (CRLF + ([DOT] + CRLF))) + f == a + (CRLF + ([DOT] + (CRLF + f)))
  {
  }

  lemma WireLine(m: seq<byte>, f: seq<byte>)
    requires m != [] && EolLength(m, BodyLength(m)) > 0
    ensures var k := BodyLength(m);
            var e := EolLength(m, k);
            var x := m[..k];
            var dot := if x != [] && x[0] == DOT then [DOT] else [];
            Wire(m) + f == (dot + x) + (CRLF + (Wire(m[k + e..]) + f))
  {
    FixLine(m, true);
    hide Fix, EolLength;
    var k := BodyLength(m);
    var e := EolLength(m, k);
    hide BodyLength;
    var x := m[..k];
    var dot := if x != [] && x[0] == DOT then [DOT] else [];
    assert k == 0 ==> IsEol(m[0]) by {
      BodyHasNoEol(m);
    }
    assert (if m[0] == DOT then [DOT] else []) == dot;
    AppendEnd(dot, x, Fix(m[k + e..], true, true), CRLF + ([DOT] + CRLF), f);
  }

  lemma AppendEnd(dot: seq<byte>, x: seq<byte>, rest: seq<byte>, end: seq<byte>, f: seq<byte>)
    ensures ((dot + (x + (CRLF + rest))) + end) + f == (dot + x) + (CRLF + ((rest + end) + f))
  {
  }

  // NUL bytes

  lemma {:induction false} CStrWhole(s: seq<byte>)
    ensures |CStr(s)| == |s| ==> CStr(s) == s && NUL !in s
    ensures |CStr(s)| < |s| ==> NUL in s
  {
    if s != [] && s[0] != NUL {
      CStrWhole(s[1..]);
      assert s == [s[0]] + s[1..];
    }
  }

  /** The receiver gets the normalised message and one more CRLF exactly when the message has no NUL
      byte; otherwise it gets less. */
  lemma {:induction false} ReceivedIffNulFree(m: seq<byte>)
    ensures NUL !in m ==> Received(m) == Norm(m) + CRLF
    ensures NUL in m ==> |Received(m)| < |Norm(m)| + 2
    decreases |m|
  {
    hide CStr, Fix, BodyLength;
    var k := BodyLength(m);
    var e := EolLength(m, k);
    CStrWhole(m[..k]);
    NormLine(m);
    if e == 0 {
      assert m[..k] == m;
    } else {
      ReceivedIffNulFree(m[k + e..]);
      BodyHasNoEol(m);
      SplitAtEol(m, k, e);
      hide EolLength;
      Regroup(m[..k], CRLF + Norm(m[k + e..]), CRLF);
      Regroup(CRLF, Norm(m[k + e..]), CRLF);
    }
  }

  lemma NormLine(m: seq<byte>)
    ensures var k := BodyLength(m);
            var e := EolLength(m, k);
            Norm(m) == if e == 0 then m else m[..k] + (CRLF + Norm(m[k + e..]))
  {
    if m != [] {
      FixLine(m, false);
      var k := BodyLength(m);
      var e := EolLength(m, k);
      assert [] + FixedLine(m, false) == FixedLine(m, false);
      if e == 0 {
        assert m[..k] == m && m[k + e..] == [];
        assert m + ([] + []) == m;
      }
    }
  }

  lemma SplitAtEol(m: seq<byte>, k: nat, e: nat)
    requires k < |m| && e == EolLength(m, k) && IsEol(m[k])
    ensures NUL in m <==> NUL in m[..k] || NUL in m[k + e..]
  {
    assert m == m[..k] + m[k..k + e] + m[k + e..];
  }

  /** Transparency: every NUL-free message arrives as it was sent. */
  lemma Transparency(m: seq<byte>, f: seq<byte>)
    ensures ReadText(Wire(m) + f) == Text(Norm(m) + CRLF, f) <==> NUL !in m
  {
    WireReadsBack(m, f);
    ReceivedIffNulFree(m);
  }
}
