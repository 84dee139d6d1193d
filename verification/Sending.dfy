/** Messages as the writes that send them, and which of them can be cut without the sender noticing
  (src/data-types/mailstream_helper.c).
 */
module Sending {
  import opened Sequences
  import opened Bits
  import opened Crlf
  import opened MailStream

  type Pieces = seq<seq<byte>>

  /** All pieces one after the other. */
  ghost function Flat(pieces: Pieces): seq<byte> {
    if pieces == [] then [] else pieces[0] + Flat(pieces[1..])
  }

  /** The first line of m with its line end. */
  function LineLength(m: seq<byte>): (n: nat)
    ensures n <= |m|
  {
    BodyLength(m) + EolLength(m, BodyLength(m))
  }

  /** The writes of send_data_line for the first line of m: a line end to be replaced is a write of its
      own. */
  function LinePieces(m: seq<byte>): Pieces {
    var k := BodyLength(m);
    var e := EolLength(m, k);
    if e == 1 then [m[..k], CRLF] else [m[..k + e]]
  }

  function DotPieces(m: seq<byte>, quoted: bool): Pieces {
    if quoted && m != [] && m[0] == DOT then [[DOT]] else []
  }

  /** The writes of send_data_crlf_progress. */
  function MessagePieces(m: seq<byte>, quoted: bool): Pieces
    decreases |m|
  {
    if LineLength(m) == 0 then []
    else (DotPieces(m, quoted) + LinePieces(m)) + MessagePieces(m[LineLength(m)..], quoted)
  }

  const END: seq<byte> := CRLF + ([DOT] + CRLF)

  /** The writes of mailstream_send_data. */
  function DataPieces(m: seq<byte>): Pieces {
    MessagePieces(m, true) + [END]
  }

  // What becomes of a sequence of writes

  datatype Sent = Sent(ok: bool, bytes: seq<byte>, calls: nat, buffered: nat)

  /** The writes one after the other, up to the first that reports an error: which bytes are accepted. */
  ghost function Send(answer: Answer, max: nat, k: nat, buffered: nat, pieces: Pieces): Sent
    decreases pieces
  {
    if pieces == [] then Sent(true, [], k, buffered)
    else
      var w := Wrote(answer, max, k, buffered, |pieces[0]|);
      if w.result == -1 then Sent(false, [], w.calls, w.buffered)
      else
        var rest := Send(answer, max, w.calls, w.buffered, pieces[1..]);
        Sent(rest.ok, pieces[0][..w.result] + rest.bytes, rest.calls, rest.buffered)
  }

  /** The writes and a flush, all without an error. */
  ghost predicate Succeeds(answer: Answer, max: nat, k: nat, buffered: nat, pieces: Pieces) {
    var q := Send(answer, max, k, buffered, pieces);
    q.ok && Pump(answer, q.calls, 0, q.buffered).done == q.buffered
  }

  /** A write can be short only if it has two bytes or more, and exceeds the buffer. */
  predicate CanBeCut(piece: seq<byte>, max: nat) {
    |piece| >= 2 && |piece| > max
  }

  predicate Fits(pieces: Pieces, max: nat) {
    forall i :: 0 <= i < |pieces| ==> !CanBeCut(pieces[i], max)
  }

  // The pieces of a message make up what is to be sent

  lemma {:induction false} FlatAppend(a: Pieces, b: Pieces)
    ensures Flat(a + b) == Flat(a) + Flat(b)
  {
    if a == [] {
      assert a + b == b;
    } else {
      FlatAppend(a[1..], b);
      assert (a + b)[1..] == a[1..] + b;
      Regroup(a[0], Flat(a[1..]), Flat(b));
    }
  }

  lemma FlatOne(piece: seq<byte>)
    ensures Flat([piece]) == piece
  {
    assert [piece][1..] == [];
  }

  lemma FlatLine(m: seq<byte>)
    ensures var k := BodyLength(m); Flat(LinePieces(m)) == m[..k] + Eol(EolLength(m, k))
  {
    BodyHasNoEol(m);
    hide BodyLength;
    var k := BodyLength(m);
    var e := EolLength(m, k);
    if e == 1 {
      FlatOne(CRLF);
      assert [m[..k], CRLF][1..] == [CRLF];
    } else {
      FlatOne(m[..k + e]);
      LineEndsItself(m, k, e);
    }
  }

  lemma LineEndsItself(m: seq<byte>, k: nat, e: nat)
    requires k + e <= |m| && (e == 0 || (e == 2 && m[k] == CR && m[k + 1] == LF))
    ensures m[..k + e] == m[..k] + Eol(e)
  {
  }

  lemma FlatDot(m: seq<byte>, quoted: bool)
    ensures Flat(DotPieces(m, quoted)) == if quoted && m != [] && m[0] == DOT then [DOT] else []
  {
    FlatOne([DOT]);
  }

  /** The writes for a message are the message with canonical line ends, dots doubled if asked. */
  lemma {:induction false} FlatMessage(m: seq<byte>, quoted: bool)
    ensures Flat(MessagePieces(m, quoted)) == Fix(m, quoted, true)
    decreases |m|
  {
    if m != [] {
      FixLine(m, quoted);
      hide Fix, BodyLength, EolLength, Flat, LinePieces, DotPieces;
      var n := LineLength(m);
      var rest := m[n..];
      FlatMessage(rest, quoted);
      FlatAppend(DotPieces(m, quoted) + LinePieces(m), MessagePieces(rest, quoted));
      FlatAppend(DotPieces(m, quoted), LinePieces(m));
      FlatLine(m);
      FlatDot(m, quoted);
      var k := BodyLength(m);
      var e := EolLength(m, k);
      Regroup(m[..k], Eol(e), Fix(rest, quoted, true));
      Regroup(Flat(DotPieces(m, quoted)), m[..k] + Eol(e), Fix(rest, quoted, true));
    }
  }

  lemma FlatData(m: seq<byte>)
    ensures Flat(DataPieces(m)) == Wire(m)
  {
    FlatMessage(m, true);
    FlatAppend(MessagePieces(m, true), [END]);
    FlatOne(END);
  }

  // Success without a cut

  lemma {:induction false} SendAppend(answer: Answer, max: nat, k: nat, buffered: nat, a: Pieces, b: Pieces)
    ensures var q, whole := Send(answer, max, k, buffered, a), Send(answer, max, k, buffered, a + b);
            if !q.ok then whole == q
            else
              var rest := Send(answer, max, q.calls, q.buffered, b);
              whole == Sent(rest.ok, q.bytes + rest.bytes, rest.calls, rest.buffered)
    decreases a
  {
    hide Wrote;
    if a == [] {
      assert a + b == b;
      var q := Send(answer, max, k, buffered, b);
      assert [] + q.bytes == q.bytes;
    } else {
      var w := Wrote(answer, max, k, buffered, |a[0]|);
      assert (a + b)[1..] == a[1..] + b;
      if w.result != -1 {
        SendAppend(answer, max, w.calls, w.buffered, a[1..], b);
        var first := Send(answer, max, w.calls, w.buffered, a[1..]);
        Regroup(a[0][..w.result], first.bytes, Send(answer, max, first.calls, first.buffered, b).bytes);
      }
    }
  }

  lemma WroteAll(answer: Answer, max: nat, k: nat, buffered: nat, count: nat)
    requires count < 2 || count <= max
    ensures var w := Wrote(answer, max, k, buffered, count); w.result == count || w.result == -1
  {
  }

  lemma WroteReliably(answer: Answer, max: nat, k: nat, buffered: nat, count: nat)
    requires Reliable(answer)
    ensures Wrote(answer, max, k, buffered, count).result == count
  {
    ReliablePump(answer, k, 0, buffered);
    var p := Pump(answer, k, 0, buffered);
    ReliablePump(answer, p.calls, 0, count);
  }

  /** On a reliable stream every message is accepted whole. */
  lemma {:induction false} SendsReliably(answer: Answer, max: nat, k: nat, buffered: nat, pieces: Pieces)
    requires Reliable(answer)
    ensures var q := Send(answer, max, k, buffered, pieces); q.ok && q.bytes == Flat(pieces)
    decreases pieces
  {
    hide Wrote;
    if pieces != [] {
      WroteReliably(answer, max, k, buffered, |pieces[0]|);
      var w := Wrote(answer, max, k, buffered, |pieces[0]|);
      SendsReliably(answer, max, w.calls, w.buffered, pieces[1..]);
    }
  }

  /** If no piece can be cut, success means that everything was accepted. */
  lemma {:induction false} FitsSendsWhole(answer: Answer, max: nat, k: nat, buffered: nat, pieces: Pieces)
    requires Fits(pieces, max)
    ensures var q := Send(answer, max, k, buffered, pieces); q.ok ==> q.bytes == Flat(pieces)
    decreases pieces
  {
    hide Wrote;
    if pieces != [] {
      assert !CanBeCut(pieces[0], max);
      WroteAll(answer, max, k, buffered, |pieces[0]|);
      var w := Wrote(answer, max, k, buffered, |pieces[0]|);
      if w.result != -1 {
        assert forall i :: 0 <= i < |pieces[1..]| ==> pieces[1..][i] == pieces[i + 1];
        FitsSendsWhole(answer, max, w.calls, w.buffered, pieces[1..]);
      }
    }
  }

  // A stream that cuts

  /** Takes everything, but only one byte at call n, and nothing at the call after it. */
  function CutAt(n: nat): Answer {
    (j, count) => if j == n then 1 else if j == n + 1 then -1 else count
  }

  /** What mailstream_write does on a stream that takes everything. */
  function FullWrite(max: nat, k: nat, buffered: nat, count: nat): Written {
    if count + buffered <= max then Written(count, k, buffered + count)
    else
      var flushed := if buffered > 0 then k + 1 else k;
      if count <= max then Written(count, flushed, count) else Written(count, flushed + 1, 0)
  }

  /** The call that writes the first piece that can be cut. */
  function CutCall(max: nat, k: nat, buffered: nat, pieces: Pieces): (n: nat)
    requires !Fits(pieces, max)
    ensures k <= n
    decreases pieces
  {
    if CanBeCut(pieces[0], max) then if buffered > 0 then k + 1 else k
    else
      var w := FullWrite(max, k, buffered, |pieces[0]|);
      RestIsUnfit(pieces, max);
      CutCall(max, w.calls, w.buffered, pieces[1..])
  }

  lemma RestIsUnfit(pieces: Pieces, max: nat)
    requires !Fits(pieces, max) && !CanBeCut(pieces[0], max)
    ensures !Fits(pieces[1..], max)
  {
    var i :| 0 <= i < |pieces| && CanBeCut(pieces[i], max);
    assert pieces[1..][i - 1] == pieces[i];
  }

  /** Away from the two calls, everything is taken in one call. */
  lemma TakesAll(n: nat, j: nat, count: nat)
    requires j < n || j > n + 1
    ensures Pump(CutAt(n), j, 0, count) == Pumped(count, if count > 0 then j + 1 else j)
  {
    PumpSteps(CutAt(n), j, 0, count);
    PumpSteps(CutAt(n), j + 1, 0, 0);
  }

  lemma WritesAll(n: nat, max: nat, k: nat, buffered: nat, count: nat)
    requires FullWrite(max, k, buffered, count).calls <= n || k > n + 1
    ensures Wrote(CutAt(n), max, k, buffered, count) == FullWrite(max, k, buffered, count)
  {
    hide Pump;
    if count + buffered > max {
      var flushed := if buffered > 0 then k + 1 else k;
      if buffered > 0 {
        TakesAll(n, k, buffered);
      } else {
        PumpSteps(CutAt(n), k, 0, 0);
      }
      if count > max {
        TakesAll(n, flushed, count);
      }
    }
  }

  lemma FullWritesAhead(max: nat, k: nat, buffered: nat, count: nat)
    ensures var w := FullWrite(max, k, buffered, count);
            w.result == count && k <= w.calls && (buffered <= max && (count < 2 || count <= max) ==> w.buffered <= max)
  {
  }

  /** After the two calls everything is accepted. */
  lemma {:induction false} SendsAllAfter(n: nat, max: nat, k: nat, buffered: nat, pieces: Pieces)
    requires k > n + 1
    ensures var q := Send(CutAt(n), max, k, buffered, pieces);
            q.ok && q.bytes == Flat(pieces) && q.calls > n + 1
    decreases pieces
  {
    hide Wrote;
    if pieces != [] {
      WritesAll(n, max, k, buffered, |pieces[0]|);
      FullWritesAhead(max, k, buffered, |pieces[0]|);
      var w := FullWrite(max, k, buffered, |pieces[0]|);
      SendsAllAfter(n, max, w.calls, w.buffered, pieces[1..]);
    }
  }

  /** The write at the call n and the next one is cut after its first byte. */
  lemma WriteIsCut(n: nat, max: nat, k: nat, buffered: nat, count: nat)
    requires count >= 2 && count > max && n == if buffered > 0 then k + 1 else k
    ensures Wrote(CutAt(n), max, k, buffered, count) == Written(1, n + 2, 0)
  {
    hide Pump;
    if buffered > 0 {
      TakesAll(n, k, buffered);
    } else {
      PumpSteps(CutAt(n), k, 0, 0);
    }
    PumpSteps(CutAt(n), n, 0, count);
    PumpSteps(CutAt(n), n + 1, 0, count - 1);
  }

  /** If some piece can be cut, a stream that cuts the first such piece leaves the sender none the wiser. */
  lemma {:induction false} CutIsMissed(max: nat, k: nat, buffered: nat, pieces: Pieces)
    requires !Fits(pieces, max)
    ensures var n := CutCall(max, k, buffered, pieces);
            && Succeeds(CutAt(n), max, k, buffered, pieces)
            && |Send(CutAt(n), max, k, buffered, pieces).bytes| < |Flat(pieces)|
    decreases pieces
  {
    hide Wrote, Pump;
    var n := CutCall(max, k, buffered, pieces);
    if CanBeCut(pieces[0], max) {
      WriteIsCut(n, max, k, buffered, |pieces[0]|);
      SendsAllAfter(n, max, n + 2, 0, pieces[1..]);
      var q := Send(CutAt(n), max, n + 2, 0, pieces[1..]);
      TakesAll(n, q.calls, q.buffered);
    } else {
      RestIsUnfit(pieces, max);
      var w := FullWrite(max, k, buffered, |pieces[0]|);
      FullWritesAhead(max, k, buffered, |pieces[0]|);
      WritesAll(n, max, k, buffered, |pieces[0]|);
      CutIsMissed(max, w.calls, w.buffered, pieces[1..]);
    }
  }

  /**
   * Success means that every byte was accepted, whatever the low stream answers, exactly when no piece
   * can be cut; from any state of the stream.
   */
  lemma WholeExactlyIfFits(max: nat, k: nat, buffered: nat, pieces: Pieces)
    ensures Fits(pieces, max) <==>
            forall answer: Answer ::
              Succeeds(answer, max, k, buffered, pieces) ==>
                Send(answer, max, k, buffered, pieces).bytes == Flat(pieces)
  {
    if Fits(pieces, max) {
      forall answer: Answer
        ensures Succeeds(answer, max, k, buffered, pieces) ==>
                  Send(answer, max, k, buffered, pieces).bytes == Flat(pieces)
      {
        FitsSendsWhole(answer, max, k, buffered, pieces);
      }
    } else {
      CutIsMissed(max, k, buffered, pieces);
    }
  }

  /** The same for a message: what mailstream_send_data promises and for which messages it holds. */
  lemma MessageArrivesExactlyIfFits(max: nat, k: nat, buffered: nat, m: seq<byte>)
    ensures Fits(DataPieces(m), max) <==>
            forall answer: Answer ::
              Succeeds(answer, max, k, buffered, DataPieces(m)) ==>
                Send(answer, max, k, buffered, DataPieces(m)).bytes == Wire(m)
  {
    WholeExactlyIfFits(max, k, buffered, DataPieces(m));
    FlatData(m);
  }
}
