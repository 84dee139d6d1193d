/** The loops of src/data-types/mailstream_helper.c: sending messages with canonical line ends and
  doubled dots, and reading lines and multi-line texts, through a buffered stream.
 */
module Framing {
  import opened Sequences
  import opened Bits
  import opened Crlf
  import opened Multiline
  import opened MailStream
  import opened Sending

  // Sending

  /** What the writes of these pieces make of the stream, from the state it is in. */
  ghost function Outcome(s: Stream, pieces: Pieces): Sent
    reads s, s.low
  {
    Send(s.low.writeAnswer, s.bufferMaxSize, s.low.writeCalls, s.writeBufferLen, pieces)
  }

  /** The stream is as these writes leave it; before is what had been accepted. */
  ghost predicate HasSent(s: Stream, before: seq<byte>, q: Sent)
    reads s, s.low, s.writeBuffer
  {
    && s.Valid()
    && s.Accepted() == before + q.bytes
    && s.low.writeCalls == q.calls && s.writeBufferLen == q.buffered
  }

  /** Whether no write can be cut short: the low stream is reliable, or no piece can be cut. */
  ghost predicate SafeToSend(s: Stream, pieces: Pieces) {
    Reliable(s.low.writeAnswer) || Fits(pieces, s.bufferMaxSize)
  }

  lemma SafeIsWhole(s: Stream, k: nat, buffered: nat, pieces: Pieces)
    ensures var q := Send(s.low.writeAnswer, s.bufferMaxSize, k, buffered, pieces);
            && (Reliable(s.low.writeAnswer) ==> q.ok)
            && (SafeToSend(s, pieces) && q.ok ==> q.bytes == Flat(pieces))
  {
    if Reliable(s.low.writeAnswer) {
      SendsReliably(s.low.writeAnswer, s.bufferMaxSize, k, buffered, pieces);
    } else if Fits(pieces, s.bufferMaxSize) {
      FitsSendsWhole(s.low.writeAnswer, s.bufferMaxSize, k, buffered, pieces);
    }
  }

  /** What send_data_line writes for the first line of m. */
  ghost function LineOut(m: seq<byte>): seq<byte> {
    var k := BodyLength(m);
    m[..k] + Eol(EolLength(m, k))
  }

  /** The scan that send_data_line and get_data_size start with: the length of the line at position
      start with its line end, and whether that line end has to be replaced. */
  method ScanLine(message: seq<byte>, start: nat) returns (count: nat, fixEol: bool)
    requires start <= |message|
    ensures var m := message[start..];
            var k := BodyLength(m);
            count == k + EolLength(m, k) && (fixEol <==> EolLength(m, k) == 1)
  {
    var line := start;
    fixEol, count := false, 0;
    while line < |message| && message[line] != CR && message[line] != LF
      invariant start <= line <= |message| && count == line - start
      invariant forall k :: start <= k < line ==> !IsEol(message[k])
      decreases |message| - line
    {
      line, count := line + 1, count + 1;
    }
    BodyLengthIs(message[start..], count);
    if line < |message| {
      if message[line] == CR && line + 1 < |message| && message[line + 1] == LF {
        count := count + 2;
      } else {
        count := count + 1;
        fixEol := true;
      }
    }
  }

  lemma LinePiecesAre(message: seq<byte>, start: nat, count: nat, fixEol: bool)
    requires start < |message|
    requires var m := message[start..];
             var k := BodyLength(m);
             count == k + EolLength(m, k) && (fixEol <==> EolLength(m, k) == 1)
    ensures 0 < count <= |message| - start
    ensures LinePieces(message[start..]) ==
            if fixEol then [message[start..start + count - 1]] + [CRLF] else [message[start..start + count]]
    ensures |LineOut(message[start..])| == if fixEol then count + 1 else count
  {
    var m := message[start..];
    BodyHasNoEol(m);
    hide BodyLength;
    Slice(message, start, count);
    if fixEol {
      Slice(message, start, count - 1);
    }
  }

  lemma Slice(message: seq<byte>, start: nat, count: nat)
    requires start + count <= |message|
    ensures message[start..start + count] == message[start..][..count]
  {
  }

  /** mailstream_write, where only an error is looked for. */
  method WritePiece(s: Stream, piece: seq<byte>) returns (ok: bool)
    requires s.Valid()
    modifies s`writeBufferLen, s.writeBuffer, s.low
    ensures s.low.incoming == old(s.low.incoming) && s.low.readCalls == old(s.low.readCalls)
    ensures ok == old(Outcome(s, [piece])).ok && HasSent(s, old(s.Accepted()), old(Outcome(s, [piece])))
  {
    hide Wrote;
    SendOne(s.low.writeAnswer, s.bufferMaxSize, s.low.writeCalls, s.writeBufferLen, piece);
    var w := s.Write(piece);
    ok := w != -1;
  }

  lemma SendOne(answer: Answer, max: nat, k: nat, buffered: nat, piece: seq<byte>)
    ensures var w := Wrote(answer, max, k, buffered, |piece|);
            Send(answer, max, k, buffered, [piece]) ==
            Sent(w.result != -1, if w.result == -1 then [] else piece[..w.result], w.calls, w.buffered)
  {
    hide Wrote;
    var w := Wrote(answer, max, k, buffered, |piece|);
    assert [piece][1..] == [];
    if w.result != -1 {
      assert piece[..w.result] + [] == piece[..w.result];
    }
  }

  /** send_data_line: writes the line that starts at position start; its length, or -1. */
  method SendDataLine(s: Stream, message: seq<byte>, start: nat) returns (r: int)
    requires s.Valid() && start < |message|
    modifies s`writeBufferLen, s.writeBuffer, s.low
    ensures s.low.incoming == old(s.low.incoming) && s.low.readCalls == old(s.low.readCalls)
    ensures var m := message[start..];
            var q := old(Outcome(s, LinePieces(m)));
            && r == (if q.ok then LineLength(m) else -1) && LineLength(m) > 0
            && HasSent(s, old(s.Accepted()), q)
  {
    hide BodyLength, EolLength, LinePieces, Send;
    ghost var before := s.Accepted();
    var count, fixEol := ScanLine(message, start);
    LinePiecesAre(message, start, count, fixEol);
    var ok;
    if fixEol {
      var body := message[start..start + count - 1];
      SendAppend(s.low.writeAnswer, s.bufferMaxSize, s.low.writeCalls, s.writeBufferLen, [body], [CRLF]);
      ghost var first := Outcome(s, [body]);
      ok := WritePiece(s, body);
      if !ok {
        return -1;
      }
      Regroup(before, first.bytes, Outcome(s, [CRLF]).bytes);
      ok := WritePiece(s, CRLF);
    } else {
      ok := WritePiece(s, message[start..start + count]);
    }
    r := if ok then count else -1;
  }

  /** A dot before the line at position current, if there has to be one. */
  method SendDot(s: Stream, message: seq<byte>, current: nat, quoted: bool) returns (ok: bool)
    requires s.Valid() && current < |message|
    modifies s`writeBufferLen, s.writeBuffer, s.low
    ensures s.low.incoming == old(s.low.incoming) && s.low.readCalls == old(s.low.readCalls)
    ensures var q := old(Outcome(s, DotPieces(message[current..], quoted)));
            ok == q.ok && HasSent(s, old(s.Accepted()), q)
  {
    ok := true;
    if quoted && message[current] == DOT {
      ok := WritePiece(s, [DOT]);
    } else {
      assert s.Accepted() + [] == s.Accepted();
    }
  }

  /** One turn of the loop of send_data_crlf_progress: a dot and a line. */
  method SendTurn(s: Stream, message: seq<byte>, current: nat, quoted: bool) returns (length: int)
    requires s.Valid() && current < |message|
    modifies s`writeBufferLen, s.writeBuffer, s.low
    ensures s.low.incoming == old(s.low.incoming) && s.low.readCalls == old(s.low.readCalls)
    ensures var m := message[current..];
            var q := old(Outcome(s, DotPieces(m, quoted) + LinePieces(m)));
            && length == (if q.ok then LineLength(m) else -1) && LineLength(m) > 0
            && HasSent(s, old(s.Accepted()), q)
  {
    hide Send, DotPieces, LinePieces, LineLength;
    ghost var m, before := message[current..], s.Accepted();
    ghost var dot, line := DotPieces(m, quoted), LinePieces(m);
    SendAppend(s.low.writeAnswer, s.bufferMaxSize, s.low.writeCalls, s.writeBufferLen, dot, line);
    LineIsThere(m);
    ghost var first := Outcome(s, dot);
    var ok := SendDot(s, message, current, quoted);
    if !ok {
      return -1;
    }
    Regroup(before, first.bytes, Outcome(s, line).bytes);
    length := SendDataLine(s, message, current);
  }

  lemma LineIsThere(m: seq<byte>)
    requires m != []
    ensures LineLength(m) > 0
  {
  }

  /** send_data_crlf_progress: the whole message, with dots doubled if quoted is set; which bytes are
      accepted whatever the low stream answers. */
  method SendDataCrlf(s: Stream, message: seq<byte>, quoted: bool) returns (r: int)
    requires s.Valid()
    modifies s`writeBufferLen, s.writeBuffer, s.low
    ensures s.low.incoming == old(s.low.incoming) && s.low.readCalls == old(s.low.readCalls)
    ensures var q := old(Outcome(s, MessagePieces(message, quoted)));
            r == (if q.ok then 0 else -1) && HasSent(s, old(s.Accepted()), q)
    ensures Reliable(s.low.writeAnswer) ==> r == 0
    ensures r == 0 && SafeToSend(s, MessagePieces(message, quoted)) ==>
              s.Accepted() == old(s.Accepted()) + Fix(message, quoted, true)
  {
    hide Fix, Send, DotPieces, LinePieces, LineLength, SafeToSend;
    FlatMessage(message, quoted);
    SafeIsWhole(s, s.low.writeCalls, s.writeBufferLen, MessagePieces(message, quoted));
    ghost var before, total := s.Accepted(), Outcome(s, MessagePieces(message, quoted));
    ghost var done: seq<byte>, rest := [], message;
    assert before + [] == before && [] + total.bytes == total.bytes;
    var current := 0;
    while current < |message|
      invariant 0 <= current <= |message| && rest == message[current..] && s.Valid()
      invariant s.low.incoming == old(s.low.incoming) && s.low.readCalls == old(s.low.readCalls)
      invariant s.Accepted() == before + done
      invariant total == After(done, Outcome(s, MessagePieces(rest, quoted)))
      decreases |message| - current
    {
      ghost var turn := DotPieces(rest, quoted) + LinePieces(rest);
      ghost var more := MessagePieces(rest[LineLength(rest)..], quoted);
      LineIsThere(rest);
      SendAppend(s.low.writeAnswer, s.bufferMaxSize, s.low.writeCalls, s.writeBufferLen, turn, more);
      ghost var q := Outcome(s, turn);
      var length := SendTurn(s, message, current, quoted);
      Regroup(before, done, q.bytes);
      if length < 0 {
        return -1;
      }
      Regroup(done, q.bytes, Outcome(s, more).bytes);
      done := done + q.bytes;
      current := current + length;
      rest := rest[length..];
    }
    NothingSent(s, quoted, done);
    r := 0;
  }

  /** The outcome of what is left, after some bytes were accepted. */
  ghost function After(done: seq<byte>, q: Sent): Sent {
    Sent(q.ok, done + q.bytes, q.calls, q.buffered)
  }

  lemma NothingSent(s: Stream, quoted: bool, done: seq<byte>)
    ensures After(done, Outcome(s, MessagePieces([], quoted))) == Sent(true, done, s.low.writeCalls, s.writeBufferLen)
  {
    assert done + [] == done;
  }

  /** mailstream_send_data: success means that the low stream has taken everything that had been
      accepted before, and then what was accepted of the message and its end: all of it if no piece
      can be cut, by Sending.MessageArrivesExactlyIfFits. */
  method SendData(s: Stream, message: seq<byte>) returns (r: int)
    requires s.Valid()
    modifies s`writeBufferLen, s.writeBuffer, s.low
    ensures s.Valid() && s.low.incoming == old(s.low.incoming) && s.low.readCalls == old(s.low.readCalls)
    ensures r == 0 || r == -1
    ensures r == 0 <==> old(Succeeds(s.low.writeAnswer, s.bufferMaxSize, s.low.writeCalls, s.writeBufferLen,
                                     DataPieces(message)))
    ensures s.Accepted() == old(s.Accepted()) + old(Outcome(s, DataPieces(message))).bytes
    ensures r == 0 ==> s.low.taken == s.Accepted()
    ensures Reliable(s.low.writeAnswer) ==> r == 0
    ensures r == 0 && SafeToSend(s, DataPieces(message)) ==> s.low.taken == old(s.Accepted()) + Wire(message)
  {
    hide Fix, Send, MessagePieces, SafeToSend;
    FlatData(message);
    SafeIsWhole(s, s.low.writeCalls, s.writeBufferLen, DataPieces(message));
    ghost var before, first := s.Accepted(), Outcome(s, MessagePieces(message, true));
    SendAppend(s.low.writeAnswer, s.bufferMaxSize, s.low.writeCalls, s.writeBufferLen,
               MessagePieces(message, true), [END]);
    r := SendDataCrlf(s, message, true);
    if r == -1 {
      return;
    }
    Regroup(before, first.bytes, Outcome(s, [END]).bytes);
    var ok := WritePiece(s, END);
    if !ok {
      return -1;
    }
    r := s.Flush();
    assert r == 0 ==> s.Accepted() == s.low.taken;
  }

  /** A stream with an empty buffer of this size, on a low stream that cuts at call n. */
  method CuttingStream(size: nat, n: nat) returns (s: Stream)
    ensures s.Valid() && s.bufferMaxSize == size && s.Accepted() == [] && s.writeBufferLen == 0
    ensures fresh(s) && fresh(s.low) && fresh(s.writeBuffer)
    ensures s.low.writeAnswer == CutAt(n) && s.low.writeCalls == 0
  {
    var low := new Low(CutAt(n), (k, max) => 0, []);
    s := new Stream(low, size);
  }

  /** A message can be cut short although the sender reports all of it sent, as soon as one of its
      pieces can: mailstream_write tells how much it accepted, and the callers look only for an error. */
  method MessageCanBeCut(message: seq<byte>, size: nat) returns (s: Stream, r: int)
    requires !Fits(DataPieces(message), size)
    ensures s.Valid() && s.bufferMaxSize == size
    ensures r == 0 && |s.low.taken| < |Wire(message)|
  {
    hide Send, DataPieces, CutAt, Wire;
    FlatData(message);
    CutIsMissed(size, 0, 0, DataPieces(message));
    s := CuttingStream(size, CutCall(size, 0, 0, DataPieces(message)));
    r := SendData(s, message);
  }

  /** In the same way send_data_line reports the whole length of a line that was cut. */
  method LongLineCanBeCut(line: seq<byte>, size: nat) returns (s: Stream, r: int)
    requires line != [] && LineLength(line) == |line| && !Fits(LinePieces(line), size)
    ensures s.Valid() && s.bufferMaxSize == size
    ensures r == |line| && |s.Accepted()| < |LineOut(line)|
  {
    hide Send, LinePieces, CutAt;
    FlatLine(line);
    CutIsMissed(size, 0, 0, LinePieces(line));
    s := CuttingStream(size, CutCall(size, 0, 0, LinePieces(line)));
    assert line[0..] == line;
    r := SendDataLine(s, line, 0);
  }

  /** mailstream_get_data_crlf_size: the number of bytes sending without quoting writes. */
  method GetDataCrlfSize(message: seq<byte>) returns (size: nat)
    ensures size == |Norm(message)|
  {
    hide Fix, BodyLength, EolLength;
    var current := 0;
    size := 0;
    ghost var rest := message;
    while current < |message|
      invariant 0 <= current <= |message| && rest == message[current..]
      invariant size + |Norm(rest)| == |Norm(message)|
      decreases |message| - current
    {
      var count, fixEol := ScanLine(message, current);
      LinePiecesAre(message, current, count, fixEol);
      SizeOfLine(rest);
      size := size + count + (if fixEol then 1 else 0);
      current := current + count;
      rest := rest[count..];
    }
    NormOfNothing();
  }

  lemma SizeOfLine(m: seq<byte>)
    requires m != []
    ensures var n := LineLength(m);
            |Norm(m)| == n + (if EolLength(m, BodyLength(m)) == 1 then 1 else 0) + |Norm(m[n..])|
  {
    NormLine(m);
    NormOfNothing();
  }

  lemma NormOfNothing()
    ensures Norm([]) == []
  {
  }

  // Reading

  /** Reads may fail, but see the end of the stream only when it is there. */
  ghost predicate Unbroken(s: Stream) {
    s.low.Unbroken() && s.bufferMaxSize > 0
  }

  /** Reads do not fail either. */
  ghost predicate Steady(s: Stream) {
    s.low.Steady() && s.bufferMaxSize > 0
  }

  lemma SteadyIs(s: Stream)
    requires s.bufferMaxSize > 0
    ensures Steady(s) <==> forall k: nat, max: nat :: max > 0 ==> s.low.readAnswer(k, max) > 0
    ensures Unbroken(s) <==> forall k: nat, max: nat :: max > 0 ==> s.low.readAnswer(k, max) != 0
  {
  }

  ghost predicate NoLf(c: seq<byte>) {
    forall k :: 0 <= k < |c| ==> c[k] != LF
  }

  lemma {:induction false} LineEndSkips(c: seq<byte>, rest: seq<byte>)
    requires NoLf(c)
    ensures LineEnd(c + rest) == |c| + LineEnd(rest)
  {
    if c == [] {
      assert c + rest == rest;
    } else {
      LineEndSkips(c[1..], rest);
      assert (c + rest)[1..] == c[1..] + rest;
    }
  }

  lemma LineEndAtLf(c: seq<byte>, rest: seq<byte>)
    requires NoLf(c)
    ensures LineEnd(c + ([LF] + rest)) == |c| + 1
  {
    LineEndSkips(c, [LF] + rest);
  }

  /** mailstream_read_len_append: the next i bytes, all of which are in the read buffer; the low
      stream is not asked. */
  method ReadLenAppend(s: Stream, line: seq<byte>, i: nat) returns (result: seq<byte>)
    requires s.Valid() && i <= s.readBufferLen
    modifies s`readBufferLen, s.readBuffer, s.low
    ensures s.Valid() && s.low.readCalls == old(s.low.readCalls) && s.low.incoming == old(s.low.incoming)
    ensures s.readBufferLen == old(s.readBufferLen) - i
    ensures result == line + old(s.readBuffer[..i]) && s.Pending() == old(s.Pending())[i..]
    ensures s.low.taken == old(s.low.taken) && s.low.writeCalls == old(s.low.writeCalls)
  {
    var buf := new byte[i];
    ghost var pending := s.Pending();
    assert pending[..i] == s.readBuffer[..i];
    var r := s.Read(buf, 0, i);
    assert buf[..] == buf[0..i];
    result := line + buf[..];
  }

  /** What mailstream_read_line_append takes out of a read buffer that is not empty: the bytes through
      the first LF, or all of them. */
  method AppendBuffered(s: Stream, line: seq<byte>) returns (found: bool, result: seq<byte>)
    requires s.Valid() && s.readBufferLen > 0
    modifies s`readBufferLen, s.readBuffer, s.low
    ensures s.Valid() && s.low.taken == old(s.low.taken) && s.low.writeCalls == old(s.low.writeCalls)
    ensures s.low.readCalls == old(s.low.readCalls) && s.low.incoming == old(s.low.incoming)
    ensures var pending := old(s.Pending());
            var n := if found then LineEnd(pending) else old(s.readBufferLen);
            && n <= |pending| && result == line + pending[..n] && s.Pending() == pending[n..]
            && (!found ==> NoLf(pending[..n]) && s.readBufferLen == 0)
  {
    hide LineEnd;
    ghost var pending := s.Pending();
    var i := 0;
    while i < s.readBufferLen && s.readBuffer[i] != LF
      invariant i <= s.readBufferLen && NoLf(s.readBuffer[..i])
    {
      i := i + 1;
    }
    found := i < s.readBufferLen;
    var n := if found then i + 1 else i;
    if found {
      FirstLf(pending, s.readBuffer[..i], i);
    }
    assert pending[..n] == s.readBuffer[..n];
    result := ReadLenAppend(s, line, n);
  }

  lemma FirstLf(pending: seq<byte>, c: seq<byte>, i: nat)
    requires i < |pending| && c == pending[..i] && NoLf(c) && pending[i] == LF
    ensures LineEnd(pending) == i + 1
  {
    assert pending == c + ([LF] + pending[i + 1..]);
    LineEndAtLf(c, pending[i + 1..]);
  }

  /** mailstream_read_line_append: line followed by the bytes through the next LF, or through the
      end of the stream; false on a read error. */
  method ReadLineAppend(s: Stream, line: seq<byte>) returns (ok: bool, result: seq<byte>)
    requires s.Valid()
    modifies s`readBufferLen, s.readBuffer, s.low
    ensures s.Valid() && s.low.taken == old(s.low.taken) && s.low.writeCalls == old(s.low.writeCalls)
    ensures result + s.Pending() == line + old(s.Pending())
    ensures Steady(s) ==> ok
    ensures Unbroken(s) && ok ==>
              var n := LineEnd(old(s.Pending()));
              result == line + old(s.Pending())[..n] && s.Pending() == old(s.Pending())[n..]
  {
    hide LineEnd;
    ghost var pending := s.Pending();
    ghost var c := [];
    result := line;
    ok := true;
    TookChunk(line, [], [], pending);
    while true
      invariant s.Valid() && s.low.taken == old(s.low.taken) && s.low.writeCalls == old(s.low.writeCalls)
      invariant NoLf(c) && result == line + c && pending == c + s.Pending()
      decreases 2 * |s.low.incoming| + s.readBufferLen
    {
      ghost var more := s.Pending();
      if s.readBufferLen > 0 {
        ghost var n := s.readBufferLen;
        var found;
        found, result := AppendBuffered(s, result);
        if found {
          FoundLine(line, c, more);
          return;
        }
        TookChunk(line, c, more[..n], more);
        c := c + more[..n];
      } else {
        var r := s.FeedReadBuffer();
        if r <= 0 {
          EndOfStream(line, c, more, pending);
          ok := r == 0;
          return;
        }
      }
    }
  }

  lemma FoundLine(line: seq<byte>, c: seq<byte>, more: seq<byte>)
    requires NoLf(c)
    ensures var pending, n, k := c + more, LineEnd(c + more), LineEnd(more);
            && (line + c) + more[..k] == line + pending[..n] && more[k..] == pending[n..]
            && ((line + c) + more[..k]) + more[k..] == line + pending
  {
    hide LineEnd;
    LineEndSkips(c, more);
    CutAfter(line, c, more, LineEnd(more));
  }

  lemma CutAfter(line: seq<byte>, c: seq<byte>, more: seq<byte>, k: nat)
    requires k <= |more|
    ensures (line + c) + more[..k] == line + (c + more)[..|c| + k] && more[k..] == (c + more)[|c| + k..]
    ensures ((line + c) + more[..k]) + more[k..] == line + (c + more)
  {
    Regroup(line, c, more[..k]);
    assert c + more[..k] == (c + more)[..|c| + k];
    Regroup(line + c, more[..k], more[k..]);
    assert more[..k] + more[k..] == more;
    Regroup(line, c, more);
  }

  lemma TookChunk(line: seq<byte>, c: seq<byte>, chunk: seq<byte>, more: seq<byte>)
    requires chunk <= more
    ensures c + more == (c + chunk) + more[|chunk|..] && (line + c) + chunk == line + (c + chunk)
  {
  }

  lemma EndOfStream(line: seq<byte>, c: seq<byte>, rest: seq<byte>, pending: seq<byte>)
    requires NoLf(c) && pending == c + rest
    ensures (line + c) + rest == line + pending
    ensures rest == [] ==>
              LineEnd(pending) == |pending| == |c| && pending[..|pending|] == c && pending[|pending|..] == []
  {
    Regroup(line, c, rest);
    LineEndSkips(c, rest);
  }

  /** mailstream_read_line_remove_eol */
  method ReadLineRemoveEol(s: Stream) returns (ok: bool, line: seq<byte>)
    requires s.Valid()
    modifies s`readBufferLen, s.readBuffer, s.low
    ensures s.Valid() && s.low.taken == old(s.low.taken) && s.low.writeCalls == old(s.low.writeCalls)
    ensures Steady(s) ==> ok
    ensures Unbroken(s) && ok ==>
              && line == RemoveEol(old(s.Pending())[..LineEnd(old(s.Pending()))])
              && s.Pending() == old(s.Pending())[LineEnd(old(s.Pending()))..]
  {
    ok, line := ReadLineAppend(s, []);
    ghost var pending := old(s.Pending());
    assert Unbroken(s) && ok ==> line == pending[..LineEnd(pending)];
    line := RemoveTrailingEol(line);
  }

  /** remove_trailing_eol */
  method RemoveTrailingEol(line: seq<byte>) returns (r: seq<byte>)
    ensures r == RemoveEol(line)
  {
    r := line;
    if |r| >= 1 && r[|r| - 1] == 10 {
      r := r[..|r| - 1];
    }
    if |r| >= 1 && r[|r| - 1] == 13 {
      r := r[..|r| - 1];
    }
  }

  /** mailstream_is_end_multiline, on a line that is read up to its first NUL. */
  method IsEndMultiline(line: seq<byte>) returns (r: bool)
    ensures r == IsEnd(line)
  {
    EndIsDot(line);
    if line == [] || line[0] != 46 {
      return false;
    }
    if |line| > 1 && line[1] != 0 {
      return false;
    }
    r := true;
  }

  lemma EndIsDot(line: seq<byte>)
    ensures IsEnd(line) <==> line != [] && line[0] == 46 && (|line| == 1 || line[1] == 0)
  {
    if line != [] && line[0] != NUL {
      assert CStr(line) == [line[0]] + CStr(line[1..]);
      if |line| > 1 && line[1] != NUL {
        assert CStr(line[1..]) == [line[1]] + CStr(line[1..][1..]);
        assert |CStr(line)| >= 2;
      } else {
        assert CStr(line[1..]) == [];
        assert CStr(line) == [line[0]];
      }
    }
  }

  /** The part of a line that the C string functions see. */
  method CString(line: seq<byte>) returns (c: seq<byte>)
    ensures c == CStr(line)
  {
    var n := 0;
    while n < |line| && line[n] != 0
      invariant n <= |line| && CStr(line) == line[..n] + CStr(line[n..])
    {
      OneByteMore(line, n);
      n := n + 1;
    }
    c := line[..n];
    assert c + [] == c;
  }

  lemma OneByteMore(line: seq<byte>, n: nat)
    requires n < |line| && line[n] != NUL
    ensures line[..n] + CStr(line[n..]) == line[..n + 1] + CStr(line[n + 1..])
  {
    assert line[n..][1..] == line[n + 1..];
    Regroup(line[..n], [line[n]], CStr(line[n + 1..]));
    assert line[..n + 1] == line[..n] + [line[n]];
  }

  /** One turn of the loop of mailstream_read_multiline. */
  method ReadMultilineTurn(s: Stream, body: seq<byte>) returns (ok: bool, ended: bool, result: seq<byte>)
    requires s.Valid() && Unbroken(s)
    modifies s`readBufferLen, s.readBuffer, s.low
    ensures s.Valid() && s.low.taken == old(s.low.taken) && s.low.writeCalls == old(s.low.writeCalls)
    ensures Steady(s) ==> ok
    ensures ok ==>
              var n := LineEnd(old(s.Pending()));
              var line := RemoveEol(old(s.Pending())[..n]);
              && s.Pending() == old(s.Pending())[n..] && ended == IsEnd(line)
              && result == if ended then body else (body + Unstuff(line)) + CRLF
  {
    hide LineEnd, CStr;
    result, ended := body, false;
    var line;
    ok, line := ReadLineRemoveEol(s);
    if !ok {
      return;
    }
    ended := IsEndMultiline(line);
    if ended {
      return;
    }
    var c := CString(line);
    if c != [] && c[0] == 46 {
      result := result + c[1..];
    } else {
      result := result + c;
    }
    result := result + CRLF;
  }

  /** mailstream_read_multiline: the text up to the line that ends it; the bytes after that line stay
      pending.  It fails only when a read does.  Multiline.EndsExactlyOnText says that the loop ends on
      no other pending bytes. */
  method ReadMultiline(s: Stream) returns (ok: bool, body: seq<byte>)
    requires s.Valid() && Unbroken(s) && ReadText(s.Pending()).Text?
    modifies s`readBufferLen, s.readBuffer, s.low
    ensures s.Valid() && s.low.taken == old(s.low.taken) && s.low.writeCalls == old(s.low.writeCalls)
    ensures Steady(s) ==> ok
    ensures ok ==> ReadText(old(s.Pending())) == Text(body, s.Pending())
  {
    hide ReadText, LineEnd, IsEnd, Unstuff;
    body := [];
    ghost var goal := ReadText(s.Pending());
    ghost var todo := goal;
    assert [] + todo.body == todo.body;
    var ended := false;
    while !ended
      invariant s.Valid() && s.low.taken == old(s.low.taken) && s.low.writeCalls == old(s.low.writeCalls)
      invariant if ended then goal == Text(body, s.Pending())
                else todo == ReadText(s.Pending()) && todo.Text? && goal == Text(body + todo.body, todo.rest)
      decreases |s.Pending()|, if ended then 0 else 1
    {
      ghost var pending, before := s.Pending(), body;
      ReadTextStep(pending);
      ok, ended, body := ReadMultilineTurn(s, body);
      if !ok {
        return;
      }
      if ended {
        assert body + [] == body;
      } else {
        ghost var line := RemoveEol(pending[..LineEnd(pending)]);
        todo := ReadText(s.Pending());
        Regroup(before, Unstuff(line), CRLF + todo.body);
        Regroup(before + Unstuff(line), CRLF, todo.body);
      }
    }
    ok := true;
  }

  datatype Loop = Failed | Done | Goes

  /** Any number of turns of the same loop, whatever is pending: where it is after them. */
  method ReadMultilineFor(s: Stream, turns: nat) returns (state: Loop, body: seq<byte>)
    requires s.Valid() && Unbroken(s)
    modifies s`readBufferLen, s.readBuffer, s.low
    ensures s.Valid() && s.low.taken == old(s.low.taken) && s.low.writeCalls == old(s.low.writeCalls)
    ensures Steady(s) ==> state != Failed
    ensures state == Done ==> Turns(old(s.Pending()), turns) == Ended(body, s.Pending())
    ensures state == Goes ==> Turns(old(s.Pending()), turns) == Going(body, s.Pending())
    ensures Steady(s) && ReadText(old(s.Pending())).Incomplete? ==> state == Goes && |body| >= 2 * turns
    ensures Steady(s) && ReadText(old(s.Pending())).Text? && turns >= |old(s.Pending())| ==> state == Done
  {
    hide Turns, LineEnd, IsEnd, Unstuff, ReadText;
    WhereTurnsLead(s.Pending(), turns);
    body := [];
    ghost var goal := Turns(s.Pending(), turns);
    AfterNothing(goal);
    for i := 0 to turns
      invariant s.Valid() && s.low.taken == old(s.low.taken) && s.low.writeCalls == old(s.low.writeCalls)
      invariant goal == Prepend(body, Turns(s.Pending(), turns - i))
    {
      ghost var pending, before := s.Pending(), body;
      TurnsStep(pending, turns - i, before);
      var ok, ended;
      ok, ended, body := ReadMultilineTurn(s, body);
      if !ok {
        return Failed, body;
      }
      if ended {
        return Done, body;
      }
    }
    NoTurns(s.Pending(), body);
    state := Goes;
  }

  lemma WhereTurnsLead(s: seq<byte>, n: nat)
    ensures ReadText(s).Incomplete? ==> Turns(s, n).Going? && |Turns(s, n).body| >= 2 * n
    ensures ReadText(s).Text? && n >= |s| ==> Turns(s, n).Ended?
  {
    if ReadText(s).Incomplete? {
      IncompleteGoesOn(s, n);
    } else if n >= |s| {
      TextIsRead(s, n);
    }
  }

  ghost function Prepend(before: seq<byte>, p: Progress): Progress {
    match p
    case Ended(body, rest) => Ended(before + body, rest)
    case Going(body, rest) => Going(before + body, rest)
  }

  lemma AfterNothing(p: Progress)
    ensures Prepend([], p) == p
  {
    assert [] + p.body == p.body;
  }

  lemma NoTurns(s: seq<byte>, before: seq<byte>)
    ensures Prepend(before, Turns(s, 0)) == Going(before, s)
  {
    assert before + [] == before;
  }

  lemma TurnsStep(s: seq<byte>, n: nat, before: seq<byte>)
    requires n > 0
    ensures var line, rest := RemoveEol(s[..LineEnd(s)]), s[LineEnd(s)..];
            Prepend(before, Turns(s, n)) ==
            if IsEnd(line) then Ended(before, rest) else Prepend((before + Unstuff(line)) + CRLF, Turns(rest, n - 1))
  {
    hide LineEnd, IsEnd, Unstuff, RemoveEol;
    var line, rest := RemoveEol(s[..LineEnd(s)]), s[LineEnd(s)..];
    if IsEnd(line) {
      assert before + [] == before;
    } else {
      var body := Turns(rest, n - 1).body;
      Regroup(before, Unstuff(line), CRLF + body);
      Regroup(before + Unstuff(line), CRLF, body);
    }
  }

  lemma ReadTextStep(s: seq<byte>)
    requires ReadText(s).Text?
    ensures 0 < LineEnd(s) <= |s|
    ensures var line, rest := RemoveEol(s[..LineEnd(s)]), s[LineEnd(s)..];
            && (IsEnd(line) ==> ReadText(s) == Text([], rest))
            && (!IsEnd(line) ==> ReadText(rest).Text?)
            && (!IsEnd(line) ==> ReadText(s) == Text(Unstuff(line) + (CRLF + ReadText(rest).body), ReadText(rest).rest))
  {
  }

  /** A message sent through one reliable stream and received through another one that may cut it as
      it likes: NUL-free messages arrive whole, and nothing that follows is touched. */
  method SendAndReceive(sender: Stream, receiver: Stream, message: seq<byte>, following: seq<byte>)
    returns (body: seq<byte>)
    requires sender.Valid() && Reliable(sender.low.writeAnswer) && sender.Accepted() == []
    requires receiver.Valid() && Steady(receiver) && receiver.Pending() == []
    requires sender.low != receiver.low && sender != receiver && sender.writeBuffer != receiver.readBuffer
    requires sender.writeBuffer != receiver.writeBuffer
    modifies sender, sender.writeBuffer, sender.low, receiver, receiver.readBuffer, receiver.low
    ensures body == Received(message) && receiver.Valid() && receiver.Pending() == following
    ensures NUL !in message <==> body == Norm(message) + CRLF
  {
    hide ReadText, Received, Norm, Wire, DataPieces, Send, Succeeds;
    var r := SendData(sender, message);
    receiver.low.incoming := sender.low.taken + following;
    assert receiver.Pending() == Wire(message) + following;
    WireReadsBack(message, following);
    ReceivedIffNulFree(message);
    var ok;
    ok, body := ReadMultiline(receiver);
  }
}
