/** The buffered stream of src/data-types/mailstream.c on top of a low stream that may take or
  deliver as few bytes as it likes, or fail.
 */
module MailStream {
  import opened Sequences
  import opened Bits

  const MAX_ZERO_WRITES := 16

  datatype Pumped = Pumped(done: nat, calls: nat)

  /** What a low stream answers, by the number of the call and the size asked for. */
  type Answer = (nat, nat) -> int

  /** Call k with this size takes a legal number of bytes. */
  ghost predicate Takes(answer: Answer, k: nat, count: nat) {
    0 <= answer(k, count) <= count
  }

  ghost predicate TakesSome(answer: Answer, k: nat, count: nat) {
    answer(k, count) != 0
  }

  /** No write fails, and of any 16 consecutive writes of the same size one takes something. */
  ghost predicate Reliable(answer: Answer) {
    && (forall k: nat, count: nat :: count > 0 ==> Takes(answer, k, count))
    && (forall k: nat, count: nat :: count > 0 ==> SomeTakes(answer, k, count, MAX_ZERO_WRITES))
  }

  ghost predicate OneOfSixteen(answer: Answer, k: nat, count: nat) {
    exists j: nat :: k <= j < k + 16 && answer(j, count) != 0
  }

  /** A low stream is reliable whenever no write fails or takes too much, and not sixteen take nothing. */
  lemma ReliableIs(answer: Answer)
    requires forall k: nat, n: nat :: n > 0 ==> 0 <= answer(k, n) <= n
    requires forall k: nat, n: nat :: n > 0 ==> OneOfSixteen(answer, k, n)
    ensures Reliable(answer)
  {
    forall k: nat, n: nat | n > 0
      ensures SomeTakes(answer, k, n, MAX_ZERO_WRITES)
    {
      assert OneOfSixteen(answer, k, n);
      var j: nat :| k <= j < k + 16 && answer(j, n) != 0;
      assert TakesSome(answer, j, n);
    }
  }

  ghost predicate SomeTakes(answer: Answer, k: nat, count: nat, tries: nat) {
    exists j: nat :: k <= j < k + tries && TakesSome(answer, j, count)
  }

  ghost predicate NoneTakes(answer: Answer, from: nat, to: nat, count: nat) {
    forall j: nat :: from <= j < to ==> !TakesSome(answer, j, count)
  }

  /** What a sequence of writes of left bytes gets done, from call k on and after zeros writes that
      took nothing: it goes on until all is taken, a write fails or takes more than it was
      given, or 16 writes in a row take nothing. */
  ghost function Pump(answer: Answer, k: nat, zeros: nat, left: nat): (p: Pumped)
    requires zeros < MAX_ZERO_WRITES
    ensures p.done <= left
    decreases left, MAX_ZERO_WRITES - zeros
  {
    if left == 0 then Pumped(0, k)
    else
      var w := answer(k, left);
      if w < 0 || w > left then Pumped(0, k + 1)
      else if w == 0 then
        if zeros + 1 >= MAX_ZERO_WRITES then Pumped(0, k + 1) else Pump(answer, k + 1, zeros + 1, left)
      else
        var p := Pump(answer, k + 1, 0, left - w);
        Pumped(w + p.done, p.calls)
  }

  lemma PumpSteps(answer: Answer, k: nat, zeros: nat, left: nat)
    requires zeros < MAX_ZERO_WRITES
    ensures left == 0 ==> Pump(answer, k, zeros, left) == Pumped(0, k)
    ensures left > 0 ==>
              var w, p := answer(k, left), Pump(answer, k, zeros, left);
              && (w < 0 || w > left ==> p == Pumped(0, k + 1))
              && (w == 0 && zeros + 1 >= MAX_ZERO_WRITES ==> p == Pumped(0, k + 1))
              && (w == 0 && zeros + 1 < MAX_ZERO_WRITES ==> p == Pump(answer, k + 1, zeros + 1, left))
              && (0 < w <= left ==> var q := Pump(answer, k + 1, 0, left - w); p == Pumped(w + q.done, q.calls))
  {
  }

  /** On a reliable stream every write gets done, however small the pieces. */
  lemma {:induction false} ReliablePump(answer: Answer, k: nat, zeros: nat, left: nat)
    requires Reliable(answer) && zeros <= k && zeros < MAX_ZERO_WRITES && NoneTakes(answer, k - zeros, k, left)
    ensures Pump(answer, k, zeros, left).done == left
    decreases left, MAX_ZERO_WRITES - zeros
  {
    if left > 0 {
      var w := answer(k, left);
      assert Takes(answer, k, left);
      if w == 0 {
        assert !TakesSome(answer, k, left);
        assert SomeTakes(answer, k - zeros, left, MAX_ZERO_WRITES);
        ReliablePump(answer, k + 1, zeros + 1, left);
      } else {
        ReliablePump(answer, k + 1, 0, left - w);
      }
    }
  }

  /** Takes nothing at the first n calls, and everything after. */
  function ZerosFirst(n: nat): Answer {
    (j, count) => if j < n then 0 else count
  }

  lemma {:induction false} ZerosPass(n: nat, k: nat, count: nat)
    requires k <= n && k < 16 && count > 0
    ensures k < MAX_ZERO_WRITES && Pump(ZerosFirst(n), 0, 0, count) == Pump(ZerosFirst(n), k, k, count)
  {
    if k > 0 {
      ZerosPass(n, k - 1, count);
      PumpSteps(ZerosFirst(n), k - 1, k - 1, count);
    }
  }

  /** Fifteen writes in a row may take nothing, and the sixteenth ends the attempt. */
  lemma SixteenthZeroEnds(count: nat)
    requires count > 0
    ensures Pump(ZerosFirst(15), 0, 0, count) == Pumped(count, 16)
    ensures Pump(ZerosFirst(16), 0, 0, count) == Pumped(0, 16)
  {
    hide Pump;
    ZerosPass(15, 15, count);
    ZerosPass(16, 15, count);
    PumpSteps(ZerosFirst(15), 15, 15, count);
    PumpSteps(ZerosFirst(15), 16, 0, 0);
    PumpSteps(ZerosFirst(16), 15, 15, count);
  }

  /** What mailstream_write returns, the number of calls made by then, and the bytes buffered. */
  datatype Written = Written(result: int, calls: nat, buffered: nat)

  /** mailstream_write, from the answers of the low stream alone. */
  ghost function Wrote(answer: Answer, max: nat, k: nat, buffered: nat, count: nat): (w: Written)
    ensures -1 <= w.result <= count
  {
    if count + buffered <= max then Written(count, k, buffered + count)
    else
      var p := Pump(answer, k, 0, buffered);
      if p.done < buffered then Written(-1, p.calls, buffered - p.done)
      else if count <= max then Written(count, p.calls, count)
      else
        var q := Pump(answer, p.calls, 0, count);
        Written(if q.done == 0 then -1 else q.done, q.calls, 0)
  }

  /** A low stream.  What each of its calls answers is fixed by two arbitrary functions of the call
      number and the size asked for. */
  class Low {
    const writeAnswer: Answer
    const readAnswer: Answer
    var writeCalls: nat
    var readCalls: nat
    // bytes still to be delivered, and bytes taken
    var incoming: seq<byte>
    var taken: seq<byte>

    constructor (writeAnswer: Answer, readAnswer: Answer, incoming: seq<byte>)
      ensures this.writeAnswer == writeAnswer && this.readAnswer == readAnswer
      ensures this.incoming == incoming && taken == [] && writeCalls == 0
    {
      this.writeAnswer, this.readAnswer, this.incoming := writeAnswer, readAnswer, incoming;
      writeCalls, readCalls, taken := 0, 0, [];
    }

    /** No read reports the end of the stream before it is reached. */
    ghost predicate Unbroken() {
      forall k: nat, max: nat :: max > 0 ==> readAnswer(k, max) != 0
    }

    /** And none fails. */
    ghost predicate Steady() {
      forall k: nat, max: nat :: max > 0 ==> readAnswer(k, max) > 0
    }

    /** mailstream_low_write */
    method Write(buf: seq<byte>) returns (written: int)
      modifies this
      ensures written == writeAnswer(old(writeCalls), |buf|) && writeCalls == old(writeCalls) + 1
      ensures taken == old(taken) + (if 0 <= written <= |buf| then buf[..written] else [])
      ensures incoming == old(incoming) && readCalls == old(readCalls)
    {
      written := writeAnswer(writeCalls, |buf|);
      writeCalls := writeCalls + 1;
      if 0 <= written <= |buf| {
        taken := taken + buf[..written];
      }
    }

    /** mailstream_low_read: -1, 0 at the end of the stream, or the size of a chunk. */
    method Read(buf: array<byte>, off: nat, max: nat) returns (r: int)
      requires off + max <= buf.Length
      modifies this, buf
      ensures -1 <= r <= max && r <= |old(incoming)|
      ensures r < 0 ==> incoming == old(incoming) && buf[..] == old(buf[..])
      ensures r >= 0 ==> incoming == old(incoming)[r..]
                         && buf[..] == old(buf[..off]) + old(incoming)[..r] + old(buf[off + r..])
                         && buf[off..off + r] == old(incoming)[..r]
      ensures Unbroken() && max > 0 && old(incoming) != [] ==> r != 0
      ensures Steady() && max > 0 ==> r >= 0
      ensures taken == old(taken) && writeCalls == old(writeCalls) && readCalls == old(readCalls) + 1
    {
      r := readAnswer(readCalls, max);
      readCalls := readCalls + 1;
      if r < 0 {
        return -1;
      }
      if r > max {
        r := max;
      }
      if r > |incoming| {
        r := |incoming|;
      }
      forall k | 0 <= k < r {
        buf[off + k] := incoming[k];
      }
      incoming := incoming[r..];
    }
  }

  /** The bytes lie in buf from position off on. */
  ghost predicate Lies(buf: seq<byte>, off: nat, bytes: seq<byte>) {
    off + |bytes| <= |buf| && buf[off..off + |bytes|] == bytes
  }

  /** A first part that a later read left alone, followed by what that read put behind it. */
  lemma LiesTogether(was: seq<byte>, now: seq<byte>, off: nat, pending: seq<byte>, n: nat, more: nat)
    requires n + more <= |pending| && off + n <= |was| == |now| && now[..off + n] == was[..off + n]
    requires Lies(was, off, pending[..n]) && Lies(now, off + n, pending[n..][..more])
    ensures Lies(now, off, pending[..n + more]) && pending[n..][more..] == pending[n + more..]
    ensures now[..off] == was[..off]
  {
    assert now[off..off + n] == was[off..off + n] by {
      assert now[..off + n][off..] == was[..off + n][off..];
    }
    assert now[off..off + n + more] == now[off..off + n] + now[off + n..off + n + more];
    assert pending[..n + more] == pending[..n] + pending[n..][..more];
    assert now[..off + n][..off] == was[..off + n][..off];
  }

  lemma TookMore(taken: seq<byte>, all: seq<byte>, done: nat, written: nat)
    requires done + written <= |all|
    ensures (taken + all[..done]) + all[done..][..written] == taken + all[..done + written]
  {
  }

  lemma SplitBuffered(buffered: seq<byte>, incoming: seq<byte>, n: nat)
    requires n <= |buffered|
    ensures (buffered + incoming)[..n] == buffered[..n] && (buffered + incoming)[n..] == buffered[n..] + incoming
    ensures n == |buffered| ==> buffered[..n] == buffered && (buffered + incoming)[n..] == incoming
  {
  }

  lemma Chunk(incoming: seq<byte>, got: nat)
    requires got <= |incoming|
    ensures incoming[..got] + incoming[got..] == incoming
  {
  }

  class Stream {
    const low: Low
    const bufferMaxSize: nat
    const readBuffer: array<byte>
    var readBufferLen: nat
    const writeBuffer: array<byte>
    var writeBufferLen: nat

    ghost predicate Valid()
      reads this
    {
      && bufferMaxSize == readBuffer.Length == writeBuffer.Length
      && readBufferLen <= bufferMaxSize && writeBufferLen <= bufferMaxSize
      && readBuffer != writeBuffer
    }

    /** mailstream_new */
    constructor (low: Low, bufferSize: nat)
      ensures Valid() && this.low == low && bufferMaxSize == bufferSize
      ensures readBufferLen == writeBufferLen == 0 && fresh(readBuffer) && fresh(writeBuffer)
    {
      this.low, bufferMaxSize := low, bufferSize;
      readBuffer, readBufferLen := new byte[bufferSize], 0;
      writeBuffer, writeBufferLen := new byte[bufferSize], 0;
    }

    /** Every byte accepted from the caller: those the low stream took, then those buffered. */
    ghost function Accepted(): seq<byte>
      requires Valid()
      reads this, low, writeBuffer
    {
      low.taken + writeBuffer[..writeBufferLen]
    }

    /** Every byte the caller has yet to get: those buffered, then those still to arrive. */
    ghost function Pending(): seq<byte>
      requires Valid()
      reads this, low, readBuffer
    {
      readBuffer[..readBufferLen] + low.incoming
    }

    /** write_direct: bypasses the buffer; -1 if nothing was taken. */
    method WriteDirect(buf: seq<byte>) returns (r: int)
      requires buf != []
      modifies low
      ensures var p := Pump(low.writeAnswer, old(low.writeCalls), 0, |buf|);
              && r == (if p.done == 0 then -1 else p.done)
              && low.taken == old(low.taken) + buf[..p.done] && low.writeCalls == p.calls
      ensures low.incoming == old(low.incoming) && low.readCalls == old(low.readCalls)
    {
      hide Pump;
      var done, zeroWrites: nat := 0, 0;
      ghost var p := Pump(low.writeAnswer, low.writeCalls, 0, |buf|);
      while done < |buf|
        invariant 0 <= done <= |buf| && zeroWrites < MAX_ZERO_WRITES
        invariant low.taken == old(low.taken) + buf[..done]
        invariant low.incoming == old(low.incoming) && low.readCalls == old(low.readCalls)
        invariant var q := Pump(low.writeAnswer, low.writeCalls, zeroWrites, |buf| - done);
                  p.done == done + q.done && p.calls == q.calls
        decreases |buf| - done, MAX_ZERO_WRITES - zeroWrites
      {
        PumpSteps(low.writeAnswer, low.writeCalls, zeroWrites, |buf| - done);
        var written := low.Write(buf[done..]);
        if written < 0 {
          return if done == 0 then -1 else done;
        }
        if written == 0 {
          zeroWrites := zeroWrites + 1;
          if zeroWrites >= MAX_ZERO_WRITES {
            return if done == 0 then -1 else done;
          }
        } else if written > |buf| - done {
          return if done == 0 then -1 else done;
        } else {
          TookMore(old(low.taken), buf, done, written);
          done := done + written;
          zeroWrites := 0;
        }
      }
      PumpSteps(low.writeAnswer, low.writeCalls, zeroWrites, 0);
      r := |buf|;
    }

    /** mailstream_flush: 0, or -1 with the bytes not taken moved to the front of the buffer. */
    method Flush() returns (r: int)
      requires Valid()
      modifies this`writeBufferLen, writeBuffer, low
      ensures Valid() && Accepted() == old(Accepted())
      ensures var p := Pump(low.writeAnswer, old(low.writeCalls), 0, old(writeBufferLen));
              && writeBufferLen == old(writeBufferLen) - p.done && low.writeCalls == p.calls
              && r == (if writeBufferLen == 0 then 0 else -1)
      ensures Reliable(low.writeAnswer) ==> r == 0
      ensures low.incoming == old(low.incoming) && low.readCalls == old(low.readCalls)
    {
      ghost var all := writeBuffer[..writeBufferLen];
      if Reliable(low.writeAnswer) {
        ReliablePump(low.writeAnswer, low.writeCalls, 0, |all|);
      }
      var done := WriteOut();
      if done < writeBufferLen {
        MoveBuffer(done, all);
        return -1;
      }
      assert all[..done] == all;
      writeBufferLen := 0;
      r := 0;
    }

    /** The loop of mailstream_flush: how many bytes of the buffer the low stream takes. */
    method WriteOut() returns (done: nat)
      requires Valid()
      modifies low
      ensures var p := Pump(low.writeAnswer, old(low.writeCalls), 0, writeBufferLen);
              done == p.done && low.writeCalls == p.calls
      ensures done <= writeBufferLen && low.taken == old(low.taken) + writeBuffer[..done]
      ensures low.incoming == old(low.incoming) && low.readCalls == old(low.readCalls)
    {
      hide Pump;
      var zeroWrites: nat := 0;
      done := 0;
      ghost var all := writeBuffer[..writeBufferLen];
      ghost var p := Pump(low.writeAnswer, low.writeCalls, 0, |all|);
      while done < writeBufferLen
        invariant 0 <= done <= writeBufferLen && zeroWrites < MAX_ZERO_WRITES
        invariant low.taken == old(low.taken) + all[..done]
        invariant low.incoming == old(low.incoming) && low.readCalls == old(low.readCalls)
        invariant var q := Pump(low.writeAnswer, low.writeCalls, zeroWrites, |all| - done);
                  p.done == done + q.done && p.calls == q.calls
        decreases writeBufferLen - done, MAX_ZERO_WRITES - zeroWrites
      {
        assert writeBuffer[done..writeBufferLen] == all[done..];
        PumpSteps(low.writeAnswer, low.writeCalls, zeroWrites, writeBufferLen - done);
        var written := low.Write(writeBuffer[done..writeBufferLen]);
        if written < 0 {
          break;
        }
        if written == 0 {
          zeroWrites := zeroWrites + 1;
          if zeroWrites >= MAX_ZERO_WRITES {
            break;
          }
        } else if written > writeBufferLen - done {
          break;
        } else {
          TookMore(old(low.taken), all, done, written);
          done := done + written;
          zeroWrites := 0;
        }
      }
      if done == writeBufferLen {
        PumpSteps(low.writeAnswer, low.writeCalls, zeroWrites, 0);
      }
      assert writeBuffer[..done] == all[..done];
    }

    /** move_buffer in mailstream_flush: drops the bytes the low stream took. */
    method MoveBuffer(done: nat, ghost all: seq<byte>)
      requires Valid() && done < writeBufferLen && all == writeBuffer[..writeBufferLen]
      modifies this`writeBufferLen, writeBuffer
      ensures Valid() && writeBufferLen == |all| - done
      ensures forall before: seq<byte> :: (before + all[..done]) + writeBuffer[..writeBufferLen] == before + all
    {
      writeBufferLen := writeBufferLen - done;
      forall k | 0 <= k < writeBufferLen {
        writeBuffer[k] := writeBuffer[done + k];
      }
      assert writeBuffer[..writeBufferLen] == all[done..];
      forall before: seq<byte> ensures (before + all[..done]) + all[done..] == before + all {
        Regroup(before, all[..done], all[done..]);
        assert all == all[..done] + all[done..];
      }
    }

    /** write_to_internal_buffer */
    method WriteToInternalBuffer(buf: seq<byte>) returns (r: int)
      requires Valid() && writeBufferLen + |buf| <= bufferMaxSize
      modifies this`writeBufferLen, writeBuffer
      ensures Valid() && r == |buf| && Accepted() == old(Accepted()) + buf
      ensures writeBufferLen == old(writeBufferLen) + |buf|
    {
      ghost var before := writeBuffer[..writeBufferLen];
      forall k | 0 <= k < |buf| {
        writeBuffer[writeBufferLen + k] := buf[k];
      }
      writeBufferLen := writeBufferLen + |buf|;
      assert writeBuffer[..writeBufferLen] == before + buf;
      r := |buf|;
    }

    /** mailstream_write: the number of bytes accepted, or -1.  It accepts fewer bytes than asked
        only when they exceed the buffer and the low stream fails halfway. */
    method Write(buf: seq<byte>) returns (r: int)
      requires Valid()
      modifies this`writeBufferLen, writeBuffer, low
      ensures Valid() && -1 <= r <= |buf|
      ensures Accepted() == old(Accepted()) + (if r < 0 then [] else buf[..r])
      ensures Written(r, low.writeCalls, writeBufferLen) ==
              Wrote(low.writeAnswer, bufferMaxSize, old(low.writeCalls), old(writeBufferLen), |buf|)
      ensures Reliable(low.writeAnswer) || |buf| <= bufferMaxSize ==>
                r == |buf| || (r == -1 && !Reliable(low.writeAnswer))
      ensures low.incoming == old(low.incoming) && low.readCalls == old(low.readCalls)
    {
      ghost var k, buffered := low.writeCalls, writeBufferLen;
      if |buf| + writeBufferLen > bufferMaxSize {
        r := Flush();
        if r == -1 {
          return;
        }
        if |buf| > bufferMaxSize {
          if Reliable(low.writeAnswer) {
            ReliablePump(low.writeAnswer, low.writeCalls, 0, |buf|);
          }
          r := WriteDirect(buf);
          assert r < 0 ==> buf[..0] == [];
          return;
        }
      }
      r := WriteToInternalBuffer(buf);
      assert buf[..r] == buf;
    }

    /** read_from_internal_buffer: moves up to count bytes of the buffer into buf. */
    method ReadFromInternalBuffer(buf: array<byte>, off: nat, count: nat) returns (n: nat)
      requires Valid() && buf != readBuffer && buf != writeBuffer && off + count <= buf.Length
      modifies this`readBufferLen, readBuffer, buf
      ensures Valid() && n == (if count >= old(readBufferLen) then old(readBufferLen) else count)
      ensures readBufferLen == old(readBufferLen) - n
      ensures readBuffer[..readBufferLen] == old(readBuffer[n..readBufferLen])
      ensures Lies(buf[..], off, old(readBuffer[..n]))
      ensures buf[..off] == old(buf[..off])
    {
      n := if count >= readBufferLen then readBufferLen else count;
      forall k | 0 <= k < n {
        buf[off + k] := readBuffer[k];
      }
      readBufferLen := readBufferLen - n;
      forall k | 0 <= k < readBufferLen {
        readBuffer[k] := readBuffer[n + k];
      }
    }

    /** The same, said of all that is pending. */
    method Deliver(buf: array<byte>, off: nat, count: nat) returns (n: nat)
      requires Valid() && buf != readBuffer && buf != writeBuffer && off + count <= buf.Length
      modifies this`readBufferLen, readBuffer, buf
      ensures Valid() && n == (if count >= old(readBufferLen) then old(readBufferLen) else count)
      ensures readBufferLen == old(readBufferLen) - n && n <= |old(Pending())|
      ensures Lies(buf[..], off, old(Pending())[..n]) && Pending() == old(Pending())[n..]
      ensures buf[..off] == old(buf[..off])
    {
      ghost var pending, buffered := Pending(), readBuffer[..readBufferLen];
      n := ReadFromInternalBuffer(buf, off, count);
      SplitBuffered(buffered, low.incoming, n);
      assert pending[..n] == buffered[..n] == old(readBuffer[..n]);
    }

    /** mailstream_read once the buffer is empty: straight into buf, or through the buffer. */
    method ReadFurther(buf: array<byte>, off: nat, left: nat) returns (r: int)
      requires Valid() && buf != readBuffer && buf != writeBuffer && off + left <= buf.Length
      requires readBufferLen == 0 && left > 0
      modifies this`readBufferLen, readBuffer, low, buf
      ensures Valid() && -1 <= r <= left && r <= |old(Pending())|
      ensures r >= 0 ==> Lies(buf[..], off, old(Pending())[..r]) && Pending() == old(Pending())[r..]
      ensures r < 0 ==> Pending() == old(Pending())
      ensures buf[..off] == old(buf[..off])
      ensures low.taken == old(low.taken) && low.writeCalls == old(low.writeCalls)
    {
      ghost var pending := Pending();
      if left > bufferMaxSize {
        r := low.Read(buf, off, left);
        return;
      }
      var got := Refill();
      if got < 0 {
        return -1;
      }
      r := Deliver(buf, off, left);
    }

    /** Asks the low stream to fill the empty read buffer. */
    method Refill() returns (got: int)
      requires Valid() && readBufferLen == 0
      modifies this`readBufferLen, readBuffer, low
      ensures Valid() && Pending() == old(Pending())
      ensures low.taken == old(low.taken) && low.writeCalls == old(low.writeCalls)
    {
      ghost var incoming := low.incoming;
      got := low.Read(readBuffer, 0, bufferMaxSize);
      if got >= 0 {
        readBufferLen := got;
        assert readBuffer[..got] == readBuffer[0..got];
        Chunk(incoming, got);
      }
    }

    /** mailstream_read: up to count bytes into buf from position off, or -1.  When the buffer holds
        enough, the low stream is not asked. */
    method Read(buf: array<byte>, off: nat, count: nat) returns (r: int)
      requires Valid() && buf != readBuffer && buf != writeBuffer && off + count <= buf.Length
      modifies this`readBufferLen, readBuffer, low, buf
      ensures Valid() && -1 <= r <= count && r <= |old(Pending())|
      ensures r >= 0 ==> Lies(buf[..], off, old(Pending())[..r]) && Pending() == old(Pending())[r..]
      ensures r < 0 ==> Pending() == old(Pending())
      ensures buf[..off] == old(buf[..off])
      ensures count <= old(readBufferLen) ==>
                r == count && low.readCalls == old(low.readCalls) && low.incoming == old(low.incoming)
                && readBufferLen == old(readBufferLen) - count
      ensures low.taken == old(low.taken) && low.writeCalls == old(low.writeCalls)
    {
      ghost var pending := Pending();
      var n := Deliver(buf, off, count);
      r := n;
      if n < count {
        r := ReadBeyondBuffer(buf, off, count, n, pending);
      }
    }

    /** The part of mailstream_read after the n buffered bytes have been delivered. */
    method ReadBeyondBuffer(buf: array<byte>, off: nat, count: nat, n: nat, ghost pending: seq<byte>) returns (r: int)
      requires Valid() && buf != readBuffer && buf != writeBuffer && off + count <= buf.Length
      requires readBufferLen == 0 && n < count && n <= |pending|
      requires Lies(buf[..], off, pending[..n]) && Pending() == pending[n..]
      modifies this`readBufferLen, readBuffer, low, buf
      ensures Valid() && -1 <= r <= count && r <= |pending|
      ensures r >= 0 ==> Lies(buf[..], off, pending[..r]) && Pending() == pending[r..]
      ensures r < 0 ==> Pending() == pending
      ensures buf[..off] == old(buf[..off])
      ensures low.taken == old(low.taken) && low.writeCalls == old(low.writeCalls)
    {
      ghost var was := buf[..];
      var more := ReadFurther(buf, off + n, count - n);
      LiesTogether(was, buf[..], off, pending, n, if more < 0 then 0 else more);
      r := if more >= 0 then n + more else if n == 0 then -1 else n;
    }

    /** mailstream_feed_read_buffer: fills the empty read buffer; 0 at the end of the stream, or -1. */
    method FeedReadBuffer() returns (r: int)
      requires Valid()
      modifies this`readBufferLen, readBuffer, low
      ensures Valid() && Pending() == old(Pending())
      ensures r == -1 || r == readBufferLen
      ensures r == -1 ==> old(readBufferLen) == 0 && readBufferLen == 0
      ensures |low.incoming| <= |old(low.incoming)|
      ensures old(readBufferLen) == 0 ==> |low.incoming| + readBufferLen == |old(low.incoming)|
      ensures low.Steady() && bufferMaxSize > 0 ==> r >= 0
      ensures low.Unbroken() && bufferMaxSize > 0 && r == 0 ==> Pending() == []
      ensures low.taken == old(low.taken) && low.writeCalls == old(low.writeCalls)
    {
      if readBufferLen == 0 {
        var got := low.Read(readBuffer, 0, bufferMaxSize);
        if got < 0 {
          return -1;
        }
        readBufferLen := readBufferLen + got;
        assert readBuffer[..got] == old(low.incoming)[..got];
      }
      r := readBufferLen;
    }
  }
}
