/** A string that grows in place: a sequence of bytes kept in an array of power-of-two size. */
module MmapString {
  import Arith
  import opened Options
  import opened Bits

  predicate IsPower(n: nat) {
    n == 1 || (n > 1 && n % 2 == 0 && IsPower(n / 2))
  }

  lemma {:induction false} PowersAreApart(a: nat, b: nat)
    requires IsPower(a) && IsPower(b) && a < b
    ensures 2 * a <= b
  {
    if a > 1 {
      PowersAreApart(a / 2, b / 2);
    }
  }

  lemma DoubleIsPower(n: nat)
    requires IsPower(n)
    ensures IsPower(2 * n)
  {
    assert 2 * n / 2 == n;
  }

  lemma {:induction false} PowersFit(n: nat)
    requires IsPower(n) && n <= SIZE_MAX
    ensures n <= 0x8000_0000_0000_0000
  {
    LargePowers();
    PowersArePowers(63);
    if n > 0x8000_0000_0000_0000 {
      PowersAreApart(0x8000_0000_0000_0000, n);
    }
  }

  lemma {:induction false} PowersArePowers(n: nat)
    ensures IsPower(Pow2(n))
  {
    if n > 0 {
      PowersArePowers(n - 1);
      DoubleIsPower(Pow2(n - 1));
    }
  }

  /** The least power of two, from the base on, that is large enough; the greatest size if none is sure to fit. */
  method NearestPower(base: nat, num: nat) returns (n: nat)
    requires IsPower(base) && base <= SIZE_MAX && num <= SIZE_MAX
    ensures num > SIZE_MAX / 2 ==> n == SIZE_MAX
    ensures num <= SIZE_MAX / 2 ==> IsPower(n) && base <= n <= SIZE_MAX && num <= n && (n == base || n < 2 * num)
  {
    if num > SIZE_MAX / 2 {
      return SIZE_MAX;
    }
    n := base;
    while n < num
      invariant IsPower(n) && base <= n <= SIZE_MAX && (n == base || n < 2 * num)
    {
      DoubleIsPower(n);
      n := 2 * n % (SIZE_MAX + 1);
    }
  }

  // What the operations do, on plain sequences

  datatype Op =
    | Insert(pos: nat, val: seq<byte>)
    | Erase(pos: nat, len: nat)
    | Truncate(len: nat)

  /** The sequence after an operation, or nothing if it refuses. */
  function Apply(s: seq<byte>, op: Op): Option<seq<byte>> {
    match op
    case Insert(pos, val) =>
      if pos > |s| || |s| + |val| + 1 > SIZE_MAX then None else Some(s[..pos] + val + s[pos..])
    case Erase(pos, len) =>
      if pos > |s| || pos + len > |s| then None else Some(s[..pos] + s[pos + len..])
    case Truncate(len) => Some(if len < |s| then s[..len] else s)
  }

  class MMAPString {
    var str: array<byte>
    var len: nat
    var allocatedLen: nat
    /** The sizes ever allocated, added up, and the greatest length asked for; and whether it has grown. */
    ghost var total: nat
    ghost var peak: nat
    ghost var grown: bool

    ghost predicate Valid()
      reads this, str
    {
      && len < allocatedLen == str.Length <= SIZE_MAX
      && str[len] == 0
      && len <= peak
      && Sizes()
    }

    /** The capacity is a power of two, or all there is, and little was allocated before it. */
    ghost predicate Sizes()
      reads this
    {
      && (if IsPower(allocatedLen) then total < 2 * allocatedLen
          else allocatedLen == SIZE_MAX && total <= 2 * allocatedLen)
      && (grown ==> allocatedLen < 2 * (peak + 1))
    }

    ghost function Contents(): seq<byte>
      requires Valid()
      reads this, str
    {
      str[..len]
    }

    /** Without contents, and room for so many bytes. */
    constructor (size: nat)
      requires size < SIZE_MAX
      ensures Valid() && Contents() == [] && size < allocatedLen
      ensures !grown && peak == 0 && fresh(str)
    {
      var room := if size > 2 then size else 2;
      var capacity := NearestPower(1, room + 1);
      if IsPower(capacity) {
        PowersFit(capacity);
      }
      str := new byte[capacity];
      len, allocatedLen := 0, capacity;
      total, peak, grown := capacity, 0, false;
      new;
      str[0] := 0;
    }

    /** A larger array with the same bytes in front. */
    method Realloc()
      requires str.Length <= allocatedLen
      modifies this`str
      ensures fresh(str) && str.Length == allocatedLen && str[..old(str.Length)] == old(str[..])
    {
      var tmp := new byte[allocatedLen];
      forall i | 0 <= i < str.Length {
        tmp[i] := str[i];
      }
      str := tmp;
    }

    /** Makes room for more bytes; memory tells whether there is any left. */
    method MaybeExpand(more: nat, memory: bool) returns (ok: bool)
      requires Valid()
      modifies this
      ensures Valid() && Contents() == old(Contents())
      ensures ok <==> len + more + 1 <= SIZE_MAX && (memory || len + more < old(allocatedLen))
      ensures ok ==> len + more < allocatedLen && peak == Arith.Max(old(peak), len + more)
      ensures !ok ==> str == old(str) && peak == old(peak)
      ensures str == old(str) || (fresh(str) && grown)
      ensures len == old(len) && (old(grown) ==> grown)
    {
      if more > SIZE_MAX - len - 1 {
        return false;
      }
      var neededSize := len + more + 1;
      if len + more >= allocatedLen {
        var capacity := NearestPower(1, neededSize);
        if !memory {
          return false;
        }
        GrowthIsLarge(allocatedLen, capacity, neededSize);
        allocatedLen := capacity;
        ghost var bytes := str[..];
        Realloc();
        SameFront(bytes, str[..], len);
        total, grown := total + capacity, true;
      }
      peak := Arith.Max(peak, len + more);
      ok := true;
    }

    /** Inserts bytes, which are not the string's own. */
    method InsertLen(pos: nat, val: seq<byte>, memory: bool) returns (ok: bool)
      requires Valid()
      modifies this, str
      ensures Valid() && Changed(old(Contents()), Insert(pos, val), ok)
      ensures Apply(old(Contents()), Insert(pos, val)).Some? ==> ok == (memory || old(len) + |val| < old(allocatedLen))
      ensures peak == if ok then Arith.Max(old(peak), len) else old(peak)
      ensures str == old(str) || fresh(str)
      ensures old(grown) ==> grown
    {
      hide Moved, Copied, Apply;
      Refuses(Contents(), pos, val, 0);
      if pos > len || len >= SIZE_MAX || |val| > SIZE_MAX - len - 1 {
        return false;
      }
      ok := MaybeExpand(|val|, memory);
      if !ok {
        return;
      }
      Inserted(str[..], len, pos, val);
      if pos < len {
        Move(pos + |val|, pos, len - pos);
      }
      CopyInto(pos, val);
      End(len + |val|);
    }

    method InsertC(pos: nat, c: byte, memory: bool) returns (ok: bool)
      requires Valid()
      modifies this, str
      ensures Valid() && Changed(old(Contents()), Insert(pos, [c]), ok)
      ensures Apply(old(Contents()), Insert(pos, [c])).Some? ==> ok == (memory || old(len) + 1 < old(allocatedLen))
      ensures peak == if ok then Arith.Max(old(peak), len) else old(peak)
      ensures str == old(str) || fresh(str)
      ensures old(grown) ==> grown
    {
      hide Moved, Copied, Apply;
      Refuses(Contents(), pos, [c], 0);
      if pos > len || len == SIZE_MAX {
        return false;
      }
      ok := MaybeExpand(1, memory);
      if !ok {
        return;
      }
      Inserted(str[..], len, pos, [c]);
      if pos < len {
        Move(pos + 1, pos, len - pos);
      }
      CopyOne(pos, c);
      End(len + 1);
    }

    /** Bytes copied over those at a place. */
    method CopyInto(pos: nat, val: seq<byte>)
      requires pos + |val| <= str.Length
      modifies str
      ensures str[..] == Copied(old(str[..]), pos, val)
    {
      forall i | 0 <= i < |val| {
        str[pos + i] := val[i];
      }
    }

    method CopyOne(pos: nat, c: byte)
      requires pos < str.Length
      modifies str
      ensures str[..] == Copied(old(str[..]), pos, [c])
    {
      str[pos] := c;
    }

    /** Ends the string here. */
    method End(n: nat)
      requires n < str.Length
      modifies this`len, str
      ensures len == n && str[len] == 0 && str[..len] == old(str[..])[..n]
    {
      len := n;
      str[len] := 0;
    }

    /** The bytes of one place, moved to another; the places may overlap. */
    method Move(to: nat, from: nat, n: nat)
      requires to + n <= str.Length && from + n <= str.Length
      modifies str
      ensures str[..] == Moved(old(str[..]), to, from, n)
    {
      forall i | 0 <= i < n {
        str[to + i] := str[from + i];
      }
    }

    method EraseLen(pos: nat, n: nat) returns (ok: bool)
      requires Valid()
      modifies this`len, str
      ensures Valid() && Changed(old(Contents()), Erase(pos, n), ok)
      ensures ok == Apply(old(Contents()), Erase(pos, n)).Some?
    {
      hide Moved, Apply;
      Refuses(Contents(), pos, [], n);
      if pos > len || n > len - pos {
        return false;
      }
      Erased(str[..], len, pos, n);
      if pos + n < len {
        Move(pos, pos + n, len - (pos + n));
      }
      End(len - n);
      ok := true;
    }

    method TruncateTo(n: nat)
      requires Valid()
      modifies this`len, str
      ensures Valid() && Changed(old(Contents()), Truncate(n), true)
    {
      ghost var before := Contents();
      End(if n < len then n else len);
      assert Contents() == before[..len];
    }

    /** Sets the length; bytes that were not there before are whatever the array holds. */
    method SetSize(n: nat, memory: bool) returns (ok: bool)
      requires Valid()
      modifies this, str
      ensures Valid()
      ensures ok <==> n + 1 <= SIZE_MAX && (memory || n < old(allocatedLen))
      ensures ok ==> len == n
      ensures ok && n <= old(len) ==> Contents() == old(Contents())[..n]
      ensures ok && n > old(len) ==> Contents()[..old(len)] == old(Contents())
      ensures !ok ==> Contents() == old(Contents())
      ensures peak == if ok then Arith.Max(old(peak), n) else old(peak)
      ensures str == old(str) || (fresh(str) && grown)
      ensures old(grown) ==> grown
    {
      ghost var before := Contents();
      if n >= allocatedLen {
        ok := MaybeExpand(n - len, memory);
        if !ok {
          return;
        }
      }
      End(n);
      peak := Arith.Max(peak, n);
      if n <= |before| {
        assert Contents() == before[..n];
      } else {
        assert Contents()[..|before|] == before;
      }
      ok := true;
    }

    /** An operation that succeeds does what it does on sequences; one that fails leaves everything as it was. */
    ghost predicate Changed(before: seq<byte>, op: Op, ok: bool)
      requires Valid()
      reads this, str
    {
      if ok then Apply(before, op) == Some(Contents()) else Contents() == before
    }

    lemma EndsInNul()
      requires Valid()
      ensures len < str.Length && str[len] == 0
    {
    }

    /** All the memory ever allocated is less than four times what the longest contents needed. */
    lemma AllocatesLittle()
      requires Valid() && grown
      ensures total < 4 * (peak + 1)
    {
    }
  }

  // Runs

  /** The sequence after a run of operations; one that refuses changes nothing. */
  function ApplyAll(s: seq<byte>, ops: seq<Op>): seq<byte> {
    if ops == [] then s
    else
      var n := |ops| - 1;
      var before := ApplyAll(s, ops[..n]);
      match Apply(before, ops[n])
      case None => before
      case Some(after) => after
  }

  /** Every operation of the run inserts at the end of what is there. */
  predicate AppendOnly(s: seq<byte>, ops: seq<Op>) {
    forall i :: 0 <= i < |ops| ==> ops[i].Insert? && ops[i].pos == |ApplyAll(s, ops[..i])|
  }

  /** A run while there is memory does what it does on sequences; a run that only appends, from a string
      that was never longer, allocates less than four times what its contents need at the end. */
  method Replay(s: MMAPString, ops: seq<Op>)
    requires s.Valid()
    modifies s, s.str
    ensures s.Valid() && s.Contents() == ApplyAll(old(s.Contents()), ops)
    ensures AppendOnly(old(s.Contents()), ops) && old(s.peak == s.len) ==>
              s.peak == s.len && (s.grown ==> s.total < 4 * (s.len + 1))
  {
    hide Apply;
    ghost var start := s.Contents();
    for i := 0 to |ops|
      invariant s.Valid() && s.Contents() == ApplyAll(start, ops[..i])
      invariant s.str == old(s.str) || fresh(s.str)
      invariant AppendOnly(start, ops) && old(s.peak == s.len) ==> s.peak == s.len
    {
      OneOpMore(start, ops, i);
      match ops[i]
      case Insert(pos, val) => var ok := s.InsertLen(pos, val, true);
      case Erase(pos, len) => var ok := s.EraseLen(pos, len);
      case Truncate(len) => s.TruncateTo(len);
    }
    assert ops[..|ops|] == ops;
    if s.grown {
      s.AllocatesLittle();
    }
  }

  lemma OneOpMore(s: seq<byte>, ops: seq<Op>, i: nat)
    requires i < |ops|
    ensures var before := ApplyAll(s, ops[..i]);
            ApplyAll(s, ops[..i + 1]) == match Apply(before, ops[i]) case None => before case Some(after) => after
    ensures ops[i].Truncate? ==> Apply(ApplyAll(s, ops[..i]), ops[i]).Some?
    ensures AppendOnly(s, ops) && ops[i].Insert? && Apply(ApplyAll(s, ops[..i]), ops[i]).Some? ==>
              |ApplyAll(s, ops[..i + 1])| >= |ApplyAll(s, ops[..i])|
  {
    assert ops[..i + 1][..i] == ops[..i];
  }

  /** The bytes of one place, moved to another. */
  function Moved(s: seq<byte>, to: nat, from: nat, n: nat): (r: seq<byte>)
    requires to + n <= |s| && from + n <= |s|
    ensures |r| == |s|
  {
    s[..to] + s[from..from + n] + s[to + n..]
  }

  function Copied(s: seq<byte>, pos: nat, val: seq<byte>): (r: seq<byte>)
    requires pos + |val| <= |s|
    ensures |r| == |s|
  {
    s[..pos] + val + s[pos + |val|..]
  }

  lemma Refuses(s: seq<byte>, pos: nat, val: seq<byte>, n: nat)
    ensures Apply(s, Insert(pos, val)).None? <==> pos > |s| || |s| + |val| + 1 > SIZE_MAX
    ensures Apply(s, Erase(pos, n)).None? <==> pos > |s| || pos + n > |s|
  {
  }

  /** A move makes a gap, and a copy fills it. */
  lemma Inserted(s: seq<byte>, len: nat, pos: nat, val: seq<byte>)
    requires pos <= len && len + |val| < |s| <= SIZE_MAX
    ensures var moved := if pos < len then Moved(s, pos + |val|, pos, len - pos) else s;
            Apply(s[..len], Insert(pos, val)) == Some(Copied(moved, pos, val)[..len + |val|])
  {
    var moved := if pos < len then Moved(s, pos + |val|, pos, len - pos) else s;
    assert moved[..pos] == s[..pos];
    assert moved[pos + |val|..len + |val|] == s[pos..len];
    var whole := Copied(moved, pos, val);
    assert whole[..len + |val|] == moved[..pos] + val + moved[pos + |val|..len + |val|];
    assert s[..len][..pos] == s[..pos] && s[..len][pos..] == s[pos..len];
  }

  /** A move closes a gap. */
  lemma Erased(s: seq<byte>, len: nat, pos: nat, n: nat)
    requires pos + n <= len < |s|
    ensures var moved := if pos + n < len then Moved(s, pos, pos + n, len - (pos + n)) else s;
            Apply(s[..len], Erase(pos, n)) == Some(moved[..len - n])
  {
    var moved := if pos + n < len then Moved(s, pos, pos + n, len - (pos + n)) else s;
    assert moved[..len - n] == s[..len][..pos] + s[..len][pos + n..];
  }

  lemma SameFront(a: seq<byte>, b: seq<byte>, n: nat)
    requires n < |a| <= |b| && b[..|a|] == a
    ensures b[..n] == a[..n] && b[n] == a[n]
  {
    assert b[..n] == b[..|a|][..n];
  }

  /** A capacity that does not suffice is at most half of the one that takes its place. */
  lemma GrowthIsLarge(before: nat, after: nat, needed: nat)
    requires IsPower(before) || before == SIZE_MAX
    requires before < needed <= after <= SIZE_MAX
    requires if needed > SIZE_MAX / 2 then after == SIZE_MAX else IsPower(after) && (after == 1 || after < 2 * needed)
    ensures after < 2 * needed
    ensures IsPower(before)
    ensures if IsPower(after) then 2 * before <= after else after == SIZE_MAX && 2 * before <= SIZE_MAX + 1
  {
    PowersFit(before);
    if IsPower(after) {
      PowersAreApart(before, after);
    }
  }
}
